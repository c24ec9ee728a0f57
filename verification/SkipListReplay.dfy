/** The index driven through whole runs: each answer is the finite map's, for any node heights. */
module SkipListReplay {
  import opened Wrappers
  import opened SortedKeys
  import opened Positions
  import opened SkipListNodes
  import opened SkipListLevels
  import opened SkipListIterators
  import opened SkipLists
  import opened SkipListRuns
  import opened SkipListValidation

  /** An initialized index with unique keys. */
  ghost predicate Ready(list: SkipList)
    reads list, list.Repr
    ensures Ready(list) ==> list in list.Repr && forall n :: n in list.nodes ==> n in list.Repr
    ensures Ready(list) ==> forall o :: o in list.Repr ==> !(o is RowInfo)
    ensures Ready(list) ==> |list.nodes| > 0 && Rowed(list.nodes) && StrictlyOrdered(Keys(list.nodes))
  {
    list.Valid() && list.initialized && list.primaryIndex
  }

  /** The map the index stands for. */
  ghost function Model(list: SkipList): (m: map<Key, Row>)
    requires Ready(list)
    reads list, list.Repr, list.nodes, set n | n in list.nodes && n.rowInfo != null :: n.rowInfo
    ensures m.Keys == KeySet(Keys(list.nodes)) && |m| == |Keys(list.nodes)|
  {
    ModelKeys(list.nodes);
    ModelOf(EntriesOf(list.nodes))
  }

  lemma KeysOfEntries(nodes: seq<SkipListNode>)
    requires |nodes| > 0 && Rowed(nodes)
    ensures EntryKeys(EntriesOf(nodes)) == Keys(nodes)
  {
  }

  lemma ModelKeys(nodes: seq<SkipListNode>)
    requires |nodes| > 0 && Rowed(nodes) && StrictlyOrdered(Keys(nodes))
    ensures StrictlyOrdered(EntryKeys(EntriesOf(nodes)))
    ensures var m := ModelOf(EntriesOf(nodes)); m.Keys == KeySet(Keys(nodes)) && |m| == |Keys(nodes)|
  {
    hide Rowed, StrictlyOrdered, LowerBound, RowAt;
    KeysOfEntries(nodes);
    ModelSize(EntriesOf(nodes));
  }

  lemma ModelIs(list: SkipList)
    requires Ready(list)
    ensures EntryKeys(EntriesOf(list.nodes)) == Keys(list.nodes)
    ensures Model(list) == ModelOf(EntriesOf(list.nodes))
  {
  }

  // ---------- one operation ----------

  method DoInsert(list: SkipList, key: Key, row: Row, height: uint8) returns (b: bool)
    requires Ready(list) && height <= list.maxNodeHeight
    modifies list.Repr
    ensures Ready(list) && (forall o :: o in Footprint(list) ==> o in old(Footprint(list)) || fresh(o))
    ensures b == (key !in old(Model(list)))
    ensures Model(list) == if key in old(Model(list)) then old(Model(list)) else old(Model(list))[key := row]
  {
    hide Chained, Ordered, StrictlyOrdered, Rowed, EntriesOf, ModelOf, Model, Inserted, LowerBound;
    ghost var es := EntriesOf(list.nodes);
    ModelIs(list);
    var r, h := list.Insert(key, row.data, row.size, height, null);
    b := r.value;
    ModelIs(list);
    if b {
      ModelInserted(es, LowerBound(EntryKeys(es), key), Entry(key, h, row.data, row.size, NoStatus));
    }
  }

  method DoRemove(list: SkipList, key: Key) returns (b: bool)
    requires Ready(list)
    modifies list.Repr
    ensures Ready(list) && (forall o :: o in Footprint(list) ==> o in old(Footprint(list)) || fresh(o))
    ensures b == (key in old(Model(list)))
    ensures Model(list) == old(Model(list)) - {key}
  {
    hide Chained, Ordered, StrictlyOrdered, Rowed, EntriesOf, ModelOf, Model, Removed, LowerBound, FirstIsTallest, Footprint;
    ghost var es := EntriesOf(list.nodes);
    ModelIs(list);
    var r := list.Remove(key);
    b := r.value;
    FootprintShrinks(list);
    ModelIs(list);
    if b {
      StoredRank(EntryKeys(es), key);
      ModelRemoved(es, LowerBound(EntryKeys(es), key));
    }
  }

  method DoUpdate(list: SkipList, key: Key, row: Row) returns (b: bool)
    requires Ready(list)
    modifies set n | n in list.nodes && n.rowInfo != null :: n.rowInfo
    ensures Ready(list) && (forall o :: o in Footprint(list) ==> o in old(Footprint(list)) || fresh(o))
    ensures b == (key in old(Model(list)))
    ensures Model(list) == if key in old(Model(list)) then old(Model(list))[key := row] else old(Model(list))
  {
    hide Chained, Ordered, StrictlyOrdered, Rowed, EntriesOf, ModelOf, Model, UpdatedRow, Footprint, Met, LowerBound;
    ghost var es, m := EntriesOf(list.nodes), Model(list);
    ModelIs(list);
    var r, pos := list.Update(key, row.data, row.size, null);
    b := r.value;
    assert Footprint(list) == old(Footprint(list));
    ModelIs(list);
    if b {
      FoundStored(list.nodes, key, pos);
      assert EntryKeys(es)[pos - 1] == key;
      ModelUpdated(es, pos - 1, row.data, row.size);
      assert Model(list) == m[key := row];
    }
  }

  method DoFind(list: SkipList, key: Key) returns (data: Data)
    requires Ready(list)
    ensures Ready(list) && data == if key in Model(list) then Model(list)[key].data else None
  {
    hide Chained, Ordered, StrictlyOrdered, Rowed, EntriesOf, ModelOf, Model;
    ModelIs(list);
    var r, pos := list.Find(key);
    data := r.value;
    if key in Keys(list.nodes) {
      FoundRow(EntriesOf(list.nodes), key, pos - 1);
    }
  }

  lemma FoundRow(es: seq<Entry>, key: Key, i: nat)
    requires StrictlyOrdered(EntryKeys(es)) && i < |es| && es[i].key == key
    ensures key in ModelOf(es) && ModelOf(es)[key] == RowOf(es[i])
  {
    assert EntryKeys(es)[i] == key;
    LowerBoundUnique(EntryKeys(es), key, i);
  }

  // ---------- scans ----------

  /** A full scan, driven the way a table scan is. */
  method CollectScan(list: SkipList) returns (keys: seq<Key>)
    requires list.Valid() && list.initialized
    ensures keys == Keys(list.nodes)
  {
    hide Chained, Ordered, StrictlyOrdered, Rowed;
    var r := list.Begin();
    var it := r.value;
    keys := [];
    ghost var ns, pos := list.nodes, 1;
    while it.IsValid()
      modifies it
      invariant 1 <= pos <= |ns| && it.endKey == None && it.current == NodeAt(ns, pos)
      invariant keys == Keys(ns)[..pos - 1]
      decreases |ns| - pos
    {
      Successor(ns, list.maxNodeHeight, pos);
      var key := it.GetKey();
      keys := keys + [key];
      it.Next();
      pos := pos + 1;
    }
  }

  /** A bounded scan. Some stored key must lie past both bounds, or the iterator reads a null node. */
  method CollectRange(list: SkipList, low: Key, high: Key) returns (keys: seq<Key>)
    requires Ready(list) && KeyPast(Keys(list.nodes), low, high)
    ensures keys == Within(Keys(list.nodes), low, high)
  {
    hide Chained, Ordered, Rowed, LowerBound, Walk, Within;
    ghost var ns, ks := list.nodes, Keys(list.nodes);
    RangeScanVisits(ks, low, high);
    WalkStarts(ks, LowerBound(ks, low), high);
    var r;
    ghost var pos;
    r, pos := list.Seek(low, Some(high));
    var it := r.value;
    SeekPosition(ns, low, pos);
    keys := [];
    ghost var all := Walk(ks, LowerBound(ks, low), high).value;
    while it.IsValid()
      modifies it
      invariant 1 <= pos <= |ns| && it.endKey == Some(high) && it.current == Bounded(ns, pos, Some(high))
      invariant Walk(ks, pos - 1, high).Some? && all == keys + Walk(ks, pos - 1, high).value
      decreases |ns| - pos
    {
      WalkSteps(ks, pos - 1, high);
      Successor(ns, list.maxNodeHeight, pos);
      var key := it.GetKey();
      keys := keys + [key];
      it.Next();
      pos := pos + 1;
    }
    WalkEnds(ks, pos - 1, high);
  }

  lemma WalkStarts(keys: seq<Key>, pos: nat, endKey: Key)
    requires Walk(keys, pos, endKey).Some?
    ensures pos < |keys|
  {
  }

  lemma WalkSteps(keys: seq<Key>, pos: nat, endKey: Key)
    requires Walk(keys, pos, endKey).Some? && pos < |keys| && keys[pos] <= endKey
    ensures pos + 1 < |keys| && Walk(keys, pos + 1, endKey).Some?
    ensures Walk(keys, pos, endKey).value == [keys[pos]] + Walk(keys, pos + 1, endKey).value
  {
  }

  lemma WalkEnds(keys: seq<Key>, pos: nat, endKey: Key)
    requires Walk(keys, pos, endKey).Some? && !(pos < |keys| && keys[pos] <= endKey)
    ensures Walk(keys, pos, endKey).value == []
  {
  }

  /** With unique keys a seek lands right after the smaller keys. */
  lemma SeekPosition(nodes: seq<SkipListNode>, key: Key, pos: nat)
    requires |nodes| > 0 && StrictlyOrdered(Keys(nodes))
    requires if key in Keys(nodes) then Met(nodes, key, pos) else pos == LowerBound(Keys(nodes), key) + 1
    ensures pos == LowerBound(Keys(nodes), key) + 1
  {
    if key in Keys(nodes) {
      assert Keys(nodes)[pos - 1] == key;
      LowerBoundUnique(Keys(nodes), key, pos - 1);
    }
  }

  lemma PastIffLegal(keys: seq<Key>, low: Key, high: Key)
    ensures KeyPast(keys, low, high) <==> exists k :: k in KeySet(keys) && k >= low && k > high
  {
    forall k | k in KeySet(keys) && k >= low && k > high ensures KeyPast(keys, low, high) {
      var i :| 0 <= i < |keys| && keys[i] == k;
    }
    if KeyPast(keys, low, high) {
      var i :| 0 <= i < |keys| && keys[i] >= low && keys[i] > high;
      assert keys[i] in KeySet(keys);
    }
  }

  lemma WithinAnswers(keys: seq<Key>, low: Key, high: Key)
    requires StrictlyOrdered(keys)
    ensures StrictlyOrdered(Within(keys, low, high))
    ensures KeySet(Within(keys, low, high)) == InRange(KeySet(keys), low, high + 1)
  {
    WithinIsStrict(keys, low, high);
  }

  method DoContains(list: SkipList, key: Key) returns (b: bool)
    requires Ready(list)
    ensures b == (key in Model(list))
  {
    hide Chained, Ordered, StrictlyOrdered, Rowed, EntriesOf, ModelOf;
    var r := list.Contains(key);
    b := r.value;
  }

  method DoSize(list: SkipList, calculate: bool) returns (n: nat)
    requires Ready(list)
    ensures n == |Model(list)|
  {
    hide Chained, Ordered, StrictlyOrdered, Rowed, EntriesOf, ModelOf;
    var r := list.Size(calculate);
    n := r.value;
  }

  method DoEmpty(list: SkipList) returns (b: bool)
    requires Ready(list)
    ensures b == (Model(list) == map[])
  {
    hide Chained, Ordered, StrictlyOrdered, Rowed, EntriesOf, ModelOf;
    var r := list.Empty();
    b := r.value;
    assert |Model(list)| == 0 <==> Model(list) == map[];
  }

  method DoCount(list: SkipList, low: Key, high: Key) returns (n: nat)
    requires Ready(list)
    ensures n == |InRange(Model(list).Keys, low, high)|
  {
    hide Chained, Ordered, Rowed, EntriesOf, ModelOf, CountIn;
    var r := list.EstimateRangeCardinality(low, high);
    n := r.value;
    if low <= high {
      CountInSet(Keys(list.nodes), low, high);
    } else {
      assert InRange(Model(list).Keys, low, high) == {};
    }
  }

  method DoScan(list: SkipList) returns (keys: seq<Key>)
    requires Ready(list)
    ensures StrictlyOrdered(keys) && KeySet(keys) == Model(list).Keys
  {
    hide Chained, Ordered, Rowed, EntriesOf, ModelOf;
    keys := CollectScan(list);
  }

  method DoRangeScan(list: SkipList, low: Key, high: Key) returns (keys: seq<Key>)
    requires Ready(list) && exists k :: k in Model(list) && k >= low && k > high
    ensures StrictlyOrdered(keys) && KeySet(keys) == InRange(Model(list).Keys, low, high + 1)
  {
    hide Chained, Ordered, StrictlyOrdered, Rowed, EntriesOf, ModelOf, KeyPast, Within;
    PastIffLegal(Keys(list.nodes), low, high);
    keys := CollectRange(list, low, high);
    WithinAnswers(Keys(list.nodes), low, high);
  }

  // ---------- runs ----------

  /** The operations that change nothing. */
  method Ask(list: SkipList, op: Op) returns (a: Answer)
    requires Ready(list) && !op.Insert? && !op.Remove? && !op.Update?
    requires Legal(Model(list), op, list.maxNodeHeight)
    ensures Ready(list) && Answers(Model(list), op, a)
  {
    hide Ready, Model, StrictlyOrdered, Rowed, InRange, KeySet;
    match op
    case Find(key) =>
      var data := DoFind(list, key);
      a := Bytes(data);
    case Contains(key) =>
      var b := DoContains(list, key);
      a := Flag(b);
    case Size(calculate) =>
      var n := DoSize(list, calculate);
      a := Count(n);
    case Empty =>
      var b := DoEmpty(list);
      a := Flag(b);
    case CountRange(low, high) =>
      var n := DoCount(list, low, high);
      a := Count(n);
    case Scan =>
      var keys := DoScan(list);
      a := Visited(keys);
    case RangeScan(low, high) =>
      var keys := DoRangeScan(list, low, high);
      a := Visited(keys);
  }

  /** The operations that change the index. */
  method Change(list: SkipList, op: Op) returns (a: Answer)
    requires Ready(list) && (op.Insert? || op.Remove? || op.Update?)
    requires Legal(Model(list), op, list.maxNodeHeight)
    modifies Footprint(list)
    ensures Ready(list) && (forall o :: o in Footprint(list) ==> o in old(Footprint(list)) || fresh(o))
    ensures Answers(old(Model(list)), op, a)
    ensures Model(list) == Step(old(Model(list)), op)
  {
    hide Ready, Model, StrictlyOrdered, Rowed, InRange, KeySet;
    match op
    case Insert(key, row, height) =>
      var b := DoInsert(list, key, row, height);
      a := Flag(b);
    case Remove(key) =>
      var b := DoRemove(list, key);
      a := Flag(b);
    case Update(key, row) =>
      var b := DoUpdate(list, key, row);
      a := Flag(b);
  }

  method Apply(list: SkipList, op: Op) returns (a: Answer)
    requires Ready(list) && Legal(Model(list), op, list.maxNodeHeight)
    modifies Footprint(list)
    ensures Ready(list) && (forall o :: o in Footprint(list) ==> o in old(Footprint(list)) || fresh(o))
    ensures Answers(old(Model(list)), op, a)
    ensures Model(list) == Step(old(Model(list)), op)
  {
    hide Ready, Model, Footprint, StrictlyOrdered, Rowed, Answers, Legal, Step;
    if op.Insert? || op.Remove? || op.Update? {
      a := Change(list, op);
    } else {
      ghost var m, f := Model(list), Footprint(list);
      a := Ask(list, op);
      assert Model(list) == m && Footprint(list) == f;
      StepAsks(m, op);
    }
  }

  lemma StepAsks(m: map<Key, Row>, op: Op)
    requires !op.Insert? && !op.Remove? && !op.Update?
    ensures Step(m, op) == m
  {
  }

  /** Any legal run on an index gives the answers of its map. */
  method Replay(list: SkipList, ops: seq<Op>) returns (answers: seq<Answer>)
    requires Ready(list) && LegalRun(Model(list), ops, list.maxNodeHeight)
    modifies Footprint(list)
    ensures Ready(list) && (forall o :: o in Footprint(list) ==> o in old(Footprint(list)) || fresh(o))
    ensures AnswersRun(old(Model(list)), ops, answers)
    ensures Model(list) == StepAll(old(Model(list)), ops)
    decreases |ops|
  {
    hide Ready, Model, StrictlyOrdered, Rowed, Answers, Legal, Step;
    if ops == [] {
      return [];
    }
    ghost var m := Model(list);
    var a := Apply(list, ops[0]);
    var rest := Replay(list, ops[1..]);
    answers := [a] + rest;
    assert answers[1..] == rest;
  }

  /** A run on one index leaves another alone. */
  method ReplayBeside(list: SkipList, other: SkipList, ops: seq<Op>) returns (answers: seq<Answer>)
    requires Ready(list) && Ready(other) && Footprint(list) !! Footprint(other)
    requires LegalRun(Model(list), ops, list.maxNodeHeight)
    modifies Footprint(list)
    ensures Ready(list) && Ready(other) && Footprint(list) !! Footprint(other)
    ensures (forall o :: o in Footprint(list) ==> o in old(Footprint(list)) || fresh(o)) && Footprint(other) == old(Footprint(other))
    ensures AnswersRun(old(Model(list)), ops, answers)
    ensures Model(list) == StepAll(old(Model(list)), ops) && Model(other) == old(Model(other))
  {
    hide Ready, Model, StrictlyOrdered, Rowed, Answers, Legal, Step, AnswersRun, LegalRun, StepAll;
    answers := Replay(list, ops);
    assert Footprint(other) == old(Footprint(other));
  }

  /**
   Two indexes that stand for the same map, whatever their maximum heights and whatever heights their new nodes are
   given, answer a run alike and stand for the same map afterwards.
   */
  method ReplayBoth(list1: SkipList, ops1: seq<Op>, list2: SkipList, ops2: seq<Op>)
    returns (answers1: seq<Answer>, answers2: seq<Answer>)
    requires Ready(list1) && Ready(list2) && Model(list1) == Model(list2)
    requires Footprint(list1) !! Footprint(list2)
    requires SameButHeights(ops1, ops2)
    requires LegalRun(Model(list1), ops1, list1.maxNodeHeight) && LegalRun(Model(list2), ops2, list2.maxNodeHeight)
    modifies Footprint(list1), Footprint(list2)
    ensures Ready(list1) && Ready(list2)
    ensures answers1 == answers2 && Model(list1) == Model(list2)
    ensures AnswersRun(old(Model(list1)), ops1, answers1)
  {
    hide Ready, Model, Footprint, StrictlyOrdered, Rowed, Answers, Legal, Step, AnswersRun, LegalRun, StepAll, SameButHeights;
    ghost var m := Model(list1);
    answers1 := ReplayBeside(list1, list2, ops1);
    answers2 := ReplayBeside(list2, list1, ops2);
    HeightsUnobservable(m, ops1, ops2, answers1, answers2);
    SameSteps(m, ops1, ops2);
  }

  method NewIndex(maxHeight: uint8) returns (list: SkipList)
    requires maxHeight > 0
    ensures fresh(list) && Ready(list) && list.maxNodeHeight == maxHeight && Model(list) == map[]
    ensures forall o :: o in Footprint(list) ==> fresh(o)
  {
    hide Chained, Ordered, StrictlyOrdered, Rowed;
    list := new SkipList(true, maxHeight);
    var r := list.Initialize();
    ModelIs(list);
  }

  /**
   From initialization on: two new indexes with any maximum heights, run through the same operations with any node
   heights, both answer as a map that starts empty.
   */
  method RunFromEmpty(maxHeight1: uint8, ops1: seq<Op>, maxHeight2: uint8, ops2: seq<Op>)
    returns (answers1: seq<Answer>, answers2: seq<Answer>)
    requires maxHeight1 > 0 && maxHeight2 > 0 && SameButHeights(ops1, ops2)
    requires LegalRun(map[], ops1, maxHeight1) && LegalRun(map[], ops2, maxHeight2)
    ensures answers1 == answers2 && AnswersRun(map[], ops1, answers1)
  {
    hide Ready, Model, StrictlyOrdered, Rowed, Answers, Legal, Step, AnswersRun, LegalRun, StepAll, SameButHeights;
    var list1 := NewIndex(maxHeight1);
    ghost var f := Footprint(list1);
    var list2 := NewIndex(maxHeight2);
    assert Footprint(list1) == f && Footprint(list1) !! Footprint(list2);
    answers1, answers2 := ReplayBoth(list1, ops1, list2, ops2);
  }

  /** The consistency check accepts an index in every state a run can leave it in. */
  method ReplayThenValidate(list: SkipList, ops: seq<Op>) returns (valid: bool)
    requires Ready(list) && LegalRun(Model(list), ops, list.maxNodeHeight)
    modifies Footprint(list)
    ensures valid
  {
    hide Model, Footprint, Rowed, Answers, Legal, Step, AnswersRun, LegalRun, StepAll, Chained, Exact, WellChained;
    var answers := Replay(list, ops);
    ChainedIsExact(list.nodes, list.maxNodeHeight);
    valid := Validate(list.head, list.maxNodeHeight, list.nodes);
  }

  // ---------- one insertion undone ----------

  lemma LinksOfHeights(nodes: seq<SkipListNode>, maxHeight: nat)
    requires Chained(nodes, maxHeight)
    ensures Shaped(nodes, maxHeight)
    ensures forall i, l {:trigger nodes[i].next[l]} {:trigger nodes[i].width[l]} ::
              0 <= i < |nodes| && 0 <= l < nodes[i].height ==>
                && nodes[i].next[l] == NodeAt(nodes, Next(Heights(nodes), i, l))
                && nodes[i].width[l] == Width(Heights(nodes), i, l)
  {
    forall i, l | 0 <= i < |nodes| && 0 <= l < nodes[i].height
      ensures nodes[i].next[l] == NodeAt(nodes, Next(Heights(nodes), i, l))
      ensures nodes[i].width[l] == Width(Heights(nodes), i, l)
    {
      FollowLink(nodes, maxHeight, l, i);
    }
  }

  /** Removing a key that was just inserted, at any height, restores every link and every width. */
  method InsertThenRemove(list: SkipList, key: Key, row: Row, height: uint8)
    requires Ready(list) && key !in Keys(list.nodes) && height <= list.maxNodeHeight
    modifies list.Repr
    ensures Ready(list) && list.nodes == old(list.nodes)
    ensures forall i, l :: 0 <= i < |list.nodes| && 0 <= l < list.nodes[i].height ==>
              && list.nodes[i].next[l] == old(list.nodes[i].next[l])
              && list.nodes[i].width[l] == old(list.nodes[i].width[l])
    ensures EntriesOf(list.nodes) == old(EntriesOf(list.nodes))
  {
    hide Ordered, StrictlyOrdered, Rowed, EntriesOf, Inserted, Removed, LowerBound, Chained, FirstIsTallest,
         Next, Width, Heights, NodeAt, Footprint;
    ghost var ns, es, p := list.nodes, EntriesOf(list.nodes), LowerBound(Keys(list.nodes), key);
    KeysOfEntries(ns);
    LinksOfHeights(ns, list.maxNodeHeight);
    var inserted, h := list.Insert(key, row.data, row.size, height, null);
    ghost var e := Entry(key, h, row.data, row.size, NoStatus);
    KeysOfEntries(list.nodes);
    InsertedEntry(es, p, e);
    InsertedOwnRank(EntryKeys(es), p, key);
    ghost var ns2 := list.nodes;
    assert LowerBound(Keys(ns2), key) == p && key in Keys(ns2);
    RemovedInserted(ns, p + 1, ns2[p + 1]);
    assert Removed(ns2, p + 1) == ns;
    var removed := list.Remove(key);
    assert list.nodes == ns;
    RemovedInserted(es, p, e);
    LinksOfHeights(list.nodes, list.maxNodeHeight);
  }
}
