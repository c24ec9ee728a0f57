/** Whole runs of a unique-key index: every answer is the answer of a finite map, whatever the node heights. */
module SkipListRuns {
  import opened Wrappers
  import opened SortedKeys
  import opened Positions
  import opened SkipListNodes
  import opened SkipListLevels
  import opened SkipListIterators
  import opened SkipLists

  // ---------- the map an index stands for ----------

  datatype Row = Row(data: Data, size: uint16)

  function RowOf(e: Entry): Row {
    Row(e.data, e.size)
  }

  function EntryKeys(es: seq<Entry>): (keys: seq<Key>)
    ensures |keys| == |es|
    ensures forall i :: 0 <= i < |es| ==> keys[i] == es[i].key
  {
    seq(|es|, i requires 0 <= i < |es| => es[i].key)
  }

  /** The finite map of an index with unique keys. */
  function ModelOf(es: seq<Entry>): (m: map<Key, Row>)
    requires StrictlyOrdered(EntryKeys(es))
  {
    map k | k in EntryKeys(es) :: RowAt(es, k)
  }

  /** The row of a stored key. */
  function RowAt(es: seq<Entry>, key: Key): Row
    requires key in EntryKeys(es)
  {
    StoredRank(EntryKeys(es), key);
    RowOf(es[LowerBound(EntryKeys(es), key)])
  }

  lemma StoredRank(keys: seq<Key>, key: Key)
    requires key in keys
    ensures LowerBound(keys, key) < |keys|
    ensures StrictlyOrdered(keys) ==> keys[LowerBound(keys, key)] == key
  {
    var i :| 0 <= i < |keys| && keys[i] == key;
    var r := LowerBound(keys, key);
    assert r <= i;
  }

  lemma InsertedMember(keys: seq<Key>, p: nat, x: Key, key: Key)
    requires p <= |keys|
    ensures key in Inserted(keys, p, x) <==> key == x || key in keys
  {
    var ks := Inserted(keys, p, x);
    assert keys == keys[..p] + keys[p..];
    assert key in ks <==> key in keys[..p] || key in [x] || key in keys[p..];
  }

  /** Where the new key separates the old ones. */
  lemma InsertedOrder(keys: seq<Key>, p: nat, x: Key)
    requires p <= |keys| && StrictlyOrdered(Inserted(keys, p, x))
    ensures forall i :: 0 <= i < p ==> keys[i] < x
    ensures forall i :: p <= i < |keys| ==> x < keys[i]
  {
    var ks := Inserted(keys, p, x);
    assert ks[p] == x;
    assert forall i :: 0 <= i < p ==> ks[i] == keys[i];
    assert forall i :: p <= i < |keys| ==> ks[i + 1] == keys[i];
  }

  /** Ranks in a sequence with one key more. */
  lemma InsertedRank(keys: seq<Key>, p: nat, x: Key, key: Key)
    requires p <= |keys| && StrictlyOrdered(Inserted(keys, p, x))
    ensures LowerBound(Inserted(keys, p, x), key) == LowerBound(keys, key) + (if x < key then 1 else 0)
  {
    hide StrictlyOrdered, LowerBound;
    InsertedOrder(keys, p, x);
    if x < key {
      RankPast(keys, p, x, key);
    } else {
      RankUpTo(keys, p, x, key);
    }
  }

  lemma RankPast(keys: seq<Key>, p: nat, x: Key, key: Key)
    requires p <= |keys| && x < key
    requires forall i :: 0 <= i < p ==> keys[i] < x
    ensures LowerBound(Inserted(keys, p, x), key) == LowerBound(keys, key) + 1
  {
    hide LowerBound;
    var ks, r := Inserted(keys, p, x), LowerBound(keys, key);
    assert p <= r;
    forall i | 0 <= i < r + 1 ensures ks[i] < key {
      assert ks[i] == if i < p then keys[i] else if i == p then x else keys[i - 1];
    }
    assert r < |keys| ==> ks[r + 1] == keys[r];
    LowerBoundUnique(ks, key, r + 1);
  }

  lemma RankUpTo(keys: seq<Key>, p: nat, x: Key, key: Key)
    requires p <= |keys| && key <= x
    requires forall i :: p <= i < |keys| ==> x < keys[i]
    ensures LowerBound(Inserted(keys, p, x), key) == LowerBound(keys, key)
  {
    hide LowerBound;
    var ks, r := Inserted(keys, p, x), LowerBound(keys, key);
    assert p < |keys| ==> x < keys[p];
    assert r <= p;
    assert forall i :: 0 <= i < p ==> ks[i] == keys[i];
    LowerBoundUnique(ks, key, r);
  }

  /** The new key is not among the old ones, and its rank is where it was put. */
  lemma InsertedOwnRank(keys: seq<Key>, p: nat, x: Key)
    requires p <= |keys| && StrictlyOrdered(Inserted(keys, p, x))
    ensures x !in keys && LowerBound(Inserted(keys, p, x), x) == p
  {
    hide LowerBound;
    InsertedOrder(keys, p, x);
    assert forall i :: 0 <= i < p ==> Inserted(keys, p, x)[i] == keys[i];
    LowerBoundUnique(Inserted(keys, p, x), x, p);
  }

  lemma ModelInserted(es: seq<Entry>, p: nat, e: Entry)
    requires p <= |es| && StrictlyOrdered(EntryKeys(es)) && StrictlyOrdered(EntryKeys(Inserted(es, p, e)))
    ensures e.key !in ModelOf(es)
    ensures ModelOf(Inserted(es, p, e)) == ModelOf(es)[e.key := RowOf(e)]
  {
    hide StrictlyOrdered, LowerBound, RowAt, Inserted;
    InsertedEntry(es, p, e);
    forall k
      ensures k in EntryKeys(Inserted(es, p, e)) <==> k == e.key || k in EntryKeys(es)
      ensures k in EntryKeys(es) ==> RowAt(Inserted(es, p, e), k) == RowAt(es, k)
    {
      InsertedMember(EntryKeys(es), p, e.key, k);
      if k in EntryKeys(es) {
        InsertedRow(es, p, e, k);
      }
    }
  }

  lemma InsertedEntry(es: seq<Entry>, p: nat, e: Entry)
    requires p <= |es| && StrictlyOrdered(EntryKeys(Inserted(es, p, e)))
    ensures EntryKeys(Inserted(es, p, e)) == Inserted(EntryKeys(es), p, e.key)
    ensures e.key !in EntryKeys(es) && e.key in EntryKeys(Inserted(es, p, e))
    ensures RowAt(Inserted(es, p, e), e.key) == RowOf(e)
  {
    hide StrictlyOrdered, LowerBound;
    assert EntryKeys(Inserted(es, p, e)) == Inserted(EntryKeys(es), p, e.key);
    InsertedOwnRank(EntryKeys(es), p, e.key);
    assert EntryKeys(Inserted(es, p, e))[p] == e.key;
  }

  lemma InsertedRow(es: seq<Entry>, p: nat, e: Entry, key: Key)
    requires p <= |es| && StrictlyOrdered(EntryKeys(es)) && StrictlyOrdered(EntryKeys(Inserted(es, p, e)))
    requires key in EntryKeys(es)
    ensures key in EntryKeys(Inserted(es, p, e)) && RowAt(Inserted(es, p, e), key) == RowAt(es, key)
  {
    hide StrictlyOrdered, LowerBound;
    var keys, es2 := EntryKeys(es), Inserted(es, p, e);
    assert EntryKeys(es2) == Inserted(keys, p, e.key);
    InsertedMember(keys, p, e.key, key);
    InsertedRank(keys, p, e.key, key);
    InsertedOwnRank(keys, p, e.key);
    StoredRank(keys, key);
    var r := LowerBound(keys, key);
    RankBeside(keys, p, e.key, r);
    assert es2[if r < p then r else r + 1] == es[r];
  }

  lemma RankBeside(keys: seq<Key>, p: nat, x: Key, r: nat)
    requires p <= |keys| && StrictlyOrdered(Inserted(keys, p, x)) && r < |keys|
    ensures r < p <==> keys[r] < x
  {
    var ks := Inserted(keys, p, x);
    assert ks[p] == x && ks[if r < p then r else r + 1] == keys[r];
  }

  lemma RemovedLength(es: seq<Entry>, p: nat)
    requires p < |es|
    ensures |Removed(es, p)| == |es| - 1
  {
  }

  lemma ModelRemoved(es: seq<Entry>, p: nat)
    requires p < |es| && StrictlyOrdered(EntryKeys(es)) && StrictlyOrdered(EntryKeys(Removed(es, p)))
    ensures ModelOf(Removed(es, p)) == ModelOf(es) - {es[p].key}
  {
    hide StrictlyOrdered, ModelOf, Inserted, Removed;
    InsertedRemoved(es, p);
    RemovedLength(es, p);
    ModelInserted(Removed(es, p), p, es[p]);
    assert ModelOf(Removed(es, p))[es[p].key := RowOf(es[p])] - {es[p].key} == ModelOf(Removed(es, p));
  }

  lemma ModelUpdated(es: seq<Entry>, i: nat, data: Data, size: uint16)
    requires i < |es| && StrictlyOrdered(EntryKeys(es))
    ensures EntryKeys(UpdatedRow(es, i, data, size)) == EntryKeys(es)
    ensures ModelOf(UpdatedRow(es, i, data, size)) == ModelOf(es)[es[i].key := Row(data, size)]
  {
    var es2 := UpdatedRow(es, i, data, size);
    assert EntryKeys(es2) == EntryKeys(es);
    LowerBoundUnique(EntryKeys(es), es[i].key, i);
    assert EntryKeys(es)[i] == es[i].key;
    forall k | k in EntryKeys(es) && k != es[i].key ensures RowAt(es2, k) == RowAt(es, k) {
      StoredRank(EntryKeys(es), k);
    }
  }

  lemma {:induction false} ModelSize(es: seq<Entry>)
    requires StrictlyOrdered(EntryKeys(es))
    ensures |ModelOf(es)| == |es|
  {
    var m := ModelOf(es);
    DistinctCount(EntryKeys(es));
    assert m.Keys == KeySet(EntryKeys(es));
  }

  function InRange(s: set<Key>, low: Key, high: Key): (r: set<Key>)
    ensures forall k :: k in r <==> k in s && low <= k < high
  {
    set k | k in s && low <= k < high
  }

  lemma InRangeWithout(s: set<Key>, x: Key, low: Key, high: Key)
    requires x in s
    ensures |InRange(s, low, high)| == |InRange(s - {x}, low, high)| + (if low <= x < high then 1 else 0)
  {
    var r := InRange(s - {x}, low, high);
    assert InRange(s, low, high) == if low <= x < high then r + {x} else r;
  }

  /** The number of stored keys in a range, counted in the sequence and in the set. */
  lemma {:induction false} CountInSet(keys: seq<Key>, low: Key, high: Key)
    requires StrictlyOrdered(keys)
    ensures CountIn(keys, low, high) == |InRange(KeySet(keys), low, high)|
  {
    if keys != [] {
      CountInSet(keys[1..], low, high);
      KeySetTail(keys);
      assert keys[0] in KeySet(keys);
      InRangeWithout(KeySet(keys), keys[0], low, high);
    }
  }

  // ---------- operations and their answers ----------

  datatype Op =
    | Insert(key: Key, row: Row, height: uint8)
    | Remove(key: Key)
    | Update(key: Key, row: Row)
    | Find(key: Key)
    | Contains(key: Key)
    | Size(calculate: bool)
    | Empty
    | CountRange(low: Key, high: Key)
    | Scan
    | RangeScan(low: Key, high: Key)

  datatype Answer = Flag(b: bool) | Bytes(data: Data) | Count(n: nat) | Visited(keys: seq<Key>)

  /** What each operation does to the map. */
  function Step(m: map<Key, Row>, op: Op): map<Key, Row> {
    match op
    case Insert(key, row, _) => if key in m then m else m[key := row]
    case Remove(key) => m - {key}
    case Update(key, row) => if key in m then m[key := row] else m
    case _ => m
  }

  /** What each operation must answer, in terms of the map alone. */
  ghost predicate Answers(m: map<Key, Row>, op: Op, a: Answer) {
    match op
    case Insert(key, _, _) => a == Flag(key !in m)
    case Remove(key) => a == Flag(key in m)
    case Update(key, _) => a == Flag(key in m)
    case Find(key) => a == Bytes(if key in m then m[key].data else None)
    case Contains(key) => a == Flag(key in m)
    case Size(_) => a == Count(|m|)
    case Empty => a == Flag(m == map[])
    case CountRange(low, high) => a == Count(|InRange(m.Keys, low, high)|)
    case Scan => a.Visited? && StrictlyOrdered(a.keys) && KeySet(a.keys) == m.Keys
    case RangeScan(low, high) =>
      a.Visited? && StrictlyOrdered(a.keys) && KeySet(a.keys) == InRange(m.Keys, low, high + 1)
  }

  /** What the source asks of a caller: a height in range, and a stored key past both ends of a bounded scan. */
  ghost predicate Legal(m: map<Key, Row>, op: Op, maxHeight: nat) {
    match op
    case Insert(_, _, height) => height <= maxHeight
    case RangeScan(low, high) => exists k :: k in m && k >= low && k > high
    case _ => true
  }

  ghost predicate LegalRun(m: map<Key, Row>, ops: seq<Op>, maxHeight: nat)
    decreases |ops|
  {
    ops == [] || (Legal(m, ops[0], maxHeight) && LegalRun(Step(m, ops[0]), ops[1..], maxHeight))
  }

  /** Every run without bounded scans is legal when the heights asked for are in range. */
  lemma {:induction false} UnboundedIsLegal(m: map<Key, Row>, ops: seq<Op>, maxHeight: nat)
    requires forall i :: 0 <= i < |ops| ==> !ops[i].RangeScan? && (ops[i].Insert? ==> ops[i].height <= maxHeight)
    ensures LegalRun(m, ops, maxHeight)
    decreases |ops|
  {
    if ops != [] {
      UnboundedIsLegal(Step(m, ops[0]), ops[1..], maxHeight);
    }
  }

  /** A bounded scan of a map with a key past both its ends is legal as well. */
  lemma PastIsLegal(m: map<Key, Row>, low: Key, high: Key, key: Key, ops: seq<Op>, maxHeight: nat)
    requires key in m && key >= low && key > high && LegalRun(m, ops, maxHeight)
    ensures LegalRun(m, [RangeScan(low, high)] + ops, maxHeight)
  {
    assert ([RangeScan(low, high)] + ops)[1..] == ops;
  }

  ghost predicate AnswersRun(m: map<Key, Row>, ops: seq<Op>, answers: seq<Answer>)
    decreases |ops|
  {
    if ops == [] then answers == []
    else answers != [] && Answers(m, ops[0], answers[0]) && AnswersRun(Step(m, ops[0]), ops[1..], answers[1..])
  }

  function StepAll(m: map<Key, Row>, ops: seq<Op>): map<Key, Row>
    decreases |ops|
  {
    if ops == [] then m else StepAll(Step(m, ops[0]), ops[1..])
  }

  lemma RunCons(m: map<Key, Row>, ops: seq<Op>, answers: seq<Answer>)
    requires ops != [] && answers != [] && Answers(m, ops[0], answers[0])
    requires AnswersRun(Step(m, ops[0]), ops[1..], answers[1..])
    ensures AnswersRun(m, ops, answers)
    ensures StepAll(m, ops) == StepAll(Step(m, ops[0]), ops[1..])
  {
  }

  /** The same operations up to the heights chosen for new nodes. */
  predicate SameButHeights(ops1: seq<Op>, ops2: seq<Op>) {
    && |ops1| == |ops2|
    && forall i :: 0 <= i < |ops1| ==>
         ops1[i] == ops2[i] ||
         (ops1[i].Insert? && ops2[i].Insert? && ops1[i].key == ops2[i].key && ops1[i].row == ops2[i].row)
  }

  /** Any heights may be put in place of those of a run. */
  lemma AnyHeights(ops: seq<Op>, heights: seq<uint8>) returns (ops2: seq<Op>)
    requires |heights| == |ops|
    ensures SameButHeights(ops, ops2)
    ensures forall i :: 0 <= i < |ops| && ops[i].Insert? ==> ops2[i].Insert? && ops2[i].height == heights[i]
  {
    ops2 := seq(|ops|, i requires 0 <= i < |ops| => if ops[i].Insert? then ops[i].(height := heights[i]) else ops[i]);
  }

  /** The map determines every answer. */
  lemma AnswerUnique(m: map<Key, Row>, op: Op, a: Answer, b: Answer)
    requires Answers(m, op, a) && Answers(m, op, b)
    ensures a == b
  {
    if op.Scan? || op.RangeScan? {
      StrictlyOrderedUnique(a.keys, b.keys);
    }
  }

  /** Heights are unobservable: two runs that differ in them alone give the same answers. */
  lemma {:induction false} HeightsUnobservable(m: map<Key, Row>, ops1: seq<Op>, ops2: seq<Op>, a: seq<Answer>, b: seq<Answer>)
    requires SameButHeights(ops1, ops2)
    requires AnswersRun(m, ops1, a) && AnswersRun(m, ops2, b)
    ensures a == b
    decreases |ops1|
  {
    if ops1 != [] {
      assert Step(m, ops1[0]) == Step(m, ops2[0]);
      AnswerUnique(m, ops1[0], a[0], b[0]);
      HeightsUnobservable(Step(m, ops1[0]), ops1[1..], ops2[1..], a[1..], b[1..]);
      assert a == [a[0]] + a[1..] && b == [b[0]] + b[1..];
    }
  }

  lemma {:induction false} SameSteps(m: map<Key, Row>, ops1: seq<Op>, ops2: seq<Op>)
    requires SameButHeights(ops1, ops2)
    ensures StepAll(m, ops1) == StepAll(m, ops2)
    decreases |ops1|
  {
    if ops1 != [] {
      assert Step(m, ops1[0]) == Step(m, ops2[0]);
      SameSteps(Step(m, ops1[0]), ops1[1..], ops2[1..]);
    }
  }
}
