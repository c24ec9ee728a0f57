/** The indexable skip list: every link carries the number of stored nodes it jumps over. */
module SkipLists {
  import opened Wrappers
  import opened SortedKeys
  import opened Positions
  import opened SkipListNodes
  import opened SkipListLevels
  import opened SkipListIterators

  const KEY_SIZE: uint16 := 4

  datatype SkipListError = NotInitialized | AlreadyInitialized | MaxNodeHeightZero | NodeHeightTooLarge

  // ---------- node sequences with one node more ----------

  lemma InsertedShape(nodes: seq<SkipListNode>, r: nat, node: SkipListNode, maxHeight: nat)
    requires Shaped(nodes, maxHeight) && r < |nodes|
    requires 1 <= node.height <= maxHeight && node.next.Length == node.width.Length == node.height
    requires node.next as object != node.width
    requires forall n :: n in nodes ==>
               && n.next != node.next && n.width != node.width
               && n.next as object != node.width && n.width as object != node.next
    ensures Splice(nodes, Inserted(nodes, r + 1, node), r, node, maxHeight).Valid()
  {
    var ns2 := Inserted(nodes, r + 1, node);
    forall i | 0 <= i < |ns2| ensures ns2[i] == node || ns2[i] in nodes {
      if i > r + 1 { assert ns2[i] == nodes[i - 1]; }
    }
    forall i, j | 0 <= i < j < |ns2| ensures ns2[i].next != ns2[j].next && ns2[i].width != ns2[j].width {
      if i != r + 1 && j != r + 1 {
        var i', j' := if i <= r then i else i - 1, if j <= r then j else j - 1;
        assert ns2[i] == nodes[i'] && ns2[j] == nodes[j'];
      }
    }
  }

  lemma ChainedLevels(nodes: seq<SkipListNode>, maxHeight: nat)
    requires Chained(nodes, maxHeight)
    ensures Shaped(nodes, maxHeight) && Sized(nodes) && |nodes| > 0
    ensures forall l :: 0 <= l < maxHeight ==> Linked(nodes, l)
  {
  }

  lemma ChainedFrom(nodes: seq<SkipListNode>, maxHeight: nat)
    requires Shaped(nodes, maxHeight)
    requires forall l :: 0 <= l < maxHeight ==> Linked(nodes, l)
    ensures Chained(nodes, maxHeight)
  {
  }

  lemma StartSearch(nodes: seq<SkipListNode>, key: Key, maxHeight: nat)
    requires Chained(nodes, maxHeight)
    ensures Shaped(nodes, maxHeight) && nodes[0].height == maxHeight && NoneAbove(nodes, key, maxHeight)
  {
  }

  lemma EmptyChained(dummy: SkipListNode, maxHeight: nat)
    requires maxHeight > 0 && dummy.height == maxHeight == dummy.next.Length == dummy.width.Length
    requires dummy.next as object != dummy.width
    requires forall l :: 0 <= l < maxHeight ==> dummy.next[l] == null && dummy.width[l] == 0
    ensures Chained([dummy], maxHeight)
  {
  }

  lemma InsertedKeys(nodes: seq<SkipListNode>, r: nat, node: SkipListNode)
    requires Splits(nodes, node.key, r) && Ordered(Keys(nodes))
    ensures var ks := Keys(Inserted(nodes, r + 1, node));
            && ks == Inserted(Keys(nodes), r, node.key)
            && Ordered(ks)
            && (StrictlyOrdered(Keys(nodes)) && node.key !in Keys(nodes) ==> StrictlyOrdered(ks))
  {
    var keys := Keys(nodes);
    assert forall i :: 0 <= i < |keys| ==> keys[i] == nodes[i + 1].key;
    InsertedOrdered(keys, r, node.key);
    hide Ordered, StrictlyOrdered, Splits;
    assert Keys(Inserted(nodes, r + 1, node)) == Inserted(keys, r, node.key);
  }

  /** A key put between the smaller keys and the others keeps the order. */
  lemma InsertedOrdered(keys: seq<Key>, r: nat, key: Key)
    requires Ordered(keys) && r <= |keys|
    requires forall i :: 0 <= i < r ==> keys[i] < key
    requires forall i :: r <= i < |keys| ==> key <= keys[i]
    ensures Ordered(Inserted(keys, r, key))
    ensures StrictlyOrdered(keys) && key !in keys ==> StrictlyOrdered(Inserted(keys, r, key))
  {
    var ks := Inserted(keys, r, key);
    assert forall i :: 0 <= i < |ks| ==> ks[i] == if i < r then keys[i] else if i == r then key else keys[i - 1];
  }

  lemma InsertedRows(nodes: seq<SkipListNode>, r: nat, node: SkipListNode)
    requires r < |nodes| && Rowed(nodes) && node.rowInfo != null
    requires forall n :: n in nodes ==> n.rowInfo != node.rowInfo
    ensures var ns2 := Inserted(nodes, r + 1, node);
            && Rowed(ns2)
            && EntriesOf(ns2) == Inserted(EntriesOf(nodes), r, EntryOf(node))
  {
    var ns2 := Inserted(nodes, r + 1, node);
    forall i | 1 <= i < |ns2| ensures ns2[i].rowInfo != null {
      if i > r + 1 { assert ns2[i] == nodes[i - 1]; }
    }
    forall i, j | 1 <= i < j < |ns2| ensures ns2[i].rowInfo != ns2[j].rowInfo {
      var i', j' := if i <= r then i else i - 1, if j <= r then j else j - 1;
      if i != r + 1 && j != r + 1 {
        assert ns2[i] == nodes[i'] && ns2[j] == nodes[j'];
      } else if i == r + 1 {
        assert ns2[j] == nodes[j'];
      }
    }
  }

  /** Everything an insertion knows before it touches a link. */
  lemma PlanInsertion(nodes: seq<SkipListNode>, node: SkipListNode, r: nat, maxHeight: nat, primary: bool)
    requires Shaped(nodes, maxHeight) && Ordered(Keys(nodes))
    requires primary ==> StrictlyOrdered(Keys(nodes)) && node.key !in Keys(nodes)
    requires r == LowerBound(Keys(nodes), node.key)
    requires 1 <= node.height <= maxHeight && node.next.Length == node.width.Length == node.height
    requires node.next as object != node.width
    requires forall n :: n in nodes ==>
               && n.next != node.next && n.width != node.width
               && n.next as object != node.width && n.width as object != node.next
    ensures r < |nodes| && Splits(nodes, node.key, r)
    ensures var ns := Inserted(nodes, r + 1, node);
            && Splice(nodes, ns, r, node, maxHeight).Valid() && Shaped(ns, maxHeight)
            && Ordered(Keys(ns)) && (primary ==> StrictlyOrdered(Keys(ns)))
            && ns[0] == nodes[0] && |ns| == |nodes| + 1 && ns[r + 1] == node && Sized(ns) && Sized(nodes)
            && node in ns && (forall n :: n in ns ==> n in nodes || n == node) && (forall n :: n in nodes ==> n in ns)
  {
    hide Shaped, Ordered, StrictlyOrdered, Splits, LowerBound, Inserted;
    RankSplits(nodes, node.key);
    InsertedShape(nodes, r, node, maxHeight);
    InsertedKeys(nodes, r, node);
    SpliceNodes(Splice(nodes, Inserted(nodes, r + 1, node), r, node, maxHeight));
  }

  // ---------- node sequences with one node less ----------

  lemma RemovedAt(nodes: seq<SkipListNode>, p: nat, i: nat)
    requires p < |nodes| && i < |nodes| - 1
    ensures |Removed(nodes, p)| == |nodes| - 1
    ensures Removed(nodes, p)[i] == nodes[if i < p then i else i + 1]
  {
  }

  lemma RemovedIsShaped(nodes: seq<SkipListNode>, p: nat, maxHeight: nat)
    requires Shaped(nodes, maxHeight) && 0 < p < |nodes|
    ensures |Removed(nodes, p)| == |nodes| - 1 && Shaped(Removed(nodes, p), maxHeight)
  {
    hide Removed;
    var ns := Removed(nodes, p);
    RemovedAt(nodes, p, 0);
    forall i | 0 <= i < |ns|
      ensures 1 <= ns[i].height <= maxHeight && ns[i].next.Length == ns[i].width.Length == ns[i].height
    {
      RemovedAt(nodes, p, i);
    }
    forall i, j | 0 <= i < |ns| && 0 <= j < |ns|
      ensures i < j ==> ns[i].next != ns[j].next && ns[i].width != ns[j].width
      ensures ns[i].next as object != ns[j].width
    {
      RemovedAt(nodes, p, i);
      RemovedAt(nodes, p, j);
    }
  }

  lemma RemovedShape(nodes: seq<SkipListNode>, r: nat, maxHeight: nat)
    requires Shaped(nodes, maxHeight) && r + 1 < |nodes|
    ensures Splice(Removed(nodes, r + 1), nodes, r, nodes[r + 1], maxHeight).Valid()
    ensures forall n :: n in Removed(nodes, r + 1) ==> n in nodes
    ensures nodes[r + 1] !in Removed(nodes, r + 1)
    ensures Removed(nodes, r + 1) != [] && Removed(nodes, r + 1)[0] == nodes[0] && |Removed(nodes, r + 1)| == |nodes| - 1
  {
    hide Removed, Inserted;
    InsertedRemoved(nodes, r + 1);
    RemovedIsShaped(nodes, r + 1, maxHeight);
    RemovedAt(nodes, r + 1, 0);
    var ns := Removed(nodes, r + 1);
    forall i | 0 <= i < |ns| ensures ns[i] != nodes[r + 1] && ns[i] in nodes {
      RemovedAt(nodes, r + 1, i);
      DistinctNodes(nodes, maxHeight, r + 1, if i < r + 1 then i else i + 1);
    }
  }

  lemma DistinctNodes(nodes: seq<SkipListNode>, maxHeight: nat, i: nat, j: nat)
    requires Shaped(nodes, maxHeight) && i < |nodes| && j < |nodes| && i != j
    ensures nodes[i] != nodes[j]
  {
  }

  lemma RemovedRecords(prevNode: seq<SkipListNode?>, prevRank: seq<nat>, nodes: seq<SkipListNode>, r: nat, to: nat)
    requires r + 1 < |nodes| && Records(prevNode, prevRank, nodes, r, 0, to)
    ensures Records(prevNode, prevRank, Removed(nodes, r + 1), r, 0, to)
  {
    var ns := Removed(nodes, r + 1);
    forall l | 0 <= l < to
      ensures IsPrev(Heights(ns), r, l, prevRank[l]) && prevNode[l] == ns[prevRank[l]]
    {
      assert IsPrev(Heights(nodes), r, l, prevRank[l]);
    }
  }

  lemma RemovedKeys(nodes: seq<SkipListNode>, r: nat)
    requires r + 1 < |nodes| && Ordered(Keys(nodes))
    ensures var ks := Keys(Removed(nodes, r + 1));
            && ks == Removed(Keys(nodes), r)
            && Ordered(ks)
            && (StrictlyOrdered(Keys(nodes)) ==> StrictlyOrdered(ks))
  {
  }

  lemma RemovedRows(nodes: seq<SkipListNode>, r: nat)
    requires r + 1 < |nodes| && Rowed(nodes)
    ensures var ns := Removed(nodes, r + 1);
            && Rowed(ns)
            && EntriesOf(ns) == Removed(EntriesOf(nodes), r)
  {
  }

  /** Everything a removal knows before it touches a link. */
  lemma PlanRemoval(nodes: seq<SkipListNode>, key: Key, prevNode: seq<SkipListNode?>, prevRank: seq<nat>, r: nat,
                    maxHeight: nat, primary: bool)
    requires Shaped(nodes, maxHeight) && Ordered(Keys(nodes)) && (primary ==> StrictlyOrdered(Keys(nodes)))
    requires key in Keys(nodes) && r == LowerBound(Keys(nodes), key)
    requires Records(prevNode, prevRank, nodes, r, 0, maxHeight)
    requires !primary ==> FirstIsTallest(nodes, r + 1, key)
    ensures r + 1 < |nodes| && nodes[r + 1].key == key && Splits(nodes, key, r)
    ensures FirstIsTallest(nodes, r + 1, key)
    ensures var ns := Removed(nodes, r + 1);
            && Splice(ns, nodes, r, nodes[r + 1], maxHeight).Valid()
            && Records(prevNode, prevRank, ns, r, 0, maxHeight)
            && Ordered(Keys(ns)) && (primary ==> StrictlyOrdered(Keys(ns)))
            && ns[0] == nodes[0] && |ns| == |nodes| - 1 && Sized(ns) && Sized(nodes)
            && nodes[r + 1] !in ns && (forall n :: n in ns ==> n in nodes)
  {
    hide Shaped, Ordered, StrictlyOrdered, Splits, Records, LowerBound, Removed, FirstIsTallest;
    RankSplits(nodes, key);
    StoredIffAfter(nodes, key, r);
    if primary { StrictIsFirst(nodes, key, r); }
    RemovedShape(nodes, r, maxHeight);
    RemovedRecords(prevNode, prevRank, nodes, r, maxHeight);
    RemovedKeys(nodes, r);
    SpliceNodes(Splice(Removed(nodes, r + 1), nodes, r, nodes[r + 1], maxHeight));
  }

  /** Unique keys leave no taller duplicate. */
  lemma StrictIsFirst(nodes: seq<SkipListNode>, key: Key, r: nat)
    requires |nodes| > 0 && StrictlyOrdered(Keys(nodes)) && StoredAfter(nodes, key, r)
    ensures FirstIsTallest(nodes, r + 1, key)
  {
    forall i | r + 1 < i < |nodes| ensures nodes[i].key != key {
      assert Keys(nodes)[r] < Keys(nodes)[i - 1];
    }
  }

  // ---------- reading ----------

  lemma FoundStored(nodes: seq<SkipListNode>, key: Key, pos: nat)
    requires Met(nodes, key, pos)
    ensures 1 <= pos < |nodes| && nodes[pos].key == key && key in Keys(nodes)
  {
    assert Keys(nodes)[pos - 1] == key;
  }

  lemma HasRow(nodes: seq<SkipListNode>, pos: nat)
    requires 1 <= pos < |nodes| && Rowed(nodes)
    ensures nodes[pos] in nodes && nodes[pos].rowInfo != null && EntriesOf(nodes)[pos - 1] == EntryOf(nodes[pos])
  {
  }

  /** The bottom level links every node to the one after it. */
  lemma Successor(nodes: seq<SkipListNode>, maxHeight: nat, i: nat)
    requires Chained(nodes, maxHeight) && i < |nodes|
    ensures nodes[i].next.Length > 0 && nodes[i].next[0] == NodeAt(nodes, i + 1)
  {
    FollowLink(nodes, maxHeight, 0, i);
    NextUnique(Heights(nodes), i, 0, i + 1);
  }

  lemma BottomRank(prevNode: seq<SkipListNode?>, prevRank: seq<nat>, nodes: seq<SkipListNode>, r: nat, maxHeight: nat)
    requires maxHeight > 0 && Chained(nodes, maxHeight) && Records(prevNode, prevRank, nodes, r, 0, maxHeight)
    ensures prevRank[0] == r
  {
    assert IsPrev(Heights(nodes), r, 0, prevRank[0]);
    assert Heights(nodes)[r] == nodes[r].height >= 1;
  }

  function UpdatedRow(es: seq<Entry>, i: nat, data: Data, size: uint16): (r: seq<Entry>)
    requires i < |es|
    ensures |r| == |es|
  {
    es[i := es[i].(data := data, size := size)]
  }

  datatype RowUpdate = RowUpdate(nodes: seq<SkipListNode>, pos: nat, data: Data, size: uint16)

  /** Setting one row's data changes that entry and no other. */
  twostate lemma UpdatedEntries(u: RowUpdate)
    requires 1 <= u.pos < |u.nodes| && old(Rowed(u.nodes))
    requires forall n :: n in u.nodes ==> n.rowInfo == old(n.rowInfo)
    requires forall n :: n in u.nodes && n != u.nodes[u.pos] && n.rowInfo != null && n.rowInfo != u.nodes[u.pos].rowInfo ==>
               unchanged(n.rowInfo)
    requires var row := u.nodes[u.pos].rowInfo;
             row != null && row.data == u.data && row.size == u.size && row.status == old(row.status)
    ensures Rowed(u.nodes) && EntriesOf(u.nodes) == UpdatedRow(old(EntriesOf(u.nodes)), u.pos - 1, u.data, u.size)
  {
  }

  /** Everything an index may write. */
  ghost function Footprint(list: SkipList): set<object>
    reads list, list.nodes
  {
    list.Repr + set n | n in list.nodes && n.rowInfo != null :: n.rowInfo
  }

  lemma FootprintHas(list: SkipList)
    ensures list.Repr <= Footprint(list)
    ensures forall n :: n in list.nodes && n.rowInfo != null ==> n.rowInfo in Footprint(list)
  {
  }

  twostate lemma FootprintShrinks(list: SkipList)
    requires list.Repr == old(list.Repr)
    requires forall n :: n in list.nodes ==> n in old(list.nodes) && n.rowInfo == old(n.rowInfo)
    ensures forall o :: o in Footprint(list) ==> o in old(Footprint(list))
  {
  }

  class SkipList {
    const primaryIndex: bool
    const maxNodeHeight: uint8
    var head: SkipListNode?
    var initialized: bool
    var size: nat
    ghost var nodes: seq<SkipListNode>
    ghost var Repr: set<object>

    ghost predicate Valid()
      reads this, Repr
      ensures Valid() ==> this in Repr
    {
      && this in Repr
      && (forall n :: n in nodes ==> n in Repr && n.next in Repr && n.width in Repr)
      && (forall o :: o in Repr ==> !(o is RowInfo))
      && if !initialized then head == null && size == 0 && nodes == [] else
         && maxNodeHeight > 0
         && Chained(nodes, maxNodeHeight)
         && nodes[0] == head
         && size == |nodes| - 1
         && Ordered(Keys(nodes))
         && (primaryIndex ==> StrictlyOrdered(Keys(nodes)))
         && Rowed(nodes)
    }

    constructor (primaryIndex: bool, maxNodeHeight: uint8)
      ensures Valid() && fresh(Repr) && !initialized
      ensures this.primaryIndex == primaryIndex && this.maxNodeHeight == maxNodeHeight
    {
      this.primaryIndex := primaryIndex;
      this.maxNodeHeight := maxNodeHeight;
      head := null;
      initialized := false;
      size := 0;
      nodes := [];
      Repr := {this};
    }

    method Initialize() returns (r: Result<(), SkipListError>)
      requires Valid()
      modifies this
      ensures Valid() && fresh(Repr - old(Repr))
      ensures old(initialized) ==> r == Err(AlreadyInitialized)
      ensures !old(initialized) && maxNodeHeight == 0 ==> r == Err(MaxNodeHeightZero)
      ensures !old(initialized) && maxNodeHeight > 0 ==> r == Ok(()) && initialized && EntriesOf(nodes) == []
      ensures r.Ok? ==> forall n :: n in nodes ==> n.rowInfo == null
      ensures r.Err? ==> initialized == old(initialized) && nodes == old(nodes) && Repr == old(Repr)
    {
      if initialized {
        return Err(AlreadyInitialized);
      }
      if maxNodeHeight == 0 {
        return Err(MaxNodeHeightZero);
      }
      var dummy := new SkipListNode(0, maxNodeHeight);
      head := dummy;
      nodes := [dummy];
      Repr := Repr + {dummy, dummy.next, dummy.width};
      initialized := true;
      EmptyChained(dummy, maxNodeHeight);
      r := Ok(());
    }

    /** The height of a new node; `*` is the generator's coin. */
    static method GenerateNodeHeight(maxNodeHeight: uint8) returns (nodeHeight: uint8)
      requires maxNodeHeight > 0
      ensures 1 <= nodeHeight <= maxNodeHeight
    {
      nodeHeight := 1;
      while nodeHeight < maxNodeHeight
        invariant 1 <= nodeHeight <= maxNodeHeight
      {
        if * {
          break;
        }
        nodeHeight := nodeHeight + 1;
      }
    }

    /** Links a fresh node in at the place a traversal found. */
    method AddNode(context: TraverseContext, insertNode: SkipListNode)
      requires Valid() && initialized
      requires 1 <= insertNode.height <= maxNodeHeight
      requires insertNode.next.Length == insertNode.width.Length == insertNode.height
      requires insertNode.next as object != insertNode.width
      requires insertNode !in Repr && insertNode.next !in Repr && insertNode.width !in Repr
      requires context.prevNode !in Repr && context.prevRank !in Repr
      requires insertNode.next != context.prevNode && insertNode.next as object != context.prevRank
      requires insertNode.width != context.prevRank && insertNode.width as object != context.prevNode
      requires context.rank == LowerBound(Keys(nodes), insertNode.key)
      requires Records(context.prevNode[..], context.prevRank[..], nodes, context.rank, 0, maxNodeHeight)
      requires primaryIndex ==> insertNode.key !in Keys(nodes)
      modifies this, set n | n in nodes :: n.next, set n | n in nodes :: n.width, insertNode.next, insertNode.width
      ensures nodes == Inserted(old(nodes), context.rank + 1, insertNode) && |nodes| == |old(nodes)| + 1
      ensures Repr == old(Repr) + {insertNode, insertNode.next, insertNode.width}
      ensures nodes[context.rank + 1] == insertNode && nodes[0] == head
      ensures forall n :: n in nodes ==> n in old(nodes) || n == insertNode
      ensures head == old(head) && initialized && size == old(size) + 1
      ensures Chained(nodes, maxNodeHeight)
      ensures Ordered(Keys(nodes)) && (primaryIndex ==> StrictlyOrdered(Keys(nodes)))
    {
      hide Chained, Linked, Heights, Ordered, StrictlyOrdered, Splits, Next, IsNext, Width, Records, LowerBound, Inserted,
           Rowed, Shaped, Splice.Valid;
      ghost var ns, r := nodes, context.rank;
      ChainedLevels(ns, maxNodeHeight);
      PlanInsertion(ns, insertNode, r, maxNodeHeight, primaryIndex);
      ghost var s := Splice(ns, Inserted(ns, r + 1, insertNode), r, insertNode, maxNodeHeight);
      LinkNode(context, insertNode, s);
      ChainedFrom(s.within, maxNodeHeight);
      nodes := s.within;
      size := size + 1;
      Repr := Repr + {insertNode, insertNode.next, insertNode.width};
    }

    static method NewNode(key: Key, nodeHeight: uint8, data: Data, dataSize: uint16) returns (insertNode: SkipListNode)
      requires nodeHeight > 0
      ensures fresh(insertNode) && fresh(insertNode.next) && fresh(insertNode.width)
      ensures insertNode.key == key && insertNode.height == nodeHeight
      ensures insertNode.next.Length == insertNode.width.Length == nodeHeight
      ensures insertNode.next as object != insertNode.width
      ensures insertNode.rowInfo != null && fresh(insertNode.rowInfo)
      ensures EntryOf(insertNode) == Entry(key, nodeHeight, data, dataSize, NoStatus)
    {
      insertNode := new SkipListNode(key, nodeHeight);
      var rowInfo := new RowInfo(NoStatus, data, dataSize);
      insertNode.rowInfo := rowInfo;
    }

    /** Creates the node of a new row and links it in. */
    method InsertNew(context: TraverseContext, key: Key, data: Data, dataSize: uint16, nodeHeight: uint8)
      returns (rowInfo: RowInfo)
      requires Valid() && initialized && 1 <= nodeHeight <= maxNodeHeight
      requires context.prevNode !in Repr && context.prevRank !in Repr
      requires context.rank == LowerBound(Keys(nodes), key)
      requires Records(context.prevNode[..], context.prevRank[..], nodes, context.rank, 0, maxNodeHeight)
      requires primaryIndex ==> key !in Keys(nodes)
      modifies Repr
      ensures Valid() && fresh(Repr - old(Repr)) && initialized
      ensures context.rank + 1 < |nodes| == |old(nodes)| + 1
      ensures nodes == Inserted(old(nodes), context.rank + 1, nodes[context.rank + 1])
      ensures fresh(nodes[context.rank + 1]) && fresh(rowInfo) && nodes[context.rank + 1].rowInfo == rowInfo
      ensures forall n :: n in old(nodes) ==> n.rowInfo == old(n.rowInfo)
      ensures forall n :: n in nodes ==> n in old(nodes) || n == nodes[context.rank + 1]
      ensures EntriesOf(nodes) == Inserted(old(EntriesOf(nodes)), context.rank, Entry(key, nodeHeight, data, dataSize, NoStatus))
    {
      hide Chained, Linked, Heights, Ordered, StrictlyOrdered, Next, IsNext, Width, Records, LowerBound, Rowed,
           Inserted, EntriesOf, EntryOf;
      ghost var ns, es := nodes, EntriesOf(nodes);
      var insertNode := NewNode(key, nodeHeight, data, dataSize);
      rowInfo := insertNode.rowInfo;
      AddNode(context, insertNode);
      assert EntriesOf(ns) == es && Rowed(ns);
      InsertedRows(ns, context.rank, insertNode);
    }

    /** Links the new row in and reports it to the transaction. */
    method StoreRow(context: TraverseContext, key: Key, data: Data, dataSize: uint16, nodeHeight: uint8,
                    transaction: Transaction?)
      requires Valid() && initialized && 1 <= nodeHeight <= maxNodeHeight
      requires context.prevNode !in Repr && context.prevRank !in Repr
      requires context.rank == LowerBound(Keys(nodes), key)
      requires Records(context.prevNode[..], context.prevRank[..], nodes, context.rank, 0, maxNodeHeight)
      requires primaryIndex ==> key !in Keys(nodes)
      requires transaction == null || transaction !in Repr
      modifies Repr, transaction
      ensures Valid() && initialized
      ensures fresh(Repr - old(Repr)) && (forall o :: o in Footprint(this) ==> o in old(Footprint(this)) || fresh(o))
      ensures forall n :: n in old(nodes) ==> n.rowInfo == old(n.rowInfo)
      ensures var p := context.rank;
              && p + 1 < |nodes| == |old(nodes)| + 1
              && nodes == Inserted(old(nodes), p + 1, nodes[p + 1])
              && fresh(nodes[p + 1]) && fresh(nodes[p + 1].rowInfo)
              && (forall n :: n in nodes ==> n in old(nodes) || n == nodes[p + 1])
              && EntriesOf(nodes) == Inserted(old(EntriesOf(nodes)), p, Entry(key, nodeHeight, data, dataSize, NoStatus))
              && (transaction != null ==>
                    transaction.affectedRows == old(transaction.affectedRows) + [KeyRowInfo(key, KEY_SIZE, nodes[p + 1].rowInfo)])
    {
      hide Chained, Linked, Heights, Ordered, StrictlyOrdered, Next, IsNext, Width, Records, LowerBound, Rowed,
           Inserted, EntriesOf, EntryOf;
      var rowInfo := InsertNew(context, key, data, dataSize, nodeHeight);
      if transaction != null {
        transaction.AddAffectedRow(key, KEY_SIZE, rowInfo);
      }
    }

    method Insert(key: Key, data: Data, dataSize: uint16, nodeHeight: uint8, transaction: Transaction?)
      returns (r: Result<bool, SkipListError>, ghost height: uint8)
      requires Valid()
      requires transaction == null || transaction !in Repr
      modifies Repr, transaction
      ensures Valid() && initialized == old(initialized)
      ensures fresh(Repr - old(Repr)) && (forall o :: o in Footprint(this) ==> o in old(Footprint(this)) || fresh(o))
      ensures !initialized ==> r == Err(NotInitialized)
      ensures initialized && nodeHeight > maxNodeHeight ==> r == Err(NodeHeightTooLarge)
      ensures initialized && nodeHeight <= maxNodeHeight ==>
                r == Ok(!(primaryIndex && key in Keys(old(nodes))))
      ensures r != Ok(true) ==>
                && nodes == old(nodes) && (initialized ==> EntriesOf(nodes) == old(EntriesOf(nodes)))
                && (transaction != null ==> transaction.affectedRows == old(transaction.affectedRows))
      ensures forall n :: n in old(nodes) ==> n.rowInfo == old(n.rowInfo)
      ensures r == Ok(true) ==>
                var p := LowerBound(Keys(old(nodes)), key);
                && 1 <= height <= maxNodeHeight && (nodeHeight != 0 ==> height == nodeHeight)
                && |nodes| == |old(nodes)| + 1
                && nodes == Inserted(old(nodes), p + 1, nodes[p + 1])
                && fresh(nodes[p + 1]) && fresh(nodes[p + 1].rowInfo)
                && (forall n :: n in nodes ==> n in old(nodes) || n == nodes[p + 1])
                && EntriesOf(nodes) == Inserted(old(EntriesOf(nodes)), p, Entry(key, height, data, dataSize, NoStatus))
                && (transaction != null ==>
                      transaction.affectedRows == old(transaction.affectedRows) + [KeyRowInfo(key, 4, nodes[p + 1].rowInfo)])
    {
      hide Chained, Linked, Heights, Ordered, StrictlyOrdered, Next, IsNext, Width, Records, LowerBound, Rowed,
           Inserted, EntriesOf, EntryOf, Footprint;
      height := nodeHeight;
      ghost var f := Footprint(this);
      if !initialized {
        return Err(NotInitialized), height;
      }
      if nodeHeight > maxNodeHeight {
        return Err(NodeHeightTooLarge), height;
      }
      var newHeight := nodeHeight;
      if newHeight == 0 {
        newHeight := GenerateNodeHeight(maxNodeHeight);
      }
      height := newHeight;
      var context, duplicateKey := TraversePrevNodes(key, false);
      assert Footprint(this) == f;
      if primaryIndex && duplicateKey {
        return Ok(false), height;
      }
      StoreRow(context, key, data, dataSize, newHeight, transaction);
      r := Ok(true);
    }

    /** With unique keys no requirement remains; with duplicates the first equal node must be the tallest of them. */
    ghost predicate Reachable(key: Key)
      reads this
    {
      initialized && |nodes| > 0 && !primaryIndex && key in Keys(nodes) ==>
        FirstIsTallest(nodes, LowerBound(Keys(nodes), key) + 1, key)
    }

    /** Takes the node of a stored key out of every level it is on. */
    method TakeNode(context: TraverseContext, key: Key) returns (removeNode: SkipListNode)
      requires Valid() && initialized && key in Keys(nodes) && Reachable(key)
      requires context.prevNode !in Repr && context.prevRank !in Repr
      requires context.rank == LowerBound(Keys(nodes), key)
      requires Records(context.prevNode[..], context.prevRank[..], nodes, context.rank, 0, maxNodeHeight)
      modifies this, set n | n in nodes :: n.next, set n | n in nodes :: n.width
      ensures Valid() && Repr == old(Repr) && initialized
      ensures context.rank + 1 < |old(nodes)| && nodes == Removed(old(nodes), context.rank + 1)
      ensures removeNode == old(nodes)[context.rank + 1] && removeNode !in nodes
      ensures forall n :: n in nodes ==> n in old(nodes)
    {
      hide Chained, Linked, Heights, Ordered, StrictlyOrdered, Splits, Next, IsNext, Width, Records, LowerBound, Rowed,
           Inserted, Removed, EntriesOf, EntryOf, FirstIsTallest, Shaped;
      ghost var ns, r := nodes, context.rank;
      ChainedLevels(ns, maxNodeHeight);
      PlanRemoval(ns, key, context.prevNode[..], context.prevRank[..], r, maxNodeHeight, primaryIndex);
      RemovedRows(ns, r);
      ghost var s := Splice(Removed(ns, r + 1), ns, r, ns[r + 1], maxNodeHeight);
      nodes := s.without;
      removeNode := UnlinkNode(context, key, s);
      ChainedFrom(s.without, maxNodeHeight);
      assert Rowed(s.without);
      size := size - 1;
    }

    /** The source ignores its transaction argument here. */
    method Remove(key: Key) returns (r: Result<bool, SkipListError>)
      requires Valid() && Reachable(key)
      modifies Repr
      ensures Valid() && initialized == old(initialized)
      ensures Repr == old(Repr)
      ensures !initialized ==> r == Err(NotInitialized) && nodes == old(nodes)
      ensures initialized ==> r == Ok(key in Keys(old(nodes)))
      ensures r == Ok(false) ==> nodes == old(nodes) && EntriesOf(nodes) == old(EntriesOf(nodes))
      ensures forall n :: n in nodes ==> n in old(nodes) && n.rowInfo == old(n.rowInfo)
      ensures r == Ok(true) ==>
                var p := LowerBound(Keys(old(nodes)), key);
                && p < |old(nodes)| - 1
                && nodes == Removed(old(nodes), p + 1)
                && EntriesOf(nodes) == Removed(old(EntriesOf(nodes)), p)
                && old(nodes)[p + 1].rowInfo == null
    {
      hide Chained, Linked, Heights, Ordered, StrictlyOrdered, Next, IsNext, Width, Records, LowerBound, Rowed,
           Removed, EntriesOf, EntryOf, Shaped, Footprint;
      if !initialized {
        return Err(NotInitialized);
      }
      var context, duplicateKey := TraversePrevNodes(key, false);
      if !duplicateKey {
        return Ok(false);
      }
      ghost var ns, es := nodes, EntriesOf(nodes);
      var removeNode := TakeNode(context, key);
      assert Rowed(ns) && EntriesOf(ns) == es;
      RemovedRows(ns, context.rank);
      es := EntriesOf(nodes);
      removeNode.rowInfo := null;
      assert Rowed(nodes) && EntriesOf(nodes) == es;
      r := Ok(true);
    }

    method TraversePrevNodes(key: Key, duplicateKey: bool) returns (context: TraverseContext, duplicate: bool)
      requires Valid() && initialized
      ensures fresh(context) && fresh(context.prevNode) && fresh(context.prevRank)
      ensures context.prevNode as object != context.prevRank
      ensures context.rank == LowerBound(Keys(nodes), key)
      ensures Records(context.prevNode[..], context.prevRank[..], nodes, context.rank, 0, maxNodeHeight)
      ensures duplicate <==> duplicateKey || key in Keys(nodes)
    {
      hide Shaped, Chained, Linked, Heights, Ordered, StrictlyOrdered, Splits, Next, IsNext, Width, Records, LowerBound, Rowed;
      context := new TraverseContext(maxNodeHeight);
      duplicate := duplicateKey;
      ghost var ns, hs, r := nodes, Heights(nodes), LowerBound(Keys(nodes), key);
      RankSplits(ns, key);
      StoredIffAfter(ns, key, r);
      ghost var prevNode: seq<SkipListNode?>, prevRank: seq<nat> := context.prevNode[..], context.prevRank[..];
      StartDescent(ns, prevNode, prevRank, r, maxNodeHeight);

      var trail, node: SkipListNode? := head, head;
      var accumulatedRank: nat := 0;
      var level := maxNodeHeight as int;
      while level > 0
        modifies context.prevNode, context.prevRank
        invariant 0 <= level <= maxNodeHeight
        invariant 0 <= accumulatedRank <= r && trail == node == ns[accumulatedRank] && level <= trail.height
        invariant prevNode == context.prevNode[..] && prevRank == context.prevRank[..]
        invariant Records(prevNode, prevRank, ns, r, level, maxNodeHeight)
        invariant duplicate ==> duplicateKey || StoredAfter(ns, key, r)
        invariant duplicateKey ==> duplicate
        invariant level == 0 ==> accumulatedRank == r && (StoredAfter(ns, key, r) ==> duplicate)
      {
        level := level - 1;
        FollowLink(ns, maxNodeHeight, level, accumulatedRank);
        node := node.next[level];
        ghost var np := Next(hs, accumulatedRank, level);
        while node != null && key > node.key
          modifies {}
          invariant prevNode == context.prevNode[..] && prevRank == context.prevRank[..]
          invariant 0 <= accumulatedRank <= r && trail == ns[accumulatedRank]
          invariant level < trail.height
          invariant np == Next(hs, accumulatedRank, level) && node == NodeAt(ns, np)
          decreases |ns| - accumulatedRank
        {
          FollowLink(ns, maxNodeHeight, level, accumulatedRank);
          BelowRank(ns, key, r, np);
          FollowLink(ns, maxNodeHeight, level, np);
          accumulatedRank := accumulatedRank + trail.width[level];
          trail := node;
          node := node.next[level];
          np := Next(hs, np, level);
        }
        FollowLink(ns, maxNodeHeight, level, accumulatedRank);
        MeetsKey(ns, maxNodeHeight, key, r, level, accumulatedRank);
        if node != null && key == node.key {
          duplicate := true;
        }
        RecordLevel(prevNode, prevRank, ns, r, level, maxNodeHeight, accumulatedRank);
        context.SetPrevNode(level, trail);
        context.SetPrevRank(level, accumulatedRank);
        prevNode, prevRank := context.prevNode[..], context.prevRank[..];
        node := trail;
      }
      context.rank := accumulatedRank;
    }

    /** pos is the position of the node found. */
    method FindNode(key: Key) returns (foundNode: SkipListNode?, ghost pos: nat)
      requires Valid() && initialized
      ensures foundNode == null ==> key !in Keys(nodes)
      ensures foundNode != null ==> Met(nodes, key, pos) && foundNode == nodes[pos]
    {
      hide Chained, Linked, Heights, Shaped, Ordered, StrictlyOrdered, Splits, Next, IsNext, Width, LowerBound, Rowed,
           Met, NoneAbove;
      ghost var ns, hs, r := nodes, Heights(nodes), LowerBound(Keys(nodes), key);
      RankSplits(ns, key);
      StartSearch(ns, key, maxNodeHeight);

      var trail, node: SkipListNode? := head, head;
      ghost var tp: nat := 0;
      var level := maxNodeHeight as int;
      while level > 0
        invariant 0 <= level <= maxNodeHeight
        invariant 0 <= tp <= r && trail == node == ns[tp] && level <= trail.height
        invariant NoneAbove(ns, key, level)
      {
        level := level - 1;
        FollowLink(ns, maxNodeHeight, level, tp);
        node := node.next[level];
        pos := Next(hs, tp, level);
        while node != null && key > node.key
          invariant 0 <= tp <= r && trail == ns[tp]
          invariant level < trail.height
          invariant pos == Next(hs, tp, level) && node == NodeAt(ns, pos)
          decreases |ns| - tp
        {
          FollowLink(ns, maxNodeHeight, level, tp);
          BelowRank(ns, key, r, pos);
          FollowLink(ns, maxNodeHeight, level, pos);
          tp := pos;
          trail := node;
          node := node.next[level];
          pos := Next(hs, tp, level);
        }
        FollowLink(ns, maxNodeHeight, level, tp);
        MeetsOrDescends(ns, maxNodeHeight, key, r, level, tp);
        if node != null && key == node.key {
          return node, pos;
        }
        assert node == null || key < node.key;
        node := trail;
      }
      NoneStored(ns, maxNodeHeight, key);
      return null, 0;
    }

    method Update(key: Key, data: Data, dataSize: uint16, transaction: Transaction?)
      returns (r: Result<bool, SkipListError>, ghost pos: nat)
      requires Valid()
      requires transaction == null || transaction !in Repr
      modifies transaction, set n | n in nodes && n.rowInfo != null :: n.rowInfo
      ensures Valid() && Footprint(this) == old(Footprint(this))
      ensures !initialized ==> r == Err(NotInitialized)
      ensures initialized ==> r == Ok(key in Keys(nodes))
      ensures r != Ok(true) ==>
                && (initialized ==> EntriesOf(nodes) == old(EntriesOf(nodes)))
                && (transaction != null ==> transaction.affectedRows == old(transaction.affectedRows))
      ensures r == Ok(true) ==>
                && Met(nodes, key, pos)
                && EntriesOf(nodes) == UpdatedRow(old(EntriesOf(nodes)), pos - 1, data, dataSize)
                && (transaction != null ==>
                      transaction.affectedRows == old(transaction.affectedRows) + [KeyRowInfo(key, 4, nodes[pos].rowInfo)])
      ensures r == Ok(true) ==>
                && nodes[pos] in nodes && nodes[pos].rowInfo != null
                && nodes[pos].rowInfo.data == data && nodes[pos].rowInfo.size == dataSize
                && nodes[pos].rowInfo.status == old(nodes[pos].rowInfo.status)
    {
      hide Chained, Linked, Heights, Shaped, Ordered, StrictlyOrdered, Rowed, EntriesOf, EntryOf, UpdatedRow, Footprint,
           Met, Sized, Keys;
      pos := 0;
      if !initialized {
        return Err(NotInitialized), pos;
      }
      var foundNode: SkipListNode?;
      foundNode, pos := FindNode(key);
      if foundNode != null {
        FoundStored(nodes, key, pos);
        HasRow(nodes, pos);
        foundNode.rowInfo.SetData(data, dataSize);
        UpdatedEntries(RowUpdate(nodes, pos, data, dataSize));
        ghost var es := EntriesOf(nodes);
        if transaction != null {
          transaction.AddAffectedRow(key, KEY_SIZE, foundNode.rowInfo);
        }
        assert EntriesOf(nodes) == es;
        return Ok(true), pos;
      }
      r := Ok(false);
    }

    /** The row data stored under a key; None, the null pointer, when there is none. */
    method Find(key: Key) returns (r: Result<Data, SkipListError>, ghost pos: nat)
      requires Valid()
      ensures !initialized ==> r == Err(NotInitialized)
      ensures initialized && key !in Keys(nodes) ==> r == Ok(None)
      ensures initialized && key in Keys(nodes) ==> Met(nodes, key, pos) && r == Ok(EntriesOf(nodes)[pos - 1].data)
    {
      hide Chained, Linked, Heights, Shaped, Ordered, StrictlyOrdered, Rowed, EntriesOf;
      pos := 0;
      if !initialized {
        return Err(NotInitialized), pos;
      }
      var foundNode: SkipListNode?;
      foundNode, pos := FindNode(key);
      if foundNode != null {
        FoundStored(nodes, key, pos);
        HasRow(nodes, pos);
        return Ok(foundNode.rowInfo.data), pos;
      }
      r := Ok(None);
    }

    method Contains(key: Key) returns (r: Result<bool, SkipListError>)
      requires Valid()
      ensures r == if initialized then Ok(key in Keys(nodes)) else Err(NotInitialized)
    {
      hide Chained, Linked, Heights, Shaped, Ordered, StrictlyOrdered, Rowed;
      if !initialized {
        return Err(NotInitialized);
      }
      var foundNode, pos := FindNode(key);
      if foundNode != null { FoundStored(nodes, key, pos); }
      r := Ok(foundNode != null);
    }

    method Empty() returns (r: Result<bool, SkipListError>)
      requires Valid()
      ensures r == if initialized then Ok(Keys(nodes) == []) else Err(NotInitialized)
    {
      if !initialized {
        return Err(NotInitialized);
      }
      r := Ok(size == 0);
    }

    /** The counter, or the length of the bottom level counted node by node. */
    method Size(calculate: bool) returns (r: Result<nat, SkipListError>)
      requires Valid()
      ensures r == if initialized then Ok(|Keys(nodes)|) else Err(NotInitialized)
    {
      hide Chained, Linked, Heights, Shaped, Ordered, StrictlyOrdered, Rowed;
      if !initialized {
        return Err(NotInitialized);
      }
      if calculate {
        var count := 0;
        Successor(nodes, maxNodeHeight, 0);
        var node := head.next[0];
        while node != null
          invariant 0 <= count < |nodes| && node == NodeAt(nodes, count + 1)
          decreases |nodes| - count
        {
          Successor(nodes, maxNodeHeight, count + 1);
          count := count + 1;
          node := node.next[0];
        }
        return Ok(count);
      }
      r := Ok(size);
    }

    /** Exactly the stored keys in [lowKey, highKey), from two ranks. */
    method EstimateRangeCardinality(lowKey: Key, highKey: Key) returns (r: Result<nat, SkipListError>)
      requires Valid()
      ensures !initialized ==> r == Err(NotInitialized)
      ensures initialized && lowKey > highKey ==> r == Ok(0)
      ensures initialized && lowKey <= highKey ==> r == Ok(CountIn(Keys(nodes), lowKey, highKey))
    {
      hide Chained, Linked, Heights, Shaped, Ordered, StrictlyOrdered, Rowed, LowerBound, CountIn;
      if !initialized {
        return Err(NotInitialized);
      }
      if lowKey > highKey {
        return Ok(0);
      }
      var contextLow, duplicateKey := TraversePrevNodes(lowKey, false);
      BottomRank(contextLow.prevNode[..], contextLow.prevRank[..], nodes, contextLow.rank, maxNodeHeight);
      var lowRank := contextLow.prevRank[0];
      var contextHigh;
      contextHigh, duplicateKey := TraversePrevNodes(highKey, duplicateKey);
      BottomRank(contextHigh.prevNode[..], contextHigh.prevRank[..], nodes, contextHigh.rank, maxNodeHeight);
      var highRank := contextHigh.prevRank[0];
      RankDifference(Keys(nodes), lowKey, highKey);
      assert lowRank <= highRank;
      r := Ok(highRank - lowRank);
    }

    method Begin() returns (r: Result<SkipListIterator, SkipListError>)
      requires Valid()
      ensures !initialized ==> r == Err(NotInitialized)
      ensures initialized ==> r.Ok? && fresh(r.value) && r.value.endKey == None && r.value.current == NodeAt(nodes, 1)
    {
      hide Chained, Linked, Heights, Shaped, Ordered, StrictlyOrdered, Rowed;
      if !initialized {
        return Err(NotInitialized);
      }
      Successor(nodes, maxNodeHeight, 0);
      var it := new SkipListIterator(head.next[0], None);
      r := Ok(it);
    }

    /**
     Lands on the least stored key at or past `key`. With duplicates of a stored key it lands on the tallest of
     them. A bounded seek needs some stored key at or past `key`, because the iterator reads its node's key.
     */
    method Seek(key: Key, endKey: Option<Key>) returns (r: Result<SkipListIterator, SkipListError>, ghost pos: nat)
      requires Valid()
      requires initialized && endKey.Some? ==> LowerBound(Keys(nodes), key) < |Keys(nodes)|
      ensures !initialized ==> r == Err(NotInitialized)
      ensures initialized ==>
                && (if key in Keys(nodes) then Met(nodes, key, pos) else pos == LowerBound(Keys(nodes), key) + 1)
                && r.Ok? && fresh(r.value) && r.value.endKey == endKey && r.value.current == Bounded(nodes, pos, endKey)
    {
      hide Chained, Linked, Heights, Shaped, Ordered, StrictlyOrdered, Splits, Next, IsNext, Width, LowerBound, Rowed,
           Met, NoneAbove;
      pos := 0;
      if !initialized {
        return Err(NotInitialized), pos;
      }
      var lowerBound: SkipListNode?;
      lowerBound, pos := SeekNode(key);
      var it := new SkipListIterator(lowerBound, endKey);
      r := Ok(it);
    }

    /** The descent of Seek. */
    method SeekNode(key: Key) returns (lowerBound: SkipListNode?, ghost pos: nat)
      requires Valid() && initialized
      ensures lowerBound == NodeAt(nodes, pos)
      ensures if key in Keys(nodes) then Met(nodes, key, pos) else pos == LowerBound(Keys(nodes), key) + 1
      ensures pos < |nodes| <==> LowerBound(Keys(nodes), key) < |Keys(nodes)|
    {
      hide Chained, Linked, Heights, Shaped, Ordered, StrictlyOrdered, Splits, Next, IsNext, Width, LowerBound, Rowed,
           Met, NoneAbove;
      ghost var ns, hs, r := nodes, Heights(nodes), LowerBound(Keys(nodes), key);
      RankSplits(ns, key);
      StartSearch(ns, key, maxNodeHeight);

      var trail, node: SkipListNode? := head, head;
      ghost var tp: nat := 0;
      lowerBound, pos := null, 0;
      var level := maxNodeHeight as int;
      while level > 0
        invariant 0 <= level <= maxNodeHeight
        invariant 0 <= tp <= r && trail == node == ns[tp] && level <= trail.height
        invariant NoneAbove(ns, key, level)
        invariant level > 0
      {
        level := level - 1;
        FollowLink(ns, maxNodeHeight, level, tp);
        node := node.next[level];
        pos := Next(hs, tp, level);
        while node != null && key > node.key
          invariant 0 <= tp <= r && trail == ns[tp]
          invariant level < trail.height
          invariant pos == Next(hs, tp, level) && node == NodeAt(ns, pos)
          decreases |ns| - tp
        {
          FollowLink(ns, maxNodeHeight, level, tp);
          BelowRank(ns, key, r, pos);
          FollowLink(ns, maxNodeHeight, level, pos);
          tp := pos;
          trail := node;
          node := node.next[level];
          pos := Next(hs, tp, level);
        }
        FollowLink(ns, maxNodeHeight, level, tp);
        MeetsOrDescends(ns, maxNodeHeight, key, r, level, tp);
        if node != null && key == node.key {
          FoundStored(ns, key, pos);
          StoredIffAfter(ns, key, r);
          lowerBound := node;
          break;
        }
        assert node == null || key < node.key;
        if level == 0 {
          NoneStored(ns, maxNodeHeight, key);
          lowerBound := node;
          break;
        }
        node := trail;
      }
    }
  }
}
