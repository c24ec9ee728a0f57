/** Row infos, skip list nodes and the record a descent leaves behind. */
module SkipListNodes {
  import opened Wrappers
  import opened SortedKeys
  import opened Positions

  /** The bytes a row pointer designates; None is the null pointer. */
  type Data = Option<seq<bv8>>

  datatype Status = NoStatus | Committed | Aborted | Uncommitted

  class RowInfo {
    var status: Status
    var data: Data
    var size: uint16

    constructor (status: Status, data: Data, size: uint16)
      ensures this.status == status && this.data == data && this.size == size
    {
      this.status := status;
      this.data := data;
      this.size := size;
    }

    method SetData(data: Data, size: uint16)
      modifies this
      ensures this.data == data && this.size == size && status == old(status)
    {
      this.data := data;
      this.size := size;
    }

    method SetStatus(status: Status)
      modifies this
      ensures this.status == status && data == old(data) && size == old(size)
    {
      this.status := status;
    }
  }

  /** A row touched by a transaction. */
  datatype KeyRowInfo = KeyRowInfo(key: Key, keySize: uint16, rowInfo: RowInfo)

  class Transaction {
    const transactionId: nat
    const viewpoint: nat
    var affectedRows: seq<KeyRowInfo>

    constructor (transactionId: nat, viewpoint: nat)
      ensures this.transactionId == transactionId && this.viewpoint == viewpoint && affectedRows == []
    {
      this.transactionId := transactionId;
      this.viewpoint := viewpoint;
      affectedRows := [];
    }

    method AddAffectedRow(key: Key, keySize: uint16, rowInfo: RowInfo)
      modifies this
      ensures affectedRows == old(affectedRows) + [KeyRowInfo(key, keySize, rowInfo)]
    {
      affectedRows := affectedRows + [KeyRowInfo(key, keySize, rowInfo)];
    }
  }

  class SkipListNode {
    const key: Key
    const height: uint8
    const next: array<SkipListNode?>
    const width: array<nat>
    var rowInfo: RowInfo?

    constructor (key: Key, height: uint8)
      requires height > 0
      ensures this.key == key && this.height == height && rowInfo == null
      ensures fresh(next) && next.Length == height
      ensures fresh(width) && width.Length == height
      ensures next as object != width
      ensures forall x :: 0 <= x < height ==> next[x] == null && width[x] == 0
    {
      this.key := key;
      this.height := height;
      rowInfo := null;
      next := new SkipListNode?[height];
      width := new nat[height];
      new;
      var x := 0;
      while x < this.height
        modifies next
        invariant 0 <= x <= this.height
        invariant forall y :: 0 <= y < x ==> next[y] == null
      {
        next[x] := null;
        x := x + 1;
      }
      x := 0;
      while x < this.height
        modifies width
        invariant 0 <= x <= this.height
        invariant forall y :: 0 <= y < x ==> width[y] == 0
      {
        width[x] := 0;
        x := x + 1;
      }
    }
  }

  /** For each level, the last node before a key and that node's position. */
  class TraverseContext {
    const prevNode: array<SkipListNode?>
    const prevRank: array<nat>
    var rank: nat

    constructor (size: uint8)
      ensures fresh(prevNode) && prevNode.Length == size
      ensures fresh(prevRank) && prevRank.Length == size
      ensures prevNode as object != prevRank
      ensures rank == 0
      ensures forall x :: 0 <= x < size ==> prevNode[x] == null && prevRank[x] == 0
    {
      prevNode := new SkipListNode?[size];
      prevRank := new nat[size];
      rank := 0;
      new;
      for x := 0 to size
        modifies prevNode
        invariant forall y :: 0 <= y < x ==> prevNode[y] == null
      {
        prevNode[x] := null;
      }
      for x := 0 to size
        modifies prevRank
        invariant forall y :: 0 <= y < x ==> prevRank[y] == 0
      {
        prevRank[x] := 0;
      }
    }

    method SetPrevNode(index: nat, node: SkipListNode)
      requires index < prevNode.Length
      modifies prevNode
      ensures prevNode[..] == old(prevNode[..])[index := node]
    {
      prevNode[index] := node;
    }

    method SetPrevRank(index: nat, rank: nat)
      requires index < prevRank.Length
      modifies prevRank
      ensures prevRank[..] == old(prevRank[..])[index := rank]
    {
      prevRank[index] := rank;
    }
  }

  // ---------- node sequences: position 0 is the head ----------

  function Heights(nodes: seq<SkipListNode>): (hs: seq<nat>)
    ensures |hs| == |nodes|
    ensures forall i :: 0 <= i < |nodes| ==> hs[i] == nodes[i].height
  {
    seq(|nodes|, i requires 0 <= i < |nodes| => nodes[i].height)
  }

  /** The keys of the stored nodes, without the head's dummy key. */
  function Keys(nodes: seq<SkipListNode>): (keys: seq<Key>)
    requires |nodes| > 0
    ensures |keys| == |nodes| - 1
    ensures forall i :: 0 <= i < |keys| ==> keys[i] == nodes[i + 1].key
  {
    seq(|nodes| - 1, i requires 0 <= i < |nodes| - 1 => nodes[i + 1].key)
  }

  function NodeAt(nodes: seq<SkipListNode>, i: nat): SkipListNode? {
    if i < |nodes| then nodes[i] else null
  }

  /** Every node owns two arrays of its own height, and the head is as tall as any node may be. */
  ghost predicate Shaped(nodes: seq<SkipListNode>, maxHeight: nat) {
    && |nodes| > 0
    && nodes[0].height == maxHeight
    && (forall i :: 0 <= i < |nodes| ==>
          1 <= nodes[i].height <= maxHeight && nodes[i].next.Length == nodes[i].width.Length == nodes[i].height)
    && (forall i, j :: 0 <= i < j < |nodes| ==> nodes[i].next != nodes[j].next && nodes[i].width != nodes[j].width)
    && (forall i, j :: 0 <= i < |nodes| && 0 <= j < |nodes| ==> nodes[i].next as object != nodes[j].width)
  }

  // ---------- stored entries ----------

  /** What a stored node holds: its key, its height, and its row. */
  datatype Entry = Entry(key: Key, height: uint8, data: Data, size: uint16, status: Status)

  /** Every stored node owns a row info of its own; the head has none. */
  ghost predicate Rowed(nodes: seq<SkipListNode>)
    reads nodes
  {
    && (forall i :: 1 <= i < |nodes| ==> nodes[i].rowInfo != null)
    && (forall i, j :: 1 <= i < j < |nodes| ==> nodes[i].rowInfo != nodes[j].rowInfo)
  }

  ghost function EntryOf(node: SkipListNode): Entry
    requires node.rowInfo != null
    reads node, node.rowInfo
  {
    Entry(node.key, node.height, node.rowInfo.data, node.rowInfo.size, node.rowInfo.status)
  }

  ghost function EntriesOf(nodes: seq<SkipListNode>): (es: seq<Entry>)
    requires |nodes| > 0 && Rowed(nodes)
    reads nodes, set n | n in nodes && n.rowInfo != null :: n.rowInfo
    ensures |es| == |nodes| - 1
    ensures forall i :: 0 <= i < |es| ==> es[i] == EntryOf(nodes[i + 1])
  {
    seq(|nodes| - 1, i requires 0 <= i < |nodes| - 1 && nodes[i + 1].rowInfo != null
                       reads nodes, set n | n in nodes && n.rowInfo != null :: n.rowInfo => EntryOf(nodes[i + 1]))
  }

  /** Every node's arrays have one slot for each of its levels. */
  ghost predicate Sized(nodes: seq<SkipListNode>) {
    forall n :: n in nodes ==> n.next.Length == n.width.Length == n.height
  }

  /** On one level every link and every width is the one the heights determine. */
  ghost predicate Linked(nodes: seq<SkipListNode>, level: nat)
    requires Sized(nodes)
    reads set n | n in nodes :: n.next, set n | n in nodes :: n.width
  {
    forall i {:trigger nodes[i].next[level]} {:trigger nodes[i].width[level]} ::
      0 <= i < |nodes| && level < nodes[i].height ==>
      && nodes[i].next[level] == NodeAt(nodes, Next(Heights(nodes), i, level))
      && nodes[i].width[level] == Width(Heights(nodes), i, level)
  }

  /** A well-formed list: the links and widths of every level are those of its heights. */
  ghost predicate Chained(nodes: seq<SkipListNode>, maxHeight: nat)
    reads set n | n in nodes :: n.next, set n | n in nodes :: n.width
  {
    && Shaped(nodes, maxHeight)
    && forall l :: 0 <= l < maxHeight ==> Linked(nodes, l)
  }

  /** One link of a well-formed list, spelled out. */
  lemma FollowLink(nodes: seq<SkipListNode>, maxHeight: nat, level: nat, i: nat)
    requires Chained(nodes, maxHeight)
    requires i < |nodes| && level < nodes[i].height
    ensures level < nodes[i].next.Length && level < nodes[i].width.Length
    ensures var j := Next(Heights(nodes), i, level);
            && i < j <= |nodes|
            && nodes[i].next[level] == NodeAt(nodes, j)
            && nodes[i].width[level] == Width(Heights(nodes), i, level)
            && (j < |nodes| ==> level < nodes[j].height && nodes[i].width[level] == j - i)
  {
    assert Linked(nodes, level);
  }

  /** r is the position of the last node whose key is smaller than key. */
  ghost predicate Splits(nodes: seq<SkipListNode>, key: Key, r: nat) {
    && r < |nodes|
    && (forall i :: 1 <= i <= r ==> nodes[i].key < key)
    && (forall i :: r < i < |nodes| ==> key <= nodes[i].key)
  }

  lemma RankSplits(nodes: seq<SkipListNode>, key: Key)
    requires |nodes| > 0 && Ordered(Keys(nodes))
    ensures Splits(nodes, key, LowerBound(Keys(nodes), key))
  {
    var keys := Keys(nodes);
    var r := LowerBound(keys, key);
    forall i | 1 <= i <= r ensures nodes[i].key < key {
      assert keys[i - 1] < key;
    }
    forall i | r < i < |nodes| ensures key <= nodes[i].key {
      assert keys[r] >= key && keys[r] <= keys[i - 1];
    }
  }

  /** On the levels in [from, to), a descent recorded the last node up to position r and its position. */
  ghost predicate Records(prevNode: seq<SkipListNode?>, prevRank: seq<nat>, nodes: seq<SkipListNode>, r: nat,
                          from: nat, to: nat) {
    && |prevNode| == |prevRank| == to
    && forall l :: from <= l < to ==>
         && IsPrev(Heights(nodes), r, l, prevRank[l])
         && prevNode[l] == nodes[prevRank[l]]
  }

  lemma RecordLevel(prevNode: seq<SkipListNode?>, prevRank: seq<nat>, nodes: seq<SkipListNode>, r: nat,
                    level: nat, to: nat, q: nat)
    requires Records(prevNode, prevRank, nodes, r, level + 1, to) && level < to
    requires IsPrev(Heights(nodes), r, level, q)
    ensures Records(prevNode[level := nodes[q]], prevRank[level := q], nodes, r, level, to)
  {
  }

  lemma BelowRank(nodes: seq<SkipListNode>, key: Key, r: nat, i: nat)
    requires Splits(nodes, key, r) && 0 < i < |nodes| && nodes[i].key < key
    ensures i <= r
  {
  }

  lemma StartDescent(nodes: seq<SkipListNode>, prevNode: seq<SkipListNode?>, prevRank: seq<nat>, r: nat, maxHeight: nat)
    requires Chained(nodes, maxHeight) && |prevNode| == |prevRank| == maxHeight
    ensures Shaped(nodes, maxHeight) && nodes[0].height == maxHeight && maxHeight > 0
    ensures Records(prevNode, prevRank, nodes, r, maxHeight, maxHeight)
  {
  }

  /** The first node that is not smaller than key carries it. */
  ghost predicate StoredAfter(nodes: seq<SkipListNode>, key: Key, r: nat) {
    r + 1 < |nodes| && nodes[r + 1].key == key
  }

  lemma StoredIffAfter(nodes: seq<SkipListNode>, key: Key, r: nat)
    requires Splits(nodes, key, r) && Ordered(Keys(nodes))
    ensures key in Keys(nodes) <==> StoredAfter(nodes, key, r)
  {
    assert r < |Keys(nodes)| ==> Keys(nodes)[r] == nodes[r + 1].key;
  }

  /** A descent whose link passes position r, met against the order of the keys. */
  lemma MeetsKey(nodes: seq<SkipListNode>, maxHeight: nat, key: Key, r: nat, level: nat, q: nat)
    requires Shaped(nodes, maxHeight)
    requires Splits(nodes, key, r) && Ordered(Keys(nodes)) && q <= r && level < nodes[q].height
    requires var j := Next(Heights(nodes), q, level); j < |nodes| ==> key <= nodes[j].key
    ensures var hs := Heights(nodes); var j := Next(hs, q, level);
            && r < j
            && IsPrev(hs, r, level, q)
            && (j < |nodes| && nodes[j].key == key ==> StoredAfter(nodes, key, r))
            && (level == 0 ==> q == r && (StoredAfter(nodes, key, r) <==> j < |nodes| && nodes[j].key == key))
  {
    var j := Next(Heights(nodes), q, level);
    if j < |nodes| {
      assert Keys(nodes)[r] <= Keys(nodes)[j - 1];
    }
  }

  lemma RecordOf(prevNode: seq<SkipListNode?>, prevRank: seq<nat>, nodes: seq<SkipListNode>, r: nat, to: nat, l: nat)
    requires Records(prevNode, prevRank, nodes, r, 0, to) && l < to
    ensures IsPrev(Heights(nodes), r, l, prevRank[l])
    ensures prevRank[l] < |nodes| && prevNode[l] == nodes[prevRank[l]] && nodes[prevRank[l]] in nodes
  {
  }

  // ---------- searches that stop at the first level showing the key ----------

  /** Of the nodes that carry key, the one at pos is among the tallest, and the first of those. */
  ghost predicate Met(nodes: seq<SkipListNode>, key: Key, pos: nat) {
    && 1 <= pos < |nodes| && nodes[pos].key == key
    && forall i :: 1 <= i < |nodes| && nodes[i].key == key ==>
         nodes[i].height <= nodes[pos].height && (i < pos ==> nodes[i].height < nodes[pos].height)
  }

  ghost predicate NoneAbove(nodes: seq<SkipListNode>, key: Key, level: nat) {
    forall i :: 1 <= i < |nodes| && nodes[i].key == key ==> nodes[i].height <= level
  }

  lemma MeetsOrDescends(nodes: seq<SkipListNode>, maxHeight: nat, key: Key, r: nat, level: nat, q: nat)
    requires Shaped(nodes, maxHeight)
    requires Splits(nodes, key, r) && NoneAbove(nodes, key, level + 1) && q <= r && level < nodes[q].height
    requires var j := Next(Heights(nodes), q, level); j < |nodes| ==> key <= nodes[j].key
    ensures var j := Next(Heights(nodes), q, level);
            && r < j
            && (level == 0 ==> q == r && j == r + 1)
            && (j < |nodes| && nodes[j].key == key ==> Met(nodes, key, j))
            && (j < |nodes| && nodes[j].key != key && Ordered(Keys(nodes)) ==> NoneAbove(nodes, key, level))
            && (j == |nodes| ==> NoneAbove(nodes, key, level))
  {
    var j := Next(Heights(nodes), q, level);
    if j < |nodes| && nodes[j].key != key && Ordered(Keys(nodes)) {
      forall i | 1 <= i < |nodes| && nodes[i].key == key ensures nodes[i].height <= level {
        assert Keys(nodes)[j - 1] <= Keys(nodes)[i - 1] || i <= j;
        assert r < i;
      }
    }
  }

  lemma NoneStored(nodes: seq<SkipListNode>, maxHeight: nat, key: Key)
    requires Shaped(nodes, maxHeight) && NoneAbove(nodes, key, 0)
    ensures key !in Keys(nodes)
  {
  }
}
