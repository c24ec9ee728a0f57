/** What linking or unlinking one node does to the links and widths of one level. */
module SkipListLevels {
  import opened Positions
  import opened SortedKeys
  import opened SkipListNodes

  /** One node sequence without a node, and the same with the node right after position r. */
  datatype Splice = Splice(without: seq<SkipListNode>, within: seq<SkipListNode>, r: nat, node: SkipListNode,
                           maxHeight: nat) {
    ghost predicate Valid() {
      && r < |without|
      && within == Inserted(without, r + 1, node)
      && |within| == |without| + 1
      && within[r + 1] == node
      && Shaped(without, maxHeight)
      && Shaped(within, maxHeight)
    }
  }

  /** One level of a splice, and the last position up to r on it. */
  datatype Joint = Joint(s: Splice, level: nat, q: nat) {
    ghost predicate Valid() {
      s.Valid() && level < s.maxHeight && IsPrev(Heights(s.without), s.r, level, q)
    }
  }

  /** Levels from `level` up follow one node sequence, the levels below it another. */
  ghost predicate Mixed(upper: seq<SkipListNode>, lower: seq<SkipListNode>, maxHeight: nat, level: nat)
    requires Sized(upper) && Sized(lower)
    reads set n | n in upper :: n.next, set n | n in upper :: n.width
    reads set n | n in lower :: n.next, set n | n in lower :: n.width
  {
    && (forall l :: level <= l < maxHeight ==> Linked(upper, l))
    && (forall l :: 0 <= l < level ==> Linked(lower, l))
  }

  lemma SpliceHeights(s: Splice)
    requires s.Valid()
    ensures Heights(s.within) == Inserted(Heights(s.without), s.r + 1, s.node.height)
  {
  }

  lemma NodeAtInserted(nodes: seq<SkipListNode>, p: nat, node: SkipListNode, k: nat)
    requires p <= |nodes|
    ensures NodeAt(Inserted(nodes, p, node), if k < p then k else k + 1) == NodeAt(nodes, k)
    ensures NodeAt(Inserted(nodes, p, node), p) == node
  {
  }

  /** No two arrays of the nodes of a splice are the same object. */
  lemma SpliceApart(s: Splice, q: nat)
    requires s.Valid() && q < |s.without|
    ensures forall i :: 0 <= i < |s.without| ==>
              && s.without[i].next != s.node.next && s.without[i].width != s.node.width
              && s.without[i].next as object != s.node.width && s.without[i].width as object != s.node.next
    ensures forall i :: 0 <= i < |s.without| && i != q ==>
              && s.without[i].next != s.without[q].next && s.without[i].width != s.without[q].width
    ensures forall i :: 0 <= i < |s.without| ==>
              && s.without[i].next as object != s.without[q].width && s.without[i].width as object != s.without[q].next
    ensures s.node.next as object != s.node.width && 1 <= s.node.height <= s.maxHeight
    ensures s.node.next.Length == s.node.width.Length == s.node.height
    ensures s.without[q].next.Length == s.without[q].width.Length == s.without[q].height
  {
    forall i | 0 <= i < |s.without|
      ensures s.without[i].next != s.node.next && s.without[i].width != s.node.width
      ensures s.without[i].next as object != s.node.width && s.without[i].width as object != s.node.next
    {
      var i2 := if i <= s.r then i else i + 1;
      assert s.within[i2] == s.without[i];
      assert s.within[s.r + 1] == s.node;
    }
  }

  lemma SpliceNodes(s: Splice)
    requires s.Valid()
    ensures forall n :: n in s.within ==> n in s.without || n == s.node
    ensures forall n :: n in s.without ==> n in s.within
    ensures s.node in s.within && s.within[0] == s.without[0]
    ensures Sized(s.without) && Sized(s.within)
  {
    forall n | n in s.without ensures n in s.within {
      var i :| 0 <= i < |s.without| && s.without[i] == n;
      assert s.within[if i <= s.r then i else i + 1] == n;
    }
  }

  /** Position i of the shorter sequence is position i or i + 1 of the longer one; its link in both. */
  lemma SpliceNext(s: Splice, i: nat, level: nat)
    requires s.Valid() && i < |s.without|
    ensures var j, i2 := Next(Heights(s.without), i, level), if i <= s.r then i else i + 1;
            var n2 := NodeAt(s.within, Next(Heights(s.within), i2, level));
            && s.within[i2] == s.without[i]
            && (i <= s.r < j && s.node.height > level ==> n2 == s.node)
            && (i > s.r || j <= s.r || s.node.height <= level ==> n2 == NodeAt(s.without, j))
            && (i == s.r ==> NodeAt(s.within, Next(Heights(s.within), s.r + 1, level)) == NodeAt(s.without, j))
  {
    hide Next, Heights, Shaped, NodeAt;
    SpliceHeights(s);
    NodeAtInserted(s.without, s.r + 1, s.node, Next(Heights(s.without), i, level));
    InsertNext(Heights(s.without), s.r, s.node.height, i, level);
  }

  lemma SpliceWidth(s: Splice, i: nat, level: nat)
    requires s.Valid() && i < |s.without|
    ensures var j, i2 := Next(Heights(s.without), i, level), if i <= s.r then i else i + 1;
            var w, w2 := Width(Heights(s.without), i, level), Width(Heights(s.within), i2, level);
            && (i <= s.r < j && s.node.height > level ==> w2 == s.r - i + 1 && s.r - i <= w)
            && (i <= s.r < j && s.node.height <= level ==> w2 == w + 1)
            && (i > s.r || j <= s.r ==> w2 == w)
            && (i == s.r ==> Width(Heights(s.within), s.r + 1, level) == w)
  {
    hide Next, Width, Heights, Shaped, NodeAt;
    SpliceHeights(s);
    InsertWidth(Heights(s.without), s.r, s.node.height, i, level);
  }

  // ---------- one level, before and after ----------

  twostate predicate Untouched(n: SkipListNode)
    reads n.next, n.width
  {
    n.next[..] == old(n.next[..]) && n.width[..] == old(n.width[..])
  }

  /** Only slot `level` of n's arrays may have been written. */
  twostate predicate OnlyLevel(n: SkipListNode, level: nat)
    reads n.next, n.width
  {
    && level < n.next.Length && level < n.width.Length
    && n.next[..] == old(n.next[..])[level := n.next[level]]
    && n.width[..] == old(n.width[..])[level := n.width[level]]
  }

  twostate lemma OtherLevels(at: Joint)
    requires at.Valid()
    requires forall n :: n in at.s.within ==> Untouched(n) || OnlyLevel(n, at.level)
    ensures forall l: nat :: l != at.level && old(Linked(at.s.without, l)) ==> Linked(at.s.without, l)
    ensures forall l: nat :: l != at.level && old(Linked(at.s.within, l)) ==> Linked(at.s.within, l)
  {
    hide Next, Width, Heights, NodeAt, IsPrev;
    SpliceNodes(at.s);
    forall i | 0 <= i < |at.s.without| ensures Untouched(at.s.without[i]) || OnlyLevel(at.s.without[i], at.level) {
      assert at.s.without[i] in at.s.without;
    }
    forall i | 0 <= i < |at.s.within| ensures Untouched(at.s.within[i]) || OnlyLevel(at.s.within[i], at.level) {
      assert at.s.within[i] in at.s.within;
    }
  }

  /** Linking the node on a level it joins. */
  twostate lemma LevelLinked(at: Joint)
    requires at.Valid() && at.level < at.s.node.height
    requires old(Linked(at.s.without, at.level))
    requires forall i :: 0 <= i < |at.s.without| && i != at.q ==> Untouched(at.s.without[i])
    requires at.s.without[at.q].next[at.level] == at.s.node
    requires at.s.without[at.q].width[at.level] == at.s.r - at.q + 1
    requires at.s.node.next[at.level] == old(at.s.without[at.q].next[at.level])
    requires at.s.node.width[at.level] == old(at.s.without[at.q].width[at.level]) - (at.s.r - at.q)
    ensures Linked(at.s.within, at.level)
  {
    hide Next, Width, Heights, Inserted;
    var Joint(s, level, q) := at;
    NextOfPrev(Heights(s.without), s.r, level, q);
    SpliceNext(s, s.r, level);
    SpliceWidth(s, s.r, level);
    forall i2 | 0 <= i2 < |s.within| && level < s.within[i2].height
      ensures s.within[i2].next[level] == NodeAt(s.within, Next(Heights(s.within), i2, level))
      ensures s.within[i2].width[level] == Width(Heights(s.within), i2, level)
    {
      if i2 != s.r + 1 {
        var i := if i2 <= s.r then i2 else i2 - 1;
        SpliceNext(s, i, level);
        SpliceWidth(s, i, level);
        if i <= s.r { OnePrev(Heights(s.without), s.r, level, q, i); }
      }
    }
  }

  /** Counting the node in on a level it does not join. */
  twostate lemma LevelWidened(at: Joint)
    requires at.Valid() && at.level >= at.s.node.height
    requires old(Linked(at.s.without, at.level))
    requires forall i :: 0 <= i < |at.s.without| && i != at.q ==> Untouched(at.s.without[i])
    requires at.s.without[at.q].next[at.level] == old(at.s.without[at.q].next[at.level])
    requires at.s.without[at.q].width[at.level] == old(at.s.without[at.q].width[at.level]) + 1
    ensures Linked(at.s.within, at.level)
  {
    hide Next, Width, Heights, Inserted;
    var Joint(s, level, q) := at;
    NextOfPrev(Heights(s.without), s.r, level, q);
    forall i2 | 0 <= i2 < |s.within| && level < s.within[i2].height
      ensures s.within[i2].next[level] == NodeAt(s.within, Next(Heights(s.within), i2, level))
      ensures s.within[i2].width[level] == Width(Heights(s.within), i2, level)
    {
      var i := if i2 <= s.r then i2 else i2 - 1;
      SpliceNext(s, i, level);
      SpliceWidth(s, i, level);
      if i <= s.r { OnePrev(Heights(s.without), s.r, level, q, i); }
    }
  }

  /** Unlinking the node from a level it is on. */
  twostate lemma LevelUnlinked(at: Joint)
    requires at.Valid() && at.level < at.s.node.height
    requires old(Linked(at.s.within, at.level))
    requires forall i :: 0 <= i < |at.s.without| && i != at.q ==> Untouched(at.s.without[i])
    requires at.s.without[at.q].next[at.level] == old(at.s.node.next[at.level])
    requires at.s.without[at.q].width[at.level] + 1
          == old(at.s.without[at.q].width[at.level]) + old(at.s.node.width[at.level])
    ensures Linked(at.s.without, at.level)
  {
    hide Next, Width, Heights, Inserted;
    var Joint(s, level, q) := at;
    NextOfPrev(Heights(s.without), s.r, level, q);
    SpliceNext(s, s.r, level);
    SpliceWidth(s, s.r, level);
    assert old(s.node.next[level]) == NodeAt(s.within, Next(Heights(s.within), s.r + 1, level));
    forall i | 0 <= i < |s.without| && level < s.without[i].height
      ensures s.without[i].next[level] == NodeAt(s.without, Next(Heights(s.without), i, level))
      ensures s.without[i].width[level] == Width(Heights(s.without), i, level)
    {
      SpliceNext(s, i, level);
      SpliceWidth(s, i, level);
      var i2 := if i <= s.r then i else i + 1;
      assert old(s.within[i2].next[level]) == NodeAt(s.within, Next(Heights(s.within), i2, level));
      if i <= s.r { OnePrev(Heights(s.without), s.r, level, q, i); }
    }
  }

  /** Counting the node out on a level it is not on. */
  twostate lemma LevelNarrowed(at: Joint)
    requires at.Valid() && at.level >= at.s.node.height
    requires old(Linked(at.s.within, at.level))
    requires forall i :: 0 <= i < |at.s.without| && i != at.q ==> Untouched(at.s.without[i])
    requires at.s.without[at.q].next[at.level] == old(at.s.without[at.q].next[at.level])
    requires at.s.without[at.q].width[at.level] + 1 == old(at.s.without[at.q].width[at.level])
    ensures Linked(at.s.without, at.level)
  {
    hide Next, Width, Heights, Inserted;
    var Joint(s, level, q) := at;
    NextOfPrev(Heights(s.without), s.r, level, q);
    forall i | 0 <= i < |s.without| && level < s.without[i].height
      ensures s.without[i].next[level] == NodeAt(s.without, Next(Heights(s.without), i, level))
      ensures s.without[i].width[level] == Width(Heights(s.without), i, level)
    {
      SpliceNext(s, i, level);
      SpliceWidth(s, i, level);
      var i2 := if i <= s.r then i else i + 1;
      assert old(s.within[i2].next[level]) == NodeAt(s.within, Next(Heights(s.within), i2, level));
      if i <= s.r { OnePrev(Heights(s.without), s.r, level, q, i); }
    }
  }

  // ---------- the loop bodies of insertion ----------

  /** A level above the new node: the link that passes it grows by one. */
  method WidenLink(prev: SkipListNode, level: nat, ghost s: Splice, ghost q: nat)
    requires s.Valid() && s.node.height <= level < s.maxHeight
    requires IsPrev(Heights(s.without), s.r, level, q) && prev == s.without[q]
    requires Mixed(s.within, s.without, s.maxHeight, level + 1)
    modifies prev.width
    ensures Mixed(s.within, s.without, s.maxHeight, level)
  {
    hide Next, Width, Heights, Inserted, Linked;
    prev.width[level] := prev.width[level] + 1;
    LevelWidened(Joint(s, level, q));
    OtherLevels(Joint(s, level, q));
  }

  /** A level the new node joins: the link that passes it is split in two. */
  method SplitLink(prev: SkipListNode, insertNode: SkipListNode, level: nat, prevNodeRank: nat, insertNodeRank: nat,
                   ghost s: Splice)
    requires s.Valid() && level < s.node.height && s.node == insertNode && s.r == insertNodeRank
    requires IsPrev(Heights(s.without), s.r, level, prevNodeRank) && prev == s.without[prevNodeRank]
    requires Mixed(s.within, s.without, s.maxHeight, level + 1)
    modifies prev.next, prev.width, insertNode.next, insertNode.width
    ensures Mixed(s.within, s.without, s.maxHeight, level)
  {
    hide Next, Width, Heights, Inserted, Linked, Shaped;
    SpliceApart(s, prevNodeRank);
    SpliceNodes(s);
    var next := prev.next[level];
    var distance := insertNodeRank - prevNodeRank;
    var prevWidth := distance + 1;
    ReachesPast(s, level, prevNodeRank);
    var insertWidth := if prev.width[level] == 0 then 0 else prev.width[level] - distance;
    prev.next[level] := insertNode;
    prev.width[level] := prevWidth;
    insertNode.next[level] := next;
    insertNode.width[level] := insertWidth;
    LevelLinked(Joint(s, level, prevNodeRank));
    OtherLevels(Joint(s, level, prevNodeRank));
  }

  /** The subtraction in SplitLink does not wrap, and a width of zero leaves no distance to subtract. */
  lemma ReachesPast(s: Splice, level: nat, q: nat)
    requires s.Valid() && level < s.maxHeight && Linked(s.without, level)
    requires IsPrev(Heights(s.without), s.r, level, q)
    ensures s.without[q].width[level] >= s.r - q
  {
    NextOfPrev(Heights(s.without), s.r, level, q);
  }

  // ---------- the loop bodies of removal ----------

  /** A level of the node being removed: the two links around it become one. */
  method MergeLink(prev: SkipListNode, next: SkipListNode, level: nat, ghost s: Splice, ghost q: nat)
    requires s.Valid() && level < s.node.height && s.node == next
    requires IsPrev(Heights(s.without), s.r, level, q) && prev == s.without[q]
    requires Mixed(s.without, s.within, s.maxHeight, level + 1)
    modifies prev.next, prev.width, next.next
    ensures Mixed(s.without, s.within, s.maxHeight, level)
  {
    hide Next, Width, Heights, Inserted, Linked, Shaped;
    SpliceApart(s, q);
    SpliceNodes(s);
    LinkAround(s, level, q);
    var prevWidth := prev.width[level] + next.width[level] - 1;
    prev.next[level] := next.next[level];
    prev.width[level] := prevWidth;
    next.next[level] := null;
    LevelUnlinked(Joint(s, level, q));
    OtherLevels(Joint(s, level, q));
  }

  /** A level above the node being removed: the link that passes it shrinks by one. */
  method NarrowLink(prev: SkipListNode, level: nat, ghost s: Splice, ghost q: nat)
    requires s.Valid() && s.node.height <= level < s.maxHeight
    requires IsPrev(Heights(s.without), s.r, level, q) && prev == s.without[q]
    requires Mixed(s.without, s.within, s.maxHeight, level + 1)
    modifies prev.width
    ensures Mixed(s.without, s.within, s.maxHeight, level)
  {
    hide Next, Width, Heights, Inserted, Linked;
    LinkAround(s, level, q);
    prev.width[level] := prev.width[level] - 1;
    LevelNarrowed(Joint(s, level, q));
    OtherLevels(Joint(s, level, q));
  }

  /** Seen from the last node before it, a node about to be removed is next exactly on its own levels. */
  lemma LinkAround(s: Splice, level: nat, q: nat)
    requires s.Valid() && level < s.maxHeight && Linked(s.within, level)
    requires IsPrev(Heights(s.without), s.r, level, q)
    ensures s.without[q].width[level] >= 1
    ensures level < s.node.height ==> s.without[q].next[level] == s.node
    ensures level >= s.node.height ==>
              s.without[q].next[level] == NodeAt(s.within, Next(Heights(s.within), s.r + 1, level))
  {
    NextOfPrev(Heights(s.without), s.r, level, q);
    SpliceNext(s, q, level);
    SpliceNext(s, s.r, level);
    SpliceWidth(s, q, level);
    assert s.within[q] == s.without[q];
  }

  // ---------- all levels ----------

  /** The order assertions around a link that passes position r. */
  lemma OrderAsserts(nodes: seq<SkipListNode>, key: Key, r: nat, level: nat, q: nat)
    requires Sized(nodes) && Splits(nodes, key, r) && Linked(nodes, level)
    requires q <= r && level < nodes[q].height && r < Next(Heights(nodes), q, level)
    ensures q == 0 || key > nodes[q].key
    ensures var next := nodes[q].next[level]; next == null || key <= next.key
  {
    var next := nodes[q].next[level];
    assert next == NodeAt(nodes, Next(Heights(nodes), q, level));
  }

  lemma LinkPassesWithin(s: Splice, level: nat, q: nat)
    requires s.Valid() && IsPrev(Heights(s.without), s.r, level, q)
    ensures s.r < Next(Heights(s.within), q, level) && s.within[q] == s.without[q]
    ensures s.r < Next(Heights(s.without), q, level)
  {
    NextOfPrev(Heights(s.without), s.r, level, q);
    SpliceHeights(s);
    InsertNext(Heights(s.without), s.r, s.node.height, q, level);
  }

  /** The whole of an insertion's relinking: first the levels above the new node, then its own. */
  method LinkNode(context: TraverseContext, insertNode: SkipListNode, ghost s: Splice)
    requires s.Valid() && s.node == insertNode && s.r == context.rank
    requires Splits(s.without, insertNode.key, s.r)
    requires Records(context.prevNode[..], context.prevRank[..], s.without, s.r, 0, s.maxHeight)
    requires forall n :: n in s.within ==> n.next != context.prevNode && n.width != context.prevRank
    requires forall n :: n in s.within ==> n.next as object != context.prevRank && n.width as object != context.prevNode
    requires forall l :: 0 <= l < s.maxHeight ==> Linked(s.without, l)
    modifies set n | n in s.within :: n.next, set n | n in s.within :: n.width
    ensures forall l :: 0 <= l < s.maxHeight ==> Linked(s.within, l)
  {
    hide Next, Width, Heights, Inserted, Linked, Shaped, IsPrev, Splits;
    SpliceNodes(s);
    SpliceApart(s, 0);
    ghost var prevNode: seq<SkipListNode?>, prevRank: seq<nat> := context.prevNode[..], context.prevRank[..];
    var level := context.prevNode.Length - 1;
    while level >= insertNode.height as int
      invariant insertNode.height - 1 <= level < s.maxHeight
      invariant context.prevNode[..] == prevNode && context.prevRank[..] == prevRank
      invariant Mixed(s.within, s.without, s.maxHeight, level + 1)
    {
      var prev := context.prevNode[level];
      assert prev == prevNode[level] && context.prevRank[level] == prevRank[level];
      RecordOf(prevNode, prevRank, s.without, s.r, s.maxHeight, level);
      WidenLink(prev, level, s, prevRank[level]);
      level := level - 1;
    }
    level := insertNode.height as int;
    while level > 0
      invariant 0 <= level <= insertNode.height
      invariant context.prevNode[..] == prevNode && context.prevRank[..] == prevRank
      invariant Mixed(s.within, s.without, s.maxHeight, level)
    {
      level := level - 1;
      var prev := context.prevNode[level];
      assert prev == prevNode[level] && context.prevRank[level] == prevRank[level];
      RecordOf(prevNode, prevRank, s.without, s.r, s.maxHeight, level);
      LinkPassesWithin(s, level, prevRank[level]);
      PrevJoins(s, level, prevRank[level]);
      OrderAsserts(s.without, insertNode.key, s.r, level, prevRank[level]);
      assert prev == s.without[0] || insertNode.key > prev.key;
      assert prev.next[level] == null || insertNode.key <= prev.next[level].key;
      SplitLink(prev, insertNode, level, context.prevRank[level], context.rank, s);
    }
  }

  /** Among the nodes that carry key from position p on, none is taller than the first. */
  ghost predicate FirstIsTallest(nodes: seq<SkipListNode>, p: nat, key: Key) {
    p < |nodes| && forall i :: p < i < |nodes| && nodes[i].key == key ==> nodes[i].height <= nodes[p].height
  }

  /** On each level the search for key meets the first node that carries it, or none that does. */
  lemma MeetsFirstOnly(s: Splice, level: nat, q: nat)
    requires s.Valid() && level < s.maxHeight && Linked(s.within, level)
    requires IsPrev(Heights(s.without), s.r, level, q)
    requires FirstIsTallest(s.within, s.r + 1, s.node.key)
    ensures var next := s.without[q].next[level];
            && (next != null && next.key == s.node.key <==> level < s.node.height)
            && (level < s.node.height ==> next == s.node)
  {
    LinkAround(s, level, q);
    var j := Next(Heights(s.within), s.r + 1, level);
    assert j < |s.within| ==> Heights(s.within)[j] > level;
  }

  /** The whole of a removal's relinking, and the node it finds. */
  method UnlinkNode(context: TraverseContext, key: Key, ghost s: Splice) returns (removeNode: SkipListNode)
    requires s.Valid() && s.node.key == key && s.r == context.rank
    requires Splits(s.within, key, s.r) && FirstIsTallest(s.within, s.r + 1, key)
    requires Records(context.prevNode[..], context.prevRank[..], s.without, s.r, 0, s.maxHeight)
    requires forall n :: n in s.within ==> n.next != context.prevNode && n.width != context.prevRank
    requires forall n :: n in s.within ==> n.next as object != context.prevRank && n.width as object != context.prevNode
    requires forall l :: 0 <= l < s.maxHeight ==> Linked(s.within, l)
    modifies set n | n in s.within :: n.next, set n | n in s.within :: n.width
    ensures removeNode == s.node
    ensures forall l :: 0 <= l < s.maxHeight ==> Linked(s.without, l)
  {
    hide Next, Width, Heights, Inserted, Linked, Shaped, IsPrev, Splits, FirstIsTallest;
    SpliceNodes(s);
    SpliceApart(s, 0);
    ghost var prevNode: seq<SkipListNode?>, prevRank: seq<nat> := context.prevNode[..], context.prevRank[..];
    var found: SkipListNode? := null;
    var level := context.prevNode.Length;
    while level > 0
      invariant 0 <= level <= s.maxHeight
      invariant context.prevNode[..] == prevNode && context.prevRank[..] == prevRank
      invariant Mixed(s.without, s.within, s.maxHeight, level)
      invariant found == null || found == s.node
      invariant level < s.node.height ==> found == s.node
    {
      level := level - 1;
      var prev := context.prevNode[level];
      assert prev == prevNode[level] && context.prevRank[level] == prevRank[level];
      RecordOf(prevNode, prevRank, s.without, s.r, s.maxHeight, level);
      MeetsFirstOnly(s, level, prevRank[level]);
      PrevJoins(s, level, prevRank[level]);
      LinkPassesWithin(s, level, prevRank[level]);
      OrderAsserts(s.within, key, s.r, level, prevRank[level]);
      var next := prev.next[level];
      assert prev == s.within[0] || key > prev.key;
      assert next == null || key <= next.key;
      if next != null && key == next.key {
        assert found == null || found == next;
        found := next;
        MergeLink(prev, next, level, s, prevRank[level]);
      } else {
        NarrowLink(prev, level, s, prevRank[level]);
      }
    }
    removeNode := found;
  }

  lemma PrevJoins(s: Splice, level: nat, q: nat)
    requires s.Valid() && IsPrev(Heights(s.without), s.r, level, q)
    ensures level < s.without[q].height && level < s.without[q].next.Length && level < s.without[q].width.Length
  {
  }
}
