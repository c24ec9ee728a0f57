/**
 The consistency check of a skip list, on any list whose chains are well formed: it may be run on states the
 other operations never produce, so nothing is assumed here about widths or about the order of the keys.
 */
module SkipListValidation {
  import opened SortedKeys
  import opened Positions
  import opened SkipListNodes

  /** The bottom level visits every node in turn; every other link goes to a later node of its level, or nowhere. */
  ghost predicate WellChained(nodes: seq<SkipListNode>, maxHeight: nat)
    reads set n | n in nodes :: n.next
  {
    && Shaped(nodes, maxHeight)
    && forall i, l {:trigger nodes[i].next[l]} :: 0 <= i < |nodes| && 0 <= l < nodes[i].height ==>
         && nodes[i].next[l] == NodeAt(nodes, Target(nodes, i, l))
         && i < Target(nodes, i, l) <= |nodes|
         && (l == 0 ==> Target(nodes, i, l) == i + 1)
         && (Target(nodes, i, l) < |nodes| ==> l < nodes[Target(nodes, i, l)].height)
  }

  /** The position a link leads to; |nodes| for a null link. */
  ghost function Target(nodes: seq<SkipListNode>, i: nat, level: nat): (j: nat)
    requires i < |nodes| && level < nodes[i].next.Length
    reads nodes[i].next
    ensures j <= |nodes|
  {
    if exists j :: i < j < |nodes| && nodes[j] == nodes[i].next[level]
    then var j :| i < j < |nodes| && nodes[j] == nodes[i].next[level]; j
    else |nodes|
  }

  /** From position i on, every link of the level is as wide as the distance it covers. */
  ghost predicate ExactFrom(nodes: seq<SkipListNode>, maxHeight: nat, level: nat, i: nat)
    requires WellChained(nodes, maxHeight) && i < |nodes| && level < nodes[i].height
    reads set n | n in nodes :: n.next, set n | n in nodes :: n.width
    decreases |nodes| - i
  {
    assert nodes[i].next[level] == NodeAt(nodes, Target(nodes, i, level));
    var j := Target(nodes, i, level);
    && nodes[i].width[level] == (if j == |nodes| then j - 1 else j) - i
    && (j < |nodes| ==> ExactFrom(nodes, maxHeight, level, j))
  }

  ghost predicate Exact(nodes: seq<SkipListNode>, maxHeight: nat)
    requires WellChained(nodes, maxHeight)
    reads set n | n in nodes :: n.next, set n | n in nodes :: n.width
  {
    forall l :: 0 <= l < maxHeight ==> ExactFrom(nodes, maxHeight, l, 0)
  }

  lemma FollowTarget(nodes: seq<SkipListNode>, maxHeight: nat, level: nat, i: nat)
    requires WellChained(nodes, maxHeight) && i < |nodes| && level < nodes[i].height
    ensures level < nodes[i].next.Length && level < nodes[i].width.Length
    ensures var j := Target(nodes, i, level);
            && nodes[i].next[level] == NodeAt(nodes, j) && i < j <= |nodes|
            && (level == 0 ==> j == i + 1)
            && (j < |nodes| ==> level < nodes[j].height)
  {
    assert nodes[i].next[level] == NodeAt(nodes, Target(nodes, i, level));
  }

  lemma SamePosition(nodes: seq<SkipListNode>, maxHeight: nat, i: nat, j: nat)
    requires Shaped(nodes, maxHeight) && i <= |nodes| && j <= |nodes|
    ensures NodeAt(nodes, i) == NodeAt(nodes, j) <==> i == j
  {
  }

  lemma AllHeights(nodes: seq<SkipListNode>, maxHeight: nat)
    requires WellChained(nodes, maxHeight)
    ensures Shaped(nodes, maxHeight) && |nodes| > 0 && nodes[0].height == maxHeight > 0
    ensures forall i :: 0 <= i < |nodes| ==> nodes[i].height >= 1
  {
  }

  /** The widths of one upper level, walked against the bottom level. */
  method ValidateLevel(head: SkipListNode, level: nat, valid: bool, ghost nodes: seq<SkipListNode>, ghost maxHeight: nat)
    returns (stillValid: bool)
    requires WellChained(nodes, maxHeight) && head == nodes[0] && 1 <= level < maxHeight
    ensures nodes[0].height == maxHeight && (stillValid <==> valid && ExactFrom(nodes, maxHeight, level, 0))
  {
    hide WellChained, Shaped, Target;
    AllHeights(nodes, maxHeight);
    stillValid := valid;
    FollowTarget(nodes, maxHeight, level, 0);
    var trail := head;
    var node := head.next[level];
    var level0: SkipListNode? := head;
    ghost var t := 0;
    while true
      invariant t < |nodes| && trail == nodes[t] && level < trail.height && level < trail.next.Length
      invariant node == trail.next[level] && level0 == trail
      invariant stillValid && ExactFrom(nodes, maxHeight, level, t) <==> valid && ExactFrom(nodes, maxHeight, level, 0)
      decreases |nodes| - t
    {
      FollowTarget(nodes, maxHeight, level, t);
      ghost var j := Target(nodes, t, level);
      ghost var z := t;
      var width := 0;
      while level0 != node
        invariant t <= z <= j && level0 == NodeAt(nodes, z)
        invariant width == (if z == |nodes| then z - 1 else z) - t
        decreases j - z
      {
        SamePosition(nodes, maxHeight, z, j);
        FollowTarget(nodes, maxHeight, 0, z);
        level0 := level0.next[0];
        z := z + 1;
        if level0 != null {
          width := width + 1;
        }
      }
      SamePosition(nodes, maxHeight, z, j);
      stillValid := if !stillValid then false else trail.width[level] == width;
      if node == null {
        break;
      }
      trail := node;
      t := j;
      FollowTarget(nodes, maxHeight, level, t);
      node := node.next[level];
    }
  }

  /** The widths of the bottom level: one per link, none after the last node. */
  method ValidateBottom(head: SkipListNode, valid: bool, ghost nodes: seq<SkipListNode>, ghost maxHeight: nat)
    returns (stillValid: bool)
    requires WellChained(nodes, maxHeight) && head == nodes[0]
    ensures nodes[0].height > 0 && (stillValid <==> valid && ExactFrom(nodes, maxHeight, 0, 0))
  {
    hide WellChained, Shaped, Target;
    AllHeights(nodes, maxHeight);
    stillValid := valid;
    var level0: SkipListNode? := head;
    ghost var z := 0;
    while level0 != null
      invariant z <= |nodes| && level0 == NodeAt(nodes, z)
      invariant stillValid && (z < |nodes| ==> ExactFrom(nodes, maxHeight, 0, z)) <==>
                valid && ExactFrom(nodes, maxHeight, 0, 0)
      decreases |nodes| - z
    {
      FollowTarget(nodes, maxHeight, 0, z);
      if level0.next[0] == null {
        stillValid := if !stillValid then false else level0.width[0] == 0;
      } else {
        stillValid := if !stillValid then false else level0.width[0] == 1;
      }
      level0 := level0.next[0];
      z := z + 1;
    }
  }

  ghost predicate OrderedLink(node: SkipListNode, level: nat)
    requires level < node.next.Length
    reads node.next
  {
    node.next[level] != null ==> node.key <= node.next[level].key
  }

  /** Every link of every stored node leads to a key that is not smaller. */
  ghost predicate OrderedLinks(nodes: seq<SkipListNode>, maxHeight: nat)
    requires Shaped(nodes, maxHeight)
    reads set n | n in nodes :: n.next
  {
    forall i, l :: 1 <= i < |nodes| && 0 <= l < nodes[i].height ==> OrderedLink(nodes[i], l)
  }

  method ValidateKeys(head: SkipListNode, valid: bool, ghost nodes: seq<SkipListNode>, ghost maxHeight: nat)
    returns (stillValid: bool)
    requires WellChained(nodes, maxHeight) && head == nodes[0]
    ensures stillValid <==> valid && OrderedLinks(nodes, maxHeight)
  {
    AllHeights(nodes, maxHeight);
    FollowTarget(nodes, maxHeight, 0, 0);
    stillValid := valid;
    var node := head.next[0];
    ghost var p := 1;
    while node != null
      invariant 1 <= p <= |nodes| && node == NodeAt(nodes, p)
      invariant stillValid <==> valid && forall i, l :: 1 <= i < p && 0 <= l < nodes[i].height ==> OrderedLink(nodes[i], l)
      decreases |nodes| - p
    {
      FollowTarget(nodes, maxHeight, 0, p);
      var key := node.key;
      var level: int := node.height;
      ghost var before := stillValid;
      while level > 0
        invariant 0 <= level <= node.height
        invariant stillValid <==> before && forall l :: level <= l < node.height ==> OrderedLink(node, l)
      {
        level := level - 1;
        var next := node.next[level];
        assert OrderedLink(node, level) <==> next == null || key <= next.key;
        if next != null {
          stillValid := if !stillValid then false else key <= next.key;
        }
      }
      node := node.next[0];
      p := p + 1;
    }
  }

  lemma LinksOrderKeys(nodes: seq<SkipListNode>, maxHeight: nat)
    requires WellChained(nodes, maxHeight) && OrderedLinks(nodes, maxHeight)
    ensures Ordered(Keys(nodes))
  {
    hide WellChained, Target, Ordered;
    AllHeights(nodes, maxHeight);
    forall i | 1 <= i < |nodes| - 1 ensures nodes[i].key <= nodes[i + 1].key {
      FollowTarget(nodes, maxHeight, 0, i);
      assert OrderedLink(nodes[i], 0);
    }
    AdjacentOrder(Keys(nodes));
  }

  lemma KeysOrderLinks(nodes: seq<SkipListNode>, maxHeight: nat)
    requires WellChained(nodes, maxHeight) && Ordered(Keys(nodes))
    ensures OrderedLinks(nodes, maxHeight)
  {
    hide WellChained, Target;
    AllHeights(nodes, maxHeight);
    forall i, l | 1 <= i < |nodes| && 0 <= l < nodes[i].height ensures OrderedLink(nodes[i], l) {
      FollowTarget(nodes, maxHeight, l, i);
      var j := Target(nodes, i, l);
      assert j < |nodes| ==> Keys(nodes)[i - 1] <= Keys(nodes)[j - 1];
    }
  }

  /** On well-formed chains, ordered links are ordered keys. */
  lemma OrderedLinksIffKeys(nodes: seq<SkipListNode>, maxHeight: nat)
    requires WellChained(nodes, maxHeight)
    ensures OrderedLinks(nodes, maxHeight) <==> Ordered(Keys(nodes))
  {
    hide WellChained, Target, Ordered, OrderedLinks, Shaped;
    AllHeights(nodes, maxHeight);
    if OrderedLinks(nodes, maxHeight) {
      LinksOrderKeys(nodes, maxHeight);
    }
    if Ordered(Keys(nodes)) {
      KeysOrderLinks(nodes, maxHeight);
    }
  }

  lemma {:induction false} AdjacentOrder(keys: seq<Key>)
    requires forall i :: 0 <= i < |keys| - 1 ==> keys[i] <= keys[i + 1]
    ensures Ordered(keys)
  {
    if keys != [] {
      var front := keys[..|keys| - 1];
      AdjacentOrder(front);
      forall i, j | 0 <= i < j < |keys| ensures keys[i] <= keys[j] {
        assert keys[i] == front[i];
        if j < |front| {
          assert keys[j] == front[j];
        } else {
          assert front[i] <= front[|front| - 1] <= keys[j];
        }
      }
    }
  }

  /** The width half of the check: all levels from the top. */
  method ValidateWidths(head: SkipListNode, maxNodeHeight: nat, ghost nodes: seq<SkipListNode>) returns (valid: bool)
    requires WellChained(nodes, maxNodeHeight) && head == nodes[0]
    ensures valid <==> Exact(nodes, maxNodeHeight)
  {
    hide WellChained, Shaped, Target, ExactFrom;
    AllHeights(nodes, maxNodeHeight);
    valid := true;
    var level := maxNodeHeight;
    while level > 0
      invariant 0 <= level <= maxNodeHeight
      invariant valid <==> forall l :: level <= l < maxNodeHeight ==> old(ExactFrom(nodes, maxNodeHeight, l, 0))
    {
      level := level - 1;
      assert ExactFrom(nodes, maxNodeHeight, level, 0) == old(ExactFrom(nodes, maxNodeHeight, level, 0));
      if level >= 1 {
        valid := ValidateLevel(head, level, valid, nodes, maxNodeHeight);
      } else {
        valid := ValidateBottom(head, valid, nodes, maxNodeHeight);
      }
    }
    assert valid <==> old(Exact(nodes, maxNodeHeight));
  }

  /** The consistency check: the widths, then the keys. */
  method Validate(head: SkipListNode, maxNodeHeight: nat, ghost nodes: seq<SkipListNode>) returns (valid: bool)
    requires WellChained(nodes, maxNodeHeight) && head == nodes[0]
    ensures valid <==> Exact(nodes, maxNodeHeight) && Ordered(Keys(nodes))
  {
    hide WellChained, Shaped, Target, Exact, ExactFrom, Ordered, OrderedLinks;
    AllHeights(nodes, maxNodeHeight);
    valid := ValidateWidths(head, maxNodeHeight, nodes);
    OrderedLinksIffKeys(nodes, maxNodeHeight);
    valid := ValidateKeys(head, valid, nodes, maxNodeHeight);
  }

  // ---------- what the check accepts ----------

  /** The links are those of the heights. */
  ghost predicate FullLinks(nodes: seq<SkipListNode>, maxHeight: nat)
    reads set n | n in nodes :: n.next
  {
    && Shaped(nodes, maxHeight)
    && forall i, l {:trigger nodes[i].next[l]} :: 0 <= i < |nodes| && 0 <= l < nodes[i].height ==>
         nodes[i].next[l] == NodeAt(nodes, Next(Heights(nodes), i, l))
  }

  lemma FullLinksTarget(nodes: seq<SkipListNode>, maxHeight: nat)
    requires FullLinks(nodes, maxHeight)
    ensures WellChained(nodes, maxHeight)
    ensures forall i, l {:trigger Target(nodes, i, l)} :: 0 <= i < |nodes| && 0 <= l < nodes[i].height ==>
              Target(nodes, i, l) == Next(Heights(nodes), i, l)
  {
    forall i, l | 0 <= i < |nodes| && 0 <= l < nodes[i].height
      ensures nodes[i].next[l] == NodeAt(nodes, Target(nodes, i, l))
      ensures Target(nodes, i, l) == Next(Heights(nodes), i, l)
      ensures l == 0 ==> Next(Heights(nodes), i, l) == i + 1
    {
      var j := Next(Heights(nodes), i, l);
      assert nodes[i].next[l] == NodeAt(nodes, j);
      if l == 0 { NextUnique(Heights(nodes), i, 0, i + 1); }
      if j < |nodes| {
        assert nodes[j] == nodes[i].next[l];
      }
    }
  }

  lemma {:induction false} ExactIffWidths(nodes: seq<SkipListNode>, maxHeight: nat, level: nat, i: nat)
    requires FullLinks(nodes, maxHeight) && WellChained(nodes, maxHeight)
    requires i < |nodes| && level < nodes[i].height
    ensures ExactFrom(nodes, maxHeight, level, i) <==>
            forall k :: i <= k < |nodes| && level < nodes[k].height ==> nodes[k].width[level] == Width(Heights(nodes), k, level)
    decreases |nodes| - i
  {
    FullLinksTarget(nodes, maxHeight);
    var j := Target(nodes, i, level);
    assert j == Next(Heights(nodes), i, level);
    assert forall k :: i < k < j ==> Heights(nodes)[k] <= level;
    if j < |nodes| {
      ExactIffWidths(nodes, maxHeight, level, j);
    }
  }

  /** With the links of the heights, the check is sound and complete for the list invariant. */
  lemma ExactIffChained(nodes: seq<SkipListNode>, maxHeight: nat)
    requires FullLinks(nodes, maxHeight)
    ensures WellChained(nodes, maxHeight) && (Exact(nodes, maxHeight) <==> Chained(nodes, maxHeight))
  {
    FullLinksTarget(nodes, maxHeight);
    forall l | 0 <= l < maxHeight ensures ExactFrom(nodes, maxHeight, l, 0) <==> Linked(nodes, l) {
      ExactIffWidths(nodes, maxHeight, l, 0);
      LinkedIffWidths(nodes, maxHeight, l);
    }
  }

  lemma LinkedIffWidths(nodes: seq<SkipListNode>, maxHeight: nat, level: nat)
    requires FullLinks(nodes, maxHeight)
    ensures Linked(nodes, level) <==>
            forall k :: 0 <= k < |nodes| && level < nodes[k].height ==> nodes[k].width[level] == Width(Heights(nodes), k, level)
  {
  }

  /** Every list the operations produce passes. */
  lemma ChainedIsExact(nodes: seq<SkipListNode>, maxHeight: nat)
    requires Chained(nodes, maxHeight)
    ensures WellChained(nodes, maxHeight) && Exact(nodes, maxHeight)
  {
    forall i, l | 0 <= i < |nodes| && 0 <= l < nodes[i].height
      ensures nodes[i].next[l] == NodeAt(nodes, Next(Heights(nodes), i, l))
    {
      FollowLink(nodes, maxHeight, l, i);
    }
    ExactIffChained(nodes, maxHeight);
  }
}
