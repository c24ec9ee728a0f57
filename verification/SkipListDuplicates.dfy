/**
 What equal keys do to the operations written for unique ones.

 A non-primary index may hold a key several times. Insertion and rank queries do not mind; removal and seek
 work as intended for a key exactly when the first node that carries it is at least as tall as the others.
 */
module SkipListDuplicates {
  import opened SortedKeys
  import opened Positions
  import opened SkipListNodes
  import opened SkipListLevels

  /** The position a descent for key meets on a level: the first one on it that is not smaller. */
  function MetOn(heights: seq<nat>, keys: seq<Key>, key: Key, level: nat): (j: nat)
    requires |heights| == |keys| + 1
    ensures LowerBound(keys, key) < j <= |keys| + 1
  {
    Next(heights, LowerBound(keys, key), level)
  }

  /** Whether that position carries the key, so that a removal unlinks it on this level. */
  predicate Unlinks(heights: seq<nat>, keys: seq<Key>, key: Key, level: nat)
    requires |heights| == |keys| + 1
  {
    var j := MetOn(heights, keys, key, level);
    j <= |keys| && keys[j - 1] == key
  }

  /** The condition: the first node that carries key is at least as tall as every other. */
  predicate FirstTallest(heights: seq<nat>, keys: seq<Key>, key: Key)
    requires |heights| == |keys| + 1
  {
    var r := LowerBound(keys, key);
    r < |keys| && forall i :: r < i < |keys| && keys[i] == key ==> heights[i + 1] <= heights[r + 1]
  }

  predicate WellFormed(heights: seq<nat>, keys: seq<Key>) {
    && |heights| == |keys| + 1 && Ordered(keys)
    && forall i :: 0 <= i < |heights| ==> 1 <= heights[i] <= heights[0]
  }

  /** The removal meets one and the same node on every level it unlinks, exactly under the condition. */
  lemma RemovalMeetsOneNode(heights: seq<nat>, keys: seq<Key>, key: Key)
    requires WellFormed(heights, keys) && key in keys
    ensures (forall l1, l2 :: 0 <= l1 < heights[0] && 0 <= l2 < heights[0]
                              && Unlinks(heights, keys, key, l1) && Unlinks(heights, keys, key, l2) ==>
               MetOn(heights, keys, key, l1) == MetOn(heights, keys, key, l2))
       <==> FirstTallest(heights, keys, key)
  {
    var r := LowerBound(keys, key);
    var k :| 0 <= k < |keys| && keys[k] == key;
    assert keys[r] == key;
    NextUnique(heights, r, 0, r + 1);
    assert Unlinks(heights, keys, key, 0) && MetOn(heights, keys, key, 0) == r + 1;
    if FirstTallest(heights, keys, key) {
      forall l | 0 <= l < heights[0] && Unlinks(heights, keys, key, l)
        ensures MetOn(heights, keys, key, l) == r + 1
      {
        var j := MetOn(heights, keys, key, l);
        assert heights[j] > l && keys[j - 1] == key;
      }
    } else {
      var i :| r < i < |keys| && keys[i] == key && heights[i + 1] > heights[r + 1];
      TallerIsMet(heights, keys, key, i);
    }
  }

  /** A taller duplicate is what the level of the first node's height shows. */
  lemma TallerIsMet(heights: seq<nat>, keys: seq<Key>, key: Key, i: nat)
    requires WellFormed(heights, keys)
    requires LowerBound(keys, key) < i < |keys| && keys[i] == key && keys[LowerBound(keys, key)] == key
    requires heights[i + 1] > heights[LowerBound(keys, key) + 1]
    ensures var l := heights[LowerBound(keys, key) + 1];
            && l < heights[0]
            && Unlinks(heights, keys, key, l)
            && MetOn(heights, keys, key, l) > LowerBound(keys, key) + 1
  {
    var r := LowerBound(keys, key);
    var l := heights[r + 1];
    var j := Next(heights, r, l);
    assert heights[i + 1] > l && heights[r + 1] <= l;
    assert j <= i + 1;
    assert keys[r] <= keys[j - 1] <= keys[i];
  }

  /** Two equal keys, the second one taller: the upper level would unlink one node, the bottom level another. */
  lemma RemovalSplitsDuplicates()
    ensures var heights, keys := [2, 1, 2], [5, 5];
            && WellFormed(heights, keys)
            && Unlinks(heights, keys, 5, 1) && Unlinks(heights, keys, 5, 0)
            && MetOn(heights, keys, 5, 1) == 2 && MetOn(heights, keys, 5, 0) == 1
  {
    var heights: seq<nat>, keys := [2, 1, 2], [5, 5];
    LowerBoundUnique(keys, 5, 0);
    NextUnique(heights, 0, 1, 2);
    NextUnique(heights, 0, 0, 1);
  }

  /** With unique keys the condition always holds. */
  lemma UniqueIsFirst(heights: seq<nat>, keys: seq<Key>, key: Key)
    requires WellFormed(heights, keys) && StrictlyOrdered(keys) && key in keys
    ensures FirstTallest(heights, keys, key)
  {
    var r := LowerBound(keys, key);
    var k :| 0 <= k < |keys| && keys[k] == key;
    forall i | r < i < |keys| ensures keys[i] != key {
      assert keys[r] < keys[i];
    }
  }

  /** A seek lands on the least stored key's first node exactly under the same condition. */
  lemma SeekLandsFirst(nodes: seq<SkipListNode>, maxHeight: nat, key: Key, pos: nat)
    requires Shaped(nodes, maxHeight) && Ordered(Keys(nodes)) && Met(nodes, key, pos)
    ensures pos == LowerBound(Keys(nodes), key) + 1 <==> FirstTallest(Heights(nodes), Keys(nodes), key)
  {
    var keys, hs, r := Keys(nodes), Heights(nodes), LowerBound(Keys(nodes), key);
    assert keys[pos - 1] == key;
    assert r <= pos - 1;
    assert keys[r] == key && nodes[r + 1].key == key;
    assert hs[r + 1] == nodes[r + 1].height && hs[pos] == nodes[pos].height;
    if FirstTallest(hs, keys, key) {
      assert hs[pos] <= hs[r + 1] || r >= pos - 1;
    }
    if pos == r + 1 {
      forall i | r < i < |keys| && keys[i] == key ensures hs[i + 1] <= hs[r + 1] {
        assert nodes[i + 1].key == key;
      }
    }
  }

  /** The precondition of removal on node sequences is this condition. */
  lemma FirstTallestOnNodes(nodes: seq<SkipListNode>, maxHeight: nat, key: Key)
    requires Shaped(nodes, maxHeight) && Ordered(Keys(nodes)) && key in Keys(nodes)
    ensures FirstIsTallest(nodes, LowerBound(Keys(nodes), key) + 1, key) <==>
            FirstTallest(Heights(nodes), Keys(nodes), key)
  {
    var keys, hs, r := Keys(nodes), Heights(nodes), LowerBound(Keys(nodes), key);
    var k :| 0 <= k < |keys| && keys[k] == key;
    assert r <= k;
    if FirstTallest(hs, keys, key) {
      forall i | r + 1 < i < |nodes| && nodes[i].key == key ensures nodes[i].height <= nodes[r + 1].height {
        assert keys[i - 1] == key;
      }
    }
    if FirstIsTallest(nodes, r + 1, key) {
      forall i | r < i < |keys| && keys[i] == key ensures hs[i + 1] <= hs[r + 1] {
        assert nodes[i + 1].key == key;
      }
    }
  }
}
