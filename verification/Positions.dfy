/**
 The shape of a skip list as arithmetic on positions.

 A list of n stored nodes is described by n + 1 heights: position 0 is the head, position i the
 i-th stored node, and the node at position i takes part in level l exactly when heights[i] > l.
 The heights alone determine every link (`Next`) and every width (`Width`), so the lemmas here say
 what one insertion or removal does to all links and widths on all levels.
 */
module Positions {

  // ---------- sequences ----------

  /** s with x placed at index p. */
  function Inserted<T>(s: seq<T>, p: nat, x: T): seq<T>
    requires p <= |s|
  {
    s[..p] + [x] + s[p..]
  }

  /** s without the element at index p. */
  function Removed<T>(s: seq<T>, p: nat): seq<T>
    requires p < |s|
  {
    s[..p] + s[p + 1..]
  }

  lemma RemovedInserted<T>(s: seq<T>, p: nat, x: T)
    requires p <= |s|
    ensures Removed(Inserted(s, p, x), p) == s
  {
  }

  lemma InsertedRemoved<T>(s: seq<T>, p: nat)
    requires p < |s|
    ensures Inserted(Removed(s, p), p, s[p]) == s
  {
  }

  // ---------- links ----------

  /** j is the first position after i on the given level, or |heights| when there is none. */
  predicate IsNext(heights: seq<nat>, i: nat, level: nat, j: nat) {
    && i < j <= |heights|
    && (j < |heights| ==> heights[j] > level)
    && forall k :: i < k < j ==> heights[k] <= level
  }

  function Next(heights: seq<nat>, i: nat, level: nat): (j: nat)
    requires i < |heights|
    ensures IsNext(heights, i, level, j)
    decreases |heights| - i
  {
    if i + 1 == |heights| || heights[i + 1] > level then i + 1 else Next(heights, i + 1, level)
  }

  lemma NextUnique(heights: seq<nat>, i: nat, level: nat, j: nat)
    requires i < |heights| && IsNext(heights, i, level, j)
    ensures j == Next(heights, i, level)
  {
    var k := Next(heights, i, level);
    assert k < |heights| ==> heights[k] > level;
    assert j < |heights| ==> heights[j] > level;
  }

  /** The number of stored nodes a link jumps forward; a null link reaches the last stored node. */
  function Width(heights: seq<nat>, i: nat, level: nat): (w: nat)
    requires i < |heights|
  {
    var j := Next(heights, i, level);
    (if j == |heights| then j - 1 else j) - i
  }

  /** q is the last position up to r on the given level. */
  predicate IsPrev(heights: seq<nat>, r: nat, level: nat, q: nat) {
    && q <= r < |heights|
    && heights[q] > level
    && forall k :: q < k <= r ==> heights[k] <= level
  }

  // ---------- insertion and removal ----------

  /** Links that start at or before position r, after a node of height h is put right after r. */
  lemma InsertNextBefore(heights: seq<nat>, r: nat, h: nat, i: nat, level: nat)
    requires i <= r < |heights|
    ensures var hs := Inserted(heights, r + 1, h); var j := Next(heights, i, level);
            Next(hs, i, level) == if j <= r then j else if h > level then r + 1 else j + 1
  {
    hide Next;
    var hs := Inserted(heights, r + 1, h);
    var j := Next(heights, i, level);
    assert forall k :: 0 <= k <= r ==> hs[k] == heights[k];
    assert hs[r + 1] == h;
    assert forall k :: r + 1 < k < |hs| ==> hs[k] == heights[k - 1];
    NextUnique(hs, i, level, if j <= r then j else if h > level then r + 1 else j + 1);
  }

  /** Links that start after r, and the links of the new node. */
  lemma InsertNextAfter(heights: seq<nat>, r: nat, h: nat, i: nat, level: nat)
    requires r <= i < |heights|
    ensures Next(Inserted(heights, r + 1, h), i + 1, level) == Next(heights, i, level) + 1
  {
    hide Next;
    var hs := Inserted(heights, r + 1, h);
    var j := Next(heights, i, level);
    assert forall k :: r + 1 < k < |hs| ==> hs[k] == heights[k - 1];
    NextUnique(hs, i + 1, level, j + 1);
  }

  /** Links after a node of height h is put right after position r. */
  lemma InsertNext(heights: seq<nat>, r: nat, h: nat, i: nat, level: nat)
    requires r < |heights| && i < |heights|
    ensures var hs := Inserted(heights, r + 1, h); var j := Next(heights, i, level);
            && (i <= r ==> Next(hs, i, level) == if j <= r then j else if h > level then r + 1 else j + 1)
            && (i > r ==> Next(hs, i + 1, level) == j + 1)
            && (i == r ==> Next(hs, r + 1, level) == j + 1)
  {
    if i <= r { InsertNextBefore(heights, r, h, i, level); }
    if i >= r { InsertNextAfter(heights, r, h, i, level); }
  }

  /** Widths after the same insertion: the split link, the widened links, the rest untouched. */
  lemma InsertWidth(heights: seq<nat>, r: nat, h: nat, i: nat, level: nat)
    requires r < |heights| && i < |heights|
    ensures var hs := Inserted(heights, r + 1, h); var j := Next(heights, i, level); var w := Width(heights, i, level);
            && (i <= r && j <= r ==> Width(hs, i, level) == w)
            && (i <= r < j && h > level ==> Width(hs, i, level) == r - i + 1 && r - i <= w)
            && (i <= r < j && h <= level ==> Width(hs, i, level) == w + 1)
            && (i > r ==> Width(hs, i + 1, level) == w)
            && (i == r ==> Width(hs, r + 1, level) == w)
  {
    hide Next, IsNext;
    InsertNext(heights, r, h, i, level);
  }

  /** Skipping the levels below: the link that leaves the last node up to r reaches past r. */
  lemma NextOfPrev(heights: seq<nat>, r: nat, level: nat, q: nat)
    requires IsPrev(heights, r, level, q)
    ensures Next(heights, q, level) == Next(heights, r, level)
    ensures Width(heights, q, level) == Width(heights, r, level) + (r - q)
  {
    var j := Next(heights, q, level);
    assert j < |heights| ==> heights[j] > level;
    NextUnique(heights, r, level, j);
  }

  /** Exactly one link of a level passes position r. */
  lemma OnePrev(heights: seq<nat>, r: nat, level: nat, q: nat, i: nat)
    requires IsPrev(heights, r, level, q) && i <= r && heights[i] > level
    ensures Next(heights, i, level) <= r <==> i != q
  {
  }

  // ---------- sums along a level ----------

  /** The widths of all links from position i on, followed along the level. */
  function WidthsFrom(heights: seq<nat>, i: nat, level: nat): nat
    requires i < |heights|
    decreases |heights| - i
  {
    var j := Next(heights, i, level);
    Width(heights, i, level) + (if j < |heights| then WidthsFrom(heights, j, level) else 0)
  }

  /** On every level the widths add up to the number of stored nodes after the start. */
  lemma {:induction false} WidthsSum(heights: seq<nat>, i: nat, level: nat)
    requires i < |heights|
    ensures WidthsFrom(heights, i, level) == |heights| - 1 - i
    decreases |heights| - i
  {
    var j := Next(heights, i, level);
    if j < |heights| {
      WidthsSum(heights, j, level);
    }
  }
}
