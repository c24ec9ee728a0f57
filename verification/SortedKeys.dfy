/** Ordered key sequences, ranks and range counts: what a skip list answers, without its links. */
module SortedKeys {

  /** The index is instantiated for 32-bit integers only; it compares keys and does nothing else with them. */
  type Key = int

  predicate Ordered(keys: seq<Key>) {
    forall i, j :: 0 <= i < j < |keys| ==> keys[i] <= keys[j]
  }

  predicate StrictlyOrdered(keys: seq<Key>) {
    forall i, j :: 0 <= i < j < |keys| ==> keys[i] < keys[j]
  }

  /** The length of the longest prefix of smaller keys. */
  function LowerBound(keys: seq<Key>, key: Key): (r: nat)
    ensures r <= |keys|
    ensures forall i :: 0 <= i < r ==> keys[i] < key
    ensures r < |keys| ==> keys[r] >= key
  {
    if keys == [] || keys[0] >= key then 0 else 1 + LowerBound(keys[1..], key)
  }

  lemma LowerBoundUnique(keys: seq<Key>, key: Key, r: nat)
    requires r <= |keys|
    requires forall i :: 0 <= i < r ==> keys[i] < key
    requires r < |keys| ==> keys[r] >= key
    ensures r == LowerBound(keys, key)
  {
    var k := LowerBound(keys, key);
    assert k < |keys| ==> keys[k] >= key;
    assert r < |keys| ==> keys[r] >= key;
  }

  /** How many keys lie in [low, high), counted one by one. */
  function CountIn(keys: seq<Key>, low: Key, high: Key): (n: nat)
    ensures n <= |keys|
  {
    if keys == [] then 0
    else CountIn(keys[1..], low, high) + (if low <= keys[0] < high then 1 else 0)
  }

  /** How many keys are smaller than key, counted one by one. */
  function CountBelow(keys: seq<Key>, key: Key): (n: nat)
    ensures n <= |keys|
  {
    if keys == [] then 0
    else CountBelow(keys[1..], key) + (if keys[0] < key then 1 else 0)
  }

  lemma {:induction false} LowerBoundCounts(keys: seq<Key>, key: Key)
    requires Ordered(keys)
    ensures LowerBound(keys, key) == CountBelow(keys, key)
  {
    if keys != [] {
      LowerBoundCounts(keys[1..], key);
      if keys[0] >= key && |keys| > 1 {
        assert keys[1..][0] >= key;
      }
    }
  }

  lemma {:induction false} CountSplits(keys: seq<Key>, low: Key, mid: Key, high: Key)
    requires low <= mid <= high
    ensures CountIn(keys, low, high) == CountIn(keys, low, mid) + CountIn(keys, mid, high)
    ensures CountBelow(keys, high) == CountBelow(keys, low) + CountIn(keys, low, high)
  {
    if keys != [] {
      CountSplits(keys[1..], low, mid, high);
    }
  }

  /** Ranks are monotone, and their difference is the number of keys between. */
  lemma {:induction false} RankDifference(keys: seq<Key>, low: Key, high: Key)
    requires Ordered(keys) && low <= high
    ensures LowerBound(keys, low) <= LowerBound(keys, high)
    ensures LowerBound(keys, high) - LowerBound(keys, low) == CountIn(keys, low, high)
  {
    LowerBoundCounts(keys, low);
    LowerBoundCounts(keys, high);
    CountSplits(keys, low, low, high);
  }

  // ---------- key sets ----------

  function KeySet(keys: seq<Key>): (s: set<Key>)
    ensures forall k :: k in s <==> k in keys
  {
    set k | k in keys
  }

  lemma KeySetTail(keys: seq<Key>)
    requires StrictlyOrdered(keys) && keys != []
    ensures keys[0] !in keys[1..] && KeySet(keys[1..]) == KeySet(keys) - {keys[0]}
  {
    assert keys[0] !in keys[1..];
    assert forall k :: k in keys <==> k == keys[0] || k in keys[1..];
  }

  lemma {:induction false} DistinctCount(keys: seq<Key>)
    requires StrictlyOrdered(keys)
    ensures |KeySet(keys)| == |keys|
  {
    if keys != [] {
      DistinctCount(keys[1..]);
      KeySetTail(keys);
      assert keys[0] in KeySet(keys);
    }
  }

  /** A strictly ordered sequence is determined by its set. */
  lemma {:induction false} StrictlyOrderedUnique(a: seq<Key>, b: seq<Key>)
    requires StrictlyOrdered(a) && StrictlyOrdered(b) && KeySet(a) == KeySet(b)
    ensures a == b
  {
    DistinctCount(a);
    DistinctCount(b);
    if a != [] {
      SameHead(a, b);
      KeySetTail(a);
      KeySetTail(b);
      StrictlyOrderedUnique(a[1..], b[1..]);
      assert a == [a[0]] + a[1..] && b == [b[0]] + b[1..];
    }
  }

  lemma SameHead(a: seq<Key>, b: seq<Key>)
    requires StrictlyOrdered(a) && StrictlyOrdered(b) && KeySet(a) == KeySet(b)
    requires a != [] && b != []
    ensures a[0] == b[0]
  {
    assert a[0] in KeySet(a) && b[0] in KeySet(b);
    var i :| 0 <= i < |b| && b[i] == a[0];
    var j :| 0 <= j < |a| && a[j] == b[0];
  }
}
