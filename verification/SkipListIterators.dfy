/** The bounded iterator, and what a scan visits. */
module SkipListIterators {
  import opened Wrappers
  import opened SortedKeys
  import opened SkipListNodes

  /** The node at pos, or null when there is none or its key lies past the end key. */
  function Bounded(nodes: seq<SkipListNode>, pos: nat, endKey: Option<Key>): SkipListNode? {
    if pos < |nodes| && (endKey.Some? ==> nodes[pos].key <= endKey.value) then nodes[pos] else null
  }

  class SkipListIterator {
    var current: SkipListNode?
    var endKey: Option<Key>

    /** A bounded iterator reads the key of its node without a null test. */
    constructor (startNode: SkipListNode?, endKey: Option<Key>)
      requires endKey.Some? ==> startNode != null
      ensures this.endKey == endKey
      ensures current == if endKey.Some? && startNode.key > endKey.value then null else startNode
    {
      current := startNode;
      this.endKey := endKey;
      new;
      if endKey.Some? && current.key > endKey.value {
        current := null;
      }
    }

    predicate IsValid()
      reads this
    {
      current != null
    }

    method Next()
      requires current != null && current.next.Length > 0
      requires endKey.Some? ==> current.next[0] != null
      modifies this
      ensures endKey == old(endKey)
      ensures var n := old(current.next[0]);
              current == if endKey.Some? && n.key > endKey.value then null else n
    {
      current := current.next[0];
      if endKey.Some? && current.key > endKey.value {
        current := null;
      }
    }

    /** operator++: like Next, but does nothing when the iterator is not valid. */
    method Increment()
      requires current != null ==> current.next.Length > 0 && (endKey.Some? ==> current.next[0] != null)
      modifies this
      ensures endKey == old(endKey)
      ensures old(current) == null ==> current == null
      ensures old(current) != null ==>
                var n := old(current.next[0]);
                current == if endKey.Some? && n.key > endKey.value then null else n
    {
      if current != null {
        current := current.next[0];
        if endKey.Some? && current.key > endKey.value {
          current := null;
        }
      }
    }

    method GetKey() returns (key: Key)
      requires current != null
      ensures key == current.key
    {
      key := current.key;
    }

    method GetData() returns (data: Data)
      requires current != null && current.rowInfo != null
      ensures data == current.rowInfo.data
    {
      data := current.rowInfo.data;
    }
  }

  // ---------- scans on key sequences ----------

  /** The keys of a sequence that lie in [low, high], in order. */
  function Within(keys: seq<Key>, low: Key, high: Key): (ks: seq<Key>)
  {
    if keys == [] then []
    else (if low <= keys[0] <= high then [keys[0]] else []) + Within(keys[1..], low, high)
  }

  /**
   The keys a bounded iterator visits from position pos on, as its constructor and Next move it;
   None when it reads the key of a null node.
   */
  function Walk(keys: seq<Key>, pos: nat, endKey: Key): (visited: Option<seq<Key>>)
    decreases |keys| - pos
  {
    if pos >= |keys| then None
    else if keys[pos] > endKey then Some([])
    else match Walk(keys, pos + 1, endKey)
      case None => None
      case Some(rest) => Some([keys[pos]] + rest)
  }

  /** Some stored key is at or past the start of a range and past its end. */
  predicate KeyPast(keys: seq<Key>, startKey: Key, endKey: Key) {
    exists i :: 0 <= i < |keys| && keys[i] >= startKey && keys[i] > endKey
  }

  lemma {:induction false} WithinSuffix(keys: seq<Key>, pos: nat, low: Key, high: Key)
    requires pos <= |keys|
    requires forall i :: 0 <= i < pos ==> keys[i] < low
    ensures Within(keys, low, high) == Within(keys[pos..], low, high)
    decreases pos
  {
    if pos > 0 {
      WithinSuffix(keys[1..], pos - 1, low, high);
      assert keys[1..][pos - 1..] == keys[pos..];
    } else {
      assert keys[0..] == keys;
    }
  }

  lemma {:induction false} NoneWithin(keys: seq<Key>, low: Key, high: Key)
    requires forall i :: 0 <= i < |keys| ==> keys[i] > high
    ensures Within(keys, low, high) == []
  {
    if keys != [] {
      NoneWithin(keys[1..], low, high);
    }
  }

  lemma {:induction false} WalkFrom(keys: seq<Key>, pos: nat, low: Key, endKey: Key)
    requires Ordered(keys) && pos <= |keys|
    requires forall i :: pos <= i < |keys| ==> keys[i] >= low
    ensures Walk(keys, pos, endKey).Some? <==> exists i :: pos <= i < |keys| && keys[i] > endKey
    ensures Walk(keys, pos, endKey).Some? ==> Walk(keys, pos, endKey).value == Within(keys[pos..], low, endKey)
    decreases |keys| - pos
  {
    if pos < |keys| {
      if keys[pos] > endKey {
        NoneWithin(keys[pos..], low, endKey);
      } else {
        WalkFrom(keys, pos + 1, low, endKey);
        assert keys[pos..][1..] == keys[pos + 1..];
      }
    }
  }

  /**
   A range scan from the least key at or past startKey visits exactly the stored keys in
   [startKey, endKey], and it ends without reading a null node exactly when some stored key is past both bounds.
   */
  lemma RangeScanVisits(keys: seq<Key>, startKey: Key, endKey: Key)
    requires Ordered(keys)
    ensures var visited := Walk(keys, LowerBound(keys, startKey), endKey);
            && (visited.Some? <==> KeyPast(keys, startKey, endKey))
            && (visited.Some? ==> visited.value == Within(keys, startKey, endKey))
  {
    var pos := LowerBound(keys, startKey);
    forall i | pos <= i < |keys| ensures keys[i] >= startKey {
      assert keys[pos] <= keys[i];
    }
    WalkFrom(keys, pos, startKey, endKey);
    WithinSuffix(keys, pos, startKey, endKey);
    if KeyPast(keys, startKey, endKey) {
      var i :| 0 <= i < |keys| && keys[i] >= startKey && keys[i] > endKey;
      assert i >= pos;
    }
  }

  lemma {:induction false} WithinLength(keys: seq<Key>, low: Key, high: Key)
    requires low <= high
    ensures |Within(keys, low, high)| == CountIn(keys, low, high) + multiset(keys)[high]
  {
    if keys != [] {
      WithinLength(keys[1..], low, high);
      assert multiset(keys) == multiset{keys[0]} + multiset(keys[1..]) by { assert keys == [keys[0]] + keys[1..]; }
    }
  }

  /** With unique keys the scan is one longer than the range count exactly when the end key is stored. */
  lemma {:induction false} WithinCount(keys: seq<Key>, low: Key, high: Key)
    requires StrictlyOrdered(keys) && low <= high
    ensures |Within(keys, low, high)| == CountIn(keys, low, high) + (if high in keys then 1 else 0)
  {
    WithinLength(keys, low, high);
    OnceEach(keys, high);
  }

  lemma {:induction false} OnceEach(keys: seq<Key>, key: Key)
    requires StrictlyOrdered(keys)
    ensures multiset(keys)[key] == if key in keys then 1 else 0
  {
    if keys != [] {
      OnceEach(keys[1..], key);
      assert multiset(keys) == multiset{keys[0]} + multiset(keys[1..]) by { assert keys == [keys[0]] + keys[1..]; }
      assert keys[0] !in keys[1..];
    }
  }

  lemma ConsStrict(key: Key, rest: seq<Key>)
    requires StrictlyOrdered(rest) && forall k :: k in rest ==> key < k
    ensures StrictlyOrdered([key] + rest)
  {
    assert forall i :: 0 <= i < |rest| ==> rest[i] in rest;
  }

  /** A scan of strictly ordered keys visits them in strictly increasing order, and every one it should. */
  lemma {:induction false} WithinIsStrict(keys: seq<Key>, low: Key, high: Key)
    requires StrictlyOrdered(keys)
    ensures StrictlyOrdered(Within(keys, low, high))
    ensures forall k :: k in Within(keys, low, high) <==> k in keys && low <= k <= high
  {
    if keys != [] {
      var rest := Within(keys[1..], low, high);
      WithinIsStrict(keys[1..], low, high);
      assert forall k :: k in keys <==> k == keys[0] || k in keys[1..];
      assert forall k :: k in rest ==> keys[0] < k;
      ConsStrict(keys[0], rest);
    }
  }
}
