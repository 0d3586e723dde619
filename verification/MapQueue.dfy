/** MapQueue (map_queue.hpp): a queue of keys with values that knows its largest key. */
module MapQueue {
  import opened Wrappers
  import opened Sequences

  /** The elements larger than everything after them, in order. */
  function SuffixMaxima(s: seq<int>): seq<int> {
    if s == [] then []
    else
      var rest := SuffixMaxima(s[1..]);
      if rest == [] || s[0] > rest[0] then [s[0]] + rest else rest
  }

  ghost predicate LargerThanRest(s: seq<int>, i: nat)
    requires i < |s|
  {
    forall j :: i < j < |s| ==> s[j] < s[i]
  }

  ghost predicate IsSuffixMaximum(s: seq<int>, x: int) {
    exists i :: 0 <= i < |s| && s[i] == x && LargerThanRest(s, i)
  }

  /** The maxima decrease, and the first of them is the largest element of all. */
  lemma {:induction false} MaximaDecrease(s: seq<int>)
    requires Distinct(s)
    ensures var m := SuffixMaxima(s);
      && (forall i, j :: 0 <= i < j < |m| ==> m[i] > m[j])
      && (s != [] ==> m != [] && m[0] in s && forall x :: x in s ==> x <= m[0])
  {
    if s != [] {
      var tail := s[1..];
      MaximaDecrease(tail);
      assert forall x :: x in s <==> x == s[0] || x in tail;
    }
  }

  lemma MaximumInTail(s: seq<int>, x: int)
    requires s != []
    ensures IsSuffixMaximum(s, x) <==> IsSuffixMaximum(s[1..], x) || (x == s[0] && forall y :: y in s[1..] ==> y < x)
  {
    var tail := s[1..];
    forall i: nat | i < |tail|
      ensures LargerThanRest(tail, i) <==> LargerThanRest(s, i + 1)
    {
      assert forall j :: i < j < |tail| ==> tail[j] == s[j + 1];
      assert forall j :: i + 1 < j < |s| ==> s[j] == tail[j - 1];
    }
    assert LargerThanRest(s, 0) <==> forall y :: y in tail ==> y < s[0] by {
      assert forall j :: 0 < j < |s| ==> s[j] == tail[j - 1] && tail[j - 1] in tail;
      assert forall k :: 0 <= k < |tail| ==> tail[k] == s[k + 1];
    }
    if IsSuffixMaximum(tail, x) {
      var i: nat :| i < |tail| && tail[i] == x && LargerThanRest(tail, i);
      assert s[i + 1] == x && LargerThanRest(s, i + 1);
    }
    if IsSuffixMaximum(s, x) {
      var i: nat :| i < |s| && s[i] == x && LargerThanRest(s, i);
      if i > 0 { assert tail[i - 1] == x && LargerThanRest(tail, i - 1); }
    }
  }

  /** The list holds exactly the elements larger than everything after them. */
  lemma {:induction false} MaximaAre(s: seq<int>)
    requires Distinct(s)
    ensures forall x :: x in SuffixMaxima(s) <==> IsSuffixMaximum(s, x)
  {
    if s != [] {
      MaximaAre(s[1..]);
      MaximaDecrease(s[1..]);
      forall x
        ensures x in SuffixMaxima(s) <==> IsSuffixMaximum(s, x)
      {
        MaximumInTail(s, x);
      }
    }
  }

  /** What remains of a decreasing list after removing elements below `k` from its end. */
  function DropBelow(m: seq<int>, k: int): seq<int> {
    if m != [] && m[|m| - 1] < k then DropBelow(m[..|m| - 1], k) else m
  }

  lemma {:induction false} DropBelowCons(x: int, m: seq<int>, k: int)
    ensures DropBelow([x] + m, k) == if x < k && DropBelow(m, k) == [] then [] else [x] + DropBelow(m, k)
    decreases |m|
  {
    if m != [] && m[|m| - 1] < k {
      assert ([x] + m)[..|m|] == [x] + m[..|m| - 1];
      DropBelowCons(x, m[..|m| - 1], k);
    } else if m == [] {
      assert [x] + m == [x] && [x][..0] == [];
    }
  }

  lemma {:induction false} DropBelowFirst(m: seq<int>, k: int)
    requires forall i, j :: 0 <= i < j < |m| ==> m[i] > m[j]
    ensures DropBelow(m, k) != [] ==> m != [] && DropBelow(m, k)[0] == m[0] && m[0] >= k
    ensures DropBelow(m, k) == [] ==> m == [] || m[0] < k
  {
    if m != [] && m[|m| - 1] < k {
      DropBelowFirst(m[..|m| - 1], k);
    }
  }

  /** Appending a key: the maxima below it at the end go, and it becomes the last one. */
  lemma {:induction false} MaximaAfterAppend(s: seq<int>, k: int)
    requires Distinct(s) && k !in s
    ensures SuffixMaxima(s + [k]) == DropBelow(SuffixMaxima(s), k) + [k]
  {
    if s == [] {
      assert s + [k] == [k];
    } else {
      assert (s + [k])[1..] == s[1..] + [k];
      MaximaAfterAppend(s[1..], k);
      var rest := SuffixMaxima(s[1..]);
      DropBelowCons(s[0], rest, k);
      MaximaDecrease(s[1..]);
      DropBelowFirst(rest, k);
      assert [s[0]] + (DropBelow(rest, k) + [k]) == ([s[0]] + DropBelow(rest, k)) + [k];
    }
  }

  /** The last `size` keys, or all of them if there are no more. */
  function Newest(keys: seq<int>, size: nat): seq<int> {
    if |keys| <= size then keys else keys[|keys| - size..]
  }

  lemma NewestWithoutOldest(keys: seq<int>, size: nat)
    requires |keys| > size
    ensures Newest(keys[1..], size) == Newest(keys, size)
  {}

  /** The entries of one map are entries of the other. */
  ghost predicate Within<V>(small: map<int, V>, large: map<int, V>) {
    forall k :: k in small ==> k in large && small[k] == large[k]
  }

  class MapQueue<V> {
    var maxCacheSize: nat
    var data: map<int, V>
    var maxCache: seq<int>
    var cache: seq<int>

    constructor (maxCacheSize: nat)
      ensures Valid() && data == map[] && cache == [] && this.maxCacheSize == maxCacheSize
    {
      this.maxCacheSize := maxCacheSize;
      data := map[];
      maxCache := [];
      cache := [];
    }

    /** `cache` lists each stored key once, and `maxCache` is the decreasing list of its suffix maxima. */
    ghost predicate Valid()
      reads this
    {
      Distinct(cache) && Elements(cache) == data.Keys && maxCache == SuffixMaxima(cache)
    }

    /** set: a new key goes to the end of the queue; a known one is left alone. */
    method Set(k: int, v: V) returns (size: nat)
      requires Valid()
      modifies this
      ensures Valid() && size == |data| && maxCacheSize == old(maxCacheSize)
      ensures old(k in data) ==> data == old(data) && cache == old(cache)
      ensures old(k !in data) ==> data == old(data)[k := v] && cache == old(cache) + [k]
    {
      if k in data {
        return |data|;
      }
      assert k !in Elements(cache);
      cache := cache + [k];
      MaximaAfterAppend(old(cache), k);
      DropSmaller(k);
      maxCache := maxCache + [k];
      data := data[k := v];
      assert Elements(cache) == Elements(old(cache)) + {k};
      return |data|;
    }

    method DropSmaller(k: int)
      modifies `maxCache
      ensures maxCache == DropBelow(old(maxCache), k)
    {
      while maxCache != [] && maxCache[|maxCache| - 1] < k
        invariant DropBelow(maxCache, k) == DropBelow(old(maxCache), k)
        decreases |maxCache|
      {
        maxCache := maxCache[..|maxCache| - 1];
      }
    }

    /** pop_last: removes the oldest key. */
    method PopLast() returns (size: nat)
      requires Valid()
      modifies this`data, this`cache, this`maxCache
      ensures Valid() && size == |data|
      ensures old(data) == map[] ==> data == map[] && cache == old(cache)
      ensures old(data) != map[] ==>
        (old(cache) != [] && cache == old(cache)[1..] && data == old(data) - {old(cache)[0]} && size == |old(data)| - 1)
    {
      if |data| == 0 {
        return 0;
      }
      assert cache != [] by { assert data.Keys != {}; }
      FrontMaximum(cache);
      var k := cache[0];
      cache := cache[1..];
      if maxCache[0] == k {
        maxCache := maxCache[1..];
      }
      data := data - {k};
      assert Elements(cache) == Elements(old(cache)) - {k};
      assert data.Keys == old(data).Keys - {k};
      return |data|;
    }

    /** set_cache_size: the oldest keys go until the rest fits. */
    method SetCacheSize(size: nat)
      requires Valid()
      modifies this
      ensures Valid() && maxCacheSize == size && |data| <= size
      ensures cache == Newest(old(cache), size)
      ensures Within(data, old(data))
    {
      maxCacheSize := size;
      CountKeys();
      while |data| > maxCacheSize
        invariant Valid() && maxCacheSize == size && |data| == |cache|
        invariant Newest(cache, size) == Newest(old(cache), size)
        invariant Within(data, old(data))
        decreases |data|
      {
        NewestWithoutOldest(cache, size);
        DropOldest();
      }
    }

    method DropOldest()
      requires Valid() && |data| > 0
      modifies this`data, this`cache, this`maxCache
      ensures Valid() && |data| == |cache| == |old(cache)| - 1 && |data| == |old(data)| - 1
      ensures old(cache) != [] && cache == old(cache)[1..] && Within(data, old(data))
    {
      CountKeys();
      var left := PopLast();
      CountKeys();
    }

    lemma CountKeys()
      requires Valid()
      ensures |data| == |cache|
    {
      DistinctSize(cache);
    }

    /** getMaxKey: the largest stored key; `None` is the exception on an empty queue. */
    method GetMaxKey() returns (key: Option<int>)
      requires Valid()
      ensures key.None? <==> data == map[]
      ensures key.Some? ==> key.value in data && forall k :: k in data ==> k <= key.value
    {
      MaximaDecrease(cache);
      assert forall k :: k in data <==> k in cache by {
        assert forall k :: k in data <==> k in Elements(cache);
      }
      if |maxCache| == 0 {
        return None;
      }
      return Some(maxCache[0]);
    }

    method Clear()
      requires Valid()
      modifies this`data, this`cache, this`maxCache
      ensures Valid() && data == map[] && cache == []
    {
      data := map[];
      maxCache := [];
      cache := [];
    }
  }

  /** The first element is the first maximum exactly when removing it changes the maxima. */
  lemma FrontMaximum(s: seq<int>)
    requires Distinct(s) && s != []
    ensures SuffixMaxima(s) != []
    ensures SuffixMaxima(s)[0] == s[0] ==> SuffixMaxima(s) == [s[0]] + SuffixMaxima(s[1..])
    ensures SuffixMaxima(s)[0] != s[0] ==> SuffixMaxima(s) == SuffixMaxima(s[1..])
  {
    MaximaDecrease(s[1..]);
    assert s[0] !in s[1..];
  }
}
