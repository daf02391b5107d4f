/** The two array built-ins the FAQ page relies on: `Array.prototype.filter`
    and `Array.prototype.some`, over immutable sequences. */
module JsArray {

  /** `s.filter(p)`: the elements of `s` that satisfy `p`, in their order in `s`.
      Defined from the end, so that extending `s` by one element extends the
      result by at most that element (the way `filter` and `reduce` visit the
      array left to right). */
  function Filter<T>(s: seq<T>, p: T -> bool): (r: seq<T>)
    ensures |r| <= |s|
    ensures forall x :: x in r ==> x in s && p(x)
    decreases |s|
  {
    if s == [] then []
    else
      var init := Filter(s[..|s| - 1], p);
      if p(s[|s| - 1]) then init + [s[|s| - 1]] else init
  }

  /** The positions of `s` that `Filter(s, p)` keeps, in increasing order. */
  ghost function KeptIndices<T>(s: seq<T>, p: T -> bool): (idx: seq<int>)
    decreases |s|
  {
    if s == [] then []
    else
      var init := KeptIndices(s[..|s| - 1], p);
      if p(s[|s| - 1]) then init + [|s| - 1] else init
  }

  /** `r` is `s` read at the strictly increasing positions `idx`:
      an order-preserving subsequence of `s`. */
  ghost predicate Embeds<T>(r: seq<T>, s: seq<T>, idx: seq<int>) {
    && |idx| == |r|
    && (forall k :: 0 <= k < |idx| ==> 0 <= idx[k] < |s| && r[k] == s[idx[k]])
    && (forall k, l :: 0 <= k < l < |idx| ==> idx[k] < idx[l])
  }

  /** The kept positions are valid, strictly increasing, and exactly those
      whose element satisfies `p`. */
  lemma {:induction false} KeptIndicesExact<T>(s: seq<T>, p: T -> bool)
    ensures forall k :: 0 <= k < |KeptIndices(s, p)| ==> 0 <= KeptIndices(s, p)[k] < |s|
    ensures forall k, l :: 0 <= k < l < |KeptIndices(s, p)| ==> KeptIndices(s, p)[k] < KeptIndices(s, p)[l]
    ensures forall i :: 0 <= i < |s| ==> (i in KeptIndices(s, p) <==> p(s[i]))
    decreases |s|
  {
    if s != [] {
      var n := |s| - 1;
      KeptIndicesExact(s[..n], p);
      assert forall i :: 0 <= i < n ==> s[..n][i] == s[i];
    }
  }

  /** `Filter(s, p)` is `s` read at the kept positions. */
  lemma {:induction false} FilterAtKept<T>(s: seq<T>, p: T -> bool)
    ensures |KeptIndices(s, p)| == |Filter(s, p)|
    ensures forall k :: 0 <= k < |Filter(s, p)| ==>
      0 <= KeptIndices(s, p)[k] < |s| && Filter(s, p)[k] == s[KeptIndices(s, p)[k]]
    decreases |s|
  {
    if s != [] {
      var n := |s| - 1;
      FilterAtKept(s[..n], p);
      var r0, idx0 := Filter(s[..n], p), KeptIndices(s[..n], p);
      forall k | 0 <= k < |r0|
        ensures 0 <= idx0[k] < |s| && r0[k] == s[idx0[k]]
      {
        assert r0[k] == s[..n][idx0[k]];
      }
    }
  }

  /** `Filter(s, p)` is exactly the subsequence of `s` at the positions whose
      element satisfies `p`. */
  lemma FilterEmbeds<T>(s: seq<T>, p: T -> bool)
    ensures Embeds(Filter(s, p), s, KeptIndices(s, p))
    ensures forall i :: 0 <= i < |s| ==> (i in KeptIndices(s, p) <==> p(s[i]))
  {
    KeptIndicesExact(s, p);
    FilterAtKept(s, p);
  }

  /** Membership in the result is membership in the input plus `p`. */
  lemma {:induction false} FilterContains<T>(s: seq<T>, p: T -> bool, x: T)
    ensures x in Filter(s, p) <==> x in s && p(x)
    decreases |s|
  {
    if s != [] {
      var n := |s| - 1;
      FilterContains(s[..n], p, x);
      assert s == s[..n] + [s[n]];
    }
  }

  /** Appending one element to the input appends it to the result exactly
      when it satisfies `p`. */
  lemma FilterSnoc<T>(s: seq<T>, x: T, p: T -> bool)
    ensures Filter(s + [x], p) == Filter(s, p) + (if p(x) then [x] else [])
  {
    assert (s + [x])[..|s|] == s;
  }

  /** A filter that every element passes returns its input unchanged. */
  lemma {:induction false} FilterKeepsAll<T>(s: seq<T>, p: T -> bool)
    requires forall i :: 0 <= i < |s| ==> p(s[i])
    ensures Filter(s, p) == s
    decreases |s|
  {
    if s != [] {
      var n := |s| - 1;
      FilterKeepsAll(s[..n], p);
      assert s[..n] + [s[n]] == s;
    }
  }

  /** A filter that no element passes returns the empty array. */
  lemma {:induction false} FilterKeepsNone<T>(s: seq<T>, p: T -> bool)
    requires forall i :: 0 <= i < |s| ==> !p(s[i])
    ensures Filter(s, p) == []
    decreases |s|
  {
    if s != [] {
      FilterKeepsNone(s[..|s| - 1], p);
    }
  }

  /** `s.some(p)`: whether some element satisfies `p`, scanning left to right;
      false on an empty array. */
  function Any<T>(s: seq<T>, p: T -> bool): (found: bool)
    ensures found ==> exists i :: 0 <= i < |s| && p(s[i])
    decreases |s|
  {
    |s| > 0 && (p(s[0]) || Any(s[1..], p))
  }

  /** `some` is the existential over the positions of the array. */
  lemma {:induction false} AnyIff<T>(s: seq<T>, p: T -> bool)
    ensures Any(s, p) <==> exists i :: 0 <= i < |s| && p(s[i])
    decreases |s|
  {
    if s != [] {
      AnyIff(s[1..], p);
      if !p(s[0]) && exists i :: 0 <= i < |s| && p(s[i]) {
        var i :| 0 <= i < |s| && p(s[i]);
        assert s[1..][i - 1] == s[i];
      }
    }
  }
}
