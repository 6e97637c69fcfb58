/**
 * Positional slicing with Python's rules (`s[:stop]`, `s[start:]`, where a
 * negative bound counts from the end and out-of-range bounds are clamped) and
 * the order-preserving row filter that `dropna` performs.
 */
module Sequences {

  function Min(a: int, b: int): int { if a <= b then a else b }

  function Max(a: int, b: int): int { if a >= b then a else b }

  /** The position a Python slice bound `i` denotes in a sequence of length `len`. */
  function Bound(len: nat, i: int): nat
  {
    if i < 0 then (if len + i < 0 then 0 else len + i)
    else if i > len then len
    else i
  }

  /** `s[:stop]`: a prefix of `s`. */
  function SliceTo<T>(s: seq<T>, stop: int): (r: seq<T>)
    ensures |r| <= |s| && r == s[..|r|]
    ensures 0 <= stop ==> |r| == Min(stop, |s|)
    ensures stop < 0 ==> |r| == Max(0, |s| + stop)
  {
    s[..Bound(|s|, stop)]
  }

  /** `s[start:]`: a suffix of `s`. */
  function SliceFrom<T>(s: seq<T>, start: int): (r: seq<T>)
    ensures |r| <= |s| && r == s[|s| - |r|..]
    ensures 0 <= start ==> |r| == |s| - Min(start, |s|)
    ensures start < 0 ==> |r| == Min(-start, |s|)
  {
    s[Bound(|s|, start)..]
  }

  /**
   * Holding out the last `k` elements with `s[:-k]` and `s[-k:]`: for
   * `1 <= k <= |s|` the two parts have `|s| - k` and `k` elements and
   * concatenate back to `s`.
   */
  lemma HoldOut<T>(s: seq<T>, k: int)
    requires 1 <= k <= |s|
    ensures |SliceTo(s, -k)| == |s| - k && |SliceFrom(s, -k)| == k
    ensures SliceTo(s, -k) == s[..|s| - k] && SliceFrom(s, -k) == s[|s| - k..]
    ensures SliceTo(s, -k) + SliceFrom(s, -k) == s
  {
    assert s[..|s| - k] + s[|s| - k..] == s;
  }

  /** `s[-k:][:h]` is all of `s` when `s` is no longer than `k` or `h`. */
  lemma ShortSliceIsWhole<T>(s: seq<T>, k: int, h: int)
    requires |s| <= k && |s| <= h
    ensures SliceTo(SliceFrom(s, -k), h) == s
  {
    assert SliceFrom(s, -k) == s;
  }

  /** `s[-k:][:h]`: the first `min(h, k)` entries of the last `k`. */
  lemma HeadOfTail<T>(s: seq<T>, k: int, h: int, i: int)
    requires 1 <= k <= |s| && 0 <= h
    ensures |SliceTo(SliceFrom(s, -k), h)| == Min(h, k)
    ensures 0 <= i < Min(h, k) ==> SliceTo(SliceFrom(s, -k), h)[i] == s[|s| - k + i]
  {
    HoldOut(s, k);
  }

  /** Dropping a prefix no longer than `|s| - k` does not change the last `k` entries. */
  lemma TailOfSuffix<T>(s: seq<T>, d: int, k: int)
    requires 0 <= d && 1 <= k <= |s| - d
    ensures SliceFrom(s[d..], -k) == SliceFrom(s, -k)
  {
    HoldOut(s, k);
    HoldOut(s[d..], k);
    assert s[d..][|s| - d - k..] == s[|s| - k..];
  }

  /**
   * With `k = 0` the same expressions misbehave: `s[:-0]` is empty and
   * `s[-0:]` is all of `s`.
   */
  lemma HoldOutZero<T>(s: seq<T>)
    ensures SliceTo(s, -0) == [] && SliceFrom(s, -0) == s
  {
  }

  /** The elements of `s` that satisfy `keep`, in their original order. */
  function Filter<T>(s: seq<T>, keep: T -> bool): (r: seq<T>)
    ensures |r| <= |s|
    ensures forall i :: 0 <= i < |r| ==> keep(r[i])
    ensures forall i :: 0 <= i < |r| ==> r[i] in s
    ensures forall i :: 0 <= i < |s| && keep(s[i]) ==> s[i] in r
  {
    if s == [] then []
    else if keep(s[0]) then [s[0]] + Filter(s[1..], keep)
    else Filter(s[1..], keep)
  }

  /** Filtering distributes over concatenation, so the survivors keep their relative order. */
  lemma {:induction false} FilterConcat<T>(a: seq<T>, b: seq<T>, keep: T -> bool)
    ensures Filter(a + b, keep) == Filter(a, keep) + Filter(b, keep)
  {
    if a == [] {
      assert a + b == b;
    } else {
      assert (a + b)[0] == a[0];
      assert (a + b)[1..] == a[1..] + b;
      FilterConcat(a[1..], b, keep);
    }
  }

  /** Filtering a sequence none of whose elements is kept gives the empty sequence. */
  lemma FilterNone<T>(s: seq<T>, keep: T -> bool)
    requires forall i :: 0 <= i < |s| ==> !keep(s[i])
    ensures Filter(s, keep) == []
  {
  }

  /** Filtering a sequence all of whose elements are kept changes nothing. */
  lemma {:induction false} FilterAll<T>(s: seq<T>, keep: T -> bool)
    requires forall i :: 0 <= i < |s| ==> keep(s[i])
    ensures Filter(s, keep) == s
  {
    if s != [] {
      FilterAll(s[1..], keep);
    }
  }
}
