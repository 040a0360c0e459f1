/**
 Positional row selection as pandas performs it: `iloc[start:stop]` with
 Python's slice rules (negative positions count back from the end, and
 out-of-range positions are clamped rather than rejected) and `tail(n)`.
 */
module PandasSlice {

  /** The position a Python slice bound denotes in a sequence of length `n`:
      a negative bound counts from the end, and the result is clamped to `[0, n]`. */
  function Bound(i: int, n: nat): (p: nat)
    ensures p <= n
    ensures 0 <= i <= n ==> p == i
    ensures -(n as int) <= i < 0 ==> p == n + i
    ensures i < -(n as int) ==> p == 0
    ensures i > n ==> p == n
  {
    if i < 0 then (if i + n < 0 then 0 else i + n)
    else if i > n then n
    else i
  }

  /** `s[start:stop]` with Python semantics: never fails, and is empty when
      the normalised stop does not lie after the normalised start. */
  function ILoc<T>(s: seq<T>, start: int, stop: int): (r: seq<T>)
    ensures |r| <= |s|
    ensures Bound(stop, |s|) <= Bound(start, |s|) ==> r == []
    ensures Bound(start, |s|) <= Bound(stop, |s|) ==> r == s[Bound(start, |s|)..Bound(stop, |s|)]
  {
    var a := Bound(start, |s|);
    var b := Bound(stop, |s|);
    if b <= a then [] else s[a..b]
  }

  /** Slicing at three ordered positions splits a slice in two:
      `s[a:b] + s[b:c] == s[a:c]` whenever the normalised bounds are in order,
      so a slice is exactly the elements between its two clamped positions. */
  lemma ILocSplit<T>(s: seq<T>, a: int, b: int, c: int)
    requires Bound(a, |s|) <= Bound(b, |s|) <= Bound(c, |s|)
    ensures ILoc(s, a, b) + ILoc(s, b, c) == ILoc(s, a, c)
    ensures |ILoc(s, a, c)| == Bound(c, |s|) - Bound(a, |s|)
  {
  }

  /** `tail(n)` for `n >= 0`: the last `n` rows, or all of them when there are fewer. */
  function Tail<T>(s: seq<T>, n: nat): (r: seq<T>)
    ensures |r| == if |s| < n then |s| else n
    ensures r == s[|s| - |r|..]
  {
    if |s| < n then s else s[|s| - n..]
  }

  /** `tail(n)` is the slice `iloc[-n:]`. */
  lemma TailIsNegativeSlice<T>(s: seq<T>, n: nat)
    requires n > 0
    ensures Tail(s, n) == ILoc(s, -(n as int), |s|)
  {
  }
}
