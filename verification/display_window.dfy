/**
 The "last N months" display window: the cutoff is the latest forecast
 timestamp minus N months, and each frame shown is trimmed to the rows at or
 after it. Timestamps are month indices, so
 subtracting N months is integer subtraction.

 The filter is written once, over any row type, with the row's timestamp
 given by a projection `stamp`.
 */
module DisplayWindow {

  /** A timestamp that may be missing: pandas' NaT. */
  datatype Stamp = NaT | At(month: int)

  /** The latest timestamp (`max`), or NaT for an empty frame. */
  function Latest<T>(s: seq<T>, stamp: T -> int): (m: Stamp)
    ensures m == NaT <==> s == []
    ensures m.At? ==> exists i :: 0 <= i < |s| && stamp(s[i]) == m.month
    ensures m.At? ==> forall i :: 0 <= i < |s| ==> stamp(s[i]) <= m.month
  {
    if s == [] then NaT
    else
      var rest := Latest(s[1..], stamp);
      if rest == NaT || stamp(s[0]) >= rest.month then
        assert forall i :: 1 <= i < |s| ==> s[i] == s[1..][i - 1];
        At(stamp(s[0]))
      else
        assert forall i :: 1 <= i < |s| ==> s[i] == s[1..][i - 1];
        var k :| 0 <= k < |s[1..]| && stamp(s[1..][k]) == rest.month;
        assert s[k + 1] == s[1..][k];
        rest
  }

  /** The latest timestamp moved back by `months` months; NaT minus an offset is NaT. */
  function Cutoff(latest: Stamp, months: int): (c: Stamp)
    ensures c.At? <==> latest.At?
    ensures c.At? ==> c.month + months == latest.month
  {
    match latest
    case NaT => NaT
    case At(m) => At(m - months)
  }

  /** A timestamp lies on or after the cutoff; every comparison with NaT is false. */
  predicate OnOrAfter(month: int, cutoff: Stamp)
  {
    cutoff.At? && month >= cutoff.month
  }

  /** Boolean-mask filtering on the timestamp: the rows on or after the
      cutoff, in their order. */
  function KeepSince<T>(s: seq<T>, stamp: T -> int, cutoff: Stamp): (r: seq<T>)
    ensures |r| <= |s|
    ensures forall x :: x in r ==> x in s && OnOrAfter(stamp(x), cutoff)
    ensures forall x :: x in s && OnOrAfter(stamp(x), cutoff) ==> x in r
  {
    if s == [] then []
    else if OnOrAfter(stamp(s[0]), cutoff) then [s[0]] + KeepSince(s[1..], stamp, cutoff)
    else KeepSince(s[1..], stamp, cutoff)
  }

  /** Against a missing cutoff nothing is on or after it, so the window is
      empty whatever the rows. */
  lemma {:induction false} KeepSinceNaT<T>(s: seq<T>, stamp: T -> int)
    ensures KeepSince(s, stamp, NaT) == []
    decreases |s|
  {
    if s != [] {
      KeepSinceNaT(s[1..], stamp);
    }
  }

  /** `a` is `b` with some elements dropped and the rest in order. */
  ghost predicate IsSubsequence<T>(a: seq<T>, b: seq<T>)
    decreases |b|
  {
    if a == [] then true
    else if b == [] then false
    else if a[0] == b[0] then IsSubsequence(a[1..], b[1..])
    else IsSubsequence(a, b[1..])
  }

  /** The number of occurrences of `x` in `s` that lie on or after the cutoff. */
  function CountSince<T(==)>(s: seq<T>, x: T, stamp: T -> int, cutoff: Stamp): nat
  {
    if OnOrAfter(stamp(x), cutoff) then multiset(s)[x] else 0
  }

  /** The filter keeps exactly the rows on or after the cutoff, every copy
      of them, in their original order: a subsequence of its input. */
  lemma {:induction false} KeepSinceExact<T>(s: seq<T>, stamp: T -> int, cutoff: Stamp)
    ensures IsSubsequence(KeepSince(s, stamp, cutoff), s)
    ensures forall x :: multiset(KeepSince(s, stamp, cutoff))[x] == CountSince(s, x, stamp, cutoff)
    decreases |s|
  {
    if s != [] {
      KeepSinceExact(s[1..], stamp, cutoff);
      assert s == [s[0]] + s[1..];
      var rest := KeepSince(s[1..], stamp, cutoff);
      if OnOrAfter(stamp(s[0]), cutoff) {
        assert ([s[0]] + rest)[1..] == rest;
      } else if rest != [] {
        assert rest[0] in rest;
      }
    }
  }

  /** Applying a later cutoff after an earlier one gives the later cutoff's
      window: windows taken from the same rows with different cutoffs are
      consistent, and taking a window twice changes nothing. */
  lemma {:induction false} KeepSinceTwice<T>(s: seq<T>, stamp: T -> int, c1: int, c2: int)
    requires c1 <= c2
    ensures KeepSince(KeepSince(s, stamp, At(c1)), stamp, At(c2)) == KeepSince(s, stamp, At(c2))
    ensures KeepSince(KeepSince(s, stamp, At(c2)), stamp, At(c2)) == KeepSince(s, stamp, At(c2))
    decreases |s|
  {
    if s != [] {
      KeepSinceTwice(s[1..], stamp, c1, c2);
      var r1 := KeepSince(s, stamp, At(c1));
      var r2 := KeepSince(s, stamp, At(c2));
      if OnOrAfter(stamp(s[0]), At(c1)) {
        assert r1[1..] == KeepSince(s[1..], stamp, At(c1));
      }
      if OnOrAfter(stamp(s[0]), At(c2)) {
        assert r2[1..] == KeepSince(s[1..], stamp, At(c2));
      }
    }
  }

  /** Timestamps never decrease along the rows. */
  ghost predicate Ascending<T>(s: seq<T>, stamp: T -> int)
  {
    forall i, j :: 0 <= i < j < |s| ==> stamp(s[i]) <= stamp(s[j])
  }

  /** On rows in time order the window is a suffix: the most recent rows,
      from the first one on or after the cutoff to the end. */
  lemma {:induction false} KeepSinceSuffix<T>(s: seq<T>, stamp: T -> int, cutoff: int)
    requires Ascending(s, stamp)
    ensures var r := KeepSince(s, stamp, At(cutoff));
      && r == s[|s| - |r|..]
      && forall i :: 0 <= i < |s| - |r| ==> stamp(s[i]) < cutoff
    decreases |s|
  {
    if s != [] {
      if stamp(s[0]) >= cutoff {
        AscendingFrom(s, stamp, cutoff);
        WholeWindow(s, stamp, cutoff);
      } else {
        AscendingTail(s, stamp);
        KeepSinceSuffix(s[1..], stamp, cutoff);
        SuffixBehindEarlyRow(s, stamp, cutoff);
      }
    }
  }

  /** When every row is on or after the cutoff the window is the whole
      sequence, trivially a suffix with no earlier rows. */
  lemma WholeWindow<T>(s: seq<T>, stamp: T -> int, cutoff: int)
    requires forall i :: 0 <= i < |s| ==> stamp(s[i]) >= cutoff
    ensures var r := KeepSince(s, stamp, At(cutoff));
      && r == s[|s| - |r|..]
      && forall i :: 0 <= i < |s| - |r| ==> stamp(s[i]) < cutoff
  {
    KeepSinceAll(s, stamp, cutoff);
    assert s[|s| - |s|..] == s;
  }

  /** A first row before the cutoff extends the suffix shape of the rest's
      window to the whole sequence's window. */
  lemma SuffixBehindEarlyRow<T>(s: seq<T>, stamp: T -> int, cutoff: int)
    requires s != [] && stamp(s[0]) < cutoff
    requires var r := KeepSince(s[1..], stamp, At(cutoff));
      && r == s[1..][|s| - 1 - |r|..]
      && forall i :: 0 <= i < |s| - 1 - |r| ==> stamp(s[1..][i]) < cutoff
    ensures var r := KeepSince(s, stamp, At(cutoff));
      && r == s[|s| - |r|..]
      && forall i :: 0 <= i < |s| - |r| ==> stamp(s[i]) < cutoff
  {
    var r := KeepSince(s[1..], stamp, At(cutoff));
    assert KeepSince(s, stamp, At(cutoff)) == r;
    assert s[1..][|s| - 1 - |r|..] == s[|s| - |r|..];
    forall i | 1 <= i < |s| - |r|
      ensures stamp(s[i]) < cutoff
    {
      assert s[i] == s[1..][i - 1];
    }
  }

  /** Dropping the first row keeps the rows in time order. */
  lemma AscendingTail<T>(s: seq<T>, stamp: T -> int)
    requires Ascending(s, stamp) && s != []
    ensures Ascending(s[1..], stamp)
  {
    forall i, j | 0 <= i < j < |s[1..]|
      ensures stamp(s[1..][i]) <= stamp(s[1..][j])
    {
      assert s[1..][i] == s[i + 1] && s[1..][j] == s[j + 1];
    }
  }

  /** In rows in time order whose first row is on or after the cutoff,
      every row is. */
  lemma AscendingFrom<T>(s: seq<T>, stamp: T -> int, cutoff: int)
    requires Ascending(s, stamp) && s != [] && stamp(s[0]) >= cutoff
    ensures forall i :: 0 <= i < |s| ==> stamp(s[i]) >= cutoff
  {
    forall i | 0 < i < |s|
      ensures stamp(s[i]) >= cutoff
    {
      assert stamp(s[0]) <= stamp(s[i]);
    }
  }

  /** When every row is on or after the cutoff the window is everything. */
  lemma {:induction false} KeepSinceAll<T>(s: seq<T>, stamp: T -> int, cutoff: int)
    requires forall i :: 0 <= i < |s| ==> stamp(s[i]) >= cutoff
    ensures KeepSince(s, stamp, At(cutoff)) == s
    decreases |s|
  {
    if s != [] {
      assert forall i :: 0 <= i < |s[1..]| ==> s[1..][i] == s[i + 1];
      KeepSinceAll(s[1..], stamp, cutoff);
    }
  }
}
