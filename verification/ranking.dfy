/**
 Ranking a growth table: sorting it by growth, descending (`sort_values`),
 and keeping its first five entries (`head(5)`).
 The table is a sequence of (keyword, growth) entries in insertion order, as a
 Python dict keeps them. The sort the program uses is not stable, so the
 contracts here promise only a descending reordering and say nothing about
 the order of ties.
 */
module Ranking {

  /** One entry of the growth table: a keyword and its growth. */
  datatype Scored = Scored(keyword: string, growth: real)

  /** The keywords of a sequence of entries, in order. */
  function Keywords(s: seq<Scored>): (ks: seq<string>)
    ensures |ks| == |s|
    ensures forall i :: 0 <= i < |s| ==> ks[i] == s[i].keyword
  {
    if s == [] then [] else [s[0].keyword] + Keywords(s[1..])
  }

  /** Looking a keyword up in the growth table: the growth stored under it. */
  function RateOf(rates: seq<Scored>, keyword: string): real
    requires keyword in Keywords(rates)
  {
    if rates[0].keyword == keyword then rates[0].growth else RateOf(rates[1..], keyword)
  }

  /** No keyword appears twice. */
  ghost predicate DistinctKeys(s: seq<Scored>)
  {
    forall i, j :: 0 <= i < j < |s| ==> s[i].keyword != s[j].keyword
  }

  /** Growth never increases along the sequence. */
  ghost predicate SortedDesc(s: seq<Scored>)
  {
    forall i, j :: 0 <= i < j < |s| ==> s[i].growth >= s[j].growth
  }

  /** `p` is one admissible result of sorting `s` by growth, descending:
      a reordering of `s` with non-increasing growth. Ties may come in any
      order, as the sort in use is not stable. */
  ghost predicate IsRanking(p: seq<Scored>, s: seq<Scored>)
  {
    multiset(p) == multiset(s) && SortedDesc(p)
  }

  /** `x`'s keyword occurs nowhere in `s`. */
  ghost predicate FreshKey(x: Scored, s: seq<Scored>)
  {
    forall z :: z in s ==> z.keyword != x.keyword
  }

  /** Prepending an entry that grows at least as fast as every entry of a
      descending sequence keeps it descending. */
  lemma SortedDescCons(h: Scored, s: seq<Scored>)
    requires SortedDesc(s)
    requires forall z :: z in s ==> z.growth <= h.growth
    ensures SortedDesc([h] + s)
  {
    forall i, j | 0 <= i < j < |[h] + s|
      ensures ([h] + s)[i].growth >= ([h] + s)[j].growth
    {
      assert ([h] + s)[j] == s[j - 1];
      if i > 0 {
        assert ([h] + s)[i] == s[i - 1];
      }
    }
  }

  /** Prepending an entry with a fresh keyword keeps keywords distinct. */
  lemma DistinctKeysCons(h: Scored, s: seq<Scored>)
    ensures DistinctKeys(s) && FreshKey(h, s) ==> DistinctKeys([h] + s)
  {
    if DistinctKeys(s) && FreshKey(h, s) {
      forall i, j | 0 <= i < j < |[h] + s|
        ensures ([h] + s)[i].keyword != ([h] + s)[j].keyword
      {
        assert ([h] + s)[j] == s[j - 1];
        if i > 0 {
          assert ([h] + s)[i] == s[i - 1];
        }
      }
    }
  }

  /** When `x` is inserted behind the head of `s`, the head stays fresh. */
  lemma InsertBehindHead(x: Scored, s: seq<Scored>, rest: seq<Scored>)
    requires |s| > 0
    requires forall z :: z in rest ==> z == x || z in s[1..]
    ensures DistinctKeys(s) && FreshKey(x, s) ==>
      DistinctKeys(s[1..]) && FreshKey(x, s[1..]) && FreshKey(s[0], rest)
  {
    if DistinctKeys(s) && FreshKey(x, s) {
      forall z | z in s[1..]
        ensures z.keyword != s[0].keyword
      {
        var i :| 0 <= i < |s[1..]| && s[1..][i] == z;
        assert s[i + 1] == z;
      }
    }
  }

  /** Every entry of `r` is `x` or an entry of `s`. */
  lemma MembersOfExtended(r: seq<Scored>, s: seq<Scored>, x: Scored)
    requires multiset(r) == multiset(s) + multiset{x}
    ensures forall z :: z in r ==> z == x || z in s
  {
    forall z | z in r
      ensures z == x || z in s
    {
      assert z in multiset(r);
    }
  }

  /** Putting the head of `s` back in front of `rest`, a descending
      sequence holding the tail of `s` and `x`, where `x` grows slower than
      that head, gives a descending sequence holding `s` and `x`. */
  lemma ConsBehindHead(x: Scored, s: seq<Scored>, rest: seq<Scored>)
    requires SortedDesc(s) && |s| > 0 && x.growth < s[0].growth
    requires SortedDesc(rest) && multiset(rest) == multiset(s[1..]) + multiset{x}
    requires DistinctKeys(s[1..]) && FreshKey(x, s[1..]) ==> DistinctKeys(rest)
    ensures SortedDesc([s[0]] + rest)
    ensures multiset([s[0]] + rest) == multiset(s) + multiset{x}
    ensures DistinctKeys(s) && FreshKey(x, s) ==> DistinctKeys([s[0]] + rest)
  {
    MembersOfExtended(rest, s[1..], x);
    assert s == [s[0]] + s[1..];
    SortedDescCons(s[0], rest);
    InsertBehindHead(x, s, rest);
    DistinctKeysCons(s[0], rest);
  }

  /** Puts `x` into a descending sequence at its place. */
  function Insert(x: Scored, s: seq<Scored>): (r: seq<Scored>)
    requires SortedDesc(s)
    ensures SortedDesc(r)
    ensures multiset(r) == multiset(s) + multiset{x}
    ensures |r| == |s| + 1
    ensures DistinctKeys(s) && FreshKey(x, s) ==> DistinctKeys(r)
  {
    if s == [] || x.growth >= s[0].growth then
      SortedDescCons(x, s);
      DistinctKeysCons(x, s);
      [x] + s
    else
      var rest := Insert(x, s[1..]);
      ConsBehindHead(x, s, rest);
      [s[0]] + rest
  }

  /** The head of a sequence with distinct keywords is fresh for any
      reordering of its tail, and the tail keeps distinct keywords. */
  lemma HeadFreshAfterSort(s: seq<Scored>, rest: seq<Scored>)
    requires |s| > 0 && multiset(rest) == multiset(s[1..])
    ensures DistinctKeys(s) ==> DistinctKeys(s[1..]) && FreshKey(s[0], rest)
  {
    if DistinctKeys(s) {
      forall z | z in rest
        ensures z.keyword != s[0].keyword
      {
        assert z in multiset(s[1..]);
        var i :| 0 <= i < |s[1..]| && s[1..][i] == z;
        assert s[i + 1] == z;
      }
    }
  }

  /** Sorting by growth, descending. */
  function SortDesc(s: seq<Scored>): (r: seq<Scored>)
    ensures IsRanking(r, s)
    ensures |r| == |s|
    ensures DistinctKeys(s) ==> DistinctKeys(r)
  {
    if s == [] then []
    else
      var rest := SortDesc(s[1..]);
      HeadFreshAfterSort(s, rest);
      assert s == [s[0]] + s[1..];
      Insert(s[0], rest)
  }

  /** `q` without its entry at position `k`. */
  function RemoveAt(q: seq<Scored>, k: nat): (q': seq<Scored>)
    requires k < |q|
    ensures |q'| == |q| - 1
    ensures forall i :: 0 <= i < |q'| ==> q'[i] == if i < k then q[i] else q[i + 1]
    ensures multiset(q') == multiset(q) - multiset{q[k]}
  {
    assert q == q[..k] + [q[k]] + q[k + 1..];
    q[..k] + q[k + 1..]
  }

  /** A prefix of a ranking of `scores` holds entries of `scores` only, and
      every entry left out grows no faster than any entry kept. */
  lemma RankingPrefix(scores: seq<Scored>, sorted: seq<Scored>, m: nat)
    requires IsRanking(sorted, scores) && m <= |sorted|
    ensures forall y :: y in sorted[..m] ==> y in scores
    ensures forall x, y :: x in scores && x !in sorted[..m] && y in sorted[..m] ==> x.growth <= y.growth
    ensures m == |scores| ==> multiset(sorted[..m]) == multiset(scores)
  {
    var r := sorted[..m];
    assert forall y :: y in r ==> y in multiset(scores);
    forall x, y | x in scores && x !in r && y in r
      ensures x.growth <= y.growth
    {
      assert x in multiset(sorted);
      var i :| 0 <= i < |sorted| && sorted[i] == x;
      var j :| 0 <= j < |r| && r[j] == y;
      assert i >= m;
    }
    if m == |scores| {
      assert r == sorted;
    }
  }

  /** The first `k` entries of the ranking (`sort_values` followed by `head(k)`). */
  function TopK(scores: seq<Scored>, k: nat): (r: seq<Scored>)
    ensures |r| == if |scores| < k then |scores| else k
    ensures SortedDesc(r)
    ensures exists p :: IsRanking(p, scores) && |r| <= |p| && r == p[..|r|]
    ensures forall y :: y in r ==> y in scores
    ensures forall x, y :: x in scores && x !in r && y in r ==> x.growth <= y.growth
    ensures |scores| <= k ==> multiset(r) == multiset(scores)
    ensures DistinctKeys(scores) ==> DistinctKeys(r)
  {
    var sorted := SortDesc(scores);
    var m := if |scores| < k then |scores| else k;
    RankingPrefix(scores, sorted, m);
    assert DistinctKeys(sorted) ==> DistinctKeys(sorted[..m]);
    assert sorted[..m] == sorted[..|sorted[..m]|];
    sorted[..m]
  }

  /** How many keywords the ranking keeps (`head(5)`). */
  const TopCount: nat := 5

  /** A keyword of the table is the keyword of one of its entries. */
  lemma KeywordsMember(rates: seq<Scored>, k: string)
    requires k in Keywords(rates)
    ensures exists i :: 0 <= i < |rates| && rates[i].keyword == k
  {
    var i :| 0 <= i < |Keywords(rates)| && Keywords(rates)[i] == k;
  }

  /** In a table with distinct keywords, looking up an entry's keyword
      returns that entry's growth. */
  lemma {:induction false} RateOfMember(rates: seq<Scored>, x: Scored)
    requires DistinctKeys(rates) && x in rates
    ensures x.keyword in Keywords(rates) && RateOf(rates, x.keyword) == x.growth
    decreases |rates|
  {
    var i :| 0 <= i < |rates| && rates[i] == x;
    assert Keywords(rates)[i] == x.keyword;
    if i > 0 {
      assert rates[0].keyword != x.keyword;
      assert rates[1..][i - 1] == x;
      RateOfMember(rates[1..], x);
    }
  }

  /** Entries whose keywords, read off in order, are pairwise different
      have distinct keys. */
  lemma DistinctKeysOfNames(s: seq<Scored>)
    requires forall i, j :: 0 <= i < j < |s| ==> Keywords(s)[i] != Keywords(s)[j]
    ensures DistinctKeys(s)
  {
    var ks := Keywords(s);
    forall i, j | 0 <= i < j < |s|
      ensures s[i].keyword != s[j].keyword
    {
      assert ks[i] == s[i].keyword && ks[j] == s[j].keyword;
    }
  }

  /** An entry in a selection has its keyword among the selection's names. */
  lemma NameOfSelected(r: seq<Scored>, x: Scored)
    ensures x in r ==> x.keyword in Keywords(r)
  {
    if x in r {
      var l :| 0 <= l < |r| && r[l] == x;
      assert Keywords(r)[l] == x.keyword;
    }
  }

  /** The names of a descending selection of distinct entries from the
      table are distinct keywords of the table, in non-increasing growth. */
  lemma SelectedNames(rates: seq<Scored>, r: seq<Scored>)
    requires DistinctKeys(rates) && DistinctKeys(r) && SortedDesc(r)
    requires forall y :: y in r ==> y in rates
    ensures var ks := Keywords(r);
      && (forall i, j :: 0 <= i < j < |ks| ==> ks[i] != ks[j])
      && (forall k :: k in ks ==> k in Keywords(rates))
      && (forall i, j :: 0 <= i < j < |ks| ==> RateOf(rates, ks[i]) >= RateOf(rates, ks[j]))
  {
    var ks := Keywords(r);
    forall i | 0 <= i < |r|
      ensures ks[i] in Keywords(rates) && RateOf(rates, ks[i]) == r[i].growth
    {
      RateOfMember(rates, r[i]);
    }
    forall k | k in ks
      ensures k in Keywords(rates)
    {
      var i :| 0 <= i < |ks| && ks[i] == k;
    }
  }

  /** A keyword whose entry was left out of the selection grows no faster
      than any selected one. */
  lemma UnselectedNames(rates: seq<Scored>, r: seq<Scored>)
    requires DistinctKeys(rates)
    requires forall y :: y in r ==> y in rates
    requires forall x, y :: x in rates && x !in r && y in r ==> x.growth <= y.growth
    ensures var ks := Keywords(r);
      forall k, i :: k in Keywords(rates) && k !in ks && 0 <= i < |ks| ==>
        RateOf(rates, k) <= RateOf(rates, ks[i])
  {
    forall k, i | k in Keywords(rates) && k !in Keywords(r) && 0 <= i < |r|
      ensures Keywords(r)[i] in Keywords(rates) && RateOf(rates, k) <= RateOf(rates, Keywords(r)[i])
    {
      UnselectedName(rates, r, k, i);
    }
  }

  /** One instance of `UnselectedNames`: keyword `k` against the selected
      entry at position `i`. */
  lemma UnselectedName(rates: seq<Scored>, r: seq<Scored>, k: string, i: nat)
    requires DistinctKeys(rates) && i < |r| && k in Keywords(rates) && k !in Keywords(r)
    ensures (forall y :: y in r ==> y in rates) &&
            (forall x, y :: x in rates && x !in r && y in r ==> x.growth <= y.growth) ==>
      Keywords(r)[i] in Keywords(rates) && RateOf(rates, k) <= RateOf(rates, Keywords(r)[i])
  {
    if (forall y :: y in r ==> y in rates) &&
       (forall x, y :: x in rates && x !in r && y in r ==> x.growth <= y.growth)
    {
      var y := r[i];
      KeywordsMember(rates, k);
      var m :| 0 <= m < |rates| && rates[m].keyword == k;
      var x := rates[m];
      RateOfMember(rates, x);
      RateOfMember(rates, y);
      NameOfSelected(r, x);
    }
  }

  /** A selection that keeps every entry of the table names every keyword. */
  lemma CompleteSelectionNames(rates: seq<Scored>, r: seq<Scored>)
    ensures multiset(r) == multiset(rates) ==> forall k :: k in Keywords(rates) ==> k in Keywords(r)
  {
    if multiset(r) == multiset(rates) {
      forall k | k in Keywords(rates)
        ensures k in Keywords(r)
      {
        KeywordsMember(rates, k);
        var m :| 0 <= m < |rates| && rates[m].keyword == k;
        assert rates[m] in multiset(r);
        NameOfSelected(r, rates[m]);
      }
    }
  }

  /** The names of a prefix of a ranking are the names of that prefix. */
  lemma PrefixNames(rates: seq<Scored>, r: seq<Scored>)
    requires exists p :: IsRanking(p, rates) && |r| <= |p| && r == p[..|r|]
    ensures exists p :: IsRanking(p, rates) && |r| <= |p| && Keywords(r) == Keywords(p[..|r|])
  {
    var p :| IsRanking(p, rates) && |r| <= |p| && r == p[..|r|];
    assert Keywords(r) == Keywords(p[..|r|]);
  }

  /** Everything `TopKeywords` promises, stated of the names of a selection
      that `TopK` could return. */
  ghost predicate TopNames(rates: seq<Scored>, ks: seq<string>)
    requires DistinctKeys(rates)
  {
    && |ks| == (if |rates| < TopCount then |rates| else TopCount)
    && (forall i, j :: 0 <= i < j < |ks| ==> ks[i] != ks[j])
    && (forall k :: k in ks ==> k in Keywords(rates))
    && (|rates| <= TopCount ==> forall k :: k in Keywords(rates) ==> k in ks)
    && (forall i, j :: 0 <= i < j < |ks| ==> RateOf(rates, ks[i]) >= RateOf(rates, ks[j]))
    && (forall k, i :: k in Keywords(rates) && k !in ks && 0 <= i < |ks| ==>
         RateOf(rates, k) <= RateOf(rates, ks[i]))
    && (exists p :: IsRanking(p, rates) && |ks| <= |p| && ks == Keywords(p[..|ks|]))
  }

  /** The names of the first `TopCount` entries of the ranking have every
      property `TopKeywords` promises. */
  lemma TopKNames(rates: seq<Scored>, r: seq<Scored>)
    requires DistinctKeys(rates) && r == TopK(rates, TopCount)
    ensures TopNames(rates, Keywords(r))
  {
    SelectedNames(rates, r);
    UnselectedNames(rates, r);
    CompleteSelectionNames(rates, r);
    PrefixNames(rates, r);
  }

  /** `top_keywords`: the keywords of the first `TopCount` entries of a
      descending sort of the growth table. */
  function TopKeywords(rates: seq<Scored>): (ks: seq<string>)
    requires DistinctKeys(rates)
    ensures |ks| == if |rates| < TopCount then |rates| else TopCount
    ensures forall i, j :: 0 <= i < j < |ks| ==> ks[i] != ks[j]
    ensures forall k :: k in ks ==> k in Keywords(rates)
    ensures |rates| <= TopCount ==> forall k :: k in Keywords(rates) ==> k in ks
    ensures forall i, j :: 0 <= i < j < |ks| ==> RateOf(rates, ks[i]) >= RateOf(rates, ks[j])
    ensures forall k, i :: k in Keywords(rates) && k !in ks && 0 <= i < |ks| ==>
      RateOf(rates, k) <= RateOf(rates, ks[i])
    ensures exists p :: IsRanking(p, rates) && |ks| <= |p| && ks == Keywords(p[..|ks|])
  {
    var r := TopK(rates, TopCount);
    TopKNames(rates, r);
    Keywords(r)
  }

  /** Removing one entry from a descending sequence keeps it descending. */
  lemma SortedDescRemove(q: seq<Scored>, k: nat)
    requires SortedDesc(q) && k < |q|
    ensures SortedDesc(RemoveAt(q, k))
  {
    var q' := RemoveAt(q, k);
    forall i, j | 0 <= i < j < |q'|
      ensures q'[i].growth >= q'[j].growth
    {
      var i' := if i < k then i else i + 1;
      var j' := if j < k then j else j + 1;
      assert q'[i] == q[i'] && q'[j] == q[j'];
    }
  }

  /** Two descending sequences holding the same entries start with the same growth. */
  lemma RankingHeadGrowth(p: seq<Scored>, q: seq<Scored>)
    requires multiset(p) == multiset(q) && SortedDesc(p) && SortedDesc(q) && |p| > 0
    ensures |q| > 0 && p[0].growth == q[0].growth
  {
    assert p[0] in multiset(q);
    var k :| 0 <= k < |q| && q[k] == p[0];
    assert q[0] in multiset(p);
    var l :| 0 <= l < |p| && p[l] == q[0];
  }

  /** Removing, from a descending sequence, an entry that ties with the head
      shifts the growths of the rest one place forward. */
  lemma RemoveTieWithHead(q: seq<Scored>, k: nat)
    requires SortedDesc(q) && k < |q| && q[k].growth == q[0].growth
    ensures forall i :: 0 <= i < |q| - 1 ==> RemoveAt(q, k)[i].growth == q[i + 1].growth
  {
    var q' := RemoveAt(q, k);
    forall i | 0 <= i < |q| - 1
      ensures q'[i].growth == q[i + 1].growth
    {
      if i < k {
        assert q[0].growth >= q[i].growth >= q[i + 1].growth >= q[k].growth;
      }
    }
  }

  /** Taking the head of `p` out of `q`, which holds the same entries,
      leaves the same entries as the tail of `p`. */
  lemma RemoveMatching(p: seq<Scored>, q: seq<Scored>, k: nat)
    requires multiset(p) == multiset(q) && |p| > 0 && k < |q| && q[k] == p[0]
    ensures multiset(RemoveAt(q, k)) == multiset(p[1..])
  {
    assert p == [p[0]] + p[1..];
  }

  /** Any two admissible sortings of the same entries agree on the growth at
      every position: however ties are ordered, the growths of the ranking,
      and so of any prefix of it, are the same. */
  lemma {:induction false} RankingGrowthsUnique(p: seq<Scored>, q: seq<Scored>)
    requires multiset(p) == multiset(q) && SortedDesc(p) && SortedDesc(q)
    ensures |p| == |q|
    ensures forall i :: 0 <= i < |p| ==> p[i].growth == q[i].growth
    decreases |p|
  {
    assert |p| == |multiset(p)| == |multiset(q)| == |q|;
    if p != [] {
      RankingHeadGrowth(p, q);
      assert p[0] in multiset(q);
      var k :| 0 <= k < |q| && q[k] == p[0];
      RemoveMatching(p, q, k);
      SortedDescRemove(q, k);
      RankingGrowthsUnique(p[1..], RemoveAt(q, k));
      RemoveTieWithHead(q, k);
    }
  }

  /** The growths of `top_keywords` do not depend on how ties were broken:
      position `i` carries the `i`-th growth of every admissible sorting. */
  lemma TopKGrowthsDetermined(scores: seq<Scored>, k: nat, p: seq<Scored>)
    requires IsRanking(p, scores)
    ensures |TopK(scores, k)| <= |p|
    ensures forall i :: 0 <= i < |TopK(scores, k)| ==> TopK(scores, k)[i].growth == p[i].growth
  {
    var r := TopK(scores, k);
    var p0 :| IsRanking(p0, scores) && |r| <= |p0| && r == p0[..|r|];
    RankingGrowthsUnique(p0, p);
  }
}
