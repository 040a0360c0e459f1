/**
 The monthly search-volume table: one timestamp column `ds` and one numeric
 column per keyword, and its long ("melted") form of
 (timestamp, keyword, volume) triples from which a single keyword's series
 is read back.

 Timestamps are month indices, so a later month is a larger integer.
 */
module SeriesStore {

  /** One row of the wide table: a month and one volume per keyword column. */
  datatype Row = Row(ds: int, volumes: seq<real>)

  /** The wide table: the keyword column names (every column except `ds`,
      in column order) and the rows in file order. */
  datatype Table = Table(keywords: seq<string>, rows: seq<Row>)

  /** One triple of the long form. */
  datatype LongRow = LongRow(ds: int, keyword: string, volume: real)

  /** One (timestamp, volume) observation of a single keyword. */
  datatype Point = Point(ds: int, volume: real)

  /** Column names are unique. */
  ghost predicate DistinctNames(names: seq<string>)
  {
    forall i, j :: 0 <= i < j < |names| ==> names[i] != names[j]
  }

  /** Every row carries exactly one volume per keyword column. */
  ghost predicate Rectangular(t: Table)
  {
    forall r :: r in t.rows ==> |r.volumes| == |t.keywords|
  }

  /** Timestamps strictly increase down the table. */
  ghost predicate Chronological(t: Table)
  {
    forall i, j :: 0 <= i < j < |t.rows| ==> t.rows[i].ds < t.rows[j].ds
  }

  /** A table as a data frame can hold it: rectangular with unique column names. */
  ghost predicate WellFormed(t: Table)
  {
    Rectangular(t) && DistinctNames(t.keywords)
  }

  /** The volumes of column `j` over `rows`, in row order. */
  function ColumnValues(rows: seq<Row>, j: nat): (vs: seq<real>)
    requires forall r :: r in rows ==> j < |r.volumes|
    ensures |vs| == |rows|
    ensures forall i :: 0 <= i < |rows| ==> vs[i] == rows[i].volumes[j]
  {
    if rows == [] then [] else [rows[0].volumes[j]] + ColumnValues(rows[1..], j)
  }

  /** Selecting a column commutes with taking a contiguous block of rows. */
  lemma ColumnValuesSlice(rows: seq<Row>, j: nat, a: nat, b: nat)
    requires forall r :: r in rows ==> j < |r.volumes|
    requires a <= b <= |rows|
    ensures ColumnValues(rows[a..b], j) == ColumnValues(rows, j)[a..b]
  {
  }

  /** Column `j` of the table as (timestamp, volume) points: the reference
      definition of "one keyword's series". */
  function Column(rows: seq<Row>, j: nat): (ps: seq<Point>)
    requires forall r :: r in rows ==> j < |r.volumes|
    ensures |ps| == |rows|
    ensures forall i :: 0 <= i < |rows| ==> ps[i] == Point(rows[i].ds, rows[i].volumes[j])
  {
    if rows == [] then []
    else [Point(rows[0].ds, rows[0].volumes[j])] + Column(rows[1..], j)
  }

  /** The triples of one keyword column, one per row, in row order. */
  function MeltColumn(rows: seq<Row>, keyword: string, j: nat): (ls: seq<LongRow>)
    requires forall r :: r in rows ==> j < |r.volumes|
    ensures |ls| == |rows|
    ensures forall i :: 0 <= i < |rows| ==>
      ls[i] == LongRow(rows[i].ds, keyword, rows[i].volumes[j])
  {
    if rows == [] then []
    else [LongRow(rows[0].ds, keyword, rows[0].volumes[j])] + MeltColumn(rows[1..], keyword, j)
  }

  /** The wide-to-long reshape (`melt`): the keyword columns are stacked one
      after another, each contributing one triple per row that carries the
      row's month, the column's name and the cell's volume. `from` is the
      first column still to be stacked. */
  function MeltFrom(t: Table, from: nat): (ls: seq<LongRow>)
    requires Rectangular(t) && from <= |t.keywords|
    ensures |ls| == |t.rows| * (|t.keywords| - from)
    ensures forall l :: l in ls ==> l.keyword in t.keywords[from..]
    decreases |t.keywords| - from
  {
    if from == |t.keywords| then []
    else
      var rest := MeltFrom(t, from + 1);
      assert |t.rows| * (|t.keywords| - from) == |t.rows| + |t.rows| * (|t.keywords| - (from + 1));
      assert forall l :: l in rest ==> l.keyword in t.keywords[from..] by {
        assert forall k :: k in t.keywords[from + 1..] ==> k in t.keywords[from..];
      }
      MeltColumn(t.rows, t.keywords[from], from) + rest
  }

  /** The long form of the whole table: one triple per cell, each labelled
      with one of the table's keyword columns. */
  function Melt(t: Table): (ls: seq<LongRow>)
    requires Rectangular(t)
    ensures |ls| == |t.rows| * |t.keywords|
    ensures forall l :: l in ls ==> l.keyword in t.keywords
  {
    assert t.keywords[0..] == t.keywords;
    MeltFrom(t, 0)
  }

  /** Filtering the long form on one keyword and keeping the month and the
      volume: the triples of that keyword, in their order, without the
      keyword. */
  function SelectKeyword(ls: seq<LongRow>, keyword: string): (ps: seq<Point>)
    ensures |ps| <= |ls|
    ensures forall l :: l in ls && l.keyword != keyword ==> |ps| < |ls|
  {
    if ls == [] then []
    else if ls[0].keyword == keyword then
      [Point(ls[0].ds, ls[0].volume)] + SelectKeyword(ls[1..], keyword)
    else SelectKeyword(ls[1..], keyword)
  }

  /** The filter keeps exactly the triples of the keyword: every kept point
      comes from a triple of that keyword, and every such triple is kept. */
  lemma {:induction false} SelectKeywordMembers(ls: seq<LongRow>, keyword: string)
    ensures forall p :: p in SelectKeyword(ls, keyword) <==>
      exists l :: l in ls && l.keyword == keyword && p == Point(l.ds, l.volume)
    decreases |ls|
  {
    if ls != [] {
      SelectKeywordMembers(ls[1..], keyword);
      assert ls == [ls[0]] + ls[1..];
      forall p
        ensures p in SelectKeyword(ls, keyword) <==>
          exists l :: l in ls && l.keyword == keyword && p == Point(l.ds, l.volume)
      {
        if exists l :: l in ls && l.keyword == keyword && p == Point(l.ds, l.volume) {
          var l :| l in ls && l.keyword == keyword && p == Point(l.ds, l.volume);
          if l != ls[0] {
            assert l in ls[1..];
          }
        }
      }
    }
  }

  /** The position of a column name among the keywords. */
  function IndexOf(names: seq<string>, keyword: string): (j: nat)
    requires keyword in names
    ensures j < |names| && names[j] == keyword
    ensures forall i :: 0 <= i < j ==> names[i] != keyword
  {
    if names[0] == keyword then 0 else 1 + IndexOf(names[1..], keyword)
  }

  /** Selection distributes over concatenation of long-form blocks. */
  lemma {:induction false} SelectAppend(a: seq<LongRow>, b: seq<LongRow>, keyword: string)
    ensures SelectKeyword(a + b, keyword) == SelectKeyword(a, keyword) + SelectKeyword(b, keyword)
    decreases |a|
  {
    if a == [] {
      assert a + b == b;
    } else {
      assert (a + b)[1..] == a[1..] + b;
      SelectAppend(a[1..], b, keyword);
    }
  }

  /** Selecting a keyword from one melted column: all of it when the column
      carries that keyword, nothing otherwise. */
  lemma {:induction false} SelectMeltColumn(rows: seq<Row>, name: string, j: nat, keyword: string)
    requires forall r :: r in rows ==> j < |r.volumes|
    ensures name != keyword ==> SelectKeyword(MeltColumn(rows, name, j), keyword) == []
    ensures name == keyword ==>
      SelectKeyword(MeltColumn(rows, name, j), keyword) == Column(rows, j)
    decreases |rows|
  {
    if rows != [] {
      var ls := MeltColumn(rows, name, j);
      assert ls[1..] == MeltColumn(rows[1..], name, j);
      SelectMeltColumn(rows[1..], name, j, keyword);
    }
  }

  /** Selecting a keyword from the columns stacked from `from` onwards. */
  lemma {:induction false} SelectMeltFrom(t: Table, from: nat, keyword: string)
    requires WellFormed(t) && from <= |t.keywords|
    ensures keyword !in t.keywords[from..] ==> SelectKeyword(MeltFrom(t, from), keyword) == []
    ensures keyword in t.keywords[from..] ==>
      SelectKeyword(MeltFrom(t, from), keyword) == Column(t.rows, IndexOf(t.keywords, keyword))
    decreases |t.keywords| - from
  {
    if from < |t.keywords| {
      var name := t.keywords[from];
      SelectAppend(MeltColumn(t.rows, name, from), MeltFrom(t, from + 1), keyword);
      SelectMeltColumn(t.rows, name, from, keyword);
      SelectMeltFrom(t, from + 1, keyword);
      assert t.keywords[from..] == [name] + t.keywords[from + 1..];
      if name == keyword {
        assert keyword !in t.keywords[from + 1..] by {
          forall i | from + 1 <= i < |t.keywords|
            ensures t.keywords[i] != keyword
          {
            assert t.keywords[from] != t.keywords[i];
          }
        }
        var j := IndexOf(t.keywords, keyword);
        assert j == from;
      }
    }
  }

  /** Round trip of the reshape: selecting keyword `k` from the long form
      gives back exactly column `k` as (timestamp, volume) pairs in row
      order, and an unknown keyword selects nothing. */
  lemma SelectMeltIsColumn(t: Table, keyword: string)
    requires WellFormed(t)
    ensures |Melt(t)| == |t.rows| * |t.keywords|
    ensures keyword in t.keywords ==>
      SelectKeyword(Melt(t), keyword) == Column(t.rows, IndexOf(t.keywords, keyword))
    ensures keyword !in t.keywords ==> SelectKeyword(Melt(t), keyword) == []
  {
    assert t.keywords[0..] == t.keywords;
    SelectMeltFrom(t, 0, keyword);
  }
}
