/**
 * `parse_and_rank_table` of ranking_scrapper.py: the rows of one table are
 * filtered by width, turned into dictionaries keyed by header, coerced to
 * numbers in the points, nrr and won roles, sorted on (points, nrr, won)
 * descending with missing values last, and numbered 1..n.
 */
module Ranking {
  import opened Wrappers
  import opened NumberText
  import opened ColumnMapper

  /**
   * One `<table>` after HTML extraction: its header labels (stripped and
   * lower-cased) and, for every `<tr>` in document order, the stripped texts
   * of that row's `<td>` cells.
   */
  datatype RawTable = RawTable(headers: seq<string>, trs: seq<seq<string>>)

  /** A row dictionary, `dict(zip(headers, cells))`. */
  type Record = map<string, string>

  /** A coerced cell: a number, or `None` (NaN once in the frame). */
  type Num = Option<real>

  /** The coerced columns of one row, before ranking. */
  datatype Entry = Entry(team: string, points: Num, nrr: Num, won: Num)

  /** One output row: `table_index, rank, team, points, nrr, won`. */
  datatype RankedRow = RankedRow(tableIndex: nat, rank: nat, team: string, points: Num, nrr: Num, won: Num)

  /** `df.columns[0]` on a frame that has rows but no columns raises IndexError. */
  datatype TableError = NoColumns

  /** `table.find_all("tr")[1:]`: every row after the first. */
  function DataRows(trs: seq<seq<string>>): (rows: seq<seq<string>>)
    ensures |rows| == if trs == [] then 0 else |trs| - 1
    ensures forall i :: 0 <= i < |rows| ==> rows[i] == trs[i + 1]
  {
    if trs == [] then [] else trs[1..]
  }

  // ---------------------------------------------------------------------------
  // Row dictionaries
  // ---------------------------------------------------------------------------

  /** No later header repeats the label at position j. */
  predicate IsLastOccurrence(hs: seq<string>, j: int)
    requires 0 <= j < |hs|
  {
    forall k :: j < k < |hs| ==> hs[k] != hs[j]
  }

  /**
   * `dict(zip(hs, cells))`: one key per distinct header; a repeated header
   * keeps the cell of its last occurrence, and cells past the last header are
   * not used.
   */
  function Zip(hs: seq<string>, cells: seq<string>): (m: Record)
    requires |cells| >= |hs|
    ensures forall h :: h in m <==> h in hs
    ensures forall j :: 0 <= j < |hs| && IsLastOccurrence(hs, j) ==> m[hs[j]] == cells[j]
  {
    if hs == [] then map[]
    else
      var init, last := hs[..|hs| - 1], hs[|hs| - 1];
      var m := Zip(init, cells)[last := cells[|hs| - 1]];
      LastOccurrenceOfInit(hs);
      m
  }

  lemma LastOccurrenceOfInit(hs: seq<string>)
    requires hs != []
    ensures forall j :: 0 <= j < |hs| - 1 && IsLastOccurrence(hs, j) ==>
      IsLastOccurrence(hs[..|hs| - 1], j) && hs[j] != hs[|hs| - 1]
  {
  }

  /** `zip` stops at the shorter list: extra cells change nothing. */
  lemma {:induction false} ZipIgnoresExtraCells(hs: seq<string>, cells: seq<string>)
    requires |cells| >= |hs|
    ensures Zip(hs, cells) == Zip(hs, cells[..|hs|])
  {
    if hs != [] {
      var init := hs[..|hs| - 1];
      ZipIgnoresExtraCells(init, cells);
      ZipIgnoresExtraCells(init, cells[..|hs|]);
      assert cells[..|hs|][..|init|] == cells[..|init|];
    }
  }

  /** The position of the last header labelled x. */
  function LastIndex(hs: seq<string>, x: string): (j: nat)
    requires x in hs
    ensures j < |hs| && hs[j] == x && IsLastOccurrence(hs, j)
  {
    if hs[|hs| - 1] == x then |hs| - 1
    else
      assert x in hs[..|hs| - 1] by {
        var i :| 0 <= i < |hs| && hs[i] == x;
        assert hs[..|hs| - 1][i] == x;
      }
      LastIndex(hs[..|hs| - 1], x)
  }

  /** The rows at least `width` cells wide, in their original order. */
  function KeptRows(width: nat, rows: seq<seq<string>>): (kept: seq<seq<string>>)
    ensures forall k :: 0 <= k < |kept| ==> |kept[k]| >= width
  {
    if rows == [] then []
    else
      var last := rows[|rows| - 1];
      KeptRows(width, rows[..|rows| - 1]) + (if |last| < width then [] else [last])
  }

  /** A row survives exactly when it has at least as many cells as there are headers. */
  lemma {:induction false} KeptRowsMembers(width: nat, rows: seq<seq<string>>)
    ensures forall row :: row in KeptRows(width, rows) <==> row in rows && |row| >= width
  {
    if rows != [] {
      var init := rows[..|rows| - 1];
      KeptRowsMembers(width, init);
      assert rows == init + [rows[|rows| - 1]];
    }
  }

  /** The number of surviving rows is the number of input rows passing the width test. */
  lemma {:induction false} KeptRowsCount(width: nat, rows: seq<seq<string>>)
    ensures |KeptRows(width, rows)| == |set i | 0 <= i < |rows| && |rows[i]| >= width|
  {
    if rows != [] {
      var n := |rows| - 1;
      var init := rows[..n];
      KeptRowsCount(width, init);
      var before := set i | 0 <= i < |init| && |init[i]| >= width;
      var after := set i | 0 <= i < |rows| && |rows[i]| >= width;
      if |rows[n]| >= width {
        assert after == before + {n};
        assert n !in before;
      } else {
        assert after == before;
      }
    }
  }

  /**
   * The positions of the rows wide enough, in increasing order.
   */
  function KeptIndices(width: nat, rows: seq<seq<string>>): (idx: seq<nat>)
    ensures forall k, l :: 0 <= k < l < |idx| ==> idx[k] < idx[l]
    ensures forall i :: i in idx <==> 0 <= i < |rows| && |rows[i]| >= width
  {
    if rows == [] then []
    else
      var n := |rows| - 1;
      var prev := KeptIndices(width, rows[..n]);
      assert forall i :: 0 <= i < n ==> rows[..n][i] == rows[i];
      assert forall k :: 0 <= k < |prev| ==> prev[k] < n by {
        forall k | 0 <= k < |prev| ensures prev[k] < n {
          assert prev[k] in prev;
        }
      }
      if |rows[n]| < width then prev else prev + [n]
  }

  /**
   * The filter keeps the rows' order: the k-th kept row is the input row at
   * the k-th position that passes the width test.
   */
  lemma {:induction false} KeptRowsAtIndices(width: nat, rows: seq<seq<string>>)
    ensures |KeptIndices(width, rows)| == |KeptRows(width, rows)|
    ensures forall k :: 0 <= k < |KeptIndices(width, rows)| ==>
      KeptIndices(width, rows)[k] < |rows| && KeptRows(width, rows)[k] == rows[KeptIndices(width, rows)[k]]
  {
    if rows != [] {
      var n := |rows| - 1;
      KeptRowsAtIndices(width, rows[..n]);
      var prev := KeptIndices(width, rows[..n]);
      forall k | 0 <= k < |prev|
        ensures prev[k] < n && rows[..n][prev[k]] == rows[prev[k]]
      {
        assert prev[k] in prev;
      }
    }
  }

  /** With no width demanded every row survives. */
  lemma {:induction false} KeptRowsAll(rows: seq<seq<string>>)
    ensures KeptRows(0, rows) == rows
  {
    if rows != [] {
      KeptRowsAll(rows[..|rows| - 1]);
    }
  }

  /** The dictionaries of the kept rows, in order. */
  function Records(hs: seq<string>, rows: seq<seq<string>>): (recs: seq<Record>)
    requires forall k :: 0 <= k < |rows| ==> |rows[k]| >= |hs|
    ensures |recs| == |rows|
    ensures forall k, h :: 0 <= k < |rows| ==> (h in recs[k] <==> h in hs)
    ensures forall k, j :: 0 <= k < |rows| && 0 <= j < |hs| && IsLastOccurrence(hs, j) ==>
      hs[j] in recs[k] && recs[k][hs[j]] == rows[k][j]
  {
    seq(|rows|, k requires 0 <= k < |rows| => Zip(hs, rows[k]))
  }

  /** The loop of ranking_scrapper.py, lines 36 to 42, building `rows_data`. */
  method CollectRows(headers: seq<string>, trs: seq<seq<string>>) returns (rowsData: seq<Record>)
    ensures rowsData == Records(headers, KeptRows(|headers|, DataRows(trs)))
  {
    var data := DataRows(trs);
    rowsData := [];
    for i := 0 to |data|
      invariant rowsData == Records(headers, KeptRows(|headers|, data[..i]))
    {
      assert data[..i + 1][..i] == data[..i];
      var cells := data[i];
      if |cells| < |headers| {
        continue;
      }
      var row := Zip(headers, cells);
      rowsData := rowsData + [row];
    }
    assert data[..|data|] == data;
  }

  // ---------------------------------------------------------------------------
  // Coercion
  // ---------------------------------------------------------------------------

  /** Every role the map resolves is a key of the row. */
  predicate HasColumns(rec: Record, cm: ColumnMap)
  {
    && cm.team in rec
    && (cm.points.Some? ==> cm.points.value in rec)
    && (cm.nrr.Some? ==> cm.nrr.value in rec)
    && (cm.won.Some? ==> cm.won.value in rec)
  }

  /** `df[col].apply(text_to_number)` for a mapped column, the constant 0 for an unmapped one. */
  function Coerce(rec: Record, col: Option<string>): (n: Num)
    requires col.Some? ==> col.value in rec
    ensures col.None? ==> n == Some(0.0)
    ensures col.Some? ==> (n.Some? <==> IsNumeral(rec[col.value]))
  {
    match col
    case None => Some(0.0)
    case Some(c) =>
      TextToNumberAccepts(rec[c]);
      TextToNumber(rec[c])
  }

  /**
   * The team cell as text and the three numeric roles coerced; an unmapped
   * role reads 0 and a mapped one is missing exactly when its cell is not a numeral.
   */
  function EntryOf(rec: Record, cm: ColumnMap): (e: Entry)
    requires HasColumns(rec, cm)
    ensures e.team == rec[cm.team]
    ensures cm.points.None? ==> e.points == Some(0.0)
    ensures cm.points.Some? ==> (e.points.Some? <==> IsNumeral(rec[cm.points.value]))
    ensures cm.nrr.None? ==> e.nrr == Some(0.0)
    ensures cm.nrr.Some? ==> (e.nrr.Some? <==> IsNumeral(rec[cm.nrr.value]))
    ensures cm.won.None? ==> e.won == Some(0.0)
    ensures cm.won.Some? ==> (e.won.Some? <==> IsNumeral(rec[cm.won.value]))
  {
    Entry(rec[cm.team], Coerce(rec, cm.points), Coerce(rec, cm.nrr), Coerce(rec, cm.won))
  }

  lemma RecordsHaveColumns(headers: seq<string>, rows: seq<seq<string>>)
    requires headers != []
    requires forall k :: 0 <= k < |rows| ==> |rows[k]| >= |headers|
    ensures forall k :: 0 <= k < |rows| ==>
      HasColumns(Records(headers, rows)[k], SelectColumns(Columns(headers)))
  {
    SelectedColumnsAreHeaders(Columns(headers));
  }

  /** The coerced team, points, nrr and won of every kept row, in document order. */
  function TableEntries(t: RawTable): (es: seq<Entry>)
    requires t.headers != []
    ensures |es| == |KeptRows(|t.headers|, DataRows(t.trs))|
  {
    var kept := KeptRows(|t.headers|, DataRows(t.trs));
    var cm := SelectColumns(Columns(t.headers));
    RecordsHaveColumns(t.headers, kept);
    seq(|kept|, k requires 0 <= k < |kept| => EntryOf(Records(t.headers, kept)[k], cm))
  }

  /**
   * The coerced values of a kept row, read straight from its cells: the team
   * text, the parsed cell of each mapped role (the last column carrying that
   * label), and 0 for each unmapped role.
   */
  lemma TableEntriesFromCells(t: RawTable, k: nat)
    requires t.headers != []
    requires k < |KeptRows(|t.headers|, DataRows(t.trs))|
    ensures var cells := KeptRows(|t.headers|, DataRows(t.trs))[k];
      var cm := SelectColumns(Columns(t.headers));
      var e := TableEntries(t)[k];
      && cm.team in t.headers
      && e.team == cells[LastIndex(t.headers, cm.team)]
      && (cm.points.None? ==> e.points == Some(0.0))
      && (cm.points.Some? ==> cm.points.value in t.headers
                              && e.points == TextToNumber(cells[LastIndex(t.headers, cm.points.value)]))
      && (cm.nrr.None? ==> e.nrr == Some(0.0))
      && (cm.nrr.Some? ==> cm.nrr.value in t.headers
                           && e.nrr == TextToNumber(cells[LastIndex(t.headers, cm.nrr.value)]))
      && (cm.won.None? ==> e.won == Some(0.0))
      && (cm.won.Some? ==> cm.won.value in t.headers
                           && e.won == TextToNumber(cells[LastIndex(t.headers, cm.won.value)]))
  {
    SelectedColumnsAreHeaders(Columns(t.headers));
  }

  // ---------------------------------------------------------------------------
  // Ordering
  // ---------------------------------------------------------------------------

  /**
   * a is placed strictly before b when a column is sorted descending: larger
   * numbers first, and a missing value after every number.
   */
  predicate NumAbove(a: Num, b: Num)
  {
    match a
    case None => false
    case Some(x) => b.None? || x > b.value
  }

  /** e may precede f in the sort on (points, nrr, won), each descending. */
  predicate RanksAtOrAbove(e: Entry, f: Entry)
  {
    || NumAbove(e.points, f.points)
    || (&& !NumAbove(f.points, e.points)
        && (|| NumAbove(e.nrr, f.nrr)
            || (!NumAbove(f.nrr, e.nrr) && !NumAbove(f.won, e.won))))
  }

  ghost predicate IsSortedDesc(s: seq<Entry>)
  {
    forall i, j :: 0 <= i < j < |s| ==> RanksAtOrAbove(s[i], s[j])
  }

  /** Two missing values tie, and so do equal numbers; nothing else does. */
  lemma NumTieIsEquality(a: Num, b: Num)
    ensures !NumAbove(a, b) && !NumAbove(b, a) <==> a == b
  {
  }

  lemma RanksTotal(e: Entry, f: Entry)
    ensures RanksAtOrAbove(e, f) || RanksAtOrAbove(f, e)
  {
  }

  lemma RanksTransitive(e: Entry, f: Entry, g: Entry)
    requires RanksAtOrAbove(e, f) && RanksAtOrAbove(f, g)
    ensures RanksAtOrAbove(e, g)
  {
  }

  lemma InsertBelowHead(e: Entry, s: seq<Entry>, rest: seq<Entry>)
    requires IsSortedDesc(s) && s != []
    requires !RanksAtOrAbove(e, s[0])
    requires multiset(rest) == multiset(s[1..]) + multiset{e}
    ensures forall j :: 0 <= j < |rest| ==> RanksAtOrAbove(s[0], rest[j])
  {
    RanksTotal(e, s[0]);
    forall j | 0 <= j < |rest|
      ensures RanksAtOrAbove(s[0], rest[j])
    {
      assert rest[j] in multiset(rest);
      if rest[j] != e {
        assert rest[j] in multiset(s[1..]);
        var i :| 0 <= i < |s[1..]| && s[1..][i] == rest[j];
        assert s[i + 1] == rest[j];
      }
    }
  }

  lemma InsertAtHead(e: Entry, s: seq<Entry>)
    requires IsSortedDesc(s) && s != []
    requires RanksAtOrAbove(e, s[0])
    ensures IsSortedDesc([e] + s)
  {
    forall j | 0 < j < |s|
      ensures RanksAtOrAbove(e, s[j])
    {
      RanksTransitive(e, s[0], s[j]);
    }
  }

  /** Places e before the first entry it ranks at or above, so e goes ahead of its ties. */
  function Insert(e: Entry, s: seq<Entry>): (r: seq<Entry>)
    requires IsSortedDesc(s)
    ensures multiset(r) == multiset(s) + multiset{e}
    ensures IsSortedDesc(r)
  {
    if s == [] then [e]
    else if RanksAtOrAbove(e, s[0]) then
      InsertAtHead(e, s);
      [e] + s
    else
      var rest := Insert(e, s[1..]);
      assert s == [s[0]] + s[1..];
      InsertBelowHead(e, s, rest);
      [s[0]] + rest
  }

  /**
   * `sort_values(by=["_points", "_nrr", "_won"], ascending=[False] * 3)`:
   * an insertion sort that puts each row ahead of the later rows it ties with.
   */
  function SortDesc(s: seq<Entry>): (r: seq<Entry>)
    ensures multiset(r) == multiset(s)
    ensures IsSortedDesc(r)
  {
    if s == [] then []
    else
      assert s == [s[0]] + s[1..];
      Insert(s[0], SortDesc(s[1..]))
  }

  /** Rows that all tie come out in their input order. */
  lemma {:induction false} SortDescAllTied(s: seq<Entry>)
    requires forall i, j :: 0 <= i < |s| && 0 <= j < |s| ==> RanksAtOrAbove(s[i], s[j])
    ensures SortDesc(s) == s
  {
    if s != [] {
      SortDescAllTied(s[1..]);
    }
  }

  // ---------------------------------------------------------------------------
  // Ranking
  // ---------------------------------------------------------------------------

  /** `df["rank"] = df.index + 1` and `df["table_index"] = table_index` on the sorted rows. */
  function RankEntries(sorted: seq<Entry>, tableIndex: nat): (rows: seq<RankedRow>)
    ensures |rows| == |sorted|
    ensures forall i :: 0 <= i < |rows| ==> rows[i].rank == i + 1 && rows[i].tableIndex == tableIndex
    ensures Unranked(rows) == sorted
  {
    seq(|sorted|, i requires 0 <= i < |sorted| =>
      RankedRow(tableIndex, i + 1, sorted[i].team, sorted[i].points, sorted[i].nrr, sorted[i].won))
  }

  /** The ranked rows with their rank and table index dropped. */
  function Unranked(rows: seq<RankedRow>): seq<Entry>
  {
    seq(|rows|, i requires 0 <= i < |rows| => Entry(rows[i].team, rows[i].points, rows[i].nrr, rows[i].won))
  }

  /** What `parse_and_rank_table(table, table_index)` returns, or the error it raises. */
  function RankTable(t: RawTable, tableIndex: nat): (r: Result<seq<RankedRow>, TableError>)
    ensures r.Err? ==> t.headers == []
    ensures r.Ok? ==> forall i :: 0 <= i < |r.value| ==>
      r.value[i].rank == i + 1 && r.value[i].tableIndex == tableIndex
    ensures r.Ok? ==> IsSortedDesc(Unranked(r.value))
  {
    var kept := KeptRows(|t.headers|, DataRows(t.trs));
    if kept == [] then Ok([])
    else if t.headers == [] then Err(NoColumns)
    else Ok(RankEntries(SortDesc(TableEntries(t)), tableIndex))
  }

  /** `parse_and_rank_table` step by step: collect, select columns, coerce, sort, rank, tag. */
  method ParseAndRankTable(t: RawTable, tableIndex: nat) returns (r: Result<seq<RankedRow>, TableError>)
    ensures r == RankTable(t, tableIndex)
  {
    var rowsData := CollectRows(t.headers, t.trs);
    if rowsData == [] {
      return Ok([]);
    }
    if t.headers == [] {
      return Err(NoColumns);
    }
    var kept := KeptRows(|t.headers|, DataRows(t.trs));
    var cm := SelectColumns(Columns(t.headers));
    RecordsHaveColumns(t.headers, kept);
    var entries := seq(|rowsData|, k requires 0 <= k < |rowsData| => EntryOf(rowsData[k], cm));
    var sorted := SortDesc(entries);
    r := Ok(RankEntries(sorted, tableIndex));
  }

  /** A table fails exactly when it has no headers but has a row after the first. */
  lemma RankTableFails(t: RawTable, tableIndex: nat)
    ensures RankTable(t, tableIndex).Err? <==> t.headers == [] && |t.trs| > 1
  {
    if t.headers == [] {
      KeptRowsAll(DataRows(t.trs));
    }
  }

  /** A table with headers yields no rows exactly when every data row is too short. */
  lemma RankTableEmpty(t: RawTable, tableIndex: nat)
    requires t.headers != []
    ensures RankTable(t, tableIndex) == Ok([])
            <==> forall row :: row in DataRows(t.trs) ==> |row| < |t.headers|
  {
    var kept := KeptRows(|t.headers|, DataRows(t.trs));
    KeptRowsMembers(|t.headers|, DataRows(t.trs));
    if kept != [] {
      assert kept[0] in kept;
    }
  }

  /**
   * The ranked table: one row per kept row, a permutation of their coerced
   * values, ordered on (points, nrr, won) descending, ranked 1..n without gaps,
   * and every row tagged with the table's index.
   */
  lemma RankTableOutput(t: RawTable, tableIndex: nat)
    requires t.headers != [] || |t.trs| <= 1
    ensures RankTable(t, tableIndex).Ok?
    ensures var out := RankTable(t, tableIndex).value;
      && |out| == |KeptRows(|t.headers|, DataRows(t.trs))|
      && (forall i :: 0 <= i < |out| ==> out[i].rank == i + 1 && out[i].tableIndex == tableIndex)
      && IsSortedDesc(Unranked(out))
      && (t.headers != [] ==> multiset(Unranked(out)) == multiset(TableEntries(t)))
  {
    RankTableFails(t, tableIndex);
    var out := RankTable(t, tableIndex).value;
    if t.headers != [] && KeptRows(|t.headers|, DataRows(t.trs)) != [] {
      var sorted := SortDesc(TableEntries(t));
      assert Unranked(out) == sorted;
      assert |sorted| == |TableEntries(t)| by {
        assert |multiset(sorted)| == |multiset(TableEntries(t))|;
      }
    }
  }

  /**
   * An example of the ranking rules: (10, 0.5, 5), (15, -0.2, 3) and
   * (10, 1.0, 2) come out as the 15-point row, then the 10-point rows by nrr.
   */
  lemma SortDescExample()
    ensures var a := Entry("a", Some(10.0), Some(0.5), Some(5.0));
      var b := Entry("b", Some(15.0), Some(-0.2), Some(3.0));
      var c := Entry("c", Some(10.0), Some(1.0), Some(2.0));
      SortDesc([a, b, c]) == [b, c, a]
  {
    var a := Entry("a", Some(10.0), Some(0.5), Some(5.0));
    var b := Entry("b", Some(15.0), Some(-0.2), Some(3.0));
    var c := Entry("c", Some(10.0), Some(1.0), Some(2.0));
    assert [a, b, c][1..] == [b, c] && [b, c][1..] == [c] && [c][1..] == [];
    assert SortDesc([c]) == [c] by {
      assert Insert(c, []) == [c];
    }
    assert SortDesc([b, c]) == [b, c] by {
      assert RanksAtOrAbove(b, c);
    }
    assert Insert(a, [c]) == [c, a] by {
      assert !RanksAtOrAbove(a, c);
      assert Insert(a, []) == [a];
    }
    assert Insert(a, [b, c]) == [b, c, a] by {
      assert !RanksAtOrAbove(a, b);
    }
  }
}
