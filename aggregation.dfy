/**
 * The loop of `scrape_multiple_tables` (ranking_scrapper.py) that ranks every
 * table of the page, keeps the non-empty results and concatenates them in
 * document order. An exception from any table ends the whole scrape.
 */
module Aggregation {
  import opened Wrappers
  import opened Ranking

  type TableResult = Result<seq<RankedRow>, TableError>

  /** `parse_and_rank_table(table, idx)` for every `(idx, table)` of `enumerate(tables)`. */
  function TableResults(ts: seq<RawTable>): (rs: seq<TableResult>)
    ensures |rs| == |ts|
    ensures forall k :: 0 <= k < |ts| ==> rs[k] == RankTable(ts[k], k)
  {
    seq(|ts|, k requires 0 <= k < |ts| => RankTable(ts[k], k))
  }

  /**
   * `all_dfs` after the loop has seen the results rs: the non-empty ranked
   * tables in order, or the first error raised.
   */
  function Collect(rs: seq<TableResult>): (r: Result<seq<seq<RankedRow>>, TableError>)
    ensures r.Ok? ==> |r.value| <= |rs|
    ensures r.Ok? ==> forall k :: 0 <= k < |r.value| ==> r.value[k] != []
    ensures r.Ok? ==> forall k :: 0 <= k < |r.value| ==> Ok(r.value[k]) in rs
  {
    if rs == [] then Ok([])
    else
      match Collect(rs[..|rs| - 1])
      case Err(e) => Err(e)
      case Ok(parts) =>
        match rs[|rs| - 1]
        case Err(e) => Err(e)
        case Ok(rows) => Ok(if rows == [] then parts else parts + [rows])
  }

  /** `pd.concat(parts, ignore_index=True)`. */
  function Concat(parts: seq<seq<RankedRow>>): (rows: seq<RankedRow>)
    ensures forall row :: row in rows <==> exists k :: 0 <= k < |parts| && row in parts[k]
  {
    if parts == [] then [] else Concat(parts[..|parts| - 1]) + parts[|parts| - 1]
  }

  /** What `scrape_multiple_tables` returns for the page's tables, or the error it raises. */
  function Aggregate(ts: seq<RawTable>): (r: TableResult)
    ensures r.Ok? ==> forall row :: row in r.value ==>
      row.tableIndex < |ts| && RankTable(ts[row.tableIndex], row.tableIndex).Ok?
      && row in RankTable(ts[row.tableIndex], row.tableIndex).value
  {
    match Collect(TableResults(ts))
    case Err(e) => Err(e)
    case Ok(parts) =>
      RowsComeFromTheirTable(ts, parts);
      if parts == [] then Ok([]) else Ok(Concat(parts))
  }

  /** A row of the concatenated parts belongs to the ranked table its index names. */
  lemma RowsComeFromTheirTable(ts: seq<RawTable>, parts: seq<seq<RankedRow>>)
    requires forall k :: 0 <= k < |parts| ==> Ok(parts[k]) in TableResults(ts)
    ensures forall row :: row in Concat(parts) ==>
      row.tableIndex < |ts| && RankTable(ts[row.tableIndex], row.tableIndex).Ok?
      && row in RankTable(ts[row.tableIndex], row.tableIndex).value
  {
    var rs := TableResults(ts);
    forall row | row in Concat(parts)
      ensures row.tableIndex < |ts| && RankTable(ts[row.tableIndex], row.tableIndex).Ok?
              && row in RankTable(ts[row.tableIndex], row.tableIndex).value
    {
      var k :| 0 <= k < |parts| && row in parts[k];
      assert Ok(parts[k]) in rs;
      var j :| 0 <= j < |rs| && rs[j] == Ok(parts[k]);
      var out := RankTable(ts[j], j);
      var i :| 0 <= i < |out.value| && out.value[i] == row;
      assert row.tableIndex == j;
    }
  }

  lemma {:induction false} CollectErrPersists(rs: seq<TableResult>, i: nat)
    requires i <= |rs|
    requires Collect(rs[..i]).Err?
    ensures Collect(rs) == Collect(rs[..i])
  {
    if i < |rs| {
      assert rs[..|rs| - 1][..i] == rs[..i];
      CollectErrPersists(rs[..|rs| - 1], i);
    } else {
      assert rs[..i] == rs;
    }
  }

  /** The loop of ranking_scrapper.py, lines 104 to 115. */
  method ScrapeTables(tables: seq<RawTable>) returns (r: TableResult)
    ensures r == Aggregate(tables)
  {
    ghost var results := TableResults(tables);
    var allDfs: seq<seq<RankedRow>> := [];
    for idx := 0 to |tables|
      invariant Collect(results[..idx]) == Ok(allDfs)
    {
      assert results[..idx + 1][..idx] == results[..idx];
      var dfTable := ParseAndRankTable(tables[idx], idx);
      if dfTable.Err? {
        assert results[idx] == dfTable;
        assert Collect(results[..idx + 1]).Err?;
        CollectErrPersists(results, idx + 1);
        return Err(dfTable.error);
      }
      if dfTable.value != [] {
        allDfs := allDfs + [dfTable.value];
      }
    }
    assert results[..|tables|] == results;
    if allDfs == [] {
      return Ok([]);
    }
    r := Ok(Concat(allDfs));
  }

  // ---------------------------------------------------------------------------
  // Properties of the concatenation, for any sequence of per-table results
  // ---------------------------------------------------------------------------

  ghost predicate AllOk(rs: seq<TableResult>)
  {
    forall k :: 0 <= k < |rs| ==> rs[k].Ok?
  }

  /** The rows of each result, empty ones included. */
  ghost function Values(rs: seq<TableResult>): (vs: seq<seq<RankedRow>>)
    requires AllOk(rs)
    ensures |vs| == |rs|
  {
    seq(|rs|, k requires 0 <= k < |rs| && AllOk(rs) => rs[k].value)
  }

  function TotalLength(parts: seq<seq<RankedRow>>): nat
  {
    if parts == [] then 0 else TotalLength(parts[..|parts| - 1]) + |parts[|parts| - 1]|
  }

  lemma {:induction false} CollectFails(rs: seq<TableResult>)
    ensures Collect(rs).Err? <==> !AllOk(rs)
  {
    if rs != [] {
      var init := rs[..|rs| - 1];
      CollectFails(init);
      assert AllOk(rs) <==> AllOk(init) && rs[|rs| - 1].Ok?;
    }
  }

  lemma {:induction false} ConcatAppend(parts: seq<seq<RankedRow>>, rows: seq<RankedRow>)
    ensures Concat(parts + [rows]) == Concat(parts) + rows
  {
    assert (parts + [rows])[..|parts|] == parts;
  }

  lemma {:induction false} CollectConcat(rs: seq<TableResult>)
    requires AllOk(rs)
    ensures Collect(rs).Ok? && Concat(Collect(rs).value) == Concat(Values(rs))
  {
    if rs != [] {
      var n := |rs| - 1;
      var init := rs[..n];
      CollectConcat(init);
      var rows := rs[n].value;
      assert Values(rs) == Values(init) + [rows];
      ConcatAppend(Values(init), rows);
      if rows != [] {
        ConcatAppend(Collect(init).value, rows);
      }
    }
  }

  lemma {:induction false} ConcatLength(parts: seq<seq<RankedRow>>)
    ensures |Concat(parts)| == TotalLength(parts)
  {
    if parts != [] {
      ConcatLength(parts[..|parts| - 1]);
    }
  }

  lemma {:induction false} ConcatEmpty(parts: seq<seq<RankedRow>>)
    ensures Concat(parts) == [] <==> forall k :: 0 <= k < |parts| ==> parts[k] == []
  {
    if parts != [] {
      var init := parts[..|parts| - 1];
      ConcatEmpty(init);
      if Concat(parts) == [] {
        assert forall k :: 0 <= k < |init| ==> parts[k] == init[k];
      }
    }
  }

  /** Every row of part k carries table index k. */
  ghost predicate TaggedByPosition(parts: seq<seq<RankedRow>>)
  {
    forall k, i :: 0 <= k < |parts| && 0 <= i < |parts[k]| ==> parts[k][i].tableIndex == k
  }

  lemma {:induction false} ConcatTableOrder(parts: seq<seq<RankedRow>>)
    requires TaggedByPosition(parts)
    ensures forall i :: 0 <= i < |Concat(parts)| ==> Concat(parts)[i].tableIndex < |parts|
    ensures forall i, j :: 0 <= i < j < |Concat(parts)| ==>
      Concat(parts)[i].tableIndex <= Concat(parts)[j].tableIndex
  {
    if parts != [] {
      var n := |parts| - 1;
      var init := parts[..n];
      assert TaggedByPosition(init) by {
        forall k, i | 0 <= k < |init| && 0 <= i < |init[k]|
          ensures init[k][i].tableIndex == k
        {
          assert init[k] == parts[k];
        }
      }
      ConcatTableOrder(init);
      var before := Concat(init);
      var out := before + parts[n];
      assert Concat(parts) == out;
      forall i | 0 <= i < |out|
        ensures i < |before| ==> out[i] == before[i] && out[i].tableIndex < n
        ensures i >= |before| ==> out[i].tableIndex == n
      {
        if i >= |before| {
          assert out[i] == parts[n][i - |before|];
        } else {
          assert before[i].tableIndex < |init|;
        }
      }
      forall i, j | 0 <= i < j < |out|
        ensures out[i].tableIndex <= out[j].tableIndex
      {
        if j < |before| {
          assert before[i].tableIndex <= before[j].tableIndex;
        }
      }
    }
  }

  // ---------------------------------------------------------------------------
  // Properties of the scrape
  // ---------------------------------------------------------------------------

  /** Every table parses: none raises. */
  ghost predicate AllTablesParse(ts: seq<RawTable>)
  {
    AllOk(TableResults(ts))
  }

  /** The scrape fails exactly when some table raises. */
  lemma AggregateFails(ts: seq<RawTable>)
    ensures Aggregate(ts).Err? <==> exists k :: 0 <= k < |ts| && RankTable(ts[k], k).Err?
  {
    var rs := TableResults(ts);
    CollectFails(rs);
    assert Aggregate(ts).Err? <==> Collect(rs).Err?;
    assert forall k :: 0 <= k < |ts| ==> rs[k] == RankTable(ts[k], k);
  }

  /**
   * When every table parses, the output is all per-table results concatenated
   * in table order; the tables that yield nothing add nothing.
   */
  lemma AggregateIsConcat(ts: seq<RawTable>)
    requires AllTablesParse(ts)
    ensures Aggregate(ts) == Ok(Concat(Values(TableResults(ts))))
  {
    var rs := TableResults(ts);
    CollectConcat(rs);
    if Collect(rs).value == [] {
      assert Concat(Collect(rs).value) == [];
    }
  }

  /** The output holds as many rows as the tables yield together. */
  lemma AggregateLength(ts: seq<RawTable>)
    requires AllTablesParse(ts)
    ensures Aggregate(ts).Ok?
    ensures |Aggregate(ts).value| == TotalLength(Values(TableResults(ts)))
  {
    AggregateIsConcat(ts);
    ConcatLength(Values(TableResults(ts)));
  }

  /** The output is empty exactly when every table yields no rows. */
  lemma AggregateEmpty(ts: seq<RawTable>)
    requires AllTablesParse(ts)
    ensures Aggregate(ts) == Ok([]) <==> forall k :: 0 <= k < |ts| ==> RankTable(ts[k], k) == Ok([])
  {
    var rs := TableResults(ts);
    var parts: seq<seq<RankedRow>> := Values(rs);
    AggregateIsConcat(ts);
    ConcatEmpty(parts);
    forall k | 0 <= k < |ts|
      ensures RankTable(ts[k], k) == Ok([]) <==> parts[k] == []
    {
      assert rs[k] == RankTable(ts[k], k);
    }
  }

  /**
   * Rows of earlier tables come before rows of later ones: `table_index` never
   * decreases along the output, and every index names one of the tables.
   */
  lemma AggregateTableOrder(ts: seq<RawTable>)
    requires AllTablesParse(ts)
    ensures Aggregate(ts).Ok?
    ensures var out := Aggregate(ts).value;
      && (forall i :: 0 <= i < |out| ==> out[i].tableIndex < |ts|)
      && (forall i, j :: 0 <= i < j < |out| ==> out[i].tableIndex <= out[j].tableIndex)
  {
    var rs := TableResults(ts);
    var parts: seq<seq<RankedRow>> := Values(rs);
    AggregateIsConcat(ts);
    forall k | 0 <= k < |ts|
      ensures forall i :: 0 <= i < |parts[k]| ==> parts[k][i].tableIndex == k
    {
      assert rs[k] == RankTable(ts[k], k);
      RankTableFails(ts[k], k);
      RankTableOutput(ts[k], k);
    }
    ConcatTableOrder(parts);
  }
}
