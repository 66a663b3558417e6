/**
 * df_titles: the champions table sorted by year, with each winner's running
 * number of titles, reduced to Stagione, Anno, Vincitore, Titoli and put
 * back in normal form.
 */
module TitlesTable {
  import opened Wrappers
  import opened Frames
  import Normalizer

  const Titoli := "Titoli"

  const TitlesColumns: seq<string> := [Stagione, Anno, Vincitore, Titoli]

  // ---------------------------------------------------------------------
  // sort("Anno")

  /** Missing years first, then integers; text years (never present after normalisation) last. */
  function Rank(v: Value): nat
  {
    match v
    case Null => 0
    case Int(_) => 1
    case Str(_) => 2
  }

  /** The integer a year sorts by within its rank. */
  function Num(v: Value): int
  {
    if v.Int? then v.n else 0
  }

  /** The ascending order of the year column. */
  predicate YearLe(a: Value, b: Value)
  {
    Rank(a) < Rank(b) || (Rank(a) == Rank(b) && Num(a) <= Num(b))
  }

  predicate SortedByYear(rows: seq<Row>)
  {
    forall i, j :: 0 <= i < j < |rows| ==> YearLe(Cell(rows[i], Anno), Cell(rows[j], Anno))
  }

  lemma SortedCons(x: Row, rows: seq<Row>)
    requires SortedByYear(rows)
    requires forall k :: 0 <= k < |rows| ==> YearLe(Cell(x, Anno), Cell(rows[k], Anno))
    ensures SortedByYear([x] + rows)
  {
    var r := [x] + rows;
    forall i, j | 0 <= i < j < |r|
      ensures YearLe(Cell(r[i], Anno), Cell(r[j], Anno))
    {
      if i > 0 {
        assert r[i] == rows[i - 1] && r[j] == rows[j - 1];
      } else {
        assert r[j] == rows[j - 1];
      }
    }
  }

  function Insert(row: Row, rows: seq<Row>): (r: seq<Row>)
    requires SortedByYear(rows)
    ensures SortedByYear(r)
    ensures multiset(r) == multiset(rows) + multiset{row}
    ensures forall x :: x in r ==> x == row || x in rows
  {
    if rows == [] then [row]
    else if YearLe(Cell(row, Anno), Cell(rows[0], Anno)) then
      assert forall k :: 0 <= k < |rows| ==> YearLe(Cell(row, Anno), Cell(rows[k], Anno));
      SortedCons(row, rows);
      [row] + rows
    else
      assert rows == [rows[0]] + rows[1..];
      var rest := Insert(row, rows[1..]);
      assert forall k :: 0 <= k < |rest| ==> YearLe(Cell(rows[0], Anno), Cell(rest[k], Anno)) by {
        forall k | 0 <= k < |rest|
          ensures YearLe(Cell(rows[0], Anno), Cell(rest[k], Anno))
        {
          var x := rest[k];
          assert x in rest;
          if x != row {
            var m :| 0 <= m < |rows[1..]| && rows[1..][m] == x;
            assert rows[m + 1] == x;
          }
        }
      }
      SortedCons(rows[0], rest);
      [rows[0]] + rest
  }

  /** `sort("Anno")`: the rows ordered by year, as a permutation of the input. */
  function SortByYear(rows: seq<Row>): (r: seq<Row>)
    ensures SortedByYear(r)
    ensures multiset(r) == multiset(rows)
  {
    if rows == [] then []
    else
      assert rows == [rows[0]] + rows[1..];
      Insert(rows[0], SortByYear(rows[1..]))
  }

  // ---------------------------------------------------------------------
  // (pl.arange(0, pl.count()).over("Vincitore") + 1)

  function Get(seen: map<Value, nat>, w: Value): nat
  {
    if w in seen then seen[w] else 0
  }

  /** One pass down the column keeping a tally per winner: each entry gets its winner's tally after it. */
  function CountFrom(ws: seq<Value>, seen: map<Value, nat>): (r: seq<int>)
    ensures |r| == |ws|
  {
    if ws == [] then []
    else
      var n := Get(seen, ws[0]) + 1;
      [n] + CountFrom(ws[1..], seen[ws[0] := n])
  }

  /** The Titoli column computed from the Vincitore column. */
  function RunningCounts(ws: seq<Value>): (r: seq<int>)
    ensures |r| == |ws|
  {
    CountFrom(ws, map[])
  }

  lemma {:induction false} CountFromTally(ws: seq<Value>, seen: map<Value, nat>, i: int)
    requires 0 <= i < |ws|
    ensures CountFrom(ws, seen)[i] == Get(seen, ws[i]) + Count(ws[..i], ws[i]) + 1
    decreases |ws|
  {
    if i > 0 {
      CountFromTally(ws[1..], seen[ws[0] := Get(seen, ws[0]) + 1], i - 1);
      assert ws[1..][i - 1] == ws[i];
      assert ws[..i][1..] == ws[1..][..i - 1];
    }
  }

  /** A row's running count is one more than the number of earlier rows with the same winner. */
  lemma RunningCountIsTally(ws: seq<Value>, i: int)
    requires 0 <= i < |ws|
    ensures RunningCounts(ws)[i] == Count(ws[..i], ws[i]) + 1
  {
    CountFromTally(ws, map[], i);
  }

  /** A winner's first row has running count 1. */
  lemma FirstTitleIsOne(ws: seq<Value>, i: int)
    requires 0 <= i < |ws| && ws[i] !in ws[..i]
    ensures RunningCounts(ws)[i] == 1
  {
    RunningCountIsTally(ws, i);
    CountNone(ws[..i], ws[i]);
  }

  /** Each later row of a winner has the running count of that winner's previous row plus one. */
  lemma NextTitleAddsOne(ws: seq<Value>, j: int, i: int)
    requires 0 <= j < i < |ws| && ws[j] == ws[i] && ws[i] !in ws[j + 1..i]
    ensures RunningCounts(ws)[i] == RunningCounts(ws)[j] + 1
  {
    var w := ws[i];
    RunningCountIsTally(ws, j);
    RunningCountIsTally(ws, i);
    assert ws[..i] == ws[..j] + ([ws[j]] + ws[j + 1..i]);
    CountAppend(ws[..j], [ws[j]] + ws[j + 1..i], w);
    CountAppend([ws[j]], ws[j + 1..i], w);
    CountNone(ws[j + 1..i], w);
    assert [ws[j]][1..] == [];
  }

  /** Within one winner's group the running count strictly increases down the table. */
  lemma RunningCountIncreases(ws: seq<Value>, j: int, i: int)
    requires 0 <= j < i < |ws| && ws[j] == ws[i]
    ensures RunningCounts(ws)[j] < RunningCounts(ws)[i]
  {
    RunningCountIsTally(ws, j);
    RunningCountIsTally(ws, i);
    assert ws[..i] == ws[..j] + ws[j..i];
    CountAppend(ws[..j], ws[j..i], ws[i]);
  }

  /** A winner's last row carries the winner's total number of titles. */
  lemma LastRunningCountIsTotal(ws: seq<Value>, i: int)
    requires 0 <= i < |ws| && ws[i] !in ws[i + 1..]
    ensures RunningCounts(ws)[i] == Count(ws, ws[i])
  {
    RunningCountIsTally(ws, i);
    CountAround(ws, i);
    CountNone(ws[i + 1..], ws[i]);
  }

  /** The winner column of a row followed by rows. */
  lemma WinnersCons(x: Row, rows: seq<Row>, w: Value)
    ensures Count(Column([x] + rows, Vincitore), w) ==
            (if Cell(x, Vincitore) == w then 1 else 0) + Count(Column(rows, Vincitore), w)
  {
    assert Column([x] + rows, Vincitore)[1..] == Column(rows, Vincitore);
  }

  lemma {:induction false} CountInsert(row: Row, rows: seq<Row>, w: Value)
    requires SortedByYear(rows)
    ensures Count(Column(Insert(row, rows), Vincitore), w) ==
            Count(Column(rows, Vincitore), w) + (if Cell(row, Vincitore) == w then 1 else 0)
    decreases |rows|
  {
    if rows == [] {
      WinnersCons(row, [], w);
    } else if YearLe(Cell(row, Anno), Cell(rows[0], Anno)) {
      WinnersCons(row, rows, w);
    } else {
      CountInsert(row, rows[1..], w);
      assert Insert(row, rows) == [rows[0]] + Insert(row, rows[1..]);
      WinnersCons(rows[0], Insert(row, rows[1..]), w);
      WinnersCons(rows[0], rows[1..], w);
      assert [rows[0]] + rows[1..] == rows;
    }
  }

  /** Sorting keeps the number of titles of every winner. */
  lemma {:induction false} CountSort(rows: seq<Row>, w: Value)
    ensures Count(Column(SortByYear(rows), Vincitore), w) == Count(Column(rows, Vincitore), w)
    decreases |rows|
  {
    if rows != [] {
      CountSort(rows[1..], w);
      CountInsert(rows[0], SortByYear(rows[1..]), w);
      WinnersCons(rows[0], rows[1..], w);
      assert [rows[0]] + rows[1..] == rows;
    }
  }

  // ---------------------------------------------------------------------
  // The pipeline

  function WithTitles(rows: seq<Row>): (r: seq<Row>)
    ensures |r| == |rows|
    ensures forall i :: 0 <= i < |rows| ==> r[i] == rows[i][Titoli := Int(RunningCounts(Column(rows, Vincitore))[i])]
  {
    var counts := RunningCounts(Column(rows, Vincitore));
    seq(|rows|, i requires 0 <= i < |rows| => rows[i][Titoli := Int(counts[i])])
  }

  lemma TitlesOthers()
    ensures Normalizer.Others(TitlesColumns) == [Vincitore, Titoli]
    ensures [Stagione] + Normalizer.Others(TitlesColumns) + [Anno] == [Stagione, Vincitore, Titoli, Anno]
  {
    var sa: seq<string> := [Stagione, Anno];
    var vt: seq<string> := [Vincitore, Titoli];
    assert TitlesColumns == sa + vt;
    Normalizer.OthersAppend(sa, vt);
    Normalizer.OthersWithout(vt);
    assert sa[..1] == [Stagione];
    assert Normalizer.Others([Stagione]) == [] by {
      assert [Stagione][..0] == [];
    }
    assert Normalizer.Others(sa) == [];
    assert [Stagione] + vt + [Anno] == [Stagione, Vincitore, Titoli, Anno];
  }

  /**
   * df_titles from df_principale: sort by Anno, number each winner's titles,
   * keep Stagione, Anno, Vincitore, Titoli, and normalise again.
   */
  function DfTitles(principale: Table): (r: Outcome<Table>)
    ensures Anno !in principale.columns ==> r == Err(ColumnNotFound(Anno))
    ensures Anno in principale.columns && Vincitore !in principale.columns ==> r == Err(ColumnNotFound(Vincitore))
    ensures Anno in principale.columns && Vincitore in principale.columns && Stagione !in principale.columns ==>
              r == Err(ColumnNotFound(Stagione))
    ensures r.Ok? <==> && Anno in principale.columns && Vincitore in principale.columns
                       && Stagione in principale.columns && YearsCast(principale.rows)
    ensures r.Err? && Anno in principale.columns && Vincitore in principale.columns && Stagione in principale.columns ==>
              r == Err(CastFailed(Anno))
    ensures r.Ok? ==> r.value.columns == [Stagione, Vincitore, Titoli, Anno]
    ensures r.Ok? ==> |r.value.rows| == |principale.rows|
  {
    if Anno !in principale.columns then Err(ColumnNotFound(Anno))
    else if Vincitore !in principale.columns then Err(ColumnNotFound(Vincitore))
    else
      var selected :- CountedTitles(principale);
      TitlesOthers();
      TitlesYearsCast(principale);
      Normalizer.Normalized(selected)
  }

  /** Every year cell of the rows passes the strict Int64 cast. */
  predicate YearsCast(rows: seq<Row>)
  {
    forall k :: 0 <= k < |rows| ==> Normalizer.CastInt64(Cell(rows[k], Anno)).Ok?
  }

  /** The rows sorted by year and numbered, under the columns df_titles keeps, before the second normalisation. */
  function CountedTitles(principale: Table): (r: Outcome<Table>)
    requires Anno in principale.columns && Vincitore in principale.columns
    ensures r.Ok? <==> Stagione in principale.columns
    ensures r.Err? ==> r.error == ColumnNotFound(Stagione)
    ensures r.Ok? ==> r.value == Table(TitlesColumns, WithTitles(SortByYear(principale.rows)))
    ensures r.Ok? ==> |r.value.rows| == |principale.rows|
  {
    var sorted := SortByYear(principale.rows);
    assert |sorted| == |multiset(sorted)| == |multiset(principale.rows)| == |principale.rows|;
    var cols := if Titoli in principale.columns then principale.columns else principale.columns + [Titoli];
    Select(Table(cols, WithTitles(sorted)), TitlesColumns)
  }

  /** A permutation of rows whose years all cast has years that all cast. */
  lemma YearsCastPermuted(a: seq<Row>, b: seq<Row>)
    requires multiset(a) == multiset(b) && YearsCast(a)
    ensures YearsCast(b)
  {
    forall k | 0 <= k < |b|
      ensures Normalizer.CastInt64(Cell(b[k], Anno)).Ok?
    {
      assert b[k] in multiset(a);
      var j :| 0 <= j < |a| && a[j] == b[k];
    }
  }

  /** The second normalisation of df_titles succeeds exactly when every year of df_principale casts. */
  lemma TitlesYearsCast(principale: Table)
    requires Anno in principale.columns && Vincitore in principale.columns && Stagione in principale.columns
    ensures var selected := CountedTitles(principale).value;
            && (Normalizer.Normalized(selected).Ok? <==> YearsCast(principale.rows))
            && (Normalizer.Normalized(selected).Err? ==> Normalizer.Normalized(selected) == Err(CastFailed(Anno)))
  {
    var sorted := SortByYear(principale.rows);
    var selected := CountedTitles(principale).value;
    assert Anno in selected.columns && Stagione in selected.columns;
    forall k | 0 <= k < |sorted|
      ensures Normalizer.RowYear(selected.rows[k], true, true) == Normalizer.CastInt64(Cell(sorted[k], Anno))
    {
      assert selected.rows[k] == sorted[k][Titoli := selected.rows[k][Titoli]];
    }
    if YearsCast(principale.rows) {
      YearsCastPermuted(principale.rows, sorted);
      assert !exists i | 0 <= i < |selected.rows| :: Normalizer.RowYear(selected.rows[i], true, true).Err?;
    } else if YearsCast(sorted) {
      YearsCastPermuted(sorted, principale.rows);
    } else {
      var k :| 0 <= k < |sorted| && !Normalizer.CastInt64(Cell(sorted[k], Anno)).Ok?;
      Normalizer.NormalizedFails(selected, k);
    }
  }

  /** Normalising the counted rows keeps the winner, year and Titoli columns. */
  lemma NormalizedTitles(sorted: seq<Row>, selected: Table)
    requires selected == Table(TitlesColumns, WithTitles(sorted))
    requires forall k :: 0 <= k < |sorted| ==> !Cell(sorted[k], Anno).Str?
    requires Normalizer.Normalized(selected).Ok?
    ensures var t := Normalizer.Normalized(selected).value.rows;
            && Column(t, Vincitore) == Column(sorted, Vincitore)
            && Column(t, Anno) == Column(sorted, Anno)
            && forall k :: 0 <= k < |t| ==> Cell(t[k], Titoli) == Int(RunningCounts(Column(t, Vincitore))[k])
  {
    var t := Normalizer.Normalized(selected).value.rows;
    var counts := RunningCounts(Column(sorted, Vincitore));
    forall k | 0 <= k < |t|
      ensures Cell(t[k], Vincitore) == Cell(sorted[k], Vincitore)
      ensures Cell(t[k], Titoli) == Int(counts[k])
      ensures Cell(t[k], Anno) == Cell(sorted[k], Anno)
    {
      assert selected.rows[k] == sorted[k][Titoli := Int(counts[k])];
      Normalizer.KeepsYears(selected, k);
    }
    assert Column(t, Vincitore) == Column(sorted, Vincitore);
    assert Column(t, Anno) == Column(sorted, Anno);
  }

  /** The cells of df_titles that matter, against the sorted input. */
  lemma TitlesCells(principale: Table) returns (t: seq<Row>)
    requires DfTitles(principale).Ok?
    requires forall k :: 0 <= k < |principale.rows| ==> !Cell(principale.rows[k], Anno).Str?
    ensures t == DfTitles(principale).value.rows
    ensures var sorted := SortByYear(principale.rows);
            && Column(t, Vincitore) == Column(sorted, Vincitore)
            && Column(t, Anno) == Column(sorted, Anno)
            && forall k :: 0 <= k < |t| ==> Cell(t[k], Titoli) == Int(RunningCounts(Column(t, Vincitore))[k])
  {
    var sorted := SortByYear(principale.rows);
    forall k | 0 <= k < |sorted|
      ensures !Cell(sorted[k], Anno).Str?
    {
      assert sorted[k] in multiset(principale.rows);
    }
    var selected := Table(TitlesColumns, WithTitles(sorted));
    assert CountedTitles(principale) == Ok(selected);
    assert DfTitles(principale) == Normalizer.Normalized(selected);
    NormalizedTitles(sorted, selected);
    t := DfTitles(principale).value.rows;
  }

  /** Rows with the same year column as sorted rows are sorted. */
  lemma SortedByYearColumn(sorted: seq<Row>, t: seq<Row>)
    requires SortedByYear(sorted) && Column(t, Anno) == Column(sorted, Anno)
    ensures SortedByYear(t)
  {
    forall i, j | 0 <= i < j < |t|
      ensures YearLe(Cell(t[i], Anno), Cell(t[j], Anno))
    {
      assert Column(t, Anno)[i] == Column(sorted, Anno)[i];
      assert Column(t, Anno)[j] == Column(sorted, Anno)[j];
    }
  }

  /** A Titoli column holding the running counts of the winner column holds the tallies. */
  lemma TitoliAreTallies(t: seq<Row>)
    requires forall k :: 0 <= k < |t| ==> Cell(t[k], Titoli) == Int(RunningCounts(Column(t, Vincitore))[k])
    ensures var ws := Column(t, Vincitore);
            forall i :: 0 <= i < |t| ==> Cell(t[i], Titoli) == Int(Count(ws[..i], ws[i]) + 1)
  {
    var ws := Column(t, Vincitore);
    forall i | 0 <= i < |t|
      ensures Cell(t[i], Titoli) == Int(Count(ws[..i], ws[i]) + 1)
    {
      RunningCountIsTally(ws, i);
    }
  }

  /**
   * `t` is a titles table for `rows`: row by row it has the year and the
   * winner of a permutation of `rows`, it is in year order, every winner
   * appears exactly as often as in `rows`, and each row's Titoli is one more
   * than the number of earlier rows with the same winner.
   */
  ghost predicate TitlesOf(rows: seq<Row>, t: seq<Row>)
  {
    var ws := Column(t, Vincitore);
    && (exists p :: Reorders(rows, p, t))
    && SortedByYear(t)
    && (forall w :: Count(ws, w) == Count(Column(rows, Vincitore), w))
    && (forall i :: 0 <= i < |t| ==> Cell(t[i], Titoli) == Int(Count(ws[..i], ws[i]) + 1))
  }

  /** `t` pairs years and winners as the permutation `p` of `rows` does, row by row. */
  ghost predicate Reorders(rows: seq<Row>, p: seq<Row>, t: seq<Row>)
  {
    && multiset(p) == multiset(rows)
    && Column(t, Vincitore) == Column(p, Vincitore)
    && Column(t, Anno) == Column(p, Anno)
  }

  /** Year order, winner counts and tallies carry over from the sorted rows to rows with the same cells. */
  lemma CarriedOver(rows: seq<Row>, t: seq<Row>)
    requires Column(t, Vincitore) == Column(SortByYear(rows), Vincitore)
    requires Column(t, Anno) == Column(SortByYear(rows), Anno)
    requires forall k :: 0 <= k < |t| ==> Cell(t[k], Titoli) == Int(RunningCounts(Column(t, Vincitore))[k])
    ensures TitlesOf(rows, t)
  {
    SortedByYearColumn(SortByYear(rows), t);
    TitoliAreTallies(t);
    assert Reorders(rows, SortByYear(rows), t);
    forall w
      ensures Count(Column(t, Vincitore), w) == Count(Column(rows, Vincitore), w)
    {
      CountSort(rows, w);
    }
  }

  /** What df_titles holds: a titles table for the rows of df_principale. */
  lemma TitlesAreRunningCounts(principale: Table)
    requires DfTitles(principale).Ok?
    requires forall k :: 0 <= k < |principale.rows| ==> !Cell(principale.rows[k], Anno).Str?
    ensures TitlesOf(principale.rows, DfTitles(principale).value.rows)
  {
    var t := TitlesCells(principale);
    CarriedOver(principale.rows, t);
  }
}
