/**
 * estrai_record and formatta_record: the superlative extraction.  A table,
 * a label, a metric column, a direction and an optional row filter give a
 * frame of at most one record row with the columns Record, Squadra,
 * Stagione, Valore.
 */
module RecordExtractor {
  import opened Wrappers
  import opened Decimal
  import opened Frames

  /** The columns of a record frame, in the order formatta_record fixes. */
  const RecordColumns: seq<string> := [Record, Squadra, Stagione, Valore]

  /** `pl.col(column) != value`, the only filter the catalogue uses. */
  datatype Filter = NotEqual(column: string, value: int)

  /** A row passes when its cell is an integer other than the value; a missing cell drops the row. */
  predicate Passes(f: Filter, row: Row)
  {
    Cell(row, f.column).Int? && Cell(row, f.column).n != f.value
  }

  /** `a` is `b` with some entries removed and the rest in their order. */
  predicate IsSubsequence<T(==)>(a: seq<T>, b: seq<T>)
    decreases |b|
  {
    if a == [] then true
    else if b == [] then false
    else (a[0] == b[0] && IsSubsequence(a[1..], b[1..])) || IsSubsequence(a, b[1..])
  }

  /**
   * `filter` over the rows: every row that passes, as often as it occurs,
   * in its original order, and no other row; comparing a text cell with an
   * integer fails.
   */
  function FilterRows(f: Filter, rows: seq<Row>): (r: Outcome<seq<Row>>)
    ensures r.Ok? <==> forall i :: 0 <= i < |rows| ==> !Cell(rows[i], f.column).Str?
    ensures r.Err? ==> r.error == CastFailed(f.column)
    ensures r.Ok? ==> |r.value| <= |rows|
    ensures r.Ok? ==> forall x :: x in r.value <==> x in rows && Passes(f, x)
    ensures r.Ok? ==> forall x :: multiset(r.value)[x] == if Passes(f, x) then multiset(rows)[x] else 0
    ensures r.Ok? ==> IsSubsequence(r.value, rows)
  {
    if rows == [] then Ok([])
    else if Cell(rows[0], f.column).Str? then Err(CastFailed(f.column))
    else
      var rest :- FilterRows(f, rows[1..]);
      assert forall i :: 1 <= i < |rows| ==> rows[i] == rows[1..][i - 1];
      assert forall x :: x in rows <==> x == rows[0] || x in rows[1..];
      assert rows == [rows[0]] + rows[1..];
      assert multiset(rows) == multiset{rows[0]} + multiset(rows[1..]);
      if Passes(f, rows[0]) then
        assert ([rows[0]] + rest)[1..] == rest;
        Ok([rows[0]] + rest)
      else
        Ok(rest)
  }

  /** The optional filter of estrai_record; a filter on an absent column fails. */
  function ApplyFilter(t: Table, filtro: Option<Filter>): Outcome<seq<Row>>
  {
    match filtro
    case None => Ok(t.rows)
    case Some(f) => if f.column !in t.columns then Err(ColumnNotFound(f.column)) else FilterRows(f, t.rows)
  }

  /**
   * Column auto-detection: the explicitly passed name when there is one,
   * else the first candidate present, else the second, else none.
   */
  function DetectColumn(cols: seq<string>, given: Option<string>, first: string, second: string): (c: Option<string>)
    ensures given.Some? ==> c == given
    ensures given.None? ==> (c.Some? <==> first in cols || second in cols)
    ensures given.None? && first in cols ==> c == Some(first)
    ensures given.None? && first !in cols && second in cols ==> c == Some(second)
  {
    if given.Some? then given
    else if first in cols then Some(first)
    else if second in cols then Some(second)
    else None
  }

  /** Polars' sort order: a missing value first, then by value in the requested direction. */
  predicate SortsBefore(a: Value, b: Value, desc: bool)
  {
    (a.Null? && b.Int?) || (a.Int? && b.Int? && (if desc then a.n > b.n else a.n < b.n))
  }

  /**
   * The row a sort by `metric` puts first: no row sorts strictly before it.
   * Among equal rows this picks the earliest; polars may pick any of them.
   */
  function BestIndex(rows: seq<Row>, metric: string, desc: bool): (k: nat)
    requires |rows| > 0
    ensures k < |rows|
    ensures forall j :: 0 <= j < |rows| ==> !SortsBefore(Cell(rows[j], metric), Cell(rows[k], metric), desc)
    decreases |rows|
  {
    if |rows| == 1 then 0
    else
      var k := BestIndex(rows[..|rows| - 1], metric, desc);
      if SortsBefore(Cell(rows[|rows| - 1], metric), Cell(rows[k], metric), desc) then |rows| - 1 else k
  }

  /** One row of a record frame. */
  function RecordRow(name: Value, team: Value, season: Value, value: Value): (r: Row)
    ensures Cell(r, Record) == name && Cell(r, Squadra) == team
    ensures Cell(r, Stagione) == season && Cell(r, Valore) == value
  {
    map[Record := name, Squadra := team, Stagione := season, Valore := value]
  }

  /**
   * `out` is the record of row `i` of `q` under the given label and columns,
   * and no row of `q` sorts strictly before row `i` by the metric.
   */
  predicate IsRecordOf(out: Row, recordNome: string, q: seq<Row>, i: int,
                       team: string, season: string, colValore: string, desc: bool)
    requires 0 <= i < |q|
  {
    && out == RecordRow(Str(recordNome), CastText(Cell(q[i], team)), CastText(Cell(q[i], season)), Cell(q[i], colValore))
    && forall j :: 0 <= j < |q| ==> !SortsBefore(Cell(q[j], colValore), Cell(q[i], colValore), desc)
  }

  /**
   * estrai_record: detect the team and season columns, filter, sort by the
   * metric, keep the first row reshaped as a record, cast to text (team,
   * season) and float (value).  An empty filtered table gives an empty
   * frame, not an error.
   */
  function EstraiRecord(df: Table, recordNome: string, colValore: string, desc: bool,
                        filtro: Option<Filter>, squadCol: Option<string>, stagioneCol: Option<string>): (r: Outcome<Table>)
    ensures DetectColumn(df.columns, squadCol, Squadra, Vincitore).None? ==> r == Err(TeamOrSeasonUndetermined)
    ensures DetectColumn(df.columns, stagioneCol, Stagione, Anno).None? ==> r == Err(TeamOrSeasonUndetermined)
    ensures var team := DetectColumn(df.columns, squadCol, Squadra, Vincitore);
            var season := DetectColumn(df.columns, stagioneCol, Stagione, Anno);
            var q := ApplyFilter(df, filtro);
            && (team.Some? && season.Some? && q.Err? ==> r == Err(q.error))
            && (team.Some? && season.Some? && q.Ok? && colValore !in df.columns ==> r == Err(ColumnNotFound(colValore)))
            && (r.Ok? <==> && team.Some? && season.Some? && q.Ok?
                           && colValore in df.columns && team.value in df.columns && season.value in df.columns
                           && forall i :: 0 <= i < |q.value| ==> !Cell(q.value[i], colValore).Str?)
    ensures r.Ok? ==> r.value.columns == RecordColumns && ApplyFilter(df, filtro).Ok?
    ensures r.Ok? ==> var q := ApplyFilter(df, filtro).value;
              var team := DetectColumn(df.columns, squadCol, Squadra, Vincitore).value;
              var season := DetectColumn(df.columns, stagioneCol, Stagione, Anno).value;
              && |r.value.rows| == (if q == [] then 0 else 1)
              && (q != [] ==> exists i :: 0 <= i < |q| && IsRecordOf(r.value.rows[0], recordNome, q, i, team, season, colValore, desc))
  {
    var squad := DetectColumn(df.columns, squadCol, Squadra, Vincitore);
    var season := DetectColumn(df.columns, stagioneCol, Stagione, Anno);
    if squad.None? || season.None? then Err(TeamOrSeasonUndetermined)
    else
      var q :- ApplyFilter(df, filtro);
      if colValore !in df.columns then Err(ColumnNotFound(colValore))
      else if squad.value !in df.columns then Err(ColumnNotFound(squad.value))
      else if season.value !in df.columns then Err(ColumnNotFound(season.value))
      else if exists i | 0 <= i < |q| :: Cell(q[i], colValore).Str? then Err(CastFailed(colValore))
      else if q == [] then Ok(Table(RecordColumns, []))
      else
        var k := BestIndex(q, colValore, desc);
        var riga := RecordRow(Str(recordNome), CastText(Cell(q[k], squad.value)),
                              CastText(Cell(q[k], season.value)), Cell(q[k], colValore));
        assert IsRecordOf(riga, recordNome, q, k, squad.value, season.value, colValore, desc);
        assert q == ApplyFilter(df, filtro).value;
        assert [riga][0] == riga;
        Ok(Table(RecordColumns, [riga]))
  }

  /**
   * With no missing metric among the filtered rows, the extracted Valore is
   * the maximum of the metric over them when sorting descending and the
   * minimum when ascending, and it belongs to one of them.
   */
  lemma ValoreIsExtreme(df: Table, recordNome: string, colValore: string, desc: bool,
                        filtro: Option<Filter>, squadCol: Option<string>, stagioneCol: Option<string>)
    requires EstraiRecord(df, recordNome, colValore, desc, filtro, squadCol, stagioneCol).Ok?
    requires ApplyFilter(df, filtro).Ok?
    requires forall i :: 0 <= i < |ApplyFilter(df, filtro).value| ==> Cell(ApplyFilter(df, filtro).value[i], colValore).Int?
    requires ApplyFilter(df, filtro).value != []
    ensures var row := EstraiRecord(df, recordNome, colValore, desc, filtro, squadCol, stagioneCol).value.rows[0];
            var q := ApplyFilter(df, filtro).value;
            && Cell(row, Valore).Int?
            && (exists i :: 0 <= i < |q| && Cell(q[i], colValore) == Cell(row, Valore))
            && (forall i :: 0 <= i < |q| ==>
                  if desc then Cell(q[i], colValore).n <= Cell(row, Valore).n
                  else Cell(row, Valore).n <= Cell(q[i], colValore).n)
  {
    var r := EstraiRecord(df, recordNome, colValore, desc, filtro, squadCol, stagioneCol).value;
    var q := ApplyFilter(df, filtro).value;
    var team := DetectColumn(df.columns, squadCol, Squadra, Vincitore).value;
    var season := DetectColumn(df.columns, stagioneCol, Stagione, Anno).value;
    var i :| 0 <= i < |q| && IsRecordOf(r.rows[0], recordNome, q, i, team, season, colValore, desc);
    assert Cell(r.rows[0], Valore) == Cell(q[i], colValore);
  }

  /**
   * The Float64 cast of Valore: an integer is kept as the float of the same
   * value, numeric text is parsed, other text fails.
   */
  function CastFloat64(v: Value): Outcome<Value>
  {
    match v
    case Str(s) =>
      (match ParseInt(s)
       case Some(n) => Ok(Int(n))
       case None => Err(CastFailed(Valore)))
    case _ => Ok(v)
  }

  /** A Valore cell the Float64 cast accepts: anything but text that is not a number. */
  predicate Numeric(v: Value)
  {
    v.Str? ==> ParseInt(v.s).Some?
  }

  function FormatRow(row: Row): Outcome<Row>
  {
    var v :- CastFloat64(Cell(row, Valore));
    Ok(row[Record := CastText(Cell(row, Record))][Squadra := CastText(Cell(row, Squadra))]
          [Stagione := CastText(Cell(row, Stagione))][Valore := v])
  }

  function FormatRows(rows: seq<Row>): (r: Outcome<seq<Row>>)
    ensures r.Ok? <==> forall i :: 0 <= i < |rows| ==> FormatRow(rows[i]).Ok?
    ensures r.Ok? ==> |r.value| == |rows| && forall i :: 0 <= i < |rows| ==> r.value[i] == FormatRow(rows[i]).value
  {
    if rows == [] then Ok([])
    else
      var row :- FormatRow(rows[0]);
      var rest :- FormatRows(rows[1..]);
      assert forall i :: 1 <= i < |rows| ==> rows[i] == rows[1..][i - 1];
      Ok([row] + rest)
  }

  /**
   * formatta_record: cast Record, Squadra and Stagione to text and Valore to
   * float, and fix the column order to Record, Squadra, Stagione, Valore.
   */
  function FormattaRecord(r: Table): (f: Outcome<Table>)
    ensures f.Ok? <==> (forall c :: c in RecordColumns ==> c in r.columns) &&
                       forall i :: 0 <= i < |r.rows| ==> Numeric(Cell(r.rows[i], Valore))
    ensures f.Ok? ==> f.value.columns == RecordColumns && |f.value.rows| == |r.rows|
    ensures f.Ok? ==> forall i, c :: 0 <= i < |r.rows| && c in [Record, Squadra, Stagione] ==>
                        Cell(f.value.rows[i], c) == CastText(Cell(r.rows[i], c))
    ensures f.Ok? ==> forall i :: 0 <= i < |r.rows| ==>
                        && !Cell(f.value.rows[i], Valore).Str?
                        && (!Cell(r.rows[i], Valore).Str? ==> Cell(f.value.rows[i], Valore) == Cell(r.rows[i], Valore))
                        && (Cell(r.rows[i], Valore).Str? ==>
                              Cell(f.value.rows[i], Valore) == Int(ParseInt(Cell(r.rows[i], Valore).s).value))
  {
    match FirstMissing(RecordColumns, r.columns)
    case Some(c) => Err(ColumnNotFound(c))
    case None =>
      var rows :- FormatRows(r.rows);
      Ok(Table(RecordColumns, rows))
  }

  /** A row whose record cells already have their formatted types is left as it is. */
  lemma FormatRowFixes(row: Row)
    requires Record in row && Squadra in row && Stagione in row && Valore in row
    requires !row[Record].Int? && !row[Squadra].Int? && !row[Stagione].Int? && !row[Valore].Str?
    ensures FormatRow(row) == Ok(row)
  {
    assert row[Record := row[Record]][Squadra := row[Squadra]][Stagione := row[Stagione]][Valore := row[Valore]] == row;
  }

  lemma FormatRowsFix(rows: seq<Row>)
    requires forall i :: 0 <= i < |rows| ==> FormatRow(rows[i]) == Ok(rows[i])
    ensures FormatRows(rows) == Ok(rows)
  {
    assert FormatRows(rows).value == rows;
  }

  /** formatta_record keeps an extracted record as it is. */
  lemma FormattaKeepsExtracted(df: Table, recordNome: string, colValore: string, desc: bool,
                               filtro: Option<Filter>, squadCol: Option<string>, stagioneCol: Option<string>)
    requires EstraiRecord(df, recordNome, colValore, desc, filtro, squadCol, stagioneCol).Ok?
    ensures var e := EstraiRecord(df, recordNome, colValore, desc, filtro, squadCol, stagioneCol).value;
            FormattaRecord(e) == Ok(e)
  {
    var e := EstraiRecord(df, recordNome, colValore, desc, filtro, squadCol, stagioneCol).value;
    if e.rows != [] {
      var q := ApplyFilter(df, filtro).value;
      var team := DetectColumn(df.columns, squadCol, Squadra, Vincitore).value;
      var season := DetectColumn(df.columns, stagioneCol, Stagione, Anno).value;
      var i :| 0 <= i < |q| && IsRecordOf(e.rows[0], recordNome, q, i, team, season, colValore, desc);
      assert !Cell(q[i], colValore).Str?;
      FormatRowFixes(e.rows[0]);
    }
    FormatRowsFix(e.rows);
  }

  /** Formatting a formatted record frame changes nothing. */
  lemma FormattaIdempotent(r: Table)
    requires FormattaRecord(r).Ok?
    ensures FormattaRecord(FormattaRecord(r).value) == FormattaRecord(r)
  {
    var f := FormattaRecord(r).value;
    forall i | 0 <= i < |f.rows|
      ensures FormatRow(f.rows[i]) == Ok(f.rows[i])
    {
      assert f.rows[i] == FormatRow(r.rows[i]).value;
      FormatRowFixes(f.rows[i]);
    }
    FormatRowsFix(f.rows);
  }
}
