/**
 * completa_e_ordina: the schema normaliser applied to every loaded table.
 *
 * The method CompletaEOrdina follows the source stage by stage (derive Anno
 * from Stagione, derive Stagione from Anno, cast both, rewrite Stagione from
 * Anno, reorder the columns) and is proved equal to Normalized, a direct
 * description of the normal form.  The lemmas after it state what the normal
 * form promises: the season text of a year, the year read back from a season,
 * the year as the source of truth, the column order, and idempotence.
 */
module Normalizer {
  import opened Wrappers
  import opened Decimal
  import opened Frames

  // ---------------------------------------------------------------------
  // Season text and its parse

  /** `str.slice(-2, 2)`: the last two characters, or the whole text when shorter. */
  function LastTwo(s: string): (t: string)
    ensures |t| == if |s| < 2 then |s| else 2
    ensures t == s[|s| - |t|..]
  {
    if |s| <= 2 then s else s[|s| - 2..]
  }

  /** The season of a start year: its text, a slash, the last two characters of the next year's text. */
  function SeasonText(year: int): string
  {
    IntText(year) + "/" + LastTwo(IntText(year + 1))
  }

  /** `str.replace_all("-", "/")`. */
  function DashToSlash(s: string): (t: string)
    ensures |t| == |s|
    ensures forall i :: 0 <= i < |s| ==> t[i] == if s[i] == '-' then '/' else s[i]
  {
    seq(|s|, i requires 0 <= i < |s| => if s[i] == '-' then '/' else s[i])
  }

  /** `str.split("/").list.get(0)`: the text before the first slash, all of it when there is none. */
  function BeforeSlash(s: string): string
  {
    if s == [] || s[0] == '/' then [] else [s[0]] + BeforeSlash(s[1..])
  }

  predicate IsSeparator(c: char) { c == '/' || c == '-' }

  /** The year expression of a Stagione cell: the integer before the first separator. */
  function ParseSeasonYear(v: Value): Outcome<Value>
  {
    match v
    case Null => Ok(Null)
    case Str(s) =>
      (match ParseInt(BeforeSlash(DashToSlash(s)))
       case Some(n) => Ok(Int(n))
       case None => Err(CastFailed(Stagione)))
    case Int(_) => Err(CastFailed(Stagione))  // the string namespace on a non-string column
  }

  /** The season expression of an Anno cell; a missing year gives a missing season. */
  function FormatSeason(v: Value): Outcome<Value>
  {
    match v
    case Int(n) => Ok(Str(SeasonText(n)))
    case Null => Ok(Null)
    case Str(_) => Err(CastFailed(Anno))  // adding 1 to a string column
  }

  /** Strict cast of an Anno cell to Int64. */
  function CastInt64(v: Value): Outcome<Value>
  {
    match v
    case Int(_) => Ok(v)
    case Null => Ok(Null)
    case Str(s) =>
      (match ParseInt(s)
       case Some(n) => Ok(Int(n))
       case None => Err(CastFailed(Anno)))
  }

  // ---------------------------------------------------------------------
  // The column expressions of the stages and `with_columns`

  datatype ColumnExpr =
    | YearOfSeason  // Stagione -> replace "-" by "/" -> split on "/" -> first part -> Int64
    | SeasonOfYear  // Anno as text + "/" + last two characters of (Anno + 1) as text
    | CastYear      // Anno -> Int64
    | CastSeason    // Stagione -> Utf8

  function Eval(e: ColumnExpr, row: Row): (r: Outcome<Value>)
    ensures r.Err? ==> r.error == CastFailed(if e.YearOfSeason? then Stagione else Anno)
  {
    match e
    case YearOfSeason => ParseSeasonYear(Cell(row, Stagione))
    case SeasonOfYear => FormatSeason(Cell(row, Anno))
    case CastYear => CastInt64(Cell(row, Anno))
    case CastSeason => Ok(CastText(Cell(row, Stagione)))
  }

  /** Evaluates `e` on every row and stores it under `c`; the first failing row aborts. */
  function EvalRows(e: ColumnExpr, rows: seq<Row>, c: string): (r: Outcome<seq<Row>>)
    ensures r.Ok? <==> forall i :: 0 <= i < |rows| ==> Eval(e, rows[i]).Ok?
    ensures r.Err? ==> r.error == CastFailed(if e.YearOfSeason? then Stagione else Anno)
    ensures r.Ok? ==> |r.value| == |rows|
    ensures r.Ok? ==> forall i :: 0 <= i < |rows| ==> r.value[i] == rows[i][c := Eval(e, rows[i]).value]
  {
    if rows == [] then Ok([])
    else
      var v :- Eval(e, rows[0]);
      var rest :- EvalRows(e, rows[1..], c);
      assert forall i :: 1 <= i < |rows| ==> rows[i] == rows[1..][i - 1];
      Ok([rows[0][c := v]] + rest)
  }

  /** `with_columns(e.alias(c))`: replaces column `c` in place, or appends it. */
  function WithColumn(t: Table, c: string, e: ColumnExpr): (r: Outcome<Table>)
    ensures r.Ok? <==> forall i :: 0 <= i < |t.rows| ==> Eval(e, t.rows[i]).Ok?
    ensures r.Err? ==> r.error == CastFailed(if e.YearOfSeason? then Stagione else Anno)
    ensures r.Ok? ==> r.value.columns == if c in t.columns then t.columns else t.columns + [c]
    ensures r.Ok? ==> |r.value.rows| == |t.rows|
    ensures r.Ok? ==> forall i :: 0 <= i < |t.rows| ==>
                        r.value.rows[i] == t.rows[i][c := Eval(e, t.rows[i]).value]
  {
    match EvalRows(e, t.rows, c)
    case Err(err) => Err(err)
    case Ok(rows) => Ok(Table(if c in t.columns then t.columns else t.columns + [c], rows))
  }

  // ---------------------------------------------------------------------
  // The normal form

  /** The columns other than Stagione and Anno, in their original relative order. */
  function Others(cols: seq<string>): (o: seq<string>)
    ensures forall c :: c in o <==> c in cols && c != Stagione && c != Anno
    ensures |o| <= |cols|
  {
    if cols == [] then []
    else
      var last := cols[|cols| - 1];
      Others(cols[..|cols| - 1]) + (if last == Stagione || last == Anno then [] else [last])
  }

  /** The start year a row normalises to, or the failure its cells cause. */
  function RowYear(row: Row, hasYear: bool, hasSeason: bool): Outcome<Value>
  {
    if !hasYear then ParseSeasonYear(Cell(row, Stagione))
    else if !hasSeason && Cell(row, Anno).Str? then Err(CastFailed(Anno))
    else CastInt64(Cell(row, Anno))
  }

  /** The season cell belonging to a year cell. */
  function SeasonValue(year: Value): Value
  {
    if year.Int? then Str(SeasonText(year.n)) else Null
  }

  /** A row in normal form: its year, and the season rewritten from that year. */
  function NormalRow(row: Row, year: Value): Row
  {
    row[Anno := year][Stagione := SeasonValue(year)]
  }

  /**
   * The normal form of a table.  Without Stagione and Anno it is the table
   * itself.  Otherwise every row gets its year (cast from Anno, or parsed
   * from Stagione when Anno is absent) and the season rewritten from that
   * year; the columns become Stagione, the others in order, Anno.
   */
  function Normalized(t: Table): (r: Outcome<Table>)
    ensures Anno !in t.columns && Stagione !in t.columns ==> r == Ok(t)
    ensures (Anno in t.columns || Stagione in t.columns) && r.Ok? ==>
              && r.value.columns == [Stagione] + Others(t.columns) + [Anno]
              && (forall c :: c in t.columns ==> c in r.value.columns)
              && |r.value.rows| == |t.rows|
              && (forall i, c :: 0 <= i < |t.rows| && c != Stagione && c != Anno ==>
                    Cell(r.value.rows[i], c) == Cell(t.rows[i], c))
              && (forall i :: 0 <= i < |t.rows| ==>
                    Cell(r.value.rows[i], Stagione) == SeasonValue(Cell(r.value.rows[i], Anno)))
  {
    var hasYear := Anno in t.columns;
    var hasSeason := Stagione in t.columns;
    if !hasYear && !hasSeason then Ok(t)
    else if exists i | 0 <= i < |t.rows| :: RowYear(t.rows[i], hasYear, hasSeason).Err? then
      Err(CastFailed(if hasYear then Anno else Stagione))
    else
      Ok(Table([Stagione] + Others(t.columns) + [Anno],
               seq(|t.rows|, i requires 0 <= i < |t.rows| =>
                     NormalRow(t.rows[i], RowYear(t.rows[i], hasYear, hasSeason).value))))
  }

  // ---------------------------------------------------------------------
  // The source's stages

  /**
   * completa_e_ordina: the completion and cast stages, then the reordering
   * of the columns and the final `select`.
   */
  method CompletaEOrdina(df: Table) returns (r: Outcome<Table>)
    ensures r == Normalized(df)
  {
    var result :- Completa(df);
    // Reorder
    var colonneFinali := OrdinaColonne(result.columns);
    r := Select(result, colonneFinali);
    if Anno in df.columns || Stagione in df.columns {
      OthersIgnoresKeys(df.columns, if Anno in df.columns then [] else [Anno],
                        if Stagione in df.columns then [] else [Stagione]);
      assert colonneFinali == [Stagione] + Others(df.columns) + [Anno];
      CanonicalInGrown(df.columns);
      assert r == Ok(Table(colonneFinali, result.rows));
      NormalFormOf(df, result.rows);
    } else {
      OthersWithout(df.columns);
      assert colonneFinali == df.columns;
    }
  }

  /** A table with Stagione or Anno whose normal rows are `rows` normalises to those rows under the canonical columns. */
  lemma NormalFormOf(df: Table, rows: seq<Row>)
    requires Anno in df.columns || Stagione in df.columns
    requires Normalized(df).Ok? && Normalized(df).value.rows == rows
    ensures Normalized(df) == Ok(Table([Stagione] + Others(df.columns) + [Anno], rows))
  {
  }

  /** Every canonical column is among the grown columns. */
  lemma CanonicalInGrown(cols: seq<string>)
    ensures forall c :: c in [Stagione] + Others(cols) + [Anno] ==> c in Grown(cols)
  {
    forall c | c in [Stagione] + Others(cols) + [Anno] ensures c in Grown(cols) {
      if c != Stagione && c != Anno {
        assert c in Others(cols);
      }
    }
  }

  /** The columns after the completion stages: Anno and Stagione appended when missing. */
  function Grown(cols: seq<string>): seq<string>
  {
    cols + (if Anno in cols then [] else [Anno]) + (if Stagione in cols then [] else [Stagione])
  }

  /**
   * The stages of completa_e_ordina before the reordering, each a
   * `with_columns` that rebinds the working table: add Anno from Stagione
   * when missing, add Stagione from Anno when missing, cast Anno to Int64
   * and Stagione to Utf8, rewrite Stagione from Anno.
   */
  method Completa(df: Table) returns (r: Outcome<Table>)
    ensures Anno !in df.columns && Stagione !in df.columns ==> r == Ok(df)
    ensures Anno in df.columns || Stagione in df.columns ==>
              (r.Err? <==> Normalized(df).Err?) && (r.Err? ==> r.error == Normalized(df).error)
    ensures (Anno in df.columns || Stagione in df.columns) && r.Ok? ==>
              r.value.columns == Grown(df.columns) && r.value.rows == Normalized(df).value.rows
  {
    var result :- AggiungiColonne(df);
    r := ForzaTipi(df, result);
  }

  /**
   * What the completion stages leave for the cast stages: the table itself
   * when it has neither column; otherwise the grown columns, rows that
   * normalise like the input's, and the facts about Anno that the cast
   * stage needs.
   */
  ghost predicate Completed(df: Table, t: Table)
  {
    var ys := Years(df);
    if Anno !in df.columns && Stagione !in df.columns then t == df
    else
      && t.columns == Grown(df.columns)
      && Tracks(t, df, ys)
      && (Anno !in df.columns ==>
            AnnoIs(t, ys) && forall i :: 0 <= i < |ys| ==> RowYear(df.rows[i], false, true).Ok?)
      && (Anno in df.columns && Stagione !in df.columns ==>
            forall i :: 0 <= i < |ys| ==>
              RowYear(df.rows[i], true, false).Ok? && Cell(t.rows[i], Anno) == Cell(df.rows[i], Anno))
      && (Anno in df.columns && Stagione in df.columns ==> t == df)
  }

  /** The completion stages: add Anno from Stagione when missing, then Stagione from Anno when missing. */
  method AggiungiColonne(df: Table) returns (r: Outcome<Table>)
    ensures r.Err? ==> (Anno in df.columns || Stagione in df.columns) && Normalized(df) == Err(r.error)
    ensures r.Ok? ==> Completed(df, r.value)
  {
    var result := df;

    // Add Anno when it is missing
    if Anno !in result.columns && Stagione in result.columns {
      var step := WithColumn(result, Anno, YearOfSeason);
      if step.Err? {
        ghost var i :| 0 <= i < |df.rows| && Eval(YearOfSeason, df.rows[i]).Err?;
        NormalizedFails(df, i);
        return Err(step.error);
      }
      YearAdded(df);
      result := step.value;
    }
    // Add Stagione when it is missing
    if Stagione !in result.columns && Anno in result.columns {
      var step := WithColumn(result, Stagione, SeasonOfYear);
      if step.Err? {
        ghost var i :| 0 <= i < |df.rows| && Eval(SeasonOfYear, df.rows[i]).Err?;
        NormalizedFails(df, i);
        return Err(step.error);
      }
      SeasonAdded(df);
      result := step.value;
    }
    if Anno in df.columns && Stagione in df.columns {
      NothingMissing(df);
    }
    r := Ok(result);
  }

  /** Adding Anno from Stagione completes a table that has only Stagione. */
  lemma YearAdded(df: Table)
    requires Anno !in df.columns && Stagione in df.columns
    requires WithColumn(df, Anno, YearOfSeason).Ok?
    ensures Completed(df, WithColumn(df, Anno, YearOfSeason).value)
  {
    var ys := Years(df);
    forall i | 0 <= i < |ys| ensures Eval(YearOfSeason, df.rows[i]) == Ok(ys[i]) { }
    YearStageTracks(df, YearOfSeason, df, ys);
    assert Grown(df.columns) == df.columns + [Anno];
  }

  /** Adding Stagione from Anno completes a table that has only Anno. */
  lemma SeasonAdded(df: Table)
    requires Anno in df.columns && Stagione !in df.columns
    requires WithColumn(df, Stagione, SeasonOfYear).Ok?
    ensures Completed(df, WithColumn(df, Stagione, SeasonOfYear).value)
  {
    var ys := Years(df);
    var u := WithColumn(df, Stagione, SeasonOfYear).value;
    SeasonStageTracks(df, SeasonOfYear, df, ys);
    forall i | 0 <= i < |ys|
      ensures RowYear(df.rows[i], true, false).Ok? && Cell(u.rows[i], Anno) == Cell(df.rows[i], Anno)
    {
      assert Eval(SeasonOfYear, df.rows[i]).Ok?;
      assert u.rows[i] == df.rows[i][Stagione := Eval(SeasonOfYear, df.rows[i]).value];
    }
    assert Grown(df.columns) == df.columns + [Stagione];
  }

  /** A table with both columns is already complete. */
  lemma NothingMissing(df: Table)
    requires Anno in df.columns && Stagione in df.columns
    ensures Completed(df, df)
  {
    assert Grown(df.columns) == df.columns;
  }

  /** The cast stages (Anno to Int64, Stagione to Utf8) and the rewrite of Stagione from Anno. */
  method ForzaTipi(ghost df: Table, t: Table) returns (r: Outcome<Table>)
    requires Completed(df, t)
    ensures Anno !in df.columns && Stagione !in df.columns ==> r == Ok(df)
    ensures Anno in df.columns || Stagione in df.columns ==>
              (r.Err? <==> Normalized(df).Err?) && (r.Err? ==> r.error == Normalized(df).error)
    ensures (Anno in df.columns || Stagione in df.columns) && r.Ok? ==>
              r.value.columns == Grown(df.columns) && r.value.rows == Normalized(df).value.rows
  {
    ghost var hasYear := Anno in df.columns;
    ghost var hasSeason := Stagione in df.columns;
    ghost var ys := Years(df);
    var result := t;

    // Force the types
    if Anno in result.columns {
      var step := WithColumn(result, Anno, CastYear);
      CastStage(df, result, ys);
      if step.Err? {
        ghost var i :| 0 <= i < |df.rows| && RowYear(df.rows[i], hasYear, hasSeason).Err?;
        NormalizedFails(df, i);
        return Err(step.error);
      }
      YearStageTracks(result, CastYear, df, ys);
      result := step.value;
    }
    if Stagione in result.columns {
      var step := WithColumn(result, Stagione, CastSeason);
      CastSeasonSucceeds(result);
      SeasonStageTracks(result, CastSeason, df, ys);
      result := step.value;
    }
    // Rewrite Stagione from Anno
    if Anno in result.columns {
      var step := WithColumn(result, Stagione, SeasonOfYear);
      RewriteStage(result, df, ys);
      result := step.value;
      FinalRows(result, df);
    }
    r := Ok(result);
  }

  lemma CastSeasonSucceeds(t: Table)
    ensures WithColumn(t, Stagione, CastSeason).Ok?
  {
    forall i | 0 <= i < |t.rows| ensures Eval(CastSeason, t.rows[i]).Ok? { }
  }

  /** One row whose year fails makes the whole normalisation fail. */
  lemma NormalizedFails(df: Table, i: int)
    requires Anno in df.columns || Stagione in df.columns
    requires 0 <= i < |df.rows| && RowYear(df.rows[i], Anno in df.columns, Stagione in df.columns).Err?
    ensures Normalized(df) == Err(CastFailed(if Anno in df.columns then Anno else Stagione))
  {
  }

  /**
   * The column list of the reordering step: Stagione when present, every
   * other column in its original order, Anno when present.
   */
  method OrdinaColonne(cols: seq<string>) returns (colonneFinali: seq<string>)
    ensures colonneFinali ==
              (if Stagione in cols then [Stagione] else []) + Others(cols) + (if Anno in cols then [Anno] else [])
  {
    var centro: seq<string> := [];
    for i := 0 to |cols|
      invariant centro == Others(cols[..i])
    {
      assert cols[..i + 1][..i] == cols[..i];
      if cols[i] != Stagione && cols[i] != Anno {
        centro := centro + [cols[i]];
      }
    }
    assert cols[..|cols|] == cols;
    colonneFinali := [];
    if Stagione in cols {
      colonneFinali := colonneFinali + [Stagione];
    }
    colonneFinali := colonneFinali + centro;
    if Anno in cols {
      colonneFinali := colonneFinali + [Anno];
    }
  }

  /** The year of every row, where it has one. */
  ghost function Years(df: Table): (ys: seq<Value>)
    ensures |ys| == |df.rows|
    ensures forall i :: 0 <= i < |ys| ==> ys[i].Int? || ys[i].Null?
  {
    var hasYear, hasSeason := Anno in df.columns, Stagione in df.columns;
    seq(|df.rows|, i requires 0 <= i < |df.rows| =>
          var y := RowYear(df.rows[i], hasYear, hasSeason); if y.Ok? then y.value else Null)
  }

  /** Every row of `t` normalises, under the year of `ys`, to the corresponding row of `df`. */
  ghost predicate Tracks(t: Table, df: Table, ys: seq<Value>)
  {
    |t.rows| == |df.rows| == |ys| &&
    forall i :: 0 <= i < |ys| ==> NormalRow(t.rows[i], ys[i]) == NormalRow(df.rows[i], ys[i])
  }

  /** Every row of `t` holds its year under Anno. */
  ghost predicate AnnoIs(t: Table, ys: seq<Value>)
  {
    |t.rows| == |ys| && forall i :: 0 <= i < |ys| ==> Anno in t.rows[i] && t.rows[i][Anno] == ys[i]
  }

  lemma SeasonStageTracks(t: Table, e: ColumnExpr, df: Table, ys: seq<Value>)
    requires Tracks(t, df, ys) && WithColumn(t, Stagione, e).Ok?
    ensures Tracks(WithColumn(t, Stagione, e).value, df, ys)
    ensures AnnoIs(t, ys) ==> AnnoIs(WithColumn(t, Stagione, e).value, ys)
  {
    var u := WithColumn(t, Stagione, e).value;
    forall i | 0 <= i < |ys|
      ensures NormalRow(u.rows[i], ys[i]) == NormalRow(t.rows[i], ys[i])
    {
      assert u.rows[i] == t.rows[i][Stagione := Eval(e, t.rows[i]).value];
    }
  }

  lemma YearStageTracks(t: Table, e: ColumnExpr, df: Table, ys: seq<Value>)
    requires Tracks(t, df, ys) && WithColumn(t, Anno, e).Ok?
    requires forall i :: 0 <= i < |ys| ==> Eval(e, t.rows[i]) == Ok(ys[i])
    ensures Tracks(WithColumn(t, Anno, e).value, df, ys)
    ensures AnnoIs(WithColumn(t, Anno, e).value, ys)
  {
    var u := WithColumn(t, Anno, e).value;
    forall i | 0 <= i < |ys|
      ensures NormalRow(u.rows[i], ys[i]) == NormalRow(t.rows[i], ys[i])
    {
      assert u.rows[i] == t.rows[i][Anno := ys[i]];
    }
  }

  /**
   * The Int64 cast of Anno fails exactly when the normal form fails, and
   * otherwise yields each row's year.
   */
  lemma CastStage(df: Table, t: Table, ys: seq<Value>)
    requires ys == Years(df) && Tracks(t, df, ys) && Anno in t.columns
    requires Anno !in df.columns ==> Stagione in df.columns && AnnoIs(t, ys) &&
                                     forall i :: 0 <= i < |ys| ==> RowYear(df.rows[i], false, true).Ok?
    requires Anno in df.columns && Stagione !in df.columns ==>
               forall i :: 0 <= i < |ys| ==> RowYear(df.rows[i], true, false).Ok? &&
                                             Cell(t.rows[i], Anno) == Cell(df.rows[i], Anno)
    requires Anno in df.columns && Stagione in df.columns ==> t == df
    ensures WithColumn(t, Anno, CastYear).Err? ==>
              exists i | 0 <= i < |df.rows| :: RowYear(df.rows[i], Anno in df.columns, Stagione in df.columns).Err?
    ensures WithColumn(t, Anno, CastYear).Ok? ==>
              forall i :: 0 <= i < |ys| ==> Eval(CastYear, t.rows[i]) == Ok(ys[i])
    ensures WithColumn(t, Anno, CastYear).Ok? ==>
              forall i :: 0 <= i < |ys| ==> RowYear(df.rows[i], Anno in df.columns, Stagione in df.columns).Ok?
  {
    var hasYear, hasSeason := Anno in df.columns, Stagione in df.columns;
    if WithColumn(t, Anno, CastYear).Err? {
      var i :| 0 <= i < |t.rows| && Eval(CastYear, t.rows[i]).Err?;
      assert RowYear(df.rows[i], hasYear, hasSeason).Err?;
    }
  }

  /** The final rewrite of Stagione from Anno completes each row's normal form. */
  lemma RewriteStage(t: Table, df: Table, ys: seq<Value>)
    requires Tracks(t, df, ys) && AnnoIs(t, ys)
    requires forall i :: 0 <= i < |ys| ==> ys[i].Int? || ys[i].Null?
    ensures WithColumn(t, Stagione, SeasonOfYear).Ok?
    ensures forall i :: 0 <= i < |ys| ==>
              WithColumn(t, Stagione, SeasonOfYear).value.rows[i] == NormalRow(df.rows[i], ys[i])
  {
    forall i | 0 <= i < |ys|
      ensures Eval(SeasonOfYear, t.rows[i]) == Ok(SeasonValue(ys[i]))
    {
    }
    var u := WithColumn(t, Stagione, SeasonOfYear).value;
    forall i | 0 <= i < |ys|
      ensures u.rows[i] == NormalRow(df.rows[i], ys[i])
    {
      assert u.rows[i] == t.rows[i][Stagione := SeasonValue(ys[i])];
      assert t.rows[i][Anno := ys[i]] == t.rows[i];
    }
  }

  /** Once every stage has succeeded, the working rows are the rows of the normal form. */
  lemma FinalRows(t: Table, df: Table)
    requires Anno in df.columns || Stagione in df.columns
    requires forall i :: 0 <= i < |df.rows| ==> RowYear(df.rows[i], Anno in df.columns, Stagione in df.columns).Ok?
    requires |t.rows| == |df.rows|
    requires forall i :: 0 <= i < |df.rows| ==> t.rows[i] == NormalRow(df.rows[i], Years(df)[i])
    ensures Normalized(df).Ok? && Normalized(df).value.rows == t.rows
  {
  }

  /** Appending Stagione or Anno does not change the other columns. */
  lemma OthersIgnoresKeys(cols: seq<string>, a: seq<string>, s: seq<string>)
    requires a == [] || a == [Anno]
    requires s == [] || s == [Stagione]
    ensures Others(cols + a + s) == Others(cols)
  {
    var ca := cols + a;
    if a != [] {
      assert ca[..|ca| - 1] == cols;
    } else {
      assert ca == cols;
    }
    var cas := ca + s;
    if s != [] {
      assert cas[..|cas| - 1] == ca;
    } else {
      assert cas == ca;
    }
  }

  /** With neither Stagione nor Anno, every column is one of the others. */
  lemma {:induction false} OthersWithout(cols: seq<string>)
    requires Stagione !in cols && Anno !in cols
    ensures Others(cols) == cols
  {
    if cols != [] {
      OthersWithout(cols[..|cols| - 1]);
      assert cols[..|cols| - 1] + [cols[|cols| - 1]] == cols;
    }
  }

  // ---------------------------------------------------------------------
  // What the normal form promises

  lemma SeasonTextExamples()
    ensures SeasonText(1992) == "1992/93"
    ensures SeasonText(1999) == "1999/00"
  {
    assert NatText(1992) == "1992";
    assert NatText(1993) == "1993";
    assert NatText(1999) == "1999";
    assert NatText(2000) == "2000";
  }

  /**
   * The year expression reads the text before the first '/' or '-': the
   * replace-then-split pipeline yields the longest prefix of the season text
   * that holds no separator.
   */
  lemma {:induction false} SeasonPrefix(s: string)
    ensures var p := BeforeSlash(DashToSlash(s));
              && |p| <= |s| && p == s[..|p|]
              && (forall i :: 0 <= i < |p| ==> !IsSeparator(s[i]))
              && (|p| < |s| ==> IsSeparator(s[|p|]))
  {
    if s != [] && !IsSeparator(s[0]) {
      assert DashToSlash(s)[1..] == DashToSlash(s[1..]);
      SeasonPrefix(s[1..]);
    }
  }

  lemma SeasonYearExample()
    ensures ParseSeasonYear(Str("2008-09")) == Ok(Int(2008))
  {
    SeasonPrefix("2008-09");
    var p := BeforeSlash(DashToSlash("2008-09"));
    assert p == "2008";
    assert ParseDigits("2008") == 2008 by {
      assert "2008"[..3] == "200" && "200"[..2] == "20" && "20"[..1] == "2" && "2"[..0] == "";
    }
  }

  /** Reading the year back from the season text of a non-negative year gives that year. */
  lemma SeasonYearRoundTrip(year: int)
    requires year >= 0
    ensures ParseSeasonYear(Str(SeasonText(year))) == Ok(Int(year))
  {
    var digits := IntText(year);
    var rest := "/" + LastTwo(IntText(year + 1));
    assert digits == NatText(year);
    assert SeasonText(year) == digits + rest;
    forall k | 0 <= k < |digits| ensures !IsSeparator(digits[k]) {
      assert IsDigit(digits[k]);
    }
    PrefixBeforeSeparator(digits, rest);
    ParseIntText(year);
    assert ParseInt(BeforeSlash(DashToSlash(SeasonText(year)))) == Some(year);
  }

  lemma {:induction false} PrefixBeforeSeparator(d: string, rest: string)
    requires forall k :: 0 <= k < |d| ==> !IsSeparator(d[k])
    requires rest != [] && IsSeparator(rest[0])
    ensures BeforeSlash(DashToSlash(d + rest)) == d
  {
    if d == [] {
      assert d + rest == rest;
    } else {
      assert (d + rest)[1..] == d[1..] + rest;
      assert DashToSlash(d + rest)[1..] == DashToSlash(d[1..] + rest);
      PrefixBeforeSeparator(d[1..], rest);
    }
  }

  /** In the normal form the season always agrees with the year: reading it back gives the year. */
  lemma SeasonAgreesWithYear(t: Table, i: int)
    requires Anno in t.columns || Stagione in t.columns
    requires Normalized(t).Ok? && 0 <= i < |t.rows|
    requires Cell(Normalized(t).value.rows[i], Anno).Int? ==> Cell(Normalized(t).value.rows[i], Anno).n >= 0
    ensures ParseSeasonYear(Cell(Normalized(t).value.rows[i], Stagione)) == Ok(Cell(Normalized(t).value.rows[i], Anno))
  {
    var year := Cell(Normalized(t).value.rows[i], Anno);
    if year.Int? {
      SeasonYearRoundTrip(year.n);
    } else {
      assert year.Null? by {
        var y := RowYear(t.rows[i], Anno in t.columns, Stagione in t.columns);
        assert Normalized(t).value.rows[i] == NormalRow(t.rows[i], y.value);
        assert Years(t)[i] == y.value;
      }
    }
  }

  /**
   * A table with Anno but no Stagione normalises exactly when no Anno cell is
   * text; the season of each row is then the season text of its year.
   */
  lemma SeasonFromYear(t: Table)
    requires Anno in t.columns && Stagione !in t.columns
    ensures Normalized(t).Ok? <==> forall i :: 0 <= i < |t.rows| ==> !Cell(t.rows[i], Anno).Str?
    ensures Normalized(t).Ok? ==> forall i :: 0 <= i < |t.rows| ==>
              && Cell(Normalized(t).value.rows[i], Anno) == Cell(t.rows[i], Anno)
              && Cell(Normalized(t).value.rows[i], Stagione) ==
                   (match Cell(t.rows[i], Anno) case Int(n) => Str(SeasonText(n)) case _ => Null)
  {
    if !Normalized(t).Ok? {
      var i :| 0 <= i < |t.rows| && RowYear(t.rows[i], true, false).Err?;
      assert Cell(t.rows[i], Anno).Str?;
    }
  }

  /**
   * A table with Stagione but no Anno normalises exactly when every season
   * cell is missing or text whose leading part parses; Anno is that integer.
   */
  lemma YearFromSeason(t: Table)
    requires Stagione in t.columns && Anno !in t.columns
    ensures Normalized(t).Ok? <==> forall i :: 0 <= i < |t.rows| ==> ParseSeasonYear(Cell(t.rows[i], Stagione)).Ok?
    ensures Normalized(t).Ok? ==> forall i :: 0 <= i < |t.rows| ==>
              Cell(Normalized(t).value.rows[i], Anno) == ParseSeasonYear(Cell(t.rows[i], Stagione)).value
  {
  }

  /**
   * The year is the source of truth: when Anno is present, the season cells
   * supplied with the table do not affect the normal form at all.
   */
  lemma YearIsAuthoritative(t: Table, u: Table)
    requires Anno in t.columns && t.columns == u.columns && |t.rows| == |u.rows|
    requires forall i :: 0 <= i < |t.rows| ==> t.rows[i] - {Stagione} == u.rows[i] - {Stagione}
    ensures Normalized(t) == Normalized(u)
  {
    var hasSeason := Stagione in t.columns;
    forall i | 0 <= i < |t.rows|
      ensures RowYear(t.rows[i], true, hasSeason) == RowYear(u.rows[i], true, hasSeason)
      ensures RowYear(t.rows[i], true, hasSeason).Ok? ==>
                NormalRow(t.rows[i], RowYear(t.rows[i], true, hasSeason).value) ==
                NormalRow(u.rows[i], RowYear(t.rows[i], true, hasSeason).value)
    {
      assert Cell(t.rows[i], Anno) == Cell((t.rows[i] - {Stagione}), Anno);
      assert Cell(u.rows[i], Anno) == Cell((u.rows[i] - {Stagione}), Anno);
      var y := RowYear(t.rows[i], true, hasSeason);
      if y.Ok? {
        NormalRowIgnoresSeason(t.rows[i], u.rows[i], y.value);
      }
    }
    if Normalized(t).Ok? {
      assert Normalized(u).Ok?;
      assert Normalized(t).value.rows == Normalized(u).value.rows;
    }
  }

  lemma NormalRowIgnoresSeason(a: Row, b: Row, year: Value)
    requires a - {Stagione} == b - {Stagione}
    ensures NormalRow(a, year) == NormalRow(b, year)
  {
    forall k | k != Stagione && k != Anno
      ensures (k in NormalRow(a, year) <==> k in NormalRow(b, year))
      ensures k in NormalRow(a, year) ==> NormalRow(a, year)[k] == NormalRow(b, year)[k]
    {
      assert k in a <==> k in a - {Stagione};
      assert k in b <==> k in b - {Stagione};
      if k in a {
        assert a[k] == (a - {Stagione})[k];
        assert b[k] == (b - {Stagione})[k];
      }
    }
  }

  /** Normalising a normal form changes nothing. */
  lemma Idempotent(t: Table)
    requires Normalized(t).Ok?
    ensures Normalized(Normalized(t).value) == Normalized(t)
  {
    if Anno in t.columns || Stagione in t.columns {
      var n := Normalized(t).value;
      OthersOfCanonical(t.columns);
      NormalRowsStable(t);
      FixedPoint(n);
    }
  }

  /** Every row of a normal form reads its year back and is its own normal row. */
  lemma NormalRowsStable(t: Table)
    requires Anno in t.columns || Stagione in t.columns
    requires Normalized(t).Ok?
    ensures var n := Normalized(t).value;
            forall i :: 0 <= i < |n.rows| ==>
              RowYear(n.rows[i], true, true).Ok? && NormalRow(n.rows[i], RowYear(n.rows[i], true, true).value) == n.rows[i]
  {
    var n := Normalized(t).value;
    var hasYear, hasSeason := Anno in t.columns, Stagione in t.columns;
    forall i | 0 <= i < |n.rows|
      ensures RowYear(n.rows[i], true, true).Ok? && NormalRow(n.rows[i], RowYear(n.rows[i], true, true).value) == n.rows[i]
    {
      var y := RowYear(t.rows[i], hasYear, hasSeason).value;
      assert n.rows[i] == NormalRow(t.rows[i], y);
      NormalRowStable(t.rows[i], y);
    }
  }

  /** A table with both columns in canonical order whose rows are all normal rows is its own normal form. */
  lemma FixedPoint(n: Table)
    requires Anno in n.columns && Stagione in n.columns
    requires n.columns == [Stagione] + Others(n.columns) + [Anno]
    requires forall i :: 0 <= i < |n.rows| ==>
               RowYear(n.rows[i], true, true).Ok? && NormalRow(n.rows[i], RowYear(n.rows[i], true, true).value) == n.rows[i]
    ensures Normalized(n) == Ok(n)
  {
    assert !exists i | 0 <= i < |n.rows| :: RowYear(n.rows[i], true, true).Err?;
    assert Normalized(n).value.rows == n.rows;
  }

  /** An integer or missing year in an Anno column comes through normalisation unchanged. */
  lemma KeepsYears(t: Table, i: int)
    requires Anno in t.columns && Normalized(t).Ok? && 0 <= i < |t.rows|
    requires !Cell(t.rows[i], Anno).Str?
    ensures Cell(Normalized(t).value.rows[i], Anno) == Cell(t.rows[i], Anno)
  {
    var y := RowYear(t.rows[i], true, Stagione in t.columns);
    assert y == Ok(Cell(t.rows[i], Anno));
    assert Normalized(t).value.rows[i] == NormalRow(t.rows[i], y.value);
  }

  /** A normal row reads its year back and is its own normal row. */
  lemma NormalRowStable(row: Row, year: Value)
    requires year.Int? || year.Null?
    ensures RowYear(NormalRow(row, year), true, true) == Ok(year)
    ensures NormalRow(NormalRow(row, year), year) == NormalRow(row, year)
  {
    var r := NormalRow(row, year);
    assert Anno in r && r[Anno] == year;
    assert Stagione in r && r[Stagione] == SeasonValue(year);
    assert Cell(r, Anno) == year;
    assert r[Anno := year] == r;
    assert r[Stagione := SeasonValue(year)] == r;
  }

  /** The other columns of the canonical order are the other columns of the input. */
  lemma OthersOfCanonical(cols: seq<string>)
    ensures Others([Stagione] + Others(cols) + [Anno]) == Others(cols)
  {
    var o := Others(cols);
    OthersWithout(o);
    assert Others([Stagione]) == [] by { assert [Stagione][..0] == []; }
    assert Others([Anno]) == [] by { assert [Anno][..0] == []; }
    OthersAppend([Stagione], o);
    assert Others([Stagione] + o) == o;
    OthersAppend([Stagione] + o, [Anno]);
  }

  lemma {:induction false} OthersAppend(a: seq<string>, b: seq<string>)
    ensures Others(a + b) == Others(a) + Others(b)
    decreases |b|
  {
    if b == [] {
      assert a + b == a;
    } else {
      var b' := b[..|b| - 1];
      assert (a + b)[..|a + b| - 1] == a + b';
      OthersAppend(a, b');
    }
  }
}
