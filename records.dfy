/**
 * df_record: the catalogue of superlatives drawn from the four prepared
 * tables, the team with most top scorers, and their concatenation after
 * formatta_record.
 */
module RecordCatalogue {
  import opened Wrappers
  import opened Frames
  import opened RecordExtractor

  /** The prepared tables the catalogue reads. */
  datatype Source = Principale | Rankings | Average | TopScorer

  datatype Sources = Sources(principale: Table, rankings: Table, average: Table, topscorer: Table)

  function FrameOf(src: Sources, s: Source): Table
  {
    match s
    case Principale => src.principale
    case Rankings => src.rankings
    case Average => src.average
    case TopScorer => src.topscorer
  }

  /** One estrai_record call of the catalogue; team and season columns are always auto-detected. */
  datatype Request = Request(source: Source, name: string, metric: string, desc: bool, filtro: Option<Filter>)

  /** `pl.col("Posizione") != 1`: the rows of teams that did not win the league. */
  const NonChamp: Option<Filter> := Some(NotEqual("Posizione", 1))

  const Merit: seq<Request> := [
    Request(Principale, "TITOLO CON PIÙ PUNTI", "Punteggio", true, None),
    Request(Principale, "MIGLIOR PPG", "PPG", true, None),
    Request(Principale, "TITOLO CON PIÙ VITTORIE", "Vittorie", true, None),
    Request(Principale, "TITOLO CON MENO SCONFITTE", "Sconfitte", false, None),
    Request(Principale, "TITOLO CON PIÙ GF", "GF", true, None),
    Request(Principale, "TITOLO CON MIGLIOR GD", "GD", true, None)
  ]

  const Demerit: seq<Request> := [
    Request(Principale, "TITOLO CON MENO PUNTI", "Punteggio", false, None),
    Request(Principale, "PEGGIOR PPG", "PPG", false, None),
    Request(Principale, "TITOLO CON MENO VITTORIE", "Vittorie", false, None),
    Request(Principale, "TITOLO CON PIÙ SCONFITTE", "Sconfitte", true, None),
    Request(Principale, "TITOLO CON MENO GF", "GF", false, None),
    Request(Principale, "TITOLO CON PEGGIOR GD", "GD", false, None)
  ]

  const NonChampions: seq<Request> := [
    Request(Rankings, "NON TITOLO CON PIÙ PUNTI", "Punteggio", true, NonChamp),
    Request(Rankings, "MIGLIOR PPG SENZA TITOLO", "PPG", true, NonChamp),
    Request(Rankings, "NON TITOLO CON PIÙ VITTORIE", "Vittorie", true, NonChamp),
    Request(Rankings, "NON TITOLO CON MENO SCONFITTE", "Sconfitte", false, NonChamp),
    Request(Rankings, "NON TITOLO CON PIÙ GF", "GF", true, NonChamp),
    Request(Rankings, "NON TITOLO CON MIGLIOR GD", "GD", true, NonChamp)
  ]

  const Ages: seq<Request> := [
    Request(Average, "SQUADRA PIÙ VECCHIA", "Average_age", true, None),
    Request(Average, "SQUADRA PIÙ GIOVANE", "Average_age", false, None),
    Request(Principale, "VINCITRICE PIÙ VECCHIA", "Average_age", true, None),
    Request(Principale, "VINCITRICE PIÙ GIOVANE", "Average_age", false, None)
  ]

  const Scorers: seq<Request> := [
    Request(TopScorer, "MIGLIOR CAPOCANNONIERE", "Gol", true, None),
    Request(TopScorer, "PEGGIOR CAPOCANNONIERE", "Gol", false, None)
  ]

  /** The estrai_record calls, in the order the records list receives them. */
  const Catalogue: seq<Request> := Merit + Demerit + NonChampions + Ages + Scorers

  const MostScorersName := "SQUADRA MAGGIOR VOLTE CON CAPOCANNONIERE"

  function Extract(src: Sources, q: Request): Outcome<Table>
  {
    EstraiRecord(FrameOf(src, q.source), q.name, q.metric, q.desc, q.filtro, None, None)
  }

  // ---------------------------------------------------------------------
  // squad_most_scorers

  /** Among the first n entries, one whose value occurs most often in the whole column. */
  function MostFrequent(ws: seq<Value>, n: nat): (k: nat)
    requires 0 < n <= |ws|
    ensures k < n
    ensures forall j :: 0 <= j < n ==> Count(ws, ws[j]) <= Count(ws, ws[k])
  {
    if n == 1 then 0
    else
      var k := MostFrequent(ws, n - 1);
      if Count(ws, ws[n - 1]) > Count(ws, ws[k]) then n - 1 else k
  }

  /**
   * squad_most_scorers: group the top scorers by team, sort the groups by
   * size, and keep the largest as a record with season "-" and the group
   * size as value.  Among equally large groups the model keeps the team
   * seen first.
   */
  function SquadMostScorers(topscorer: Table): (r: Outcome<Table>)
    ensures Squadra !in topscorer.columns ==> r == Err(ColumnNotFound(Squadra))
    ensures Squadra in topscorer.columns ==> r.Ok?
    ensures r.Ok? ==> r.value.columns == RecordColumns
    ensures r.Ok? ==> |r.value.rows| == if topscorer.rows == [] then 0 else 1
    ensures r.Ok? && topscorer.rows != [] ==>
              var ws := Column(topscorer.rows, Squadra);
              var team := Cell(r.value.rows[0], Squadra);
              && r.value.rows[0] == RecordRow(Str(MostScorersName), team, Str("-"), Int(Count(ws, team)))
              && team in ws
              && forall w :: w in ws ==> Count(ws, w) <= Count(ws, team)
  {
    if Squadra !in topscorer.columns then Err(ColumnNotFound(Squadra))
    else if topscorer.rows == [] then Ok(Table(RecordColumns, []))
    else
      var ws := Column(topscorer.rows, Squadra);
      var k := MostFrequent(ws, |ws|);
      Ok(Table(RecordColumns, [RecordRow(Str(MostScorersName), ws[k], Str("-"), Int(Count(ws, ws[k])))]))
  }

  // ---------------------------------------------------------------------
  // The records list and its concatenation

  /** The outcome of each request, in order. */
  function Outcomes(src: Sources, qs: seq<Request>): (r: seq<Outcome<Table>>)
    ensures |r| == |qs|
    ensures forall i :: 0 <= i < |qs| ==> r[i] == Extract(src, qs[i])
  {
    seq(|qs|, i requires 0 <= i < |qs| => Extract(src, qs[i]))
  }

  /** A list of outcomes evaluated in order: the first failure raises. */
  function Collect(outs: seq<Outcome<Table>>): (r: Outcome<seq<Table>>)
    ensures r.Ok? <==> forall i :: 0 <= i < |outs| ==> outs[i].Ok?
    ensures r.Ok? ==> |r.value| == |outs| && forall i :: 0 <= i < |outs| ==> outs[i] == Ok(r.value[i])
  {
    if outs == [] then Ok([])
    else
      var init :- Collect(outs[..|outs| - 1]);
      var last :- outs[|outs| - 1];
      Ok(init + [last])
  }

  /** The records of a list of requests, or the error of the first failing one. */
  function ExtractAll(src: Sources, qs: seq<Request>): Outcome<seq<Table>>
  {
    Collect(Outcomes(src, qs))
  }

  /** `[formatta_record(r) for r in records]` followed by `pl.concat`: the rows of all formatted frames. */
  function FormatAll(ts: seq<Table>): (r: Outcome<seq<Row>>)
  {
    if ts == [] then Ok([])
    else
      var init :- FormatAll(ts[..|ts| - 1]);
      var last :- FormattaRecord(ts[|ts| - 1]);
      Ok(init + last.rows)
  }

  /** df_record. */
  function RecordTable(src: Sources): Outcome<Table>
  {
    var records :- ExtractAll(src, Catalogue);
    var most :- SquadMostScorers(src.topscorer);
    var rows :- FormatAll(records + [most]);
    Ok(Table(RecordColumns, rows))
  }

  /** `records += [...]` for one group of requests; an earlier exception propagates. */
  method Grow(src: Sources, done: seq<Request>, records: Outcome<seq<Table>>, group: seq<Request>)
    returns (r: Outcome<seq<Table>>)
    requires records == ExtractAll(src, done)
    ensures r == ExtractAll(src, done + group)
  {
    ExtractAllConcat(src, done, group);
    if records.Err? {
      return records;
    }
    var added := ExtractAll(src, group);
    if added.Err? {
      return added;
    }
    r := Ok(records.value + added.value);
  }

  /**
   * The script's records list: it grows group by group (merit, demerit,
   * non-champions, ages, top scorers), each estrai_record call in turn.
   */
  method ExtractRecords(src: Sources) returns (r: Outcome<seq<Table>>)
    ensures r == ExtractAll(src, Catalogue)
  {
    r := Ok([]);
    assert r == ExtractAll(src, []);
    r := Grow(src, [], r, Merit);
    assert [] + Merit == Merit;
    r := Grow(src, Merit, r, Demerit);
    r := Grow(src, Merit + Demerit, r, NonChampions);
    r := Grow(src, Merit + Demerit + NonChampions, r, Ages);
    r := Grow(src, Merit + Demerit + NonChampions + Ages, r, Scorers);
  }

  /**
   * The script's construction of df_record: the records list, then the
   * team with most top scorers, then every record formatted and the frames
   * concatenated.
   */
  method BuildRecordTable(src: Sources) returns (r: Outcome<Table>)
    ensures r == RecordTable(src)
  {
    var records :- ExtractRecords(src);
    var most :- SquadMostScorers(src.topscorer);
    var rows :- FormatRecords(records + [most]);
    r := Ok(Table(RecordColumns, rows));
  }

  /** `[formatta_record(r) for r in records]` and `pl.concat`, frame by frame; the first failure raises. */
  method FormatRecords(records: seq<Table>) returns (r: Outcome<seq<Row>>)
    ensures r == FormatAll(records)
  {
    var rows: seq<Row> := [];
    for i := 0 to |records|
      invariant FormatAll(records[..i]) == Ok(rows)
    {
      assert records[..i + 1][..i] == records[..i];
      var f := FormattaRecord(records[i]);
      if f.Err? {
        FormatAllFails(records, i + 1);
        return Err(f.error);
      }
      rows := rows + f.value.rows;
    }
    assert records[..|records|] == records;
    r := Ok(rows);
  }

  /** Evaluating two lists of outcomes one after the other. */
  lemma {:induction false} CollectConcat(x: seq<Outcome<Table>>, y: seq<Outcome<Table>>)
    ensures Collect(x).Err? ==> Collect(x + y) == Collect(x)
    ensures Collect(x).Ok? && Collect(y).Err? ==> Collect(x + y) == Collect(y)
    ensures Collect(x).Ok? && Collect(y).Ok? ==> Collect(x + y) == Ok(Collect(x).value + Collect(y).value)
    decreases |y|
  {
    if y == [] {
      assert x + y == x;
      if Collect(x).Ok? {
        assert Collect(x).value + [] == Collect(x).value;
      }
    } else {
      var init, last := y[..|y| - 1], y[|y| - 1];
      var xy := x + y;
      assert xy[..|xy| - 1] == x + init;
      assert xy[|xy| - 1] == last;
      CollectConcat(x, init);
      if Collect(x).Err? {
        assert Collect(xy) == Collect(x);
      } else if Collect(init).Err? {
        assert Collect(y) == Collect(init) == Collect(xy);
      } else if last.Err? {
        assert Collect(y) == Err(last.error) == Collect(xy);
      } else {
        var a, b := Collect(x).value, Collect(init).value;
        assert Collect(y) == Ok(b + [last.value]);
        assert Collect(xy) == Ok((a + b) + [last.value]);
        assert a + (b + [last.value]) == (a + b) + [last.value];
      }
    }
  }

  /** Running two lists of requests one after the other. */
  lemma ExtractAllConcat(src: Sources, a: seq<Request>, b: seq<Request>)
    ensures ExtractAll(src, a).Err? ==> ExtractAll(src, a + b) == ExtractAll(src, a)
    ensures ExtractAll(src, a).Ok? && ExtractAll(src, b).Err? ==> ExtractAll(src, a + b) == ExtractAll(src, b)
    ensures ExtractAll(src, a).Ok? && ExtractAll(src, b).Ok? ==>
              ExtractAll(src, a + b) == Ok(ExtractAll(src, a).value + ExtractAll(src, b).value)
  {
    assert Outcomes(src, a + b) == Outcomes(src, a) + Outcomes(src, b);
    CollectConcat(Outcomes(src, a), Outcomes(src, b));
  }

  /** The first failing outcome is the error of the whole list. */
  lemma {:induction false} CollectFails(outs: seq<Outcome<Table>>, n: nat)
    requires n < |outs| && outs[n].Err? && forall j :: 0 <= j < n ==> outs[j].Ok?
    ensures Collect(outs) == Err(outs[n].error)
    decreases |outs|
  {
    var init := outs[..|outs| - 1];
    if n < |outs| - 1 {
      assert init[n] == outs[n];
      CollectFails(init, n);
    } else {
      assert Collect(init).Ok?;
    }
  }

  lemma {:induction false} FormatAllFails(ts: seq<Table>, n: nat)
    requires 0 < n <= |ts| && FormatAll(ts[..n - 1]).Ok? && FormattaRecord(ts[n - 1]).Err?
    ensures FormatAll(ts) == Err(FormattaRecord(ts[n - 1]).error)
    decreases |ts|
  {
    if n < |ts| {
      assert ts[..|ts| - 1][..n - 1] == ts[..n - 1];
      assert ts[..|ts| - 1][n - 1] == ts[n - 1];
      FormatAllFails(ts[..|ts| - 1], n);
    } else {
      assert ts[..|ts| - 1] == ts[..n - 1];
    }
  }

  // ---------------------------------------------------------------------
  // What df_record holds

  /** Every request of the catalogue finds a record: its filtered table is not empty. */
  predicate AllFound(src: Sources)
  {
    && (forall i :: 0 <= i < |Catalogue| ==>
          Extract(src, Catalogue[i]).Ok? && |Extract(src, Catalogue[i]).value.rows| == 1)
    && SquadMostScorers(src.topscorer).Ok? && src.topscorer.rows != []
  }

  /** Formatting one-row record frames stacks their rows, one per frame. */
  lemma {:induction false} FormatAllStacks(ts: seq<Table>)
    requires forall i :: 0 <= i < |ts| ==> FormattaRecord(ts[i]) == Ok(ts[i]) && |ts[i].rows| == 1
    ensures FormatAll(ts).Ok?
    ensures |FormatAll(ts).value| == |ts|
    ensures forall i :: 0 <= i < |ts| ==> FormatAll(ts).value[i] == ts[i].rows[0]
    decreases |ts|
  {
    if ts != [] {
      FormatAllStacks(ts[..|ts| - 1]);
      var last := ts[|ts| - 1];
      assert last.rows == [last.rows[0]];
    }
  }

  /** formatta_record keeps squad_most_scorers' record as it is when team names are text or missing. */
  lemma SquadMostScorersFormatted(topscorer: Table)
    requires SquadMostScorers(topscorer).Ok?
    requires forall k :: 0 <= k < |topscorer.rows| ==> !Cell(topscorer.rows[k], Squadra).Int?
    ensures FormattaRecord(SquadMostScorers(topscorer).value) == SquadMostScorers(topscorer)
  {
    var m := SquadMostScorers(topscorer).value;
    if m.rows != [] {
      var ws := Column(topscorer.rows, Squadra);
      var k :| 0 <= k < |ws| && ws[k] == Cell(m.rows[0], Squadra);
      FormatRowFixes(m.rows[0]);
    }
    FormatRowsFix(m.rows);
  }

  /**
   * When every request finds a record, df_record has 25 rows: row i is the
   * record of the i-th request, in catalogue order, and the last row is the
   * team with most top scorers, with season "-".
   */
  lemma RecordTableRows(src: Sources)
    requires AllFound(src)
    requires forall k :: 0 <= k < |src.topscorer.rows| ==> !Cell(src.topscorer.rows[k], Squadra).Int?
    ensures RecordTable(src).Ok?
    ensures |RecordTable(src).value.rows| == |Catalogue| + 1 == 25
    ensures forall i :: 0 <= i < |Catalogue| ==>
              RecordTable(src).value.rows[i] == Extract(src, Catalogue[i]).value.rows[0]
    ensures forall i :: 0 <= i < |Catalogue| ==>
              Cell(RecordTable(src).value.rows[i], Record) == Str(Catalogue[i].name)
    ensures RecordTable(src).value.rows[|Catalogue|] == SquadMostScorers(src.topscorer).value.rows[0]
    ensures Cell(RecordTable(src).value.rows[|Catalogue|], Record) == Str(MostScorersName)
    ensures Cell(RecordTable(src).value.rows[|Catalogue|], Stagione) == Str("-")
  {
    var records := AllExtracted(src);
    var most := SquadMostScorers(src.topscorer).value;
    SquadMostScorersFormatted(src.topscorer);
    StackWithMost(records, most);
  }

  /** The stacked rows of the records followed by the most-scorers frame. */
  lemma StackWithMost(records: seq<Table>, most: Table)
    requires forall i :: 0 <= i < |records| ==> FormattaRecord(records[i]) == Ok(records[i]) && |records[i].rows| == 1
    requires FormattaRecord(most) == Ok(most) && |most.rows| == 1
    ensures FormatAll(records + [most]).Ok?
    ensures |FormatAll(records + [most]).value| == |records| + 1
    ensures forall i :: 0 <= i < |records| ==> FormatAll(records + [most]).value[i] == records[i].rows[0]
    ensures FormatAll(records + [most]).value[|records|] == most.rows[0]
  {
    var ts := records + [most];
    assert forall i :: 0 <= i < |ts| ==> FormattaRecord(ts[i]) == Ok(ts[i]) && |ts[i].rows| == 1;
    FormatAllStacks(ts);
  }

  /** The records list, when every request succeeds: one formatted one-row frame per request, labelled with its name. */
  lemma AllExtracted(src: Sources) returns (records: seq<Table>)
    requires AllFound(src)
    ensures ExtractAll(src, Catalogue) == Ok(records)
    ensures |records| == |Catalogue|
    ensures forall i :: 0 <= i < |records| ==>
              && records[i] == Extract(src, Catalogue[i]).value
              && FormattaRecord(records[i]) == Ok(records[i])
              && |records[i].rows| == 1
              && Cell(records[i].rows[0], Record) == Str(Catalogue[i].name)
  {
    records := ExtractAll(src, Catalogue).value;
    forall i | 0 <= i < |records|
      ensures FormattaRecord(records[i]) == Ok(records[i])
      ensures Cell(records[i].rows[0], Record) == Str(Catalogue[i].name)
    {
      var q := Catalogue[i];
      FormattaKeepsExtracted(FrameOf(src, q.source), q.name, q.metric, q.desc, q.filtro, None, None);
      ExtractedName(FrameOf(src, q.source), q.name, q.metric, q.desc, q.filtro);
    }
  }

  /** A found record carries its request's name. */
  lemma ExtractedName(df: Table, name: string, metric: string, desc: bool, filtro: Option<Filter>)
    requires EstraiRecord(df, name, metric, desc, filtro, None, None).Ok?
    requires |EstraiRecord(df, name, metric, desc, filtro, None, None).value.rows| == 1
    ensures Cell(EstraiRecord(df, name, metric, desc, filtro, None, None).value.rows[0], Record) == Str(name)
  {
    var q := ApplyFilter(df, filtro).value;
    var team := DetectColumn(df.columns, None, Squadra, Vincitore).value;
    var season := DetectColumn(df.columns, None, Stagione, Anno).value;
    var i :| 0 <= i < |q| && IsRecordOf(EstraiRecord(df, name, metric, desc, filtro, None, None).value.rows[0],
                                         name, q, i, team, season, metric, desc);
  }

  /** A failing request makes df_record fail with its error when all requests before it succeed. */
  lemma RecordTableFails(src: Sources, i: int)
    requires 0 <= i < |Catalogue| && Extract(src, Catalogue[i]).Err?
    requires forall j :: 0 <= j < i ==> Extract(src, Catalogue[j]).Ok?
    ensures RecordTable(src) == Err(Extract(src, Catalogue[i]).error)
  {
    CollectFails(Outcomes(src, Catalogue), i);
  }
}
