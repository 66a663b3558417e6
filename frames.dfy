/**
 * The data model shared by every stage: a dataframe is an ordered list of
 * column names and a sequence of rows, each row mapping column names to
 * cells.  A row may hold keys that are not among the columns; only the
 * listed columns are part of the frame, so a selection changes the column
 * list and leaves the rows alone.
 */
module Frames {
  import opened Wrappers
  import opened Decimal

  /** A cell: an Int64, a Utf8 string, or a missing value. */
  datatype Value = Int(n: int) | Str(s: string) | Null

  type Row = map<string, Value>

  datatype Table = Table(columns: seq<string>, rows: seq<Row>)

  /** The exceptions the pipeline can raise. */
  datatype Error =
    | ColumnNotFound(column: string)  // an expression names a column the frame lacks
    | CastFailed(column: string)      // a strict cast, or an operation on the wrong column type
    | TeamOrSeasonUndetermined        // the ValueError raised when no team or season column is found

  type Outcome<T> = Result<T, Error>

  /** The column names the pipeline refers to. */
  const Anno := "Anno"
  const Stagione := "Stagione"
  const Squadra := "Squadra"
  const Vincitore := "Vincitore"
  const Record := "Record"
  const Valore := "Valore"

  /** The cell of a row under a column; a key the row lacks reads as missing. */
  function Cell(r: Row, c: string): Value
  {
    if c in r then r[c] else Null
  }

  /** The tokens the loader reads as a missing value. */
  predicate IsNullToken(s: string)
  {
    s == "" || s == "NA" || s == "NA " || s == " NA"
  }

  /** Strict cast of a cell to Utf8. */
  function CastText(v: Value): (w: Value)
    ensures !w.Int?
    ensures v.Null? <==> w.Null?
    ensures v.Int? ==> w == Str(IntText(v.n))
    ensures v.Str? ==> w == v
  {
    match v
    case Int(n) => Str(IntText(n))
    case _ => v
  }

  /** The first of `wanted` that is not among `have`, if any. */
  function FirstMissing(wanted: seq<string>, have: seq<string>): (m: Option<string>)
    ensures m.None? <==> forall c :: c in wanted ==> c in have
    ensures m.Some? ==> m.value in wanted && m.value !in have
  {
    if wanted == [] then None
    else if wanted[0] !in have then Some(wanted[0])
    else FirstMissing(wanted[1..], have)
  }

  /** `select(cols)`: expose exactly `cols`, in that order; naming an absent column fails. */
  function Select(t: Table, cols: seq<string>): (r: Outcome<Table>)
    ensures r.Ok? <==> forall c :: c in cols ==> c in t.columns
    ensures r.Ok? ==> r.value == Table(cols, t.rows)
    ensures r.Err? ==> r.error.ColumnNotFound? && r.error.column in cols && r.error.column !in t.columns
  {
    match FirstMissing(cols, t.columns)
    case Some(c) => Err(ColumnNotFound(c))
    case None => Ok(Table(cols, t.rows))
  }

  /** The cells of one column, top to bottom. */
  function Column(rows: seq<Row>, c: string): (vs: seq<Value>)
    ensures |vs| == |rows|
    ensures forall i :: 0 <= i < |rows| ==> vs[i] == Cell(rows[i], c)
  {
    seq(|rows|, i requires 0 <= i < |rows| => Cell(rows[i], c))
  }

  /** How many entries of a column equal `w`. */
  function Count(ws: seq<Value>, w: Value): nat
  {
    if ws == [] then 0 else (if ws[0] == w then 1 else 0) + Count(ws[1..], w)
  }

  lemma {:induction false} CountAppend(a: seq<Value>, b: seq<Value>, w: Value)
    ensures Count(a + b, w) == Count(a, w) + Count(b, w)
    decreases |a|
  {
    if a == [] {
      assert a + b == b;
    } else {
      assert (a + b)[1..] == a[1..] + b;
      CountAppend(a[1..], b, w);
    }
  }

  lemma {:induction false} CountNone(ws: seq<Value>, w: Value)
    requires w !in ws
    ensures Count(ws, w) == 0
    decreases |ws|
  {
    if ws != [] {
      CountNone(ws[1..], w);
    }
  }

  /** Counting a column around one of its entries. */
  lemma CountAround(ws: seq<Value>, i: int)
    requires 0 <= i < |ws|
    ensures Count(ws, ws[i]) == Count(ws[..i], ws[i]) + 1 + Count(ws[i + 1..], ws[i])
  {
    var w, after := ws[i], ws[i + 1..];
    assert Count([w] + after, w) == 1 + Count(after, w) by {
      assert ([w] + after)[1..] == after;
    }
    CountAppend(ws[..i], [w] + after, w);
    assert ws[..i] + ([w] + after) == ws;
  }
}
