/**
 * The presentation page's own logic: the row highlighter, the Liverpool
 * inverse score assigned into its frame, and the four slices of the record
 * table it shows.  Its completa_e_ordina is the same function as the
 * pipeline's and is modelled once, by Normalizer.
 */
module Introduzione {
  import opened Wrappers
  import opened Frames
  import opened RecordExtractor
  import opened RecordCatalogue

  // ---------------------------------------------------------------------
  // evidenzia_squadra

  /** The style of a highlighted cell: the colour with alpha 0x55. */
  function HighlightStyle(colore: string): string
  {
    "background-color: " + colore + "55"
  }

  /**
   * `evidenzia_squadra(squadra, colore)(row)`: one style per column of the
   * row, all highlighted when the row's team is `squadra`, all empty
   * otherwise.  A frame without a Squadra column raises.
   */
  function EvidenziaSquadra(squadra: string, colore: string, columns: seq<string>, row: Row): (r: Outcome<seq<string>>)
    ensures r.Err? <==> Squadra !in columns
    ensures r.Err? ==> r.error == ColumnNotFound(Squadra)
    ensures r.Ok? ==> |r.value| == |columns|
    ensures r.Ok? ==> forall j :: 0 <= j < |columns| ==>
              && (r.value[j] != "" <==> Cell(row, Squadra) == Str(squadra))
              && (r.value[j] != "" ==> r.value[j] == HighlightStyle(colore))
  {
    if Squadra !in columns then Err(ColumnNotFound(Squadra))
    else
      var style := if Cell(row, Squadra) == Str(squadra) then HighlightStyle(colore) else "";
      Ok(seq(|columns|, _ => style))
  }

  // ---------------------------------------------------------------------
  // The Liverpool inverse score

  const Pos := "Pos"
  const Score := "Score"

  /** `df["Pos"].max()`: the largest position, skipping missing ones; none when every position is missing. */
  function MaxPos(ps: seq<Value>): (m: Option<int>)
    ensures m.None? <==> forall k :: 0 <= k < |ps| ==> !ps[k].Int?
    ensures m.Some? ==> exists k :: 0 <= k < |ps| && ps[k] == Int(m.value)
    ensures m.Some? ==> forall k :: 0 <= k < |ps| && ps[k].Int? ==> ps[k].n <= m.value
  {
    if ps == [] then None
    else
      var init := MaxPos(ps[..|ps| - 1]);
      var last := ps[|ps| - 1];
      assert forall k :: 0 <= k < |ps| - 1 ==> ps[..|ps| - 1][k] == ps[k];
      if !last.Int? then init
      else if init.Some? && init.value >= last.n then init
      else Some(last.n)
  }

  /** `(max_pos + 1) - Pos` for one row; a missing operand gives a missing score. */
  function InverseScore(maxPos: Option<int>, pos: Value): Value
  {
    if maxPos.Some? && pos.Int? then Int(maxPos.value + 1 - pos.n) else Null
  }

  /** The rows after the Score assignment. */
  function ScoredRows(rows: seq<Row>): (r: seq<Row>)
    ensures |r| == |rows|
  {
    var maxPos := MaxPos(Column(rows, Pos));
    seq(|rows|, i requires 0 <= i < |rows| => rows[i][Score := InverseScore(maxPos, Cell(rows[i], Pos))])
  }

  /** Some position is text, on which pandas' arithmetic raises. */
  predicate HasTextPos(rows: seq<Row>)
  {
    exists k | 0 <= k < |rows| :: Cell(rows[k], Pos).Str?
  }

  /** The Liverpool frame, a pandas frame the page updates in place. */
  class LiverpoolFrame {
    var columns: seq<string>
    var rows: seq<Row>

    constructor (columns: seq<string>, rows: seq<Row>)
      ensures this.columns == columns && this.rows == rows
    {
      this.columns := columns;
      this.rows := rows;
    }

    /**
     * `df["Score"] = (df["Pos"].max() + 1) - df["Pos"]`: adds (or replaces)
     * the Score column.  Without a Pos column the lookup raises; with a text
     * position `max()` or `max_pos + 1` raises a TypeError; either way the
     * frame is left as it was.
     */
    method AssignScore() returns (e: Option<Error>)
      modifies this
      ensures Pos !in old(columns) ==> e == Some(ColumnNotFound(Pos)) && columns == old(columns) && rows == old(rows)
      ensures Pos in old(columns) && HasTextPos(old(rows)) ==>
                e == Some(CastFailed(Pos)) && columns == old(columns) && rows == old(rows)
      ensures Pos in old(columns) && !HasTextPos(old(rows)) ==> e.None?
      ensures Pos in old(columns) && !HasTextPos(old(rows)) ==>
                columns == (if Score in old(columns) then old(columns) else old(columns) + [Score])
      ensures Pos in old(columns) && !HasTextPos(old(rows)) ==> rows == ScoredRows(old(rows))
    {
      if Pos !in columns {
        return Some(ColumnNotFound(Pos));
      }
      if HasTextPos(rows) {
        return Some(CastFailed(Pos));
      }
      var current := rows;
      var maxPos := MaxPos(Column(current, Pos));
      var scores := seq(|current|, i requires 0 <= i < |current| => InverseScore(maxPos, Cell(current[i], Pos)));
      if Score !in columns {
        columns := columns + [Score];
      }
      rows := seq(|current|, i requires 0 <= i < |current| => current[i][Score := scores[i]]);
      e := None;
    }
  }

  /** The row with the largest position scores 1. */
  lemma LastPlaceScoresOne(rows: seq<Row>, i: int)
    requires 0 <= i < |rows| && Cell(rows[i], Pos).Int?
    requires forall k :: 0 <= k < |rows| && Cell(rows[k], Pos).Int? ==> Cell(rows[k], Pos).n <= Cell(rows[i], Pos).n
    ensures Cell(ScoredRows(rows)[i], Score) == Int(1)
  {
    var ps := Column(rows, Pos);
    var m := MaxPos(ps);
    var k :| 0 <= k < |ps| && ps[k] == Int(m.value);
    assert ps[i].n <= m.value && ps[k].n <= ps[i].n;
  }

  /** First place scores the largest position, and every score of a position of at least 1 lies between 1 and that. */
  lemma ScoreRange(rows: seq<Row>, i: int)
    requires 0 <= i < |rows| && Cell(rows[i], Pos).Int? && Cell(rows[i], Pos).n >= 1
    ensures var m := MaxPos(Column(rows, Pos));
            && m.Some?
            && Cell(ScoredRows(rows)[i], Score).Int?
            && 1 <= Cell(ScoredRows(rows)[i], Score).n <= m.value
            && (Cell(rows[i], Pos) == Int(1) ==> Cell(ScoredRows(rows)[i], Score) == Int(m.value))
  {
    var ps := Column(rows, Pos);
    assert ps[i].Int?;
  }

  /** A better (smaller) position gets a strictly larger score. */
  lemma ScoreStrictlyDecreasing(rows: seq<Row>, i: int, j: int)
    requires 0 <= i < |rows| && 0 <= j < |rows|
    requires Cell(rows[i], Pos).Int? && Cell(rows[j], Pos).Int? && Cell(rows[i], Pos).n < Cell(rows[j], Pos).n
    ensures Cell(ScoredRows(rows)[i], Score).Int? && Cell(ScoredRows(rows)[j], Score).Int?
    ensures Cell(ScoredRows(rows)[i], Score).n > Cell(ScoredRows(rows)[j], Score).n
  {
    var ps := Column(rows, Pos);
    assert ps[i].Int?;
  }

  // ---------------------------------------------------------------------
  // The record table on the page

  function Min(a: int, b: int): int { if a < b then a else b }

  /** `slice(offset, length)`: at most `length` rows from `offset`, clamped to the table. */
  function Slice(t: Table, offset: nat, length: nat): (r: Table)
    ensures r.columns == t.columns
    ensures |r.rows| == if offset >= |t.rows| then 0 else Min(length, |t.rows| - offset)
    ensures forall k :: 0 <= k < |r.rows| ==> r.rows[k] == t.rows[offset + k]
  {
    var n := |t.rows|;
    Table(t.columns, t.rows[Min(offset, n)..Min(offset + length, n)])
  }

  /** The four slices the page shows are consecutive and disjoint and cover the first 25 rows. */
  lemma SlicesCover(t: Table)
    ensures Slice(t, 0, 6).rows + Slice(t, 6, 6).rows + Slice(t, 12, 6).rows + Slice(t, 18, 7).rows
            == t.rows[..Min(25, |t.rows|)]
  {
    var s, n := t.rows, |t.rows|;
    var a, b, c, d := Min(6, n), Min(12, n), Min(18, n), Min(25, n);
    assert Slice(t, 0, 6).rows == s[..a];
    assert Slice(t, 6, 6).rows == s[a..b];
    assert Slice(t, 12, 6).rows == s[b..c];
    assert Slice(t, 18, 7).rows == s[c..d];
    PrefixJoin(s, a, b);
    PrefixJoin(s, b, c);
    PrefixJoin(s, c, d);
  }

  lemma PrefixJoin<T>(s: seq<T>, a: nat, b: nat)
    requires a <= b <= |s|
    ensures s[..a] + s[a..b] == s[..b]
  {
  }

  /** The record labels of one slice, read off the labels of the rows it covers. */
  lemma SliceNames(t: Table, offset: nat, length: nat, names: seq<Value>)
    requires offset + length <= |t.rows| && |names| == length
    requires forall k :: 0 <= k < length ==> Cell(t.rows[offset + k], Record) == names[k]
    ensures Column(Slice(t, offset, length).rows, Record) == names
  {
  }

  /** The labels a list of requests gives its records. */
  function Names(qs: seq<Request>): (r: seq<Value>)
    ensures |r| == |qs| && forall i :: 0 <= i < |qs| ==> r[i] == Str(qs[i].name)
  {
    seq(|qs|, i requires 0 <= i < |qs| => Str(qs[i].name))
  }

  /** The catalogue is the five groups back to back. */
  lemma CatalogueGroups()
    ensures Catalogue[..6] == Merit && Catalogue[6..12] == Demerit
    ensures Catalogue[12..18] == NonChampions && Catalogue[18..] == Ages + Scorers
  {
    var mdn := Merit + Demerit + NonChampions;
    assert Catalogue == mdn + (Ages + Scorers);
    assert Catalogue[..18] == mdn && Catalogue[18..] == Ages + Scorers;
    assert mdn[..6] == Merit && mdn[6..12] == Demerit && mdn[12..] == NonChampions;
  }

  /** A table labelled as the catalogue followed by the most-scorers record splits into the groups. */
  lemma GroupSlices(t: Table)
    requires |t.rows| == |Catalogue| + 1
    requires forall i :: 0 <= i < |Catalogue| ==> Cell(t.rows[i], Record) == Str(Catalogue[i].name)
    requires Cell(t.rows[|Catalogue|], Record) == Str(MostScorersName)
    ensures && Column(Slice(t, 0, 6).rows, Record) == Names(Merit)
            && Column(Slice(t, 6, 6).rows, Record) == Names(Demerit)
            && Column(Slice(t, 12, 6).rows, Record) == Names(NonChampions)
            && Column(Slice(t, 18, 7).rows, Record) == Names(Ages + Scorers) + [Str(MostScorersName)]
            && Slice(t, 0, 6).rows + Slice(t, 6, 6).rows + Slice(t, 12, 6).rows + Slice(t, 18, 7).rows == t.rows
  {
    var tail := Names(Ages + Scorers) + [Str(MostScorersName)];
    CatalogueGroups();
    forall k | 0 <= k < 6 ensures Cell(t.rows[k], Record) == Names(Merit)[k] {
      assert Catalogue[k] == Catalogue[..6][k];
    }
    forall k | 0 <= k < 6 ensures Cell(t.rows[6 + k], Record) == Names(Demerit)[k] {
      assert Catalogue[6 + k] == Catalogue[6..12][k];
    }
    forall k | 0 <= k < 6 ensures Cell(t.rows[12 + k], Record) == Names(NonChampions)[k] {
      assert Catalogue[12 + k] == Catalogue[12..18][k];
    }
    forall k | 0 <= k < 7 ensures Cell(t.rows[18 + k], Record) == tail[k] {
      if k < 6 {
        assert Catalogue[18 + k] == Catalogue[18..][k];
      }
    }
    SliceNames(t, 0, 6, Names(Merit));
    SliceNames(t, 6, 6, Names(Demerit));
    SliceNames(t, 12, 6, Names(NonChampions));
    SliceNames(t, 18, 7, tail);
    SlicesCover(t);
    assert t.rows[..Min(25, |t.rows|)] == t.rows;
  }

  /**
   * On a complete record table the slices are the catalogue's groups:
   * merit, demerit, non-champion, and the ages, top scorers and the team
   * with most top scorers.
   */
  lemma SlicesAreGroups(src: Sources)
    requires AllFound(src)
    requires forall k :: 0 <= k < |src.topscorer.rows| ==> !Cell(src.topscorer.rows[k], Squadra).Int?
    ensures RecordTable(src).Ok?
    ensures var t := RecordTable(src).value;
            && Column(Slice(t, 0, 6).rows, Record) == Names(Merit)
            && Column(Slice(t, 6, 6).rows, Record) == Names(Demerit)
            && Column(Slice(t, 12, 6).rows, Record) == Names(NonChampions)
            && Column(Slice(t, 18, 7).rows, Record) == Names(Ages + Scorers) + [Str(MostScorersName)]
            && Slice(t, 0, 6).rows + Slice(t, 6, 6).rows + Slice(t, 12, 6).rows + Slice(t, 18, 7).rows == t.rows
  {
    RecordTableRows(src);
    GroupSlices(RecordTable(src).value);
  }
}
