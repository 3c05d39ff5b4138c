/**
 * Model of src/data_processing.py: `load_and_clean_data`.
 *
 * A table is a sequence of rows. Each cell may be missing (NaN / NaT). The
 * named columns are the four the rest of the pipeline reads; `vitals` holds
 * every other numeric column of the CSV, which matters because `dropna`
 * looks at all columns. Dates are already comparable integers (day numbers).
 */
module DataProcessing {
  import opened Wrappers

  datatype Row = Row(
    patientId: Option<string>,
    date: Option<int>,
    heartRate: Option<real>,
    systolicBp: Option<real>,
    vitals: seq<Option<real>>)

  /** The value of one cell, whatever its column's type. */
  datatype Value = Text(text: string) | Day(day: int) | Num(num: real)

  /** The carry before the first row: nothing seen yet in any column. */
  const Blank: Row := Row(None, None, None, None, [])

  /** Number of columns of a row. */
  function Width(r: Row): nat {
    4 + |r.vitals|
  }

  /** Column `k` of row `r` (0: Patient ID, 1: date, 2: heart_rate, 3: systolic_bp, 4..: other vitals). */
  function Cell(r: Row, k: nat): Option<Value> {
    if k == 0 then (if r.patientId.Some? then Some(Text(r.patientId.value)) else None)
    else if k == 1 then (if r.date.Some? then Some(Day(r.date.value)) else None)
    else if k == 2 then (if r.heartRate.Some? then Some(Num(r.heartRate.value)) else None)
    else if k == 3 then (if r.systolicBp.Some? then Some(Num(r.systolicBp.value)) else None)
    else if k - 4 < |r.vitals| && r.vitals[k - 4].Some? then Some(Num(r.vitals[k - 4].value))
    else None
  }

  /** Column `k` of table `t`, top to bottom. */
  function Column(t: seq<Row>, k: nat): (col: seq<Option<Value>>)
    ensures |col| == |t|
    ensures forall i :: 0 <= i < |t| ==> col[i] == Cell(t[i], k)
  {
    seq(|t|, i requires 0 <= i < |t| => Cell(t[i], k))
  }

  /** A data frame: every row has the same columns. */
  predicate Rectangular(t: seq<Row>) {
    forall i :: 0 <= i < |t| ==> |t[i].vitals| == |t[0].vitals|
  }

  /** A row with no missing cell (what `dropna` keeps). */
  predicate Complete(r: Row) {
    forall k :: 0 <= k < Width(r) ==> Cell(r, k).Some?
  }

  // ---------------------------------------------------------------------------
  // Forward fill (`df.ffill()`, line 20)
  // ---------------------------------------------------------------------------

  /** A cell keeps its own value when present, else takes the carried one. */
  function Pick<T>(cell: Option<T>, last: Option<T>): Option<T> {
    if cell.Some? then cell else last
  }

  /** Fill row `r` from `last`, the already-filled row above it. */
  function FillRow(last: Row, r: Row): (f: Row)
    ensures Width(f) == Width(r)
    ensures forall k :: 0 <= k < Width(r) ==> Cell(f, k) == Pick(Cell(r, k), Cell(last, k))
  {
    Row(Pick(r.patientId, last.patientId),
        Pick(r.date, last.date),
        Pick(r.heartRate, last.heartRate),
        Pick(r.systolicBp, last.systolicBp),
        seq(|r.vitals|, j requires 0 <= j < |r.vitals| =>
          Pick(r.vitals[j], if j < |last.vitals| then last.vitals[j] else None)))
  }

  /** Forward fill of `t` whose carry starts at `last`: a scan over the rows. */
  function FfillFrom(last: Row, t: seq<Row>): (f: seq<Row>)
    ensures |f| == |t|
    ensures forall i :: 0 <= i < |t| ==> Width(f[i]) == Width(t[i])
    decreases |t|
  {
    if t == [] then []
    else
      var r := FillRow(last, t[0]);
      [r] + FfillFrom(r, t[1..])
  }

  /** `df.ffill()`: over the whole table, column by column, not grouped by patient. */
  function Ffill(t: seq<Row>): seq<Row> {
    FfillFrom(Blank, t)
  }

  /** The loop pandas runs: carry the last filled row and fill the next one from it. */
  method ForwardFill(t: seq<Row>) returns (filled: seq<Row>)
    ensures filled == Ffill(t)
  {
    filled := [];
    var last := Blank;
    var i := 0;
    while i < |t|
      invariant 0 <= i <= |t|
      invariant filled + FfillFrom(last, t[i..]) == Ffill(t)
    {
      assert t[i..][1..] == t[i + 1..];
      var r := FillRow(last, t[i]);
      filled := filled + [r];
      last := r;
      i := i + 1;
    }
    assert t[i..] == [];
  }

  // ---------------------------------------------------------------------------
  // A single column, for any cell type
  // ---------------------------------------------------------------------------

  /** Forward fill of one column with carry `last`. */
  function FillFrom<T>(last: Option<T>, col: seq<Option<T>>): (f: seq<Option<T>>)
    ensures |f| == |col|
    decreases |col|
  {
    if col == [] then []
    else
      var v := Pick(col[0], last);
      [v] + FillFrom(v, col[1..])
  }

  /** Index of the last present cell at or above row `i`, or -1 when there is none. */
  function LastPresent<T>(col: seq<Option<T>>, i: int): (j: int)
    requires -1 <= i < |col|
    ensures -1 <= j <= i
    ensures j >= 0 ==> col[j].Some?
    ensures forall m :: j < m <= i ==> col[m].None?
    decreases i + 1
  {
    if i < 0 then -1
    else if col[i].Some? then i
    else LastPresent(col, i - 1)
  }

  /** Dropping the top cell shifts the last present index by one, unless only the top cell is left. */
  lemma {:induction false} LastPresentTail<T>(col: seq<Option<T>>, i: nat)
    requires 1 <= i < |col|
    ensures var j' := LastPresent(col[1..], i - 1);
      LastPresent(col, i) == if j' >= 0 then j' + 1 else LastPresent(col, 0)
  {
    if col[i].None? && i >= 2 {
      LastPresentTail(col, i - 1);
    }
  }

  /** A filled cell is the last present cell at or above it, or the initial carry. */
  lemma {:induction false} FillFromAt<T>(last: Option<T>, col: seq<Option<T>>, i: nat)
    requires i < |col|
    ensures var j := LastPresent(col, i);
      FillFrom(last, col)[i] == if j < 0 then last else col[j]
    decreases |col|
  {
    if i > 0 {
      FillFromAt(Pick(col[0], last), col[1..], i - 1);
      LastPresentTail(col, i);
    }
  }

  // ---------------------------------------------------------------------------
  // From rows to columns
  // ---------------------------------------------------------------------------

  /** Row `i` of the filled table is row `i` filled from the filled row above it. */
  lemma {:induction false} FfillFromAt(last: Row, t: seq<Row>, i: nat)
    requires i < |t|
    ensures FfillFrom(last, t)[i] == FillRow(if i == 0 then last else FfillFrom(last, t)[i - 1], t[i])
    decreases |t|
  {
    if i > 0 {
      var r := FillRow(last, t[0]);
      FfillFromAt(r, t[1..], i - 1);
    }
  }

  lemma ColumnCons(t: seq<Row>, k: nat)
    requires t != []
    ensures Column(t, k) == [Cell(t[0], k)] + Column(t[1..], k)
  {
  }

  /** Filling the table fills each column on its own (column `k` must exist in every row). */
  lemma {:induction false} FfillColumn(last: Row, t: seq<Row>, k: nat)
    requires forall i :: 0 <= i < |t| ==> k < Width(t[i])
    ensures Column(FfillFrom(last, t), k) == FillFrom(Cell(last, k), Column(t, k))
    decreases |t|
  {
    if t != [] {
      var r := FillRow(last, t[0]);
      FfillColumn(r, t[1..], k);
      ColumnCons(t, k);
      ColumnCons(FfillFrom(last, t), k);
    }
  }

  lemma BlankHasNoCell(k: nat)
    ensures Cell(Blank, k) == None
  {
  }

  // ---------------------------------------------------------------------------
  // Properties of forward fill
  // ---------------------------------------------------------------------------

  /** The row count and every row's width are kept, and a present cell is never changed. */
  lemma FfillKeepsPresent(t: seq<Row>, i: nat, k: nat)
    requires i < |t| && k < Width(t[i])
    requires Cell(t[i], k).Some?
    ensures |Ffill(t)| == |t| && Width(Ffill(t)[i]) == Width(t[i])
    ensures Cell(Ffill(t)[i], k) == Cell(t[i], k)
  {
    FfillFromAt(Blank, t, i);
  }

  /** After the fill a cell is missing iff it and every cell above it in its column are missing. */
  lemma FfillMissingIff(t: seq<Row>, i: nat, k: nat)
    requires Rectangular(t)
    requires i < |t| && k < Width(t[i])
    ensures Cell(Ffill(t)[i], k).None? <==> forall j :: 0 <= j <= i ==> Cell(t[j], k).None?
  {
    FfillColumn(Blank, t, k);
    BlankHasNoCell(k);
    var col := Column(t, k);
    FillFromAt(None, col, i);
    var j := LastPresent(col, i);
    if j >= 0 {
      assert Cell(t[j], k).Some?;
    }
  }

  /** A filled cell, when present, is a copy of the nearest present cell at or above it. */
  lemma {:induction false} FfillTakesNearestAbove(t: seq<Row>, i: nat, k: nat)
    requires Rectangular(t)
    requires i < |t| && k < Width(t[i])
    requires Cell(Ffill(t)[i], k).Some?
    ensures exists j :: (0 <= j <= i && Cell(Ffill(t)[i], k) == Cell(t[j], k) &&
      forall m :: j < m <= i ==> Cell(t[m], k).None?)
  {
    FfillColumn(Blank, t, k);
    BlankHasNoCell(k);
    var col := Column(t, k);
    FillFromAt(None, col, i);
    var j := LastPresent(col, i);
    assert j >= 0;
    assert forall m :: j < m <= i ==> col[m] == Cell(t[m], k);
  }

  /** Filling a row twice from the same carry is filling it once. */
  lemma FillRowIdempotent(last: Row, r: Row)
    ensures FillRow(last, FillRow(last, r)) == FillRow(last, r)
  {
  }

  lemma {:induction false} FfillFromIdempotent(last: Row, t: seq<Row>)
    ensures FfillFrom(last, FfillFrom(last, t)) == FfillFrom(last, t)
    decreases |t|
  {
    if t != [] {
      var r := FillRow(last, t[0]);
      FillRowIdempotent(last, t[0]);
      FfillFromIdempotent(r, t[1..]);
      assert FfillFrom(last, t)[1..] == FfillFrom(r, t[1..]);
    }
  }

  /** Forward fill is idempotent. */
  lemma FfillIdempotent(t: seq<Row>)
    ensures Ffill(Ffill(t)) == Ffill(t)
  {
    FfillFromIdempotent(Blank, t);
  }

  /**
   * The fill ignores patients: the second patient's missing first heart rate
   * is taken from the first patient's last reading.
   */
  lemma FfillCrossesPatients()
    ensures var t := [Row(Some("P1"), Some(1), Some(80.0), Some(120.0), []),
                      Row(Some("P2"), Some(1), None, Some(130.0), [])];
      Ffill(t)[1] == Row(Some("P2"), Some(1), Some(80.0), Some(130.0), [])
  {
    var t := [Row(Some("P1"), Some(1), Some(80.0), Some(120.0), []),
              Row(Some("P2"), Some(1), None, Some(130.0), [])];
    FfillFromAt(Blank, t, 0);
    FfillFromAt(Blank, t, 1);
  }

  // ---------------------------------------------------------------------------
  // Drop incomplete rows (`df.dropna()`, line 21)
  // ---------------------------------------------------------------------------

  function DropNa(t: seq<Row>): (r: seq<Row>)
    ensures |r| <= |t|
    ensures forall i :: 0 <= i < |r| ==> Complete(r[i])
    ensures forall x :: x in r <==> x in t && Complete(x)
  {
    if t == [] then []
    else if Complete(t[0]) then [t[0]] + DropNa(t[1..])
    else DropNa(t[1..])
  }

  /** `dropna` keeps the relative order of the rows it keeps. */
  lemma {:induction false} DropNaAppend(a: seq<Row>, b: seq<Row>)
    ensures DropNa(a + b) == DropNa(a) + DropNa(b)
  {
    if a == [] {
      assert a + b == b;
    } else {
      assert (a + b)[1..] == a[1..] + b;
      DropNaAppend(a[1..], b);
    }
  }

  /** When exactly the rows from `k` on are complete, `dropna` keeps the suffix from `k`. */
  lemma {:induction false} DropNaSuffix(s: seq<Row>, k: nat)
    requires k <= |s|
    requires forall i :: 0 <= i < k ==> !Complete(s[i])
    requires forall i :: k <= i < |s| ==> Complete(s[i])
    ensures DropNa(s) == s[k..]
  {
    if s != [] {
      if k == 0 {
        DropNaSuffix(s[1..], 0);
      } else {
        DropNaSuffix(s[1..], k - 1);
      }
    }
  }

  // ---------------------------------------------------------------------------
  // The survivors of ffill + dropna are a suffix
  // ---------------------------------------------------------------------------

  /** Column `k` has had a value in some row at or above row `i`. */
  predicate Seen(t: seq<Row>, k: nat, i: nat)
    requires i < |t|
  {
    exists j :: 0 <= j <= i && Cell(t[j], k).Some?
  }

  /** Every column of row `i` has had a value at or above row `i`. */
  predicate SeenAll(t: seq<Row>, i: nat)
    requires i < |t|
  {
    forall k :: 0 <= k < Width(t[i]) ==> Seen(t, k, i)
  }

  /** The first row at which every column has had a value, or |t| when there is none. */
  function FirstSeenAll(t: seq<Row>, from: nat): (k: nat)
    requires from <= |t|
    ensures from <= k <= |t|
    ensures forall i :: from <= i < k ==> !SeenAll(t, i)
    ensures k < |t| ==> SeenAll(t, k)
    decreases |t| - from
  {
    if from == |t| then from
    else if SeenAll(t, from) then from
    else FirstSeenAll(t, from + 1)
  }

  /** A filled row is complete iff each of its columns has had a value at or above it. */
  lemma FfillCompleteIff(t: seq<Row>, i: nat)
    requires Rectangular(t) && i < |t|
    ensures Complete(Ffill(t)[i]) <==> SeenAll(t, i)
  {
    forall k | 0 <= k < Width(t[i])
      ensures Cell(Ffill(t)[i], k).Some? <==> Seen(t, k, i)
    {
      FfillMissingIff(t, i, k);
    }
  }

  /** Once every column has had a value, it stays so further down. */
  lemma SeenAllMonotone(t: seq<Row>, i: nat, i': nat)
    requires Rectangular(t) && i <= i' < |t|
    requires SeenAll(t, i)
    ensures SeenAll(t, i')
  {
    forall k | 0 <= k < Width(t[i'])
      ensures Seen(t, k, i')
    {
      assert Seen(t, k, i);
    }
  }

  /**
   * ffill then dropna keeps exactly the filled rows from the first row by
   * which every column has had a value: a contiguous suffix.
   */
  lemma CleanIsSuffix(t: seq<Row>)
    requires Rectangular(t)
    ensures DropNa(Ffill(t)) == Ffill(t)[FirstSeenAll(t, 0)..]
  {
    var f, k := Ffill(t), FirstSeenAll(t, 0);
    forall i | 0 <= i < |f|
      ensures Complete(f[i]) <==> k <= i
    {
      FfillCompleteIff(t, i);
      if k <= i {
        SeenAllMonotone(t, k, i);
      }
    }
    DropNaSuffix(f, k);
  }

  // ---------------------------------------------------------------------------
  // load_and_clean_data
  // ---------------------------------------------------------------------------

  /**
   * `source` is the CSV's table, or None when the file does not exist
   * (FileNotFoundError, caught and turned into a None result).
   */
  function LoadAndCleanData(source: Option<seq<Row>>): (r: Option<seq<Row>>)
    ensures r.None? <==> source.None?
    ensures r.Some? ==> |r.value| <= |source.value|
    ensures r.Some? ==> forall i :: 0 <= i < |r.value| ==> Complete(r.value[i])
  {
    match source
    case None => None
    case Some(t) => Some(DropNa(Ffill(t)))
  }
}
