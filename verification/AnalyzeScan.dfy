/** Whole ANALYZE scans: stat_init, one stat_push per row of the index, and
    what stat_get then returns.
 */
module AnalyzeScan {
  import opened Arithmetic
  import opened IndexRows
  import opened Stat4
  import opened Stat4Invariant

  const STAT4_SAMPLES := 24

  function Seed(nCol: nat, nRowArg: int): nat {
    ((((0x689e962d * nCol) % U32) as bv32) ^ (((0xd0944565 * nRowArg) % U32) as bv32)) as nat
  }

  function ZeroSample(nCol: nat): Sample {
    Sample(seq(nCol, _ => 0), seq(nCol, _ => 0), seq(nCol, _ => 0), IntRowid(0), false, 0, 0)
  }

  // statInit; nRowArg is the number of rows that OP_Count found in the index.
  function Init(nCol: nat, nRowArg: nat): Accum
    requires nCol > 0
  {
    Accum(0, nRowArg / (STAT4_SAMPLES / 3 + 1) + 1, nCol, STAT4_SAMPLES,
          ZeroSample(nCol), Seed(nCol, nRowArg),
          seq(nCol, i => ZeroSample(nCol).(iCol := if 0 <= i < nCol then i else 0)), 0, [])
  }

  // The rows of g, pushed in order.
  function PushAll(st: Accum, g: seq<nat>, rowids: seq<Rowid>): (r: Accum)
    requires Shape(st) && |g| == |rowids|
    ensures Shape(r) && SameConfig(st, r)
    decreases |g|
  {
    if |g| == 0 then st
    else
      var n := |g| - 1;
      Push(PushAll(st, g[..n], rowids[..n]), g[n], rowids[n])
  }

  // The sample carries the rowid of the row it came from.
  ghost predicate From(s: Sample, rowids: seq<Rowid>) {
    |s.anLt| > 0 && RowOf(s) < |rowids| && s.rowid == rowids[RowOf(s)]
  }

  ghost predicate AllFrom(a: seq<Sample>, n: nat, rowids: seq<Rowid>) {
    n <= |a| && forall j :: 0 <= j < n ==> From(a[j], rowids)
  }

  ghost predicate RowidsOk(st: Accum, rowids: seq<Rowid>) {
    && st.nCol > 0
    && From(st.current, rowids) && AllFrom(st.a, |st.a|, rowids) && AllFrom(st.aBest, st.nCol - 1, rowids)
  }

  lemma InsertFrom(st: Accum, x: Sample, nEqZero: nat, rowids: seq<Rowid>)
    requires Shape(st) && Sized(x, st.nCol) && nEqZero < st.nCol
    requires AllFrom(st.a, |st.a|, rowids) && From(x, rowids)
    ensures var r := Insert(st, x, nEqZero).a; AllFrom(r, |r|, rowids)
  {
    hide AllSized, Better, ScanUpgrade, ScanMin;
    var e := Evict(st);
    assert forall j :: 0 <= j < |e| ==> e[j] == st.a[if |st.a| < st.mxSample || j < st.iMin then j else j + 1];
  }

  lemma BestFrom(st: Accum, i: nat, rowids: seq<Rowid>)
    requires Shape(st) && i < st.nCol - 1 && RowidsOk(st, rowids)
    ensures RowidsOk(PushBest(st, i), rowids)
  {
    hide Insert, Better, BetterPost;
    var x := Candidate(st, i);
    assert From(st.aBest[i], rowids);
    InsertFrom(st.(aBest := st.aBest[i := x]), x, i, rowids);
  }

  lemma {:induction false} StepsFrom(st: Accum, iChng: nat, n: nat, rowids: seq<Rowid>)
    requires Shape(st) && n < st.nCol && RowidsOk(st, rowids)
    ensures RowidsOk(PushBests(st, iChng, n), rowids)
    decreases n
  {
    if n > iChng {
      BestFrom(st, n - 1, rowids);
      hide RowidsOk, PushBest;
      StepsFrom(PushBest(st, n - 1), iChng, n - 1, rowids);
    }
  }

  lemma CloseFrom(st: Accum, iChng: nat, rowids: seq<Rowid>)
    requires Shape(st) && RowidsOk(st, rowids)
    ensures RowidsOk(PushPrevious(st, iChng), rowids)
  {
    StepsFrom(st, iChng, st.nCol - 1, rowids);
    var st1 := PushBests(st, iChng, st.nCol - 1);
    hide PushBests, From, FillAll;
    FillFrom(st1.a, iChng, st1.current.anEq, rowids);
  }

  lemma FillFrom(a: seq<Sample>, iChng: nat, cur: seq<nat>, rowids: seq<Rowid>)
    requires AllSized(a, |cur|) && AllFrom(a, |a|, rowids)
    ensures AllFrom(FillAll(a, iChng, cur), |a|, rowids)
  {
    forall j | 0 <= j < |a| ensures From(Fill(a[j], iChng, cur), rowids) {
      assert From(a[j], rowids);
    }
  }

  lemma FromMore(st: Accum, rowids: seq<Rowid>, rowid: Rowid)
    requires RowidsOk(st, rowids)
    ensures RowidsOk(st, rowids + [rowid])
  {
    assert forall s: Sample :: From(s, rowids) ==> From(s, rowids + [rowid]);
  }

  lemma PeriodicFrom(st: Accum, rowids: seq<Rowid>)
    requires Shape(st) && From(st.current, rowids) && AllFrom(st.a, |st.a|, rowids)
    ensures From(PushPeriodic(st).current, rowids) && AllFrom(PushPeriodic(st).a, |PushPeriodic(st).a|, rowids)
  {
    var cur := st.current.(isPSample := true, iCol := 0);
    InsertFrom(st.(current := cur), cur, st.nCol - 1, rowids);
  }

  lemma {:induction false} RefreshFrom(st: Accum, d: nat, i: nat, rowids: seq<Rowid>)
    requires Shape(st) && i < st.nCol && From(st.current, rowids)
    requires forall j :: 0 <= j < st.nCol - 1 && (j < i || j < d) ==> From(st.aBest[j], rowids)
    ensures var r := UpdateBest(st, d, i); From(r.current, rowids) && AllFrom(r.aBest, st.nCol - 1, rowids)
    decreases st.nCol - i
  {
    if i < st.nCol - 1 {
      var cur := st.current.(iCol := i);
      assert From(cur, rowids);
      hide From, BetterPost;
      RefreshFrom(RefreshBest(st, d, i), d, i + 1, rowids);
    }
  }

  ghost predicate ScanInv(st: Accum, g: seq<nat>, rowids: seq<Rowid>, maxRows: nat) {
    Inv(st, g, maxRows) && |rowids| == |g| && RowidsOk(st, rowids)
  }

  // The current row carries the new rowid and is row |g|.
  lemma CurrentFrom(st: Accum, g: seq<nat>, iChng: nat, rowids: seq<Rowid>, rowid: Rowid)
    requires st.nCol > 0 && iChng < st.nCol && Closing(st, g, st.nCol - 1) && |rowids| == |g|
    ensures From(NextRow(st, iChng, rowid).current, rowids + [rowid])
  {
    NextRowKeeps(st, g, iChng, rowid);
  }

  lemma PushFrom(st: Accum, g: seq<nat>, rowids: seq<Rowid>, maxRows: nat, iChng: nat, rowid: Rowid)
    requires ScanInv(st, g, rowids, maxRows) && iChng < st.nCol
    ensures RowidsOk(Push(st, iChng, rowid), rowids + [rowid])
  {
    CloseFrom(st, iChng, rowids);
    FromMore(PushPrevious(st, iChng), rowids, rowid);
    CurrentFrom(st, g, iChng, rowids, rowid);
    var st1 := NextRow(st, iChng, rowid);
    PeriodicFrom(st1, rowids + [rowid]);
    RefreshFrom(PushPeriodic(st1), iChng, 0, rowids + [rowid]);
  }

  lemma FirstPushFrom(st: Accum, maxRows: nat, rowid: Rowid)
    requires Fresh(st, maxRows)
    ensures RowidsOk(Push(st, 0, rowid), [rowid])
  {
    var st1 := NextRow(st, 0, rowid);
    assert From(st1.current, [rowid]);
    PeriodicFrom(st1, [rowid]);
    RefreshFrom(PushPeriodic(st1), 0, 0, [rowid]);
  }

  lemma InitFresh(nCol: nat, nRowArg: nat)
    requires nCol > 0
    ensures Fresh(Init(nCol, nRowArg), nRowArg)
  {
  }

  /** The invariant holds after every prefix of every scan. */
  lemma {:induction false} ScanKeeps(nCol: nat, nRowArg: nat, g: seq<nat>, rowids: seq<Rowid>)
    requires nCol > 0 && ChangeList(g, nCol) && 0 < |g| == |rowids| <= nRowArg
    ensures ScanInv(PushAll(Init(nCol, nRowArg), g, rowids), g, rowids, nRowArg)
    decreases |g|
  {
    var n := |g| - 1;
    var st0 := Init(nCol, nRowArg);
    InitFresh(nCol, nRowArg);
    assert g == g[..n] + [g[n]] && rowids == rowids[..n] + [rowids[n]];
    if n == 0 {
      FirstPushKeeps(st0, nRowArg, rowids[0]);
      FirstPushFrom(st0, nRowArg, rowids[0]);
      assert PushAll(st0, g[..n], rowids[..n]) == st0;
    } else {
      ScanKeeps(nCol, nRowArg, g[..n], rowids[..n]);
      var st := PushAll(st0, g[..n], rowids[..n]);
      PushKeeps(st, g[..n], nRowArg, g[n], rowids[n]);
      PushFrom(st, g[..n], rowids[..n], nRowArg, g[n], rowids[n]);
    }
  }

  // What stat_get(P, STAT_GET_ROWID) first does, and the samples it then returns.
  function Samples(st: Accum): seq<Sample>
    requires Shape(st)
  {
    PushPrevious(st, 0).a
  }

  // nEq, nLt and nDLt of s are the cardinalities of its row over the whole index.
  ghost predicate IsExactSample(rows: seq<Row>, nCol: nat, rowids: seq<Rowid>, s: Sample)
    requires WellFormed(rows, nCol) && |rowids| == |rows|
  {
    && Sized(s, nCol) && RowOf(s) < |rows| && s.rowid == rowids[RowOf(s)]
    && forall c :: 0 <= c < nCol ==>
         && s.anEq[c] == |EqRows(rows, nCol, RowOf(s), c)|
         && s.anLt[c] == |LtRows(rows, nCol, RowOf(s), c)|
         && s.anDLt[c] == |LtPrefixes(rows, nCol, RowOf(s), c)|
  }

  lemma ExactSample(g: seq<nat>, rows: seq<Row>, nCol: nat, rowids: seq<Rowid>, s: Sample)
    requires WellFormed(rows, nCol) && Sorted(rows, nCol) && Describes(g, rows, nCol) && |rowids| == |rows|
    requires AllExact(g, s, nCol) && From(s, rowids)
    ensures IsExactSample(rows, nCol, rowids, s)
  {
    forall c | 0 <= c < nCol
      ensures s.anEq[c] == |EqRows(rows, nCol, RowOf(s), c)|
      ensures s.anLt[c] == |LtRows(rows, nCol, RowOf(s), c)|
      ensures s.anDLt[c] == |LtPrefixes(rows, nCol, RowOf(s), c)|
    {
      assert LtExact(g, s, RowOf(s), c);
      ExactEqLt(g, rows, nCol, RowOf(s), c);
      ExactDLt(g, rows, nCol, RowOf(s), c);
    }
  }

  /** Bounded memory agrees with exact counts: for every sorted index, every
      sample returned at the end carries the exact nEq, nLt and nDLt of its row
      over the whole index, and the samples come in strictly increasing row
      order. */
  lemma {:induction false} SamplesAreExact(rows: seq<Row>, nCol: nat, g: seq<nat>, rowids: seq<Rowid>, nRowArg: nat)
    requires WellFormed(rows, nCol) && Sorted(rows, nCol) && Describes(g, rows, nCol)
    requires 0 < |rows| == |rowids| <= nRowArg
    ensures var out := Samples(PushAll(Init(nCol, nRowArg), g, rowids));
            && |out| <= 24
            && (forall j :: 0 <= j < |out| ==> IsExactSample(rows, nCol, rowids, out[j]))
            && (forall i, j :: 0 <= i < j < |out| ==> RowOf(out[i]) < RowOf(out[j]))
  {
    ScanKeeps(nCol, nRowArg, g, rowids);
    var st := PushAll(Init(nCol, nRowArg), g, rowids);
    CloseIsExact(st, g);
    CloseFrom(st, 0, rowids);
    var out := Samples(st);
    forall j | 0 <= j < |out| ensures IsExactSample(rows, nCol, rowids, out[j]) {
      assert From(out[j], rowids);
      ExactSample(g, rows, nCol, rowids, out[j]);
    }
  }

  /** The stat1 row. */

  // n/d rounded up, the way statGet computes it.
  function CeilDiv(n: nat, d: nat): nat
    requires d > 0
  {
    (n + d - 1) / d
  }

  function Estimate(st: Accum, i: nat): nat
    requires Shape(st) && i < st.nCol
  {
    CeilDiv(st.nRow, st.current.anDLt[i] + 1)
  }

  // The numbers of a stat1 row: the rows, and an estimate for each of the first n columns.
  function Stat1(st: Accum, n: nat): (a: seq<nat>)
    requires Shape(st) && n <= st.nCol
    ensures |a| == n + 1
  {
    if n == 0 then [st.nRow] else Stat1(st, n - 1) + [Estimate(st, n - 1)]
  }

  lemma EstimateBound(st: Accum, i: nat)
    requires Shape(st) && i < st.nCol && st.nRow > 0
    ensures Estimate(st, i) <= st.nRow
  {
    var n, d := st.nRow, st.current.anDLt[i] + 1;
    var q := CeilDiv(n, d);
    CeilingDivision(n, d);
    MulMonotone(1, d, n);
    MulStep(n, d);
    if q > n { MulMonotone(n + 1, q, d); }
  }

  lemma {:induction false} Stat1Bound(st: Accum, n: nat)
    requires Shape(st) && n <= st.nCol && st.nRow > 0
    ensures forall k :: 0 <= k < |Stat1(st, n)| ==> Stat1(st, n)[k] <= st.nRow
  {
    hide Estimate;
    if n > 0 {
      Stat1Bound(st, n - 1);
      EstimateBound(st, n - 1);
    }
  }

  // q is n/d rounded up.
  predicate IsCeiling(q: nat, n: nat, d: nat) {
    n <= q * d && n + d > q * d
  }

  lemma CeilingDivision(n: nat, d: nat)
    requires n > 0 && d > 0
    ensures IsCeiling(CeilDiv(n, d), n, d)
  {
    var q := (n + d - 1) / d;
    assert n + d - 1 == d * q + (n + d - 1) % d;
  }

  lemma CeilingFalls(q: nat, q': nat, n: nat, d: nat, d': nat)
    requires d <= d' && IsCeiling(q, n, d) && IsCeiling(q', n, d')
    ensures q' <= q
  {
    MulMonotone(d, d', q);
    MulStep(q, d');
    if q' > q { MulMonotone(q + 1, q', d'); }
  }

  lemma CeilingRange(q: nat, n: nat, d: nat)
    requires 0 < d <= n && IsCeiling(q, n, d)
    ensures 1 <= q <= n
  {
    MulMonotone(1, d, n);
    MulStep(n, d);
    if q > n { MulMonotone(n + 1, q, d); }
  }

  // Distinct prefixes never outnumber rows.
  lemma {:induction false} DistBound(g: seq<nat>, k: nat, c: nat)
    requires k < |g|
    ensures Dist(g, k, c) <= k
  {
    if k > 0 { DistBound(g, k - 1, c); }
  }

  lemma CountsOfCurrent(g: seq<nat>, cur: Sample, nCol: nat, i: nat)
    requires CurrentExact(g, cur, nCol) && i < nCol
    ensures cur.anEq[i] > 0 && cur.anLt[i] + cur.anEq[i] == |g| && cur.anDLt[i] == Dist(g, |g| - 1, i)
  {
    assert LtExact(g, cur, |g| - 1, i);
  }

  // The current row of every scan is exact.
  lemma ScanCurrent(nCol: nat, nRowArg: nat, g: seq<nat>, rowids: seq<Rowid>)
    requires nCol > 0 && ChangeList(g, nCol) && 0 < |g| == |rowids| <= nRowArg
    ensures var st := PushAll(Init(nCol, nRowArg), g, rowids); CurrentExact(g, st.current, nCol) && st.nRow == |g|
  {
    hide CurrentExact, SamplesOk, MinOk, BestOk, Covered, RowidsOk;
    ScanKeeps(nCol, nRowArg, g, rowids);
  }

  /** After every push, nLt + nEq of the current row is the number of rows, and
      nDLt + 1 is the number of distinct prefixes seen. */
  lemma {:induction false} CurrentCounts(rows: seq<Row>, nCol: nat, g: seq<nat>, rowids: seq<Rowid>, nRowArg: nat,
      i: nat)
    requires WellFormed(rows, nCol) && Sorted(rows, nCol) && Describes(g, rows, nCol)
    requires 0 < |rows| == |rowids| <= nRowArg && i < nCol
    ensures var st := PushAll(Init(nCol, nRowArg), g, rowids);
            && st.nRow == |rows|
            && st.current.anEq[i] > 0
            && st.current.anLt[i] + st.current.anEq[i] == |rows|
            && st.current.anDLt[i] + 1 == |Prefixes(rows, nCol, i)| == Dist(g, |g| - 1, i) + 1
  {
    hide PushAll, Prefixes, Sorted, CurrentExact, Dist;
    ScanCurrent(nCol, nRowArg, g, rowids);
    CountsOfCurrent(g, PushAll(Init(nCol, nRowArg), g, rowids).current, nCol, i);
    ExactDistinct(g, rows, nCol, i);
  }

  // The arithmetic of two stat1 entries.
  lemma CeilDivBounds(n: nat, d: nat, d': nat)
    requires 0 < d <= d' <= n
    ensures 1 <= CeilDiv(n, d') <= CeilDiv(n, d) <= n
  {
    CeilingDivision(n, d);
    CeilingDivision(n, d');
    CeilingFalls(CeilDiv(n, d), CeilDiv(n, d'), n, d, d');
    CeilingRange(CeilDiv(n, d), n, d);
    CeilingRange(CeilDiv(n, d'), n, d');
  }

  // The stat1 entries of columns i <= j, for n rows with d and d' distinct prefixes.
  predicate GoodEstimates(st: Accum, i: nat, j: nat, n: nat, d: nat, d': nat)
    requires Shape(st) && i <= j < st.nCol
  {
    && 0 < d <= d' <= n
    && IsCeiling(Estimate(st, i), n, d) && IsCeiling(Estimate(st, j), n, d')
    && 1 <= Estimate(st, j) <= Estimate(st, i) <= n
  }

  lemma EstimatesOf(st: Accum, i: nat, j: nat, n: nat, d: nat, d': nat)
    requires Shape(st) && i <= j < st.nCol && 0 < d <= d' <= n
    requires st.nRow == n && st.current.anDLt[i] + 1 == d && st.current.anDLt[j] + 1 == d'
    ensures GoodEstimates(st, i, j, n, d, d')
  {
    CeilingDivision(n, d);
    CeilingDivision(n, d');
    CeilDivBounds(n, d, d');
  }

  lemma PrefixesGrow(g: seq<nat>, rows: seq<Row>, nCol: nat, i: nat, j: nat)
    requires WellFormed(rows, nCol) && Sorted(rows, nCol) && Describes(g, rows, nCol)
    requires |rows| > 0 && i <= j < nCol
    ensures 0 < |Prefixes(rows, nCol, i)| <= |Prefixes(rows, nCol, j)| <= |rows|
  {
    ExactDistinct(g, rows, nCol, i);
    ExactDistinct(g, rows, nCol, j);
    StartMonotone(g, |g| - 1, i, j);
    DistBound(g, |g| - 1, j);
  }

  /** Each stat1 estimate is rows/distinct rounded up, lies in 1..nRow, and never
      grows from one column to the next. */
  lemma {:induction false} EstimatesAreExact(rows: seq<Row>, nCol: nat, g: seq<nat>, rowids: seq<Rowid>, nRowArg: nat,
      i: nat, j: nat)
    requires WellFormed(rows, nCol) && Sorted(rows, nCol) && Describes(g, rows, nCol)
    requires 0 < |rows| == |rowids| <= nRowArg && i <= j < nCol
    ensures GoodEstimates(PushAll(Init(nCol, nRowArg), g, rowids), i, j,
                          |rows|, |Prefixes(rows, nCol, i)|, |Prefixes(rows, nCol, j)|)
  {
    hide PushAll, Prefixes, Sorted, Dist, Estimate, IsCeiling;
    CurrentCounts(rows, nCol, g, rowids, nRowArg, i);
    CurrentCounts(rows, nCol, g, rowids, nRowArg, j);
    PrefixesGrow(g, rows, nCol, i, j);
    var st := PushAll(Init(nCol, nRowArg), g, rowids);
    var d, d' := |Prefixes(rows, nCol, i)|, |Prefixes(rows, nCol, j)|;
    EstimatesOf(st, i, j, |rows|, d, d');
  }

  /** Periodic samples never take more than a third of the array. */
  lemma {:induction false} ScanPeriodicBound(nCol: nat, nRowArg: nat, g: seq<nat>, rowids: seq<Rowid>)
    requires nCol > 0 && ChangeList(g, nCol) && 0 < |g| == |rowids| <= nRowArg
    ensures NumPeriodic(PushAll(Init(nCol, nRowArg), g, rowids).a) <= STAT4_SAMPLES / 3
  {
    ScanKeeps(nCol, nRowArg, g, rowids);
    PeriodicBound(PushAll(Init(nCol, nRowArg), g, rowids), g, nRowArg);
  }
}
