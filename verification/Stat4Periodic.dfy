/** Which rows of a scan become periodic samples: every nPSample-th row, and
    they are never lost. */
module Stat4Periodic {
  import opened Arithmetic
  import opened IndexRows
  import opened Stat4
  import opened Stat4Invariant
  import opened AnalyzeScan

  // A periodic sample of row r is retained.
  ghost predicate HasPeriodic(a: seq<Sample>, r: nat) {
    exists j :: 0 <= j < |a| && |a[j].anLt| > 0 && a[j].isPSample && RowOf(a[j]) == r
  }

  // Of the first n rows, each P-th has its periodic sample.
  ghost predicate PeriodicUpTo(a: seq<Sample>, n: nat, P: nat)
    requires P > 0
  {
    forall r :: 0 <= r < n && (r + 1) % P == 0 ==> HasPeriodic(a, r)
  }

  // The periodic samples of a are all in b.
  ghost predicate PeriodicKept(a: seq<Sample>, b: seq<Sample>) {
    forall j :: 0 <= j < |a| && |a[j].anLt| > 0 && a[j].isPSample ==> HasPeriodic(b, RowOf(a[j]))
  }

  lemma KeptUpTo(a: seq<Sample>, b: seq<Sample>, n: nat, P: nat)
    requires P > 0 && PeriodicUpTo(a, n, P) && PeriodicKept(a, b)
    ensures PeriodicUpTo(b, n, P)
  {
    forall r | 0 <= r < n && (r + 1) % P == 0 ensures HasPeriodic(b, r) {
      assert HasPeriodic(a, r);
      var j :| 0 <= j < |a| && |a[j].anLt| > 0 && a[j].isPSample && RowOf(a[j]) == r;
    }
  }

  // Evicting takes a sample that is not periodic.
  lemma EvictKept(st: Accum, x: Sample)
    requires Shape(st) && MinOk(st)
    ensures PeriodicKept(st.a, Evict(st) + [x])
  {
    var b := Evict(st) + [x];
    forall j | 0 <= j < |st.a| && |st.a[j].anLt| > 0 && st.a[j].isPSample ensures HasPeriodic(b, RowOf(st.a[j])) {
      assert b[if |st.a| < st.mxSample || j < st.iMin then j else j - 1] == st.a[j];
    }
  }

  lemma SameKept(a: seq<Sample>, b: seq<Sample>)
    requires |a| == |b|
    requires forall j :: 0 <= j < |a| ==> b[j].isPSample == a[j].isPSample && b[j].anLt == a[j].anLt
    ensures PeriodicKept(a, b)
  {
    forall j | 0 <= j < |a| && |a[j].anLt| > 0 && a[j].isPSample ensures HasPeriodic(b, RowOf(a[j])) {
      assert RowOf(b[j]) == RowOf(a[j]);
    }
  }

  lemma InsertKept(st: Accum, x: Sample, nEqZero: nat)
    requires Shape(st) && MinOk(st) && Sized(x, st.nCol) && nEqZero < st.nCol
    ensures PeriodicKept(st.a, Insert(st, x, nEqZero).a)
  {
    hide Better, ScanMin, ScanUpgrade, MinOk;
    var r := Insert(st, x, nEqZero);
    var scan := if x.isPSample then Found(-1) else ScanUpgrade(st.a, st.nCol, x.iCol, |st.a|, -1);
    if scan.Blocked? || scan.j >= 0 {
      SameKept(st.a, r.a);
    } else {
      EvictKept(st, ZeroFirst(x, nEqZero));
    }
  }

  lemma ClosingParts(st: Accum, g: seq<nat>, n: nat)
    requires Closing(st, g, n)
    ensures Shape(st) && MinOk(st) && n < st.nCol
  {
  }

  lemma BestsStep(st: Accum, iChng: nat, n: nat)
    requires Shape(st) && iChng < n <= st.nCol
    ensures PushBests(st, iChng, n) == PushBests(PushBest(st, n - 1), iChng, n - 1)
  {
  }

  lemma BestsNone(st: Accum, iChng: nat, n: nat)
    requires Shape(st) && n <= st.nCol && n <= iChng
    ensures PushBests(st, iChng, n) == st
  {
  }

  // So closing a row loses no periodic sample.
  lemma {:induction false} StepsKept(st: Accum, g: seq<nat>, iChng: nat, n: nat, P: nat)
    requires Closing(st, g, n) && P > 0 && PeriodicUpTo(st.a, |g|, P)
    ensures Shape(st) && n <= st.nCol && PeriodicUpTo(PushBests(st, iChng, n).a, |g|, P)
    decreases n
  {
    hide *;
    ClosingParts(st, g, n);
    if n > iChng {
      BestKept(st, n - 1);
      KeptUpTo(st.a, PushBest(st, n - 1).a, |g|, P);
      StepKeeps(st, g, n - 1);
      BestsStep(st, iChng, n);
      StepsKept(PushBest(st, n - 1), g, iChng, n - 1, P);
    } else {
      BestsNone(st, iChng, n);
    }
  }

  lemma BestKept(st: Accum, i: nat)
    requires Shape(st) && MinOk(st) && i < st.nCol
    ensures PeriodicKept(st.a, PushBest(st, i).a)
  {
    hide Insert, Better, MinOk, LeastOf;
    var x := Candidate(st, i);
    SameMin(st, st.aBest[i := x]);
    InsertKept(st.(aBest := st.aBest[i := x]), x, i);
    SameKept(st.a, st.a);
  }

  lemma SameMin(st: Accum, aBest: seq<Sample>)
    requires Shape(st) && Shape(st.(aBest := aBest)) && MinOk(st)
    ensures MinOk(st.(aBest := aBest))
  {
  }

  lemma FillKept(a: seq<Sample>, iChng: nat, cur: seq<nat>)
    requires AllSized(a, |cur|)
    ensures PeriodicKept(a, FillAll(a, iChng, cur))
  {
    SameKept(a, FillAll(a, iChng, cur));
  }

  // Row number r is to be sampled exactly if r+1 is a multiple of P.
  lemma PeriodicExactly(r: nat, P: nat)
    requires P > 0
    ensures IsPeriodic(r, P) <==> (r + 1) % P == 0
  {
    PeriodicRow(r, P);
    if (r + 1) % P == 0 {
      var q := (r + 1) / P;
      assert r + 1 == P * q;
      assert q > 0;
      assert P * q == P * (q - 1) + P;
      DivUnique(r, P, q - 1, P - 1);
    }
  }

  // The current row joins, if it is its turn.
  lemma PeriodicJoins(st: Accum, g: seq<nat>)
    requires st.nCol > 0 && Core(st, g, st.nCol - 1) && PeriodicUpTo(st.a, |g| - 1, st.nPSample)
    ensures PeriodicUpTo(PushPeriodic(st).a, |g|, st.nPSample)
  {
    hide Better, ScanMin, ScanUpgrade, IsPeriodic, SamplesOk, Covered, LeastOf;
    var r, P, st' := |g| - 1, st.nPSample, PushPeriodic(st);
    PeriodicExactly(r, P);
    assert st.current.anLt[st.nCol - 1] == r;
    if IsPeriodic(r, P) {
      var cur := st.current.(isPSample := true, iCol := 0);
      InsertIgnoresCurrent(st, cur, cur, st.nCol - 1);
      InsertKept(st, cur, st.nCol - 1);
      KeptUpTo(st.a, st'.a, r, P);
      var last := st'.a[|st'.a| - 1];
      assert last == ZeroFirst(cur, st.nCol - 1) && last.isPSample && RowOf(last) == r;
      assert HasPeriodic(st'.a, r);
    }
  }

  lemma UpdateKeepsSamples(st: Accum, iChng: nat, i: nat)
    requires Shape(st) && i < st.nCol
    ensures UpdateBest(st, iChng, i).a == st.a
  {
  }

  lemma PushJoins(st: Accum, g: seq<nat>, maxRows: nat, iChng: nat, rowid: Rowid)
    requires Inv(st, g, maxRows) && iChng < st.nCol && PeriodicUpTo(st.a, |g|, st.nPSample)
    ensures PeriodicUpTo(Push(st, iChng, rowid).a, |g| + 1, st.nPSample)
  {
    hide CurrentExact, SamplesOk, MinOk, Covered, BestOk, PeriodicUpTo, PushBests, PushPeriodic, FillAll, UpdateBest;
    var n, P := st.nCol - 1, st.nPSample;
    var st1, st2 := PushBests(st, iChng, n), NextRow(st, iChng, rowid);
    StepsKept(st, g, iChng, n, P);
    FillKept(st1.a, iChng, st1.current.anEq);
    KeptUpTo(st1.a, st2.a, |g|, P);
    NextRowKeeps(st, g, iChng, rowid);
    PeriodicJoins(st2, g + [iChng]);
    UpdateKeepsSamples(PushPeriodic(st2), iChng, 0);
  }

  lemma FirstPushJoins(st: Accum, maxRows: nat, rowid: Rowid)
    requires Fresh(st, maxRows)
    ensures PeriodicUpTo(Push(st, 0, rowid).a, 1, st.nPSample)
  {
    var st1 := NextRow(st, 0, rowid);
    FirstExact(st.current, st.nCol, rowid, NextPrn(st.iPrn));
    assert [] + [0] == [0];
    hide PushPeriodic, UpdateBest;
    PeriodicJoins(st1, [0]);
    UpdateKeepsSamples(PushPeriodic(st1), 0, 0);
  }

  lemma {:induction false} ScanJoins(nCol: nat, nRowArg: nat, g: seq<nat>, rowids: seq<Rowid>)
    requires nCol > 0 && ChangeList(g, nCol) && 0 < |g| == |rowids| <= nRowArg
    ensures PeriodicUpTo(PushAll(Init(nCol, nRowArg), g, rowids).a, |g|, nRowArg / 9 + 1)
    decreases |g|
  {
    hide Inv, PeriodicUpTo, Push;
    var n, st0 := |g| - 1, Init(nCol, nRowArg);
    assert g == g[..n] + [g[n]] && rowids == rowids[..n] + [rowids[n]];
    if n == 0 {
      InitFresh(nCol, nRowArg);
      FirstPushJoins(st0, nRowArg, rowids[0]);
      assert PushAll(st0, g[..n], rowids[..n]) == st0;
    } else {
      ScanKeeps(nCol, nRowArg, g[..n], rowids[..n]);
      ScanJoins(nCol, nRowArg, g[..n], rowids[..n]);
      PushJoins(PushAll(st0, g[..n], rowids[..n]), g[..n], nRowArg, g[n], rowids[n]);
    }
  }

  // No other row has one.
  lemma OnlyTurns(g: seq<nat>, a: seq<Sample>, nCol: nat, P: nat, lo: nat, iChng: nat, cur: seq<nat>, r: nat)
    requires SamplesOk(g, a, nCol, P, lo) && AllSized(a, |cur|) && P > 0
    requires HasPeriodic(FillAll(a, iChng, cur), r)
    ensures (r + 1) % P == 0
  {
    hide EqOk, Located, LtExact;
    var b := FillAll(a, iChng, cur);
    var j :| 0 <= j < |b| && |b[j].anLt| > 0 && b[j].isPSample && RowOf(b[j]) == r;
    assert b[j] == Fill(a[j], iChng, cur);
    assert SampleOk(g, a[j], nCol, P, lo);
  }

  lemma ClosingSamples(st: Accum, g: seq<nat>, lo: nat)
    requires Closing(st, g, lo)
    ensures Shape(st) && |g| > 0 && SamplesOk(g, st.a, st.nCol, st.nPSample, lo)
  {
  }

  lemma InvParts(st: Accum, g: seq<nat>, maxRows: nat)
    requires Inv(st, g, maxRows)
    ensures Shape(st) && Closing(st, g, st.nCol - 1)
  {
  }

  lemma SamplesFilled(st: Accum)
    requires Shape(st)
    ensures var st1 := PushBests(st, 0, st.nCol - 1);
            && Shape(st1) && st1.nPSample == st.nPSample && AllSized(st1.a, |st1.current.anEq|)
            && Samples(st) == FillAll(st1.a, 0, st1.current.anEq)
  {
    hide PushBests, FillAll;
  }

  lemma ClosedJoins(st: Accum, g: seq<nat>, maxRows: nat, r: nat)
    requires Inv(st, g, maxRows) && st.nPSample > 0 && PeriodicUpTo(st.a, |g|, st.nPSample) && r < |g|
    ensures Shape(st) && ((r + 1) % st.nPSample == 0 <==> HasPeriodic(Samples(st), r))
  {
    hide Inv, PushBests, FillAll, SamplesOk, Closing, Samples;
    InvParts(st, g, maxRows);
    var st1, P, n := PushBests(st, 0, st.nCol - 1), st.nPSample, st.nCol - 1;
    StepsKept(st, g, 0, n, P);
    SamplesFilled(st);
    FillKept(st1.a, 0, st1.current.anEq);
    KeptUpTo(st1.a, Samples(st), |g|, P);
    if HasPeriodic(Samples(st), r) {
      StepsKeep(st, g, 0, n);
      ClosingSamples(st1, g, 0);
      OnlyTurns(g, st1.a, st.nCol, P, 0, 0, st1.current.anEq, r);
    }
  }

  /** The periodic samples at the end of a scan are exactly those of every P-th row, P being a ninth of the rows and
      one. */
  lemma {:induction false} PeriodicRowsSampled(nCol: nat, nRowArg: nat, g: seq<nat>, rowids: seq<Rowid>, r: nat)
    requires nCol > 0 && ChangeList(g, nCol) && 0 < |g| == |rowids| <= nRowArg && r < |g|
    ensures (r + 1) % (nRowArg / 9 + 1) == 0 <==> HasPeriodic(Samples(PushAll(Init(nCol, nRowArg), g, rowids)), r)
  {
    hide PushAll, Inv, PeriodicUpTo, PushBests, FillAll;
    var st, P := PushAll(Init(nCol, nRowArg), g, rowids), nRowArg / 9 + 1;
    ScanKeeps(nCol, nRowArg, g, rowids);
    ScanJoins(nCol, nRowArg, g, rowids);
    ClosedJoins(st, g, nRowArg, r);
  }

  // The same for a scan of these rows.
  lemma RowsSampled(rows: seq<Row>, nCol: nat, g: seq<nat>, rowids: seq<Rowid>)
    requires WellFormed(rows, nCol) && Describes(g, rows, nCol) && 0 < |rows| == |rowids|
    ensures forall r :: 0 <= r < |rows| ==>
              ((r + 1) % (|rows| / 9 + 1) == 0
               <==> HasPeriodic(PushPrevious(PushAll(Init(nCol, |rows|), g, rowids), 0).a, r))
  {
    hide PushAll, HasPeriodic, PushPrevious;
    forall r | 0 <= r < |rows|
      ensures (r + 1) % (|rows| / 9 + 1) == 0
              <==> HasPeriodic(PushPrevious(PushAll(Init(nCol, |rows|), g, rowids), 0).a, r)
    {
      PeriodicRowsSampled(nCol, |rows|, g, rowids, r);
    }
  }
}
