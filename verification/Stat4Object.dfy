/** The accumulator object that stat_init, stat_push and stat_get share, updated
    in place.  Every method is proved against the functions of Stat4, and the
    assertions of the C code are proved where it has them. */
module Stat4Object {
  import opened IndexRows
  import opened Stat4
  import opened Stat4Invariant
  import opened AnalyzeScan
  import opened Stat4Periodic
  import CountText
  import opened Wrappers

  datatype CountKind = NEq | NLt | NDLt

  // The state between two stat_push calls.
  ghost predicate Scanned(st: Accum, g: seq<nat>, rowids: seq<Rowid>, maxRows: nat) {
    if st.nRow == 0 then g == [] && rowids == [] && Fresh(st, maxRows) else ScanInv(st, g, rowids, maxRows)
  }

  // The state in which the new row, |g|-1, may become a periodic sample.
  ghost predicate Sampling(st: Accum, g: seq<nat>, maxRows: nat) {
    && st.nCol > 0 && Core(st, g, st.nCol - 1)
    && PeriodFits(st.mxSample, st.nPSample, maxRows) && |g| <= maxRows
    && forall j :: 0 <= j < |st.a| ==> RowOf(st.a[j]) < |g| - 1
  }

  lemma SamplingAllowed(st: Accum, g: seq<nat>, maxRows: nat)
    requires Shape(st) && Sampling(st, g, maxRows) && IsPeriodic(st.current.anLt[st.nCol - 1], st.nPSample)
    ensures var cur := st.current.(isPSample := true, iCol := 0);
            Sized(cur, st.nCol) && InsertAllowed(st.(current := cur), cur, st.nCol - 1)
  {
    PeriodicAllowed(st, g, maxRows);
    hide InsertAllowed;
  }

  lemma PeriodicTaken(st: Accum)
    requires Shape(st)
    ensures |st.current.anLt| == st.nCol > 0 && st.nPSample > 0
    ensures var cur := st.current.(isPSample := true, iCol := 0);
            && Shape(st.(current := cur)) && Sized(cur, st.nCol)
            && PushPeriodic(st) == if IsPeriodic(st.current.anLt[st.nCol - 1], st.nPSample)
                                   then
                                     Insert(st.(current := cur), cur, st.nCol - 1)
                                       .(current := cur.(isPSample := false))
                                   else st
  {
    hide Insert, IsPeriodic;
  }

  lemma PushFacts(st: Accum, g: seq<nat>, rowids: seq<Rowid>, maxRows: nat, iChng: nat, rowid: Rowid)
    requires Shape(st) && Scanned(st, g, rowids, maxRows)
    requires |g| < maxRows && iChng < st.nCol && (|g| == 0 ==> iChng == 0)
    ensures Sampling(NextRow(st, iChng, rowid), g + [iChng], maxRows)
    ensures forall i :: 0 <= i < st.nCol - 1 && i < iChng ==> NextRow(st, iChng, rowid).aBest[i].iCol == i
    ensures Scanned(Push(st, iChng, rowid), g + [iChng], rowids + [rowid], maxRows)
  {
    if st.nRow == 0 {
      FirstExact(st.current, st.nCol, rowid, NextPrn(st.iPrn));
      FirstPushKeeps(st, maxRows, rowid);
      FirstPushFrom(st, maxRows, rowid);
      assert g + [iChng] == [0] && rowids + [rowid] == [rowid];
    } else {
      NextRowKeeps(st, g, iChng, rowid);
      OldRows(st, g, iChng, rowid);
      PushKeeps(st, g, maxRows, iChng, rowid);
      PushFrom(st, g, rowids, maxRows, iChng, rowid);
    }
  }

  // sampleIsBetterPost
  method SampleIsBetterPost(pNew: Sample, pOld: Sample, nCol: nat) returns (better: bool)
    requires Sized(pNew, nCol) && Sized(pOld, nCol) && pNew.iCol == pOld.iCol
    ensures better == BetterPost(pNew, pOld, nCol, pNew.iCol + 1)
  {
    var i := pNew.iCol + 1;
    while i < nCol
      invariant pNew.iCol < i <= nCol
      invariant BetterPost(pNew, pOld, nCol, i) == BetterPost(pNew, pOld, nCol, pNew.iCol + 1)
    {
      if pNew.anEq[i] > pOld.anEq[i] { return true; }
      if pNew.anEq[i] < pOld.anEq[i] { return false; }
      i := i + 1;
    }
    better := pNew.iHash > pOld.iHash;
  }

  // sampleIsBetter
  method SampleIsBetter(pNew: Sample, pOld: Sample, nCol: nat) returns (better: bool)
    requires Sized(pNew, nCol) && Sized(pOld, nCol) && !pNew.isPSample && !pOld.isPSample
    ensures better == Better(pNew, pOld, nCol)
  {
    var nEqNew, nEqOld := pNew.anEq[pNew.iCol], pOld.anEq[pOld.iCol];
    if nEqNew > nEqOld { return true; }
    if nEqNew < nEqOld { return false; }
    if pNew.iCol < pOld.iCol { return true; }
    if pNew.iCol != pOld.iCol { return false; }
    better := SampleIsBetterPost(pNew, pOld, nCol);
  }

  lemma NextEstimate(st: Accum, i: nat)
    requires Shape(st) && i < st.nCol
    ensures Stat1(st, i + 1) == Stat1(st, i) + [Estimate(st, i)]
  {
  }

  lemma RowsCounted(st: Accum, g: seq<nat>, rowids: seq<Rowid>, maxRows: nat)
    requires Shape(st) && Scanned(st, g, rowids, maxRows) && st.nRow > 0
    ensures forall i :: 0 <= i < st.nCol ==> st.current.anEq[i] > 0
  {
    forall i | 0 <= i < st.nCol ensures st.current.anEq[i] > 0 { CountsOfCurrent(g, st.current, st.nCol, i); }
  }

  lemma BestSize(st: Accum)
    requires Shape(st)
    ensures |st.aBest| == st.nCol
  {
  }

  // What closing the last row leaves.
  lemma ClosedFacts(st: Accum, g: seq<nat>, rowids: seq<Rowid>, maxRows: nat)
    requires Shape(st) && Scanned(st, g, rowids, maxRows) && st.nRow > 0
    ensures var a := PushPrevious(st, 0).a;
            |rowids| == |g| && forall j :: 0 <= j < |a| ==> AllExact(g, a[j], st.nCol) && From(a[j], rowids)
    ensures st.nCol > 0 && Closing(st, g, st.nCol - 1)
  {
    CloseIsExact(st, g);
    CloseFrom(st, 0, rowids);
  }

  class Stat4Accum {
    const nCol: nat
    const nPSample: nat
    const mxSample: nat
    const a: array<Sample>
    const aBest: array<Sample>
    var nRow: nat
    var current: Sample
    var iPrn: nat
    var iMin: nat
    var nSample: nat
    var iGet: int

    // The scan so far: its change list, its rowids, and the row count given to stat_init.
    ghost var g: seq<nat>
    ghost var rowids: seq<Rowid>
    ghost const maxRows: nat

    predicate Layout()
      reads `nSample
    {
      a != aBest && nSample <= a.Length
    }

    function State(): Accum
      requires Layout()
      reads `nRow, `current, `iPrn, `iMin, `nSample, a, aBest
    {
      Accum(nRow, nPSample, nCol, mxSample, current, iPrn, aBest[..], iMin, a[..nSample])
    }

    ghost predicate Usable()
      reads `nRow, `current, `iPrn, `iMin, `nSample, a, aBest
    {
      Layout() && a.Length == mxSample && Shape(State())
    }

    // Between stat_push calls.
    ghost predicate Valid()
      reads this, a, aBest
    {
      Usable() && iGet < 0 && Scanned(State(), g, rowids, maxRows)
    }

    // Once stat_get has closed the last row.
    ghost predicate Closed()
      reads this, a, aBest
    {
      && Usable() && 0 <= iGet <= nSample && |rowids| == |g|
      && forall j :: 0 <= j < nSample ==> AllExact(g, a[j], nCol) && From(a[j], rowids)
    }

    // statInit
    constructor (nCol: nat, nRowArg: nat)
      requires nCol > 0
      ensures Valid() && fresh(a) && fresh(aBest)
      ensures State() == Init(nCol, nRowArg) && g == [] && rowids == [] && maxRows == nRowArg
    {
      this.nCol, maxRows := nCol, nRowArg;
      mxSample := STAT4_SAMPLES;
      nPSample := nRowArg / (STAT4_SAMPLES / 3 + 1) + 1;
      nRow, current, iPrn, iMin, nSample, iGet := 0, ZeroSample(nCol), Seed(nCol, nRowArg), 0, 0, -1;
      a := new Sample[STAT4_SAMPLES](_ => ZeroSample(nCol));
      aBest := new Sample[nCol](i => ZeroSample(nCol).(iCol := if 0 <= i < nCol then i else 0));
      g, rowids := [], [];
      new;
      assert State().aBest == Init(nCol, nRowArg).aBest;
      InitFresh(nCol, nRowArg);
    }

    // The upgrade scan of sampleInsert; the result is None where the C code returns early.
    method FindUpgrade(pNew: Sample) returns (pUpgrade: Option<int>)
      requires Usable() && Sized(pNew, nCol) && !pNew.isPSample
      requires forall j :: 0 <= j < nSample && OpenAt(a[j], pNew.iCol) && !a[j].isPSample ==>
                 a[j].iCol > pNew.iCol && Better(pNew, a[j], nCol)
      ensures ScanUpgrade(State().a, nCol, pNew.iCol, nSample, -1)
           == if pUpgrade.None? then Blocked else Found(pUpgrade.value)
    {
      var best := -1;
      var i := nSample - 1;
      ghost var s := State().a;
      while i >= 0
        invariant -1 <= i < nSample && -1 <= best < nSample && (best >= 0 ==> !a[best].isPSample)
        invariant ScanUpgrade(s, nCol, pNew.iCol, i + 1, best) == ScanUpgrade(s, nCol, pNew.iCol, nSample, -1)
      {
        var pOld := a[i];
        assert pOld == s[i];
        if pOld.anEq[pNew.iCol] == 0 {
          if pOld.isPSample { return None; }
          assert OpenAt(a[i], pNew.iCol);
          assert pOld.iCol > pNew.iCol;
          assert Better(pNew, pOld, nCol);
          var take := best < 0;
          if !take { take := SampleIsBetter(pOld, a[best], nCol); }
          if take { best := i; }
        }
        i := i - 1;
      }
      pUpgrade := Some(best);
    }

    // The find_new_min loop of sampleInsert.
    method FindMin()
      requires Usable() && MinOk(FindNewMin(State()))
      modifies this`iMin
      ensures Usable() && State() == FindNewMin(old(State()))
    {
      if nSample >= mxSample {
        var least := -1;
        var i := 0;
        ghost var st := State();
        ghost var s := st.a;
        while i < mxSample
          invariant 0 <= i <= mxSample && -1 <= least < mxSample && (least >= 0 ==> !a[least].isPSample)
          invariant ScanMin(s, nCol, i, least) == ScanMin(s, nCol, 0, -1)
        {
          assert a[i] == s[i];
          if !a[i].isPSample {
            var take := least < 0;
            if !take { take := SampleIsBetter(a[least], a[i], nCol); }
            if take { least := i; }
          }
          i := i + 1;
        }
        ScanMinFinds(s, nCol, 0, -1);
        assert least >= 0 by {
          var r := FindNewMin(st);
          assert LeastOf(s, nCol, |s|, r.iMin);
        }
        iMin := least;
      }
    }

    // Remove sample iMin of a full array: memmove the later ones down.
    method EvictMin()
      requires Usable()
      modifies this`nSample, a
      ensures Usable() && nSample < mxSample
      ensures State() == old(State()).(a := Evict(old(State())))
    {
      if nSample >= mxSample {
        ghost var s := a[..nSample];
        forall k | iMin <= k < nSample - 1 { a[k] := a[k + 1]; }
        nSample := mxSample - 1;
        assert a[..nSample] == s[..iMin] + s[iMin + 1..];
      }
    }

    // The upgrade of sampleInsert: sample j now stands for column iCol of pNew.
    method UpgradeSample(j: int, pNew: Sample)
      requires Usable() && Sized(pNew, nCol) && 0 <= j < nSample
      modifies a
      ensures Usable()
      ensures State() == old(State()).(a := old(State()).a[j := Upgrade(old(State()).a[j], pNew.iCol,
          pNew.anEq[pNew.iCol])])
    {
      ghost var s := State().a;
      a[j] := a[j].(iCol := pNew.iCol);
      a[j] := a[j].(anEq := a[j].anEq[a[j].iCol := pNew.anEq[a[j].iCol]]);
      assert State().a == s[j := Upgrade(s[j], pNew.iCol, pNew.anEq[pNew.iCol])];
    }

    // sampleInsert after the eviction: copy pNew behind the others and zero its first columns.
    method AppendSample(pNew: Sample, nEqZero: nat)
      requires Usable() && Sized(pNew, nCol) && nEqZero < nCol && nSample < mxSample
      requires forall j :: 0 <= j < nSample ==> RowOf(a[j]) < RowOf(pNew)
      modifies this`nSample, a
      ensures Usable() && State() == old(State()).(a := old(State()).a + [ZeroFirst(pNew, nEqZero)])
    {
      ghost var s := State().a;
      assert nSample == 0 || pNew.anLt[nCol - 1] > a[nSample - 1].anLt[nCol - 1] by {
        assert nSample > 0 ==> RowOf(a[nSample - 1]) < RowOf(pNew) && Sized(s[nSample - 1], nCol);
      }
      a[nSample] := pNew;
      nSample := nSample + 1;
      a[nSample - 1] := a[nSample - 1].(anEq := seq(nEqZero, _ => 0) + a[nSample - 1].anEq[nEqZero..]);
      assert State().a == s + [ZeroFirst(pNew, nEqZero)];
    }

    // sampleInsert
    method SampleInsert(pNew: Sample, nEqZero: nat)
      requires Usable() && Sized(pNew, nCol) && nEqZero < nCol && InsertAllowed(State(), pNew, nEqZero)
      modifies this`iMin, this`nSample, a
      ensures Usable() && State() == Insert(old(State()), pNew, nEqZero)
    {
      ghost var st := State();
      var pUpgrade := Some(-1);
      if !pNew.isPSample {
        assert pNew.anEq[pNew.iCol] > 0;
        assert forall j :: 0 <= j < nSample ==> a[j] == st.a[j];
        pUpgrade := FindUpgrade(pNew);
        if pUpgrade.None? { return; }
        ScanUpgradeFinds(st.a, nCol, pNew.iCol, nSample, -1);
      }
      if pUpgrade.value >= 0 {
        UpgradeSample(pUpgrade.value, pNew);
      } else {
        EvictMin();
        assert forall j :: 0 <= j < nSample ==> a[j] == Evict(st)[j];
        AppendSample(pNew, nEqZero);
      }
      FindMin();
    }

    // One iteration of the first loop of samplePushPrevious.
    method PushCandidate(i: nat)
      requires Usable() && i < nCol - 1 && Closing(State(), g, i + 1)
      modifies this`iMin, this`nSample, a, aBest
      ensures Usable() && State() == PushBest(old(State()), i)
    {
      ghost var s := State();
      var pBest := aBest[i].(anEq := aBest[i].anEq[i := current.anEq[i]]);
      assert pBest == Candidate(s, i);
      aBest[i] := pBest;
      assert State() == s.(aBest := s.aBest[i := pBest]);
      var insert := nSample < mxSample;
      if !insert {
        assert LeastOf(s.a, nCol, |s.a|, iMin) && BestOk(g, s.aBest[i], nCol, i);
        insert := SampleIsBetter(pBest, a[iMin], nCol);
      }
      if insert {
        CandidateAllowed(s, g, i);
        SampleInsert(pBest, i);
      }
    }

    // The first loop of samplePushPrevious.
    method PushCandidates(iChng: nat)
      requires Usable() && Closing(State(), g, nCol - 1) && iChng < nCol
      modifies this`iMin, this`nSample, a, aBest
      ensures Usable() && State() == PushBests(old(State()), iChng, nCol - 1)
    {
      hide Core, BestOk, Shape, PushBest;
      ghost var st := State();
      var i := nCol - 2;
      while i >= iChng
        invariant Usable() && (if nCol - 1 <= iChng then nCol - 2 else iChng - 1) <= i < nCol - 1
        invariant Closing(State(), g, i + 1)
        invariant PushBests(State(), iChng, i + 1) == PushBests(st, iChng, nCol - 1)
      {
        StepKeeps(State(), g, i);
        PushCandidate(i);
        i := i - 1;
      }
    }

    // The inner loop over the columns of one sample.
    method FillSlot(i: nat, iChng: nat)
      requires Usable() && i < nSample && iChng < nCol
      modifies a
      ensures Usable() && a[i] == Fill(old(a[i]), iChng, current.anEq)
      ensures forall k :: 0 <= k < a.Length && k != i ==> a[k] == old(a[k])
    {
      ghost var st, s := State(), a[i];
      assert s == st.a[i];
      var j := iChng;
      while j < nCol
        invariant iChng <= j <= nCol
        invariant |a[i].anEq| == nCol && a[i] == s.(anEq := a[i].anEq)
        invariant forall c :: 0 <= c < nCol ==>
                    a[i].anEq[c] == (if iChng <= c < j && s.anEq[c] == 0 then current.anEq[c] else s.anEq[c])
        invariant forall k :: 0 <= k < a.Length && k != i ==> a[k] == old(a[k])
      {
        if a[i].anEq[j] == 0 { a[i] := a[i].(anEq := a[i].anEq[j := current.anEq[j]]); }
        j := j + 1;
      }
      assert a[i].anEq == Fill(s, iChng, current.anEq).anEq;
      assert State().a == st.a[i := a[i]];
    }

    // The second loop of samplePushPrevious.
    method FillSamples(iChng: nat)
      requires Usable() && iChng < nCol
      modifies a
      ensures Usable() && State() == old(State()).(a := FillAll(old(State().a), iChng, current.anEq))
    {
      ghost var s := a[..nSample];
      var i := nSample - 1;
      while i >= 0
        invariant Usable() && -1 <= i < nSample
        invariant forall k :: 0 <= k <= i ==> a[k] == s[k]
        invariant forall k :: i < k < nSample ==> a[k] == Fill(s[k], iChng, current.anEq)
      {
        FillSlot(i, iChng);
        i := i - 1;
      }
      assert a[..nSample] == FillAll(s, iChng, current.anEq);
    }

    // samplePushPrevious
    method SamplePushPrevious(iChng: nat)
      requires Usable() && Closing(State(), g, nCol - 1) && iChng < nCol
      modifies this`iMin, this`nSample, a, aBest
      ensures Usable() && State() == PushPrevious(old(State()), iChng)
    {
      hide Closing, PushBests, FillAll, Shape;
      PushCandidates(iChng);
      FillSamples(iChng);
    }

    // The counter updates of statPush, for one row after the first.
    method AdvanceCounters(iChng: nat)
      requires Usable() && iChng < nCol
      modifies this`current
      ensures Usable() && State() == old(State()).(current := Advance(old(current), iChng))
    {
      ghost var c0 := current;
      var i := 0;
      while i < iChng
        invariant 0 <= i <= iChng && |current.anEq| == nCol && current == c0.(anEq := current.anEq)
        invariant forall c :: 0 <= c < nCol ==> current.anEq[c] == if c < i then c0.anEq[c] + 1 else c0.anEq[c]
      {
        current := current.(anEq := current.anEq[i := current.anEq[i] + 1]);
        i := i + 1;
      }
      i := iChng;
      while i < nCol
        invariant iChng <= i <= nCol
        invariant |current.anEq| == nCol && |current.anLt| == nCol && |current.anDLt| == nCol
        invariant current == c0.(anEq := current.anEq, anLt := current.anLt, anDLt := current.anDLt)
        invariant forall c :: 0 <= c < nCol ==>
                    && current.anEq[c] == (if c < iChng then c0.anEq[c] + 1 else if c < i then 1 else c0.anEq[c])
                    && current.anLt[c] == (if iChng <= c < i then c0.anLt[c] + c0.anEq[c] else c0.anLt[c])
                    && current.anDLt[c] == (if iChng <= c < i then c0.anDLt[c] + 1 else c0.anDLt[c])
      {
        current := current.(anDLt := current.anDLt[i := current.anDLt[i] + 1]);
        current := current.(anLt := current.anLt[i := current.anLt[i] + current.anEq[i]]);
        current := current.(anEq := current.anEq[i := 1]);
        i := i + 1;
      }
      assert current.anEq == Advance(c0, iChng).anEq;
      assert current.anLt == Advance(c0, iChng).anLt;
      assert current.anDLt == Advance(c0, iChng).anDLt;
    }

    // The first-row loop of statPush.
    method StartCounters()
      requires Usable()
      modifies this`current
      ensures Usable() && State() == old(State()).(current := old(current).(anEq := seq(nCol, _ => 1)))
    {
      ghost var c0 := current;
      var i := 0;
      while i < nCol
        invariant 0 <= i <= nCol && |current.anEq| == nCol && current == c0.(anEq := current.anEq)
        invariant forall c :: 0 <= c < i ==> current.anEq[c] == 1
      {
        current := current.(anEq := current.anEq[i := 1]);
        i := i + 1;
      }
      assert current.anEq == seq(nCol, _ => 1);
    }

    // True if the current row becomes the candidate of column i.
    method TakesOver(iChng: nat, i: nat) returns (take: bool)
      requires Usable() && i < nCol && current.iCol == i && (i < iChng ==> aBest[i].iCol == i)
      ensures take == (i >= iChng || BetterPost(current, aBest[i], nCol, i + 1))
    {
      take := i >= iChng;
      if !take { take := SampleIsBetterPost(current, aBest[i], nCol); }
    }

    // The loop of statPush that updates aBest.
    method RefreshCandidates(iChng: nat)
      requires Usable() && forall i :: 0 <= i < nCol - 1 && i < iChng ==> aBest[i].iCol == i
      modifies this`current, aBest
      ensures Usable() && State() == UpdateBest(old(State()), iChng, 0)
    {
      ghost var st := State();
      var i := 0;
      while i < nCol - 1
        invariant 0 <= i < nCol && Usable()
        invariant UpdateBest(State(), iChng, i) == UpdateBest(st, iChng, 0)
        invariant forall j :: i <= j < nCol - 1 && j < iChng ==> aBest[j].iCol == j
      {
        RefreshCandidate(iChng, i);
        i := i + 1;
      }
    }

    // One round of that loop.
    method RefreshCandidate(iChng: nat, i: nat)
      requires Usable() && i < nCol - 1 && (i < iChng ==> aBest[i].iCol == i)
      modifies this`current, aBest
      ensures Usable() && State() == RefreshBest(old(State()), iChng, i)
      ensures forall j :: 0 <= j < nCol && j != i ==> aBest[j] == old(aBest[j])
    {
      hide BetterPost;
      ghost var s := State();
      current := current.(iCol := i);
      var take := TakesOver(iChng, i);
      if take {
        aBest[i] := current;
        assert State().aBest == s.aBest[i := current];
      }
    }

    // The periodic-sample block of statPush.
    method PushPeriodicSample()
      requires Usable() && Sampling(State(), g, maxRows)
      modifies this`current, this`iMin, this`nSample, a
      ensures Usable() && State() == PushPeriodic(old(State()))
    {
      ghost var st := State();
      var nLt := current.anLt[nCol - 1];
      var take := nLt / nPSample != (nLt + 1) / nPSample;
      assert take == IsPeriodic(nLt, nPSample);
      if take { SamplingAllowed(st, g, maxRows); }
      hide *;
      if take { TakePeriodicSample(); }
      PeriodicTaken(st);
    }

    // The current row is inserted as a periodic sample.
    method TakePeriodicSample()
      requires Usable()
      requires var cur := current.(isPSample := true, iCol := 0);
               Sized(cur, nCol) && InsertAllowed(State().(current := cur), cur, nCol - 1)
      modifies this`current, this`iMin, this`nSample, a
      ensures Usable()
      ensures var cur := old(current).(isPSample := true, iCol := 0);
              State() == Insert(old(State()).(current := cur), cur, nCol - 1).(current := cur.(isPSample := false))
    {
      hide InsertAllowed, Insert;
      ghost var st := State();
      current := current.(isPSample := true);
      current := current.(iCol := 0);
      assert State() == st.(current := st.current.(isPSample := true, iCol := 0));
      SampleInsert(current, nCol - 1);
      current := current.(isPSample := false);
    }

    // The first part of statPush: close the previous row and set the counters of the new one.
    method CountRow(iChng: nat)
      requires Valid() && iChng < nCol
      modifies this`current, this`iMin, this`nSample, a, aBest
      ensures Usable()
      ensures State() == if nRow == 0 then old(State()).(current := old(current).(anEq := seq(nCol, _ => 1)))
                         else var q := PushPrevious(old(State()), iChng); q.(current := Advance(q.current, iChng))
    {
      if nRow == 0 {
        StartCounters();
      } else {
        SamplePushPrevious(iChng);
        AdvanceCounters(iChng);
      }
    }

    // The rowid and the pseudo-random hash of the new row.
    method StampRow(rowid: Rowid)
      requires Usable()
      modifies this`nRow, this`current, this`iPrn
      ensures Usable()
      ensures var h := NextPrn(old(iPrn));
              State() == old(State()).(nRow := old(nRow) + 1, iPrn := h,
                  current := old(current).(rowid := rowid, iHash := h))
    {
      nRow := nRow + 1;
      current := current.(rowid := rowid);
      iPrn := (iPrn * 1103515245 + 12345) % U32;
      current := current.(iHash := iPrn);
    }

    // statPush up to the sampling.
    method OpenRow(iChng: nat, rowid: Rowid)
      requires Valid() && iChng < nCol
      modifies this`nRow, this`current, this`iPrn, this`iMin, this`nSample, a, aBest
      ensures Usable() && State() == NextRow(old(State()), iChng, rowid)
    {
      CountRow(iChng);
      StampRow(rowid);
    }

    // statPush: row |g| has rowid rowid and differs from row |g|-1 first in column iChng.
    method StatPush(iChng: nat, rowid: Rowid)
      requires Valid() && iChng < nCol && |g| < maxRows && (|g| == 0 ==> iChng == 0)
      modifies this, a, aBest
      ensures Valid() && State() == Push(old(State()), iChng, rowid)
      ensures g == old(g) + [iChng] && rowids == old(rowids) + [rowid]
    {
      hide Sampling, Scanned, Shape, NextRow, PushPeriodic, UpdateBest;
      ghost var st := State();
      PushFacts(st, g, rowids, maxRows, iChng, rowid);
      OpenRow(iChng, rowid);
      g, rowids := g + [iChng], rowids + [rowid];
      assert aBest[..] == NextRow(st, iChng, rowid).aBest;
      PushPeriodicSample();
      BestSize(NextRow(st, iChng, rowid));
      forall i | 0 <= i < nCol - 1 && i < iChng ensures aBest[i].iCol == i {
        assert aBest[i] == NextRow(st, iChng, rowid).aBest[i];
      }
      RefreshCandidates(iChng);
    }

    // statGet with STAT_GET_STAT1: the text of the stat1 row, in a buffer of 25 bytes a number.
    method StatGetStat1(nKeyCol: nat) returns (z: string)
      requires Valid() && 0 < nRow && 2 * nRow <= CountText.U64 && nKeyCol <= nCol
      ensures |z| < 25 * (nKeyCol + 1)
      ensures z == CountText.Joined(Stat1(State(), nKeyCol))
      ensures CountText.Decoded(z, nKeyCol + 1) == Stat1(State(), nKeyCol)
    {
      ghost var st := State();
      RowsCounted(st, g, rowids, maxRows);
      CountText.Decimal64(nRow);
      z := CountText.Snprintf24(CountText.Decimal(nRow));
      assert z == CountText.Joined(Stat1(st, 0)) by { assert Stat1(st, 0) == [nRow]; }
      hide Scanned, CountText.Joined, CountText.Decimal, CountText.Decoded, Stat1;
      for i := 0 to nKeyCol
        invariant z == CountText.Joined(Stat1(st, i)) && |z| <= 20 + 21 * i
      {
        assert current.anEq[i] > 0;
        EstimateBound(st, i);
        NextEstimate(st, i);
        var nDistinct := current.anDLt[i] + 1;
        var iVal := (nRow + nDistinct - 1) / nDistinct;
        z := CountText.AppendNumber(z, Stat1(st, i), iVal);
      }
      Stat1Bound(st, nKeyCol);
      CountText.DecodePrinted(Stat1(st, nKeyCol));
    }

    // The first call of statGet closes the last row.
    method CloseScan()
      requires Valid() && nRow > 0
      modifies this`iGet, this`iMin, this`nSample, a, aBest
      ensures Closed() && iGet == 0 && State() == PushPrevious(old(State()), 0)
    {
      ghost var st := State();
      ClosedFacts(st, g, rowids, maxRows);
      hide Scanned, PushPrevious, AllExact, From, Shape, Closing;
      SamplePushPrevious(0);
      iGet := 0;
      assert a[..nSample] == PushPrevious(st, 0).a;
      assert forall j :: 0 <= j < nSample ==> a[j] == a[..nSample][j];
    }

    // statGet with STAT_GET_ROWID
    method StatGetRowid() returns (r: Option<Rowid>)
      requires (Valid() && nRow > 0) || Closed()
      modifies this`iGet, this`iMin, this`nSample, a, aBest
      ensures Closed()
      ensures State() == if old(iGet) < 0 then PushPrevious(old(State()), 0) else old(State())
      ensures iGet == if old(iGet) < 0 then 0 else old(iGet)
      ensures r == if iGet < nSample then Some(a[iGet].rowid) else None
    {
      hide Scanned, PushPrevious, AllExact, From, Shape;
      if iGet < 0 { CloseScan(); }
      r := if iGet < nSample then Some(a[iGet].rowid) else None;
    }

    // statGet with STAT_GET_NEQ, STAT_GET_NLT or STAT_GET_NDLT; the last of them moves on to the next sample.
    method StatGetCounts(eCall: CountKind) returns (z: string)
      requires Closed() && iGet < nSample
      requires forall c :: 0 <= c < nCol ==>
                 a[iGet].anEq[c] < CountText.U64 && a[iGet].anLt[c] < CountText.U64 && a[iGet].anDLt[c] < CountText.U64
      modifies this`iGet
      ensures Closed() && State() == old(State())
      ensures iGet == if eCall.NDLt? then old(iGet) + 1 else old(iGet)
      ensures var s := a[old(iGet)];
              var aCnt := match eCall case NEq => s.anEq case NLt => s.anLt case NDLt => s.anDLt;
              z == CountText.Joined(aCnt) && CountText.Decoded(z, nCol) == aCnt
    {
      var s := a[iGet];
      var aCnt;
      match eCall {
        case NEq => aCnt := s.anEq;
        case NLt => aCnt := s.anLt;
        case NDLt => aCnt := s.anDLt; iGet := iGet + 1;
      }
      z := CountText.FormatCounts(aCnt);
      CountText.DecodePrinted(aCnt);
    }
  }

  // The column tests of the scan program: the leftmost column that differs from the previous row.
  method LeftmostChange(prev: Row, row: Row) returns (iChng: nat)
    requires |prev| == |row| > 0 && PrefixLess(prev, row, |row| - 1)
    ensures IsLeftmostChange(prev, row, iChng)
  {
    ghost var d :| 0 <= d <= |row| - 1 && prev[..d] == row[..d] && prev[d] < row[d];
    iChng := 0;
    while prev[iChng] == row[iChng]
      invariant 0 <= iChng <= d && prev[..iChng] == row[..iChng]
      decreases d - iChng
    {
      iChng := iChng + 1;
    }
  }

  lemma DescribesMore(g: seq<nat>, rows: seq<Row>, nCol: nat, i: nat, iChng: nat)
    requires WellFormed(rows, nCol) && i < |rows| && Describes(g, rows[..i], nCol)
    requires iChng < nCol && if i == 0 then iChng == 0 else IsLeftmostChange(rows[i - 1], rows[i], iChng)
    ensures Describes(g + [iChng], rows[..i + 1], nCol)
  {
    var g', r' := g + [iChng], rows[..i + 1];
    forall m | 0 < m < |g'| ensures IsLeftmostChange(r'[m - 1], r'[m], g'[m]) {
      if m < i { assert rows[..i][m - 1] == r'[m - 1] && rows[..i][m] == r'[m]; }
    }
  }

  lemma PushAllMore(st: Accum, g: seq<nat>, rowids: seq<Rowid>, iChng: nat, rowid: Rowid)
    requires Shape(st) && |g| == |rowids|
    ensures PushAll(st, g + [iChng], rowids + [rowid]) == Push(PushAll(st, g, rowids), iChng, rowid)
  {
    hide Push;
    assert (g + [iChng])[..|g|] == g && (rowids + [rowid])[..|g|] == rowids;
  }

  /** The scan of one index, as analyzeOneTable programs it: every sample that stat_get returns is exact. */
  method AnalyzeIndex(rows: seq<Row>, nCol: nat, rowids: seq<Rowid>) returns (p: Stat4Accum, ghost g: seq<nat>)
    requires WellFormed(rows, nCol) && Sorted(rows, nCol) && 0 < |rows| == |rowids|
    ensures fresh(p) && p.Closed() && p.iGet == 0 && Describes(g, rows, nCol)
    ensures p.State() == PushPrevious(PushAll(Init(nCol, |rows|), g, rowids), 0)
    ensures forall j :: 0 <= j < p.nSample ==> IsExactSample(rows, nCol, rowids, p.State().a[j])
    ensures forall r :: 0 <= r < |rows| ==> ((r + 1) % (|rows| / 9 + 1) == 0 <==> HasPeriodic(p.State().a, r))
  {
    hide Push, PushAll, PushPrevious, Scanned, Describes, Sorted, IsExactSample, AllExact, Shape, From, HasPeriodic;
    p := new Stat4Accum(nCol, |rows|);
    ghost var st0 := Init(nCol, |rows|);
    assert Describes([], rows[..0], nCol) by { DescribesNone(rows, nCol); }
    PushAllNone(st0);
    assert p.State().nRow == 0;
    var i := 0;
    while i < |rows|
      invariant 0 <= i <= |rows| && fresh(p) && fresh(p.a) && fresh(p.aBest) && p.Valid()
      invariant p.nCol == nCol && p.maxRows == |rows| && |p.g| == p.nRow == i
      invariant Describes(p.g, rows[..i], nCol) && p.rowids == rowids[..i]
      invariant p.State() == PushAll(st0, p.g, p.rowids)
    {
      var iChng := 0;
      if i > 0 {
        AdjacentSorted(rows, nCol, i);
        iChng := LeftmostChange(rows[i - 1], rows[i]);
      }
      DescribesMore(p.g, rows, nCol, i, iChng);
      PushAllMore(st0, p.g, p.rowids, iChng, rowids[i]);
      p.StatPush(iChng, rowids[i]);
      assert p.State().nRow == i + 1;
      i := i + 1;
    }
    g := p.g;
    assert rows[..i] == rows && rowids[..i] == rowids;
    SamplesAreExact(rows, nCol, g, rowids, |rows|);
    RowsSampled(rows, nCol, g, rowids);
    var _ := p.StatGetRowid();
  }

  lemma DescribesNone(rows: seq<Row>, nCol: nat)
    requires WellFormed(rows, nCol)
    ensures Describes([], rows[..0], nCol)
  {
  }

  lemma PushAllNone(st: Accum)
    requires Shape(st)
    ensures PushAll(st, [], []) == st
  {
  }

  lemma AdjacentSorted(rows: seq<Row>, nCol: nat, i: nat)
    requires WellFormed(rows, nCol) && Sorted(rows, nCol) && 0 < i < |rows|
    ensures PrefixLess(rows[i - 1], rows[i], nCol - 1)
  {
  }
}
