/** What a scan keeps.  The scan so far is its change list g (see IndexRows);
    between pushes every counter of the accumulator agrees with the exact
    counts over the rows of g, except that the size of a still-open group is
    stored as 0.
 */
module Stat4Invariant {
  import opened Arithmetic
  import opened IndexRows
  import opened Stat4

  // The row a sample was taken from: the last column is unique.
  function RowOf(s: Sample): nat
    requires |s.anLt| > 0
  {
    s.anLt[|s.anLt| - 1]
  }

  // Row m is in the group of column c that the scan is still inside.
  predicate Open(g: seq<nat>, m: nat, c: nat)
    requires |g| > 0
  {
    Start(g, |g| - 1, c) <= m
  }

  predicate LtExact(g: seq<nat>, s: Sample, r: nat, c: nat)
    requires r < |g| && c < |s.anLt| && c < |s.anDLt|
  {
    s.anLt[c] == Start(g, r, c) && s.anDLt[c] == Dist(g, r, c)
  }

  // The sample comes from row RowOf(s), and its nLt and nDLt are exact.
  ghost predicate Located(g: seq<nat>, s: Sample, nCol: nat) {
    && nCol > 0 && Sized(s, nCol) && RowOf(s) < |g|
    && forall c :: 0 <= c < nCol ==> LtExact(g, s, RowOf(s), c)
  }

  ghost predicate CurrentExact(g: seq<nat>, s: Sample, nCol: nat)
  {
    && |g| > 0 && Located(g, s, nCol) && RowOf(s) == |g| - 1 && !s.isPSample
    && forall c :: 0 <= c < nCol ==> s.anEq[c] == Count(g, |g| - 1, c)
  }

  // nEq of one column of a retained sample; columns lo.. are being closed.
  predicate EqOk(g: seq<nat>, s: Sample, nCol: nat, lo: nat, c: nat)
    requires 0 < nCol == |s.anLt| == |s.anEq| && RowOf(s) < |g| && c < nCol
  {
    var open := c < nCol - 1 && Open(g, RowOf(s), c);
    && (s.anEq[c] == Count(g, RowOf(s), c) || (s.anEq[c] == 0 && open))
    && (open && c < lo ==> s.anEq[c] == 0)
  }

  ghost predicate SampleOk(g: seq<nat>, s: Sample, nCol: nat, P: nat, lo: nat)
  {
    && Located(g, s, nCol)
    && (forall c :: 0 <= c < nCol ==> EqOk(g, s, nCol, lo, c))
    && (!s.isPSample ==> forall c :: s.iCol <= c < nCol ==> s.anEq[c] > 0)
    && (s.isPSample ==> P > 0 && (RowOf(s) + 1) % P == 0)
  }

  ghost predicate SamplesOk(g: seq<nat>, a: seq<Sample>, nCol: nat, P: nat, lo: nat)
  {
    && (forall j :: 0 <= j < |a| ==> SampleOk(g, a[j], nCol, P, lo))
    && (forall i, j :: 0 <= i < j < |a| ==> RowOf(a[i]) < RowOf(a[j]))
  }

  // The candidate for column i: its later columns hold the counts up to its own row,
  // and it is either the current row or the last row of its group in column i+1.
  ghost predicate BestOk(g: seq<nat>, s: Sample, nCol: nat, i: nat)
  {
    && i < nCol - 1 && |g| > 0
    && Located(g, s, nCol) && s.iCol == i && !s.isPSample
    && var b := RowOf(s);
    && Open(g, b, i)
    && (b == |g| - 1 || g[b + 1] <= i + 1)
    && (forall c :: i < c < nCol ==> s.anEq[c] == b + 1 - Start(g, b, c))
  }

  // The least sample of a full array is at iMin.
  ghost predicate MinOk(st: Accum)
    requires Shape(st)
  {
    |st.a| == st.mxSample ==> LeastOf(st.a, st.nCol, |st.a|, st.iMin)
  }

  // Some sample accounts for the group of column c that is being closed.
  ghost predicate Covered(g: seq<nat>, a: seq<Sample>, nCol: nat, lo: nat, c: nat)
    requires |g| > 0 && nCol > 0 && AllSized(a, nCol)
  {
    (exists j :: 0 <= j < |a| && OpenAt(a[j], c) && !a[j].isPSample)
    ==> exists u :: 0 <= u < |a| && Open(g, RowOf(a[u]), c) && (a[u].isPSample || lo <= a[u].iCol <= c)
  }

  // The invariant while columns lo..nCol-2 are being closed, without the candidates.
  ghost predicate Core(st: Accum, g: seq<nat>, lo: nat)
  {
    && Shape(st) && lo < st.nCol
    && ChangeList(g, st.nCol) && 0 < |g| == st.nRow
    && CurrentExact(g, st.current, st.nCol)
    && SamplesOk(g, st.a, st.nCol, st.nPSample, lo)
    && MinOk(st)
    && (forall c :: lo <= c < st.nCol - 1 ==> Covered(g, st.a, st.nCol, lo, c))
  }

  // With lo == nCol-1 this holds between pushes.
  ghost predicate Closing(st: Accum, g: seq<nat>, lo: nat)
  {
    Core(st, g, lo) && forall i :: 0 <= i < lo ==> BestOk(g, st.aBest[i], st.nCol, i)
  }

  // Periodic samples cannot fill the array while at most maxRows rows are pushed.
  predicate PeriodFits(mxSample: nat, nPSample: nat, maxRows: nat) {
    mxSample > 0 && nPSample == maxRows / (mxSample / 3 + 1) + 1
  }

  ghost predicate Inv(st: Accum, g: seq<nat>, maxRows: nat)
  {
    && st.nCol > 0 && Closing(st, g, st.nCol - 1)
    && PeriodFits(st.mxSample, st.nPSample, maxRows) && |g| <= maxRows
  }

  // After the closing samplePushPrevious(p, 0): every counter is exact.
  ghost predicate AllExact(g: seq<nat>, s: Sample, nCol: nat)
  {
    && Located(g, s, nCol)
    && forall c :: 0 <= c < nCol ==> s.anEq[c] == Count(g, RowOf(s), c)
  }

  /** Facts about change lists. */

  lemma OpenCount(g: seq<nat>, m: nat, c: nat)
    requires m < |g| && Open(g, m, c)
    ensures Start(g, m, c) == Start(g, |g| - 1, c) && End(g, m, c) == |g|
    ensures Count(g, m, c) == Count(g, |g| - 1, c)
  {
    StartEnd(g, m, |g| - 1, c);
  }

  lemma OpenDown(g: seq<nat>, m: nat, c: nat, c': nat)
    requires m < |g| && Open(g, m, c') && c <= c'
    ensures Open(g, m, c)
  {
    StartMonotone(g, |g| - 1, c, c');
  }

  lemma CountMonotone(g: seq<nat>, k: nat, c: nat, c': nat)
    requires k < |g| && c <= c'
    ensures Count(g, k, c') <= Count(g, k, c)
  {
    StartMonotone(g, k, c, c');
  }

  lemma {:induction false} PastFixed(g: seq<nat>, d: nat, k: nat, c: nat)
    requires k < |g|
    ensures Start(g + [d], k, c) == Start(g, k, c) && Dist(g + [d], k, c) == Dist(g, k, c)
  {
    if k > 0 { PastFixed(g, d, k - 1, c); }
  }

  lemma {:induction false} EndAfter(g: seq<nat>, d: nat, k: nat, c: nat)
    requires k < |g|
    ensures End(g + [d], k, c) == if End(g, k, c) == |g| && d > c then |g| + 1 else End(g, k, c)
    decreases |g| - k
  {
    if k + 1 < |g| { EndAfter(g, d, k + 1, c); }
  }

  // Appending row |g| with change d: column c stays open exactly when c < d.
  lemma OpenAfter(g: seq<nat>, d: nat, m: nat, c: nat)
    requires m < |g|
    ensures Open(g + [d], m, c) <==> c < d && Open(g, m, c)
    ensures !Open(g + [d], m, c) ==> Count(g + [d], m, c) == Count(g, m, c)
  {
    PastFixed(g, d, |g| - 1, c);
    PastFixed(g, d, m, c);
    EndAfter(g, d, m, c);
    StartEnd(g, m, |g| - 1, c);
  }

  /** sampleInsert. */

  // A candidate whose own column has been closed is exact from column i on.
  lemma CandidateExact(st: Accum, g: seq<nat>, i: nat)
    requires Closing(st, g, i + 1) && i < st.nCol - 1
    ensures var s := Candidate(st, i); var b := RowOf(s);
            && Located(g, s, st.nCol) && s.iCol == i && !s.isPSample && Open(g, b, i)
            && s.anEq[i] == Count(g, |g| - 1, i)
            && (forall c :: i <= c < st.nCol ==> s.anEq[c] == Count(g, b, c) > 0)
  {
    var s0 := st.aBest[i];
    assert BestOk(g, s0, st.nCol, i);
    var b := RowOf(s0);
    var s := Candidate(st, i);
    assert forall c :: 0 <= c < st.nCol ==> LtExact(g, s0, b, c);
    forall c | 0 <= c < st.nCol ensures LtExact(g, s, b, c) {
      assert LtExact(g, s0, b, c);
    }
    OpenCount(g, b, i);
    forall c | i <= c < st.nCol
      ensures s.anEq[c] == Count(g, b, c) > 0
    {
      if c > i {
        assert s.anEq[c] == b + 1 - Start(g, b, c);
        assert End(g, b, c) == b + 1;
      }
    }
  }

  // A non-periodic sample of an open group is worse than the candidate of that column.
  lemma CandidateBeats(g: seq<nat>, s: Sample, x: Sample, nCol: nat, P: nat, lo: nat, i: nat)
    requires |g| > 0 && SampleOk(g, s, nCol, P, lo) && !s.isPSample
    requires i < lo && i < nCol - 1 && OpenAt(s, i)
    requires Sized(x, nCol) && x.iCol == i && x.anEq[i] == Count(g, |g| - 1, i)
    ensures s.iCol > i && Better(x, s, nCol)
  {
    assert EqOk(g, s, nCol, lo, i);
    var r := RowOf(s);
    assert Open(g, r, i);
    assert EqOk(g, s, nCol, lo, s.iCol);
    CountMonotone(g, r, i, s.iCol);
    OpenCount(g, r, i);
    assert s.anEq[s.iCol] == Count(g, r, s.iCol);
  }

  // In a closing state "anEq[i] == 0" and "in the open group of column i" coincide for i < lo.
  lemma OpenAtIsOpen(g: seq<nat>, s: Sample, nCol: nat, P: nat, lo: nat, i: nat)
    requires |g| > 0 && SampleOk(g, s, nCol, P, lo) && i < nCol - 1
    ensures OpenAt(s, i) ==> Open(g, RowOf(s), i)
    ensures i < lo && Open(g, RowOf(s), i) ==> OpenAt(s, i)
  {
    assert EqOk(g, s, nCol, lo, i);
  }

  lemma SampleWeaken(g: seq<nat>, s: Sample, nCol: nat, P: nat, lo: nat, lo': nat)
    requires SampleOk(g, s, nCol, P, lo) && lo' <= lo
    ensures SampleOk(g, s, nCol, P, lo')
  {
    forall c | 0 <= c < nCol ensures EqOk(g, s, nCol, lo', c) {
      assert EqOk(g, s, nCol, lo, c);
    }
  }

  lemma SamplesWeaken(g: seq<nat>, a: seq<Sample>, nCol: nat, P: nat, lo: nat, lo': nat)
    requires SamplesOk(g, a, nCol, P, lo) && lo' <= lo
    ensures SamplesOk(g, a, nCol, P, lo')
  {
    forall j | 0 <= j < |a| ensures SampleOk(g, a[j], nCol, P, lo') {
      SampleWeaken(g, a[j], nCol, P, lo, lo');
    }
  }

  lemma MinFound(st: Accum)
    requires Shape(st)
    requires |st.a| == st.mxSample ==> exists j :: 0 <= j < |st.a| && !st.a[j].isPSample
    ensures MinOk(FindNewMin(st))
  {
    if |st.a| == st.mxSample { ScanMinFinds(st.a, st.nCol, 0, -1); }
  }

  // Covered survives a lower bound on iCol.
  lemma CoveredWeaken(g: seq<nat>, a: seq<Sample>, nCol: nat, lo: nat, lo': nat, c: nat)
    requires |g| > 0 && nCol > 0 && AllSized(a, nCol)
    requires Covered(g, a, nCol, lo, c) && lo' <= lo
    ensures Covered(g, a, nCol, lo', c)
  {
  }

  // Columns whose group holds no retained sample are covered.
  lemma CoveredVacuous(g: seq<nat>, a: seq<Sample>, nCol: nat, P: nat, lo: nat, i: nat, c: nat)
    requires |g| > 0 && SamplesOk(g, a, nCol, P, lo) && AllSized(a, nCol) && i < lo && i <= c < nCol - 1
    requires forall j :: 0 <= j < |a| ==> !OpenAt(a[j], i)
    ensures forall j :: 0 <= j < |a| ==> !OpenAt(a[j], c)
  {
    forall j | 0 <= j < |a| ensures OpenAt(a[j], c) ==> OpenAt(a[j], i) {
      OpenAtIsOpen(g, a[j], nCol, P, lo, c);
      if OpenAt(a[j], c) { OpenDown(g, RowOf(a[j]), i, c); }
      OpenAtIsOpen(g, a[j], nCol, P, lo, i);
    }
  }

  // sampleInsert is not called: the candidate does not beat the least sample of the full array.
  lemma StepSkipped(st: Accum, g: seq<nat>, i: nat)
    requires i < st.nCol - 1 && Closing(st, g, i + 1)
    requires |st.a| == st.mxSample && !Better(Candidate(st, i), st.a[st.iMin], st.nCol)
    ensures Closing(st.(aBest := st.aBest[i := Candidate(st, i)]), g, i)
  {
    var x := Candidate(st, i);
    CandidateExact(st, g, i);
    SamplesWeaken(g, st.a, st.nCol, st.nPSample, i + 1, i);
    forall j | 0 <= j < |st.a| && OpenAt(st.a[j], i) ensures st.a[j].isPSample {
      if !st.a[j].isPSample {
        CandidateBeats(g, st.a[j], x, st.nCol, st.nPSample, i + 1, i);
        BetterOrder(x, st.a[st.iMin], st.a[j], st.nCol);
      }
    }
    forall c | i <= c < st.nCol - 1 ensures Covered(g, st.a, st.nCol, i, c) {
      if c > i { CoveredWeaken(g, st.a, st.nCol, i + 1, i, c); }
    }
  }

  // A periodic sample already stands for the group.
  lemma StepBlocked(st: Accum, g: seq<nat>, i: nat)
    requires i < st.nCol - 1 && Closing(st, g, i + 1)
    requires exists j :: 0 <= j < |st.a| && OpenAt(st.a[j], i) && st.a[j].isPSample
    ensures Closing(st.(aBest := st.aBest[i := Candidate(st, i)]), g, i)
  {
    SamplesWeaken(g, st.a, st.nCol, st.nPSample, i + 1, i);
    var u :| 0 <= u < |st.a| && OpenAt(st.a[u], i) && st.a[u].isPSample;
    OpenAtIsOpen(g, st.a[u], st.nCol, st.nPSample, i + 1, i);
    forall c | i <= c < st.nCol - 1 ensures Covered(g, st.a, st.nCol, i, c) {
      if c > i { CoveredWeaken(g, st.a, st.nCol, i + 1, i, c); }
    }
  }

  // The sample chosen for the upgrade has no open column above i left.
  lemma UpgradedIsClosed(st: Accum, g: seq<nat>, i: nat, j: nat, c: nat)
    requires i < st.nCol - 1 && Closing(st, g, i + 1)
    requires j < |st.a| && BestOf(st.a, st.nCol, i, 0, j)
    requires i < c < st.nCol
    ensures st.a[j].anEq[c] > 0
  {
    var s := st.a[j];
    var P := st.nPSample;
    assert SampleOk(g, s, st.nCol, P, i + 1);
    if s.anEq[c] == 0 {
      assert EqOk(g, s, st.nCol, i + 1, c);
      assert OpenAt(s, c) && Covered(g, st.a, st.nCol, i + 1, c);
      var u :| 0 <= u < |st.a| && Open(g, RowOf(st.a[u]), c) && (st.a[u].isPSample || i + 1 <= st.a[u].iCol <= c);
      var w := st.a[u];
      assert SampleOk(g, w, st.nCol, P, i + 1);
      OpenDown(g, RowOf(w), i, c);
      OpenAtIsOpen(g, w, st.nCol, P, i + 1, i);
      assert OpenAt(w, i) && !w.isPSample && !Better(w, s, st.nCol);
      WiderBeats(g, w, s, st.nCol, P, i + 1, c);
    }
  }

  // Within one open group, a sample kept for a wider column beats one kept for a narrower column.
  lemma WiderBeats(g: seq<nat>, w: Sample, s: Sample, nCol: nat, P: nat, lo: nat, c: nat)
    requires |g| > 0 && SampleOk(g, w, nCol, P, lo) && SampleOk(g, s, nCol, P, lo)
    requires !w.isPSample && !s.isPSample && c < nCol - 1
    requires Open(g, RowOf(w), c) && w.iCol <= c && OpenAt(s, c)
    ensures Better(w, s, nCol)
  {
    assert EqOk(g, s, nCol, lo, c) && EqOk(g, s, nCol, lo, s.iCol) && EqOk(g, w, nCol, lo, w.iCol);
    OpenDown(g, RowOf(w), w.iCol, c);
    OpenDown(g, RowOf(s), w.iCol, c);
    OpenCount(g, RowOf(w), w.iCol);
    OpenCount(g, RowOf(s), w.iCol);
    CountMonotone(g, RowOf(s), w.iCol, s.iCol);
  }

  lemma UpgradeKeepsSample(st: Accum, g: seq<nat>, i: nat, j: nat)
    requires i < st.nCol - 1 && Closing(st, g, i + 1)
    requires j < |st.a| && BestOf(st.a, st.nCol, i, 0, j)
    ensures SampleOk(g, Upgrade(st.a[j], i, Count(g, |g| - 1, i)), st.nCol, st.nPSample, i)
  {
    var s := st.a[j];
    var t := Upgrade(s, i, Count(g, |g| - 1, i));
    assert SampleOk(g, s, st.nCol, st.nPSample, i + 1);
    forall c | 0 <= c < st.nCol ensures LtExact(g, t, RowOf(t), c) {
      assert LtExact(g, s, RowOf(s), c);
    }
    assert EqOk(g, s, st.nCol, i + 1, i);
    OpenCount(g, RowOf(s), i);
    forall c | 0 <= c < st.nCol ensures EqOk(g, t, st.nCol, i, c) {
      assert EqOk(g, s, st.nCol, i + 1, c);
    }
    forall c | i <= c < st.nCol ensures t.anEq[c] > 0 {
      if c > i { UpgradedIsClosed(st, g, i, j, c); }
    }
  }

  // Putting the pieces of a closing step together; only the samples and iMin differ from st.
  lemma StepDone(st: Accum, g: seq<nat>, i: nat, a': seq<Sample>)
    requires i < st.nCol - 1 && Closing(st, g, i + 1)
    requires |a'| <= st.mxSample && SamplesOk(g, a', st.nCol, st.nPSample, i)
    requires exists j :: 0 <= j < |a'| && !a'[j].isPSample
    requires AllSized(a', st.nCol) && forall c :: i <= c < st.nCol - 1 ==> Covered(g, a', st.nCol, i, c)
    ensures Closing(FindNewMin(st.(aBest := st.aBest[i := Candidate(st, i)], a := a')), g, i)
  {
    MinFound(st.(aBest := st.aBest[i := Candidate(st, i)], a := a'));
  }

  lemma UpgradeSamples(st: Accum, g: seq<nat>, i: nat, j: nat)
    requires i < st.nCol - 1 && Closing(st, g, i + 1)
    requires j < |st.a| && BestOf(st.a, st.nCol, i, 0, j)
    ensures SamplesOk(g, st.a[j := Upgrade(st.a[j], i, Count(g, |g| - 1, i))], st.nCol, st.nPSample, i)
  {
    UpgradeKeepsSample(st, g, i, j);
    SamplesWeaken(g, st.a, st.nCol, st.nPSample, i + 1, i);
  }

  lemma UpgradeCovers(st: Accum, g: seq<nat>, i: nat, j: nat, c: nat)
    requires i < st.nCol - 1 && Closing(st, g, i + 1)
    requires j < |st.a| && BestOf(st.a, st.nCol, i, 0, j)
    requires i <= c < st.nCol - 1
    ensures Covered(g, st.a[j := Upgrade(st.a[j], i, Count(g, |g| - 1, i))], st.nCol, i, c)
  {
    var a' := st.a[j := Upgrade(st.a[j], i, Count(g, |g| - 1, i))];
    var s := st.a[j];
    assert SampleOk(g, s, st.nCol, st.nPSample, i + 1);
    OpenAtIsOpen(g, s, st.nCol, st.nPSample, i + 1, i);
    hide CurrentExact, SamplesOk, SampleOk, MinOk, BestOk, Better, Count;
    if c == i {
      assert Open(g, RowOf(a'[j]), i) && i <= a'[j].iCol <= i;
    } else if k :| 0 <= k < |a'| && OpenAt(a'[k], c) && !a'[k].isPSample {
      assert OpenAt(st.a[k], c) && !st.a[k].isPSample && Covered(g, st.a, st.nCol, i + 1, c);
      var u :| 0 <= u < |st.a| && Open(g, RowOf(st.a[u]), c) && (st.a[u].isPSample || i + 1 <= st.a[u].iCol <= c);
      assert Open(g, RowOf(a'[u]), c) && (a'[u].isPSample || i <= a'[u].iCol <= c);
    }
  }

  lemma StepUpgraded(st: Accum, g: seq<nat>, i: nat, j: nat)
    requires i < st.nCol - 1 && Closing(st, g, i + 1)
    requires j < |st.a| && BestOf(st.a, st.nCol, i, 0, j)
    ensures var st1 := st.(aBest := st.aBest[i := Candidate(st, i)]);
            Closing(FindNewMin(st1.(a := st.a[j := Upgrade(st.a[j], i, st.current.anEq[i])])), g, i)
  {
    var a' := st.a[j := Upgrade(st.a[j], i, st.current.anEq[i])];
    UpgradeSamples(st, g, i, j);
    assert !a'[j].isPSample;
    forall c | i <= c < st.nCol - 1 ensures Covered(g, a', st.nCol, i, c) {
      UpgradeCovers(st, g, i, j, c);
    }
    StepDone(st, g, i, a');
  }

  // A freshly inserted candidate: its first i columns are still open.
  lemma NewSampleOk(st: Accum, g: seq<nat>, i: nat)
    requires i < st.nCol - 1 && Closing(st, g, i + 1)
    ensures SampleOk(g, ZeroFirst(Candidate(st, i), i), st.nCol, st.nPSample, i)
    ensures forall c :: i <= c < st.nCol ==> !OpenAt(ZeroFirst(Candidate(st, i), i), c)
  {
    CandidateExact(st, g, i);
    var s := Candidate(st, i);
    var t := ZeroFirst(s, i);
    var b := RowOf(s);
    forall c | 0 <= c < st.nCol ensures LtExact(g, t, b, c) {
      assert LtExact(g, s, b, c);
    }
    forall c | 0 <= c < st.nCol ensures EqOk(g, t, st.nCol, i, c) {
      if c < i { OpenDown(g, b, c, i); }
    }
  }

  // Evicting keeps everything that is said sample by sample.
  lemma EvictKeeps(st: Accum, g: seq<nat>, lo: nat)
    requires Shape(st) && SamplesOk(g, st.a, st.nCol, st.nPSample, lo)
    ensures SamplesOk(g, Evict(st), st.nCol, st.nPSample, lo)
    ensures forall j :: 0 <= j < |Evict(st)| ==> Evict(st)[j] in st.a
  {
    var e := Evict(st);
    forall j | 0 <= j < |e|
      ensures e[j] == st.a[if |st.a| < st.mxSample || j < st.iMin then j else j + 1]
    {
    }
  }

  // A sample outside the open group of column i comes from an earlier row than the candidate.
  lemma OutsideIsEarlier(st: Accum, g: seq<nat>, i: nat, s: Sample)
    requires i < st.nCol - 1 && Closing(st, g, i + 1)
    requires SampleOk(g, s, st.nCol, st.nPSample, i + 1) && !OpenAt(s, i)
    ensures RowOf(s) < RowOf(Candidate(st, i))
  {
    CandidateExact(st, g, i);
    OpenAtIsOpen(g, s, st.nCol, st.nPSample, i + 1, i);
  }

  lemma AppendSamples(st: Accum, g: seq<nat>, i: nat)
    requires i < st.nCol - 1 && Closing(st, g, i + 1)
    requires forall j :: 0 <= j < |st.a| ==> !OpenAt(st.a[j], i)
    ensures forall j :: 0 <= j < |Evict(st)| ==> RowOf(Evict(st)[j]) < RowOf(Candidate(st, i))
    ensures SamplesOk(g, Evict(st) + [ZeroFirst(Candidate(st, i), i)], st.nCol, st.nPSample, i)
  {
    var e := Evict(st);
    NewSampleOk(st, g, i);
    EvictKeeps(st, g, i + 1);
    forall j | 0 <= j < |e| ensures RowOf(e[j]) < RowOf(Candidate(st, i)) {
      assert e[j] in st.a && SampleOk(g, e[j], st.nCol, st.nPSample, i + 1);
      OutsideIsEarlier(st, g, i, e[j]);
    }
    SamplesWeaken(g, e, st.nCol, st.nPSample, i + 1, i);
  }

  lemma AppendCovers(st: Accum, g: seq<nat>, i: nat, c: nat)
    requires i < st.nCol - 1 && Closing(st, g, i + 1)
    requires forall j :: 0 <= j < |st.a| ==> !OpenAt(st.a[j], i)
    requires i <= c < st.nCol - 1
    ensures Covered(g, Evict(st) + [ZeroFirst(Candidate(st, i), i)], st.nCol, i, c)
  {
    var a' := Evict(st) + [ZeroFirst(Candidate(st, i), i)];
    NewSampleOk(st, g, i);
    EvictKeeps(st, g, i + 1);
    CoveredVacuous(g, st.a, st.nCol, st.nPSample, i + 1, i, c);
    forall k | 0 <= k < |a'| ensures !OpenAt(a'[k], c) {
      assert k < |Evict(st)| ==> a'[k] in st.a;
    }
  }

  lemma StepAppended(st: Accum, g: seq<nat>, i: nat)
    requires i < st.nCol - 1 && Closing(st, g, i + 1)
    requires forall j :: 0 <= j < |st.a| ==> !OpenAt(st.a[j], i)
    ensures var x := Candidate(st, i); var st1 := st.(aBest := st.aBest[i := x]);
            Closing(FindNewMin(st1.(a := Evict(st1) + [ZeroFirst(x, i)])), g, i)
  {
    var a' := Evict(st) + [ZeroFirst(Candidate(st, i), i)];
    AppendSamples(st, g, i);
    CandidateExact(st, g, i);
    assert !a'[|a'| - 1].isPSample;
    forall c | i <= c < st.nCol - 1 ensures Covered(g, a', st.nCol, i, c) {
      AppendCovers(st, g, i, c);
    }
    StepDone(st, g, i, a');
    assert Evict(st.(aBest := st.aBest[i := Candidate(st, i)])) == Evict(st);
  }

  // One iteration of the first loop of samplePushPrevious.
  lemma {:induction false} StepKeeps(st: Accum, g: seq<nat>, i: nat)
    requires i < st.nCol - 1 && Closing(st, g, i + 1)
    ensures Closing(PushBest(st, i), g, i)
  {
    var x := Candidate(st, i);
    CandidateExact(st, g, i);
    if |st.a| == st.mxSample && !Better(x, st.a[st.iMin], st.nCol) {
      StepSkipped(st, g, i);
    } else {
      ScanUpgradeFinds(st.a, st.nCol, i, |st.a|, -1);
      var scan := ScanUpgrade(st.a, st.nCol, i, |st.a|, -1);
      if scan.Blocked? {
        StepBlocked(st, g, i);
      } else if scan.j >= 0 {
        StepUpgraded(st, g, i, scan.j);
      } else {
        StepAppended(st, g, i);
      }
    }
  }

  lemma {:induction false} StepsKeep(st: Accum, g: seq<nat>, iChng: nat, n: nat)
    requires Closing(st, g, n)
    ensures Closing(PushBests(st, iChng, n), g, if n <= iChng then n else iChng)
    decreases n
  {
    hide SamplesOk, CurrentExact, MinOk, Covered, BestOk, PushBest;
    if n > iChng {
      StepKeeps(st, g, n - 1);
      StepsKeep(PushBest(st, n - 1), g, iChng, n - 1);
    }
  }

  /** The second loop of samplePushPrevious. */

  lemma FillSample(g: seq<nat>, s: Sample, nCol: nat, P: nat, lo: nat, iChng: nat, cur: seq<nat>)
    requires |g| > 0 && SampleOk(g, s, nCol, P, lo) && |cur| == nCol
    requires forall c :: 0 <= c < nCol ==> cur[c] == Count(g, |g| - 1, c)
    ensures var t := Fill(s, iChng, cur);
            && Sized(t, nCol) && (!s.isPSample ==> SameKey(s, t, nCol))
            && forall c :: iChng <= c < nCol ==> t.anEq[c] == Count(g, RowOf(s), c)
  {
    var t := Fill(s, iChng, cur);
    forall c | iChng <= c < nCol ensures t.anEq[c] == Count(g, RowOf(s), c) {
      assert EqOk(g, s, nCol, lo, c);
      if s.anEq[c] == 0 { OpenCount(g, RowOf(s), c); }
    }
  }

  // A filled sample fits the change list that ends with the new row.
  lemma FilledOk(g: seq<nat>, s: Sample, nCol: nat, P: nat, iChng: nat, cur: seq<nat>)
    requires |g| > 0 && ChangeList(g, nCol) && iChng < nCol && |cur| == nCol
    requires SampleOk(g, s, nCol, P, if nCol - 1 <= iChng then nCol - 1 else iChng)
    requires forall c :: 0 <= c < nCol ==> cur[c] == Count(g, |g| - 1, c)
    ensures SampleOk(g + [iChng], Fill(s, iChng, cur), nCol, P, nCol - 1)
  {
    var lo := if nCol - 1 <= iChng then nCol - 1 else iChng;
    var g', t, r := g + [iChng], Fill(s, iChng, cur), RowOf(s);
    FillSample(g, s, nCol, P, lo, iChng, cur);
    forall c | 0 <= c < nCol ensures LtExact(g', t, r, c) {
      assert LtExact(g, s, r, c);
      PastFixed(g, iChng, r, c);
    }
    var last := nCol - 1;
    forall c | 0 <= c < nCol ensures EqOk(g', t, nCol, last, c) {
      assert EqOk(g, s, nCol, lo, c);
      OpenAfter(g, iChng, r, c);
    }
    assert forall c :: s.iCol <= c < nCol && !s.isPSample ==> s.anEq[c] > 0;
  }

  lemma FilledSamplesOk(st: Accum, g: seq<nat>, iChng: nat)
    requires iChng < st.nCol && Core(st, g, if st.nCol - 1 <= iChng then st.nCol - 1 else iChng)
    ensures SamplesOk(g + [iChng], FillAll(st.a, iChng, st.current.anEq), st.nCol, st.nPSample, st.nCol - 1)
  {
    forall j | 0 <= j < |st.a|
      ensures SampleOk(g + [iChng], Fill(st.a[j], iChng, st.current.anEq), st.nCol, st.nPSample, st.nCol - 1)
    {
      FilledOk(g, st.a[j], st.nCol, st.nPSample, iChng, st.current.anEq);
    }
  }

  // Filling leaves iMin the least sample: it does not touch what sampleIsBetter reads.
  lemma FillKeepsMin(st: Accum, g: seq<nat>, lo: nat, iChng: nat)
    requires Core(st, g, lo)
    ensures MinOk(st.(a := FillAll(st.a, iChng, st.current.anEq)))
  {
    var b := FillAll(st.a, iChng, st.current.anEq);
    if |st.a| == st.mxSample {
      assert SampleOk(g, st.a[st.iMin], st.nCol, st.nPSample, lo);
      FillSample(g, st.a[st.iMin], st.nCol, st.nPSample, lo, iChng, st.current.anEq);
      forall j | 0 <= j < |b| && !b[j].isPSample ensures !Better(b[st.iMin], b[j], st.nCol) {
        FillSample(g, st.a[j], st.nCol, st.nPSample, lo, iChng, st.current.anEq);
        BetterSameKey(st.a[st.iMin], b[st.iMin], st.a[j], b[j], st.nCol);
      }
    }
  }

  /** After samplePushPrevious(p, 0) every counter of every retained sample is exact. */
  lemma {:induction false} CloseIsExact(st: Accum, g: seq<nat>)
    requires st.nCol > 0 && Closing(st, g, st.nCol - 1)
    ensures forall j :: 0 <= j < |PushPrevious(st, 0).a| ==> AllExact(g, PushPrevious(st, 0).a[j], st.nCol)
    ensures forall i, j :: 0 <= i < j < |PushPrevious(st, 0).a| ==>
              RowOf(PushPrevious(st, 0).a[i]) < RowOf(PushPrevious(st, 0).a[j])
  {
    hide EqOk, LeastOf, Covered, BestOk, PushBests;
    StepsKeep(st, g, 0, st.nCol - 1);
    var st1 := PushBests(st, 0, st.nCol - 1);
    forall j | 0 <= j < |st1.a|
      ensures AllExact(g, Fill(st1.a[j], 0, st1.current.anEq), st.nCol)
    {
      var s := st1.a[j];
      FillSample(g, s, st.nCol, st.nPSample, 0, 0, st1.current.anEq);
      forall c | 0 <= c < st.nCol ensures LtExact(g, Fill(s, 0, st1.current.anEq), RowOf(s), c) {
        assert LtExact(g, s, RowOf(s), c);
      }
    }
  }

  /** statPush. */

  lemma AdvanceExact(g: seq<nat>, cur: Sample, nCol: nat, iChng: nat, rowid: Rowid, h: nat)
    requires ChangeList(g, nCol) && iChng < nCol && CurrentExact(g, cur, nCol)
    ensures CurrentExact(g + [iChng], Advance(cur, iChng).(rowid := rowid, iHash := h), nCol)
  {
    var g', t := g + [iChng], Advance(cur, iChng).(rowid := rowid, iHash := h);
    var k := |g| - 1;
    forall c | 0 <= c < nCol
      ensures LtExact(g', t, |g|, c) && t.anEq[c] == Count(g', |g|, c)
    {
      assert LtExact(g, cur, k, c);
      assert End(g, k, c) == |g| && End(g', |g|, c) == |g| + 1;
      PastFixed(g, iChng, k, c);
    }
  }

  // The very first row.
  lemma FirstExact(cur: Sample, nCol: nat, rowid: Rowid, h: nat)
    requires nCol > 0 && Sized(cur, nCol) && !cur.isPSample
    requires forall c :: 0 <= c < nCol ==> cur.anLt[c] == 0 && cur.anDLt[c] == 0
    ensures CurrentExact([0], cur.(anEq := seq(nCol, _ => 1), rowid := rowid, iHash := h), nCol)
  {
    var t := cur.(anEq := seq(nCol, _ => 1), rowid := rowid, iHash := h);
    forall c | 0 <= c < nCol
      ensures LtExact([0], t, 0, c) && t.anEq[c] == Count([0], 0, c)
    {
    }
  }

  // With every column closed or open, nothing is left to cover.
  lemma CoreBetweenRows(r: Accum, g: seq<nat>)
    requires Shape(r) && ChangeList(g, r.nCol) && 0 < |g| == r.nRow
    requires CurrentExact(g, r.current, r.nCol) && SamplesOk(g, r.a, r.nCol, r.nPSample, r.nCol - 1) && MinOk(r)
    ensures Core(r, g, r.nCol - 1)
  {
  }

  lemma NextRowKeeps(st: Accum, g: seq<nat>, iChng: nat, rowid: Rowid)
    requires st.nCol > 0 && iChng < st.nCol && Closing(st, g, st.nCol - 1)
    ensures Core(NextRow(st, iChng, rowid), g + [iChng], st.nCol - 1)
    ensures forall i :: 0 <= i < iChng && i < st.nCol - 1 ==> BestOk(g, NextRow(st, iChng, rowid).aBest[i], st.nCol, i)
  {
    hide Located, SampleOk, EqOk, LeastOf, Covered, PushBests, FillAll, Advance;
    var n := st.nCol - 1;
    var lo := if n <= iChng then n else iChng;
    StepsKeep(st, g, iChng, n);
    var st1 := PushBests(st, iChng, n);
    var r := NextRow(st, iChng, rowid);
    assert r.a == FillAll(st1.a, iChng, st1.current.anEq) && r.aBest == st1.aBest && r.nRow == |g| + 1;
    assert SamplesOk(g + [iChng], r.a, st.nCol, st.nPSample, n) by { FilledSamplesOk(st1, g, iChng); }
    assert MinOk(r) by { FillKeepsMin(st1, g, lo, iChng); }
    assert CurrentExact(g + [iChng], r.current, st.nCol) by {
      AdvanceExact(g, st.current, st.nCol, iChng, rowid, NextPrn(st.iPrn));
    }
    CoreBetweenRows(r, g + [iChng]);
  }

  // The number of periodic samples among a.
  function NumPeriodic(a: seq<Sample>): (k: nat)
    ensures k <= |a|
    ensures k == |a| <==> forall j :: 0 <= j < |a| ==> a[j].isPSample
  {
    if |a| == 0 then 0 else NumPeriodic(a[..|a| - 1]) + (if a[|a| - 1].isPSample then 1 else 0)
  }

  lemma MultipleGap(x: nat, B: nat, k: nat, P: nat)
    requires P > 0 && x < B && B % P == 0 && k * P <= x
    ensures (k + 1) * P <= B
  {
    var q := B / P;
    assert B == q * P;
    if k + 1 > q {
      assert k * P >= q * P by { MulMonotone(q, k, P); }
    } else {
      MulMonotone(k + 1, q, P);
    }
  }

  // Periodic samples are nPSample rows apart.
  lemma {:induction false} PeriodicSpacing(g: seq<nat>, a: seq<Sample>, nCol: nat, P: nat, lo: nat, B: nat)
    requires P > 0 && SamplesOk(g, a, nCol, P, lo) && AllBefore(a, B)
    ensures NumPeriodic(a) * P <= B
    decreases |a|
  {
    if |a| == 0 {
      assert NumPeriodic(a) == 0;
    } else {
      var n := |a| - 1;
      NumPeriodicLast(a);
      LastSample(g, a, nCol, P, lo, B);
      hide NumPeriodic, SamplesOk, RowOf, AllBefore;
      if a[n].isPSample {
        PeriodicSpacing(g, a[..n], nCol, P, lo, RowOf(a[n]));
        SpacingStep(NumPeriodic(a[..n]), RowOf(a[n]), B, P);
      } else {
        PeriodicSpacing(g, a[..n], nCol, P, lo, B);
      }
    }
  }

  // One more periodic row.
  lemma SpacingStep(k: nat, r: nat, B: nat, P: nat)
    requires P > 0 && k * P <= r < B && (r + 1) % P == 0
    ensures (k + 1) * P <= B
  {
    MultipleGap(r, r + 1, k, P);
  }

  ghost predicate AllBefore(a: seq<Sample>, B: nat) {
    forall j :: 0 <= j < |a| ==> |a[j].anLt| > 0 && RowOf(a[j]) < B
  }

  lemma LastSample(g: seq<nat>, a: seq<Sample>, nCol: nat, P: nat, lo: nat, B: nat)
    requires SamplesOk(g, a, nCol, P, lo) && |a| > 0 && AllBefore(a, B)
    ensures SamplesOk(g, a[..|a| - 1], nCol, P, lo) && AllBefore(a[..|a| - 1], B)
    ensures |a[|a| - 1].anLt| > 0 && RowOf(a[|a| - 1]) < B && AllBefore(a[..|a| - 1], RowOf(a[|a| - 1]))
    ensures a[|a| - 1].isPSample ==> P > 0 && (RowOf(a[|a| - 1]) + 1) % P == 0
  {
    assert SampleOk(g, a[|a| - 1], nCol, P, lo);
    hide SampleOk;
  }

  lemma NumPeriodicLast(a: seq<Sample>)
    requires |a| > 0
    ensures NumPeriodic(a) == NumPeriodic(a[..|a| - 1]) + if a[|a| - 1].isPSample then 1 else 0
  {
  }

  lemma PeriodsFit(k: nat, m: nat, P: nat, maxRows: nat)
    requires m > 0 && P == maxRows / m + 1 && k * P <= maxRows
    ensures k < m
  {
    assert maxRows == m * (maxRows / m) + maxRows % m;
    assert m * P == m * (maxRows / m) + m;
    if k >= m { MulMonotone(m, k, P); }
  }

  lemma FewPeriodic(g: seq<nat>, a: seq<Sample>, nCol: nat, mxSample: nat, P: nat, lo: nat, maxRows: nat)
    requires SamplesOk(g, a, nCol, P, lo) && PeriodFits(mxSample, P, maxRows) && |g| <= maxRows
    ensures NumPeriodic(a) <= mxSample / 3
  {
    assert forall j :: 0 <= j < |a| ==> SampleOk(g, a[j], nCol, P, lo);
    assert AllBefore(a, |g|);
    PeriodicSpacing(g, a, nCol, P, lo, |g|);
    PeriodsFit(NumPeriodic(a), mxSample / 3 + 1, P, maxRows);
  }

  /** At most a third of the array is ever periodic, and a full array always has an evictable sample. */
  lemma {:induction false} PeriodicBound(st: Accum, g: seq<nat>, maxRows: nat)
    requires Inv(st, g, maxRows)
    ensures NumPeriodic(st.a) <= st.mxSample / 3
    ensures |st.a| == st.mxSample ==> !st.a[st.iMin].isPSample
  {
    FewPeriodic(g, st.a, st.nCol, st.mxSample, st.nPSample, st.nCol - 1, maxRows);
  }

  lemma PeriodicRow(r: nat, P: nat)
    requires P > 0
    ensures IsPeriodic(r, P) ==> (r + 1) % P == 0
  {
    var q, m := (r + 1) / P, (r + 1) % P;
    assert r + 1 == P * q + m;
    if m > 0 { DivUnique(r, P, q, m - 1); }
  }

  lemma DivUnique(n: nat, d: nat, q: nat, r: nat)
    requires r < d && n == d * q + r
    ensures n / d == q
  {
    var e := n / d;
    assert d * e <= n < d * e + d by { assert n == d * e + n % d; }
    MulLess(e, q + 1, d);
    MulLess(q, e + 1, d);
  }

  lemma MulLess(a: nat, b: nat, d: nat)
    requires d * a < d * b
    ensures a < b
  {
    if b <= a { MulMonotone(b, a, d); }
  }

  lemma PeriodicSample(g: seq<nat>, cur: Sample, nCol: nat, P: nat)
    requires nCol > 0 && P > 0 && ChangeList(g, nCol) && CurrentExact(g, cur, nCol)
    requires IsPeriodic(cur.anLt[nCol - 1], P)
    ensures SampleOk(g, ZeroFirst(cur.(isPSample := true, iCol := 0), nCol - 1), nCol, P, nCol - 1)
  {
    var t := ZeroFirst(cur.(isPSample := true, iCol := 0), nCol - 1);
    var r := |g| - 1;
    PeriodicRow(r, P);
    forall c | 0 <= c < nCol ensures LtExact(g, t, r, c) && EqOk(g, t, nCol, nCol - 1, c) {
      assert LtExact(g, cur, r, c);
    }
  }

  // The samples after inserting the current row as a periodic sample.
  lemma PeriodicSamples(st: Accum, g: seq<nat>)
    requires st.nCol > 0 && Core(st, g, st.nCol - 1)
    requires forall j :: 0 <= j < |st.a| ==> RowOf(st.a[j]) < |g| - 1
    requires IsPeriodic(st.current.anLt[st.nCol - 1], st.nPSample)
    ensures var t := ZeroFirst(st.current.(isPSample := true, iCol := 0), st.nCol - 1);
            SamplesOk(g, Evict(st) + [t], st.nCol, st.nPSample, st.nCol - 1)
    ensures forall j :: 0 <= j < |Evict(st)| ==> RowOf(Evict(st)[j]) < |g| - 1
  {
    PeriodicSample(g, st.current, st.nCol, st.nPSample);
    EvictKeeps(st, g, st.nCol - 1);
  }

  // CurrentExact does not depend on the column a sample is kept for.
  lemma RecolumnExact(g: seq<nat>, cur: Sample, nCol: nat, i: nat)
    requires CurrentExact(g, cur, nCol) && i < nCol
    ensures CurrentExact(g, cur.(iCol := i), nCol)
  {
    forall c | 0 <= c < nCol ensures LtExact(g, cur.(iCol := i), RowOf(cur), c) {
      assert LtExact(g, cur, RowOf(cur), c);
    }
  }

  lemma PeriodicInserted(st: Accum, g: seq<nat>, maxRows: nat)
    requires st.nCol > 0 && Core(st, g, st.nCol - 1)
    requires forall j :: 0 <= j < |st.a| ==> RowOf(st.a[j]) < |g| - 1
    requires PeriodFits(st.mxSample, st.nPSample, maxRows) && |g| <= maxRows
    requires IsPeriodic(st.current.anLt[st.nCol - 1], st.nPSample)
    ensures var r := Insert(st, st.current.(isPSample := true, iCol := 0), st.nCol - 1);
            SamplesOk(g, r.a, st.nCol, st.nPSample, st.nCol - 1) && MinOk(r)
  {
    var a' := Evict(st) + [ZeroFirst(st.current.(isPSample := true, iCol := 0), st.nCol - 1)];
    PeriodicSamples(st, g);
    FewPeriodic(g, a', st.nCol, st.mxSample, st.nPSample, st.nCol - 1, maxRows);
    MinFound(st.(a := a'));
  }

  lemma PeriodicKeeps(st: Accum, g: seq<nat>, maxRows: nat)
    requires st.nCol > 0 && Core(st, g, st.nCol - 1)
    requires forall j :: 0 <= j < |st.a| ==> RowOf(st.a[j]) < |g| - 1
    requires PeriodFits(st.mxSample, st.nPSample, maxRows) && |g| <= maxRows
    ensures Core(PushPeriodic(st), g, st.nCol - 1)
  {
    if IsPeriodic(st.current.anLt[st.nCol - 1], st.nPSample) {
      var cur := st.current.(isPSample := true, iCol := 0);
      PeriodicInserted(st, g, maxRows);
      InsertIgnoresCurrent(st, cur, cur, st.nCol - 1);
      RecolumnExact(g, st.current, st.nCol, 0);
    }
  }

  lemma InsertIgnoresCurrent(st: Accum, cur: Sample, x: Sample, nEqZero: nat)
    requires Shape(st) && Sized(cur, st.nCol) && Sized(x, st.nCol) && nEqZero < st.nCol
    ensures Insert(st.(current := cur), x, nEqZero) == Insert(st, x, nEqZero).(current := cur)
  {
  }

  // The refreshed candidate of column i.
  lemma TakenIsBest(g: seq<nat>, cur: Sample, nCol: nat, i: nat)
    requires nCol > 0 && CurrentExact(g, cur, nCol) && cur.iCol == i < nCol - 1
    ensures BestOk(g, cur, nCol, i)
  {
  }

  // A candidate that is kept is not the last row of a group that goes on in column i+1.
  lemma KeptIsBest(g: seq<nat>, d: nat, cur: Sample, s: Sample, nCol: nat, i: nat)
    requires i < d < nCol && i < nCol - 1 && ChangeList(g, nCol)
    requires BestOk(g, s, nCol, i) && CurrentExact(g + [d], cur, nCol)
    requires !BetterPost(cur, s, nCol, i + 1)
    ensures BestOk(g + [d], s, nCol, i)
  {
    var g', b := g + [d], RowOf(s);
    forall c | 0 <= c < nCol ensures LtExact(g', s, b, c) && Start(g', b, c) == Start(g, b, c) {
      assert LtExact(g, s, b, c);
      PastFixed(g, d, b, c);
    }
    OpenAfter(g, d, b, i);
    assert s.anEq[i + 1] == b + 1 - Start(g, b, i + 1);
    assert cur.anEq[i + 1] == Count(g', |g|, i + 1) == |g| + 1 - Start(g', |g|, i + 1);
  }

  lemma {:induction false} RefreshKeeps(st: Accum, g: seq<nat>, d: nat, i: nat)
    requires Shape(st) && i < st.nCol && d < st.nCol && ChangeList(g, st.nCol)
    requires CurrentExact(g + [d], st.current, st.nCol)
    requires forall j :: 0 <= j < i ==> BestOk(g + [d], st.aBest[j], st.nCol, j)
    requires forall j :: i <= j < d && j < st.nCol - 1 ==> BestOk(g, st.aBest[j], st.nCol, j)
    ensures CurrentExact(g + [d], UpdateBest(st, d, i).current, st.nCol)
    ensures forall j :: 0 <= j < st.nCol - 1 ==> BestOk(g + [d], UpdateBest(st, d, i).aBest[j], st.nCol, j)
    decreases st.nCol - i
  {
    if i < st.nCol - 1 {
      var cur := st.current.(iCol := i);
      RecolumnExact(g + [d], st.current, st.nCol, i);
      TakenIsBest(g + [d], cur, st.nCol, i);
      var take := i >= d || BetterPost(cur, st.aBest[i], st.nCol, i + 1);
      if !take { KeptIsBest(g, d, cur, st.aBest[i], st.nCol, i); }
      RefreshKeeps(RefreshBest(st, d, i), g, d, i + 1);
    }
  }

  /** Every later statPush keeps the invariant. */
  lemma {:induction false} PushKeeps(st: Accum, g: seq<nat>, maxRows: nat, iChng: nat, rowid: Rowid)
    requires Inv(st, g, maxRows) && iChng < st.nCol && |g| < maxRows
    ensures Inv(Push(st, iChng, rowid), g + [iChng], maxRows)
  {
    var st1 := NextRow(st, iChng, rowid);
    NextRowKeeps(st, g, iChng, rowid);
    OldRows(st, g, iChng, rowid);
    PeriodicKeeps(st1, g + [iChng], maxRows);
    RefreshKeeps(PushPeriodic(st1), g, iChng, 0);
  }

  lemma OldRows(st: Accum, g: seq<nat>, iChng: nat, rowid: Rowid)
    requires st.nCol > 0 && iChng < st.nCol && Closing(st, g, st.nCol - 1)
    ensures forall j :: 0 <= j < |NextRow(st, iChng, rowid).a| ==> RowOf(NextRow(st, iChng, rowid).a[j]) < |g|
  {
    hide EqOk, LtExact, LeastOf, Covered, BestOk, PushBests;
    var n := st.nCol - 1;
    StepsKeep(st, g, iChng, n);
    var st1 := PushBests(st, iChng, n);
    forall j | 0 <= j < |st1.a| ensures RowOf(Fill(st1.a[j], iChng, st1.current.anEq)) < |g| {
      assert SampleOk(g, st1.a[j], st.nCol, st.nPSample, if n <= iChng then n else iChng);
    }
  }

  // statInit has zeroed the accumulator.
  ghost predicate Fresh(st: Accum, maxRows: nat)
  {
    && Shape(st) && st.nRow == 0 && st.a == [] && !st.current.isPSample
    && PeriodFits(st.mxSample, st.nPSample, maxRows)
    && forall c :: 0 <= c < st.nCol ==> st.current.anLt[c] == 0 && st.current.anDLt[c] == 0
  }

  /** The first statPush establishes it. */
  lemma {:induction false} FirstPushKeeps(st: Accum, maxRows: nat, rowid: Rowid)
    requires Fresh(st, maxRows) && maxRows > 0
    ensures Inv(Push(st, 0, rowid), [0], maxRows)
  {
    var st1 := NextRow(st, 0, rowid);
    FirstExact(st.current, st.nCol, rowid, NextPrn(st.iPrn));
    PeriodicKeeps(st1, [0], maxRows);
    assert [] + [0] == [0];
    RefreshKeeps(PushPeriodic(st1), [], 0, 0);
  }

  /** What the assertions inside sampleInsert demand of a call. */

  ghost predicate InsertAllowed(st: Accum, pNew: Sample, nEqZero: nat)
    requires Shape(st) && Sized(pNew, st.nCol) && nEqZero < st.nCol
  {
    var open := exists j :: 0 <= j < |st.a| && OpenAt(st.a[j], pNew.iCol);
    && (!pNew.isPSample ==>
          && pNew.anEq[pNew.iCol] > 0
          && forall j :: 0 <= j < |st.a| && OpenAt(st.a[j], pNew.iCol) && !st.a[j].isPSample ==>
               st.a[j].iCol > pNew.iCol && Better(pNew, st.a[j], st.nCol))
    && (pNew.isPSample || !open ==>
          forall j :: 0 <= j < |Evict(st)| ==> RowOf(Evict(st)[j]) < RowOf(pNew))
    && MinOk(Insert(st, pNew, nEqZero))
  }

  // The candidate is preferred to every non-periodic sample of its open group.
  lemma CandidatePreferred(st: Accum, g: seq<nat>, i: nat)
    requires i < st.nCol - 1 && Closing(st, g, i + 1)
    ensures forall j :: 0 <= j < |st.a| && OpenAt(st.a[j], i) && !st.a[j].isPSample ==>
              st.a[j].iCol > i && Better(Candidate(st, i), st.a[j], st.nCol)
  {
    CandidateExact(st, g, i);
    forall j | 0 <= j < |st.a| && OpenAt(st.a[j], i) && !st.a[j].isPSample
      ensures st.a[j].iCol > i && Better(Candidate(st, i), st.a[j], st.nCol)
    {
      CandidateBeats(g, st.a[j], Candidate(st, i), st.nCol, st.nPSample, i + 1, i);
    }
  }

  lemma {:induction false} CandidateAllowed(st: Accum, g: seq<nat>, i: nat)
    requires i < st.nCol - 1 && Closing(st, g, i + 1)
    requires |st.a| < st.mxSample || Better(Candidate(st, i), st.a[st.iMin], st.nCol)
    ensures InsertAllowed(st.(aBest := st.aBest[i := Candidate(st, i)]), Candidate(st, i), i)
  {
    var x := Candidate(st, i);
    CandidateExact(st, g, i);
    CandidatePreferred(st, g, i);
    StepKeeps(st, g, i);
    hide SampleOk, CurrentExact, Covered, BestOk, Better, ScanUpgrade, ScanMin, Located, SamplesOk, Count, Open,
        Insert, MinOk, OpenAt;
    if forall j :: 0 <= j < |st.a| ==> !OpenAt(st.a[j], i) {
      AppendSamples(st, g, i);
      assert Evict(st.(aBest := st.aBest[i := x])) == Evict(st);
    }
  }

  lemma {:induction false} PeriodicAllowed(st: Accum, g: seq<nat>, maxRows: nat)
    requires st.nCol > 0 && Core(st, g, st.nCol - 1)
    requires forall j :: 0 <= j < |st.a| ==> RowOf(st.a[j]) < |g| - 1
    requires PeriodFits(st.mxSample, st.nPSample, maxRows) && |g| <= maxRows
    requires IsPeriodic(st.current.anLt[st.nCol - 1], st.nPSample)
    ensures var cur := st.current.(isPSample := true, iCol := 0);
            InsertAllowed(st.(current := cur), cur, st.nCol - 1)
  {
    var cur := st.current.(isPSample := true, iCol := 0);
    PeriodicInserted(st, g, maxRows);
    PeriodicSamples(st, g);
    InsertIgnoresCurrent(st, cur, cur, st.nCol - 1);
    assert Evict(st.(current := cur)) == Evict(st);
  }
}
