/** Which samples a scan retains: the largest prefix groups.  A group of rows
    with the same first c+1 columns is either represented by a retained sample,
    or the array is full of samples that were kept for groups at least as
    large, all of them different.
 */
module Stat4Selection {
  import opened IndexRows
  import opened Stat4
  import opened Stat4Invariant
  import opened AnalyzeScan

  // The size of the group a non-periodic sample was kept for.
  function Weight(s: Sample): nat
    requires s.iCol < |s.anEq|
  {
    s.anEq[s.iCol]
  }

  // Sample s lies in the group of row m in column c, and is periodic or kept for that group or a wider one.
  predicate Represents(g: seq<nat>, s: Sample, m: nat, c: nat)
    requires m < |g| && |s.anLt| > 0
  {
    RowOf(s) < |g| && Start(g, RowOf(s), c) == Start(g, m, c) && (s.isPSample || s.iCol <= c)
  }

  predicate AllHeavier(a: seq<Sample>, nCol: nat, n: nat)
    requires AllSized(a, nCol)
  {
    forall j :: 0 <= j < |a| && !a[j].isPSample ==> Weight(a[j]) >= n
  }

  ghost predicate Represented(g: seq<nat>, a: seq<Sample>, nCol: nat, m: nat, c: nat)
    requires nCol > 0 && AllSized(a, nCol) && m < |g|
  {
    exists u :: 0 <= u < |a| && Represents(g, a[u], m, c)
  }

  // The group of row m in column c is represented, or all samples of a full array were kept for groups as large.
  ghost predicate Kept(g: seq<nat>, a: seq<Sample>, nCol: nat, cap: nat, m: nat, c: nat)
    requires nCol > 0 && AllSized(a, nCol) && m < |g|
  {
    Represented(g, a, nCol, m, c) || (|a| == cap && AllHeavier(a, nCol, Count(g, m, c)))
  }

  // The group of row m in column c is closed, or open and its candidate has been pushed.
  predicate Done(g: seq<nat>, m: nat, c: nat, lo: nat)
    requires |g| > 0
  {
    !Open(g, m, c) || lo <= c
  }

  ghost predicate AllKept(g: seq<nat>, a: seq<Sample>, nCol: nat, cap: nat, lo: nat)
    requires nCol > 0 && AllSized(a, nCol) && |g| > 0
  {
    forall m, c :: 0 <= m < |g| && 0 <= c < nCol - 1 && Done(g, m, c, lo) ==> Kept(g, a, nCol, cap, m, c)
  }

  // Two non-periodic samples are never kept for the same group.
  ghost predicate Different(g: seq<nat>, s: Sample, t: Sample)
    requires |s.anLt| > 0 && |t.anLt| > 0 && RowOf(s) < |g| && RowOf(t) < |g|
  {
    !s.isPSample && !t.isPSample && s.iCol == t.iCol ==> Start(g, RowOf(s), s.iCol) != Start(g, RowOf(t), t.iCol)
  }

  ghost predicate AllDifferent(g: seq<nat>, a: seq<Sample>, nCol: nat)
    requires nCol > 0 && AllSized(a, nCol)
  {
    && (forall j :: 0 <= j < |a| ==> RowOf(a[j]) < |g|)
    && forall i, j :: 0 <= i < j < |a| ==> Different(g, a[i], a[j])
  }

  ghost predicate Selected(g: seq<nat>, a: seq<Sample>, nCol: nat, cap: nat, lo: nat)
    requires nCol > 0 && |g| > 0
  {
    AllSized(a, nCol) && AllKept(g, a, nCol, cap, lo) && AllDifferent(g, a, nCol)
  }

  /** What changes to the array do to one group. */

  // Sample t is s with a lower column, a larger group, or more counters filled in.
  predicate Improves(s: Sample, t: Sample, nCol: nat)
    requires nCol > 0 && Sized(s, nCol) && Sized(t, nCol)
  {
    && RowOf(t) == RowOf(s) && t.isPSample == s.isPSample && t.iCol <= s.iCol
    && (!s.isPSample ==> Weight(t) >= Weight(s))
  }

  lemma ImprovedKept(g: seq<nat>, a: seq<Sample>, a': seq<Sample>, nCol: nat, cap: nat, m: nat, c: nat)
    requires nCol > 0 && AllSized(a, nCol) && AllSized(a', nCol) && m < |g| && |a'| == |a|
    requires forall j :: 0 <= j < |a| ==> Improves(a[j], a'[j], nCol)
    requires Kept(g, a, nCol, cap, m, c)
    ensures Kept(g, a', nCol, cap, m, c)
  {
    if Represented(g, a, nCol, m, c) {
      var u :| 0 <= u < |a| && Represents(g, a[u], m, c);
      assert Improves(a[u], a'[u], nCol) && Represents(g, a'[u], m, c);
    } else {
      forall j | 0 <= j < |a'| && !a'[j].isPSample ensures Weight(a'[j]) >= Count(g, m, c) {
        assert Improves(a[j], a'[j], nCol);
      }
    }
  }

  // Evicting the least sample leaves only heavier ones.
  lemma LightestEvicted(st: Accum, x: Sample)
    requires Shape(st) && MinOk(st) && |st.a| == st.mxSample && Sized(x, st.nCol)
    requires x.isPSample || Weight(x) >= Weight(st.a[st.iMin])
    ensures AllHeavier(st.a, st.nCol, Weight(st.a[st.iMin]))
    ensures AllHeavier(Evict(st) + [x], st.nCol, Weight(st.a[st.iMin]))
  {
    hide BetterPost;
    forall j | 0 <= j < |st.a| && !st.a[j].isPSample ensures Weight(st.a[j]) >= Weight(st.a[st.iMin]) {
      assert !Better(st.a[st.iMin], st.a[j], st.nCol);
    }
  }

  // The group the evicted sample was kept for is at least as large as any that it represents.
  lemma EvictedWeight(st: Accum, g: seq<nat>, lo: nat, m: nat, c: nat)
    requires Core(st, g, lo) && m < |g| && |st.a| == st.mxSample && !st.a[st.iMin].isPSample
    requires Represents(g, st.a[st.iMin], m, c)
    ensures Weight(st.a[st.iMin]) >= Count(g, m, c)
  {
    var e := st.a[st.iMin];
    assert SampleOk(g, e, st.nCol, st.nPSample, lo) && EqOk(g, e, st.nCol, lo, e.iCol);
    WiderIsLarger(g, RowOf(e), m, e.iCol, c);
  }

  // So the evicted sample is missed by no group.
  lemma EvictedKept(st: Accum, g: seq<nat>, lo: nat, x: Sample, m: nat, c: nat)
    requires Core(st, g, lo) && Sized(x, st.nCol) && m < |g|
    requires |st.a| == st.mxSample && !st.a[st.iMin].isPSample
    requires x.isPSample || Weight(x) >= Weight(st.a[st.iMin])
    requires Kept(g, st.a, st.nCol, st.mxSample, m, c)
    ensures Kept(g, Evict(st) + [x], st.nCol, st.mxSample, m, c)
  {
    var a' := Evict(st) + [x];
    LightestEvicted(st, x);
    if Represents(g, st.a[st.iMin], m, c) { EvictedWeight(st, g, lo, m, c); }
    hide SamplesOk, CurrentExact, MinOk, Covered, Represents, Count;
    if u :| 0 <= u < |st.a| && u != st.iMin && Represents(g, st.a[u], m, c) {
      assert a'[if u < st.iMin then u else u - 1] == st.a[u];
    }
  }

  // A group that shares its start with row m in column c, seen from column d <= c, is at least as large.
  lemma WiderIsLarger(g: seq<nat>, r: nat, m: nat, d: nat, c: nat)
    requires r < |g| && m < |g| && d <= c && Start(g, r, c) == Start(g, m, c)
    ensures Count(g, r, d) >= Count(g, m, c)
  {
    CountMonotone(g, r, d, c);
    if r <= m { StartEnd(g, r, m, c); } else { StartEnd(g, m, r, c); }
  }

  lemma AppendedKept(g: seq<nat>, a: seq<Sample>, x: Sample, nCol: nat, cap: nat, m: nat, c: nat)
    requires nCol > 0 && AllSized(a, nCol) && Sized(x, nCol) && m < |g| && |a| < cap
    requires Kept(g, a, nCol, cap, m, c)
    ensures Kept(g, a + [x], nCol, cap, m, c)
  {
    var u :| 0 <= u < |a| && Represents(g, a[u], m, c);
    assert (a + [x])[u] == a[u];
  }

  /** One candidate: sampleInsert called or not. */

  // Once the open group of column i is kept, the columns from i on are done.
  lemma OpenGroupKept(g: seq<nat>, a: seq<Sample>, nCol: nat, cap: nat, i: nat)
    requires nCol > 0 && AllSized(a, nCol) && |g| > 0 && i < nCol - 1
    requires AllKept(g, a, nCol, cap, i + 1) && Kept(g, a, nCol, cap, |g| - 1, i)
    ensures AllKept(g, a, nCol, cap, i)
  {
    forall m, c | 0 <= m < |g| && 0 <= c < nCol - 1 && Done(g, m, c, i) ensures Kept(g, a, nCol, cap, m, c) {
      if c == i && Open(g, m, c) {
        OpenCount(g, m, c);
        if u :| 0 <= u < |a| && Represents(g, a[u], |g| - 1, i) { assert Represents(g, a[u], m, i); }
      } else {
        assert Done(g, m, c, i + 1);
      }
    }
  }

  lemma SkippedSelects(st: Accum, g: seq<nat>, i: nat)
    requires i < st.nCol - 1 && Closing(st, g, i + 1)
    requires |st.a| == st.mxSample && !Better(Candidate(st, i), st.a[st.iMin], st.nCol)
    requires Selected(g, st.a, st.nCol, st.mxSample, i + 1)
    ensures Selected(g, st.a, st.nCol, st.mxSample, i)
  {
    CandidateExact(st, g, i);
    var e := st.a[st.iMin];
    forall j | 0 <= j < |st.a| && !st.a[j].isPSample ensures Weight(st.a[j]) >= Count(g, |g| - 1, i) {
      assert !Better(e, st.a[j], st.nCol);
    }
    OpenGroupKept(g, st.a, st.nCol, st.mxSample, i);
  }

  lemma BlockedSelects(st: Accum, g: seq<nat>, i: nat)
    requires i < st.nCol - 1 && Closing(st, g, i + 1)
    requires exists j :: 0 <= j < |st.a| && OpenAt(st.a[j], i) && st.a[j].isPSample
    requires Selected(g, st.a, st.nCol, st.mxSample, i + 1)
    ensures Selected(g, st.a, st.nCol, st.mxSample, i)
  {
    var u :| 0 <= u < |st.a| && OpenAt(st.a[u], i) && st.a[u].isPSample;
    OpenAtIsOpen(g, st.a[u], st.nCol, st.nPSample, i + 1, i);
    OpenCount(g, RowOf(st.a[u]), i);
    assert Represents(g, st.a[u], |g| - 1, i);
    OpenGroupKept(g, st.a, st.nCol, st.mxSample, i);
  }

  // A sample kept for column i is not in the open group of that column.
  lemma KeptElsewhere(st: Accum, g: seq<nat>, i: nat, s: Sample)
    requires i < st.nCol - 1 && Core(st, g, i + 1) && s in st.a && !s.isPSample && s.iCol == i
    ensures RowOf(s) < |g| && !Open(g, RowOf(s), i)
  {
    assert SampleOk(g, s, st.nCol, st.nPSample, i + 1) && EqOk(g, s, st.nCol, i + 1, i);
  }

  lemma UpgradedSelects(st: Accum, g: seq<nat>, i: nat, j: nat)
    requires i < st.nCol - 1 && Closing(st, g, i + 1)
    requires j < |st.a| && BestOf(st.a, st.nCol, i, 0, j)
    requires Selected(g, st.a, st.nCol, st.mxSample, i + 1)
    ensures Selected(g, st.a[j := Upgrade(st.a[j], i, st.current.anEq[i])], st.nCol, st.mxSample, i)
  {
    var s, a' := st.a[j], st.a[j := Upgrade(st.a[j], i, st.current.anEq[i])];
    CandidateExact(st, g, i);
    CandidateBeats(g, s, Candidate(st, i), st.nCol, st.nPSample, i + 1, i);
    forall m, c | 0 <= m < |g| && 0 <= c < st.nCol - 1 && Done(g, m, c, i + 1)
      ensures Kept(g, a', st.nCol, st.mxSample, m, c)
    {
      ImprovedKept(g, st.a, a', st.nCol, st.mxSample, m, c);
    }
    OpenAtIsOpen(g, s, st.nCol, st.nPSample, i + 1, i);
    OpenCount(g, RowOf(s), i);
    assert Represents(g, a'[j], |g| - 1, i);
    OpenGroupKept(g, a', st.nCol, st.mxSample, i);
    UpgradedDiffers(st, g, i, j);
  }

  lemma UpgradedDiffers(st: Accum, g: seq<nat>, i: nat, j: nat)
    requires i < st.nCol - 1 && Closing(st, g, i + 1)
    requires j < |st.a| && BestOf(st.a, st.nCol, i, 0, j)
    requires AllDifferent(g, st.a, st.nCol)
    ensures AllDifferent(g, st.a[j := Upgrade(st.a[j], i, st.current.anEq[i])], st.nCol)
  {
    var a' := st.a[j := Upgrade(st.a[j], i, st.current.anEq[i])];
    OpenAtIsOpen(g, st.a[j], st.nCol, st.nPSample, i + 1, i);
    OpenCount(g, RowOf(st.a[j]), i);
    forall k, l | 0 <= k < l < |a'| ensures Different(g, a'[k], a'[l]) {
      assert Different(g, st.a[k], st.a[l]);
      var other := st.a[if k == j then l else k];
      if (k == j || l == j) && !other.isPSample && other.iCol == i { KeptElsewhere(st, g, i, other); }
    }
  }

  lemma AppendedSelects(st: Accum, g: seq<nat>, i: nat)
    requires i < st.nCol - 1 && Closing(st, g, i + 1)
    requires |st.a| < st.mxSample || Better(Candidate(st, i), st.a[st.iMin], st.nCol)
    requires Selected(g, st.a, st.nCol, st.mxSample, i + 1)
    ensures Selected(g, Evict(st) + [ZeroFirst(Candidate(st, i), i)], st.nCol, st.mxSample, i)
  {
    var x, t := Candidate(st, i), ZeroFirst(Candidate(st, i), i);
    var a' := Evict(st) + [t];
    CandidateExact(st, g, i);
    forall m, c | 0 <= m < |g| && 0 <= c < st.nCol - 1 && Done(g, m, c, i + 1)
      ensures Kept(g, a', st.nCol, st.mxSample, m, c)
    {
      if |st.a| < st.mxSample {
        AppendedKept(g, st.a, t, st.nCol, st.mxSample, m, c);
      } else {
        EvictedKept(st, g, i + 1, t, m, c);
      }
    }
    OpenCount(g, RowOf(t), i);
    assert Represents(g, a'[|a'| - 1], |g| - 1, i);
    OpenGroupKept(g, a', st.nCol, st.mxSample, i);
    AppendedDiffers(st, g, i);
  }

  lemma AppendedDiffers(st: Accum, g: seq<nat>, i: nat)
    requires i < st.nCol - 1 && Closing(st, g, i + 1)
    requires AllDifferent(g, st.a, st.nCol)
    ensures AllDifferent(g, Evict(st) + [ZeroFirst(Candidate(st, i), i)], st.nCol)
  {
    var t := ZeroFirst(Candidate(st, i), i);
    var a' := Evict(st) + [t];
    CandidateExact(st, g, i);
    OpenCount(g, RowOf(t), i);
    EvictKeeps(st, g, i + 1);
    EvictDiffers(st, g);
    forall k | 0 <= k < |a'| - 1 ensures Different(g, a'[k], t) {
      assert a'[k] in st.a;
      if !a'[k].isPSample && a'[k].iCol == i { KeptElsewhere(st, g, i, a'[k]); }
    }
  }

  lemma EvictDiffers(st: Accum, g: seq<nat>)
    requires Shape(st) && st.nCol > 0 && AllDifferent(g, st.a, st.nCol)
    ensures AllDifferent(g, Evict(st), st.nCol)
  {
    var e := Evict(st);
    forall k | 0 <= k < |e| ensures e[k] == st.a[if |st.a| < st.mxSample || k < st.iMin then k else k + 1] {
    }
  }

  // One iteration of the first loop of samplePushPrevious.
  lemma {:induction false} StepSelects(st: Accum, g: seq<nat>, i: nat)
    requires i < st.nCol - 1 && Closing(st, g, i + 1)
    requires Selected(g, st.a, st.nCol, st.mxSample, i + 1)
    ensures Selected(g, PushBest(st, i).a, st.nCol, st.mxSample, i)
  {
    var x := Candidate(st, i);
    CandidateExact(st, g, i);
    if |st.a| == st.mxSample && !Better(x, st.a[st.iMin], st.nCol) {
      SkippedSelects(st, g, i);
    } else {
      ScanUpgradeFinds(st.a, st.nCol, i, |st.a|, -1);
      var scan := ScanUpgrade(st.a, st.nCol, i, |st.a|, -1);
      if scan.Blocked? {
        BlockedSelects(st, g, i);
      } else if scan.j >= 0 {
        UpgradedSelects(st, g, i, scan.j);
      } else {
        AppendedSelects(st, g, i);
        assert Evict(st.(aBest := st.aBest[i := x])) == Evict(st);
      }
    }
  }

  lemma {:induction false} StepsSelect(st: Accum, g: seq<nat>, iChng: nat, n: nat)
    requires Closing(st, g, n) && Selected(g, st.a, st.nCol, st.mxSample, n)
    ensures Selected(g, PushBests(st, iChng, n).a, st.nCol, st.mxSample, if n <= iChng then n else iChng)
    decreases n
  {
    hide SamplesOk, CurrentExact, MinOk, Covered, BestOk, PushBest, AllKept, AllDifferent;
    if n > iChng {
      StepKeeps(st, g, n - 1);
      StepSelects(st, g, n - 1);
      StepsSelect(PushBest(st, n - 1), g, iChng, n - 1);
    }
  }

  /** A whole row. */

  // Filling in the counters of the groups that close changes nothing of this.
  lemma FillSelects(st: Accum, g: seq<nat>, lo: nat, iChng: nat)
    requires Core(st, g, lo) && Selected(g, st.a, st.nCol, st.mxSample, lo)
    ensures Selected(g, FillAll(st.a, iChng, st.current.anEq), st.nCol, st.mxSample, lo)
  {
    var a' := FillAll(st.a, iChng, st.current.anEq);
    forall j | 0 <= j < |a'| ensures Improves(st.a[j], a'[j], st.nCol) && a'[j].iCol == st.a[j].iCol {
      FillSample(g, st.a[j], st.nCol, st.nPSample, lo, iChng, st.current.anEq);
      assert SampleOk(g, st.a[j], st.nCol, st.nPSample, lo);
    }
    forall m, c | 0 <= m < |g| && 0 <= c < st.nCol - 1 && Done(g, m, c, lo)
      ensures Kept(g, a', st.nCol, st.mxSample, m, c)
    {
      ImprovedKept(g, st.a, a', st.nCol, st.mxSample, m, c);
    }
    forall k, l | 0 <= k < l < |a'| ensures Different(g, a'[k], a'[l]) {
      assert Different(g, st.a[k], st.a[l]) && Improves(st.a[k], a'[k], st.nCol) && Improves(st.a[l], a'[l], st.nCol);
    }
  }

  // The next row arrives: the groups it closes are those that are done.
  lemma NextRowKept(g: seq<nat>, a: seq<Sample>, nCol: nat, cap: nat, d: nat, m: nat, c: nat)
    requires nCol > 0 && |g| > 0 && AllSized(a, nCol) && d < nCol
    requires AllKept(g, a, nCol, cap, if nCol - 1 <= d then nCol - 1 else d)
    requires m < |g| && c < nCol - 1 && !Open(g + [d], m, c)
    ensures Kept(g + [d], a, nCol, cap, m, c)
  {
    OpenAfter(g, d, m, c);
    assert Done(g, m, c, if nCol - 1 <= d then nCol - 1 else d);
    if u :| 0 <= u < |a| && Represents(g, a[u], m, c) {
      PastFixed(g, d, m, c);
      PastFixed(g, d, RowOf(a[u]), c);
      assert Represents(g + [d], a[u], m, c);
    }
  }

  lemma NextRowSelects(g: seq<nat>, a: seq<Sample>, nCol: nat, cap: nat, d: nat)
    requires nCol > 0 && |g| > 0 && d < nCol
    requires Selected(g, a, nCol, cap, if nCol - 1 <= d then nCol - 1 else d)
    ensures Selected(g + [d], a, nCol, cap, nCol - 1)
  {
    forall m, c | 0 <= m < |g + [d]| && 0 <= c < nCol - 1 && Done(g + [d], m, c, nCol - 1)
      ensures Kept(g + [d], a, nCol, cap, m, c)
    {
      if m < |g| { NextRowKept(g, a, nCol, cap, d, m, c); }
    }
    forall i, j | 0 <= i < j < |a| ensures Different(g + [d], a[i], a[j]) {
      assert Different(g, a[i], a[j]);
      PastFixed(g, d, RowOf(a[i]), a[i].iCol);
      PastFixed(g, d, RowOf(a[j]), a[j].iCol);
    }
  }

  lemma InsertedSelects(st: Accum, g: seq<nat>, t: Sample)
    requires st.nCol > 0 && Core(st, g, st.nCol - 1) && Sized(t, st.nCol) && t.isPSample && RowOf(t) < |g|
    requires Selected(g, st.a, st.nCol, st.mxSample, st.nCol - 1)
    ensures Selected(g, Evict(st) + [t], st.nCol, st.mxSample, st.nCol - 1)
  {
    hide Represented, AllHeavier;
    var n, a' := st.nCol - 1, Evict(st) + [t];
    forall m, c | 0 <= m < |g| && 0 <= c < n && Done(g, m, c, n) ensures Kept(g, a', st.nCol, st.mxSample, m, c) {
      if |st.a| < st.mxSample {
        AppendedKept(g, st.a, t, st.nCol, st.mxSample, m, c);
      } else {
        EvictedKept(st, g, n, t, m, c);
      }
    }
    EvictDiffers(st, g);
  }

  lemma PeriodicSelects(st: Accum, g: seq<nat>)
    requires st.nCol > 0 && Core(st, g, st.nCol - 1)
    requires Selected(g, st.a, st.nCol, st.mxSample, st.nCol - 1)
    ensures Selected(g, PushPeriodic(st).a, st.nCol, st.mxSample, st.nCol - 1)
  {
    hide AllKept, AllDifferent, SamplesOk, MinOk, Covered, AllSized;
    if IsPeriodic(st.current.anLt[st.nCol - 1], st.nPSample) {
      var n, cur := st.nCol - 1, st.current.(isPSample := true, iCol := 0);
      InsertIgnoresCurrent(st, cur, cur, n);
      InsertedSelects(st, g, ZeroFirst(cur, n));
    }
  }

  lemma {:induction false} PushSelects(st: Accum, g: seq<nat>, maxRows: nat, iChng: nat, rowid: Rowid)
    requires Inv(st, g, maxRows) && iChng < st.nCol
    requires Selected(g, st.a, st.nCol, st.mxSample, st.nCol - 1)
    ensures Selected(g + [iChng], Push(st, iChng, rowid).a, st.nCol, st.mxSample, st.nCol - 1)
  {
    hide CurrentExact, SamplesOk, MinOk, Covered, BestOk, AllKept, AllDifferent, PushBests, PushPeriodic, UpdateBest,
        FillAll;
    var n, st2 := st.nCol - 1, NextRow(st, iChng, rowid);
    var lo := if n <= iChng then n else iChng;
    var st1 := PushBests(st, iChng, n);
    StepsKeep(st, g, iChng, n);
    StepsSelect(st, g, iChng, n);
    FillSelects(st1, g, lo, iChng);
    NextRowSelects(g, st2.a, st.nCol, st.mxSample, iChng);
    NextRowKeeps(st, g, iChng, rowid);
    PeriodicSelects(st2, g + [iChng]);
  }

  /** Whole scans. */

  lemma FirstPushSelects(st: Accum, maxRows: nat, rowid: Rowid)
    requires Fresh(st, maxRows)
    ensures Selected([0], Push(st, 0, rowid).a, st.nCol, st.mxSample, st.nCol - 1)
  {
    var st1 := NextRow(st, 0, rowid);
    FirstExact(st.current, st.nCol, rowid, NextPrn(st.iPrn));
    assert [] + [0] == [0];
    PeriodicSelects(st1, [0]);
  }

  lemma {:induction false} ScanSelects(nCol: nat, nRowArg: nat, g: seq<nat>, rowids: seq<Rowid>)
    requires nCol > 0 && ChangeList(g, nCol) && 0 < |g| == |rowids| <= nRowArg
    ensures Selected(g, PushAll(Init(nCol, nRowArg), g, rowids).a, nCol, STAT4_SAMPLES, nCol - 1)
    decreases |g|
  {
    hide Inv, AllKept, AllDifferent, Push;
    var n, st0 := |g| - 1, Init(nCol, nRowArg);
    assert g == g[..n] + [g[n]] && rowids == rowids[..n] + [rowids[n]];
    if n == 0 {
      InitFresh(nCol, nRowArg);
      FirstPushSelects(st0, nRowArg, rowids[0]);
      assert PushAll(st0, g[..n], rowids[..n]) == st0;
    } else {
      ScanKeeps(nCol, nRowArg, g[..n], rowids[..n]);
      ScanSelects(nCol, nRowArg, g[..n], rowids[..n]);
      PushSelects(PushAll(st0, g[..n], rowids[..n]), g[..n], nRowArg, g[n], rowids[n]);
    }
  }

  // The closing call makes every group done.
  lemma CloseSelects(nCol: nat, nRowArg: nat, g: seq<nat>, rowids: seq<Rowid>)
    requires nCol > 0 && ChangeList(g, nCol) && 0 < |g| == |rowids| <= nRowArg
    ensures Selected(g, Samples(PushAll(Init(nCol, nRowArg), g, rowids)), nCol, STAT4_SAMPLES, 0)
  {
    hide PushAll, ScanInv, Selected, Samples;
    ScanKeeps(nCol, nRowArg, g, rowids);
    ScanSelects(nCol, nRowArg, g, rowids);
    var st := PushAll(Init(nCol, nRowArg), g, rowids);
    ScanCloses(st, g, rowids, nRowArg);
    ClosedSelects(st, g);
  }

  lemma ScanCloses(st: Accum, g: seq<nat>, rowids: seq<Rowid>, maxRows: nat)
    requires ScanInv(st, g, rowids, maxRows)
    ensures st.nCol > 0 && Closing(st, g, st.nCol - 1)
  {
    hide Closing, RowidsOk;
  }

  lemma ClosedSelects(st: Accum, g: seq<nat>)
    requires st.nCol > 0 && Closing(st, g, st.nCol - 1) && Selected(g, st.a, st.nCol, st.mxSample, st.nCol - 1)
    ensures Selected(g, Samples(st), st.nCol, st.mxSample, 0)
  {
    hide CurrentExact, SamplesOk, MinOk, Covered, BestOk, Selected, PushBests, FillAll;
    StepsKeep(st, g, 0, st.nCol - 1);
    StepsSelect(st, g, 0, st.nCol - 1);
    FillSelects(PushBests(st, 0, st.nCol - 1), g, 0, 0);
  }

  /** The retained samples over the rows of the index. */

  // The number of rows that share the first c+1 columns with row m.
  ghost function PrefixSize(rows: seq<Row>, nCol: nat, m: nat, c: nat): nat
    requires WellFormed(rows, nCol) && m < |rows| && c < nCol
  {
    |EqRows(rows, nCol, m, c)|
  }

  // A sample of out has the first c+1 columns of row m, and was taken periodically or for that prefix or a shorter one.
  ghost predicate HasSample(rows: seq<Row>, nCol: nat, out: seq<Sample>, m: nat, c: nat)
    requires WellFormed(rows, nCol) && m < |rows| && c < nCol
  {
    exists u :: 0 <= u < |out| && Sized(out[u], nCol) && RowOf(out[u]) < |rows|
             && PrefixEq(rows[RowOf(out[u])], rows[m], c) && (out[u].isPSample || out[u].iCol <= c)
  }

  // Sample s was kept for a prefix with at least n rows.
  ghost predicate KeptForAtLeast(rows: seq<Row>, nCol: nat, s: Sample, n: nat)
    requires WellFormed(rows, nCol)
  {
    Sized(s, nCol) && RowOf(s) < |rows| && PrefixSize(rows, nCol, RowOf(s), s.iCol) >= n
  }

  lemma SameGroup(g: seq<nat>, rows: seq<Row>, nCol: nat, r: nat, m: nat, c: nat)
    requires WellFormed(rows, nCol) && Sorted(rows, nCol) && Describes(g, rows, nCol)
    requires r < |rows| && m < |rows| && c < nCol
    ensures PrefixEq(rows[r], rows[m], c) <==> Start(g, r, c) == Start(g, m, c)
  {
    CompareRows(g, rows, nCol, r, m, c);
    if r <= m { StartEnd(g, r, m, c); } else { StartEnd(g, m, r, c); }
  }

  /** Large prefixes are sampled: a prefix without a retained sample means that all 24 places are taken, and that
      every non-periodic one of them was kept for a prefix that occurs at least as often. */
  lemma {:induction false} LargePrefixesSampled(rows: seq<Row>, nCol: nat, g: seq<nat>, rowids: seq<Rowid>,
      nRowArg: nat, m: nat, c: nat)
    requires WellFormed(rows, nCol) && Sorted(rows, nCol) && Describes(g, rows, nCol)
    requires 0 < |rows| == |rowids| <= nRowArg && m < |rows| && c < nCol - 1
    ensures var out := Samples(PushAll(Init(nCol, nRowArg), g, rowids));
            HasSample(rows, nCol, out, m, c)
            || (|out| == 24 && forall j :: 0 <= j < |out| && !out[j].isPSample ==>
                  KeptForAtLeast(rows, nCol, out[j], PrefixSize(rows, nCol, m, c)))
  {
    hide PushAll, Sorted, Count, EqRows;
    var out := Samples(PushAll(Init(nCol, nRowArg), g, rowids));
    CloseSelects(nCol, nRowArg, g, rowids);
    SamplesAreExact(rows, nCol, g, rowids, nRowArg);
    ExactEqLt(g, rows, nCol, m, c);
    assert Done(g, m, c, 0) && Kept(g, out, nCol, STAT4_SAMPLES, m, c);
    if u :| 0 <= u < |out| && Represents(g, out[u], m, c) {
      SameGroup(g, rows, nCol, RowOf(out[u]), m, c);
    } else {
      forall j | 0 <= j < |out| && !out[j].isPSample
        ensures KeptForAtLeast(rows, nCol, out[j], PrefixSize(rows, nCol, m, c))
      {
        assert IsExactSample(rows, nCol, rowids, out[j]);
      }
    }
  }

  /** And these prefixes are all different. */
  lemma {:induction false} PrefixesDiffer(rows: seq<Row>, nCol: nat, g: seq<nat>, rowids: seq<Rowid>, nRowArg: nat,
      i: nat, j: nat)
    requires WellFormed(rows, nCol) && Sorted(rows, nCol) && Describes(g, rows, nCol)
    requires 0 < |rows| == |rowids| <= nRowArg
    requires i < j < |Samples(PushAll(Init(nCol, nRowArg), g, rowids))|
    ensures var out := Samples(PushAll(Init(nCol, nRowArg), g, rowids));
            && Sized(out[i], nCol) && Sized(out[j], nCol) && RowOf(out[i]) < |rows| && RowOf(out[j]) < |rows|
            && (!out[i].isPSample && !out[j].isPSample && out[i].iCol == out[j].iCol ==>
                  !PrefixEq(rows[RowOf(out[i])], rows[RowOf(out[j])], out[i].iCol))
  {
    hide PushAll, Sorted, AllKept;
    var out := Samples(PushAll(Init(nCol, nRowArg), g, rowids));
    CloseSelects(nCol, nRowArg, g, rowids);
    assert Different(g, out[i], out[j]);
    SameGroup(g, rows, nCol, RowOf(out[i]), RowOf(out[j]), out[i].iCol);
  }
}
