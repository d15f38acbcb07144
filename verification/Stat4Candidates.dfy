/** The candidates of a scan: for every column but the last, the best row of
    the group that is still open, as each row was when it was pushed.
 */
module Stat4Candidates {
  import opened IndexRows
  import opened Stat4
  import opened Stat4Invariant
  import opened AnalyzeScan

  // The pseudo-random number of row r.
  function HashOf(seed: nat, r: nat): nat {
    NextPrn(if r == 0 then seed else HashOf(seed, r - 1))
  }

  // Row r as a sample for column i at the time it was pushed: the sizes of its groups up to itself.
  function SeenAt(g: seq<nat>, nCol: nat, i: nat, seed: nat, r: nat): (s: Sample)
    requires r < |g|
    ensures |s.anEq| == nCol
  {
    ZeroSample(nCol).(iCol := i, iHash := HashOf(seed, r),
                      anEq := seq(nCol, c requires 0 <= c < nCol => r + 1 - Start(g, r, c)))
  }

  // No row of the open group of column i was better than s.
  ghost predicate BestSeen(g: seq<nat>, s: Sample, nCol: nat, i: nat, seed: nat)
    requires i < nCol - 1 && Sized(s, nCol) && |g| > 0
  {
    forall r :: 0 <= r < |g| && Open(g, r, i) ==> !BetterPost(SeenAt(g, nCol, i, seed, r), s, nCol, i + 1)
  }

  ghost predicate AllBestSeen(st: Accum, g: seq<nat>, seed: nat, lo: nat, hi: nat)
    requires Shape(st) && |g| > 0
  {
    forall i :: lo <= i < hi && i < st.nCol - 1 ==> BestSeen(g, st.aBest[i], st.nCol, i, seed)
  }

  ghost predicate Picked(st: Accum, g: seq<nat>, seed: nat)
  {
    && Shape(st) && |g| > 0
    && st.iPrn == HashOf(seed, |g| - 1)
    && AllBestSeen(st, g, seed, 0, st.nCol - 1)
  }

  // sampleIsBetterPost reads no more than the counters above the column, and the hash.
  lemma {:induction false} PostReads(x: Sample, x': Sample, y: Sample, nCol: nat, i: nat)
    requires Sized(x, nCol) && Sized(x', nCol) && Sized(y, nCol) && i <= nCol
    requires x.anEq == x'.anEq && x.iHash == x'.iHash
    ensures BetterPost(x, y, nCol, i) == BetterPost(x', y, nCol, i)
    ensures BetterPost(y, x, nCol, i) == BetterPost(y, x', nCol, i)
    decreases nCol - i
  {
    if i < nCol { PostReads(x, x', y, nCol, i + 1); }
  }

  // The current row is itself, as seen.
  lemma CurrentSeen(g: seq<nat>, cur: Sample, nCol: nat, i: nat, seed: nat)
    requires CurrentExact(g, cur, nCol) && i < nCol && cur.iHash == HashOf(seed, |g| - 1)
    ensures var s := SeenAt(g, nCol, i, seed, |g| - 1); s.anEq == cur.anEq && s.iHash == cur.iHash
  {
    var s := SeenAt(g, nCol, i, seed, |g| - 1);
    forall c | 0 <= c < nCol ensures s.anEq[c] == cur.anEq[c] {
      assert End(g, |g| - 1, c) == |g|;
    }
  }

  lemma SeenBefore(g: seq<nat>, d: nat, nCol: nat, i: nat, seed: nat, r: nat)
    requires r < |g|
    ensures SeenAt(g + [d], nCol, i, seed, r) == SeenAt(g, nCol, i, seed, r)
  {
    var s, t := SeenAt(g + [d], nCol, i, seed, r), SeenAt(g, nCol, i, seed, r);
    forall c | 0 <= c < nCol ensures s.anEq[c] == t.anEq[c] {
      PastFixed(g, d, r, c);
    }
    assert s.anEq == t.anEq;
  }

  // A row that is still in the open group was not better than the candidate before.
  lemma OlderRow(g: seq<nat>, d: nat, best: Sample, nCol: nat, i: nat, seed: nat, r: nat)
    requires i < nCol - 1 && Sized(best, nCol) && r < |g| && Open(g + [d], r, i)
    requires i < d ==> BestSeen(g, best, nCol, i, seed)
    ensures i < d && !BetterPost(SeenAt(g + [d], nCol, i, seed, r), best, nCol, i + 1)
  {
    hide BetterPost, SeenAt;
    OpenAfter(g, d, r, i);
    SeenBefore(g, d, nCol, i, seed, r);
  }

  // The current row is as good as itself as seen.
  lemma CurrentRow(g: seq<nat>, cur: Sample, best: Sample, nCol: nat, i: nat, seed: nat)
    requires i < nCol - 1 && Sized(best, nCol) && Sized(cur, nCol)
    requires CurrentExact(g, cur, nCol) && cur.iHash == HashOf(seed, |g| - 1)
    ensures var now := SeenAt(g, nCol, i, seed, |g| - 1);
            !BetterPost(now, cur, nCol, i + 1)
                && BetterPost(now, best, nCol, i + 1) == BetterPost(cur, best, nCol, i + 1)
  {
    assert |g| > 0;
    hide BetterPost, CurrentExact, HashOf;
    var now := SeenAt(g, nCol, i, seed, |g| - 1);
    CurrentSeen(g, cur, nCol, i, seed);
    PostReads(now, cur, best, nCol, i + 1);
    PostReads(now, cur, cur, nCol, i + 1);
    BetterPostOrder(cur, cur, cur, nCol, i + 1);
  }

  // One refreshed candidate.
  lemma RefreshPicks(g: seq<nat>, d: nat, cur: Sample, best: Sample, nCol: nat, i: nat, seed: nat)
    requires i < nCol - 1 && d < nCol && Sized(best, nCol) && Sized(cur, nCol)
    requires CurrentExact(g + [d], cur, nCol) && cur.iHash == HashOf(seed, |g|)
    requires i < d && |g| > 0 ==> BestSeen(g, best, nCol, i, seed)
    requires |g| == 0 ==> d == 0
    ensures var take := i >= d || BetterPost(cur, best, nCol, i + 1);
            BestSeen(g + [d], if take then cur else best, nCol, i, seed)
  {
    var g', t := g + [d], if i >= d || BetterPost(cur, best, nCol, i + 1) then cur else best;
    assert |g'| - 1 == |g|;
    CurrentRow(g', cur, best, nCol, i, seed);
    hide CurrentExact, BetterPost, SeenAt, HashOf, Open;
    forall r | 0 <= r < |g'| && Open(g', r, i) ensures !BetterPost(SeenAt(g', nCol, i, seed, r), t, nCol, i + 1) {
      if r < |g| {
        OlderRow(g, d, best, nCol, i, seed, r);
        BetterPostOrder(SeenAt(g', nCol, i, seed, r), cur, best, nCol, i + 1);
      } else {
        assert r == |g|;
      }
    }
  }

  lemma {:induction false} RefreshKeepsPicks(st: Accum, g: seq<nat>, d: nat, i: nat, seed: nat)
    requires Shape(st) && i < st.nCol && d < st.nCol && (|g| == 0 ==> d == 0)
    requires CurrentExact(g + [d], st.current, st.nCol) && st.current.iHash == HashOf(seed, |g|)
    requires AllBestSeen(st, g + [d], seed, 0, i)
    requires |g| > 0 ==> AllBestSeen(st, g, seed, i, d)
    ensures AllBestSeen(UpdateBest(st, d, i), g + [d], seed, 0, st.nCol - 1)
    decreases st.nCol - i
  {
    hide CurrentExact, BestSeen;
    if i < st.nCol - 1 {
      var cur := st.current.(iCol := i);
      RecolumnExact(g + [d], st.current, st.nCol, i);
      RefreshPicks(g, d, cur, st.aBest[i], st.nCol, i, seed);
      RefreshKeepsPicks(RefreshBest(st, d, i), g, d, i + 1, seed);
    }
  }

  // Closing columns iChng and up leaves the candidates of the others alone.
  lemma {:induction false} StepsKeepLower(st: Accum, iChng: nat, n: nat, i: nat)
    requires Shape(st) && n <= st.nCol && i < st.nCol && i < iChng
    ensures PushBests(st, iChng, n).aBest[i] == st.aBest[i]
    decreases n
  {
    if n > iChng { StepsKeepLower(PushBest(st, n - 1), iChng, n - 1, i); }
  }

  lemma NextRowKeepsPicks(st: Accum, g: seq<nat>, iChng: nat, rowid: Rowid, seed: nat)
    requires Shape(st) && Picked(st, g, seed) && st.nRow > 0
    ensures AllBestSeen(NextRow(st, iChng, rowid), g, seed, 0, iChng)
    ensures NextRow(st, iChng, rowid).current.iHash == NextRow(st, iChng, rowid).iPrn == HashOf(seed, |g|)
  {
    hide PushBests, BestSeen, FillAll, Advance;
    var r := NextRow(st, iChng, rowid);
    forall i | 0 <= i < iChng && i < st.nCol - 1 ensures BestSeen(g, r.aBest[i], st.nCol, i, seed) {
      StepsKeepLower(st, iChng, st.nCol - 1, i);
    }
  }

  lemma PushPicks(st: Accum, g: seq<nat>, maxRows: nat, iChng: nat, rowid: Rowid, seed: nat)
    requires Inv(st, g, maxRows) && iChng < st.nCol && Picked(st, g, seed)
    requires |g| < maxRows
    ensures Picked(Push(st, iChng, rowid), g + [iChng], seed)
  {
    hide NextRow, AllBestSeen, SamplesOk, Covered, BestOk, MinOk;
    var st1 := NextRow(st, iChng, rowid);
    NextRowKeepsPicks(st, g, iChng, rowid, seed);
    NextRowKeeps(st, g, iChng, rowid);
    PeriodicKeepsPicks(st1, g, g + [iChng], iChng, seed);
    RefreshKeepsPicks(PushPeriodic(st1), g, iChng, 0, seed);
  }

  lemma PeriodicKeepsPicks(st: Accum, g: seq<nat>, g': seq<nat>, d: nat, seed: nat)
    requires Shape(st) && |g| > 0 && AllBestSeen(st, g, seed, 0, d) && CurrentExact(g', st.current, st.nCol)
    ensures AllBestSeen(PushPeriodic(st), g, seed, 0, d) && CurrentExact(g', PushPeriodic(st).current, st.nCol)
    ensures PushPeriodic(st).current.iHash == st.current.iHash && |g'| > 0
    ensures AllBestSeen(PushPeriodic(st), g', seed, 0, 0)
  {
    RecolumnExact(g', st.current, st.nCol, 0);
  }

  lemma FirstPushPicks(st: Accum, maxRows: nat, rowid: Rowid)
    requires Fresh(st, maxRows)
    ensures Picked(Push(st, 0, rowid), [0], st.iPrn)
  {
    var st1 := NextRow(st, 0, rowid);
    FirstExact(st.current, st.nCol, rowid, NextPrn(st.iPrn));
    assert [] + [0] == [0];
    RecolumnExact([0], st1.current, st.nCol, 0);
    RefreshKeepsPicks(PushPeriodic(st1), [], 0, 0, st.iPrn);
  }

  lemma {:induction false} ScanPicks(nCol: nat, nRowArg: nat, g: seq<nat>, rowids: seq<Rowid>)
    requires nCol > 0 && ChangeList(g, nCol) && 0 < |g| == |rowids| <= nRowArg
    ensures Picked(PushAll(Init(nCol, nRowArg), g, rowids), g, Init(nCol, nRowArg).iPrn)
    decreases |g|
  {
    hide Inv, Picked, Push;
    var n, st0 := |g| - 1, Init(nCol, nRowArg);
    assert g == g[..n] + [g[n]] && rowids == rowids[..n] + [rowids[n]];
    if n == 0 {
      InitFresh(nCol, nRowArg);
      FirstPushPicks(st0, nRowArg, rowids[0]);
      assert PushAll(st0, g[..n], rowids[..n]) == st0;
    } else {
      ScanKeeps(nCol, nRowArg, g[..n], rowids[..n]);
      ScanPicks(nCol, nRowArg, g[..n], rowids[..n]);
      PushPicks(PushAll(st0, g[..n], rowids[..n]), g[..n], nRowArg, g[n], rowids[n], st0.iPrn);
    }
  }

  // Its last row shows the whole size of a group of column i+1.
  lemma LargestSubgroup(g: seq<nat>, x: Sample, nCol: nat, i: nat, seed: nat, m: nat)
    requires i < nCol - 1 && ChangeList(g, nCol) && Sized(x, nCol) && m < |g|
    requires BestOk(g, x, nCol, i) && BestSeen(g, x, nCol, i, seed) && Open(g, m, i)
    ensures RowOf(x) < |g| && Count(g, m, i + 1) <= Count(g, RowOf(x), i + 1)
  {
    var b, e := RowOf(x), End(g, m, i + 1) - 1;
    StartEnd(g, m, e, i + 1);
    assert !BetterPost(SeenAt(g, nCol, i, seed, e), x, nCol, i + 1);
    assert End(g, b, i + 1) == b + 1 && x.anEq[i + 1] == b + 1 - Start(g, b, i + 1);
  }

  // What a scan has made of the candidate of column i.
  lemma ScanCandidate(nCol: nat, nRowArg: nat, g: seq<nat>, rowids: seq<Rowid>, i: nat)
    requires i < nCol - 1 && ChangeList(g, nCol) && 0 < |g| == |rowids| <= nRowArg
    ensures var st := PushAll(Init(nCol, nRowArg), g, rowids);
            && |st.aBest| == nCol && Sized(st.aBest[i], nCol) && From(st.aBest[i], rowids)
            && BestOk(g, st.aBest[i], nCol, i) && BestSeen(g, st.aBest[i], nCol, i, Init(nCol, nRowArg).iPrn)
  {
    hide PushAll, BestOk, BestSeen, CurrentExact, SamplesOk, MinOk, Covered, From;
    ScanKeeps(nCol, nRowArg, g, rowids);
    ScanPicks(nCol, nRowArg, g, rowids);
  }

  // Sample x has the prefix of the last row in columns 0..i, and its prefix in column i+1 is as frequent as that of
  // row m.
  ghost predicate AsFrequent(rows: seq<Row>, nCol: nat, x: Sample, i: nat, m: nat)
    requires WellFormed(rows, nCol) && m < |rows| && i < nCol - 1
  {
    && Sized(x, nCol) && RowOf(x) < |rows|
    && PrefixEq(rows[RowOf(x)], rows[|rows| - 1], i)
    && |EqRows(rows, nCol, RowOf(x), i + 1)| >= |EqRows(rows, nCol, m, i + 1)|
  }

  lemma SubgroupRows(rows: seq<Row>, nCol: nat, g: seq<nat>, x: Sample, i: nat, seed: nat, m: nat)
    requires WellFormed(rows, nCol) && Sorted(rows, nCol) && Describes(g, rows, nCol) && i < nCol - 1
    requires m < |rows| && PrefixEq(rows[m], rows[|rows| - 1], i)
    requires Sized(x, nCol) && BestOk(g, x, nCol, i) && BestSeen(g, x, nCol, i, seed)
    ensures AsFrequent(rows, nCol, x, i, m)
  {
    hide Sorted, EqRows, Count, BestSeen, PrefixEq, PrefixLess, Start, End;
    CompareRows(g, rows, nCol, m, |rows| - 1, i);
    CompareRows(g, rows, nCol, RowOf(x), |rows| - 1, i);
    hide Describes;
    LargestSubgroup(g, x, nCol, i, seed, m);
    ExactEqLt(g, rows, nCol, m, i + 1);
    ExactEqLt(g, rows, nCol, RowOf(x), i + 1);
  }

  /** After every push the candidate of column i has the prefix of the current row in columns 0..i, and continues it by
      the value of column i+1 that is most frequent so far. */
  lemma {:induction false} CandidateIsMostFrequent(rows: seq<Row>, nCol: nat, g: seq<nat>, rowids: seq<Rowid>,
      nRowArg: nat, i: nat, m: nat)
    requires WellFormed(rows, nCol) && Sorted(rows, nCol) && Describes(g, rows, nCol)
    requires 0 < |rows| == |rowids| <= nRowArg && i < nCol - 1
    requires m < |rows| && PrefixEq(rows[m], rows[|rows| - 1], i)
    ensures var x := PushAll(Init(nCol, nRowArg), g, rowids).aBest[i];
            AsFrequent(rows, nCol, x, i, m) && x.rowid == rowids[RowOf(x)]
  {
    hide PushAll, Sorted, EqRows, BestOk, BestSeen;
    ScanCandidate(nCol, nRowArg, g, rowids, i);
    SubgroupRows(rows, nCol, g, PushAll(Init(nCol, nRowArg), g, rowids).aBest[i], i, Init(nCol, nRowArg).iPrn, m);
  }
}
