/** The ANALYZE accumulator as a value: one function per C function, and the
    comparison order on samples.

    A stored anEq entry of 0 means that the group of that column is still
    open, so its size is not known yet.
 */
module Stat4 {

  const U32 := 0x1_0000_0000

  datatype Rowid = IntRowid(i: int) | KeyRowid(key: seq<int>)

  datatype Sample = Sample(
    anEq: seq<nat>, anLt: seq<nat>, anDLt: seq<nat>,
    rowid: Rowid, isPSample: bool, iCol: nat, iHash: nat)

  datatype Accum = Accum(
    nRow: nat, nPSample: nat, nCol: nat, mxSample: nat,
    current: Sample, iPrn: nat, aBest: seq<Sample>, iMin: nat, a: seq<Sample>)

  predicate Sized(s: Sample, nCol: nat) {
    |s.anEq| == nCol && |s.anLt| == nCol && |s.anDLt| == nCol && s.iCol < nCol
  }

  predicate AllSized(a: seq<Sample>, nCol: nat) {
    forall j :: 0 <= j < |a| ==> Sized(a[j], nCol)
  }

  predicate Shape(st: Accum) {
    && st.nCol > 0 && st.mxSample > 0 && st.nPSample > 0 && st.iMin < st.mxSample
    && Sized(st.current, st.nCol)
    && |st.aBest| == st.nCol && AllSized(st.aBest, st.nCol)
    && |st.a| <= st.mxSample && AllSized(st.a, st.nCol)
  }

  predicate SameConfig(x: Accum, y: Accum) {
    x.nPSample == y.nPSample && x.nCol == y.nCol && x.mxSample == y.mxSample
  }

  // sampleIsBetterPost: columns i.. decide, then the hash.
  predicate BetterPost(x: Sample, y: Sample, nCol: nat, i: nat)
    requires Sized(x, nCol) && Sized(y, nCol) && i <= nCol
    decreases nCol - i
  {
    if i == nCol then x.iHash > y.iHash
    else if x.anEq[i] != y.anEq[i] then x.anEq[i] > y.anEq[i]
    else BetterPost(x, y, nCol, i + 1)
  }

  // sampleIsBetter.
  predicate Better(x: Sample, y: Sample, nCol: nat)
    requires Sized(x, nCol) && Sized(y, nCol)
  {
    var nEqNew, nEqOld := x.anEq[x.iCol], y.anEq[y.iCol];
    if nEqNew != nEqOld then nEqNew > nEqOld
    else x.iCol < y.iCol || (x.iCol == y.iCol && BetterPost(x, y, nCol, x.iCol + 1))
  }

  datatype Scan = Blocked | Found(j: int)

  // The upgrade scan of sampleInsert over samples n-1..0; up is the best one so far, or -1.
  function ScanUpgrade(a: seq<Sample>, nCol: nat, col: nat, n: nat, up: int): (r: Scan)
    requires AllSized(a, nCol) && col < nCol && n <= |a| && -1 <= up < |a|
    ensures r.Found? ==> -1 <= r.j < |a|
  {
    if n == 0 then Found(up)
    else if a[n - 1].anEq[col] != 0 then ScanUpgrade(a, nCol, col, n - 1, up)
    else if a[n - 1].isPSample then Blocked
    else
      var take := up < 0 || Better(a[n - 1], a[up], nCol);
      ScanUpgrade(a, nCol, col, n - 1, if take then n - 1 else up)
  }

  // The find_new_min scan of sampleInsert over samples i..; iMin is the least one so far, or -1.
  function ScanMin(a: seq<Sample>, nCol: nat, i: nat, iMin: int): (m: int)
    requires AllSized(a, nCol) && i <= |a| && -1 <= iMin < |a|
    ensures -1 <= m < |a|
    decreases |a| - i
  {
    if i == |a| then iMin
    else if a[i].isPSample then ScanMin(a, nCol, i + 1, iMin)
    else
      var take := iMin < 0 || Better(a[iMin], a[i], nCol);
      ScanMin(a, nCol, i + 1, if take then i else iMin)
  }

  // Keeps the old index if every sample is periodic, which the C code asserts cannot be.
  function FindNewMin(st: Accum): (r: Accum)
    requires Shape(st)
    ensures Shape(r) && r == st.(iMin := r.iMin)
  {
    var m := if |st.a| >= st.mxSample then ScanMin(st.a, st.nCol, 0, -1) else -1;
    if m >= 0 then st.(iMin := m) else st
  }

  function Upgrade(s: Sample, col: nat, nEq: nat): Sample
    requires col < |s.anEq|
  {
    s.(iCol := col, anEq := s.anEq[col := nEq])
  }

  function ZeroFirst(s: Sample, n: nat): Sample
    requires n <= |s.anEq|
  {
    s.(anEq := seq(n, _ => 0) + s.anEq[n..])
  }

  function Evict(st: Accum): (a: seq<Sample>)
    requires Shape(st)
    ensures |a| < st.mxSample && AllSized(a, st.nCol)
  {
    if |st.a| >= st.mxSample then st.a[..st.iMin] + st.a[st.iMin + 1..] else st.a
  }

  // sampleInsert.
  function Insert(st: Accum, pNew: Sample, nEqZero: nat): (r: Accum)
    requires Shape(st) && Sized(pNew, st.nCol) && nEqZero < st.nCol
    ensures Shape(r) && r == st.(iMin := r.iMin, a := r.a)
  {
    var scan := if pNew.isPSample then Found(-1) else ScanUpgrade(st.a, st.nCol, pNew.iCol, |st.a|, -1);
    if scan.Blocked? then st
    else if scan.j >= 0 then
      FindNewMin(st.(a := st.a[scan.j := Upgrade(st.a[scan.j], pNew.iCol, pNew.anEq[pNew.iCol])]))
    else
      FindNewMin(st.(a := Evict(st) + [ZeroFirst(pNew, nEqZero)]))
  }

  // aBest[i] with its own column closed.
  function Candidate(st: Accum, i: nat): (s: Sample)
    requires Shape(st) && i < st.nCol
    ensures Sized(s, st.nCol)
  {
    st.aBest[i].(anEq := st.aBest[i].anEq[i := st.current.anEq[i]])
  }

  // One iteration of the first loop of samplePushPrevious.
  function PushBest(st: Accum, i: nat): (r: Accum)
    requires Shape(st) && i < st.nCol
    ensures Shape(r) && r == st.(iMin := r.iMin, a := r.a, aBest := st.aBest[i := Candidate(st, i)])
  {
    var pBest := Candidate(st, i);
    var st1 := st.(aBest := st.aBest[i := pBest]);
    if |st.a| < st.mxSample || Better(pBest, st.a[st.iMin], st.nCol) then Insert(st1, pBest, i) else st1
  }

  // Iterations n-1 down to iChng.
  function PushBests(st: Accum, iChng: nat, n: nat): (r: Accum)
    requires Shape(st) && n <= st.nCol
    ensures Shape(r) && r == st.(iMin := r.iMin, a := r.a, aBest := r.aBest)
    decreases n
  {
    if n <= iChng then st else PushBests(PushBest(st, n - 1), iChng, n - 1)
  }

  // The second loop of samplePushPrevious, for one sample.
  function Fill(s: Sample, iChng: nat, cur: seq<nat>): (r: Sample)
    requires |s.anEq| == |cur|
    ensures r == s.(anEq := r.anEq) && |r.anEq| == |s.anEq|
  {
    s.(anEq := seq(|cur|, j requires 0 <= j < |cur| => if j >= iChng && s.anEq[j] == 0 then cur[j] else s.anEq[j]))
  }

  function FillAll(a: seq<Sample>, iChng: nat, cur: seq<nat>): (r: seq<Sample>)
    requires AllSized(a, |cur|)
    ensures |r| == |a| && AllSized(r, |cur|)
  {
    seq(|a|, j requires 0 <= j < |a| => Fill(a[j], iChng, cur))
  }

  // samplePushPrevious.
  function PushPrevious(st: Accum, iChng: nat): (r: Accum)
    requires Shape(st)
    ensures Shape(r) && r == st.(iMin := r.iMin, a := r.a, aBest := r.aBest)
  {
    var st1 := PushBests(st, iChng, st.nCol - 1);
    st1.(a := FillAll(st1.a, iChng, st1.current.anEq))
  }

  // The counters of the current row, moved on to the next row.
  function Advance(cur: Sample, iChng: nat): Sample
    requires Sized(cur, |cur.anEq|)
  {
    var n := |cur.anEq|;
    cur.(
      anEq := seq(n, j requires 0 <= j < n => if j < iChng then cur.anEq[j] + 1 else 1),
      anLt := seq(n, j requires 0 <= j < n => if j < iChng then cur.anLt[j] else cur.anLt[j] + cur.anEq[j]),
      anDLt := seq(n, j requires 0 <= j < n => if j < iChng then cur.anDLt[j] else cur.anDLt[j] + 1))
  }

  function NextPrn(iPrn: nat): nat {
    (iPrn * 1103515245 + 12345) % U32
  }

  // The multiplier times this is 1 modulo 2^32.
  const PRN_INVERSE := 4005161829

  /** The next pseudo-random hash is a 32-bit number, and different hashes have different successors. */
  lemma {:induction false} PrnDistinct(x: nat, y: nat)
    requires x < U32 && y < U32 && NextPrn(x) == NextPrn(y)
    ensures x == y && NextPrn(x) < U32
    ensures NextPrn(0) == 12345 && NextPrn(1) == 1103527590 && NextPrn(U32 - 1) == 3191464396
  {
    var u, v := x * 1103515245 + 12345, y * 1103515245 + 12345;
    assert (x - y) * 1103515245 == (u / U32 - v / U32) * U32;
    var k := PRN_INVERSE * (u / U32 - v / U32);
    assert (x - y) * (1103515245 * PRN_INVERSE) == k * U32;
    assert 1103515245 * PRN_INVERSE == 1 + 1029054899 * U32;
    assert x - y == (k - 1029054899 * (x - y)) * U32;
  }

  // True if the current row is to become a periodic sample.
  predicate IsPeriodic(nLt: nat, nPSample: nat)
    requires nPSample > 0
  {
    nLt / nPSample != (nLt + 1) / nPSample
  }

  function PushPeriodic(st: Accum): (r: Accum)
    requires Shape(st)
    ensures Shape(r) && r == st.(iMin := r.iMin, a := r.a, current := r.current)
  {
    if IsPeriodic(st.current.anLt[st.nCol - 1], st.nPSample) then
      var cur := st.current.(isPSample := true, iCol := 0);
      var st1 := Insert(st.(current := cur), cur, st.nCol - 1);
      st1.(current := cur.(isPSample := false))
    else st
  }

  // One round of the loop of statPush that refreshes aBest.
  function RefreshBest(st: Accum, iChng: nat, i: nat): (r: Accum)
    requires Shape(st) && i < st.nCol - 1
    ensures Shape(r) && r == st.(current := r.current, aBest := r.aBest)
  {
    var cur := st.current.(iCol := i);
    var take := i >= iChng || BetterPost(cur, st.aBest[i], st.nCol, i + 1);
    st.(current := cur, aBest := if take then st.aBest[i := cur] else st.aBest)
  }

  // That loop, for aBest[i..].
  function UpdateBest(st: Accum, iChng: nat, i: nat): (r: Accum)
    requires Shape(st) && i < st.nCol
    ensures Shape(r) && r == st.(current := r.current, aBest := r.aBest)
    decreases st.nCol - i
  {
    if i == st.nCol - 1 then st else UpdateBest(RefreshBest(st, iChng, i), iChng, i + 1)
  }

  // The part of statPush before sampling: close the previous row, move the counters on.
  function NextRow(st: Accum, iChng: nat, rowid: Rowid): (r: Accum)
    requires Shape(st)
    ensures Shape(r) && SameConfig(st, r) && r.nRow == st.nRow + 1
  {
    var st1 :=
      if st.nRow == 0 then st.(current := st.current.(anEq := seq(st.nCol, _ => 1)))
      else var q := PushPrevious(st, iChng); q.(current := Advance(q.current, iChng));
    var h := NextPrn(st1.iPrn);
    st1.(nRow := st1.nRow + 1, iPrn := h, current := st1.current.(rowid := rowid, iHash := h))
  }

  // statPush.
  function Push(st: Accum, iChng: nat, rowid: Rowid): (r: Accum)
    requires Shape(st)
    ensures Shape(r) && SameConfig(st, r) && r.nRow == st.nRow + 1
  {
    UpdateBest(PushPeriodic(NextRow(st, iChng, rowid)), iChng, 0)
  }

  /** sampleIsBetter is a strict weak order, and it looks only at columns iCol and above. */

  lemma {:induction false} BetterPostOrder(x: Sample, y: Sample, z: Sample, nCol: nat, i: nat)
    requires Sized(x, nCol) && Sized(y, nCol) && Sized(z, nCol) && i <= nCol
    ensures !BetterPost(x, x, nCol, i)
    ensures BetterPost(x, z, nCol, i) ==> BetterPost(x, y, nCol, i) || BetterPost(y, z, nCol, i)
    ensures BetterPost(x, y, nCol, i) && BetterPost(y, z, nCol, i) ==> BetterPost(x, z, nCol, i)
    decreases nCol - i
  {
    if i < nCol { BetterPostOrder(x, y, z, nCol, i + 1); }
  }

  lemma {:induction false} BetterOrder(x: Sample, y: Sample, z: Sample, nCol: nat)
    requires Sized(x, nCol) && Sized(y, nCol) && Sized(z, nCol)
    ensures !Better(x, x, nCol)
    ensures Better(x, z, nCol) ==> Better(x, y, nCol) || Better(y, z, nCol)
    ensures Better(x, y, nCol) && Better(y, z, nCol) ==> Better(x, z, nCol)
  {
    BetterPostOrder(x, y, z, nCol, x.iCol + 1);
  }

  // The first column c in which they differ decides, and the hash only if there is none.
  lemma {:induction false} BetterPostMeans(x: Sample, y: Sample, nCol: nat, i: nat, c: nat)
    requires Sized(x, nCol) && Sized(y, nCol) && i <= c <= nCol
    requires x.anEq[i..c] == y.anEq[i..c] && (c < nCol ==> x.anEq[c] != y.anEq[c])
    ensures BetterPost(x, y, nCol, i) <==> if c == nCol then x.iHash > y.iHash else x.anEq[c] > y.anEq[c]
    decreases c - i
  {
    if i < c {
      assert x.anEq[i] == x.anEq[i..c][0] == y.anEq[i];
      assert x.anEq[i + 1..c] == x.anEq[i..c][1..] == y.anEq[i + 1..c];
      BetterPostMeans(x, y, nCol, i + 1, c);
    }
  }

  // Two samples that agree from their iCol on.
  predicate SameKey(x: Sample, y: Sample, nCol: nat)
    requires Sized(x, nCol) && Sized(y, nCol)
  {
    x.iCol == y.iCol && x.iHash == y.iHash && x.anEq[x.iCol..] == y.anEq[y.iCol..]
  }

  lemma {:induction false} BetterPostSameKey(x: Sample, x': Sample, y: Sample, y': Sample, nCol: nat, i: nat)
    requires Sized(x, nCol) && Sized(y, nCol) && Sized(x', nCol) && Sized(y', nCol) && i <= nCol
    requires SameKey(x, x', nCol) && SameKey(y, y', nCol) && x.iCol == y.iCol <= i
    ensures BetterPost(x, y, nCol, i) == BetterPost(x', y', nCol, i)
    decreases nCol - i
  {
    if i < nCol {
      assert x.anEq[i] == x.anEq[x.iCol..][i - x.iCol] == x'.anEq[i];
      assert y.anEq[i] == y.anEq[y.iCol..][i - y.iCol] == y'.anEq[i];
      BetterPostSameKey(x, x', y, y', nCol, i + 1);
    }
  }

  lemma BetterSameKey(x: Sample, x': Sample, y: Sample, y': Sample, nCol: nat)
    requires Sized(x, nCol) && Sized(y, nCol) && Sized(x', nCol) && Sized(y', nCol)
    requires SameKey(x, x', nCol) && SameKey(y, y', nCol)
    ensures Better(x, y, nCol) == Better(x', y', nCol)
  {
    assert x.anEq[x.iCol] == x.anEq[x.iCol..][0] == x'.anEq[x.iCol];
    assert y.anEq[y.iCol] == y.anEq[y.iCol..][0] == y'.anEq[y.iCol];
    if x.iCol == y.iCol { BetterPostSameKey(x, x', y, y', nCol, x.iCol + 1); }
  }

  /** What the two scans of sampleInsert find. */

  // Sample j shares the still-open group of column col.
  predicate OpenAt(s: Sample, col: nat) {
    col < |s.anEq| && s.anEq[col] == 0
  }

  ghost predicate BestOf(a: seq<Sample>, nCol: nat, col: nat, from: nat, u: int)
    requires AllSized(a, nCol)
  {
    && -1 <= u < |a|
    && (forall j :: from <= j < |a| && OpenAt(a[j], col) ==> u >= 0 && !a[j].isPSample && !Better(a[j], a[u], nCol))
    && (u >= 0 ==> u >= from && OpenAt(a[u], col) && !a[u].isPSample)
  }

  lemma {:induction false} ScanUpgradeFinds(a: seq<Sample>, nCol: nat, col: nat, n: nat, up: int)
    requires AllSized(a, nCol) && col < nCol && n <= |a|
    requires BestOf(a, nCol, col, n, up)
    ensures var r := ScanUpgrade(a, nCol, col, n, up);
            if r.Found? then BestOf(a, nCol, col, 0, r.j)
            else exists j :: 0 <= j < |a| && OpenAt(a[j], col) && a[j].isPSample
  {
    if n > 0 {
      if a[n - 1].anEq[col] != 0 {
        ScanUpgradeFinds(a, nCol, col, n - 1, up);
      } else if a[n - 1].isPSample {
        assert OpenAt(a[n - 1], col);
      } else {
        var up' := if up < 0 || Better(a[n - 1], a[up], nCol) then n - 1 else up;
        BetterOrder(a[n - 1], a[n - 1], a[n - 1], nCol);
        if up >= 0 && up' == n - 1 {
          forall j | n <= j < |a| && OpenAt(a[j], col)
            ensures !Better(a[j], a[n - 1], nCol)
          {
            BetterOrder(a[j], a[n - 1], a[up], nCol);
          }
        }
        ScanUpgradeFinds(a, nCol, col, n - 1, up');
      }
    }
  }

  ghost predicate LeastOf(a: seq<Sample>, nCol: nat, to: nat, m: int)
    requires AllSized(a, nCol)
  {
    && -1 <= m < |a|
    && (forall j :: 0 <= j < to <= |a| && !a[j].isPSample ==> m >= 0 && !Better(a[m], a[j], nCol))
    && (m >= 0 ==> m < to && !a[m].isPSample)
  }

  lemma {:induction false} ScanMinFinds(a: seq<Sample>, nCol: nat, i: nat, iMin: int)
    requires AllSized(a, nCol) && i <= |a|
    requires LeastOf(a, nCol, i, iMin)
    ensures LeastOf(a, nCol, |a|, ScanMin(a, nCol, i, iMin))
    decreases |a| - i
  {
    if i < |a| {
      if a[i].isPSample {
        ScanMinFinds(a, nCol, i + 1, iMin);
      } else {
        var m := if iMin < 0 || Better(a[iMin], a[i], nCol) then i else iMin;
        BetterOrder(a[i], a[i], a[i], nCol);
        if iMin >= 0 && m == i {
          forall j | 0 <= j < i && !a[j].isPSample
            ensures !Better(a[i], a[j], nCol)
          {
            BetterOrder(a[iMin], a[i], a[j], nCol);
          }
        }
        ScanMinFinds(a, nCol, i + 1, m);
      }
    }
  }
}
