/** The rows of a sorted index and the exact statistics of ANALYZE.

    A row is the list of its column values, already mapped to integers that
    compare like the column's collation.  The last column makes rows distinct
    (it is the rowid, or the last primary-key column).  The statistics of a row
    are plain cardinalities over the whole index.  The lemmas show that all of
    them follow from one number per row: the leftmost column in which the row
    differs from its predecessor.
 */
module IndexRows {

  type Row = seq<int>

  ghost predicate WellFormed(rows: seq<Row>, nCol: nat)
  {
    nCol > 0 && forall m :: 0 <= m < |rows| ==> |rows[m]| == nCol
  }

  // The first c+1 columns of a are smaller than those of b.
  ghost predicate PrefixLess(a: Row, b: Row, c: nat)
    requires c < |a| && c < |b|
  {
    exists d :: 0 <= d <= c && a[..d] == b[..d] && a[d] < b[d]
  }

  ghost predicate PrefixEq(a: Row, b: Row, c: nat)
    requires c < |a| && c < |b|
  {
    a[..c + 1] == b[..c + 1]
  }

  // Each row is strictly greater than the one before it.
  ghost predicate Sorted(rows: seq<Row>, nCol: nat)
    requires WellFormed(rows, nCol)
  {
    forall m :: 0 < m < |rows| ==> PrefixLess(rows[m - 1], rows[m], nCol - 1)
  }

  // d is the leftmost column in which b differs from a.
  ghost predicate IsLeftmostChange(a: Row, b: Row, d: nat)
    requires |a| == |b|
  {
    d < |a| && a[..d] == b[..d] && a[d] != b[d]
  }

  // Exact statistics of row k in column c, over the whole index.
  ghost function EqRows(rows: seq<Row>, nCol: nat, k: nat, c: nat): set<nat>
    requires WellFormed(rows, nCol) && k < |rows| && c < nCol
  {
    set m: nat | m < |rows| && PrefixEq(rows[m], rows[k], c)
  }

  ghost function LtRows(rows: seq<Row>, nCol: nat, k: nat, c: nat): set<nat>
    requires WellFormed(rows, nCol) && k < |rows| && c < nCol
  {
    set m: nat | m < |rows| && PrefixLess(rows[m], rows[k], c)
  }

  ghost function LtPrefixes(rows: seq<Row>, nCol: nat, k: nat, c: nat): set<Row>
    requires WellFormed(rows, nCol) && k < |rows| && c < nCol
  {
    set m: nat | m < |rows| && PrefixLess(rows[m], rows[k], c) :: rows[m][..c + 1]
  }

  // The distinct (c+1)-column prefixes of the whole index.
  ghost function Prefixes(rows: seq<Row>, nCol: nat, c: nat): set<Row>
    requires WellFormed(rows, nCol) && c < nCol
  {
    set m: nat | m < |rows| :: rows[m][..c + 1]
  }

  /** Change lists: g[m] is the leftmost changed column of row m; g[0] is 0. */

  predicate ChangeList(g: seq<nat>, nCol: nat)
  {
    nCol > 0 && (forall m :: 0 <= m < |g| ==> g[m] < nCol) && (|g| > 0 ==> g[0] == 0)
  }

  ghost predicate Describes(g: seq<nat>, rows: seq<Row>, nCol: nat)
    requires WellFormed(rows, nCol)
  {
    |g| == |rows| && ChangeList(g, nCol) &&
    forall m :: 0 < m < |g| ==> IsLeftmostChange(rows[m - 1], rows[m], g[m])
  }

  // First row of the group of row k in column c.
  function Start(g: seq<nat>, k: nat, c: nat): (s: nat)
    requires k < |g|
    ensures s <= k
    decreases k
  {
    if k == 0 || g[k] <= c then k else Start(g, k - 1, c)
  }

  // One past the last row of the group of row k in column c.
  function End(g: seq<nat>, k: nat, c: nat): (e: nat)
    requires k < |g|
    ensures k < e <= |g|
    decreases |g| - k
  {
    if k + 1 == |g| || g[k + 1] <= c then k + 1 else End(g, k + 1, c)
  }

  // Number of groups of column c that begin at one of the rows 1..k.
  function Dist(g: seq<nat>, k: nat, c: nat): nat
    requires k < |g|
  {
    if k == 0 then 0 else Dist(g, k - 1, c) + (if g[k] <= c then 1 else 0)
  }

  function Count(g: seq<nat>, k: nat, c: nat): nat
    requires k < |g|
  {
    End(g, k, c) - Start(g, k, c)
  }

  lemma {:induction false} PrefixLessTransitive(a: Row, b: Row, e: Row, c: nat)
    requires c < |a| && c < |b| && c < |e|
    ensures PrefixLess(a, b, c) && PrefixLess(b, e, c) ==> PrefixLess(a, e, c)
    ensures PrefixEq(a, b, c) && PrefixLess(b, e, c) ==> PrefixLess(a, e, c)
    ensures PrefixLess(a, b, c) && PrefixEq(b, e, c) ==> PrefixLess(a, e, c)
  {
    if PrefixLess(a, b, c) && PrefixLess(b, e, c) {
      var d1 :| 0 <= d1 <= c && a[..d1] == b[..d1] && a[d1] < b[d1];
      var d2 :| 0 <= d2 <= c && b[..d2] == e[..d2] && b[d2] < e[d2];
      var d := if d1 < d2 then d1 else d2;
      assert a[..d] == a[..d1][..d] == b[..d1][..d] == b[..d] == b[..d2][..d] == e[..d2][..d] == e[..d];
      assert d1 < d2 ==> e[d1] == e[..d2][d1] == b[..d2][d1] == b[d1];
      assert d2 < d1 ==> a[d2] == a[..d1][d2] == b[..d1][d2] == b[d2];
    }
    if PrefixEq(a, b, c) && PrefixLess(b, e, c) {
      var d :| 0 <= d <= c && b[..d] == e[..d] && b[d] < e[d];
      assert a[..d] == a[..c + 1][..d] == b[..c + 1][..d] == b[..d];
      assert a[d] == a[..c + 1][d] == b[..c + 1][d] == b[d];
    }
    if PrefixLess(a, b, c) && PrefixEq(b, e, c) {
      var d :| 0 <= d <= c && a[..d] == b[..d] && a[d] < b[d];
      assert e[..d] == e[..c + 1][..d] == b[..c + 1][..d] == b[..d];
      assert e[d] == e[..c + 1][d] == b[..c + 1][d] == b[d];
    }
  }

  lemma PrefixLessIrreflexive(a: Row, b: Row, c: nat)
    requires c < |a| && c < |b| && PrefixLess(a, b, c)
    ensures !PrefixEq(a, b, c) && !PrefixLess(b, a, c)
  {
    var d :| 0 <= d <= c && a[..d] == b[..d] && a[d] < b[d];
    assert a[..c + 1][d] == a[d] && b[..c + 1][d] == b[d];
    if PrefixLess(b, a, c) {
      var d2 :| 0 <= d2 <= c && b[..d2] == a[..d2] && b[d2] < a[d2];
      if d < d2 { PrefixAgrees(a, b, d2, d); }
      if d2 < d { PrefixAgrees(a, b, d, d2); }
    }
  }

  lemma PrefixAgrees(a: Row, b: Row, n: nat, i: nat)
    requires i < n <= |a| && n <= |b| && a[..n] == b[..n]
    ensures a[i] == b[i]
  {
    assert a[i] == a[..n][i];
  }

  // One step of a sorted scan: column c either keeps its prefix or grows.
  lemma AdjacentRows(a: Row, b: Row, d: nat, c: nat)
    requires |a| == |b| && c < |a|
    requires IsLeftmostChange(a, b, d) && PrefixLess(a, b, |a| - 1)
    ensures if d <= c then PrefixLess(a, b, c) else PrefixEq(a, b, c)
  {
    var e :| 0 <= e <= |a| - 1 && a[..e] == b[..e] && a[e] < b[e];
    if e < d { PrefixAgrees(a, b, d, e); }
    if d < e { PrefixAgrees(a, b, e, d); }
    assert c < d ==> a[..c + 1] == a[..d][..c + 1] == b[..d][..c + 1] == b[..c + 1];
  }

  // An earlier row is in the group of row k exactly when it is not before Start; otherwise it is smaller.
  lemma {:induction false} EarlierRow(g: seq<nat>, rows: seq<Row>, nCol: nat, m: nat, k: nat, c: nat)
    requires WellFormed(rows, nCol) && Sorted(rows, nCol) && Describes(g, rows, nCol)
    requires m <= k < |rows| && c < nCol
    ensures if m < Start(g, k, c) then PrefixLess(rows[m], rows[k], c) else PrefixEq(rows[m], rows[k], c)
    decreases k
  {
    if m < k {
      AdjacentRows(rows[k - 1], rows[k], g[k], c);
      hide PrefixLess, PrefixEq, IsLeftmostChange;
      EarlierRow(g, rows, nCol, m, k - 1, c);
      PrefixLessTransitive(rows[m], rows[k - 1], rows[k], c);
      if g[k] > c { PrefixEqTransitive(rows[m], rows[k - 1], rows[k], c); }
    } else {
      assert PrefixEq(rows[m], rows[k], c);
    }
  }

  lemma PrefixEqTransitive(a: Row, b: Row, e: Row, c: nat)
    requires c < |a| && c < |b| && c < |e|
    ensures PrefixEq(a, b, c) && PrefixEq(b, e, c) ==> PrefixEq(a, e, c)
  {
  }

  lemma {:induction false} StartEnd(g: seq<nat>, k: nat, m: nat, c: nat)
    requires k <= m < |g|
    ensures m < End(g, k, c) <==> Start(g, m, c) <= k
    ensures Start(g, m, c) <= k ==> Start(g, m, c) == Start(g, k, c)
    ensures m < End(g, k, c) ==> End(g, m, c) == End(g, k, c)
    decreases m
  {
    if k < m {
      StartEnd(g, k, m - 1, c);
    }
  }

  lemma StartMonotone(g: seq<nat>, k: nat, c: nat, c': nat)
    requires k < |g| && c <= c'
    ensures Start(g, k, c) <= Start(g, k, c') && End(g, k, c') <= End(g, k, c)
    ensures Dist(g, k, c) <= Dist(g, k, c')
  {
    EndMonotone(g, k, c, c');
  }

  lemma {:induction false} EndMonotone(g: seq<nat>, k: nat, c: nat, c': nat)
    requires k < |g| && c <= c'
    ensures End(g, k, c') <= End(g, k, c)
    decreases |g| - k
  {
    if k + 1 < |g| { EndMonotone(g, k + 1, c, c'); }
  }

  lemma {:induction false} IntervalSize(lo: nat, hi: nat, s: set<nat>)
    requires lo <= hi && forall m: nat :: m in s <==> lo <= m < hi
    ensures |s| == hi - lo
    decreases hi
  {
    if lo == hi {
      assert s == {};
    } else {
      IntervalSize(lo, hi - 1, s - {hi - 1});
    }
  }

  /** The change list gives the exact number of rows equal to, and less than, row k in column c. */
  lemma {:induction false} ExactEqLt(g: seq<nat>, rows: seq<Row>, nCol: nat, k: nat, c: nat)
    requires WellFormed(rows, nCol) && Sorted(rows, nCol) && Describes(g, rows, nCol)
    requires k < |rows| && c < nCol
    ensures |EqRows(rows, nCol, k, c)| == Count(g, k, c)
    ensures |LtRows(rows, nCol, k, c)| == Start(g, k, c)
  {
    forall m: nat | m < |rows|
      ensures PrefixEq(rows[m], rows[k], c) <==> Start(g, k, c) <= m < End(g, k, c)
      ensures PrefixLess(rows[m], rows[k], c) <==> m < Start(g, k, c)
    {
      CompareRows(g, rows, nCol, m, k, c);
    }
    IntervalSize(Start(g, k, c), End(g, k, c), EqRows(rows, nCol, k, c));
    IntervalSize(0, Start(g, k, c), LtRows(rows, nCol, k, c));
  }

  lemma CompareRows(g: seq<nat>, rows: seq<Row>, nCol: nat, m: nat, k: nat, c: nat)
    requires WellFormed(rows, nCol) && Sorted(rows, nCol) && Describes(g, rows, nCol)
    requires m < |rows| && k < |rows| && c < nCol
    ensures PrefixEq(rows[m], rows[k], c) <==> Start(g, k, c) <= m < End(g, k, c)
    ensures PrefixLess(rows[m], rows[k], c) <==> m < Start(g, k, c)
  {
    if m <= k {
      EarlierRow(g, rows, nCol, m, k, c);
      if m < Start(g, k, c) { PrefixLessIrreflexive(rows[m], rows[k], c); }
    } else {
      EarlierRow(g, rows, nCol, k, m, c);
      StartEnd(g, k, m, c);
      if k < Start(g, m, c) { PrefixLessIrreflexive(rows[k], rows[m], c); }
    }
    if PrefixLess(rows[m], rows[k], c) { PrefixLessIrreflexive(rows[m], rows[k], c); }
  }

  // The prefixes of the first n rows.
  ghost function FirstPrefixes(rows: seq<Row>, nCol: nat, n: nat, c: nat): set<Row>
    requires WellFormed(rows, nCol) && n <= |rows| && c < nCol
  {
    set m: nat | m < n :: rows[m][..c + 1]
  }

  // The distinct smaller prefixes of row k are those of the rows before its group.
  lemma SmallerPrefixes(g: seq<nat>, rows: seq<Row>, nCol: nat, k: nat, c: nat)
    requires WellFormed(rows, nCol) && Sorted(rows, nCol) && Describes(g, rows, nCol)
    requires k < |rows| && c < nCol
    ensures LtPrefixes(rows, nCol, k, c) == FirstPrefixes(rows, nCol, Start(g, k, c), c)
  {
    forall m: nat | m < |rows|
      ensures PrefixLess(rows[m], rows[k], c) <==> m < Start(g, k, c)
    {
      CompareRows(g, rows, nCol, m, k, c);
    }
  }

  // The group of row k adds exactly one prefix to those before it.
  lemma GroupPrefix(g: seq<nat>, rows: seq<Row>, nCol: nat, k: nat, c: nat)
    requires WellFormed(rows, nCol) && Sorted(rows, nCol) && Describes(g, rows, nCol)
    requires k < |rows| && c < nCol
    ensures var before := FirstPrefixes(rows, nCol, Start(g, k, c), c); var p := rows[k][..c + 1];
            p !in before && FirstPrefixes(rows, nCol, k + 1, c) == before + {p}
  {
    var s, p := Start(g, k, c), rows[k][..c + 1];
    forall m: nat | m <= k
      ensures rows[m][..c + 1] == p <==> s <= m
    {
      CompareRows(g, rows, nCol, m, k, c);
    }
    var before, after := FirstPrefixes(rows, nCol, s, c), FirstPrefixes(rows, nCol, k + 1, c);
    forall x ensures x in after <==> x in before + {p} {
      if x in after {
        var m: nat :| m < k + 1 && x == rows[m][..c + 1];
        assert m < s ==> x in before;
      }
      if x in before {
        var m: nat :| m < s && x == rows[m][..c + 1];
        assert m < k + 1;
      }
    }
  }

  lemma {:induction false} PrefixCount(g: seq<nat>, rows: seq<Row>, nCol: nat, k: nat, c: nat)
    requires WellFormed(rows, nCol) && Sorted(rows, nCol) && Describes(g, rows, nCol)
    requires k < |rows| && c < nCol
    ensures |FirstPrefixes(rows, nCol, Start(g, k, c), c)| == Dist(g, k, c)
    ensures |FirstPrefixes(rows, nCol, k + 1, c)| == Dist(g, k, c) + 1
    decreases k
  {
    var before := FirstPrefixes(rows, nCol, Start(g, k, c), c);
    if k == 0 {
      assert before == {};
    } else {
      PrefixCount(g, rows, nCol, k - 1, c);
    }
    assert |before| == Dist(g, k, c);
    GroupPrefix(g, rows, nCol, k, c);
    OneMore(before, rows[k][..c + 1]);
  }

  lemma OneMore(s: set<Row>, x: Row)
    requires x !in s
    ensures |s + {x}| == |s| + 1
  {
  }

  /** The change list gives the exact number of distinct smaller prefixes. */
  lemma {:induction false} ExactDLt(g: seq<nat>, rows: seq<Row>, nCol: nat, k: nat, c: nat)
    requires WellFormed(rows, nCol) && Sorted(rows, nCol) && Describes(g, rows, nCol)
    requires k < |rows| && c < nCol
    ensures |LtPrefixes(rows, nCol, k, c)| == Dist(g, k, c)
  {
    SmallerPrefixes(g, rows, nCol, k, c);
    PrefixCount(g, rows, nCol, k, c);
  }

  /** The number of distinct prefixes of the whole index. */
  lemma {:induction false} ExactDistinct(g: seq<nat>, rows: seq<Row>, nCol: nat, c: nat)
    requires WellFormed(rows, nCol) && Sorted(rows, nCol) && Describes(g, rows, nCol)
    requires |rows| > 0 && c < nCol
    ensures |Prefixes(rows, nCol, c)| == Dist(g, |rows| - 1, c) + 1
  {
    PrefixCount(g, rows, nCol, |rows| - 1, c);
    assert Prefixes(rows, nCol, c) == FirstPrefixes(rows, nCol, |rows|, c);
  }
}
