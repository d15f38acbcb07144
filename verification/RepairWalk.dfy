/** The repair kit's walk over the page graph in non-recursive mode, guarded by
    the status of each page.  Pages may point anywhere, in cycles too.  The
    overflow pages of a leaf are begun and ended like pages of the walk, but
    nobody asks whether the guard lets them in. */
module RepairWalk {
  import opened Wrappers

  datatype Status = Invalid | Unchecked | Checking | DamagedPage | Discarded | Checked

  // Result codes, as far as the walk tells them apart.
  datatype Rc = OK | DAMAGED | CANCELLED | MISUSE

  // What sqliterkBtreeParsePage finds on a page: no B-tree page, a bad header, the page numbers of the children,
  // or a leaf: how the parsing of its cells ends, and the overflow pages it runs over.
  datatype PageInfo = BadType | BadHeader | Interior(children: seq<int>) | Leaf(rc: Rc, overflow: seq<int>)

  type File = seq<PageInfo>

  // Page p is an overflow page of some leaf.
  predicate OnChain(f: File, p: int) {
    exists i :: 0 <= i < |f| && f[i].Leaf? && p in f[i].overflow
  }

  // No chain passes through an interior page.
  predicate ChainsClear(f: File) {
    forall i :: 0 <= i < |f| && f[i].Interior? ==> !OnChain(f, i + 1)
  }

  // How many interior pages the guard still lets in.
  function Open(f: File, st: seq<Status>): nat
    requires |st| == |f|
  {
    if st == [] then 0
    else
      var n := |st| - 1;
      Open(f[..n], st[..n]) + if f[n].Interior? && st[n] != Checking then 1 else 0
  }

  lemma {:induction false} OpenMono(f: File, st: seq<Status>, st': seq<Status>)
    requires |st| == |f| && Guarded(f, st, st')
    ensures Open(f, st') <= Open(f, st)
  {
    if st != [] {
      var n := |st| - 1;
      OpenMono(f[..n], st[..n], st'[..n]);
    }
  }

  lemma {:induction false} OpenDrops(f: File, st: seq<Status>, k: nat)
    requires |st| == |f| && k < |st| && f[k].Interior? && st[k] != Checking
    ensures Open(f, st[k := Checking]) < Open(f, st)
  {
    var n := |st| - 1;
    if k < n {
      assert st[k := Checking][..n] == st[..n][k := Checking];
      OpenDrops(f[..n], st[..n], k);
    } else {
      assert st[k := Checking][..n] == st[..n];
    }
  }

  // The status that onEndParsePage stores; cancelling leaves it alone.
  function EndStatus(rc: Rc, now: Status): Status {
    match rc
    case OK => Checked
    case DAMAGED => DamagedPage
    case CANCELLED => now
    case MISUSE => Invalid
  }

  // The overflow loops: each page is begun, whatever its status, and ended.
  function MarkChain(st: seq<Status>, chain: seq<int>): (st': seq<Status>)
    ensures |st'| == |st|
    ensures forall i :: 0 <= i < |st| ==> st'[i] == if i + 1 in chain then Checked else st[i]
    decreases |chain|
  {
    if chain == [] then st
    else
      var c := chain[0];
      MarkChain(if 1 <= c <= |st| then st[c - 1 := Checked] else st, chain[1..])
  }

  // Interior pages that are being checked stay so.
  ghost predicate Guarded(f: File, st: seq<Status>, st': seq<Status>) {
    |f| == |st'| == |st| && forall i :: 0 <= i < |st| && f[i].Interior? && st[i] == Checking ==> st'[i] == Checking
  }

  /** sqliterkBtreeParsePage: it ends on every page graph, because each nested call finds one interior page fewer
      open. */
  function Walk(f: File, st: seq<Status>, pageno: int): (r: (seq<Status>, Rc))
    requires |st| == |f| && ChainsClear(f)
    ensures Guarded(f, st, r.0)
    decreases Open(f, st), 0, 0
  {
    if pageno > |f| || pageno < 1 || st[pageno - 1] == Checking then (st, MISUSE)
    else
      var k, st1 := pageno - 1, st[pageno - 1 := Checking];
      match f[pageno - 1]
      case BadType => (st1[k := EndStatus(DAMAGED, Checking)], DAMAGED)
      case BadHeader => (st1[k := EndStatus(DAMAGED, Checking)], DAMAGED)
      case Leaf(rc, overflow) =>
        var st2 := MarkChain(st1, overflow);
        (st2[k := EndStatus(rc, st2[k])], rc)
      case Interior(children) =>
        OpenDrops(f, st, k);
        (WalkChildren(f, st1, children)[k := EndStatus(OK, Checking)], OK)
  }

  // The loop over the children: their results are ignored unless one is cancelled.
  function WalkChildren(f: File, st: seq<Status>, children: seq<int>): (st': seq<Status>)
    requires |st| == |f| && ChainsClear(f)
    ensures Guarded(f, st, st')
    decreases Open(f, st), 1, |children|
  {
    if children == [] then st
    else
      var (st1, rc) := Walk(f, st, children[0]);
      OpenMono(f, st, st1);
      if rc == CANCELLED then st1 else WalkChildren(f, st1, children[1..])
  }

  /** Without the condition on the chains the guard is not enough. */

  // sqliterkBtreeParsePage on any file, as far as fuel nested calls go.
  function WalkFuel(f: File, st: seq<Status>, pageno: int, fuel: nat): (r: Option<(seq<Status>, Rc)>)
    requires |st| == |f|
    ensures r.Some? ==> |r.value.0| == |f|
    decreases fuel, 0
  {
    if fuel == 0 then None
    else if pageno > |f| || pageno < 1 || st[pageno - 1] == Checking then Some((st, MISUSE))
    else
      var k, st1 := pageno - 1, st[pageno - 1 := Checking];
      match f[pageno - 1]
      case BadType => Some((st1[k := EndStatus(DAMAGED, Checking)], DAMAGED))
      case BadHeader => Some((st1[k := EndStatus(DAMAGED, Checking)], DAMAGED))
      case Leaf(rc, overflow) =>
        var st2 := MarkChain(st1, overflow);
        Some((st2[k := EndStatus(rc, st2[k])], rc))
      case Interior(children) =>
        match ChildrenFuel(f, st1, children, fuel - 1)
        case Some(st2) => Some((st2[k := EndStatus(OK, Checking)], OK))
        case None => None
  }

  function ChildrenFuel(f: File, st: seq<Status>, children: seq<int>, fuel: nat): (r: Option<seq<Status>>)
    requires |st| == |f|
    ensures r.Some? ==> |r.value| == |f|
    decreases fuel, 1, |children|
  {
    if children == [] then Some(st)
    else
      match WalkFuel(f, st, children[0], fuel)
      case Some((st1, rc)) => if rc == CANCELLED then Some(st1) else ChildrenFuel(f, st1, children[1..], fuel)
      case None => None
  }

  /** If no chain passes through an interior page, the calls are never nested deeper than there are interior pages. */
  lemma {:induction false} WalkEnds(f: File, st: seq<Status>, pageno: int, fuel: nat)
    requires |st| == |f| && ChainsClear(f) && fuel > Open(f, st)
    ensures WalkFuel(f, st, pageno, fuel) == Some(Walk(f, st, pageno))
    decreases fuel, 0
  {
    if 1 <= pageno <= |f| && st[pageno - 1] != Checking && f[pageno - 1].Interior? {
      OpenDrops(f, st, pageno - 1);
      ChildrenEnd(f, st[pageno - 1 := Checking], f[pageno - 1].children, fuel - 1);
    }
  }

  lemma {:induction false} ChildrenEnd(f: File, st: seq<Status>, children: seq<int>, fuel: nat)
    requires |st| == |f| && ChainsClear(f) && fuel > Open(f, st)
    ensures ChildrenFuel(f, st, children, fuel) == Some(WalkChildren(f, st, children))
    decreases fuel, 1, |children|
  {
    if children != [] {
      var (st1, rc) := Walk(f, st, children[0]);
      WalkEnds(f, st, children[0], fuel);
      OpenMono(f, st, st1);
      hide Walk, WalkFuel;
      if rc != CANCELLED { ChildrenEnd(f, st1, children[1..], fuel); }
    }
  }

  // Page 1 is an interior page with the children 2 and 1, and page 2 a leaf whose overflow chain is page 1.
  const LOOP: File := [Interior([2, 1]), Leaf(OK, [1])]

  /** On this file the chain marks page 1 as checked while it is being checked, and no number of nested calls is
      enough. */
  lemma {:induction false} LoopNeverEnds(st: seq<Status>, fuel: nat)
    requires |st| == 2 && st[0] != Checking && st[1] != Checking
    ensures !ChainsClear(LOOP) && WalkFuel(LOOP, st, 1, fuel) == None
    decreases fuel
  {
    assert OnChain(LOOP, 1) by { assert LOOP[1].Leaf? && 1 in LOOP[1].overflow; }
    assert LOOP[0].Interior?;
    if fuel > 1 {
      var st1 := st[0 := Checking];
      var st2 := MarkChain(st1[1 := Checking], [1])[1 := Checked];
      assert WalkFuel(LOOP, st1, 2, fuel - 1) == Some((st2, OK));
      LoopNeverEnds(st2, fuel - 1);
      assert [2, 1][1..] == [1];
      assert ChildrenFuel(LOOP, st1, [2, 1], fuel - 1) == None;
    }
  }

  /** What a visit makes of a page depends on the page alone. */
  function Verdict(info: PageInfo): Status {
    match info
    case BadType => DamagedPage
    case BadHeader => DamagedPage
    case Interior(_) => Checked
    case Leaf(rc, _) => EndStatus(rc, Checking)
  }

  // Page number i+1 has the verdict of its own content, or is an overflow page marked as checked.
  predicate Judged(f: File, st: seq<Status>, i: nat)
    requires |st| == |f| && i < |f|
  {
    st[i] == Verdict(f[i]) || (st[i] == Checked && OnChain(f, i + 1))
  }

  // The walk visited some pages, and these are judged.
  ghost predicate Visits(f: File, st: seq<Status>, st': seq<Status>) {
    |st'| == |st| == |f| && forall i :: 0 <= i < |f| ==> st'[i] == st[i] || Judged(f, st', i)
  }

  lemma MarkVisits(f: File, st: seq<Status>, k: nat)
    requires |st| == |f| && k < |f| && f[k].Leaf?
    ensures Visits(f, st, MarkChain(st, f[k].overflow))
  {
  }

  lemma {:induction false} WalkVisits(f: File, st: seq<Status>, pageno: int)
    requires |st| == |f| && ChainsClear(f)
    ensures Visits(f, st, Walk(f, st, pageno).0)
    ensures 1 <= pageno <= |f| && st[pageno - 1] != Checking ==> Judged(f, Walk(f, st, pageno).0, pageno - 1)
    decreases Open(f, st), 0, 0
  {
    if 1 <= pageno <= |f| && st[pageno - 1] != Checking {
      var st1 := st[pageno - 1 := Checking];
      if f[pageno - 1].Interior? {
        OpenDrops(f, st, pageno - 1);
        ChildrenVisit(f, st1, f[pageno - 1].children);
      } else if f[pageno - 1].Leaf? {
        MarkVisits(f, st1, pageno - 1);
      }
    }
  }

  lemma {:induction false} ChildrenVisit(f: File, st: seq<Status>, children: seq<int>)
    requires |st| == |f| && ChainsClear(f)
    ensures Visits(f, st, WalkChildren(f, st, children))
    decreases Open(f, st), 1, |children|
  {
    if children != [] {
      var (st1, rc) := Walk(f, st, children[0]);
      WalkVisits(f, st, children[0]);
      OpenMono(f, st, st1);
      hide Walk, Verdict, OnChain;
      if rc != CANCELLED { ChildrenVisit(f, st1, children[1..]); }
    }
  }

  /** Without cancellation the walk leaves no page in checking status behind. */

  predicate NoCancel(f: File) {
    forall i :: 0 <= i < |f| && f[i].Leaf? ==> f[i].rc != CANCELLED
  }

  // No page is being checked that was not before; of the interior pages, the same ones.
  ghost predicate SameChecking(f: File, st: seq<Status>, st': seq<Status>) {
    |st'| == |st| == |f| && forall i :: 0 <= i < |st| ==>
      (st'[i] == Checking ==> st[i] == Checking) && (f[i].Interior? && st[i] == Checking ==> st'[i] == Checking)
  }

  lemma {:induction false} WalkReleases(f: File, st: seq<Status>, pageno: int)
    requires |st| == |f| && ChainsClear(f) && NoCancel(f)
    ensures SameChecking(f, st, Walk(f, st, pageno).0) && Walk(f, st, pageno).1 != CANCELLED
    decreases Open(f, st), 0, 0
  {
    if 1 <= pageno <= |f| && st[pageno - 1] != Checking && f[pageno - 1].Interior? {
      OpenDrops(f, st, pageno - 1);
      ChildrenRelease(f, st[pageno - 1 := Checking], f[pageno - 1].children);
    }
  }

  lemma {:induction false} ChildrenRelease(f: File, st: seq<Status>, children: seq<int>)
    requires |st| == |f| && ChainsClear(f) && NoCancel(f)
    ensures SameChecking(f, st, WalkChildren(f, st, children))
    decreases Open(f, st), 1, |children|
  {
    if children != [] {
      var (st1, rc) := Walk(f, st, children[0]);
      WalkReleases(f, st, children[0]);
      OpenMono(f, st, st1);
      hide Walk;
      if rc != CANCELLED { ChildrenRelease(f, st1, children[1..]); }
    }
  }

  /** Without cancellation the walk reaches every page that can be reached. */

  // Page y is a child of page x.
  predicate Child(f: File, x: int, y: int) {
    1 <= x <= |f| && f[x - 1].Interior? && y in f[x - 1].children
  }

  // Each page of the path is a child of the one before.
  predicate Path(f: File, path: seq<int>) {
    && |path| > 0 && (forall i :: 0 <= i < |path| ==> 1 <= path[i] <= |f|)
    && forall i :: 0 <= i < |path| - 1 ==> Child(f, path[i], path[i + 1])
  }

  predicate Distinct(path: seq<int>) {
    forall i, j :: 0 <= i < j < |path| ==> path[i] != path[j]
  }

  predicate NoneChecking(st: seq<Status>, path: seq<int>) {
    forall i :: 0 <= i < |path| ==> 1 <= path[i] <= |st| && st[path[i] - 1] != Checking
  }

  lemma PathTail(f: File, path: seq<int>)
    requires Path(f, path) && |path| > 1
    ensures Path(f, path[1..]) && Child(f, path[0], path[1])
  {
    hide Child;
    forall i | 0 <= i < |path[1..]| - 1 ensures Child(f, path[1..][i], path[1..][i + 1]) {
      assert Child(f, path[i + 1], path[i + 1 + 1]);
    }
  }

  lemma {:induction false} WalkReaches(f: File, st: seq<Status>, path: seq<int>)
    requires |st| == |f| && ChainsClear(f) && NoCancel(f) && Path(f, path) && Distinct(path) && NoneChecking(st, path)
    ensures var last := path[|path| - 1] - 1; Judged(f, Walk(f, st, path[0]).0, last)
    decreases Open(f, st), 0, 0
  {
    WalkVisits(f, st, path[0]);
    if |path| > 1 {
      PathTail(f, path);
      TailUnchecked(f, st, path);
      hide Path, Distinct, NoneChecking, NoCancel, ChainsClear, Verdict, OnChain;
      OpenDrops(f, st, path[0] - 1);
      ChildrenReach(f, st[path[0] - 1 := Checking], f[path[0] - 1].children, path[1..]);
    }
  }

  // Behind the page that is opened now, none of the path is being checked.
  lemma TailUnchecked(f: File, st: seq<Status>, path: seq<int>)
    requires |st| == |f| && Path(f, path) && Distinct(path) && NoneChecking(st, path) && |path| > 1
    ensures 1 <= path[0] <= |st| && st[path[0] - 1] != Checking
    ensures Distinct(path[1..]) && NoneChecking(st[path[0] - 1 := Checking], path[1..])
  {
    hide Child;
    assert forall i :: 0 <= i < |path| - 1 ==> path[1..][i] == path[i + 1];
  }

  lemma {:induction false} ChildrenReach(f: File, st: seq<Status>, children: seq<int>, path: seq<int>)
    requires |st| == |f| && ChainsClear(f) && NoCancel(f) && Path(f, path) && Distinct(path) && NoneChecking(st, path)
    requires path[0] in children
    ensures var last := path[|path| - 1] - 1; Judged(f, WalkChildren(f, st, children), last)
    decreases Open(f, st), 1, |children|
  {
    var st1 := Walk(f, st, children[0]).0;
    WalkReleases(f, st, children[0]);
    OpenMono(f, st, st1);
    if path[0] == children[0] {
      WalkReaches(f, st, path);
      ChildrenVisit(f, st1, children[1..]);
    } else {
      hide Walk;
      ChildrenReach(f, st1, children[1..], path);
    }
  }

  lemma Shortcut(f: File, path: seq<int>, i: nat, j: nat)
    requires Path(f, path) && i < j < |path| && path[i] == path[j]
    ensures Path(f, path[..i] + path[j..])
  {
    hide Child;
    var shorter := path[..i] + path[j..];
    forall a | 0 <= a < |shorter| - 1 ensures Child(f, shorter[a], shorter[a + 1]) {
      assert shorter[a] == path[if a < i then a else a - i + j];
      assert shorter[a + 1] == path[if a + 1 <= i then a + 1 else a + 1 - i + j];
      assert a < i ==> Child(f, path[a], path[a + 1]);
      assert a >= i ==> Child(f, path[a - i + j], path[a - i + j + 1]);
    }
  }

  // Any path can be made one without repetitions.
  lemma {:induction false} SimplePath(f: File, path: seq<int>) returns (simple: seq<int>)
    requires Path(f, path)
    ensures Path(f, simple) && Distinct(simple) && simple[0] == path[0] && simple[|simple| - 1] == path[|path| - 1]
    ensures forall x :: x in simple ==> x in path
    decreases |path|
  {
    hide Child;
    if Distinct(path) {
      simple := path;
    } else {
      var i, j :| 0 <= i < j < |path| && path[i] == path[j];
      var shorter := path[..i] + path[j..];
      Shortcut(f, path, i, j);
      simple := SimplePath(f, shorter);
    }
  }

  /** Every page reachable through interior pages, by whatever path, is judged after the walk. */
  lemma {:induction false} ReachableVisited(f: File, st: seq<Status>, path: seq<int>)
    requires |st| == |f| && ChainsClear(f) && NoCancel(f) && Path(f, path) && NoneChecking(st, path)
    ensures var last := path[|path| - 1] - 1; Judged(f, Walk(f, st, path[0]).0, last)
  {
    var simple := SimplePath(f, path);
    hide Path, Distinct, Walk, Verdict;
    assert NoneChecking(st, simple) by {
      forall i | 0 <= i < |simple| ensures 1 <= simple[i] <= |st| && st[simple[i] - 1] != Checking {
        assert simple[i] in path;
      }
    }
    WalkReaches(f, st, simple);
  }

  /** sqliterkParse: every page that is still unchecked is opened as a root. */

  // sqliterkBtreeOpen refuses a root without a B-tree type, except page 1.
  predicate OpensAsRoot(f: File, pageno: int)
    requires 1 <= pageno <= |f|
  {
    pageno == 1 || f[pageno - 1] != BadType
  }

  // sqliterkParsePage
  function ParsePage(f: File, st: seq<Status>, pageno: int): (st': seq<Status>)
    requires |st| == |f| && ChainsClear(f) && 1 <= pageno <= |f|
    ensures |st'| == |f|
  {
    if st[pageno - 1] != Unchecked || !OpensAsRoot(f, pageno) then st else Walk(f, st, pageno).0
  }

  // The loop of sqliterkParse, having parsed the first n pages.
  function ParseFirst(f: File, n: nat): (st: seq<Status>)
    requires ChainsClear(f) && n <= |f|
    ensures |st| == |f|
  {
    if n == 0 then seq(|f|, _ => Unchecked) else ParsePage(f, ParseFirst(f, n - 1), n)
  }

  // A page the walk never opens: no B-tree page, not page 1, and no interior page's child.
  predicate Orphan(f: File, pageno: int)
    requires 1 <= pageno <= |f|
  {
    !OpensAsRoot(f, pageno) && NoChild(f, pageno)
  }

  predicate NoChild(f: File, pageno: int) {
    forall i :: 0 <= i < |f| && f[i].Interior? ==> pageno !in f[i].children
  }

  // The walk opens no orphan: it stays as it was, or is marked as an overflow page.
  lemma {:induction false} WalkSkips(f: File, st: seq<Status>, pageno: int, p: int)
    requires |st| == |f| && ChainsClear(f) && 1 <= p <= |f| && Orphan(f, p) && pageno != p
    ensures var s := Walk(f, st, pageno).0[p - 1]; s == st[p - 1] || (s == Checked && OnChain(f, p))
    decreases Open(f, st), 0, 0
  {
    if 1 <= pageno <= |f| && st[pageno - 1] != Checking && f[pageno - 1].Interior? {
      OpenDrops(f, st, pageno - 1);
      ChildrenSkip(f, st[pageno - 1 := Checking], f[pageno - 1].children, p);
    }
  }

  lemma {:induction false} ChildrenSkip(f: File, st: seq<Status>, children: seq<int>, p: int)
    requires |st| == |f| && ChainsClear(f) && 1 <= p <= |f| && Orphan(f, p) && p !in children
    ensures var s := WalkChildren(f, st, children)[p - 1]; s == st[p - 1] || (s == Checked && OnChain(f, p))
    decreases Open(f, st), 1, |children|
  {
    if children != [] {
      var (st1, rc) := Walk(f, st, children[0]);
      WalkSkips(f, st, children[0], p);
      OpenMono(f, st, st1);
      hide Walk, Orphan;
      if rc != CANCELLED { ChildrenSkip(f, st1, children[1..], p); }
    }
  }

  // Pages that were visited and left have had their children visited too.
  ghost predicate Closed(f: File, st: seq<Status>) {
    |st| == |f| && forall q :: 0 <= q < |f| && st[q] != Unchecked && st[q] != Checking ==> ChildrenSeen(f, st, q)
  }

  ghost predicate ChildrenSeen(f: File, st: seq<Status>, q: nat)
    requires |st| == |f| && q < |f|
  {
    f[q].Interior? ==> Seen(st, f[q].children)
  }

  predicate Seen(st: seq<Status>, children: seq<int>) {
    forall c :: c in children && 1 <= c <= |st| ==> st[c - 1] != Unchecked
  }

  // No walk makes a page unchecked again.
  lemma SeenStays(f: File, st: seq<Status>, st': seq<Status>, children: seq<int>)
    requires Visits(f, st, st') && Seen(st, children)
    ensures Seen(st', children)
  {
  }

  lemma MarkCloses(f: File, st: seq<Status>, k: nat)
    requires ChainsClear(f) && Closed(f, st) && k < |f| && f[k].Leaf?
    ensures Closed(f, MarkChain(st, f[k].overflow))
  {
    var st' := MarkChain(st, f[k].overflow);
    forall q | 0 <= q < |f| && st'[q] != Unchecked && st'[q] != Checking ensures ChildrenSeen(f, st', q) {
      if f[q].Interior? {
        assert !OnChain(f, q + 1);
        assert ChildrenSeen(f, st, q);
      }
    }
  }

  lemma {:induction false} WalkCloses(f: File, st: seq<Status>, pageno: int)
    requires |st| == |f| && ChainsClear(f) && NoCancel(f) && Closed(f, st)
    ensures Closed(f, Walk(f, st, pageno).0)
    decreases Open(f, st), 0, 0
  {
    WalkVisits(f, st, pageno);
    if 1 <= pageno <= |f| && st[pageno - 1] != Checking {
      var k, st1 := pageno - 1, st[pageno - 1 := Checking];
      assert Closed(f, st1) by {
        forall q | 0 <= q < |f| && st1[q] != Unchecked && st1[q] != Checking ensures ChildrenSeen(f, st1, q) {
          assert ChildrenSeen(f, st, q);
        }
      }
      var st2 := st1;
      if f[k].Interior? {
        OpenDrops(f, st, k);
        st2 := WalkChildren(f, st1, f[k].children);
        ChildrenClose(f, st1, f[k].children);
      } else if f[k].Leaf? {
        st2 := MarkChain(st1, f[k].overflow);
        MarkCloses(f, st1, k);
      }
      Finish(f, st2, k, Walk(f, st, pageno).0[k]);
    }
  }

  // Leaving a page whose children are seen.
  lemma Finish(f: File, st: seq<Status>, k: nat, s: Status)
    requires Closed(f, st) && k < |f| && s != Unchecked && ChildrenSeen(f, st, k)
    ensures Closed(f, st[k := s])
  {
    var st' := st[k := s];
    forall q | 0 <= q < |f| && st'[q] != Unchecked && st'[q] != Checking ensures ChildrenSeen(f, st', q) {
      assert ChildrenSeen(f, st, q);
    }
  }

  lemma {:induction false} ChildrenClose(f: File, st: seq<Status>, children: seq<int>)
    requires |st| == |f| && ChainsClear(f) && NoCancel(f) && Closed(f, st)
    ensures Closed(f, WalkChildren(f, st, children)) && Seen(WalkChildren(f, st, children), children)
    decreases Open(f, st), 1, |children|
  {
    if children != [] {
      var c, st1 := children[0], Walk(f, st, children[0]).0;
      WalkCloses(f, st, c);
      WalkReleases(f, st, c);
      WalkVisits(f, st, c);
      OpenMono(f, st, st1);
      ChildrenClose(f, st1, children[1..]);
      ChildrenVisit(f, st1, children[1..]);
      hide Walk, Closed, OnChain;
      assert Seen(st1, [c]);
      SeenStays(f, st1, WalkChildren(f, st1, children[1..]), [c]);
      assert forall d :: d in children ==> d in [c] || d in children[1..];
    }
  }

  // Page p is an overflow page of the leaf with number l+1.
  predicate Overflows(f: File, l: nat, p: int)
    requires l < |f|
  {
    f[l].Leaf? && p in f[l].overflow
  }

  // Each leaf that was visited, not only marked, has marked overflow page p.
  ghost predicate Marked(f: File, st: seq<Status>, p: int)
    requires |st| == |f| && 1 <= p <= |f|
  {
    forall l :: 0 <= l < |f| && Overflows(f, l, p) && !OnChain(f, l + 1) && st[l] != Unchecked && st[l] != Checking ==>
      st[p - 1] == Checked
  }

  lemma {:induction false} WalkMarks(f: File, st: seq<Status>, pageno: int, p: int)
    requires |st| == |f| && ChainsClear(f) && 1 <= p <= |f| && NoChild(f, p) && pageno != p && Marked(f, st, p)
    ensures Marked(f, Walk(f, st, pageno).0, p)
    decreases Open(f, st), 0, 0
  {
    if 1 <= pageno <= |f| && st[pageno - 1] != Checking {
      var k, st1 := pageno - 1, st[pageno - 1 := Checking];
      assert Marked(f, st1, p);
      if f[k].Interior? {
        OpenDrops(f, st, k);
        ChildrenMark(f, st1, f[k].children, p);
      } else if f[k].Leaf? {
        var st2 := MarkChain(st1, f[k].overflow);
        assert Marked(f, st2, p) by { assert forall l :: 0 <= l < |f| && !OnChain(f, l + 1) ==> st2[l] == st1[l]; }
        assert p in f[k].overflow ==> st2[p - 1] == Checked;
      }
    }
  }

  lemma {:induction false} ChildrenMark(f: File, st: seq<Status>, children: seq<int>, p: int)
    requires |st| == |f| && ChainsClear(f) && 1 <= p <= |f| && NoChild(f, p) && p !in children && Marked(f, st, p)
    ensures Marked(f, WalkChildren(f, st, children), p)
    decreases Open(f, st), 1, |children|
  {
    if children != [] {
      var (st1, rc) := Walk(f, st, children[0]);
      WalkMarks(f, st, children[0], p);
      OpenMono(f, st, st1);
      hide Walk, NoChild, Marked;
      if rc != CANCELLED { ChildrenMark(f, st1, children[1..], p); }
    }
  }

  // The page opened as a root itself.
  lemma RootMarks(f: File, st: seq<Status>, p: int)
    requires |st| == |f| && ChainsClear(f) && 1 <= p <= |f| && st[p - 1] == Unchecked && Marked(f, st, p)
    ensures Marked(f, Walk(f, st, p).0, p)
  {
    var st' := Walk(f, st, p).0;
    forall l | 0 <= l < |f| && Overflows(f, l, p) && !OnChain(f, l + 1)
      ensures st'[l] == Unchecked || st'[l] == Checking
    {
      assert p - 1 + 1 == p;
      assert OnChain(f, p) && !f[p - 1].Interior? && l != p - 1;
      assert st[l] == Unchecked || st[l] == Checking;
    }
  }

  // After n roots: nothing is being checked, orphans are untouched or marked, visited pages are judged, roots are seen.
  ghost predicate Settled(f: File, st: seq<Status>, n: nat) {
    && Closed(f, st) && n <= |f|
    && (forall i :: 0 <= i < |f| ==> st[i] != Checking && (st[i] == Unchecked || Judged(f, st, i)))
    && (forall p :: 1 <= p <= |f| && Orphan(f, p) ==> st[p - 1] == Unchecked || (st[p - 1] == Checked && OnChain(f, p)))
    && (forall i :: 0 <= i < n && OpensAsRoot(f, i + 1) ==> st[i] != Unchecked)
    && (forall p :: 1 <= p <= |f| && NoChild(f, p) ==> Marked(f, st, p))
  }

  lemma {:induction false} ParseSettles(f: File, n: nat)
    requires ChainsClear(f) && NoCancel(f) && n <= |f|
    ensures Settled(f, ParseFirst(f, n), n)
  {
    if n > 0 {
      ParseSettles(f, n - 1);
      var st := ParseFirst(f, n - 1);
      if st[n - 1] == Unchecked && OpensAsRoot(f, n) { RootSettles(f, st, n); }
    }
  }

  lemma RootSettles(f: File, st: seq<Status>, n: nat)
    requires ChainsClear(f) && NoCancel(f) && 1 <= n <= |f| && Settled(f, st, n - 1)
    requires st[n - 1] == Unchecked && OpensAsRoot(f, n)
    ensures Settled(f, Walk(f, st, n).0, n)
  {
    WalkCloses(f, st, n);
    WalkReleases(f, st, n);
    WalkVisits(f, st, n);
    var st' := Walk(f, st, n).0;
    forall p | 1 <= p <= |f| && Orphan(f, p)
      ensures st'[p - 1] == Unchecked || (st'[p - 1] == Checked && OnChain(f, p))
    {
      assert p - 1 + 1 == p;
      WalkSkips(f, st, n, p);
    }
    forall p | 1 <= p <= |f| && NoChild(f, p) ensures Marked(f, st', p) {
      assert p - 1 + 1 == p;
      if p == n { RootMarks(f, st, p); } else { WalkMarks(f, st, n, p); }
    }
    hide Walk, Closed, Orphan, Verdict, Marked, OnChain, NoChild;
  }

  /** The status of every page at the end is decided by the pages alone, not by the order or the cycles of the walk.
      On no overflow chain, orphans stay unchecked and every other page has the verdict of its own content; on some
      chain, it may also be checked. */
  lemma {:induction false} FinalStatus(f: File, pageno: int)
    requires ChainsClear(f) && NoCancel(f) && 1 <= pageno <= |f|
    ensures var s, own := ParseFirst(f, |f|)[pageno - 1], if Orphan(f, pageno) then Unchecked
        else Verdict(f[pageno - 1]);
            s == own || (s == Checked && OnChain(f, pageno))
    ensures !Orphan(f, pageno) && !OnChain(f, pageno) ==>
              ParseFirst(f, |f|)[pageno - 1] == match f[pageno - 1]
                                                case BadType => DamagedPage
                                                case BadHeader => DamagedPage
                                                case Interior(_) => Checked
                                                case Leaf(rc, _) =>
                                                  if rc == OK then Checked else if rc == DAMAGED then DamagedPage
                                                  else Invalid
  {
    var st, i := ParseFirst(f, |f|), pageno - 1;
    ParseSettles(f, |f|);
    hide ParseFirst, Verdict, OnChain, Marked;
    assert Settled(f, st, |f|);
    assert i + 1 == pageno;
    if !Orphan(f, pageno) {
      if !OpensAsRoot(f, pageno) {
        var q :| 0 <= q < |f| && f[q].Interior? && pageno in f[q].children;
        assert OpensAsRoot(f, q + 1);
        assert ChildrenSeen(f, st, q);
      }
      assert Judged(f, st, i);
    }
    OwnVerdict(f, i);
  }

  lemma OwnVerdict(f: File, i: nat)
    requires NoCancel(f) && i < |f|
    ensures Verdict(f[i]) == match f[i]
                             case BadType => DamagedPage
                             case BadHeader => DamagedPage
                             case Interior(_) => Checked
                             case Leaf(rc, _) =>
                               if rc == OK then Checked else if rc == DAMAGED then DamagedPage else Invalid
  {
  }

  /** Page 1 is opened whatever it holds. */
  lemma {:induction false} FirstPageJudged(f: File)
    requires ChainsClear(f) && NoCancel(f) && |f| > 0 && !OnChain(f, 1)
    ensures ParseFirst(f, |f|)[0] == Verdict(f[0]) && (f[0] == BadType ==> ParseFirst(f, |f|)[0] == DamagedPage)
  {
    FinalStatus(f, 1);
    hide ParseFirst, OnChain;
  }

  /** The overflow pages of a leaf that is itself on no chain end up checked, whatever they hold and whenever they are
      opened, unless they are children of an interior page. */
  lemma {:induction false} OverflowChecked(f: File, l: nat, p: int)
    requires ChainsClear(f) && NoCancel(f) && l < |f| && Overflows(f, l, p) && !OnChain(f, l + 1)
    requires 1 <= p <= |f| && NoChild(f, p)
    ensures ParseFirst(f, |f|)[p - 1] == Checked
  {
    var st := ParseFirst(f, |f|);
    ParseSettles(f, |f|);
    hide ParseFirst, Verdict, OnChain, Closed, Orphan, NoChild;
    assert OpensAsRoot(f, l + 1);
    assert Settled(f, st, |f|) && Marked(f, st, p);
  }

  /** Cancelling. */

  // The status of a page whose parsing was cancelled stays as it is, and only a leaf can cancel.
  lemma {:induction false} WalkCancelled(f: File, st: seq<Status>, pageno: int)
    requires |st| == |f| && ChainsClear(f)
    ensures Walk(f, st, pageno).1 == CANCELLED
            <==> 1 <= pageno <= |f| && st[pageno - 1] != Checking && f[pageno - 1].Leaf?
                 && f[pageno - 1].rc == CANCELLED
    ensures Walk(f, st, pageno).1 == CANCELLED && !OnChain(f, pageno) ==> Walk(f, st, pageno).0[pageno - 1] == Checking
  {
    if 1 <= pageno <= |f| { assert pageno - 1 + 1 == pageno; }
  }

  // No child of the list is a leaf that is cancelled now.
  ghost predicate NoneCancels(f: File, st: seq<Status>, children: seq<int>)
    requires |st| == |f| && ChainsClear(f)
    decreases |children|
  {
    children != [] ==>
      var (st1, rc) := Walk(f, st, children[0]);
      rc != CANCELLED && NoneCancels(f, st1, children[1..])
  }

  /** After the first child that is cancelled no further child is visited; otherwise they all are, in order. */
  lemma {:induction false} CancelStops(f: File, st: seq<Status>, x: seq<int>, y: seq<int>)
    requires |st| == |f| && ChainsClear(f)
    ensures var st1 := WalkChildren(f, st, x);
            WalkChildren(f, st, x + y) == if NoneCancels(f, st, x) then WalkChildren(f, st1, y) else st1
    decreases |x|
  {
    hide Walk;
    if x == [] {
      assert x + y == y;
    } else {
      var (st1, rc) := Walk(f, st, x[0]);
      assert (x + y)[1..] == x[1..] + y;
      if rc != CANCELLED { CancelStops(f, st1, x[1..], y); }
    }
  }
}
