/** The repair kit's pager and walk as objects: the status array is changed in
    place by the notifications around each page. */
module RepairKit {
  import opened RepairWalk

  class Sqliterk {
    const f: File                     // what the bytes of each page say
    const pagesStatus: array<Status>

    ghost predicate Valid() {
      pagesStatus.Length == |f| && ChainsClear(f)
    }

    // sqliterkPagerOpen
    constructor (f: File)
      requires ChainsClear(f)
      ensures Valid() && this.f == f && fresh(pagesStatus) && pagesStatus[..] == ParseFirst(f, 0)
    {
      this.f := f;
      pagesStatus := new Status[|f|](_ => Unchecked);
      new;
      assert pagesStatus[..] == seq(|f|, _ => Unchecked);
    }

    predicate IsPagenoValid(pageno: int) {
      1 <= pageno <= |f|
    }

    // sqliterkPagerSetStatus
    method SetStatus(pageno: int, status: Status)
      requires Valid()
      modifies pagesStatus
      ensures pagesStatus[..] == if IsPagenoValid(pageno) then old(pagesStatus[..])[pageno - 1 := status]
          else old(pagesStatus[..])
    {
      if IsPagenoValid(pageno) { pagesStatus[pageno - 1] := status; }
    }

    // sqliterkPagerGetStatus
    method GetStatus(pageno: int) returns (status: Status)
      requires Valid()
      ensures status == if IsPagenoValid(pageno) then pagesStatus[pageno - 1] else Invalid
    {
      status := if IsPagenoValid(pageno) then pagesStatus[pageno - 1] else Invalid;
    }

    // sqliterkNotify_onBeginParsePage
    method OnBeginParsePage(pageno: int) returns (rc: Rc)
      requires Valid()
      modifies pagesStatus
      ensures var st := old(pagesStatus[..]);
              if IsPagenoValid(pageno) && st[pageno - 1] == Checking then rc == MISUSE && pagesStatus[..] == st
              else rc == OK && pagesStatus[..] == if IsPagenoValid(pageno) then st[pageno - 1 := Checking] else st
    {
      var status := GetStatus(pageno);
      if status == Checking { return MISUSE; }
      SetStatus(pageno, Checking);
      return OK;
    }

    // sqliterkNotify_onEndParsePage
    method OnEndParsePage(pageno: int, result: Rc)
      requires Valid()
      modifies pagesStatus
      ensures var st := old(pagesStatus[..]);
              pagesStatus[..] == if IsPagenoValid(pageno) then st[pageno - 1 := EndStatus(result, st[pageno - 1])]
                  else st
    {
      match result {
        case OK => SetStatus(pageno, Checked);
        case DAMAGED => SetStatus(pageno, DamagedPage);
        case CANCELLED =>
          assert IsPagenoValid(pageno) ==> pagesStatus[..] == pagesStatus[..][pageno - 1 := pagesStatus[pageno - 1]];
        case MISUSE => SetStatus(pageno, Invalid);
      }
    }

    // sqliterkBtreeParsePage
    method BtreeParsePage(pageno: int) returns (rc: Rc)
      requires Valid()
      modifies pagesStatus
      ensures (pagesStatus[..], rc) == Walk(f, old(pagesStatus[..]), pageno)
      decreases Open(f, pagesStatus[..]), 0, 0
    {
      if pageno > |f| { return MISUSE; }
      ghost var st := pagesStatus[..];
      rc := OnBeginParsePage(pageno);
      if rc != OK { return; }
      if !IsPagenoValid(pageno) {
        rc := MISUSE;                // from sqliterkPageAcquire
        OnEndParsePage(pageno, rc);
        return;
      }
      match f[pageno - 1] {
        case BadType => rc := DAMAGED;
        case BadHeader => rc := DAMAGED;
        case Leaf(r, overflow) =>
          ParseOverflow(overflow);
          rc := r;
        case Interior(children) =>
          OpenDrops(f, st, pageno - 1);
          ParseChildren(pageno, children);
      }
      ghost var st2 := pagesStatus[..];
      OnEndParsePage(pageno, rc);
      assert pagesStatus[..] == st2[pageno - 1 := EndStatus(rc, st2[pageno - 1])];
    }

    // One round of an overflow loop: what onBeginParsePage answers is ignored.
    method ParseOverflowPage(overflowPageno: int)
      requires Valid()
      modifies pagesStatus
      ensures pagesStatus[..] == MarkChain(old(pagesStatus[..]), [overflowPageno])
    {
      ghost var st := pagesStatus[..];
      if IsPagenoValid(overflowPageno) {
        var rc := OnBeginParsePage(overflowPageno);
        OnEndParsePage(overflowPageno, OK);
        assert pagesStatus[..] == st[overflowPageno - 1 := Checked];
      }
      assert pagesStatus[..] == MarkChain(st, [overflowPageno]);
    }

    // The overflow loops of a leaf.
    method ParseOverflow(overflow: seq<int>)
      requires Valid()
      modifies pagesStatus
      ensures pagesStatus[..] == MarkChain(old(pagesStatus[..]), overflow)
    {
      hide MarkChain;
      for i := 0 to |overflow|
        invariant pagesStatus[..] == MarkChain(old(pagesStatus[..]), overflow[..i])
      {
        MarkSnoc(old(pagesStatus[..]), overflow[..i], overflow[i]);
        assert overflow[..i + 1] == overflow[..i] + [overflow[i]];
        ParseOverflowPage(overflow[i]);
      }
      assert overflow[..|overflow|] == overflow;
      assert pagesStatus[..] == MarkChain(old(pagesStatus[..]), overflow);
    }

    // The loop over the children.
    method ParseChildren(pageno: int, children: seq<int>)
      requires Valid() && IsPagenoValid(pageno) && f[pageno - 1].Interior? && pagesStatus[pageno - 1] == Checking
      modifies pagesStatus
      ensures pagesStatus[..] == WalkChildren(f, old(pagesStatus[..]), children)
      ensures pagesStatus[pageno - 1] == Checking
      decreases Open(f, pagesStatus[..]), 1, |children|
    {
      ghost var st0 := pagesStatus[..];
      var i := 0;
      while i < |children|
        invariant 0 <= i <= |children| && Guarded(f, st0, pagesStatus[..])
        invariant WalkChildren(f, st0, children) == WalkChildren(f, pagesStatus[..], children[i..])
      {
        ghost var st := pagesStatus[..];
        OpenMono(f, st0, st);
        assert children[i..][0] == children[i] && children[i..][1..] == children[i + 1..];
        var rc := BtreeParsePage(children[i]);
        if rc == CANCELLED { break; }
        i := i + 1;
      }
      assert pagesStatus[..][pageno - 1] == pagesStatus[pageno - 1];
    }

    // sqliterkParsePage, with the check of the root in sqliterkBtreeOpen
    method ParsePageRoot(pageno: int)
      requires Valid() && IsPagenoValid(pageno)
      modifies pagesStatus
      ensures pagesStatus[..] == ParsePage(f, old(pagesStatus[..]), pageno)
    {
      var status := GetStatus(pageno);
      if status != Unchecked { return; }
      if !OpensAsRoot(f, pageno) { return; }
      var rc := BtreeParsePage(pageno);
    }

    // sqliterkParse
    method Parse()
      requires Valid() && pagesStatus[..] == ParseFirst(f, 0)
      modifies pagesStatus
      ensures pagesStatus[..] == ParseFirst(f, |f|)
    {
      for i := 0 to |f|
        invariant pagesStatus[..] == ParseFirst(f, i)
      {
        ParsePageRoot(i + 1);
      }
    }

    // sqliterkPagerGetParsedPageCount
    method GetParsedPageCount() returns (count: nat)
      requires Valid()
      ensures count == CountChecked(pagesStatus[..])
    {
      count := 0;
      for i := 0 to |f|
        invariant count == CountChecked(pagesStatus[..i])
      {
        assert pagesStatus[..i + 1][..i] == pagesStatus[..i];
        if pagesStatus[i] == Checked { count := count + 1; }
      }
      assert pagesStatus[..|f|] == pagesStatus[..];
    }
  }

  lemma MarkSnoc(st: seq<Status>, chain: seq<int>, c: int)
    ensures MarkChain(st, chain + [c]) == MarkChain(MarkChain(st, chain), [c])
  {
    var x, y := MarkChain(st, chain + [c]), MarkChain(MarkChain(st, chain), [c]);
    assert forall p :: p in chain + [c] <==> p in chain || p in [c];
    assert forall i :: 0 <= i < |st| ==> x[i] == y[i];
  }

  function CountChecked(st: seq<Status>): nat {
    if st == [] then 0 else CountChecked(st[..|st| - 1]) + if st[|st| - 1] == Checked then 1 else 0
  }

  // The pages that are not orphans and whose verdict is Checked.
  ghost function GoodPages(f: File, n: nat): nat
    requires n <= |f|
  {
    if n == 0 then 0 else GoodPages(f, n - 1) + if !Orphan(f, n) && Verdict(f[n - 1]) == Checked then 1 else 0
  }

  // The overflow pages.
  ghost function ChainPages(f: File, n: nat): nat
    requires n <= |f|
  {
    if n == 0 then 0 else ChainPages(f, n - 1) + if OnChain(f, n) then 1 else 0
  }

  /** After a whole parse the reported page count is the number of pages whose content is good, up to overflow pages. */
  lemma {:induction false} ParsedCount(f: File, n: nat)
    requires ChainsClear(f) && NoCancel(f) && n <= |f|
    ensures GoodPages(f, n) <= CountChecked(ParseFirst(f, |f|)[..n]) <= GoodPages(f, n) + ChainPages(f, n)
  {
    if n > 0 {
      var st := ParseFirst(f, |f|);
      assert st[..n][..n - 1] == st[..n - 1];
      FinalStatus(f, n);
      hide ParseFirst, Orphan, Verdict, OnChain;
      ParsedCount(f, n - 1);
    }
  }
}
