/** The locking routines on Btree objects, as one connection runs them.  The
    other connections may run at every mutex operation; what they may do is
    what the protocol lets them: anything to a BtShared whose mutex they hold
    or take, nothing to one this connection holds. */
module BtMutexObject {
  import V = BtMutex

  class BtShared {
    const addr: nat
    var db: Sqlite3?
    var holder: Sqlite3?    // the connection that holds the mutex

    constructor (addr: nat)
      ensures this.addr == addr && holder == null
    {
      this.addr, db, holder := addr, null, null;
    }
  }

  class Btree {
    const db: Sqlite3
    const pBt: BtShared
    const sharable: bool
    var locked: bool
    var wantToLock: nat
    var pNext: Btree?

    constructor (db: Sqlite3, pBt: BtShared, sharable: bool)
      ensures this.db == db && this.pBt == pBt && this.sharable == sharable && !locked && wantToLock == 0
          && pNext == null
    {
      this.db, this.pBt, this.sharable, locked, wantToLock, pNext := db, pBt, sharable, false, 0, null;
    }
  }

  // Some steps of the other connections, seen from c.
  method OthersRun(c: Sqlite3, world: set<BtShared>)
    modifies world`holder, world`db
    ensures OnlyOthers(c, world)
  {
    var rest := world;
    while rest != {}
      invariant rest <= world && OnlyOthers(c, world)
      decreases |rest|
    {
      var b :| b in rest;
      rest := rest - {b};
      if b.holder != c {
        var d: Sqlite3? := *;
        if d != c { b.holder := d; }
        b.db := *;
      }
    }
  }

  // What c holds is untouched, and nothing has become its own.
  twostate predicate OnlyOthers(c: Sqlite3, world: set<BtShared>)
    reads world
  {
    forall b :: b in world ==> (b.holder == c <==> old(b.holder) == c) && (b.holder == c ==> b.db == old(b.db))
  }

  // As OnlyOthers, except that c may have gained or lost p.
  twostate predicate OnlyOthersBut(c: Sqlite3, world: set<BtShared>, p: BtShared)
    reads world
  {
    forall b :: b in world && b != p ==>
      (b.holder == c <==> old(b.holder) == c) && (b.holder == c ==> b.db == old(b.db))
  }

  // sqlite3_mutex_enter returns once the others have let go of p.  To wait is only safe for one that holds nothing but
  // BtShareds at smaller addresses.
  method MutexEnter(c: Sqlite3, p: BtShared, world: set<BtShared>)
    requires p in world && p.holder != c
    requires forall b :: b in world && b.holder == c ==> b.addr < p.addr
    modifies world`holder, world`db
    ensures p.holder == c && OnlyOthersBut(c, world, p)
  {
    OthersRun(c, world);
    p.holder := c;
  }

  // sqlite3_mutex_try may also fail on a free mutex.
  method MutexTry(c: Sqlite3, p: BtShared, world: set<BtShared>) returns (ok: bool)
    requires p in world && p.holder != c
    modifies world`holder, world`db
    ensures ok <==> p.holder == c
    ensures OnlyOthersBut(c, world, p)
  {
    OthersRun(c, world);
    var busy: bool := *;
    ok := p.holder == null && !busy;
    if ok { p.holder := c; }
  }

  method MutexLeave(c: Sqlite3, p: BtShared, world: set<BtShared>)
    requires p in world && p.holder == c
    modifies world`holder, world`db
    ensures p.holder != c && OnlyOthersBut(c, world, p)
  {
    p.holder := null;
    OthersRun(c, world);
  }

  class Sqlite3 {
    var aDb: seq<Btree?>
    ghost var list: seq<Btree>      // its sharable Btrees, in pNext order

    constructor ()
      ensures aDb == [] && list == []
    {
      aDb, list := [], [];
    }

    // The list is linked, sorted by BtShared address, and all of one connection.
    ghost predicate Linked(world: set<BtShared>)
      reads this, list`pNext
    {
      && (forall i :: 0 <= i < |list| ==> list[i].db == this && list[i].sharable && list[i].pBt in world)
      && (forall i {:trigger list[i].pNext} :: 0 <= i < |list| ==>
          list[i].pNext == if i + 1 < |list| then list[i + 1] else null)
      && (forall i, j :: 0 <= i < j < |list| ==> list[i].pBt.addr < list[j].pBt.addr)
    }

    ghost function View(): (v: seq<V.Btree>)
      reads this, list
      ensures |v| == |list|
      ensures forall i :: 0 <= i < |v| ==> v[i] == V.Btree(list[i].pBt.addr, list[i].locked, list[i].wantToLock)
    {
      ViewOf(list)
    }

    static ghost function ViewOf(bs: seq<Btree>): (v: seq<V.Btree>)
      reads bs
      ensures |v| == |bs|
      ensures forall i :: 0 <= i < |v| ==> v[i] == V.Btree(bs[i].pBt.addr, bs[i].locked, bs[i].wantToLock)
    {
      if bs == [] then []
      else ViewOf(bs[..|bs| - 1]) + [V.Btree(bs[|bs| - 1].pBt.addr, bs[|bs| - 1].locked, bs[|bs| - 1].wantToLock)]
    }

    // locked says whether the connection holds the mutex, and then BtShared.db is the connection.
    ghost predicate Agrees(b: Btree)
      reads b`locked, b.pBt
    {
      (b.locked <==> b.pBt.holder == this) && (b.locked ==> b.pBt.db == this)
    }

    // The connection holds the mutexes of its locked Btrees, and no other.
    ghost predicate AllAgree(world: set<BtShared>)
      reads this, list`locked, set i | 0 <= i < |list| :: list[i].pBt
      reads world`holder
    {
      && (forall i :: 0 <= i < |list| ==> Agrees(list[i]))
      && forall b :: b in world && b.holder == this ==> InList(b)
    }

    ghost predicate InList(b: BtShared)
      reads `list
    {
      exists i :: 0 <= i < |list| && list[i].pBt == b
    }

    // The state between calls.
    ghost predicate Valid(world: set<BtShared>)
      reads this, list, set i | 0 <= i < |list| :: list[i].pBt
      reads world`holder
    {
      Linked(world) && AllAgree(world) && forall i :: 0 <= i < |list| ==> (list[i].locked <==> list[i].wantToLock > 0)
    }
  }

  // Distinct places of the list have distinct Btrees.
  lemma Distinct(c: Sqlite3, world: set<BtShared>, i: nat)
    requires c.Linked(world) && i < |c.list|
    ensures forall k :: 0 <= k < |c.list| && k != i ==> c.list[k] != c.list[i]
  {
    forall k | 0 <= k < |c.list| && k != i ensures c.list[k] != c.list[i] {
      assert i < k || k < i;
    }
  }

  lemma NextOf(c: Sqlite3, world: set<BtShared>, i: nat)
    requires c.Linked(world) && i < |c.list|
    ensures c.list[i].pNext == At(c.list, i + 1)
  {
  }

  ghost function At(list: seq<Btree>, i: nat): Btree? {
    if i < |list| then list[i] else null
  }

  lemma AtPlace(list: seq<Btree>, i: nat)
    ensures if i < |list| then At(list, i) == list[i] else At(list, i) == null
  {
  }

  // Between calls wantToLock decides the view.
  lemma ViewIs(c: Sqlite3, world: set<BtShared>, v: seq<V.Btree>)
    requires c.Valid(world) && |v| == |c.list|
    requires forall k :: 0 <= k < |v| ==>
        v[k] == V.Btree(c.list[k].pBt.addr, c.list[k].wantToLock > 0, c.list[k].wantToLock)
    ensures c.View() == v
  {
    hide Sqlite3.Linked, Sqlite3.AllAgree;
  }

  // With nothing locked from list[i] on, the connection holds only BtShareds at smaller addresses.
  lemma HoldsEarlier(c: Sqlite3, world: set<BtShared>, i: nat)
    requires c.Linked(world) && c.AllAgree(world) && i < |c.list|
    requires forall k :: i <= k < |c.list| ==> !c.list[k].locked
    ensures c.list[i].pBt.holder != c
    ensures forall b :: b in world && b.holder == c ==> b.addr < c.list[i].pBt.addr
  {
    assert c.Agrees(c.list[i]);
    forall b | b in world && b.holder == c ensures b.addr < c.list[i].pBt.addr {
      var k :| 0 <= k < |c.list| && c.list[k].pBt == b;
      assert c.Agrees(c.list[k]);
    }
  }

  // lockBtreeMutex
  method LockBtreeMutex(c: Sqlite3, p: Btree, ghost i: nat, world: set<BtShared>)
    requires c.Linked(world) && c.AllAgree(world) && i < |c.list| && p == c.list[i]
    requires forall k :: i <= k < |c.list| ==> !c.list[k].locked
    modifies p`locked, world`holder, world`db
    ensures p.locked && c.AllAgree(world)
    ensures forall k :: 0 <= k < |c.list| && k != i ==> c.list[k].locked == old(c.list[k].locked)
  {
    Distinct(c, world, i);
    var pBt := p.pBt;
    HoldsEarlier(c, world, i);
    MutexEnter(c, pBt, world);
    pBt.db := p.db;
    p.locked := true;
    Rejoined(c, world, i);
  }

  // unlockBtreeMutex
  method UnlockBtreeMutex(c: Sqlite3, p: Btree, ghost i: nat, world: set<BtShared>)
    requires c.Linked(world) && c.AllAgree(world) && i < |c.list| && p == c.list[i] && p.locked
    modifies p`locked, world`holder, world`db
    ensures !p.locked && c.AllAgree(world)
    ensures forall k :: 0 <= k < |c.list| && k != i ==> c.list[k].locked == old(c.list[k].locked)
  {
    Distinct(c, world, i);
    var pBt := p.pBt;
    MutexLeave(c, pBt, world);
    p.locked := false;
    Rejoined(c, world, i);
  }

  // After a change to list[i] alone, the rest still agrees.
  twostate lemma Rejoined(new c: Sqlite3, new world: set<BtShared>, i: nat)
    requires old(allocated(c)) && old(allocated(world))
    requires old(c.Linked(world)) && old(c.AllAgree(world)) && unchanged(c) && i < |c.list| && c.Agrees(c.list[i])
    requires forall k :: 0 <= k < |c.list| && c.list[k] != c.list[i] ==> c.list[k].locked == old(c.list[k].locked)
    requires OnlyOthersBut(c, world, c.list[i].pBt)
    ensures c.AllAgree(world)
  {
    forall k | 0 <= k < |c.list| && k != i ensures c.Agrees(c.list[k]) {
      assert c.list[k] != c.list[i] && c.list[k].pBt != c.list[i].pBt;
      assert old(c.Agrees(c.list[k]));
    }
    forall b | b in world && b.holder == c ensures c.InList(b) {
      if b != c.list[i].pBt { assert old(c.InList(b)); }
    }
  }

  // The first attempt of btreeLockCarefully.
  method TryLock(c: Sqlite3, p: Btree, ghost i: nat, world: set<BtShared>) returns (ok: bool)
    requires c.Linked(world) && c.AllAgree(world) && i < |c.list| && p == c.list[i] && !p.locked
    modifies p`locked, world`holder, world`db
    ensures c.AllAgree(world) && p.locked == ok
  {
    ok := MutexTry(c, p.pBt, world);
    if ok {
      p.pBt.db := p.db;
      p.locked := true;
    }
    Rejoined(c, world, i);
  }

  lemma IsValid(c: Sqlite3, world: set<BtShared>)
    requires c.Linked(world) && c.AllAgree(world)
    requires forall k :: 0 <= k < |c.list| ==> (c.list[k].locked <==> c.list[k].wantToLock > 0)
    ensures c.Valid(world)
  {
  }

  // btreeLockCarefully
  method BtreeLockCarefully(c: Sqlite3, p: Btree, ghost i: nat, world: set<BtShared>)
    requires c.Linked(world) && c.AllAgree(world) && i < |c.list| && p == c.list[i]
    requires !p.locked && p.wantToLock > 0
    requires forall k :: 0 <= k < |c.list| && k != i ==> (c.list[k].locked <==> c.list[k].wantToLock > 0)
    modifies c.list`locked, world`holder, world`db
    ensures c.Valid(world)
  {
    Distinct(c, world, i);
    hide *;
    var ok := TryLock(c, p, i, world);
    if !ok { LockInOrder(c, p, i, world); }
    IsValid(c, world);
  }

  // The rest of it: let go of the later mutexes, wait for this one, and take the later ones again.
  method LockInOrder(c: Sqlite3, p: Btree, ghost i: nat, world: set<BtShared>)
    requires c.Linked(world) && c.AllAgree(world) && i < |c.list| && p == c.list[i]
    requires !p.locked && p.wantToLock > 0
    requires forall k :: 0 <= k < |c.list| && k != i ==> (c.list[k].locked <==> c.list[k].wantToLock > 0)
    modifies c.list`locked, world`holder, world`db
    ensures c.Linked(world) && c.AllAgree(world)
    ensures forall k :: 0 <= k < |c.list| ==> (c.list[k].locked <==> c.list[k].wantToLock > 0)
  {
    hide Sqlite3.Linked, Sqlite3.AllAgree;
    DropLater(c, p, i, world);
    LockBtreeMutex(c, p, i, world);
    RelockLater(c, p, i, world);
  }

  method DropOne(c: Sqlite3, p: Btree, ghost i: nat, world: set<BtShared>)
    requires c.Linked(world) && c.AllAgree(world) && i < |c.list| && p == c.list[i]
    modifies p`locked, world`holder, world`db
    ensures !p.locked && c.AllAgree(world) && p.pNext == At(c.list, i + 1)
    ensures forall k :: 0 <= k < |c.list| && k != i ==> c.list[k].locked == old(c.list[k].locked)
  {
    NextOf(c, world, i);
    hide Sqlite3.Linked, Sqlite3.AllAgree;
    if p.locked { UnlockBtreeMutex(c, p, i, world); }
  }

  // The first loop of btreeLockCarefully.
  method DropLater(c: Sqlite3, p: Btree, ghost i: nat, world: set<BtShared>)
    requires c.Linked(world) && c.AllAgree(world) && i < |c.list| && p == c.list[i] && !p.locked
    requires forall k :: 0 <= k < i ==> (c.list[k].locked <==> c.list[k].wantToLock > 0)
    modifies c.list`locked, world`holder, world`db
    ensures c.AllAgree(world)
    ensures forall k :: 0 <= k < i ==> (c.list[k].locked <==> c.list[k].wantToLock > 0)
    ensures forall k :: i <= k < |c.list| ==> !c.list[k].locked
  {
    NextOf(c, world, i);
    hide *;
    ghost var list := c.list;
    var pLater := p.pNext;
    ghost var j := i + 1;
    while pLater != null
      invariant i < j <= |list| && pLater == At(list, j)
      invariant c.AllAgree(world)
      invariant forall k :: 0 <= k < i ==> (list[k].locked <==> list[k].wantToLock > 0)
      invariant forall k :: i <= k < j ==> !list[k].locked
      decreases |list| - j
    {
      AtPlace(list, j);
      DropOne(c, pLater, j, world);
      pLater, j := pLater.pNext, j + 1;
    }
    AtPlace(list, j);
  }

  // The wanted Btrees of the list before place j are locked, and none from there on.
  ghost predicate Relocked(list: seq<Btree>, j: nat)
    reads list
  {
    && (forall k :: 0 <= k < j && k < |list| ==> (list[k].locked <==> list[k].wantToLock > 0))
    && forall k :: j <= k < |list| ==> !list[k].locked
  }

  method RelockOne(c: Sqlite3, p: Btree, ghost i: nat, world: set<BtShared>)
    requires c.Linked(world) && c.AllAgree(world) && i < |c.list| && p == c.list[i] && Relocked(c.list, i)
    modifies p`locked, world`holder, world`db
    ensures c.Linked(world) && Relocked(c.list, i + 1) && c.AllAgree(world) && p.pNext == At(c.list, i + 1)
  {
    NextOf(c, world, i);
    hide Sqlite3.Linked, Sqlite3.AllAgree;
    if p.wantToLock > 0 { LockBtreeMutex(c, p, i, world); }
  }

  // The second loop of btreeLockCarefully.
  method RelockLater(c: Sqlite3, p: Btree, ghost i: nat, world: set<BtShared>)
    requires c.Linked(world) && c.AllAgree(world) && i < |c.list| && p == c.list[i]
    requires Relocked(c.list, i + 1)
    modifies c.list`locked, world`holder, world`db
    ensures c.Linked(world) && c.AllAgree(world)
    ensures Relocked(c.list, |c.list|)
  {
    NextOf(c, world, i);
    hide *;
    ghost var list := c.list;
    var pLater := p.pNext;
    ghost var j := i + 1;
    while pLater != null
      invariant i < j <= |list| && pLater == At(list, j)
      invariant c.Linked(world) && c.AllAgree(world) && Relocked(list, j)
      decreases |list| - j
    {
      AtPlace(list, j);
      RelockOne(c, pLater, j, world);
      pLater, j := pLater.pNext, j + 1;
    }
    AtPlace(list, j);
  }

  // sqlite3BtreeEnter
  method BtreeEnter(c: Sqlite3, p: Btree, ghost i: nat, world: set<BtShared>)
    requires c.Valid(world) && p.db == c && (p.sharable ==> i < |c.list| && p == c.list[i])
    modifies c.list`locked, c.list`wantToLock, world`holder, world`db
    ensures c.Valid(world)
    ensures c.View() == if p.sharable then V.Entered(old(c.View()), i) else old(c.View())
  {
    if !p.sharable { return; }
    Distinct(c, world, i);
    ghost var v := V.Entered(c.View(), i);
    hide Sqlite3.Linked, Sqlite3.AllAgree, Sqlite3.ViewOf;
    p.wantToLock := p.wantToLock + 1;
    if !p.locked { BtreeLockCarefully(c, p, i, world); }
    ViewIs(c, world, v);
  }

  // sqlite3BtreeLeave
  method BtreeLeave(c: Sqlite3, p: Btree, ghost i: nat, world: set<BtShared>)
    requires c.Valid(world) && p.db == c && (p.sharable ==> i < |c.list| && p == c.list[i] && p.wantToLock > 0)
    modifies c.list`locked, c.list`wantToLock, world`holder, world`db
    ensures c.Valid(world)
    ensures c.View() == if p.sharable then V.Left(old(c.View()), i) else old(c.View())
  {
    if !p.sharable { return; }
    Distinct(c, world, i);
    ghost var v := V.Left(c.View(), i);
    assert p.locked;
    hide Sqlite3.Linked, Sqlite3.AllAgree, Sqlite3.ViewOf;
    p.wantToLock := p.wantToLock - 1;
    if p.wantToLock == 0 { DropLock(c, p, i, world); }
    ViewIs(c, world, v);
  }

  // The last part of it.
  method DropLock(c: Sqlite3, p: Btree, ghost i: nat, world: set<BtShared>)
    requires c.Linked(world) && c.AllAgree(world) && i < |c.list| && p == c.list[i] && p.locked && p.wantToLock == 0
    requires forall k :: 0 <= k < |c.list| && k != i ==> (c.list[k].locked <==> c.list[k].wantToLock > 0)
    modifies p`locked, world`holder, world`db
    ensures c.Valid(world)
  {
    Distinct(c, world, i);
    hide *;
    UnlockBtreeMutex(c, p, i, world);
    IsValid(c, world);
  }

  /** All databases of a connection. */

  // The Btrees in aDb are the connection's own, the sharable ones being on its list.
  ghost predicate Registered(c: Sqlite3)
    reads c
  {
    forall p: Btree? :: p in c.aDb && p != null ==> p.db == c && (p.sharable ==> p in c.list)
  }

  function Count(aDb: seq<Btree?>, p: Btree): nat {
    if aDb == [] then 0 else Count(aDb[..|aDb| - 1], p) + if aDb[|aDb| - 1] == p then 1 else 0
  }

  lemma {:induction false} CountIn(aDb: seq<Btree?>, p: Btree)
    requires p in aDb
    ensures Count(aDb, p) > 0
  {
    if aDb[|aDb| - 1] != p { CountIn(aDb[..|aDb| - 1], p); }
  }

  lemma CountSnoc(aDb: seq<Btree?>, i: nat, p: Btree)
    requires i < |aDb|
    ensures Count(aDb[..i + 1], p) == Count(aDb[..i], p) + if aDb[i] == p then 1 else 0
  {
    assert aDb[..i + 1][..i] == aDb[..i];
  }

  lemma {:induction false} CountPrefix(aDb: seq<Btree?>, i: nat, p: Btree)
    requires i <= |aDb|
    ensures Count(aDb[..i], p) <= Count(aDb, p)
    decreases |aDb| - i
  {
    if i < |aDb| {
      CountSnoc(aDb, i, p);
      CountPrefix(aDb, i + 1, p);
    } else {
      assert aDb[..i] == aDb;
    }
  }

  // One entry of aDb is entered, if there is one.
  method EnterOne(c: Sqlite3, p: Btree?, world: set<BtShared>)
    requires c.Valid(world) && (p != null ==> p.db == c && (p.sharable ==> p in c.list))
    modifies c.list`locked, c.list`wantToLock, world`holder, world`db
    ensures c.Valid(world)
    ensures forall k :: 0 <= k < |c.list| ==>
              c.list[k].wantToLock == old(c.list[k].wantToLock) + (if p == c.list[k] then 1 else 0)
  {
    if p == null { return; }
    ghost var i := 0;
    if p.sharable {
      i :| 0 <= i < |c.list| && c.list[i] == p;
      Distinct(c, world, i);
    }
    hide Sqlite3.AllAgree, Sqlite3.ViewOf;
    ghost var v := c.View();
    BtreeEnter(c, p, i, world);
    assert |v| == |c.list| && c.View() == if p.sharable then V.Entered(v, i) else v;
    forall k | 0 <= k < |c.list|
        ensures c.View()[k].wantToLock == v[k].wantToLock + (if p == c.list[k] then 1 else 0) {}
  }

  // sqlite3BtreeEnterAll: afterwards the connection holds the mutex of every sharable database.
  method BtreeEnterAll(c: Sqlite3, world: set<BtShared>)
    requires c.Valid(world) && Registered(c)
    modifies c.list`locked, c.list`wantToLock, world`holder, world`db
    ensures c.Valid(world)
    ensures forall k :: 0 <= k < |c.list| ==>
        c.list[k].wantToLock == old(c.list[k].wantToLock) + Count(c.aDb, c.list[k])
    ensures forall p: Btree? :: p in c.aDb && p != null && p.sharable ==> p.locked && p.pBt.holder == c && p.pBt.db == c
  {
    hide Sqlite3.Valid;
    var i := 0;
    while i < |c.aDb|
      invariant 0 <= i <= |c.aDb| && c.Valid(world)
      invariant forall k :: 0 <= k < |c.list| ==>
                  c.list[k].wantToLock == old(c.list[k].wantToLock) + Count(c.aDb[..i], c.list[k])
    {
      EnterOne(c, c.aDb[i], world);
      forall k | 0 <= k < |c.list|
        ensures Count(c.aDb[..i + 1], c.list[k]) == Count(c.aDb[..i], c.list[k]) + if c.aDb[i] == c.list[k] then 1
            else 0
      {
        CountSnoc(c.aDb, i, c.list[k]);
      }
      i := i + 1;
    }
    assert c.aDb[..i] == c.aDb;
    forall p: Btree? | p in c.aDb && p != null && p.sharable ensures p.locked && p.pBt.holder == c && p.pBt.db == c {
      CountIn(c.aDb, p);
      var k :| 0 <= k < |c.list| && c.list[k] == p;
      WantedIsHeld(c, world, k);
    }
  }

  lemma WantedIsHeld(c: Sqlite3, world: set<BtShared>, i: nat)
    requires c.Valid(world) && i < |c.list| && c.list[i].wantToLock > 0
    ensures c.list[i].locked && c.list[i].pBt.holder == c && c.list[i].pBt.db == c
  {
    assert c.Agrees(c.list[i]);
  }

  // One entry of aDb is left, if there is one.
  method LeaveOne(c: Sqlite3, p: Btree?, world: set<BtShared>)
    requires c.Valid(world) && (p != null ==> p.db == c && (p.sharable ==> p in c.list && p.wantToLock > 0))
    modifies c.list`locked, c.list`wantToLock, world`holder, world`db
    ensures c.Valid(world)
    ensures forall k :: 0 <= k < |c.list| ==>
              c.list[k].wantToLock == old(c.list[k].wantToLock) - (if p == c.list[k] then 1 else 0)
  {
    if p == null { return; }
    ghost var i := 0;
    if p.sharable {
      i :| 0 <= i < |c.list| && c.list[i] == p;
      Distinct(c, world, i);
    }
    hide Sqlite3.AllAgree, Sqlite3.ViewOf;
    ghost var v := c.View();
    BtreeLeave(c, p, i, world);
    assert |v| == |c.list| && c.View() == if p.sharable then V.Left(v, i) else v;
    forall k | 0 <= k < |c.list|
        ensures c.View()[k].wantToLock == v[k].wantToLock - (if p == c.list[k] then 1 else 0) {}
  }

  // sqlite3BtreeLeaveAll, after an EnterAll that is not yet left.
  method BtreeLeaveAll(c: Sqlite3, world: set<BtShared>)
    requires c.Valid(world) && Registered(c)
    requires forall k :: 0 <= k < |c.list| ==> c.list[k].wantToLock >= Count(c.aDb, c.list[k])
    modifies c.list`locked, c.list`wantToLock, world`holder, world`db
    ensures c.Valid(world)
    ensures forall k :: 0 <= k < |c.list| ==>
        c.list[k].wantToLock == old(c.list[k].wantToLock) - Count(c.aDb, c.list[k])
  {
    hide Sqlite3.Valid;
    var i := 0;
    while i < |c.aDb|
      invariant 0 <= i <= |c.aDb| && c.Valid(world)
      invariant forall k :: 0 <= k < |c.list| ==>
                  c.list[k].wantToLock == old(c.list[k].wantToLock) - Count(c.aDb[..i], c.list[k])
    {
      forall k | 0 <= k < |c.list|
        ensures Count(c.aDb[..i + 1], c.list[k]) == Count(c.aDb[..i], c.list[k]) + if c.aDb[i] == c.list[k] then 1
            else 0
        ensures Count(c.aDb[..i + 1], c.list[k]) <= Count(c.aDb, c.list[k])
      {
        CountSnoc(c.aDb, i, c.list[k]);
        CountPrefix(c.aDb, i + 1, c.list[k]);
      }
      LeaveOne(c, c.aDb[i], world);
      i := i + 1;
    }
    assert c.aDb[..i] == c.aDb;
  }
}
