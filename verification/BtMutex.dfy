/** The locking protocol of shared Btrees as a state machine over any number of
    connections, one thread each.  A step is one connection taking or dropping
    one BtShared mutex, or moving on in btreeLockCarefully.  A BtShared is named
    by its address. */
module BtMutex {

  // A sharable Btree: the address of its BtShared, and its lock fields.
  datatype Btree = Btree(pBt: nat, locked: bool, wantToLock: nat)

  // Where a connection is in sqlite3BtreeEnter(list[i]).
  datatype Where =
    | Idle                          // in no call
    | Trying(i: nat)                // about to call sqlite3_mutex_try
    | Dropping(i: nat, j: nat)      // unlocking the later Btrees, list[j] next
    | Waiting(i: nat)               // in sqlite3_mutex_enter for list[i]
    | Relocking(i: nat, j: nat)     // taking the later Btrees back, list[j] next

  // A connection and the pNext list of its sharable Btrees.
  datatype Conn = Conn(list: seq<Btree>, pc: Where)

  // What a step does to the mutexes.
  datatype Effect = None | Acquire(pBt: nat) | Release(pBt: nat)

  datatype Call = Enter(i: nat) | Leave(i: nat)

  /** One connection's own steps. */

  predicate Sorted(list: seq<Btree>) {
    forall i, j :: 0 <= i < j < |list| ==> list[i].pBt < list[j].pBt
  }

  predicate Listed(conn: Conn) {
    match conn.pc
    case Idle => true
    case Trying(i) => i < |conn.list|
    case Dropping(i, j) => i < j <= |conn.list|
    case Waiting(i) => i < |conn.list|
    case Relocking(i, j) => i < j <= |conn.list|
  }

  // The BtShared whose mutex the connection has to wait for if another one has it.
  predicate WaitsFor(conn: Conn, a: nat)
    requires Listed(conn)
  {
    match conn.pc
    case Waiting(i) => a == conn.list[i].pBt
    case Relocking(i, j) => j < |conn.list| && conn.list[j].wantToLock > 0 && a == conn.list[j].pBt
    case _ => false
  }

  function SetLocked(list: seq<Btree>, i: nat, locked: bool): seq<Btree>
    requires i < |list|
  {
    list[i := list[i].(locked := locked)]
  }

  function SetWant(list: seq<Btree>, i: nat, want: nat): seq<Btree>
    requires i < |list|
  {
    list[i := list[i].(wantToLock := want)]
  }

  // The lock state when an outermost or nested Enter of list[i] has returned, and after a Leave.

  function Entered(list: seq<Btree>, i: nat): seq<Btree>
    requires i < |list|
  {
    list[i := Btree(list[i].pBt, true, list[i].wantToLock + 1)]
  }

  function Left(list: seq<Btree>, i: nat): seq<Btree>
    requires i < |list| && list[i].wantToLock > 0
  {
    list[i := Btree(list[i].pBt, list[i].wantToLock > 1, list[i].wantToLock - 1)]
  }

  // What the caller of a routine owes it.
  predicate MayCall(conn: Conn, call: Call) {
    && conn.pc == Idle && call.i < |conn.list|
    && (call.Leave? ==> conn.list[call.i].wantToLock > 0)
  }

  // The start of sqlite3BtreeEnter, and the whole of sqlite3BtreeLeave.
  function Begin(conn: Conn, call: Call): (Conn, Effect)
    requires MayCall(conn, call)
  {
    var i, b := call.i, conn.list[call.i];
    if call.Enter? then
      (Conn(SetWant(conn.list, i, b.wantToLock + 1), if b.locked then Idle else Trying(i)), None)
    else
      var list := SetWant(conn.list, i, b.wantToLock - 1);
      if b.wantToLock == 1 then (Conn(SetLocked(list, i, false), Idle), Release(b.pBt)) else (Conn(list, Idle), None)
  }

  // A step inside btreeLockCarefully; got is the answer of sqlite3_mutex_try.
  function Continue(conn: Conn, got: bool): (Conn, Effect)
    requires Listed(conn) && conn.pc != Idle
  {
    var list := conn.list;
    match conn.pc
    case Trying(i) =>
      if got then (Conn(SetLocked(list, i, true), Idle), Acquire(list[i].pBt))
          else (Conn(list, Dropping(i, i + 1)), None)
    case Dropping(i, j) =>
      if j == |list| then (Conn(list, Waiting(i)), None)
      else if list[j].locked then (Conn(SetLocked(list, j, false), Dropping(i, j + 1)), Release(list[j].pBt))
      else (Conn(list, Dropping(i, j + 1)), None)
    case Waiting(i) =>
      (Conn(SetLocked(list, i, true), Relocking(i, i + 1)), Acquire(list[i].pBt))
    case Relocking(i, j) =>
      if j == |list| then (Conn(list, Idle), None)
      else if list[j].wantToLock > 0 then (Conn(SetLocked(list, j, true), Relocking(i, j + 1)), Acquire(list[j].pBt))
      else (Conn(list, Relocking(i, j + 1)), None)
  }

  /** All connections, the holders of the mutexes, and the db fields of the BtShareds. */

  datatype World = World(conns: seq<Conn>, owner: map<nat, nat>, db: map<nat, nat>)

  datatype Event =
    | Calls(c: nat, call: Call)
    | Goes(c: nat, busy: bool)    // busy: sqlite3_mutex_try fails even if the mutex is free

  // Connection c is blocked in sqlite3_mutex_enter.
  predicate Blocked(w: World, c: nat)
    requires c < |w.conns| && Listed(w.conns[c])
  {
    exists a :: WaitsFor(w.conns[c], a) && a in w.owner
  }

  predicate Enabled(w: World, e: Event) {
    && e.c < |w.conns| && Listed(w.conns[e.c])
    && match e
       case Calls(c, call) => MayCall(w.conns[c], call)
       case Goes(c, busy) => w.conns[c].pc != Idle && !Blocked(w, c)
  }

  function Outcome(w: World, e: Event): (Conn, Effect)
    requires Enabled(w, e)
  {
    var conn := w.conns[e.c];
    match e
    case Calls(c, call) => Begin(conn, call)
    case Goes(c, busy) => Continue(conn, conn.pc.Trying? && !busy && conn.list[conn.pc.i].pBt !in w.owner)
  }

  function Next(w: World, e: Event): World
    requires Enabled(w, e)
  {
    var (conn, effect) := Outcome(w, e);
    var conns := w.conns[e.c := conn];
    match effect
    case None => World(conns, w.owner, w.db)
    case Acquire(a) => World(conns, w.owner[a := e.c], w.db[a := e.c])
    case Release(a) => World(conns, w.owner - {a}, w.db)
  }

  predicate Init(w: World) {
    && w.owner == map[]
    && forall c :: 0 <= c < |w.conns| ==>
         && w.conns[c].pc == Idle && Sorted(w.conns[c].list)
         && forall i :: 0 <= i < |w.conns[c].list| ==> w.conns[c].list[i] == Btree(w.conns[c].list[i].pBt, false, 0)
  }

  ghost predicate Run(w: World, es: seq<Event>, w': World)
    decreases |es|
  {
    if es == [] then w == w' else Enabled(w, es[0]) && Run(Next(w, es[0]), es[1..], w')
  }

  /** The invariant. */

  // Between calls a Btree is locked exactly when it is wanted.
  predicate Settled(b: Btree) {
    b.locked <==> b.wantToLock > 0
  }

  predicate Unlocked(list: seq<Btree>, lo: nat, hi: nat)
    requires lo <= hi <= |list|
  {
    forall k :: lo <= k < hi ==> !list[k].locked
  }

  predicate AllSettled(list: seq<Btree>, lo: nat, hi: nat)
    requires lo <= hi <= |list|
  {
    forall k :: lo <= k < hi ==> Settled(list[k])
  }

  // The shape of a connection at each point of a call.
  predicate Shape(conn: Conn) {
    var list, n := conn.list, |conn.list|;
    && Sorted(list) && Listed(conn)
    && match conn.pc
       case Idle => AllSettled(list, 0, n)
       case Trying(i) => AllSettled(list, 0, i) && !list[i].locked && list[i].wantToLock == 1
           && AllSettled(list, i + 1, n)
       case Dropping(i, j) =>
         && AllSettled(list, 0, i) && Unlocked(list, i, j) && list[i].wantToLock == 1 && AllSettled(list, j, n)
       case Waiting(i) => AllSettled(list, 0, i) && Unlocked(list, i, n) && list[i].wantToLock == 1
       case Relocking(i, j) => AllSettled(list, 0, j) && Unlocked(list, j, n)
  }

  // The BtShareds whose mutexes the connection holds.
  function Held(list: seq<Btree>): set<nat> {
    set i | 0 <= i < |list| && list[i].locked :: list[i].pBt
  }

  function Changed(held: set<nat>, effect: Effect): set<nat> {
    match effect
    case None => held
    case Acquire(a) => held + {a}
    case Release(a) => held - {a}
  }

  // A mutex has the owner that counts itself its holder, and db names that owner.
  ghost predicate Owned(w: World) {
    && (forall c, a :: 0 <= c < |w.conns| ==> (a in Held(w.conns[c].list) <==> a in w.owner && w.owner[a] == c))
    && (forall a :: a in w.owner ==> w.owner[a] < |w.conns| && a in w.db && w.db[a] == w.owner[a])
  }

  ghost predicate Inv(w: World) {
    Owned(w) && forall c :: 0 <= c < |w.conns| ==> Shape(w.conns[c])
  }

  lemma LockedIsHeld(list: seq<Btree>, i: nat)
    requires Sorted(list) && i < |list|
    ensures list[i].pBt in Held(list) <==> list[i].locked
  {
  }

  lemma HeldAfter(list: seq<Btree>, i: nat, b: Btree)
    requires Sorted(list) && i < |list| && b.pBt == list[i].pBt
    ensures Sorted(list[i := b])
    ensures Held(list[i := b]) == if b.locked then Held(list) + {b.pBt} else Held(list) - {b.pBt}
  {
    var list' := list[i := b];
    var held := if b.locked then Held(list) + {b.pBt} else Held(list) - {b.pBt};
    forall a ensures a in Held(list') <==> a in held {
      if a in held && a != b.pBt {
        var k :| 0 <= k < |list| && list[k].locked && list[k].pBt == a;
        assert list'[k].locked && list'[k].pBt == a;
      }
      if a == b.pBt { assert list'[i].pBt == a; LockedIsHeld(list', i); }
      if a in Held(list') && a != b.pBt {
        var k :| 0 <= k < |list'| && list'[k].locked && list'[k].pBt == a;
        assert list[k].locked && list[k].pBt == a;
      }
    }
  }

  // A call keeps the shape, and the effect says what happens to the mutexes held.
  lemma BeginKeeps(conn: Conn, call: Call)
    requires Shape(conn) && MayCall(conn, call)
    ensures var (conn', effect) := Begin(conn, call);
            && Shape(conn') && Held(conn'.list) == Changed(Held(conn.list), effect)
            && (effect.Release? ==> effect.pBt in Held(conn.list)) && !effect.Acquire?
  {
    hide Held;
    var i := call.i;
    var (conn', effect) := Begin(conn, call);
    HeldAfter(conn.list, i, conn'.list[i]);
    HeldAfter(conn.list, i, conn.list[i]);
    LockedIsHeld(conn.list, i);
    assert conn.list[i := conn.list[i]] == conn.list;
    assert conn'.list == conn.list[i := conn'.list[i]];
  }

  lemma ContinueShape(conn: Conn, got: bool)
    requires Shape(conn) && conn.pc != Idle
    ensures Shape(Continue(conn, got).0)
  {
    hide WaitsFor;
    var list', pc' := Continue(conn, got).0.list, Continue(conn, got).0.pc;
    assert Sorted(list');
    if pc'.Idle? { assert conn.pc.Trying? || conn.pc.Relocking?; }
  }

  lemma ContinueHeld(conn: Conn, got: bool)
    requires Shape(conn) && conn.pc != Idle
    ensures var (conn', effect) := Continue(conn, got);
            && Held(conn'.list) == Changed(Held(conn.list), effect)
            && (effect.Release? ==> effect.pBt in Held(conn.list))
            && (effect.Acquire? ==> effect.pBt !in Held(conn.list))
            && (effect.Acquire? ==>
                  WaitsFor(conn, effect.pBt) || (got && conn.pc.Trying? && effect.pBt == conn.list[conn.pc.i].pBt))
  {
    hide Held;
    var list' := Continue(conn, got).0.list;
    match conn.pc
    case Trying(i) => HeldAfter(conn.list, i, list'[i]); LockedIsHeld(conn.list, i);
    case Dropping(i, j) =>
      if j < |conn.list| { HeldAfter(conn.list, j, list'[j]); LockedIsHeld(conn.list, j); }
    case Waiting(i) => HeldAfter(conn.list, i, list'[i]); LockedIsHeld(conn.list, i);
    case Relocking(i, j) =>
      if j < |conn.list| { HeldAfter(conn.list, j, list'[j]); LockedIsHeld(conn.list, j); }
  }

  // A step that takes a mutex finds it free.
  lemma TakesFree(w: World, e: Event)
    requires Inv(w) && Enabled(w, e)
    ensures var (conn, effect) := Outcome(w, e);
            && Shape(conn) && Held(conn.list) == Changed(Held(w.conns[e.c].list), effect)
            && (effect.Release? ==> effect.pBt in Held(w.conns[e.c].list))
            && (effect.Acquire? ==> effect.pBt !in w.owner)
  {
    var conn := w.conns[e.c];
    match e {
      case Calls(c, call) => BeginKeeps(conn, call);
      case Goes(c, busy) =>
        var got := conn.pc.Trying? && !busy && conn.list[conn.pc.i].pBt !in w.owner;
        ContinueShape(conn, got);
        ContinueHeld(conn, got);
    }
    hide Begin, Continue, Held, Shape, WaitsFor;
  }

  /** Every step of every connection keeps the invariant. */
  lemma {:induction false} NextKeeps(w: World, e: Event)
    requires Inv(w) && Enabled(w, e)
    ensures Inv(Next(w, e))
  {
    hide Outcome, Held, Shape, Listed, MayCall, Blocked;
    TakesFree(w, e);
    var w' := Next(w, e);
    var (conn, effect) := Outcome(w, e);
    assert w'.conns == w.conns[e.c := conn];
  }

  lemma InitHolds(w: World)
    requires Init(w)
    ensures Inv(w)
  {
  }

  lemma {:induction false} RunKeeps(w: World, es: seq<Event>, w': World)
    requires Inv(w) && Run(w, es, w')
    ensures Inv(w')
    decreases |es|
  {
    hide Inv, Next, Enabled;
    if es != [] {
      NextKeeps(w, es[0]);
      RunKeeps(Next(w, es[0]), es[1..], w');
    }
  }
}
