/** What every run of the locking protocol guarantees: one holder per BtShared,
    no deadlock, a bound on the steps of a call, and the lock state that calls
    leave behind. */
module BtMutexRuns {
  import opened BtMutex

  /** Mutual exclusion: in every reachable state a BtShared has at most one locked Btree, and names its connection. */
  lemma {:induction false} OneLocked(w0: World, es: seq<Event>, w: World, c: nat, i: nat, d: nat, j: nat)
    requires Init(w0) && Run(w0, es, w) && c < |w.conns| && d < |w.conns|
    requires i < |w.conns[c].list| && j < |w.conns[d].list|
    requires w.conns[c].list[i].locked && w.conns[d].list[j].locked
    requires w.conns[c].list[i].pBt == w.conns[d].list[j].pBt
    ensures c == d && i == j
    ensures var a := w.conns[c].list[i].pBt; a in w.db && w.db[a] == c
  {
    InitHolds(w0);
    RunKeeps(w0, es, w);
    assert Shape(w.conns[c]) && Shape(w.conns[d]);
    LockedIsHeld(w.conns[c].list, i);
    LockedIsHeld(w.conns[d].list, j);
    hide Held, Run, Init;
    assert w.owner[w.conns[c].list[i].pBt] == c == d;
    assert Sorted(w.conns[c].list);
  }

  // What the assertions of the locking routines say at a step.
  ghost predicate Asserts(w: World, e: Event)
    requires Enabled(w, e)
  {
    var conn := w.conns[e.c];
    match e
    case Calls(c, call) =>
      var b := conn.list[call.i];
      && (call.i + 1 < |conn.list| ==> b.pBt < conn.list[call.i + 1].pBt)
      && (b.locked ==> b.wantToLock > 0 && b.pBt in w.db && w.db[b.pBt] == c)
      && (call.Leave? && b.wantToLock == 1 ==> b.locked && b.pBt in w.owner && w.owner[b.pBt] == c)
    case Goes(c, busy) =>
      match conn.pc
      case Trying(i) => !conn.list[i].locked
      case Waiting(i) => !conn.list[i].locked && conn.list[i].pBt !in Held(conn.list)
      case Dropping(i, j) =>
        j < |conn.list| && conn.list[j].locked ==>
          var a := conn.list[j].pBt;
          conn.list[j].wantToLock > 0 && a in w.owner && w.owner[a] == c && a in w.db && w.db[a] == c
      case Relocking(i, j) => j < |conn.list| ==> !conn.list[j].locked && conn.list[j].pBt !in Held(conn.list)
      case _ => true
  }

  /** No assertion of the locking routines ever fails. */
  lemma {:induction false} AssertsHold(w: World, e: Event)
    requires Inv(w) && Enabled(w, e)
    ensures Asserts(w, e)
  {
    var list := w.conns[e.c].list;
    assert Shape(w.conns[e.c]);
    forall k | 0 <= k < |list| ensures list[k].pBt in Held(list) <==> list[k].locked { LockedIsHeld(list, k); }
    hide Held, Blocked;
  }

  /** Deadlock freedom. */

  /** Whoever waits holds only BtShareds at smaller addresses. */
  lemma {:induction false} HoldsSmaller(conn: Conn, a: nat, b: nat)
    requires Shape(conn) && WaitsFor(conn, a) && b in Held(conn.list)
    ensures b < a
  {
    var k :| 0 <= k < |conn.list| && conn.list[k].locked && conn.list[k].pBt == b;
  }

  // Connection c is blocked on a mutex that d holds.
  ghost predicate WaitsOn(w: World, c: nat, d: nat) {
    && c < |w.conns| && Listed(w.conns[c])
    && exists a :: WaitsFor(w.conns[c], a) && a in w.owner && w.owner[a] == d
  }

  ghost predicate WaitChain(w: World, cs: seq<nat>) {
    |cs| > 0 && forall k :: 0 <= k < |cs| - 1 ==> WaitsOn(w, cs[k], cs[k + 1])
  }

  function Waited(w: World, c: nat): nat
    requires c < |w.conns| && Listed(w.conns[c])
  {
    match w.conns[c].pc
    case Waiting(i) => w.conns[c].list[i].pBt
    case Relocking(i, j) => if j < |w.conns[c].list| then w.conns[c].list[j].pBt else 0
    case _ => 0
  }

  lemma WaitsUp(w: World, c: nat, d: nat, e: nat)
    requires Inv(w) && WaitsOn(w, c, d) && WaitsOn(w, d, e)
    ensures Waited(w, c) < Waited(w, d)
  {
    hide Held;
    var a :| WaitsFor(w.conns[c], a) && a in w.owner && w.owner[a] == d;
    var b :| WaitsFor(w.conns[d], b) && b in w.owner && w.owner[b] == e;
    HoldsSmaller(w.conns[d], b, a);
  }

  // Along a chain of waiting connections the awaited addresses go up.
  lemma {:induction false} ChainGoesUp(w: World, cs: seq<nat>, d: nat)
    requires Inv(w) && WaitChain(w, cs) && |cs| >= 2 && WaitsOn(w, cs[|cs| - 1], d)
    ensures cs[0] < |w.conns| && Listed(w.conns[cs[0]])
    ensures Waited(w, cs[0]) < Waited(w, cs[|cs| - 1])
  {
    hide Inv, WaitsOn, Waited;
    var n := |cs| - 1;
    assert WaitsOn(w, cs[n - 1], cs[n]);
    WaitsUp(w, cs[n - 1], cs[n], d);
    if n >= 2 { ChainGoesUp(w, cs[..n], cs[n]); }
    assert WaitsOn(w, cs[0], cs[1]);
    Waiter(w, cs[0], cs[1]);
  }

  lemma Waiter(w: World, c: nat, d: nat)
    requires WaitsOn(w, c, d)
    ensures c < |w.conns| && Listed(w.conns[c])
  {
  }

  /** No deadlock: in no reachable state is there a cycle of connections waiting for each other. */
  lemma {:induction false} NoDeadlock(w0: World, es: seq<Event>, w: World, cs: seq<nat>)
    requires Init(w0) && Run(w0, es, w) && |cs| >= 2 && WaitChain(w, cs)
    ensures cs[0] != cs[|cs| - 1]
  {
    InitHolds(w0);
    RunKeeps(w0, es, w);
    hide Inv, WaitsOn, Waited, Run, Init;
    if cs[0] == cs[|cs| - 1] {
      assert WaitsOn(w, cs[0], cs[1]);
      ChainGoesUp(w, cs, cs[1]);
    }
  }

  // The owned BtShareds at or above address a.
  function OwnedFrom(w: World, a: nat): set<nat> {
    set b | b in w.owner && b >= a
  }

  /** Every blocked connection waits, directly or through others, for one that holds a mutex and is not blocked. */
  lemma {:induction false} SomeoneRuns(w: World, c: nat) returns (cs: seq<nat>)
    requires Inv(w) && c < |w.conns| && Listed(w.conns[c]) && Blocked(w, c)
    ensures |cs| >= 2 && cs[0] == c && WaitChain(w, cs)
    ensures var d := cs[|cs| - 1]; d < |w.conns| && Listed(w.conns[d]) && !Blocked(w, d) && Held(w.conns[d].list) != {}
    decreases |OwnedFrom(w, Waited(w, c))|
  {
    hide Held;
    var a :| WaitsFor(w.conns[c], a) && a in w.owner;
    var d := w.owner[a];
    assert WaitsOn(w, c, d) && a in Held(w.conns[d].list);
    assert Shape(w.conns[d]);
    if !Blocked(w, d) { return [c, d]; }
    var b :| WaitsFor(w.conns[d], b) && b in w.owner;
    HoldsSmaller(w.conns[d], b, a);
    assert OwnedFrom(w, b) <= OwnedFrom(w, a) - {a};
    Smaller(OwnedFrom(w, b), OwnedFrom(w, a), a);
    var rest := SomeoneRuns(w, d);
    cs := [c] + rest;
    hide *;
    forall k | 0 <= k < |cs| - 1 ensures WaitsOn(w, cs[k], cs[k + 1]) {
      if k > 0 { assert WaitsOn(w, rest[k - 1], rest[k]); }
    }
  }

  lemma Smaller(x: set<nat>, y: set<nat>, a: nat)
    requires a in y && x <= y - {a}
    ensures |x| < |y|
  {
    if y - {a} - x == {} {
      assert x == y - {a};
    } else {
      Subset(x, y - {a});
    }
  }

  lemma {:induction false} Subset(x: set<nat>, y: set<nat>)
    requires x <= y
    ensures |x| <= |y|
  {
    if x != {} {
      var a :| a in x;
      Subset(x - {a}, y - {a});
    }
  }

  /** A call takes at most 2n+2 steps of its own, n being the length of the list. */

  // Steps left in the current call.
  function Rank(conn: Conn): nat
    requires Listed(conn)
  {
    var n := |conn.list|;
    match conn.pc
    case Idle => 0
    case Trying(i) => 2 * (n - i) + 2
    case Dropping(i, j) => n - j + n - i + 2
    case Waiting(i) => n - i + 1
    case Relocking(i, j) => n - j + 1
  }

  function StepsOf(es: seq<Event>, c: nat): nat {
    if es == [] then 0 else (if es[0].c == c then 1 else 0) + StepsOf(es[1..], c)
  }

  lemma RankDrops(w: World, e: Event)
    requires Inv(w) && Enabled(w, e) && e.Goes?
    ensures Shape(Next(w, e).conns[e.c]) && Rank(Next(w, e).conns[e.c]) < Rank(w.conns[e.c])
  {
    NextKeeps(w, e);
    hide Held;
  }

  lemma {:induction false} CallIsShort(w: World, es: seq<Event>, w': World, c: nat)
    requires Inv(w) && Run(w, es, w') && c < |w.conns| && Listed(w.conns[c])
    requires forall e :: e in es && e.c == c ==> e.Goes?
    ensures StepsOf(es, c) <= Rank(w.conns[c]) <= 2 * |w.conns[c].list| + 2
    decreases |es|
  {
    if es != [] {
      var v := Next(w, es[0]);
      NextKeeps(w, es[0]);
      if es[0].c == c { RankDrops(w, es[0]); }
      assert Shape(v.conns[c]) && (es[0].c != c ==> v.conns[c] == w.conns[c]);
      assert |v.conns| == |w.conns|;
      hide Rank, Next, Inv, Enabled, Shape;
      CallIsShort(v, es[1..], w', c);
    }
  }

  /** The lock state that calls leave behind. */

  // The calls connection c makes in a run.
  function CallsOf(es: seq<Event>, c: nat): seq<Call> {
    if es == [] then []
    else (if es[0].c == c && es[0].Calls? then [es[0].call] else []) + CallsOf(es[1..], c)
  }

  // How many more times Btree i is entered than left.
  function Net(calls: seq<Call>, i: nat): int {
    if calls == [] then 0
    else (if calls[0].i != i then 0 else if calls[0].Enter? then 1 else -1) + Net(calls[1..], i)
  }

  lemma NextWants(w: World, e: Event, c: nat, i: nat)
    requires Enabled(w, e) && c < |w.conns| && i < |w.conns[c].list|
    ensures var v := Next(w, e);
            && |v.conns| == |w.conns| && |v.conns[c].list| == |w.conns[c].list|
            && v.conns[c].list[i].pBt == w.conns[c].list[i].pBt
            && v.conns[c].list[i].wantToLock == w.conns[c].list[i].wantToLock + Net(CallsOf([e], c), i)
  {
    assert CallsOf([e][1..], c) == [];
    assert CallsOf([e], c) == if e.c == c && e.Calls? then [e.call] else [];
    if e.c == c && e.Calls? { assert [e.call][1..] == []; }
  }

  lemma CallsCons(es: seq<Event>, c: nat)
    requires es != []
    ensures CallsOf(es, c) == CallsOf([es[0]], c) + CallsOf(es[1..], c)
  {
    assert CallsOf([es[0]][1..], c) == [];
  }

  // wantToLock counts the calls, whatever the others do.
  lemma {:induction false} RunWants(w: World, es: seq<Event>, w': World, c: nat, i: nat)
    requires Run(w, es, w') && c < |w.conns| && i < |w.conns[c].list|
    ensures |w'.conns| == |w.conns| && |w'.conns[c].list| == |w.conns[c].list|
    ensures w'.conns[c].list[i].pBt == w.conns[c].list[i].pBt
    ensures w'.conns[c].list[i].wantToLock == w.conns[c].list[i].wantToLock + Net(CallsOf(es, c), i)
    decreases |es|
  {
    if es != [] {
      var v := Next(w, es[0]);
      NextWants(w, es[0], c, i);
      CallsCons(es, c);
      hide Next, Enabled, CallsOf, Net;
      RunWants(v, es[1..], w', c, i);
      NetSum(CallsOf([es[0]], c), CallsOf(es[1..], c), i);
    }
  }

  lemma {:induction false} NetSum(x: seq<Call>, y: seq<Call>, i: nat)
    ensures Net(x + y, i) == Net(x, i) + Net(y, i)
  {
    if x == [] {
      assert x + y == y;
    } else {
      assert (x + y)[1..] == x[1..] + y;
      NetSum(x[1..], y, i);
    }
  }

  /** Between calls the whole lock state is decided by the calls made: each Btree is locked if and only if it was
      entered more often than left, however the other connections interleave and whatever was dropped on the way. */
  lemma {:induction false} StateAfterRun(w: World, es: seq<Event>, w': World, c: nat, i: nat)
    requires Inv(w) && Run(w, es, w') && c < |w.conns| && i < |w.conns[c].list| && c < |w'.conns|
        && w'.conns[c].pc == Idle
    ensures i < |w'.conns[c].list|
    ensures var want := w.conns[c].list[i].wantToLock + Net(CallsOf(es, c), i);
            want >= 0 && w'.conns[c].list[i] == Btree(w.conns[c].list[i].pBt, want > 0, want)
  {
    RunKeeps(w, es, w');
    RunWants(w, es, w', c, i);
    assert Shape(w'.conns[c]);
    hide Run, Net, CallsOf;
  }

  lemma SettledBetweenCalls(conn: Conn, i: nat)
    requires Shape(conn) && conn.pc == Idle && i < |conn.list|
    ensures Settled(conn.list[i])
  {
  }

  /** Balanced calls give back the initial lock state. */
  lemma {:induction false} BalancedRestores(w: World, es: seq<Event>, w': World, c: nat)
    requires Inv(w) && Run(w, es, w') && c < |w.conns| && c < |w'.conns|
    requires w.conns[c].pc == Idle && w'.conns[c].pc == Idle
    requires forall i: nat :: i < |w.conns[c].list| ==> Net(CallsOf(es, c), i) == 0
    ensures w'.conns[c] == w.conns[c]
  {
    var list, list' := w.conns[c].list, w'.conns[c].list;
    RunLists(w, es, w', c);
    hide Run, Net, CallsOf, Owned, Shape;
    forall i: nat | i < |list| ensures list'[i] == list[i] {
      StateAfterRun(w, es, w', c, i);
      SettledBetweenCalls(w.conns[c], i);
    }
    assert list' == list;
  }

  lemma {:induction false} RunLists(w: World, es: seq<Event>, w': World, c: nat)
    requires Run(w, es, w') && c < |w.conns|
    ensures |w'.conns| == |w.conns| && |w'.conns[c].list| == |w.conns[c].list|
    decreases |es|
  {
    if es != [] { RunLists(Next(w, es[0]), es[1..], w', c); }
  }

  lemma EnterLeavesBehind(w: World, es: seq<Event>, w': World, c: nat, i: nat, k: nat)
    requires Inv(w) && Run(w, es, w') && c < |w.conns| && i < |w.conns[c].list| && k < |w.conns[c].list|
        && c < |w'.conns|
    requires w.conns[c].pc == Idle && w'.conns[c].pc == Idle && CallsOf(es, c) == [Enter(i)]
    ensures k < |w'.conns[c].list|
    ensures var b := w.conns[c].list[k];
            w'.conns[c].list[k] == if k == i then Btree(b.pBt, true, b.wantToLock + 1) else b
  {
    assert Net([Enter(i)], k) == if k == i then 1 else 0 by { assert [Enter(i)][1..] == []; }
    hide Run, Net, CallsOf, Owned, Shape;
    StateAfterRun(w, es, w', c, k);
    SettledBetweenCalls(w.conns[c], k);
  }

  /** Enter takes every later lock it dropped while backing off again: on its return only list[i] has changed. */
  lemma {:induction false} EnterRestoresLater(w: World, es: seq<Event>, w': World, c: nat, i: nat)
    requires Inv(w) && Run(w, es, w') && c < |w.conns| && i < |w.conns[c].list| && c < |w'.conns|
    requires w.conns[c].pc == Idle && w'.conns[c].pc == Idle && CallsOf(es, c) == [Enter(i)]
    ensures w'.conns[c].list == Entered(w.conns[c].list, i)
  {
    RunLists(w, es, w', c);
    hide Inv, Run, CallsOf;
    var list, list' := w.conns[c].list, w'.conns[c].list;
    forall k: nat | k < |list| ensures list'[k] == Entered(list, i)[k] {
      EnterLeavesBehind(w, es, w', c, i, k);
    }
  }

  /** sqlite3BtreeEnterAll and LeaveAll, over the sharable entries of db->aDb in any order. */

  function EnterAll(aDb: seq<nat>): seq<Call> {
    if aDb == [] then [] else [Enter(aDb[0])] + EnterAll(aDb[1..])
  }

  function LeaveAll(aDb: seq<nat>): seq<Call> {
    if aDb == [] then [] else [Leave(aDb[0])] + LeaveAll(aDb[1..])
  }

  lemma {:induction false} AllBalanced(aDb: seq<nat>, i: nat)
    ensures Net(EnterAll(aDb), i) + Net(LeaveAll(aDb), i) == 0
    ensures Net(EnterAll(aDb), i) >= 0
    ensures i in aDb ==> Net(EnterAll(aDb), i) > 0
  {
    if aDb != [] {
      assert EnterAll(aDb)[1..] == EnterAll(aDb[1..]);
      assert LeaveAll(aDb)[1..] == LeaveAll(aDb[1..]);
      AllBalanced(aDb[1..], i);
    }
  }

  /** After EnterAll the connection holds the mutex of every listed Btree. */
  lemma {:induction false} EnterAllHolds(w: World, es: seq<Event>, w': World, c: nat, aDb: seq<nat>, i: nat)
    requires Inv(w) && Run(w, es, w') && c < |w.conns| && c < |w'.conns| && w'.conns[c].pc == Idle
    requires CallsOf(es, c) == EnterAll(aDb) && i in aDb && i < |w.conns[c].list|
    ensures i < |w'.conns[c].list| && w'.conns[c].list[i].locked
    ensures var a := w'.conns[c].list[i].pBt; a in w'.owner && w'.owner[a] == c && a in w'.db && w'.db[a] == c
  {
    hide Run, Net, CallsOf, EnterAll, Held;
    AllBalanced(aDb, i);
    StateAfterRun(w, es, w', c, i);
    RunKeeps(w, es, w');
    assert Shape(w'.conns[c]);
    LockedIsHeld(w'.conns[c].list, i);
  }

  /** EnterAll, anything balanced, LeaveAll: the initial lock state is back. */
  lemma {:induction false} AllNestRestores(w: World, es: seq<Event>, w': World, c: nat, aDb: seq<nat>,
      between: seq<Call>)
    requires Inv(w) && Run(w, es, w') && c < |w.conns| && c < |w'.conns|
    requires w.conns[c].pc == Idle && w'.conns[c].pc == Idle
    requires CallsOf(es, c) == EnterAll(aDb) + between + LeaveAll(aDb)
    requires forall i: nat :: i < |w.conns[c].list| ==> Net(between, i) == 0
    ensures w'.conns[c] == w.conns[c]
  {
    forall i: nat | i < |w.conns[c].list| ensures Net(CallsOf(es, c), i) == 0 {
      AllBalanced(aDb, i);
      NetSum(EnterAll(aDb) + between, LeaveAll(aDb), i);
      NetSum(EnterAll(aDb), between, i);
    }
    BalancedRestores(w, es, w', c);
  }
}
