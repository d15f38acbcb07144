/** When a token sequence is a sequence of finished SQL statements, and the
    eight-state machine that decides it. */
module CompleteStates {

  datatype Token = SEMI | WS | OTHER | EXPLAIN | CREATE | TEMP | TRIGGER | END

  type Tokens = seq<Token>

  // The columns of the transition table.
  function Column(t: Token): (c: nat)
    ensures c < 8
  {
    match t
    case SEMI => 0
    case WS => 1
    case OTHER => 2
    case EXPLAIN => 3
    case CREATE => 4
    case TEMP => 5
    case TRIGGER => 6
    case END => 7
  }

  const INVALID := 0
  const START := 1

  // The table trans of sqlite3_complete
  function Trans(state: nat, t: Token): (next: nat)
    requires state < 8
    ensures next < 8
  {
    var row := match state
      case 0 => [1, 0, 2, 3, 4, 2, 2, 2]
      case 1 => [1, 1, 2, 3, 4, 2, 2, 2]
      case 2 => [1, 2, 2, 2, 2, 2, 2, 2]
      case 3 => [1, 3, 3, 2, 4, 2, 2, 2]
      case 4 => [1, 4, 2, 2, 2, 4, 5, 2]
      case 5 => [6, 5, 5, 5, 5, 5, 5, 5]
      case 6 => [6, 6, 5, 5, 5, 5, 5, 7]
      case _ => [1, 7, 5, 5, 5, 5, 5, 5];
    row[Column(t)]
  }

  function Run(state: nat, ts: Tokens): (r: nat)
    requires state < 8
    ensures r < 8
  {
    if ts == [] then state else Trans(Run(state, ts[..|ts| - 1]), ts[|ts| - 1])
  }

  /** The specification: statements as token sequences without whitespace. */

  predicate AllAre(ts: Tokens, t: Token) {
    forall i :: 0 <= i < |ts| ==> ts[i] == t
  }

  predicate NoneIs(ts: Tokens, t: Token) {
    forall i :: 0 <= i < |ts| ==> ts[i] != t
  }

  // EXPLAIN OTHER*
  predicate IsExplain(ts: Tokens) {
    |ts| > 0 && ts[0] == EXPLAIN && AllAre(ts[1..], OTHER)
  }

  // [EXPLAIN OTHER*] CREATE TEMP*, the first e tokens being the optional part
  predicate IsCreateAt(ts: Tokens, e: nat) {
    e < |ts| && (e == 0 || IsExplain(ts[..e])) && ts[e] == CREATE && AllAre(ts[e + 1..], TEMP)
  }

  predicate IsCreate(ts: Tokens) {
    exists e :: 0 <= e < |ts| && IsCreateAt(ts, e)
  }

  // The first n tokens are [EXPLAIN OTHER*] CREATE TEMP* TRIGGER.
  predicate OpensTrigger(ts: Tokens, n: nat) {
    1 <= n <= |ts| && ts[n - 1] == TRIGGER && IsCreate(ts[..n - 1])
  }

  predicate IsTrigger(ts: Tokens) {
    exists n :: 1 <= n <= |ts| && OpensTrigger(ts, n)
  }

  // SEMI END SEMI stands at place k.
  predicate EndsAt(ts: Tokens, k: nat) {
    k + 3 <= |ts| && ts[k] == SEMI && ts[k + 1] == END && ts[k + 2] == SEMI
  }

  // The body of a trigger ends with its first SEMI END SEMI.
  predicate TriggerBody(ts: Tokens) {
    |ts| >= 3 && EndsAt(ts, |ts| - 3) && forall k :: 0 <= k < |ts| - 3 ==> !EndsAt(ts, k)
  }

  /** A finished statement: a trigger ends with the first SEMI END SEMI after TRIGGER, any other with its first SEMI. */
  predicate Finished(ts: Tokens) {
    if IsTrigger(ts) then exists n :: 1 <= n <= |ts| && OpensTrigger(ts, n) && TriggerBody(ts[n..])
    else |ts| > 0 && ts[|ts| - 1] == SEMI && NoneIs(ts[..|ts| - 1], SEMI)
  }

  /** A nonempty sequence of finished statements. */
  predicate Statements(ts: Tokens)
    decreases |ts|
  {
    exists n :: 1 <= n <= |ts| && Finished(ts[..n]) && (n == |ts| || Statements(ts[n..]))
  }

  function Strip(ts: Tokens): Tokens {
    if ts == [] then []
    else Strip(ts[..|ts| - 1]) + if ts[|ts| - 1] == WS then [] else [ts[|ts| - 1]]
  }

  /** What each state of the machine knows of the tokens since the last statement. */

  predicate NoWs(ts: Tokens) {
    NoneIs(ts, WS)
  }

  // No statement has ended in these tokens.
  predicate Live(ts: Tokens) {
    forall k :: 0 < k <= |ts| ==> Run(START, ts[..k]) != START
  }

  // How the body of a trigger stands.
  predicate BodyAt(b: Tokens, r: nat) {
    && (forall k :: 0 <= k < |b| ==> !EndsAt(b, k))
    && (r == 6 <==> |b| >= 1 && b[|b| - 1] == SEMI)
    && (r == 7 <==> |b| >= 2 && b[|b| - 2] == SEMI && b[|b| - 1] == END)
  }

  predicate Bodies(ts: Tokens, r: nat) {
    forall n :: 1 <= n <= |ts| && OpensTrigger(ts, n) ==> BodyAt(ts[n..], r)
  }

  predicate Tracks(ts: Tokens, r: nat) {
    && (r == 3 <==> IsExplain(ts)) && (r == 4 <==> IsCreate(ts)) && (r >= 5 <==> IsTrigger(ts))
    && (r < 5 ==> NoneIs(ts, SEMI)) && Bodies(ts, r)
  }

  lemma RunSnoc(state: nat, ts: Tokens, t: Token)
    requires state < 8
    ensures Run(state, ts + [t]) == Trans(Run(state, ts), t)
  {
    assert (ts + [t])[..|ts|] == ts;
  }

  lemma ExplainSnoc(v: Tokens, t: Token)
    ensures IsExplain(v + [t]) <==> (v == [] && t == EXPLAIN) || (IsExplain(v) && t == OTHER)
  {
    var u := v + [t];
    if v != [] {
      var x, y := u[1..], v[1..];
      assert x == y + [t];
      assert x[|y|] == t && forall i :: 0 <= i < |y| ==> x[i] == y[i];
    }
  }

  lemma CreateSnoc(v: Tokens, t: Token)
    ensures IsCreate(v + [t]) <==> (t == CREATE && (v == [] || IsExplain(v))) || (IsCreate(v) && t == TEMP)
  {
    hide IsExplain;
    var u := v + [t];
    if t == CREATE && (v == [] || IsExplain(v)) {
      assert u[..|v|] == v && u[|v| + 1..] == [];
      assert IsCreateAt(u, |v|);
    }
    if IsCreate(v) && t == TEMP {
      var e :| 0 <= e < |v| && IsCreateAt(v, e);
      assert u[..e] == v[..e] && u[e + 1..] == v[e + 1..] + [t];
      assert IsCreateAt(u, e);
    }
    if IsCreate(u) {
      var e :| 0 <= e < |u| && IsCreateAt(u, e);
      if e < |v| {
        var x, y := u[e + 1..], v[e + 1..];
        assert u[..e] == v[..e] && x == y + [t];
        assert x[|y|] == t && forall i :: 0 <= i < |y| ==> x[i] == y[i];
        assert IsCreateAt(v, e);
      } else {
        assert u[..e] == v;
      }
    }
  }

  lemma OpensSnoc(v: Tokens, t: Token, n: nat)
    requires 1 <= n <= |v| + 1
    ensures OpensTrigger(v + [t], n) <==> if n <= |v| then OpensTrigger(v, n) else t == TRIGGER && IsCreate(v)
  {
    hide IsCreate;
    assert (v + [t])[..n - 1] == v[..n - 1];
  }

  lemma TriggerSnoc(v: Tokens, t: Token)
    ensures IsTrigger(v + [t]) <==> IsTrigger(v) || (t == TRIGGER && IsCreate(v))
  {
    hide OpensTrigger, IsCreate;
    var u := v + [t];
    OpensSnoc(v, t, |u|);
    if IsTrigger(v) {
      var n :| 1 <= n <= |v| && OpensTrigger(v, n);
      OpensSnoc(v, t, n);
      assert OpensTrigger(u, n);
    }
    if IsTrigger(u) {
      var n :| 1 <= n <= |u| && OpensTrigger(u, n);
      OpensSnoc(v, t, n);
    }
  }

  lemma BodySnoc(b: Tokens, r: nat, t: Token)
    requires 5 <= r < 8 && BodyAt(b, r) && t != WS && Trans(r, t) != START
    ensures BodyAt(b + [t], Trans(r, t))
  {
    var c := b + [t];
    forall k | 0 <= k < |c| ensures !EndsAt(c, k) {
      if k + 3 <= |b| { assert !EndsAt(b, k); }
    }
  }

  lemma TracksSnoc(v: Tokens, r: nat, t: Token)
    requires v != [] && 2 <= r < 8 && Tracks(v, r) && t != WS && Trans(r, t) != START
    ensures Tracks(v + [t], Trans(r, t))
  {
    var u, r' := v + [t], Trans(r, t);
    ExplainSnoc(v, t);
    CreateSnoc(v, t);
    TriggerSnoc(v, t);
    hide IsExplain, IsCreate, IsTrigger, EndsAt;
    assert r' < 5 ==> r < 5 && t != SEMI;
    assert Bodies(u, r') by {
      forall n | 1 <= n <= |u| && OpensTrigger(u, n) ensures BodyAt(u[n..], r') {
        OpensSnoc(v, t, n);
        if n <= |v| {
          hide OpensTrigger;
          assert u[n..] == v[n..] + [t];
          OpenIsTrigger(v, n);
          assert BodyAt(v[n..], r);
          BodySnoc(v[n..], r, t);
        } else {
          assert u[n..] == [];
        }
      }
    }
  }

  lemma OpenIsTrigger(ts: Tokens, n: nat)
    requires 1 <= n <= |ts| && OpensTrigger(ts, n)
    ensures IsTrigger(ts)
  {
    hide OpensTrigger;
  }

  lemma TracksOne(t: Token)
    requires t != WS && t != SEMI
    ensures Tracks([t], Trans(START, t))
  {
    ExplainSnoc([], t);
    CreateSnoc([], t);
    TriggerSnoc([], t);
    assert [] + [t] == [t];
    assert !IsExplain([]) && !IsCreate([]) && !IsTrigger([]);
    hide IsExplain, IsCreate, IsTrigger;
    forall n | 1 <= n <= 1 && OpensTrigger([t], n) ensures false {
      OpenIsTrigger([t], n);
    }
  }

  /** Until a statement ends, the state says exactly which of the openings the tokens are, and how a trigger body
      stands. */
  lemma {:induction false} Track(ts: Tokens)
    requires ts != [] && NoWs(ts) && Live(ts)
    ensures 2 <= Run(START, ts) < 8 && Tracks(ts, Run(START, ts))
  {
    var n := |ts| - 1;
    var v, t := ts[..n], ts[n];
    assert ts == v + [t] && ts[..|ts|] == ts;
    RunSnoc(START, v, t);
    assert Live(v) by { forall k | 0 < k <= |v| ensures Run(START, v[..k]) != START { assert v[..k] == ts[..k]; } }
    hide Tracks, Trans, Live;
    assert Run(START, ts) != START by { LiveEnd(ts); }
    assert Run(START, []) == START;
    if v == [] {
      NotSemi(t);
      TracksOne(t);
      StateRange(START, t);
    } else {
      Track(v);
      TracksSnoc(v, Run(START, v), t);
      StateRange(Run(START, v), t);
    }
  }

  lemma LiveEnd(ts: Tokens)
    requires Live(ts) && ts != []
    ensures Run(START, ts) != START
  {
    assert ts[..|ts|] == ts;
  }

  lemma NotSemi(t: Token)
    requires Trans(START, t) != START
    ensures t != SEMI
  {
  }

  // Only whitespace keeps the machine in its first two states.
  lemma StateRange(state: nat, t: Token)
    requires 1 <= state < 8 && t != WS
    ensures Trans(state, t) == START || Trans(state, t) >= 2
  {
  }

  /** The machine comes back to START for the first time exactly when a statement is finished. */

  lemma BodyFinishes(b: Tokens, r: nat, t: Token)
    requires 5 <= r < 8 && BodyAt(b, r)
    ensures TriggerBody(b + [t]) <==> r == 7 && t == SEMI
  {
    var c := b + [t];
    if r == 7 && t == SEMI {
      assert EndsAt(c, |c| - 3);
      forall k | 0 <= k < |c| - 3 ensures !EndsAt(c, k) { assert !EndsAt(b, k); }
    }
  }

  lemma TriggerReturns(v: Tokens, r: nat, t: Token)
    requires 5 <= r < 8 && Bodies(v, r) && IsTrigger(v)
    ensures Finished(v + [t]) <==> r == 7 && t == SEMI
  {
    var u := v + [t];
    TriggerSnoc(v, t);
    hide IsExplain, IsCreate, EndsAt, BodyAt, TriggerBody, OpensTrigger;
    forall n | 1 <= n <= |u| && OpensTrigger(u, n) ensures TriggerBody(u[n..]) <==> r == 7 && t == SEMI && n <= |v| {
      OpensSnoc(v, t, n);
      if n <= |v| {
        assert u[n..] == v[n..] + [t];
        BodyFinishes(v[n..], r, t);
      } else {
        assert u[n..] == [];
        ShortBody(u[n..]);
      }
    }
    var n :| 1 <= n <= |v| && OpensTrigger(v, n);
    OpensSnoc(v, t, n);
    assert OpensTrigger(u, n);
  }

  lemma ShortBody(b: Tokens)
    requires |b| < 3
    ensures !TriggerBody(b)
  {
  }

  lemma PlainReturns(v: Tokens, r: nat, t: Token)
    requires v != [] && 2 <= r < 5 && Tracks(v, r)
    ensures Finished(v + [t]) <==> t == SEMI
  {
    var u := v + [t];
    TriggerSnoc(v, t);
    hide IsExplain, IsCreate, EndsAt, OpensTrigger, Bodies;
    assert u[..|u| - 1] == v && NoneIs(v, SEMI);
    if IsTrigger(u) {
      forall n | 1 <= n <= |u| && OpensTrigger(u, n) ensures !TriggerBody(u[n..]) {
        OpensSnoc(v, t, n);
        if n <= |v| { OpenIsTrigger(v, n); }
        ShortBody(u[n..]);
      }
    }
  }

  lemma {:induction false} FirstReturn(ts: Tokens)
    requires ts != [] && NoWs(ts) && Live(ts[..|ts| - 1])
    ensures Run(START, ts) == START <==> Finished(ts)
  {
    var n := |ts| - 1;
    var v, t := ts[..n], ts[n];
    assert ts == v + [t];
    RunSnoc(START, v, t);
    if v == [] {
      assert ts == [t] && ts[..0] == [];
      TriggerSnoc([], t);
      assert [] + [t] == ts && !IsTrigger([]) && !IsCreate([]);
      hide IsTrigger, IsCreate;
    } else {
      Track(v);
      hide Tracks, Finished, Run, Live;
      var r := Run(START, v);
      TrackedTrigger(v, r);
      if r >= 5 { TriggerReturns(v, r, t); } else { PlainReturns(v, r, t); }
      hide IsTrigger;
    }
  }

  lemma TrackedTrigger(v: Tokens, r: nat)
    requires Tracks(v, r)
    ensures (r >= 5 <==> IsTrigger(v)) && Bodies(v, r)
  {
  }

  /** No finished statement is a proper prefix of another. */

  lemma CreateTokens(ts: Tokens)
    requires IsCreate(ts)
    ensures NoneIs(ts, SEMI) && NoneIs(ts, TRIGGER)
  {
    var e :| 0 <= e < |ts| && IsCreateAt(ts, e);
    forall i | 0 <= i < |ts| ensures ts[i] != SEMI && ts[i] != TRIGGER {
      if i < e {
        assert ts[i] == ts[..e][i];
        assert i > 0 ==> ts[..e][1..][i - 1] == OTHER;
      } else if i > e {
        assert ts[e + 1..][i - e - 1] == TEMP;
      }
    }
  }

  lemma OpensPrefix(ts: Tokens, k: nat, n: nat)
    requires 1 <= n <= k <= |ts|
    ensures OpensTrigger(ts[..k], n) <==> OpensTrigger(ts, n)
  {
    assert ts[..k][..n - 1] == ts[..n - 1];
  }

  // Before its TRIGGER a trigger statement has no other one, and no SEMI.
  lemma OpeningTokens(ts: Tokens, n: nat, j: nat)
    requires 1 <= n <= |ts| && OpensTrigger(ts, n) && j < n - 1
    ensures ts[j] != SEMI && ts[j] != TRIGGER
  {
    CreateTokens(ts[..n - 1]);
    assert ts[j] == ts[..n - 1][j];
  }

  lemma OpensUnique(ts: Tokens, n: nat, m: nat)
    requires 1 <= n <= |ts| && 1 <= m <= |ts| && OpensTrigger(ts, n) && OpensTrigger(ts, m)
    ensures n == m
  {
    if n < m {
      OpeningTokens(ts, m, n - 1);
    } else if m < n {
      OpeningTokens(ts, n, m - 1);
    }
  }

  lemma PlainPrefix(ts: Tokens, k: nat)
    requires 0 < k < |ts| && Finished(ts[..k]) && !IsTrigger(ts[..k])
    ensures !Finished(ts)
  {
    assert ts[k - 1] == ts[..k][k - 1] == ts[..|ts| - 1][k - 1] == SEMI;
    hide IsCreate;
    forall n | 1 <= n <= |ts| ensures !OpensTrigger(ts, n) {
      if n <= k {
        OpensPrefix(ts, k, n);
      } else if OpensTrigger(ts, n) {
        OpeningTokens(ts, n, k - 1);
      }
    }
  }

  lemma TriggerPrefix(ts: Tokens, k: nat)
    requires 0 < k < |ts| && Finished(ts[..k]) && IsTrigger(ts[..k])
    ensures !Finished(ts)
  {
    hide IsCreate;
    var n :| 1 <= n <= k && OpensTrigger(ts[..k], n) && TriggerBody(ts[..k][n..]);
    OpensPrefix(ts, k, n);
    var b, c := ts[..k][n..], ts[n..];
    assert EndsAt(b, |b| - 3) && c[..|b|] == b;
    assert EndsAt(c, |b| - 3);
    forall m | 1 <= m <= |ts| && OpensTrigger(ts, m) ensures m == n { OpensUnique(ts, m, n); }
    OpenIsTrigger(ts, n);
    assert |b| - 3 < |c| - 3;
    hide OpensTrigger, EndsAt;
    assert !TriggerBody(c);
  }

  lemma {:induction false} FinishedIsLive(ts: Tokens)
    requires NoWs(ts) && Finished(ts)
    ensures ts != [] && Live(ts[..|ts| - 1])
  {
    assert ts != [] by { hide IsCreate; }
    var v := ts[..|ts| - 1];
    if !Live(v) {
      var k := Return(v);
      assert v[..k] == ts[..k] && ts[..k][..k - 1] == v[..k - 1];
      assert NoWs(ts[..k]);
      FirstReturn(ts[..k]);
      hide Finished, IsTrigger;
      if IsTrigger(ts[..k]) { TriggerPrefix(ts, k); } else { PlainPrefix(ts, k); }
    }
  }

  // The first return of tokens that have one.
  lemma {:induction false} Return(ts: Tokens) returns (k: nat)
    requires !Live(ts)
    ensures 0 < k <= |ts| && Run(START, ts[..k]) == START && Live(ts[..k - 1])
  {
    k := 1;
    assert ts[..|ts|] == ts;
    while Run(START, ts[..k]) != START
      invariant 0 < k <= |ts| && Live(ts[..k - 1])
      decreases |ts| - k
    {
      assert Live(ts[..k]) by {
        forall j | 0 < j <= k ensures Run(START, ts[..k][..j]) != START {
          assert ts[..k][..j] == ts[..j];
          if j < k { assert ts[..k - 1][..j] == ts[..j]; }
        }
      }
      k := k + 1;
    }
  }

  lemma {:induction false} RunSplit(state: nat, x: Tokens, y: Tokens)
    requires state < 8
    ensures Run(state, x + y) == Run(Run(state, x), y)
  {
    hide Trans;
    if y == [] {
      assert x + y == x;
    } else {
      var n := |y| - 1;
      assert (x + y)[..|x| + n] == x + y[..n];
      RunSplit(state, x, y[..n]);
    }
  }

  // The first statement of tokens that bring the machine back.
  lemma FirstStatement(ts: Tokens) returns (k: nat)
    requires NoWs(ts) && ts != [] && Run(START, ts) == START
    ensures 0 < k <= |ts| && Finished(ts[..k]) && Run(START, ts[k..]) == START
  {
    hide Finished;
    assert ts[..|ts|] == ts;
    k := Return(ts);
    hide Run, Live;
    assert ts[..k][..k - 1] == ts[..k - 1] && NoWs(ts[..k]);
    FirstReturn(ts[..k]);
    assert ts == ts[..k] + ts[k..];
    RunSplit(START, ts[..k], ts[k..]);
  }

  // After a finished statement the machine is back.
  lemma AfterStatement(ts: Tokens, n: nat)
    requires NoWs(ts) && 0 < n <= |ts| && Finished(ts[..n])
    ensures Run(START, ts) == Run(START, ts[n..])
  {
    hide Finished, Run, Live;
    assert NoWs(ts[..n]);
    FinishedIsLive(ts[..n]);
    FirstReturn(ts[..n]);
    assert ts == ts[..n] + ts[n..];
    RunSplit(START, ts[..n], ts[n..]);
  }

  /** From the start of a statement the machine ends in START exactly on sequences of finished statements. */
  lemma {:induction false} StartDecides(ts: Tokens)
    requires NoWs(ts)
    ensures Run(START, ts) == START <==> ts == [] || Statements(ts)
    decreases |ts|
  {
    hide Finished;
    if ts != [] {
      if Run(START, ts) == START {
        var k := FirstStatement(ts);
        hide Run;
        StartDecides(ts[k..]);
        assert k < |ts| ==> ts[k..] != [];
      }
      if Statements(ts) {
        hide Run;
        var n :| 1 <= n <= |ts| && Finished(ts[..n]) && (n == |ts| || Statements(ts[n..]));
        AfterStatement(ts, n);
        StartDecides(ts[n..]);
      }
    }
  }

  lemma {:induction false} InvalidIsStart(ts: Tokens)
    requires ts != [] && NoWs(ts)
    ensures Run(INVALID, ts) == Run(START, ts)
  {
    if |ts| > 1 { InvalidIsStart(ts[..|ts| - 1]); }
  }

  lemma WsKeeps(state: nat)
    requires state < 8
    ensures Trans(state, WS) == state
  {
  }

  lemma {:induction false} WhitespaceIgnored(state: nat, ts: Tokens)
    requires state < 8
    ensures Run(state, ts) == Run(state, Strip(ts)) && NoWs(Strip(ts))
  {
    hide Trans;
    if ts != [] {
      var n := |ts| - 1;
      WhitespaceIgnored(state, ts[..n]);
      if ts[n] == WS {
        WsKeeps(Run(state, ts[..n]));
        assert Strip(ts) == Strip(ts[..n]);
      } else {
        RunSnoc(state, Strip(ts[..n]), ts[n]);
      }
    }
  }

  /** The machine accepts exactly the nonempty sequences of finished statements. */
  lemma {:induction false} MachineDecides(ts: Tokens)
    ensures Run(INVALID, ts) == START <==> Statements(Strip(ts))
  {
    WhitespaceIgnored(INVALID, ts);
    var u := Strip(ts);
    if u == [] {
      assert Run(INVALID, u) == INVALID;
    } else {
      InvalidIsStart(u);
      StartDecides(u);
    }
    hide Run, Strip, Finished;
  }
}
