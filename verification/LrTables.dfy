/** The tables of the generated parser, how an action is found in them, and
    when they agree with a grammar.  The numbers in the tables are parameters;
    the sizes and codes are those of the SQL parser. */
module LrTables {
  import opened Wrappers

  const YYWILDCARD := 96
  const NTERMINAL := 144          // tokens are 0..143, nonterminals come after
  const YYNRULE := 332
  const YY_MAX_SHIFT := 459
  const YY_MIN_SHIFTREDUCE := 672
  const YY_MAX_SHIFTREDUCE := 1003
  const YY_MIN_REDUCE := 1004
  const YY_MAX_REDUCE := 1335
  const YY_ERROR_ACTION := 1336
  const YY_ACCEPT_ACTION := 1337
  const YY_ACTTAB_COUNT := 1570
  const YY_SHIFT_COUNT := 459
  const YY_SHIFT_MIN := -94
  const YY_REDUCE_COUNT := 328

  datatype RuleInfo = RuleInfo(lhs: nat, nrhs: nat)

  datatype Tables = Tables(
    action: seq<nat>, lookahead: seq<nat>, shiftOfst: seq<int>, reduceOfst: seq<int>, dflt: seq<nat>,
    fallback: seq<nat>, ruleInfo: seq<RuleInfo>)

  predicate Sized(t: Tables) {
    && |t.action| == YY_ACTTAB_COUNT && |t.lookahead| == YY_ACTTAB_COUNT
    && |t.shiftOfst| == YY_SHIFT_COUNT + 1 && |t.dflt| == YY_SHIFT_COUNT + 1
    && |t.reduceOfst| == YY_REDUCE_COUNT + 1 && |t.ruleInfo| == YYNRULE
    && (forall q :: 0 <= q < |t.shiftOfst| ==> t.shiftOfst[q] >= YY_SHIFT_MIN)
    && |t.fallback| <= NTERMINAL && (|t.fallback| > 0 ==> t.fallback[0] == 0)
    && (forall k :: 0 <= k < |t.fallback| ==> t.fallback[k] < |t.fallback| && t.fallback[t.fallback[k]] == 0)
  }

  // The entry for symbol x in the row that starts at offset ofst, if there is one.
  function Entry(t: Tables, ofst: int, x: nat): Option<nat>
    requires Sized(t)
  {
    if 0 <= ofst + x < YY_ACTTAB_COUNT && t.lookahead[ofst + x] == x then Some(t.action[ofst + x]) else None
  }

  function Fallback(t: Tables, a: nat): nat {
    if a < |t.fallback| then t.fallback[a] else 0
  }

  // What yy_find_shift_action looks up for token a in state q.
  function ShiftAction(t: Tables, q: nat, a: nat): nat
    requires Sized(t) && q <= YY_SHIFT_COUNT
    decreases if Fallback(t, a) != 0 then 1 else 0
  {
    var row := t.shiftOfst[q];
    match Entry(t, row, a)
    case Some(act) => act
    case None =>
      if Fallback(t, a) != 0 then ShiftAction(t, q, Fallback(t, a))
      else if a > 0 && Entry(t, row, YYWILDCARD).Some? then Entry(t, row, YYWILDCARD).value
      else t.dflt[q]
  }

  // The row of state q lists symbol x.
  predicate Lists(t: Tables, q: nat, x: nat)
    requires Sized(t) && q <= YY_SHIFT_COUNT
  {
    var i := t.shiftOfst[q] + x;
    0 <= i < YY_ACTTAB_COUNT && t.lookahead[i] == x
  }

  predicate HasFallback(t: Tables, a: nat) {
    a < |t.fallback| && t.fallback[a] != 0
  }

  // The action of state q on token a: its own entry comes first, then that of its fallback, then the wildcard's, then
  // the default.
  predicate Chosen(t: Tables, q: nat, a: nat, act: nat)
    requires Sized(t) && q <= YY_SHIFT_COUNT
  {
    var row, fall := t.shiftOfst[q], HasFallback(t, a);
    var wild := Lists(t, q, YYWILDCARD) && a > 0;
    && (Lists(t, q, a) ==> act == t.action[row + a])
    && (!Lists(t, q, a) && fall && Lists(t, q, t.fallback[a]) ==> act == t.action[row + t.fallback[a]])
    && (!Lists(t, q, a) && !(fall && Lists(t, q, t.fallback[a])) && wild ==> act == t.action[row + YYWILDCARD])
    && (!Lists(t, q, a) && !(fall && Lists(t, q, t.fallback[a])) && !wild ==> act == t.dflt[q])
  }

  lemma {:induction false} LookupOrder(t: Tables, q: nat, a: nat)
    requires Sized(t) && q <= YY_SHIFT_COUNT
    ensures Chosen(t, q, a, ShiftAction(t, q, a))
    decreases if HasFallback(t, a) then 1 else 0
  {
    if !Lists(t, q, a) && HasFallback(t, a) {
      var f := t.fallback[a];
      assert !HasFallback(t, f) && f > 0;
      LookupOrder(t, q, f);
    }
  }

  // Token a may be taken for terminal x of the grammar.
  predicate TakenFor(t: Tables, a: nat, x: nat) {
    x == a || (x == Fallback(t, a) && x != 0) || (x == YYWILDCARD && a > 0)
  }

  /** An action found for a token is the state's default, or the entry of a terminal the token may be taken for. */
  lemma {:induction false} ActionSource(t: Tables, q: nat, a: nat) returns (x: Option<nat>)
    requires Sized(t) && q <= YY_SHIFT_COUNT
    ensures x.None? ==> ShiftAction(t, q, a) == t.dflt[q]
    ensures x.Some? ==> TakenFor(t, a, x.value) && Entry(t, t.shiftOfst[q], x.value) == Some(ShiftAction(t, q, a))
    decreases if Fallback(t, a) != 0 then 1 else 0
  {
    var row := t.shiftOfst[q];
    if Entry(t, row, a).Some? {
      x := Some(a);
    } else if Fallback(t, a) != 0 {
      x := ActionSource(t, q, Fallback(t, a));
    } else if a > 0 && Entry(t, row, YYWILDCARD).Some? {
      x := Some(YYWILDCARD);
    } else {
      x := None;
    }
  }

  /** The grammar.  A place on a right-hand side admits any symbol of a set, since a rule may list alternative tokens.
      Unit rules in the set optimized are never reduced: their right-hand side stays on the stack in their place. */

  datatype Rule = Rule(lhs: nat, rhs: seq<set<nat>>)

  datatype Grammar = Grammar(rules: seq<Rule>, start: nat, optimized: set<nat>)

  // By the rules numbered in chain, each optimized out, symbol m stands for symbol x.
  predicate Chain(g: Grammar, chain: seq<nat>, m: nat, x: nat) {
    if chain == [] then m == x
    else
      && chain[0] in g.optimized && chain[0] < |g.rules| && g.rules[chain[0]].lhs == x
      && exists y :: y in Alternatives(g, chain[0]) && Chain(g, chain[1..], m, y)
  }

  function Alternatives(g: Grammar, r: nat): set<nat>
    requires r < |g.rules|
  {
    if |g.rules[r].rhs| == 1 then g.rules[r].rhs[0] else {}
  }

  ghost predicate StandsIn(g: Grammar, m: nat, place: set<nat>) {
    exists chain, x :: x in place && Chain(g, chain, m, x)
  }

  /** Consistency: every state has the items it may be in the middle of. */

  // Rule number rule, matched up to its first dot symbols.
  datatype Item = Item(rule: nat, dot: nat)

  type ItemSets = seq<set<Item>>

  predicate IsItem(g: Grammar, it: Item) {
    it.rule < |g.rules| && it.dot <= |g.rules[it.rule].rhs|
  }

  // A number on the stack is a state, or a rule to be reduced at once.
  predicate IsState(q: nat) {
    q <= YY_MAX_SHIFT || YY_MIN_REDUCE <= q <= YY_MAX_REDUCE
  }

  function Items(g: Grammar, items: ItemSets, q: nat): set<Item>
    requires |g.rules| == YYNRULE && |items| == YY_SHIFT_COUNT + 1 && IsState(q)
  {
    if q <= YY_MAX_SHIFT then items[q] else {Item(q - YY_MIN_REDUCE, |g.rules[q - YY_MIN_REDUCE].rhs|)}
  }

  // What a shift action puts on the stack.
  function NewState(act: nat): nat
    requires act <= YY_MAX_SHIFT || YY_MIN_SHIFTREDUCE <= act <= YY_MAX_SHIFTREDUCE
  {
    if act > YY_MAX_SHIFT then act + (YY_MIN_REDUCE - YY_MIN_SHIFTREDUCE) else act
  }

  // Rule r is complete in state q, and is one that is reduced.
  predicate MayReduce(g: Grammar, items: ItemSets, q: nat, r: nat)
    requires |g.rules| == YYNRULE && |items| == YY_SHIFT_COUNT + 1 && IsState(q)
  {
    r < YYNRULE && r !in g.optimized && Item(r, |g.rules[r].rhs|) in Items(g, items, q)
  }

  // Rule r may be reduced as soon as its last symbol is shifted.
  predicate ReducedAtOnce(g: Grammar, r: nat)
    requires r < |g.rules|
  {
    |g.rules[r].rhs| > 0 && r !in g.optimized && g.rules[r].lhs != g.start
  }

  // Act is a proper shift, and each item it leads to was one place earlier in state q, the place admitting ok.
  ghost predicate ShiftOk(g: Grammar, items: ItemSets, q: nat, act: nat, ok: set<nat> -> bool)
    requires |g.rules| == YYNRULE && |items| == YY_SHIFT_COUNT + 1 && q <= YY_MAX_SHIFT
  {
    && (1 <= act <= YY_MAX_SHIFT || YY_MIN_SHIFTREDUCE <= act <= YY_MAX_SHIFTREDUCE)
    && (act > YY_MAX_SHIFT ==> ReducedAtOnce(g, act - YY_MIN_SHIFTREDUCE))
    && (forall it :: it in Items(g, items, NewState(act)) && it.dot > 0 ==>
          IsItem(g, it) && Item(it.rule, it.dot - 1) in items[q] && ok(g.rules[it.rule].rhs[it.dot - 1]))
  }

  // The action of state q on terminal x.
  ghost predicate TokenOk(g: Grammar, items: ItemSets, q: nat, x: nat, act: nat)
    requires |g.rules| == YYNRULE && |items| == YY_SHIFT_COUNT + 1 && q <= YY_MAX_SHIFT
  {
    if act <= YY_MAX_SHIFTREDUCE then x != 0 && ShiftOk(g, items, q, act, place => x in place)
    else ReduceOk(g, items, q, x == 0, act)
  }

  // A start rule is reduced at the end of the input only.
  ghost predicate ReduceOk(g: Grammar, items: ItemSets, q: nat, atEnd: bool, act: nat)
    requires |g.rules| == YYNRULE && |items| == YY_SHIFT_COUNT + 1 && IsState(q)
  {
    || act == YY_ERROR_ACTION
    || (YY_MIN_REDUCE <= act <= YY_MAX_REDUCE && MayReduce(g, items, q, act - YY_MIN_REDUCE)
        && (g.rules[act - YY_MIN_REDUCE].lhs == g.start ==> atEnd))
  }

  // The action of state q after a reduction to nonterminal a.
  ghost predicate GotoOk(t: Tables, g: Grammar, items: ItemSets, q: nat, a: nat)
    requires Sized(t) && |g.rules| == YYNRULE && |items| == YY_SHIFT_COUNT + 1 && q <= YY_MAX_SHIFT
  {
    && q <= YY_REDUCE_COUNT && Entry(t, t.reduceOfst[q], a).Some?
    && var act := Entry(t, t.reduceOfst[q], a).value;
       if act == YY_ACCEPT_ACTION then q == 0 && a == g.start
       else a != g.start && ShiftOk(g, items, q, act, place => StandsIn(g, a, place))
  }

  ghost predicate RulesAgree(t: Tables, g: Grammar)
    requires Sized(t)
  {
    && |g.rules| == YYNRULE
    && forall r :: 0 <= r < YYNRULE ==> t.ruleInfo[r] == RuleInfo(g.rules[r].lhs, |g.rules[r].rhs|)
  }

  /** The tables, the grammar and the item sets fit together, state by state. */
  ghost predicate Consistent(t: Tables, g: Grammar, items: ItemSets) {
    && Sized(t) && RulesAgree(t, g) && |items| == YY_SHIFT_COUNT + 1
    && (forall q, it :: 0 <= q <= YY_MAX_SHIFT && it in items[q] ==> IsItem(g, it))
    && (forall it :: it in items[0] ==> it.dot == 0)
    && (forall q, x: nat :: 0 <= q <= YY_MAX_SHIFT && x < NTERMINAL && Entry(t, t.shiftOfst[q], x).Some? ==>
          TokenOk(g, items, q, x, Entry(t, t.shiftOfst[q], x).value))
    && (forall q :: 0 <= q <= YY_MAX_SHIFT ==> ReduceOk(g, items, q, false, t.dflt[q]))
    && (forall q, r :: 0 <= q <= YY_MAX_SHIFT && 0 <= r < YYNRULE && r !in g.optimized && Item(r, 0) in items[q] ==>
          GotoOk(t, g, items, q, g.rules[r].lhs))
  }
}
