/** The shift-reduce driver over parser states as values, and the theorem that
    what it accepts is derivable. */
module LrDriver {
  import opened LrTables
  import opened Wrappers
  import opened LrForest

  const YYSTACKDEPTH := 100

  // Beside the stack: the tokens shifted since it was last empty, the number of error messages, and the accepted
  // inputs.
  datatype Parser = Parser(stack: seq<StackEntry>, shifted: seq<nat>, errors: nat, accepted: seq<seq<nat>>)

  const START := Parser([StackEntry(0, 0)], [], 0, [])

  datatype Lr = Lr(t: Tables, g: Grammar, items: ItemSets)

  // yyStackOverflow
  function Overflow(p: Parser): Parser
    requires |p.stack| > 0
  {
    p.(stack := p.stack[..1], shifted := [], errors := p.errors + 1)
  }

  // yy_shift
  function Shift(p: Parser, act: nat, major: nat): Parser
    requires |p.stack| > 0 && (act <= YY_MAX_SHIFT || YY_MIN_SHIFTREDUCE <= act <= YY_MAX_SHIFTREDUCE)
  {
    if |p.stack| >= YYSTACKDEPTH then Overflow(p)
    else p.(stack := p.stack + [StackEntry(NewState(act), major)], shifted := p.shifted + [major])
  }

  // What yy_find_reduce_action asserts.
  predicate HasGoto(t: Tables, q: nat, a: nat)
    requires Sized(t)
  {
    q <= YY_REDUCE_COUNT && Entry(t, t.reduceOfst[q], a).Some?
  }

  function ReduceAction(t: Tables, q: nat, a: nat): nat
    requires Sized(t) && HasGoto(t, q, a)
  {
    Entry(t, t.reduceOfst[q], a).value
  }

  // What yy_reduce and yy_accept assert about rule r.
  predicate CanReduce(t: Tables, p: Parser, r: nat)
    requires Sized(t) && |p.stack| > 0
  {
    && r < YYNRULE && t.ruleInfo[r].nrhs < |p.stack|
    && var base := |p.stack| - t.ruleInfo[r].nrhs;
       && HasGoto(t, p.stack[base - 1].stateno, t.ruleInfo[r].lhs)
       && var act := ReduceAction(t, p.stack[base - 1].stateno, t.ruleInfo[r].lhs);
          if act == YY_ACCEPT_ACTION then base == 1
          else act <= YY_MAX_SHIFT || YY_MIN_SHIFTREDUCE <= act <= YY_MAX_SHIFTREDUCE
  }

  // yy_reduce, without the grammar actions
  function Reduce(t: Tables, p: Parser, r: nat): Parser
    requires Sized(t) && |p.stack| > 0 && CanReduce(t, p, r)
  {
    var info := t.ruleInfo[r];
    if info.nrhs == 0 && |p.stack| >= YYSTACKDEPTH then Overflow(p)
    else
      var base := |p.stack| - info.nrhs;
      var act := ReduceAction(t, p.stack[base - 1].stateno, info.lhs);
      if act == YY_ACCEPT_ACTION then p.(stack := p.stack[..base], shifted := [], accepted := p.accepted + [p.shifted])
      else p.(stack := p.stack[..base] + [StackEntry(NewState(act), info.lhs)])
  }

  // yy_find_shift_action
  function Action(t: Tables, p: Parser, major: nat): nat
    requires Sized(t) && |p.stack| > 0 && IsState(p.stack[|p.stack| - 1].stateno)
  {
    var q := p.stack[|p.stack| - 1].stateno;
    if q >= YY_MIN_REDUCE then q else ShiftAction(t, q, major)
  }

  // The assertions on the way of one round of the driver's loop.
  predicate Ready(t: Tables, p: Parser, major: nat) {
    && Sized(t) && |p.stack| > 0 && IsState(p.stack[|p.stack| - 1].stateno)
    && var act := Action(t, p, major);
       if act <= YY_MAX_SHIFTREDUCE then act <= YY_MAX_SHIFT || YY_MIN_SHIFTREDUCE <= act
       else if act <= YY_MAX_REDUCE then CanReduce(t, p, act - YY_MIN_REDUCE)
       else act == YY_ERROR_ACTION
  }

  // One round of the loop of sqlite3Parser; the token is used up unless the flag is true.
  function Round(t: Tables, p: Parser, major: nat): (Parser, bool)
    requires Ready(t, p, major)
  {
    var act := Action(t, p, major);
    if act <= YY_MAX_SHIFTREDUCE then (Shift(p, act, major), false)
    else if act <= YY_MAX_REDUCE then (Reduce(t, p, act - YY_MIN_REDUCE), true)
    else (p.(errors := p.errors + 1), false)
  }

  // A token stream is a sentence of the grammar, up to fallback, wildcard and the optimized unit rules.
  ghost predicate Sentence(lr: Lr, tokens: seq<nat>) {
    exists tree :: Derivation(lr.t, lr.g, tree) && tree.Node? && lr.g.rules[tree.rule].lhs == lr.g.start
        && Yield(tree) == tokens
  }

  ghost predicate Stacked(lr: Lr, p: Parser, trees: seq<Tree>) {
    && ItemsFit(lr.g, lr.items) && |p.stack| <= YYSTACKDEPTH
    && Forest(lr.t, lr.g, lr.items, p.stack, trees) && Yields(trees) == p.shifted
  }

  /** The invariant: the stack is a forest over the shifted tokens, within its bounds, and accepted inputs are
      sentences. */
  ghost predicate Inv(lr: Lr, p: Parser) {
    (exists trees :: Stacked(lr, p, trees)) && forall s :: s in p.accepted ==> Sentence(lr, s)
  }

  ghost predicate LrOk(lr: Lr) {
    Consistent(lr.t, lr.g, lr.items)
  }

  lemma StartHolds(lr: Lr)
    requires LrOk(lr)
    ensures Inv(lr, START)
  {
    assert Yields([]) == [];
    assert Stacked(lr, START, []);
  }

  lemma OverflowKeeps(lr: Lr, p: Parser)
    requires Inv(lr, p)
    ensures Inv(lr, Overflow(p))
  {
    var trees :| Stacked(lr, p, trees);
    assert Yields([]) == [];
    assert Stacked(lr, Overflow(p), []);
  }

  lemma ErrorKeeps(lr: Lr, p: Parser)
    requires Inv(lr, p)
    ensures Inv(lr, p.(errors := p.errors + 1))
  {
    var trees :| Stacked(lr, p, trees);
    assert Stacked(lr, p.(errors := p.errors + 1), trees);
  }

  // Pushing a state and a tree that link up with the top.
  lemma PushKeeps(lr: Lr, stack: seq<StackEntry>, trees: seq<Tree>, e: StackEntry, tree: Tree)
    requires ItemsFit(lr.g, lr.items) && Forest(lr.t, lr.g, lr.items, stack, trees)
    requires stack[|stack| - 1].stateno <= YY_MAX_SHIFT && IsState(e.stateno) && e.stateno != 0
    requires Link(lr.t, lr.g, lr.items, stack[|stack| - 1].stateno, e.stateno, tree) && e.major == Major(lr.g, tree)
    requires Derivation(lr.t, lr.g, tree)
    requires e.stateno > YY_MAX_SHIFT ==> ReducedAtOnce(lr.g, e.stateno - YY_MIN_REDUCE)
    ensures Forest(lr.t, lr.g, lr.items, stack + [e], trees + [tree])
  {
    hide Link, Items, Derivation;
  }

  lemma ShiftLinks(lr: Lr, q: nat, a: nat, x: nat, act: nat)
    requires LrOk(lr) && q <= YY_MAX_SHIFT && TakenFor(lr.t, a, x)
    requires ShiftOk(lr.g, lr.items, q, act, place => x in place)
    ensures Link(lr.t, lr.g, lr.items, q, NewState(act), Leaf(a))
  {
    forall it | it in Items(lr.g, lr.items, NewState(act)) && it.dot > 0
      ensures CanStand(lr.t, lr.g, Leaf(a), lr.g.rules[it.rule].rhs[it.dot - 1])
    {
      LeafCanStand(lr.t, lr.g, a, x, lr.g.rules[it.rule].rhs[it.dot - 1]);
    }
  }

  lemma GotoLinks(lr: Lr, q: nat, act: nat, tree: Tree)
    requires LrOk(lr) && q <= YY_MAX_SHIFT && Derivation(lr.t, lr.g, tree) && tree.Node?
    requires ShiftOk(lr.g, lr.items, q, act, place => StandsIn(lr.g, lr.g.rules[tree.rule].lhs, place))
    ensures Link(lr.t, lr.g, lr.items, q, NewState(act), tree)
  {
    hide Derivation, StandsIn, CanStand;
    forall it | it in Items(lr.g, lr.items, NewState(act)) && it.dot > 0
      ensures CanStand(lr.t, lr.g, tree, lr.g.rules[it.rule].rhs[it.dot - 1])
    {
      NodeCanStand(lr.t, lr.g, tree, lr.g.rules[it.rule].rhs[it.dot - 1]);
    }
  }

  function Top(p: Parser): nat
    requires |p.stack| > 0
  {
    p.stack[|p.stack| - 1].stateno
  }

  lemma StackFits(lr: Lr, p: Parser)
    requires Inv(lr, p)
    ensures |lr.g.rules| == YYNRULE && |lr.items| == YY_SHIFT_COUNT + 1
    ensures 0 < |p.stack| <= YYSTACKDEPTH && IsState(Top(p)) && p.stack[0].stateno == 0
  {
  }

  lemma SomeForest(lr: Lr, p: Parser) returns (trees: seq<Tree>)
    requires Inv(lr, p)
    ensures Stacked(lr, p, trees) && |p.stack| == |trees| + 1 <= YYSTACKDEPTH && Yields(trees) == p.shifted
    ensures ItemsFit(lr.g, lr.items) && Forest(lr.t, lr.g, lr.items, p.stack, trees)
  {
    hide Link, Yields;
    trees :| Stacked(lr, p, trees);
  }

  lemma ShiftedState(lr: Lr, q: nat, act: nat, x: nat)
    requires |lr.g.rules| == YYNRULE && |lr.items| == YY_SHIFT_COUNT + 1 && q <= YY_MAX_SHIFT
    requires ShiftOk(lr.g, lr.items, q, act, place => x in place)
    ensures 1 <= act <= YY_MAX_SHIFT || YY_MIN_SHIFTREDUCE <= act <= YY_MAX_SHIFTREDUCE
    ensures IsState(NewState(act)) && NewState(act) != 0
    ensures NewState(act) > YY_MAX_SHIFT ==> ReducedAtOnce(lr.g, NewState(act) - YY_MIN_REDUCE)
  {
  }

  // A stack with its trees, everything accepted being as before.
  lemma PushedStacked(lr: Lr, p: Parser, p': Parser, trees: seq<Tree>)
    requires Inv(lr, p) && p'.accepted == p.accepted && Stacked(lr, p', trees)
    ensures Inv(lr, p')
  {
    hide Stacked, Sentence;
  }

  lemma {:induction false} ShiftKeeps(lr: Lr, p: Parser, act: nat, a: nat, x: nat)
    requires LrOk(lr) && Inv(lr, p) && |p.stack| > 0 && Top(p) <= YY_MAX_SHIFT && TakenFor(lr.t, a, x)
    requires ShiftOk(lr.g, lr.items, Top(p), act, place => x in place)
    ensures Inv(lr, Shift(p, act, a))
  {
    if |p.stack| >= YYSTACKDEPTH {
      OverflowKeeps(lr, p);
    } else {
      hide Link, LrOk, TakenFor, Forest, ShiftOk, Inv, Yields, NewState;
      var trees := SomeForest(lr, p);
      ShiftLinks(lr, Top(p), a, x, act);
      ShiftedState(lr, Top(p), act, x);
      PushKeeps(lr, p.stack, trees, StackEntry(NewState(act), a), Leaf(a));
      YieldsSnoc(trees, Leaf(a));
      assert Yield(Leaf(a)) == [a];
      PushedStacked(lr, p, Shift(p, act, a), trees + [Leaf(a)]);
    }
  }

  // Rule r, complete in the top state: its trees are on the stack, and the state below them can go on with its
  // left-hand side.
  lemma HandleOnTop(lr: Lr, stack: seq<StackEntry>, trees: seq<Tree>, r: nat) returns (tree: Tree)
    requires LrOk(lr) && ItemsFit(lr.g, lr.items) && Forest(lr.t, lr.g, lr.items, stack, trees)
    requires IsState(stack[|stack| - 1].stateno) && MayReduce(lr.g, lr.items, stack[|stack| - 1].stateno, r)
    ensures tree.Node? && tree.rule == r && Derivation(lr.t, lr.g, tree)
    ensures r < YYNRULE && lr.t.ruleInfo[r] == RuleInfo(lr.g.rules[r].lhs, |lr.g.rules[r].rhs|)
    ensures var n := |lr.g.rules[r].rhs|;
            && n < |stack| && Yield(tree) == Yields(trees[|trees| - n..]) && Size(tree) > Sizes(trees[|trees| - n..])
            && stack[|trees| - n].stateno <= YY_MAX_SHIFT
            && GotoOk(lr.t, lr.g, lr.items, stack[|trees| - n].stateno, lr.g.rules[r].lhs)
  {
    hide *;
    HandleFits(lr, stack, trees, r);
    var n, k := |lr.g.rules[r].rhs|, |trees|;
    SizesFit(lr.t, lr.g, lr.items, stack, trees, Item(r, n));
    var whole := ItemsDown(lr.t, lr.g, lr.items, stack, trees, k, Item(r, n));
    tree := NodeOf(lr, r, whole);
    assert trees[k - n..k] == trees[k - n..];
    BaseState(lr, stack, trees, k - n, r);
    GotoExists(lr, stack[k - n].stateno, r);
  }

  lemma HandleFits(lr: Lr, stack: seq<StackEntry>, trees: seq<Tree>, r: nat)
    requires LrOk(lr) && ItemsFit(lr.g, lr.items) && Forest(lr.t, lr.g, lr.items, stack, trees)
    requires IsState(stack[|stack| - 1].stateno) && MayReduce(lr.g, lr.items, stack[|stack| - 1].stateno, r)
    ensures |stack| == |trees| + 1 && r < YYNRULE == |lr.g.rules| && r !in lr.g.optimized
    ensures var it := Item(r, |lr.g.rules[r].rhs|);
            IsItem(lr.g, it) && it in Items(lr.g, lr.items, stack[|trees|].stateno)
    ensures |lr.t.ruleInfo| == YYNRULE && lr.t.ruleInfo[r] == RuleInfo(lr.g.rules[r].lhs, |lr.g.rules[r].rhs|)
  {
    hide Link;
  }

  lemma NodeOf(lr: Lr, r: nat, whole: seq<Tree>) returns (tree: Tree)
    requires r < |lr.g.rules| && |whole| == |lr.g.rules[r].rhs| && Match(lr.t, lr.g, whole, r)
    ensures tree.Node? && tree.rule == r && Derivation(lr.t, lr.g, tree)
    ensures Yield(tree) == Yields(whole) && Size(tree) > Sizes(whole)
  {
    tree := Node(r, whole);
  }

  // A state a rule can begin in is no state to be reduced at once.
  lemma BaseState(lr: Lr, stack: seq<StackEntry>, trees: seq<Tree>, k: nat, r: nat)
    requires ItemsFit(lr.g, lr.items) && Forest(lr.t, lr.g, lr.items, stack, trees) && k < |stack|
    requires IsState(stack[k].stateno) && Item(r, 0) in Items(lr.g, lr.items, stack[k].stateno)
    ensures stack[k].stateno <= YY_MAX_SHIFT && Item(r, 0) in lr.items[stack[k].stateno]
  {
    hide Link;
  }

  lemma GotoExists(lr: Lr, q: nat, r: nat)
    requires LrOk(lr) && q <= YY_MAX_SHIFT && r < YYNRULE && r !in lr.g.optimized && Item(r, 0) in lr.items[q]
    ensures GotoOk(lr.t, lr.g, lr.items, q, lr.g.rules[r].lhs)
  {
    hide GotoOk;
  }

  // The stack after a reduction that does not accept.
  lemma GotoKeeps(lr: Lr, stack: seq<StackEntry>, trees: seq<Tree>, n: nat, tree: Tree, act: nat)
    requires LrOk(lr) && ItemsFit(lr.g, lr.items) && Forest(lr.t, lr.g, lr.items, stack, trees) && n <= |trees|
    requires tree.Node? && Derivation(lr.t, lr.g, tree) && stack[|trees| - n].stateno <= YY_MAX_SHIFT
    requires ShiftOk(lr.g, lr.items, stack[|trees| - n].stateno, act,
        place => StandsIn(lr.g, lr.g.rules[tree.rule].lhs, place))
    ensures Forest(lr.t, lr.g, lr.items, stack[..|stack| - n] + [StackEntry(NewState(act), lr.g.rules[tree.rule].lhs)],
                   trees[..|trees| - n] + [tree])
  {
    var below := trees[..|trees| - n];
    assert Forest(lr.t, lr.g, lr.items, stack[..|stack| - n], below) by { hide Link, LrOk, ShiftOk; }
    GotoLinks(lr, stack[|trees| - n].stateno, act, tree);
    assert Major(lr.g, tree) == lr.g.rules[tree.rule].lhs;
    hide Link, LrOk, Forest, Derivation;
    var e := StackEntry(NewState(act), lr.g.rules[tree.rule].lhs);
    PushKeeps(lr, stack[..|stack| - n], below, e, tree);
  }

  // The stack with the handle replaced by its tree has the same yield.
  lemma YieldsFold(trees: seq<Tree>, n: nat, tree: Tree)
    requires n <= |trees| && Yield(tree) == Yields(trees[|trees| - n..])
    ensures Yields(trees[..|trees| - n] + [tree]) == Yields(trees)
  {
    var k := |trees| - n;
    assert trees == trees[..k] + trees[k..];
    YieldsSum(trees[..k], trees[k..]);
    YieldsSnoc(trees[..k], tree);
  }

  // The way a reduction goes on.
  lemma GotoGoesOn(lr: Lr, stack: seq<StackEntry>, trees: seq<Tree>, k: nat, a: nat)
    requires LrOk(lr) && ItemsFit(lr.g, lr.items) && Forest(lr.t, lr.g, lr.items, stack, trees) && k < |stack|
    requires stack[k].stateno <= YY_MAX_SHIFT && GotoOk(lr.t, lr.g, lr.items, stack[k].stateno, a)
    ensures Sized(lr.t) && HasGoto(lr.t, stack[k].stateno, a)
    ensures var act := ReduceAction(lr.t, stack[k].stateno, a);
            if a == lr.g.start then act == YY_ACCEPT_ACTION && k == 0
            else
              && (act <= YY_MAX_SHIFT || YY_MIN_SHIFTREDUCE <= act <= YY_MAX_SHIFTREDUCE)
              && ShiftOk(lr.g, lr.items, stack[k].stateno, act, place => StandsIn(lr.g, a, place))
  {
    hide Link;
    assert k > 0 ==> stack[k].stateno != 0;
  }

  // The stack and its trees after a reduction that does not accept.
  lemma ReducedStacked(lr: Lr, p: Parser, trees: seq<Tree>, n: nat, tree: Tree, act: nat)
    requires LrOk(lr) && Stacked(lr, p, trees)
    requires n <= |trees| && (n == 0 ==> |p.stack| < YYSTACKDEPTH) && Yield(tree) == Yields(trees[|trees| - n..])
    requires tree.Node? && Derivation(lr.t, lr.g, tree) && p.stack[|trees| - n].stateno <= YY_MAX_SHIFT
    requires ShiftOk(lr.g, lr.items, p.stack[|trees| - n].stateno, act,
        place => StandsIn(lr.g, lr.g.rules[tree.rule].lhs, place))
    ensures |p.stack| == |trees| + 1
    ensures Stacked(lr, p.(stack := p.stack[..|p.stack| - n] + [StackEntry(NewState(act), lr.g.rules[tree.rule].lhs)]),
                    trees[..|trees| - n] + [tree])
  {
    YieldsFold(trees, n, tree);
    assert |p.stack| == |trees| + 1;
    hide LrOk, Derivation, Forest, Yields, ShiftOk, ItemsFit;
    GotoKeeps(lr, p.stack, trees, n, tree, act);
  }

  lemma PlainReduceKeeps(lr: Lr, p: Parser, trees: seq<Tree>, n: nat, tree: Tree, act: nat)
    requires LrOk(lr) && Inv(lr, p) && Stacked(lr, p, trees)
    requires n <= |trees| && (n == 0 ==> |p.stack| < YYSTACKDEPTH) && Yield(tree) == Yields(trees[|trees| - n..])
    requires tree.Node? && Derivation(lr.t, lr.g, tree) && p.stack[|trees| - n].stateno <= YY_MAX_SHIFT
    requires ShiftOk(lr.g, lr.items, p.stack[|trees| - n].stateno, act,
        place => StandsIn(lr.g, lr.g.rules[tree.rule].lhs, place))
    ensures Inv(lr, p.(stack := p.stack[..|p.stack| - n] + [StackEntry(NewState(act), lr.g.rules[tree.rule].lhs)]))
  {
    ReducedStacked(lr, p, trees, n, tree, act);
    hide LrOk, Derivation, Stacked, ShiftOk;
    var p' := p.(stack := p.stack[..|p.stack| - n] + [StackEntry(NewState(act), lr.g.rules[tree.rule].lhs)]);
    PushedStacked(lr, p, p', trees[..|trees| - n] + [tree]);
  }

  /** A complete rule can always be reduced, and that keeps the invariant; a start rule accepts what was shifted. */
  lemma {:induction false} ReduceKeeps(lr: Lr, p: Parser, r: nat)
    requires LrOk(lr) && Inv(lr, p) && |p.stack| > 0 && IsState(Top(p)) && MayReduce(lr.g, lr.items, Top(p), r)
    ensures CanReduce(lr.t, p, r) && Inv(lr, Reduce(lr.t, p, r))
    ensures var p' := Reduce(lr.t, p, r);
            || p'.errors == p.errors + 1
            || (p'.errors == p.errors &&
                if lr.g.rules[r].lhs == lr.g.start then p'.accepted == p.accepted + [p.shifted] && |p'.stack| == 1
                else p'.accepted == p.accepted && p'.shifted == p.shifted && |p'.stack| > 1)
  {
    hide LrOk, Derivation, Stacked, Forest, Inv, GotoOk, Yields, Yield, ItemsFit, MayReduce, ShiftOk;
    StackFits(lr, p);
    var trees := SomeForest(lr, p);
    var tree := HandleOnTop(lr, p.stack, trees, r);
    var n, k := |lr.g.rules[r].rhs|, |trees|;
    GotoGoesOn(lr, p.stack, trees, k - n, lr.g.rules[r].lhs);
    var act := ReduceAction(lr.t, p.stack[k - n].stateno, lr.g.rules[r].lhs);
    if n == 0 && |p.stack| >= YYSTACKDEPTH {
      OverflowKeeps(lr, p);
    } else if act == YY_ACCEPT_ACTION {
      assert trees[0..] == trees;
      AcceptKeeps(lr, p, trees, tree);
    } else {
      PlainReduceKeeps(lr, p, trees, n, tree, act);
    }
  }

  lemma AcceptKeeps(lr: Lr, p: Parser, trees: seq<Tree>, tree: Tree)
    requires Inv(lr, p) && Stacked(lr, p, trees) && tree.Node? && Derivation(lr.t, lr.g, tree)
    requires lr.g.rules[tree.rule].lhs == lr.g.start && Yield(tree) == p.shifted
    ensures Inv(lr, p.(stack := p.stack[..1], shifted := [], accepted := p.accepted + [p.shifted]))
  {
    hide Derivation, Yield, Link;
    var p' := p.(stack := p.stack[..1], shifted := [], accepted := p.accepted + [p.shifted]);
    assert Sentence(lr, p.shifted);
    assert Yields([]) == [] by { hide *; }
    assert Stacked(lr, p', []);
  }

  // The kinds of action a token can meet.
  lemma ActionKinds(lr: Lr, p: Parser, a: nat)
    requires LrOk(lr) && Inv(lr, p) && a < NTERMINAL
    ensures |p.stack| > 0 && IsState(Top(p)) && |lr.g.rules| == YYNRULE && |lr.items| == YY_SHIFT_COUNT + 1
        && Sized(lr.t)
    ensures var act := Action(lr.t, p, a);
            if act <= YY_MAX_SHIFTREDUCE then
              && a != 0 && Top(p) <= YY_MAX_SHIFT
              && exists x :: TakenFor(lr.t, a, x) && ShiftOk(lr.g, lr.items, Top(p), act, place => x in place)
            else if act <= YY_MAX_REDUCE then
              && MayReduce(lr.g, lr.items, Top(p), act - YY_MIN_REDUCE)
              && (lr.g.rules[act - YY_MIN_REDUCE].lhs == lr.g.start ==> a == 0)
            else act == YY_ERROR_ACTION
  {
    hide Link, Yields, ShiftOk, GotoOk;
    StackFits(lr, p);
    var q := Top(p);
    if q <= YY_MAX_SHIFT {
      var x := ActionSource(lr.t, q, a);
      hide ShiftAction;
      if x.Some? { assert TokenOk(lr.g, lr.items, q, x.value, Entry(lr.t, lr.t.shiftOfst[q], x.value).value); }
    } else {
      var trees := SomeForest(lr, p);
    }
  }

  /** One round: no assertion fails, the invariant is kept, and without an error message the token is shifted, or a
      rule reduced, or at the end of the input everything shifted is accepted. */
  lemma {:induction false} RoundKeeps(lr: Lr, p: Parser, a: nat)
    requires LrOk(lr) && Inv(lr, p) && a < NTERMINAL
    ensures Ready(lr.t, p, a)
    ensures var (p', more) := Round(lr.t, p, a);
            && Inv(lr, p')
            && (p'.errors == p.errors ==>
                  if !more then a != 0 && p'.shifted == p.shifted + [a] && p'.accepted == p.accepted
                  else if |p'.stack| == 1 then a == 0 && p'.accepted == p.accepted + [p.shifted]
                  else p'.shifted == p.shifted && p'.accepted == p.accepted)
            && p'.errors >= p.errors
  {
    hide LrOk, Inv, Derivation, ShiftOk, MayReduce, CanReduce, Reduce;
    ActionKinds(lr, p, a);
    var act := Action(lr.t, p, a);
    hide Action;
    if act <= YY_MAX_SHIFTREDUCE {
      var x :| TakenFor(lr.t, a, x) && ShiftOk(lr.g, lr.items, Top(p), act, place => x in place);
      ProperShift(lr, Top(p), act, x);
      ShiftKeeps(lr, p, act, a, x);
    } else if act <= YY_MAX_REDUCE {
      ReduceKeeps(lr, p, act - YY_MIN_REDUCE);
    } else {
      ErrorKeeps(lr, p);
    }
  }

  // One more entry is to be pushed on a full stack.
  predicate Overflows(t: Tables, p: Parser, act: nat)
    requires Sized(t)
  {
    && |p.stack| == YYSTACKDEPTH
    && (act <= YY_MAX_SHIFTREDUCE
        || (YY_MIN_REDUCE <= act <= YY_MAX_REDUCE && t.ruleInfo[act - YY_MIN_REDUCE].nrhs == 0))
  }

  /** A round reports an error exactly if the tables have the error action for the token, or the stack is full. */
  lemma {:induction false} ErrorExactly(lr: Lr, p: Parser, a: nat)
    requires LrOk(lr) && Inv(lr, p) && a < NTERMINAL
    ensures Ready(lr.t, p, a)
    ensures exists act ::
              && (if Top(p) > YY_MAX_SHIFT then act == Top(p) else Chosen(lr.t, Top(p), a, act))
              && Round(lr.t, p, a).0.errors
                 == p.errors + if act == YY_ERROR_ACTION || Overflows(lr.t, p, act) then 1 else 0
  {
    RoundKeeps(lr, p, a);
    StackFits(lr, p);
    if Top(p) <= YY_MAX_SHIFT { LookupOrder(lr.t, Top(p), a); }
    hide LrOk, Inv, Chosen, ShiftAction, CanReduce, NewState, ReduceAction, HasGoto;
    var act := Action(lr.t, p, a);
    assert if Top(p) > YY_MAX_SHIFT then act == Top(p) else Chosen(lr.t, Top(p), a, act);
    hide Action;
    RoundErrors(lr.t, p, a);
  }

  lemma RoundErrors(t: Tables, p: Parser, a: nat)
    requires Ready(t, p, a) && |p.stack| <= YYSTACKDEPTH
    ensures var act := Action(t, p, a);
            Round(t, p, a).0.errors == p.errors + if act == YY_ERROR_ACTION || Overflows(t, p, act) then 1 else 0
  {
    hide Action, NewState, ReduceAction, HasGoto, Entry, Sized;
  }

  lemma ProperShift(lr: Lr, q: nat, act: nat, x: nat)
    requires |lr.g.rules| == YYNRULE && |lr.items| == YY_SHIFT_COUNT + 1 && q <= YY_MAX_SHIFT
    requires ShiftOk(lr.g, lr.items, q, act, place => x in place)
    ensures act <= YY_MAX_SHIFT || YY_MIN_SHIFTREDUCE <= act <= YY_MAX_SHIFTREDUCE
  {
  }

  /** Whole runs. */

  // A call of sqlite3Parser with token a returns after n rounds, leaving p'.
  ghost predicate Call(t: Tables, p: Parser, a: nat, n: nat, p': Parser)
    decreases n
  {
    && n > 0 && Ready(t, p, a)
    && var (q, more) := Round(t, p, a);
       if more && |q.stack| > 1 then Call(t, q, a, n - 1, p') else n == 1 && p' == q
  }

  // The tokens are given to the parser one by one.
  ghost predicate Feed(t: Tables, p: Parser, tokens: seq<nat>, p': Parser)
    decreases |tokens|
  {
    if tokens == [] then p' == p
    else exists n, q :: Call(t, p, tokens[0], n, q) && Feed(t, q, tokens[1..], p')
  }

  lemma {:induction false} CallKeeps(lr: Lr, p: Parser, a: nat, n: nat, p': Parser)
    requires LrOk(lr) && Inv(lr, p) && a < NTERMINAL && Call(lr.t, p, a, n, p')
    ensures Inv(lr, p') && p'.errors >= p.errors
    ensures p'.errors == p.errors && a != 0 ==> p'.shifted == p.shifted + [a] && p'.accepted == p.accepted
    ensures p'.errors == p.errors && a == 0 ==> p'.accepted == p.accepted + [p.shifted]
    decreases n
  {
    RoundKeeps(lr, p, a);
    hide LrOk, Inv, Round, Ready;
    var (q, more) := Round(lr.t, p, a);
    if more && |q.stack| > 1 {
      CallKeeps(lr, q, a, n - 1, p');
    } else {
      StackNonempty(lr, q);
    }
  }

  lemma StackNonempty(lr: Lr, p: Parser)
    requires Inv(lr, p)
    ensures 0 < |p.stack| <= YYSTACKDEPTH
  {
  }

  lemma {:induction false} FeedKeeps(lr: Lr, p: Parser, tokens: seq<nat>, p': Parser)
    requires LrOk(lr) && Inv(lr, p) && Feed(lr.t, p, tokens, p')
    requires forall i :: 0 <= i < |tokens| ==> 0 < tokens[i] < NTERMINAL
    ensures Inv(lr, p') && p'.errors >= p.errors
    ensures p'.errors == p.errors ==> p'.shifted == p.shifted + tokens && p'.accepted == p.accepted
    decreases |tokens|
  {
    hide LrOk, Inv, Call;
    if tokens != [] {
      var n, q :| Call(lr.t, p, tokens[0], n, q) && Feed(lr.t, q, tokens[1..], p');
      CallKeeps(lr, p, tokens[0], n, q);
      FeedKeeps(lr, q, tokens[1..], p');
      assert tokens == [tokens[0]] + tokens[1..];
    }
  }

  lemma {:induction false} FeedSplit(t: Tables, p: Parser, x: seq<nat>, y: seq<nat>, p': Parser) returns (q: Parser)
    requires Feed(t, p, x + y, p')
    ensures Feed(t, p, x, q) && Feed(t, q, y, p')
    decreases |x|
  {
    hide Call;
    if x == [] {
      assert x + y == y;
      q := p;
    } else {
      assert (x + y)[1..] == x[1..] + y;
      var n, r :| Call(t, p, (x + y)[0], n, r) && Feed(t, r, (x + y)[1..], p');
      q := FeedSplit(t, r, x[1..], y, p');
    }
  }

  lemma FeedOne(t: Tables, p: Parser, a: nat, p': Parser) returns (n: nat)
    requires Feed(t, p, [a], p')
    ensures Call(t, p, a, n, p')
  {
    hide Call;
    var m, q :| Call(t, p, [a][0], m, q) && Feed(t, q, [a][1..], p');
    assert [a][1..] == [];
    n := m;
  }

  /** What the parser takes without an error message, up to the end token, is a sentence of the grammar, and is
      accepted exactly then. */
  lemma {:induction false} AcceptedIsSentence(lr: Lr, tokens: seq<nat>, p': Parser)
    requires LrOk(lr) && (forall i :: 0 <= i < |tokens| ==> 0 < tokens[i] < NTERMINAL)
    requires Feed(lr.t, START, tokens + [0], p') && p'.errors == 0
    ensures p'.accepted == [tokens] && Sentence(lr, tokens)
  {
    hide LrOk, Inv, Call, Feed, Sentence;
    StartHolds(lr);
    FreshAccepts(lr, START, tokens, p');
  }

  lemma FreshAccepts(lr: Lr, p: Parser, tokens: seq<nat>, p': Parser)
    requires LrOk(lr) && (forall i :: 0 <= i < |tokens| ==> 0 < tokens[i] < NTERMINAL)
    requires Inv(lr, p) && p.shifted == [] && p.accepted == [] && p.errors == 0
    requires Feed(lr.t, p, tokens + [0], p') && p'.errors == 0
    ensures p'.accepted == [tokens] && Sentence(lr, tokens)
  {
    hide LrOk, Inv, Call, Feed, Sentence, Consistent, Forest, Derivation;
    var q := FeedSplit(lr.t, p, tokens, [0], p');
    var n := FeedOne(lr.t, q, 0, p');
    FeedKeeps(lr, p, tokens, q);
    CallKeeps(lr, q, 0, n, p');
    assert q.shifted == [] + tokens == tokens;
    assert p'.accepted == [] + [tokens] == [tokens];
    AcceptedAre(lr, p', tokens);
  }

  lemma AcceptedAre(lr: Lr, p: Parser, tokens: seq<nat>)
    requires Inv(lr, p) && tokens in p.accepted
    ensures Sentence(lr, tokens)
  {
  }

  /** Whatever the tokens, the stack stays within 100 entries and each accepted input is a sentence. */
  lemma {:induction false} AnyRunIsSound(lr: Lr, p: Parser, tokens: seq<nat>, p': Parser)
    requires LrOk(lr) && Inv(lr, p) && Feed(lr.t, p, tokens, p')
        && (forall i :: 0 <= i < |tokens| ==> tokens[i] < NTERMINAL)
    ensures 0 < |p'.stack| <= 100 && forall s :: s in p'.accepted ==> Sentence(lr, s)
    decreases |tokens|
  {
    hide LrOk, Call;
    if tokens != [] {
      var n, q :| Call(lr.t, p, tokens[0], n, q) && Feed(lr.t, q, tokens[1..], p');
      hide Inv;
      CallKeeps(lr, p, tokens[0], n, q);
      AnyRunIsSound(lr, q, tokens[1..], p');
    }
  }
}
