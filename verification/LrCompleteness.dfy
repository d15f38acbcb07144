/** The converse of soundness: for tables that are also complete for the
    grammar, one state and one table entry at a time, every sentence whose parse
    fits the stack is accepted without an error message.  Grammars with
    conflicts that are settled by precedence have no such tables. */
module LrCompleteness {
  import opened LrTables
  import opened Wrappers
  import opened LrForest
  import opened LrDriver

  // Lookaheads: for each state and item the tokens that may follow its rule, for each nonterminal the tokens it may
  // begin with, and the nonterminals that may be empty.
  datatype Looks = Looks(look: seq<map<Item, set<nat>>>, first: map<nat, set<nat>>, nullable: set<nat>)

  function Look(lk: Looks, q: nat, it: Item): set<nat> {
    if q < |lk.look| && it in lk.look[q] then lk.look[q][it] else {}
  }

  function First(lk: Looks, x: nat): set<nat> {
    if x < NTERMINAL then {x} else if x in lk.first then lk.first[x] else {}
  }

  ghost predicate MayBeEmpty(lk: Looks, place: set<nat>) {
    exists x :: x in place && x in lk.nullable
  }

  ghost predicate AllEmpty(lk: Looks, rhs: seq<set<nat>>) {
    forall k :: 0 <= k < |rhs| ==> MayBeEmpty(lk, rhs[k])
  }

  // Token a may be the first of what matches rhs, or, if that is empty, the token after it, one of tail.
  ghost predicate Begins(lk: Looks, rhs: seq<set<nat>>, tail: set<nat>, a: nat) {
    if rhs == [] then a in tail
    else (exists x :: x in rhs[0] && a in First(lk, x)) || (MayBeEmpty(lk, rhs[0]) && Begins(lk, rhs[1..], tail, a))
  }

  ghost predicate FirstsOk(g: Grammar, lk: Looks) {
    && (forall r, a: nat :: 0 <= r < |g.rules| && Begins(lk, g.rules[r].rhs, {}, a) ==> a in First(lk, g.rules[r].lhs))
    && (forall r :: 0 <= r < |g.rules| && AllEmpty(lk, g.rules[r].rhs) ==> g.rules[r].lhs in lk.nullable)
  }

  // State q has the item, and token la may follow its rule there.
  predicate Has(lr: Lr, lk: Looks, q: nat, it: Item, la: nat)
    requires |lr.g.rules| == YYNRULE && |lr.items| == YY_SHIFT_COUNT + 1
  {
    IsState(q) && it in Items(lr.g, lr.items, q) && (q <= YY_MAX_SHIFT ==> la in Look(lk, q, it))
  }

  // Act is a shift to a state that has the item one place further on, with its lookaheads.
  ghost predicate Advances(lr: Lr, lk: Looks, q: nat, it: Item, act: nat)
    requires |lr.g.rules| == YYNRULE && |lr.items| == YY_SHIFT_COUNT + 1
  {
    && (act <= YY_MAX_SHIFT || YY_MIN_SHIFTREDUCE <= act <= YY_MAX_SHIFTREDUCE)
    && forall la :: la in Look(lk, q, it) ==> Has(lr, lk, NewState(act), Item(it.rule, it.dot + 1), la)
  }

  // The item of state q is followed there by what the tables need to go on with it.
  ghost predicate ItemComplete(lr: Lr, lk: Looks, q: nat, it: Item)
    requires Sized(lr.t) && |lr.g.rules| == YYNRULE && |lr.items| == YY_SHIFT_COUNT + 1
    requires q <= YY_MAX_SHIFT && IsItem(lr.g, it)
  {
    var rhs := lr.g.rules[it.rule].rhs;
    if it.dot == |rhs| then
      forall la :: la in Look(lk, q, it) ==> ShiftAction(lr.t, q, la) == YY_MIN_REDUCE + it.rule
    else
      && (forall x :: x in rhs[it.dot] && x < NTERMINAL ==> Advances(lr, lk, q, it, ShiftAction(lr.t, q, x)))
      && (forall r :: 0 <= r < YYNRULE && r !in lr.g.optimized && StandsIn(lr.g, lr.g.rules[r].lhs, rhs[it.dot]) ==>
            && Entry(lr.t, lr.t.reduceOfst[if q <= YY_REDUCE_COUNT then q else 0], lr.g.rules[r].lhs).Some?
            && q <= YY_REDUCE_COUNT
            && Advances(lr, lk, q, it, Entry(lr.t, lr.t.reduceOfst[q], lr.g.rules[r].lhs).value)
            && Opens(lr, lk, q, it, r))
  }

  // Rule r may begin at the item's next place, followed by whatever may come after that place.
  ghost predicate Opens(lr: Lr, lk: Looks, q: nat, it: Item, r: nat)
    requires |lr.items| == YY_SHIFT_COUNT + 1 && q <= YY_MAX_SHIFT && IsItem(lr.g, it)
    requires it.dot < |lr.g.rules[it.rule].rhs|
  {
    && Item(r, 0) in lr.items[q]
    && forall la, a :: la in Look(lk, q, it) && Begins(lk, lr.g.rules[it.rule].rhs[it.dot + 1..], {la}, a) ==>
         a in Look(lk, q, Item(r, 0))
  }

  /** The tables are complete for the grammar. */
  ghost predicate Complete(lr: Lr, lk: Looks)
    requires LrOk(lr)
  {
    && FirstsOk(lr.g, lk)
    && (forall r :: 0 <= r < YYNRULE ==> lr.g.rules[r].lhs >= NTERMINAL)
    && (forall r :: 0 <= r < YYNRULE && r in lr.g.optimized ==>
          |lr.g.rules[r].rhs| == 1 && forall x :: x in lr.g.rules[r].rhs[0] ==> x >= NTERMINAL)
    && (forall r :: 0 <= r < YYNRULE && lr.g.rules[r].lhs == lr.g.start ==>
          r !in lr.g.optimized && Item(r, 0) in lr.items[0] && 0 in Look(lk, 0, Item(r, 0)))
    && (forall q, it :: 0 <= q <= YY_MAX_SHIFT && it in lr.items[q] ==> ItemComplete(lr, lk, q, it))
  }

  /** The sentences: trees in which every token stands for itself. */

  predicate Exact(g: Grammar, tree: Tree) {
    match tree
    case Leaf(a) => 0 < a < NTERMINAL
    case Node(r, children) =>
      && r < |g.rules| && |children| == |g.rules[r].rhs|
      && forall i :: 0 <= i < |children| ==> Exact(g, children[i]) && Major(g, children[i]) in g.rules[r].rhs[i]
  }

  function Max(a: nat, b: nat): nat {
    if a < b then b else a
  }

  // The most stack entries that are in use at a time while the tree is read.
  function Need(tree: Tree): (n: nat)
    ensures n > 0
  {
    match tree
    case Leaf(_) => 1
    case Node(_, children) => Max(1, Needs(children))
  }

  function Needs(trees: seq<Tree>): nat {
    if trees == [] then 0 else Max(Needs(trees[..|trees| - 1]), |trees| - 1 + Need(trees[|trees| - 1]))
  }

  lemma {:induction false} NeedsAt(trees: seq<Tree>, k: nat)
    requires k < |trees|
    ensures k + Need(trees[k]) <= Needs(trees)
    decreases |trees|
  {
    if k < |trees| - 1 { NeedsAt(trees[..|trees| - 1], k); }
  }

  lemma {:induction false} SizeAt(trees: seq<Tree>, k: nat)
    requires k < |trees|
    ensures Size(trees[k]) <= Sizes(trees)
    decreases |trees|
  {
    if k < |trees| - 1 { SizeAt(trees[..|trees| - 1], k); }
  }

  /** What a tree may begin with. */

  lemma {:induction false} FirstOfTree(g: Grammar, lk: Looks, tree: Tree)
    requires FirstsOk(g, lk) && Exact(g, tree)
    ensures Yield(tree) == [] ==> Major(g, tree) in lk.nullable
    ensures Yield(tree) != [] ==> Yield(tree)[0] in First(lk, Major(g, tree))
    decreases Size(tree), 0
  {
    if tree.Node? {
      FirstOfTrees(g, lk, tree.children, g.rules[tree.rule].rhs, {});
    }
  }

  lemma {:induction false} FirstOfTrees(g: Grammar, lk: Looks, trees: seq<Tree>, rhs: seq<set<nat>>, tail: set<nat>)
    requires FirstsOk(g, lk) && |trees| == |rhs|
    requires forall i :: 0 <= i < |trees| ==> Exact(g, trees[i]) && Major(g, trees[i]) in rhs[i]
    ensures Yields(trees) == [] ==> AllEmpty(lk, rhs)
    ensures Yields(trees) != [] ==> Begins(lk, rhs, tail, Yields(trees)[0])
    decreases Sizes(trees), |trees|
  {
    if trees != [] {
      assert trees == [trees[0]] + trees[1..];
      SizesSum([trees[0]], trees[1..]);
      YieldsSum([trees[0]], trees[1..]);
      assert [trees[0]][..0] == [];
      assert Yields([trees[0]]) == [] + Yield(trees[0]) && Sizes([trees[0]]) == 0 + Size(trees[0]);
      FirstOfTree(g, lk, trees[0]);
      FirstOfTrees(g, lk, trees[1..], rhs[1..], tail);
      if Yields(trees) == [] {
        assert forall k :: 0 < k < |rhs| ==> rhs[k] == rhs[1..][k - 1];
      }
    }
  }

  lemma {:induction false} EmptyBegins(lk: Looks, rhs: seq<set<nat>>, tail: set<nat>, a: nat)
    requires AllEmpty(lk, rhs) && a in tail
    ensures Begins(lk, rhs, tail, a)
    decreases |rhs|
  {
    if rhs != [] {
      assert MayBeEmpty(lk, rhs[0]);
      assert forall k :: 0 <= k < |rhs[1..]| ==> rhs[1..][k] == rhs[k + 1];
      EmptyBegins(lk, rhs[1..], tail, a);
    }
  }

  // The first token of the trees that match the rest of a rule and of what follows.
  lemma NextToken(g: Grammar, lk: Looks, trees: seq<Tree>, rhs: seq<set<nat>>, rest: seq<nat>)
    requires FirstsOk(g, lk) && |trees| == |rhs| && |rest| > 0
    requires forall i :: 0 <= i < |trees| ==> Exact(g, trees[i]) && Major(g, trees[i]) in rhs[i]
    ensures Begins(lk, rhs, {rest[0]}, (Yields(trees) + rest)[0])
  {
    FirstOfTrees(g, lk, trees, rhs, {rest[0]});
    if Yields(trees) == [] {
      assert Yields(trees) + rest == rest;
      EmptyBegins(lk, rhs, {rest[0]}, rest[0]);
    }
  }

  /** Rounds of the driver. */

  // In n rounds without an error message, the parser goes from p before the tokens ts to p' before ts'.
  ghost predicate Reads(t: Tables, p: Parser, ts: seq<nat>, n: nat, p': Parser, ts': seq<nat>)
    decreases n
  {
    if n == 0 then p' == p && ts' == ts
    else
      && |ts| > 0 && Ready(t, p, ts[0])
      && var (q, more) := Round(t, p, ts[0]);
         q.errors == p.errors && |q.stack| > 1 && Reads(t, q, if more then ts else ts[1..], n - 1, p', ts')
  }

  lemma ReadsOne(t: Tables, p: Parser, ts: seq<nat>, p': Parser, more: bool)
    requires |ts| > 0 && Ready(t, p, ts[0]) && Round(t, p, ts[0]) == (p', more)
    requires p'.errors == p.errors && |p'.stack| > 1
    ensures Reads(t, p, ts, 1, p', if more then ts else ts[1..])
  {
    hide Ready, Round;
  }

  lemma {:induction false} ReadsOn(t: Tables, p: Parser, ts: seq<nat>, n: nat, p1: Parser, ts1: seq<nat>, m: nat,
      p2: Parser, ts2: seq<nat>)
    requires Reads(t, p, ts, n, p1, ts1) && Reads(t, p1, ts1, m, p2, ts2)
    ensures Reads(t, p, ts, n + m, p2, ts2)
    decreases n
  {
    hide Ready, Round;
    if n > 0 {
      var (q, more) := Round(t, p, ts[0]);
      ReadsOn(t, q, if more then ts else ts[1..], n - 1, p1, ts1, m, p2, ts2);
    }
  }

  // The last round accepts; so the tokens have been taken one by one.
  lemma {:induction false} ReadsFeed(t: Tables, p: Parser, ts: seq<nat>, a: nat, n: nat, p1: Parser, p2: Parser)
    requires Reads(t, p, ts, n, p1, [a]) && Ready(t, p1, a) && Round(t, p1, a) == (p2, true) && |p2.stack| == 1
    ensures Feed(t, p, ts, p2)
    decreases n
  {
    hide Ready, Round;
    if n == 0 {
      assert Call(t, p, a, 1, p2);
      assert [a][1..] == [];
      assert Feed(t, p2, ts[1..], p2);
    } else {
      var (q, more) := Round(t, p, ts[0]);
      ReadsFeed(t, q, if more then ts else ts[1..], a, n - 1, p1, p2);
      if more {
        assert ts != [];
        var m: nat, q2 :| Call(t, q, ts[0], m, q2) && Feed(t, q2, ts[1..], p2);
        assert Call(t, p, ts[0], m + 1, q2);
      } else {
        assert Call(t, p, ts[0], 1, q);
      }
    }
  }

  /** Reading trees. */

  // One more entry, whose state has the item one place further on.
  ghost predicate Moved(lr: Lr, lk: Looks, p: Parser, p': Parser, it: Item, la: nat)
    requires |lr.g.rules| == YYNRULE && |lr.items| == YY_SHIFT_COUNT + 1
  {
    Above(lr, p, p', 1) && Has(lr, lk, Top(p'), Item(it.rule, it.dot + 1), la)
  }

  // The parser p' has n entries more on the stack of p, and is otherwise like it.
  ghost predicate Above(lr: Lr, p: Parser, p': Parser, n: nat) {
    && Inv(lr, p') && p'.errors == p.errors && p'.accepted == p.accepted
    && |p'.stack| == |p.stack| + n > 0 && p.stack == p'.stack[..|p.stack|]
  }

  // In the top state of p the item may go on with the symbol x.
  ghost predicate GoesOnWith(lr: Lr, lk: Looks, p: Parser, it: Item, la: nat, x: nat) {
    && Inv(lr, p) && |lr.g.rules| == YYNRULE && |lr.items| == YY_SHIFT_COUNT + 1 && |p.stack| > 0
    && Top(p) <= YY_MAX_SHIFT && Has(lr, lk, Top(p), it, la)
    && IsItem(lr.g, it) && it.dot < |lr.g.rules[it.rule].rhs|
    && var place := lr.g.rules[it.rule].rhs[it.dot];
       if x < NTERMINAL then x in place else StandsIn(lr.g, x, place)
  }

  lemma CompleteItem(lr: Lr, lk: Looks, q: nat, it: Item)
    requires LrOk(lr) && Complete(lr, lk) && q <= YY_MAX_SHIFT && it in lr.items[q]
    ensures Sized(lr.t) && |lr.g.rules| == YYNRULE && |lr.items| == YY_SHIFT_COUNT + 1 && IsItem(lr.g, it)
    ensures ItemComplete(lr, lk, q, it)
  {
  }

  lemma GrammarSize(lr: Lr)
    requires LrOk(lr)
    ensures |lr.g.rules| == YYNRULE
  {
  }

  lemma RuleSize(lr: Lr, r: nat)
    requires LrOk(lr) && r < YYNRULE
    ensures |lr.g.rules| == YYNRULE && |lr.items| == YY_SHIFT_COUNT + 1 && Sized(lr.t)
    ensures lr.t.ruleInfo[r] == RuleInfo(lr.g.rules[r].lhs, |lr.g.rules[r].rhs|)
  {
  }

  lemma AdvancesHas(lr: Lr, lk: Looks, q: nat, it: Item, la: nat, act: nat)
    requires |lr.g.rules| == YYNRULE && |lr.items| == YY_SHIFT_COUNT + 1 && q <= YY_MAX_SHIFT
    requires Has(lr, lk, q, it, la) && Advances(lr, lk, q, it, act)
    ensures act <= YY_MAX_SHIFT || YY_MIN_SHIFTREDUCE <= act <= YY_MAX_SHIFTREDUCE
    ensures Has(lr, lk, NewState(act), Item(it.rule, it.dot + 1), la)
  {
    hide Look, NewState;
  }

  // What an item with the token x next gives.
  lemma ItemShifts(lr: Lr, lk: Looks, q: nat, it: Item, x: nat)
    requires LrOk(lr) && Complete(lr, lk) && q <= YY_MAX_SHIFT && |lr.g.rules| == YYNRULE && IsItem(lr.g, it)
    requires |lr.items| == YY_SHIFT_COUNT + 1 && Sized(lr.t) && it in lr.items[q]
    requires it.dot < |lr.g.rules[it.rule].rhs| && x in lr.g.rules[it.rule].rhs[it.dot] && x < NTERMINAL
    ensures Advances(lr, lk, q, it, ShiftAction(lr.t, q, x))
  {
    CompleteItem(lr, lk, q, it);
    hide Advances, ShiftAction, Complete, LrOk, Sized, Opens, Entry;
  }

  // The new parser has one entry more, with the item moved on.
  lemma MovedTo(lr: Lr, lk: Looks, p: Parser, p': Parser, e: StackEntry, it: Item, la: nat)
    requires |lr.g.rules| == YYNRULE && |lr.items| == YY_SHIFT_COUNT + 1
    requires Inv(lr, p') && p'.stack == p.stack + [e] && p'.errors == p.errors && p'.accepted == p.accepted
    requires Has(lr, lk, e.stateno, Item(it.rule, it.dot + 1), la)
    ensures Moved(lr, lk, p, p', it, la)
  {
    hide Inv, Has;
  }

  lemma Expected(lr: Lr, lk: Looks, p: Parser, it: Item, la: nat, x: nat)
    requires GoesOnWith(lr, lk, p, it, la, x)
    ensures |lr.g.rules| == YYNRULE && |lr.items| == YY_SHIFT_COUNT + 1 && |p.stack| > 0 && Inv(lr, p)
    ensures Top(p) <= YY_MAX_SHIFT && Has(lr, lk, Top(p), it, la) && it in lr.items[Top(p)]
    ensures IsItem(lr.g, it) && it.dot < |lr.g.rules[it.rule].rhs|
    ensures if x < NTERMINAL then x in lr.g.rules[it.rule].rhs[it.dot]
            else StandsIn(lr.g, x, lr.g.rules[it.rule].rhs[it.dot])
  {
    hide Inv, StandsIn, Look;
  }

  // A token is shifted.
  lemma ReadLeaf(lr: Lr, lk: Looks, p: Parser, a: nat, it: Item, la: nat, rest: seq<nat>) returns (p': Parser)
    requires LrOk(lr) && Complete(lr, lk) && GoesOnWith(lr, lk, p, it, la, a) && 0 < a < NTERMINAL
    requires |p.stack| < YYSTACKDEPTH
    ensures Reads(lr.t, p, [a] + rest, 1, p', rest) && Moved(lr, lk, p, p', it, la)
  {
    Expected(lr, lk, p, it, la, a);
    GrammarSize(lr);
    RoundKeeps(lr, p, a);
    ItemShifts(lr, lk, Top(p), it, a);
    hide LrOk, Complete, Inv, ShiftAction, StandsIn, Reads, Advances, Has, Moved, GoesOnWith, Sized, NewState;
    var act := ShiftAction(lr.t, Top(p), a);
    AdvancesHas(lr, lk, Top(p), it, la, act);
    p' := Shift(p, act, a);
    assert Round(lr.t, p, a) == (p', false);
    assert ([a] + rest)[1..] == rest;
    ReadsOne(lr.t, p, [a] + rest, p', false);
    MovedTo(lr, lk, p, p', StackEntry(NewState(act), a), it, la);
  }

  // A complete rule is reduced when the token after it comes.
  lemma ReduceNext(lr: Lr, lk: Looks, p: Parser, r: nat, a: nat)
    requires LrOk(lr) && Complete(lr, lk) && Inv(lr, p) && |p.stack| > 0 && r < YYNRULE && a < NTERMINAL
    requires |lr.g.rules| == YYNRULE && |lr.items| == YY_SHIFT_COUNT + 1
    requires Has(lr, lk, Top(p), Item(r, |lr.g.rules[r].rhs|), a)
    ensures Sized(lr.t) && IsState(Top(p)) && Action(lr.t, p, a) == YY_MIN_REDUCE + r
  {
    hide Inv, ShiftAction;
    if Top(p) <= YY_MAX_SHIFT { CompleteItem(lr, lk, Top(p), Item(r, |lr.g.rules[r].rhs|)); }
  }

  // What an item with a nonterminal next gives, r being a rule for it.
  lemma ItemGoes(lr: Lr, lk: Looks, q: nat, it: Item, r: nat)
    requires LrOk(lr) && Complete(lr, lk) && q <= YY_MAX_SHIFT && |lr.g.rules| == YYNRULE && IsItem(lr.g, it)
    requires |lr.items| == YY_SHIFT_COUNT + 1 && Sized(lr.t) && it in lr.items[q]
    requires it.dot < |lr.g.rules[it.rule].rhs| && r < YYNRULE && r !in lr.g.optimized
    requires StandsIn(lr.g, lr.g.rules[r].lhs, lr.g.rules[it.rule].rhs[it.dot])
    ensures HasGoto(lr.t, q, lr.g.rules[r].lhs)
    ensures Advances(lr, lk, q, it, ReduceAction(lr.t, q, lr.g.rules[r].lhs)) && Opens(lr, lk, q, it, r)
  {
    CompleteItem(lr, lk, q, it);
    hide Advances, ShiftAction, Complete, LrOk, Sized, Opens, Entry, StandsIn;
  }

  // The state below goes on with the rule's left-hand side.
  lemma GotoNext(lr: Lr, lk: Looks, p: Parser, it: Item, la: nat, r: nat)
    requires LrOk(lr) && Complete(lr, lk) && r < YYNRULE && |lr.g.rules| == YYNRULE && r !in lr.g.optimized
    requires GoesOnWith(lr, lk, p, it, la, lr.g.rules[r].lhs)
    ensures Sized(lr.t) && HasGoto(lr.t, Top(p), lr.g.rules[r].lhs)
    ensures var act := ReduceAction(lr.t, Top(p), lr.g.rules[r].lhs);
            && (act <= YY_MAX_SHIFT || YY_MIN_SHIFTREDUCE <= act <= YY_MAX_SHIFTREDUCE)
            && Has(lr, lk, NewState(act), Item(it.rule, it.dot + 1), la)
    ensures Opens(lr, lk, Top(p), it, r)
  {
    RuleSize(lr, r);
    LhsRange(lr, lk, r);
    hide *;
    Expected(lr, lk, p, it, la, lr.g.rules[r].lhs);
    ItemGoes(lr, lk, Top(p), it, r);
    AdvancesHas(lr, lk, Top(p), it, la, ReduceAction(lr.t, Top(p), lr.g.rules[r].lhs));
  }

  lemma LhsRange(lr: Lr, lk: Looks, r: nat)
    requires LrOk(lr) && Complete(lr, lk) && r < YYNRULE && |lr.g.rules| == YYNRULE
    ensures lr.g.rules[r].lhs >= NTERMINAL
  {
  }

  // Rule r may begin in the top state, before token a.
  lemma OpensHas(lr: Lr, lk: Looks, p: Parser, it: Item, la: nat, r: nat, a: nat)
    requires |lr.g.rules| == YYNRULE && |lr.items| == YY_SHIFT_COUNT + 1
    requires |p.stack| > 0 && Top(p) <= YY_MAX_SHIFT && Has(lr, lk, Top(p), it, la) && IsItem(lr.g, it)
    requires it.dot < |lr.g.rules[it.rule].rhs| && Opens(lr, lk, Top(p), it, r)
    requires Begins(lk, lr.g.rules[it.rule].rhs[it.dot + 1..], {la}, a)
    ensures Has(lr, lk, Top(p), Item(r, 0), a)
  {
    hide Begins, Look;
  }

  lemma Reduced(t: Tables, p: Parser, p1: Parser, r: nat, act: nat)
    requires Sized(t) && |p.stack| > 0 && |p1.stack| > 0 && CanReduce(t, p1, r) && |p.stack| < YYSTACKDEPTH
    requires |p1.stack| == |p.stack| + t.ruleInfo[r].nrhs && p.stack == p1.stack[..|p.stack|]
    requires HasGoto(t, Top(p), t.ruleInfo[r].lhs) && act == ReduceAction(t, Top(p), t.ruleInfo[r].lhs)
    requires act <= YY_MAX_SHIFT || YY_MIN_SHIFTREDUCE <= act <= YY_MAX_SHIFTREDUCE
    ensures Reduce(t, p1, r) == p1.(stack := p.stack + [StackEntry(NewState(act), t.ruleInfo[r].lhs)])
  {
    hide HasGoto, ReduceAction, NewState;
    assert p1.stack[|p.stack| - 1] == p.stack[|p.stack| - 1];
  }

  // The reduction of rule r, whose symbols lie on top of p.
  lemma ReadReduction(lr: Lr, lk: Looks, p: Parser, p1: Parser, r: nat, it: Item, la: nat, rest: seq<nat>)
    returns (p': Parser)
    requires LrOk(lr) && Complete(lr, lk) && r < YYNRULE && |lr.g.rules| == YYNRULE && r !in lr.g.optimized
    requires GoesOnWith(lr, lk, p, it, la, lr.g.rules[r].lhs) && Above(lr, p, p1, |lr.g.rules[r].rhs|)
    requires |rest| > 0 && rest[0] < NTERMINAL && Has(lr, lk, Top(p1), Item(r, |lr.g.rules[r].rhs|), rest[0])
    requires |p.stack| < YYSTACKDEPTH
    ensures Reads(lr.t, p1, rest, 1, p', rest) && Moved(lr, lk, p, p', it, la)
  {
    var a := rest[0];
    Expected(lr, lk, p, it, la, lr.g.rules[r].lhs);
    RuleSize(lr, r);
    RoundKeeps(lr, p1, a);
    ReduceNext(lr, lk, p1, r, a);
    GotoNext(lr, lk, p, it, la, r);
    hide LrOk, Complete, Inv, Action, StandsIn, HasGoto, ReduceAction, Opens, Has, NewState, Reduce, CanReduce, Sized,
        Reads, IsItem, GoesOnWith, Moved;
    var act := ReduceAction(lr.t, Top(p), lr.g.rules[r].lhs);
    Reduced(lr.t, p, p1, r, act);
    p' := Reduce(lr.t, p1, r);
    assert Round(lr.t, p1, a) == (p', true);
    ReadsOne(lr.t, p1, rest, p', true);
    MovedTo(lr, lk, p, p', StackEntry(NewState(act), lr.g.rules[r].lhs), it, la);
  }

  lemma InPlace(g: Grammar, x: nat, place: set<nat>)
    requires x in place
    ensures StandsIn(g, x, place)
  {
    assert Chain(g, [], x, x);
  }

  lemma {:induction false} ChainSnoc(g: Grammar, chain: seq<nat>, r: nat, m: nat, x: nat)
    requires r < |g.rules| && r in g.optimized && m in Alternatives(g, r) && Chain(g, chain, g.rules[r].lhs, x)
    ensures Chain(g, chain + [r], m, x)
    decreases |chain|
  {
    var chain' := chain + [r];
    if chain == [] {
      assert chain'[1..] == [] && Chain(g, [], m, m);
    } else {
      var y :| y in Alternatives(g, chain[0]) && Chain(g, chain[1..], g.rules[r].lhs, y);
      ChainSnoc(g, chain[1..], r, m, y);
      assert chain'[1..] == chain[1..] + [r];
    }
  }

  lemma StandsDeeper(g: Grammar, r: nat, m: nat, place: set<nat>)
    requires r < |g.rules| && r in g.optimized && m in Alternatives(g, r) && StandsIn(g, g.rules[r].lhs, place)
    ensures StandsIn(g, m, place)
  {
    var chain, x :| x in place && Chain(g, chain, g.rules[r].lhs, x);
    ChainSnoc(g, chain, r, m, x);
  }

  // A unit rule that is optimized out leaves the reading to its only child.
  lemma UnitChild(lr: Lr, lk: Looks, p: Parser, it: Item, la: nat, r: nat, child: Tree)
    requires LrOk(lr) && Complete(lr, lk) && r in lr.g.optimized && Exact(lr.g, Node(r, [child]))
    requires GoesOnWith(lr, lk, p, it, la, Major(lr.g, Node(r, [child])))
    ensures GoesOnWith(lr, lk, p, it, la, Major(lr.g, child)) && Exact(lr.g, child)
    ensures Yield(Node(r, [child])) == Yield(child) && Need(Node(r, [child])) == Need(child)
    ensures Size(Node(r, [child])) > Size(child)
  {
    hide Inv, Has;
    UnitCovers(r, child);
    assert [child][..0] == [];
    assert Needs([child]) == Max(0, 0 + Need(child)) == Need(child);
    assert Yields([child]) == [] + Yield(child) && Sizes([child]) == 0 + Size(child);
    assert Exact(lr.g, [child][0]) && Major(lr.g, [child][0]) in lr.g.rules[r].rhs[0];
    StandsDeeper(lr.g, r, Major(lr.g, child), lr.g.rules[it.rule].rhs[it.dot]);
  }

  // The rest after the first k trees.
  function Rest(trees: seq<Tree>, k: nat, rest: seq<nat>): seq<nat>
    requires k <= |trees|
  {
    Yields(trees[k..]) + rest
  }

  lemma RestStep(trees: seq<Tree>, k: nat, rest: seq<nat>)
    requires 0 < k <= |trees|
    ensures Rest(trees, k - 1, rest) == Yield(trees[k - 1]) + Rest(trees, k, rest)
  {
    assert trees[k - 1..] == [trees[k - 1]] + trees[k..];
    YieldsSum([trees[k - 1]], trees[k..]);
    assert [trees[k - 1]][..0] == [];
    assert Yields([trees[k - 1]]) == [] + Yield(trees[k - 1]);
  }

  lemma RestAll(trees: seq<Tree>, rest: seq<nat>)
    ensures Rest(trees, 0, rest) == Yields(trees) + rest && Rest(trees, |trees|, rest) == rest
  {
    assert trees[0..] == trees && trees[|trees|..] == [];
  }

  predicate Matching(g: Grammar, trees: seq<Tree>, r: nat) {
    && r < |g.rules| && |trees| == |g.rules[r].rhs|
    && forall i :: 0 <= i < |trees| ==> Exact(g, trees[i]) && Major(g, trees[i]) in g.rules[r].rhs[i]
  }

  // Reading a tree from a state that expects it, before a token that may follow it.
  lemma {:induction false} ReadTree(lr: Lr, lk: Looks, p: Parser, tree: Tree, it: Item, la: nat, rest: seq<nat>)
    returns (n: nat, p': Parser)
    requires LrOk(lr) && Complete(lr, lk) && Exact(lr.g, tree)
    requires GoesOnWith(lr, lk, p, it, la, Major(lr.g, tree)) && |p.stack| + Need(tree) <= YYSTACKDEPTH
    requires |rest| > 0 && rest[0] < NTERMINAL && Begins(lk, lr.g.rules[it.rule].rhs[it.dot + 1..], {la}, rest[0])
    ensures Reads(lr.t, p, Yield(tree) + rest, n, p', rest) && Moved(lr, lk, p, p', it, la)
    decreases Size(tree), 0
  {
    hide LrOk, Complete, Reads, Moved, Has, Begins, Inv, StandsIn;
    if tree.Leaf? {
      n := 1;
      p' := ReadLeaf(lr, lk, p, tree.a, it, la, rest);
    } else if tree.rule in lr.g.optimized {
      var child := OnlyChild(lr, lk, tree);
      UnitChild(lr, lk, p, it, la, tree.rule, child);
      n, p' := ReadTree(lr, lk, p, child, it, la, rest);
    } else {
      var r, children := tree.rule, tree.children;
      GotoNext(lr, lk, p, it, la, r);
      OpensHas(lr, lk, p, it, la, r, rest[0]);
      var m, p1 := ReadChildren(lr, lk, p, r, children, |children|, rest);
      RestAll(children, rest);
      p' := ReadReduction(lr, lk, p, p1, r, it, la, rest);
      n := m + 1;
      ReadsOn(lr.t, p, Yields(children) + rest, m, p1, rest, 1, p', rest);
    }
  }

  lemma OnlyChild(lr: Lr, lk: Looks, tree: Tree) returns (child: Tree)
    requires LrOk(lr) && Complete(lr, lk) && Exact(lr.g, tree) && tree.Node? && tree.rule in lr.g.optimized
    ensures tree == Node(tree.rule, [child])
  {
    child := tree.children[0];
    assert tree.children == [child];
  }

  // The state reached behind k trees expects the next.
  lemma ChildExpected(lr: Lr, lk: Looks, p: Parser, p1: Parser, r: nat, children: seq<Tree>, k: nat, la: nat)
    requires LrOk(lr) && Matching(lr.g, children, r) && k < |children| && |lr.g.rules| == YYNRULE
    requires |lr.items| == YY_SHIFT_COUNT + 1 && Above(lr, p, p1, k) && Has(lr, lk, Top(p1), Item(r, k), la)
    ensures GoesOnWith(lr, lk, p1, Item(r, k), la, Major(lr.g, children[k]))
  {
    hide LrOk, Inv, StandsIn;
    assert Exact(lr.g, children[k]);
    InPlace(lr.g, Major(lr.g, children[k]), lr.g.rules[r].rhs[k]);
  }

  lemma AboveMore(lr: Lr, lk: Looks, p: Parser, p1: Parser, p2: Parser, k: nat, it: Item, la: nat)
    requires |lr.g.rules| == YYNRULE && |lr.items| == YY_SHIFT_COUNT + 1
    requires Above(lr, p, p1, k) && Moved(lr, lk, p1, p2, it, la)
    ensures Above(lr, p, p2, k + 1) && |p2.stack| > 0 && Has(lr, lk, Top(p2), Item(it.rule, it.dot + 1), la)
  {
    hide Inv, Has;
  }

  lemma AboveNone(lr: Lr, p: Parser)
    requires Inv(lr, p) && |p.stack| > 0
    ensures Above(lr, p, p, 0)
  {
    hide Inv;
  }

  lemma MatchingAt(g: Grammar, children: seq<Tree>, r: nat, k: nat)
    requires Matching(g, children, r) && k < |children|
    ensures Exact(g, children[k]) && r < |g.rules| && k < |g.rules[r].rhs|
  {
  }

  lemma AboveSize(lr: Lr, p: Parser, p1: Parser, k: nat)
    requires Above(lr, p, p1, k)
    ensures |p1.stack| == |p.stack| + k > 0 && Inv(lr, p1)
  {
  }

  // Reading the first k trees of a rule that may begin in the top state.
  lemma {:induction false} ReadChildren(lr: Lr, lk: Looks, p: Parser, r: nat, children: seq<Tree>, k: nat,
      rest: seq<nat>)
    returns (n: nat, p': Parser)
    requires LrOk(lr) && Complete(lr, lk) && Matching(lr.g, children, r) && k <= |children|
    requires Inv(lr, p) && |lr.g.rules| == YYNRULE && |lr.items| == YY_SHIFT_COUNT + 1 && |p.stack| > 0
    requires |rest| > 0 && rest[0] < NTERMINAL && Has(lr, lk, Top(p), Item(r, 0), rest[0])
    requires |p.stack| + Needs(children) <= YYSTACKDEPTH
    ensures Reads(lr.t, p, Yields(children) + rest, n, p', Rest(children, k, rest))
    ensures Above(lr, p, p', k) && Has(lr, lk, Top(p'), Item(r, k), rest[0])
    decreases Sizes(children), k
  {
    hide *;
    RestAll(children, rest);
    if k == 0 {
      n, p' := 0, p;
      AboveNone(lr, p);
      ReadsNone(lr.t, p, Yields(children) + rest);
    } else {
      var it := Item(r, k - 1);
      var m, p1 := ReadChildren(lr, lk, p, r, children, k - 1, rest);
      RestStep(children, k, rest);
      NeedsAt(children, k - 1);
      SizeAt(children, k - 1);
      CompleteFirsts(lr, lk);
      NextOfRest(lr.g, lk, children, r, k, rest);
      MatchingAt(lr.g, children, r, k - 1);
      AboveSize(lr, p, p1, k - 1);
      ChildExpected(lr, lk, p, p1, r, children, k - 1, rest[0]);
      var l, p2 := ReadTree(lr, lk, p1, children[k - 1], it, rest[0], Rest(children, k, rest));
      ReadsOn(lr.t, p, Yields(children) + rest, m, p1, Rest(children, k - 1, rest), l, p2, Rest(children, k, rest));
      AboveMore(lr, lk, p, p1, p2, k - 1, it, rest[0]);
      n, p' := m + l, p2;
    }
  }

  lemma ReadsNone(t: Tables, p: Parser, ts: seq<nat>)
    ensures Reads(t, p, ts, 0, p, ts)
  {
  }

  lemma CompleteFirsts(lr: Lr, lk: Looks)
    requires LrOk(lr) && Complete(lr, lk)
    ensures FirstsOk(lr.g, lk)
  {
  }

  // What comes after the first k trees may follow them.
  lemma NextOfRest(g: Grammar, lk: Looks, children: seq<Tree>, r: nat, k: nat, rest: seq<nat>)
    requires FirstsOk(g, lk) && Matching(g, children, r) && k <= |children| && |rest| > 0 && rest[0] < NTERMINAL
    ensures r < |g.rules| && k <= |g.rules[r].rhs|
    ensures |Rest(children, k, rest)| > 0 && Rest(children, k, rest)[0] < NTERMINAL
    ensures Begins(lk, g.rules[r].rhs[k..], {rest[0]}, Rest(children, k, rest)[0])
  {
    hide FirstsOk, Begins, Exact, Yields, Major;
    var trees, rhs := children[k..], g.rules[r].rhs[k..];
    forall i | 0 <= i < |trees| ensures Exact(g, trees[i]) && Major(g, trees[i]) in rhs[i] {
      assert trees[i] == children[k + i] && rhs[i] == g.rules[r].rhs[k + i];
    }
    NextToken(g, lk, trees, rhs, rest);
    YieldTokens(g, trees);
  }

  lemma {:induction false} YieldTokens(g: Grammar, trees: seq<Tree>)
    requires forall i :: 0 <= i < |trees| ==> Exact(g, trees[i])
    ensures forall j :: 0 <= j < |Yields(trees)| ==> 0 < Yields(trees)[j] < NTERMINAL
    decreases Sizes(trees), |trees|
  {
    if trees != [] {
      var n := |trees| - 1;
      YieldTokens(g, trees[..n]);
      assert Exact(g, trees[n]) && Sizes(trees) == Sizes(trees[..n]) + Size(trees[n]);
      if trees[n].Node? { YieldTokens(g, trees[n].children); }
      var before, last := Yields(trees[..n]), Yield(trees[n]);
      assert Yields(trees) == before + last;
      match trees[n]
      case Leaf(a) => assert last == [a];
      case Node(_, children) => assert last == Yields(children);
    }
  }

  /** Every sentence whose parse fits the stack of 100 entries is accepted, with no error message. */
  lemma {:induction false} SentenceIsAccepted(lr: Lr, lk: Looks, tree: Tree) returns (p': Parser)
    requires LrOk(lr) && Complete(lr, lk) && Exact(lr.g, tree)
    requires tree.Node? && lr.g.rules[tree.rule].lhs == lr.g.start && Need(tree) < 100
    ensures Feed(lr.t, START, Yield(tree) + [0], p') && p'.errors == 0 && p'.accepted == [Yield(tree)]
  {
    hide Complete, Reads, Begins, Feed, Sentence, Has, Consistent;
    var r, children := tree.rule, tree.children;
    GrammarSize(lr);
    RuleSize(lr, r);
    StartHolds(lr);
    StartItem(lr, lk, r);
    var n, p1 := ReadChildren(lr, lk, START, r, children, |children|, [0]);
    RestAll(children, [0]);
    p' := AcceptRound(lr, lk, p1, r);
    ReadsFeed(lr.t, START, Yields(children) + [0], 0, n, p1, p');
    YieldTokens(lr.g, children);
    AcceptedIsSentence(lr, Yield(tree), p');
  }

  lemma StartItem(lr: Lr, lk: Looks, r: nat)
    requires LrOk(lr) && Complete(lr, lk) && r < YYNRULE && |lr.g.rules| == YYNRULE
    requires lr.g.rules[r].lhs == lr.g.start
    ensures |lr.items| == YY_SHIFT_COUNT + 1 && Item(r, 0) in lr.items[0] && r !in lr.g.optimized
    ensures Has(lr, lk, 0, Item(r, 0), 0)
  {
  }

  // The reduction of a start rule on an otherwise empty stack.
  lemma AcceptRound(lr: Lr, lk: Looks, p: Parser, r: nat) returns (p': Parser)
    requires LrOk(lr) && Complete(lr, lk) && r < YYNRULE && |lr.g.rules| == YYNRULE && |lr.items| == YY_SHIFT_COUNT + 1
    requires lr.g.rules[r].lhs == lr.g.start && Above(lr, START, p, |lr.g.rules[r].rhs|)
    requires Has(lr, lk, Top(p), Item(r, |lr.g.rules[r].rhs|), 0)
    ensures Ready(lr.t, p, 0) && Round(lr.t, p, 0) == (p', true) && |p'.stack| == 1 && p'.errors == 0
  {
    RuleSize(lr, r);
    StartItem(lr, lk, r);
    GotoExists(lr, 0, r);
    RoundKeeps(lr, p, 0);
    ReduceNext(lr, lk, p, r, 0);
    hide LrOk, Complete, Inv, Action, Has;
    p' := Reduce(lr.t, p, r);
    assert p.stack[0] == START.stack[0];
  }
}
