/** Why every call of the driver returns: each reduction adds a rule to the
    trees on the stack, and in a grammar without cycles a tree over n tokens
    has only so many. */
module LrTermination {
  import opened LrTables
  import opened LrForest
  import opened LrDriver

  /** A ranking of the symbols: the empty set of tokens aside, a symbol derives only symbols of lower rank by rules
      whose other symbols may vanish. */
  datatype Ranking = Ranking(nullable: set<nat>, rank: nat -> nat, maxRank: nat, maxRhs: nat)

  // Some symbol admitted at the place may derive no token at all.
  predicate MayVanish(rk: Ranking, place: set<nat>) {
    place * rk.nullable != {}
  }

  // The places of a rule other than number i may vanish.
  predicate OthersVanish(rk: Ranking, rhs: seq<set<nat>>, i: nat) {
    forall j :: 0 <= j < |rhs| && j != i ==> MayVanish(rk, rhs[j])
  }

  // There is no cycle of unit and empty reductions.
  ghost predicate Ranked(g: Grammar, rk: Ranking) {
    forall r :: 0 <= r < |g.rules| ==> RuleRanked(rk, g.rules[r])
  }

  ghost predicate RuleRanked(rk: Ranking, rule: Rule) {
    && rk.rank(rule.lhs) <= rk.maxRank && |rule.rhs| <= rk.maxRhs
    && ((forall j :: 0 <= j < |rule.rhs| ==> MayVanish(rk, rule.rhs[j])) ==> rule.lhs in rk.nullable)
    && forall i, x :: 0 <= i < |rule.rhs| && OthersVanish(rk, rule.rhs, i) && x in rule.rhs[i] ==>
         rk.rank(x) < rk.rank(rule.lhs)
  }

  // Products by name, so that they are taken apart only where a lemma says so.
  function Times(a: nat, b: nat): nat {
    a * b
  }

  lemma TimesAdd(a: nat, b: nat, c: nat)
    ensures Times(a, b + c) == Times(a, b) + Times(a, c)
  {
  }

  lemma TimesOne(a: nat)
    ensures Times(a, 0) == 0 && Times(a, 1) == a
  {
  }

  lemma TimesMonotone(a: nat, b: nat, c: nat, d: nat)
    requires a <= c && b <= d
    ensures Times(a, b) <= Times(c, d)
  {
    assert a * b <= a * d <= c * d;
  }

  // The most rules in a tree without tokens whose root has the given rank.
  function EmptyBound(rk: Ranking, rank: nat): (n: nat)
    ensures n > 0
  {
    if rank == 0 then 1 else 1 + Times(EmptyBound(rk, rank - 1), rk.maxRhs)
  }

  lemma {:induction false} EmptyMonotone(rk: Ranking, a: nat, b: nat)
    requires a <= b
    ensures EmptyBound(rk, a) <= EmptyBound(rk, b)
  {
    if a == 0 {
    } else {
      EmptyMonotone(rk, a - 1, b - 1);
      TimesMonotone(EmptyBound(rk, a - 1), rk.maxRhs, EmptyBound(rk, b - 1), rk.maxRhs);
    }
  }

  // The rules of one node on top of a child that has all the tokens, its brothers being empty.
  function NodeBound(rk: Ranking): (n: nat)
    ensures n > 0
  {
    1 + Times(EmptyBound(rk, rk.maxRank), rk.maxRhs)
  }

  // The rules a token accounts for, from where a branch with that token alone begins.
  function TokenBound(rk: Ranking): nat {
    Times(NodeBound(rk), rk.maxRank + 1)
  }

  // The most rules in a tree over n > 0 tokens whose root has the given rank.
  function FullBound(rk: Ranking, n: nat, rank: nat): nat
    requires n > 0
  {
    Times(TokenBound(rk), 2 * n - 2) + Times(NodeBound(rk), rank + 1)
  }

  function RankOf(g: Grammar, rk: Ranking, tree: Tree): nat {
    match tree
    case Leaf(_) => 0
    case Node(r, _) => if r < |g.rules| then rk.rank(g.rules[r].lhs) else 0
  }

  // What is to be shown of every tree.
  ghost predicate Bounded(g: Grammar, rk: Ranking, tree: Tree) {
    if Yield(tree) == [] then
      tree.Node? && tree.rule < |g.rules| && g.rules[tree.rule].lhs in rk.nullable
          && Size(tree) <= EmptyBound(rk, RankOf(g, rk, tree))
    else Size(tree) <= FullBound(rk, |Yield(tree)|, RankOf(g, rk, tree))
  }

  ghost predicate AllBounded(g: Grammar, rk: Ranking, trees: seq<Tree>) {
    forall i :: 0 <= i < |trees| ==> Bounded(g, rk, trees[i]) && RankOf(g, rk, trees[i]) <= rk.maxRank
  }

  // The number of trees with tokens.
  function Filled(trees: seq<Tree>): (m: nat)
    ensures m <= |trees|
  {
    if trees == [] then 0 else Filled(trees[..|trees| - 1]) + if Yield(trees[|trees| - 1]) == [] then 0 else 1
  }

  // Each token counts twice, less one for each tree that has some.
  lemma {:induction false} FilledTokens(trees: seq<Tree>)
    ensures Filled(trees) <= |Yields(trees)|
  {
    if trees != [] { FilledTokens(trees[..|trees| - 1]); }
  }

  // One tree's share.
  lemma TreeShare(g: Grammar, rk: Ranking, tree: Tree)
    requires Bounded(g, rk, tree) && RankOf(g, rk, tree) <= rk.maxRank
    ensures var n := |Yield(tree)|;
            Size(tree) <= EmptyBound(rk, rk.maxRank) + if n == 0 then 0 else Times(TokenBound(rk), 2 * n - 1)
  {
    hide Times, RankOf, EmptyBound, NodeBound;
    var rank, n := RankOf(g, rk, tree), |Yield(tree)|;
    EmptyMonotone(rk, rank, rk.maxRank);
    if n > 0 {
      TimesMonotone(NodeBound(rk), rank + 1, NodeBound(rk), rk.maxRank + 1);
      TimesAdd(TokenBound(rk), 2 * n - 2, 1);
      TimesOne(TokenBound(rk));
    }
  }

  lemma {:induction false} TreesShare(g: Grammar, rk: Ranking, trees: seq<Tree>)
    requires AllBounded(g, rk, trees)
    ensures Filled(trees) <= |Yields(trees)|
    ensures Sizes(trees) <= Times(EmptyBound(rk, rk.maxRank), |trees|)
        + Times(TokenBound(rk), 2 * |Yields(trees)| - Filled(trees))
  {
    FilledTokens(trees);
    hide Bounded, RankOf, EmptyBound, TokenBound, Times;
    if trees != [] {
      var k := |trees| - 1;
      var e, w, s, m, n := EmptyBound(rk, rk.maxRank), TokenBound(rk), |Yields(trees[..k])|, Filled(trees[..k]),
          |Yield(trees[k])|;
      TreesShare(g, rk, trees[..k]);
      TreeShare(g, rk, trees[k]);
      TimesAdd(e, k, 1);
      TimesOne(e);
      if n > 0 { TimesAdd(w, 2 * s - m, 2 * n - 1); }
    }
  }

  // Trees without tokens but for number i.
  lemma {:induction false} EmptyBrothers(g: Grammar, rk: Ranking, trees: seq<Tree>, i: nat)
    requires AllBounded(g, rk, trees) && i < |trees| && forall j :: 0 <= j < |trees| && j != i ==> Yield(trees[j]) == []
    ensures Sizes(trees) <= Times(EmptyBound(rk, rk.maxRank), |trees| - 1) + Size(trees[i])
    ensures Yields(trees) == Yield(trees[i])
  {
    hide Bounded, RankOf, EmptyBound, Times;
    var k := |trees| - 1;
    if i < k {
      EmptyBrothers(g, rk, trees[..k], i);
      TreeShare(g, rk, trees[k]);
      TimesAdd(EmptyBound(rk, rk.maxRank), k - 1, 1);
      TimesOne(EmptyBound(rk, rk.maxRank));
    } else {
      AllEmpty(g, rk, trees[..k]);
    }
  }

  lemma {:induction false} AllEmpty(g: Grammar, rk: Ranking, trees: seq<Tree>)
    requires AllBounded(g, rk, trees) && forall j :: 0 <= j < |trees| ==> Yield(trees[j]) == []
    ensures Sizes(trees) <= Times(EmptyBound(rk, rk.maxRank), |trees|) && Yields(trees) == []
  {
    hide Bounded, RankOf, EmptyBound, Times;
    TimesOne(EmptyBound(rk, rk.maxRank));
    if trees != [] {
      var k := |trees| - 1;
      AllEmpty(g, rk, trees[..k]);
      TreeShare(g, rk, trees[k]);
      TimesAdd(EmptyBound(rk, rk.maxRank), k, 1);
    }
  }

  // How many trees have tokens.
  lemma {:induction false} FilledCases(trees: seq<Tree>) returns (i: nat)
    ensures Filled(trees) == 0 ==> (forall j :: 0 <= j < |trees| ==> Yield(trees[j]) == []) && Yields(trees) == []
    ensures Filled(trees) == 1 ==> i < |trees| && Yield(trees[i]) != [] && forall j :: 0 <= j < |trees| && j != i ==>
        Yield(trees[j]) == []
  {
    i := 0;
    if trees != [] {
      var k := |trees| - 1;
      i := FilledCases(trees[..k]);
      if Yield(trees[k]) != [] { i := k; }
    }
  }

  // A child without tokens makes its place one that may vanish.
  lemma EmptyChild(t: Tables, g: Grammar, rk: Ranking, tree: Tree, place: set<nat>)
    requires Fits(t, g, tree, place) && Bounded(g, rk, tree) && Yield(tree) == []
    ensures MayVanish(rk, place)
  {
    hide EmptyBound, FullBound;
    assert g.rules[tree.rule].lhs in place * rk.nullable;
  }

  // A node's child at a place whose brothers may vanish has a lower rank.
  lemma LowerRank(t: Tables, g: Grammar, rk: Ranking, tree: Tree, i: nat)
    requires Derivation(t, g, tree) && Ranked(g, rk) && tree.Node? && i < |tree.children| && tree.children[i].Node?
    requires OthersVanish(rk, g.rules[tree.rule].rhs, i)
    ensures RankOf(g, rk, tree.children[i]) < RankOf(g, rk, tree)
  {
    assert RuleRanked(rk, g.rules[tree.rule]);
    assert Fits(t, g, tree.children[i], g.rules[tree.rule].rhs[i]);
  }

  lemma {:induction false} SizesAtMost(trees: seq<Tree>, e: nat)
    requires forall i :: 0 <= i < |trees| ==> Size(trees[i]) <= e
    ensures Sizes(trees) <= Times(e, |trees|)
  {
    hide Times;
    TimesOne(e);
    if trees != [] {
      SizesAtMost(trees[..|trees| - 1], e);
      TimesAdd(e, |trees| - 1, 1);
    }
  }

  // The places whose children have no tokens may vanish.
  lemma EmptyPlaces(t: Tables, g: Grammar, rk: Ranking, tree: Tree, i: int)
    requires Derivation(t, g, tree) && tree.Node? && AllBounded(g, rk, tree.children)
    requires forall j :: 0 <= j < |tree.children| && j != i ==> Yield(tree.children[j]) == []
    ensures forall j :: 0 <= j < |g.rules[tree.rule].rhs| && j != i ==> MayVanish(rk, g.rules[tree.rule].rhs[j])
  {
    hide Bounded, Yield, MayVanish, RankOf;
    var rhs := g.rules[tree.rule].rhs;
    forall j | 0 <= j < |rhs| && j != i ensures MayVanish(rk, rhs[j]) {
      EmptyChild(t, g, rk, tree.children[j], rhs[j]);
    }
  }

  lemma RuleOf(t: Tables, g: Grammar, rk: Ranking, tree: Tree)
    requires Derivation(t, g, tree) && Ranked(g, rk) && tree.Node?
    ensures tree.rule < |g.rules| && |tree.children| == |g.rules[tree.rule].rhs| <= rk.maxRhs
    ensures RankOf(g, rk, tree) == rk.rank(g.rules[tree.rule].lhs) <= rk.maxRank
    ensures (forall j :: 0 <= j < |g.rules[tree.rule].rhs| ==> MayVanish(rk, g.rules[tree.rule].rhs[j])) ==>
              g.rules[tree.rule].lhs in rk.nullable
    ensures Size(tree) == 1 + Sizes(tree.children) && Yield(tree) == Yields(tree.children)
  {
    hide MayVanish, OthersVanish;
    assert RuleRanked(rk, g.rules[tree.rule]);
  }

  // A child of a node without tokens has few rules.
  lemma EmptyChildSize(t: Tables, g: Grammar, rk: Ranking, tree: Tree, j: nat)
    requires Derivation(t, g, tree) && Ranked(g, rk) && tree.Node? && AllBounded(g, rk, tree.children)
    requires j < |tree.children| && Yield(tree.children[j]) == [] && OthersVanish(rk, g.rules[tree.rule].rhs, j)
    ensures RankOf(g, rk, tree) > 0 && Size(tree.children[j]) <= EmptyBound(rk, RankOf(g, rk, tree) - 1)
  {
    hide OthersVanish, Derivation, Ranked, FullBound, EmptyBound, RankOf;
    LowerRank(t, g, rk, tree, j);
    EmptyMonotone(rk, RankOf(g, rk, tree.children[j]), RankOf(g, rk, tree) - 1);
  }

  // The size of a node whose children have few rules each.
  lemma EmptySize(rk: Ranking, children: seq<Tree>, rank: nat)
    requires |children| <= rk.maxRhs
    requires forall j :: 0 <= j < |children| ==> rank > 0 && Size(children[j]) <= EmptyBound(rk, rank - 1)
    ensures 1 + Sizes(children) <= EmptyBound(rk, rank)
  {
    hide Times, Size, Sizes;
    if children == [] {
      NoSizes();
    } else {
      assert Size(children[0]) <= EmptyBound(rk, rank - 1);
      SizesAtMost(children, EmptyBound(rk, rank - 1));
      TimesMonotone(EmptyBound(rk, rank - 1), |children|, EmptyBound(rk, rank - 1), rk.maxRhs);
    }
  }

  lemma NoSizes()
    ensures Sizes([]) == 0
  {
  }

  // A node none of whose children has tokens.
  lemma EmptyNode(t: Tables, g: Grammar, rk: Ranking, tree: Tree)
    requires Derivation(t, g, tree) && Ranked(g, rk) && tree.Node? && AllBounded(g, rk, tree.children)
    requires forall j :: 0 <= j < |tree.children| ==> Yield(tree.children[j]) == []
    requires Yield(tree) == []
    ensures Bounded(g, rk, tree)
  {
    RuleOf(t, g, rk, tree);
    EmptyPlaces(t, g, rk, tree, -1);
    hide Times, MayVanish, FullBound, Derivation, Ranked, AllBounded, RankOf, Yield, Size, Sizes, EmptyBound,
        OthersVanish;
    forall j | 0 <= j < |tree.children|
      ensures RankOf(g, rk, tree) > 0 && Size(tree.children[j]) <= EmptyBound(rk, RankOf(g, rk, tree) - 1)
    {
      AllButOne(rk, g.rules[tree.rule].rhs, j);
      EmptyChildSize(t, g, rk, tree, j);
    }
    EmptySize(rk, tree.children, RankOf(g, rk, tree));
  }

  lemma AllButOne(rk: Ranking, rhs: seq<set<nat>>, i: nat)
    requires forall j :: 0 <= j < |rhs| && j != i ==> MayVanish(rk, rhs[j])
    ensures OthersVanish(rk, rhs, i)
  {
  }

  // The size of a node one of whose k children has all the tokens: a token, or a node of lower rank.
  lemma ThinSize(rk: Ranking, size: nat, child: nat, k: nat, n: nat, rank: nat, childRank: nat)
    requires n > 0 && 0 < k <= rk.maxRhs && size <= 1 + Times(EmptyBound(rk, rk.maxRank), k - 1) + child
    requires child == 1 || (childRank < rank && child <= FullBound(rk, n, childRank))
    ensures size <= FullBound(rk, n, rank)
  {
    hide Times, EmptyBound;
    var e, b := EmptyBound(rk, rk.maxRank), NodeBound(rk);
    TimesMonotone(e, k, e, rk.maxRhs);
    TimesAdd(e, k - 1, 1);
    TimesOne(e);
    TimesOne(b);
    if child == 1 {
      TimesMonotone(b, 1, b, rank + 1);
    } else {
      TimesAdd(b, childRank + 1, 1);
      TimesMonotone(b, childRank + 2, b, rank + 1);
    }
  }

  // A node whose child number i alone has tokens.
  lemma ThinNode(t: Tables, g: Grammar, rk: Ranking, tree: Tree, i: nat)
    requires Derivation(t, g, tree) && Ranked(g, rk) && tree.Node? && AllBounded(g, rk, tree.children)
    requires i < |tree.children| && Yield(tree.children[i]) != []
    requires forall j :: 0 <= j < |tree.children| && j != i ==> Yield(tree.children[j]) == []
    ensures Bounded(g, rk, tree)
  {
    RuleOf(t, g, rk, tree);
    EmptyPlaces(t, g, rk, tree, i);
    AllButOne(rk, g.rules[tree.rule].rhs, i);
    EmptyBrothers(g, rk, tree.children, i);
    var child := tree.children[i];
    assert Bounded(g, rk, child);
    if child.Node? { LowerRank(t, g, rk, tree, i); } else { assert Size(child) == 1; }
    hide Times, MayVanish, Derivation, Ranked, AllBounded, RankOf, Yield, FullBound, EmptyBound, Size;
    ThinSize(rk, Size(tree), Size(child), |tree.children|, |Yield(child)|, RankOf(g, rk, tree), RankOf(g, rk, child));
  }

  // A node with two or more children that have tokens.
  lemma WideNode(t: Tables, g: Grammar, rk: Ranking, tree: Tree)
    requires Derivation(t, g, tree) && Ranked(g, rk) && tree.Node? && AllBounded(g, rk, tree.children)
    requires Filled(tree.children) >= 2
    ensures Bounded(g, rk, tree)
  {
    hide Times, OthersVanish, MayVanish, EmptyBound, TokenBound, Filled;
    var e, w, n, m := EmptyBound(rk, rk.maxRank), TokenBound(rk), |Yields(tree.children)|, Filled(tree.children);
    assert RuleRanked(rk, g.rules[tree.rule]);
    TreesShare(g, rk, tree.children);
    TimesMonotone(e, |tree.children|, e, rk.maxRhs);
    TimesMonotone(w, 2 * n - m, w, 2 * n - 2);
    TimesOne(NodeBound(rk));
    TimesMonotone(NodeBound(rk), 1, NodeBound(rk), RankOf(g, rk, tree) + 1);
  }

  /** A derivation tree has no more rules than its number of tokens and the rank of its root allow. */
  lemma {:induction false} TreeBounded(t: Tables, g: Grammar, rk: Ranking, tree: Tree)
    requires Derivation(t, g, tree) && Ranked(g, rk)
    ensures Bounded(g, rk, tree) && RankOf(g, rk, tree) <= rk.maxRank
    decreases tree
  {
    match tree
    case Leaf(a) =>
      TimesOne(TokenBound(rk));
      TimesOne(NodeBound(rk));
    case Node(r, children) =>
      assert RuleRanked(rk, g.rules[r]);
      forall i | 0 <= i < |children| ensures Bounded(g, rk, children[i]) && RankOf(g, rk, children[i]) <= rk.maxRank {
        TreeBounded(t, g, rk, children[i]);
      }
      var i := FilledCases(children);
      hide Bounded, RuleRanked, Derivation;
      if Filled(children) == 0 {
        EmptyNode(t, g, rk, tree);
      } else if Filled(children) == 1 {
        ThinNode(t, g, rk, tree, i);
      } else {
        WideNode(t, g, rk, tree);
      }
  }

  /** The driver. */

  // The most rules in the trees on a stack over the shifted tokens.
  function StackBound(rk: Ranking, shifted: seq<nat>): nat {
    Times(EmptyBound(rk, rk.maxRank), YYSTACKDEPTH) + Times(TokenBound(rk), 2 * |shifted|)
  }

  // The trees on the stack have n tokens and rules or more.
  ghost predicate Grown(lr: Lr, p: Parser, n: nat) {
    exists trees :: Stacked(lr, p, trees) && Sizes(trees) >= n
  }

  lemma GrownBound(lr: Lr, rk: Ranking, p: Parser, n: nat)
    requires Grown(lr, p, n) && Ranked(lr.g, rk)
    ensures n <= StackBound(rk, p.shifted)
  {
    hide Ranked, Link, Derivation, Bounded, EmptyBound, TokenBound, Times, Yields, RankOf;
    var trees :| Stacked(lr, p, trees) && Sizes(trees) >= n;
    forall i | 0 <= i < |trees| ensures Bounded(lr.g, rk, trees[i]) && RankOf(lr.g, rk, trees[i]) <= rk.maxRank {
      TreeBounded(lr.t, lr.g, rk, trees[i]);
    }
    TreesShare(lr.g, rk, trees);
    TimesMonotone(EmptyBound(rk, rk.maxRank), |trees|, EmptyBound(rk, rk.maxRank), YYSTACKDEPTH);
    TimesMonotone(TokenBound(rk), 2 * |Yields(trees)| - Filled(trees), TokenBound(rk), 2 * |Yields(trees)|);
  }

  // A reduction adds a rule, unless it ends the call.
  lemma ReduceGrows(lr: Lr, p: Parser, r: nat, n: nat)
    requires LrOk(lr) && Inv(lr, p) && Grown(lr, p, n)
    requires |p.stack| > 0 && IsState(Top(p)) && |lr.g.rules| == YYNRULE && |lr.items| == YY_SHIFT_COUNT + 1
    requires MayReduce(lr.g, lr.items, Top(p), r)
    ensures CanReduce(lr.t, p, r)
    ensures var q := Reduce(lr.t, p, r); |q.stack| > 1 ==> q.shifted == p.shifted && Grown(lr, q, n + 1)
  {
    hide LrOk, Derivation, Forest, Inv, GotoOk, Yields, Yield, Sizes, Size, ItemsFit, MayReduce, ShiftOk, Stacked;
    ReduceKeeps(lr, p, r);
    StackFits(lr, p);
    var trees :| Stacked(lr, p, trees) && Sizes(trees) >= n;
    StackedParts(lr, p, trees);
    var tree := HandleOnTop(lr, p.stack, trees, r);
    var m, k := |lr.g.rules[r].rhs|, |trees|;
    GotoGoesOn(lr, p.stack, trees, k - m, lr.g.rules[r].lhs);
    var act := ReduceAction(lr.t, p.stack[k - m].stateno, lr.g.rules[r].lhs);
    var q := Reduce(lr.t, p, r);
    if |q.stack| > 1 {
      ReducedStacked(lr, p, trees, m, tree, act);
      SizesSnoc(trees[..k - m], tree);
      assert trees == trees[..k - m] + trees[k - m..];
      SizesSum(trees[..k - m], trees[k - m..]);
    }
  }

  lemma StackedParts(lr: Lr, p: Parser, trees: seq<Tree>)
    requires Stacked(lr, p, trees)
    ensures ItemsFit(lr.g, lr.items) && Forest(lr.t, lr.g, lr.items, p.stack, trees) && |p.stack| == |trees| + 1
  {
    hide Link, Derivation;
  }

  lemma RoundGrows(lr: Lr, p: Parser, a: nat, n: nat)
    requires LrOk(lr) && Inv(lr, p) && a < NTERMINAL && Grown(lr, p, n)
    ensures Ready(lr.t, p, a)
    ensures var (q, more) := Round(lr.t, p, a); more && |q.stack| > 1 ==> q.shifted == p.shifted && Grown(lr, q, n + 1)
  {
    hide LrOk, Inv, Grown, MayReduce, ShiftOk, CanReduce, Reduce;
    RoundKeeps(lr, p, a);
    ActionKinds(lr, p, a);
    var act := Action(lr.t, p, a);
    if YY_MAX_SHIFTREDUCE < act <= YY_MAX_REDUCE { ReduceGrows(lr, p, act - YY_MIN_REDUCE, n); }
  }

  // The call returns, within the given number of rounds.
  ghost predicate Returns(t: Tables, p: Parser, a: nat, bound: nat) {
    exists n: nat, q :: n <= bound && Call(t, p, a, n, q)
  }

  lemma ReturnsNext(t: Tables, p: Parser, a: nat, bound: nat)
    requires Ready(t, p, a)
    requires var (q, more) := Round(t, p, a); more && |q.stack| > 1 ==> Returns(t, q, a, bound)
    ensures Returns(t, p, a, bound + 1)
  {
    hide Ready, Round;
    var (q, more) := Round(t, p, a);
    if more && |q.stack| > 1 {
      var n: nat, p' :| n <= bound && Call(t, q, a, n, p');
      assert Call(t, p, a, n + 1, p');
    } else {
      assert Call(t, p, a, 1, q);
    }
  }

  lemma {:induction false} GrownReturns(lr: Lr, rk: Ranking, p: Parser, a: nat, n: nat)
    requires LrOk(lr) && Inv(lr, p) && Ranked(lr.g, rk) && a < NTERMINAL && Grown(lr, p, n)
    ensures n <= StackBound(rk, p.shifted) && Returns(lr.t, p, a, StackBound(rk, p.shifted) - n + 1)
    decreases StackBound(rk, p.shifted) - n
  {
    hide LrOk, Inv, Ranked, Grown, StackBound, Ready, Round, Returns;
    GrownBound(lr, rk, p, n);
    RoundKeeps(lr, p, a);
    RoundGrows(lr, p, a, n);
    var (q, more) := Round(lr.t, p, a);
    if more && |q.stack| > 1 {
      GrownBound(lr, rk, q, n + 1);
      GrownReturns(lr, rk, q, a, n + 1);
    }
    ReturnsNext(lr.t, p, a, StackBound(rk, p.shifted) - n);
  }

  /** For consistent tables and a ranked grammar every call of sqlite3Parser returns, whatever the token. */
  lemma {:induction false} EveryCallReturns(lr: Lr, rk: Ranking, p: Parser, a: nat)
    requires LrOk(lr) && Inv(lr, p) && Ranked(lr.g, rk) && a < NTERMINAL
    ensures Returns(lr.t, p, a, StackBound(rk, p.shifted) + 1)
  {
    hide LrOk, Ranked, Link, Derivation, Yields;
    assert Grown(lr, p, 0);
    GrownReturns(lr, rk, p, a, 0);
  }

  /** So every stream of tokens is taken to its end. */
  lemma {:induction false} EveryStreamReturns(lr: Lr, rk: Ranking, p: Parser, tokens: seq<nat>) returns (q: Parser)
    requires LrOk(lr) && Inv(lr, p) && Ranked(lr.g, rk) && forall i :: 0 <= i < |tokens| ==> tokens[i] < NTERMINAL
    ensures Feed(lr.t, p, tokens, q)
    decreases |tokens|
  {
    hide LrOk, Inv, Ranked, Call;
    if tokens == [] {
      q := p;
    } else {
      EveryCallReturns(lr, rk, p, tokens[0]);
      var n: nat, r :| n <= StackBound(rk, p.shifted) + 1 && Call(lr.t, p, tokens[0], n, r);
      CallKeeps(lr, p, tokens[0], n, r);
      q := EveryStreamReturns(lr, rk, r, tokens[1..]);
    }
  }
}
