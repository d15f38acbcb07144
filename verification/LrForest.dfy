/** Derivation trees for the parser's stack: every stack entry carries a tree,
    and what the items of a state say about the symbols below it holds of the
    trees. */
module LrForest {
  import opened LrTables

  // A token as it was given to the parser, or a rule with the trees of its right-hand side.
  datatype Tree = Leaf(a: nat) | Node(rule: nat, children: seq<Tree>)

  function Yield(tree: Tree): seq<nat> {
    match tree
    case Leaf(a) => [a]
    case Node(_, children) => Yields(children)
  }

  function Yields(trees: seq<Tree>): seq<nat> {
    if trees == [] then [] else Yields(trees[..|trees| - 1]) + Yield(trees[|trees| - 1])
  }

  // The number of tokens and rules in a tree.
  function Size(tree: Tree): (n: nat)
    ensures n > 0
  {
    match tree
    case Leaf(_) => 1
    case Node(_, children) => 1 + Sizes(children)
  }

  function Sizes(trees: seq<Tree>): nat {
    if trees == [] then 0 else Sizes(trees[..|trees| - 1]) + Size(trees[|trees| - 1])
  }

  lemma SizesSnoc(trees: seq<Tree>, tree: Tree)
    ensures Sizes(trees + [tree]) == Sizes(trees) + Size(tree)
  {
    assert (trees + [tree])[..|trees|] == trees;
  }

  lemma {:induction false} SizesSum(x: seq<Tree>, y: seq<Tree>)
    ensures Sizes(x + y) == Sizes(x) + Sizes(y)
  {
    if y == [] {
      assert x + y == x;
    } else {
      var n := |y| - 1;
      assert (x + y)[..|x| + n] == x + y[..n];
      SizesSum(x, y[..n]);
    }
  }

  // The tree may stand at a place of a rule: as a token taken for an admitted terminal, or as an admitted nonterminal.
  predicate Fits(t: Tables, g: Grammar, tree: Tree, place: set<nat>) {
    match tree
    case Leaf(a) => exists x :: x in place && TakenFor(t, a, x)
    case Node(r, _) => r < |g.rules| && g.rules[r].lhs in place
  }

  /** A derivation of the grammar, its tokens being read up to fallback and wildcard. */
  predicate Derivation(t: Tables, g: Grammar, tree: Tree) {
    match tree
    case Leaf(_) => true
    case Node(r, children) =>
      && r < |g.rules| && |children| == |g.rules[r].rhs|
      && forall i :: 0 <= i < |children| ==> Derivation(t, g, children[i]) && Fits(t, g, children[i], g.rules[r].rhs[i])
  }

  // The tree, with unit rules put back on top of it, may stand at the place.
  ghost predicate CanStand(t: Tables, g: Grammar, tree: Tree, place: set<nat>) {
    exists whole :: Derivation(t, g, whole) && Fits(t, g, whole, place) && Covers(whole, tree)
  }

  // The same tokens, and no fewer rules.
  predicate Covers(whole: Tree, tree: Tree) {
    Yield(whole) == Yield(tree) && Size(whole) >= Size(tree)
  }

  lemma UnitCovers(r: nat, tree: Tree)
    ensures Covers(Node(r, [tree]), tree)
  {
    assert [tree][..0] == [];
    assert Yields([tree]) == [] + Yield(tree);
    assert Sizes([tree]) == 0 + Size(tree);
  }

  lemma {:induction false} YieldsSum(x: seq<Tree>, y: seq<Tree>)
    ensures Yields(x + y) == Yields(x) + Yields(y)
  {
    if y == [] {
      assert x + y == x;
    } else {
      var n := |y| - 1;
      assert (x + y)[..|x| + n] == x + y[..n];
      YieldsSum(x, y[..n]);
    }
  }

  /** The unit rules that were optimized out can be put back: the tree becomes one for the symbol it stands for. */
  lemma {:induction false} Unfold(t: Tables, g: Grammar, chain: seq<nat>, tree: Tree, x: nat) returns (whole: Tree)
    requires Derivation(t, g, tree) && tree.Node? && Chain(g, chain, g.rules[tree.rule].lhs, x)
    ensures Derivation(t, g, whole) && whole.Node? && g.rules[whole.rule].lhs == x && Covers(whole, tree)
  {
    if chain == [] {
      whole := tree;
    } else {
      var r := chain[0];
      var y :| y in Alternatives(g, r) && Chain(g, chain[1..], g.rules[tree.rule].lhs, y);
      var part := Unfold(t, g, chain[1..], tree, y);
      whole := Node(r, [part]);
      UnitCovers(r, part);
    }
  }

  lemma NodeCanStand(t: Tables, g: Grammar, tree: Tree, place: set<nat>)
    requires Derivation(t, g, tree) && tree.Node? && StandsIn(g, g.rules[tree.rule].lhs, place)
    ensures CanStand(t, g, tree, place)
  {
    var chain, x :| x in place && Chain(g, chain, g.rules[tree.rule].lhs, x);
    var whole := Unfold(t, g, chain, tree, x);
    assert Fits(t, g, whole, place);
  }

  lemma LeafCanStand(t: Tables, g: Grammar, a: nat, x: nat, place: set<nat>)
    requires TakenFor(t, a, x) && x in place
    ensures CanStand(t, g, Leaf(a), place)
  {
    assert Fits(t, g, Leaf(a), place);
    assert Derivation(t, g, Leaf(a));
  }

  /** The stack. */

  datatype StackEntry = StackEntry(stateno: nat, major: nat)

  function Major(g: Grammar, tree: Tree): nat {
    match tree
    case Leaf(a) => a
    case Node(r, _) => if r < |g.rules| then g.rules[r].lhs else 0
  }

  // The items of state q2, pushed on state q1 with the given tree, were in q1 one place earlier, where the tree stands.
  ghost predicate Link(t: Tables, g: Grammar, items: ItemSets, q1: nat, q2: nat, tree: Tree)
    requires |g.rules| == YYNRULE && |items| == YY_SHIFT_COUNT + 1
  {
    && IsState(q1) && IsState(q2)
    && forall it :: it in Items(g, items, q2) && it.dot > 0 ==>
         && IsItem(g, it) && Item(it.rule, it.dot - 1) in Items(g, items, q1)
         && CanStand(t, g, tree, g.rules[it.rule].rhs[it.dot - 1])
  }

  ghost predicate Forest(t: Tables, g: Grammar, items: ItemSets, stack: seq<StackEntry>, trees: seq<Tree>)
    requires |g.rules| == YYNRULE && |items| == YY_SHIFT_COUNT + 1
  {
    && |stack| == |trees| + 1 && stack[0].stateno == 0
    && (forall k :: 0 <= k < |stack| - 1 ==> stack[k].stateno <= YY_MAX_SHIFT)
    && (forall k :: 0 < k < |stack| ==> IsState(stack[k].stateno) && stack[k].stateno != 0)
    && (forall k :: 0 <= k < |trees| ==> Derivation(t, g, trees[k]))
    && (forall k :: 0 <= k < |trees| ==>
          stack[k + 1].major == Major(g, trees[k])
              && Link(t, g, items, stack[k].stateno, stack[k + 1].stateno, trees[k]))
    && (var top := stack[|stack| - 1].stateno;
        top > YY_MAX_SHIFT ==> ReducedAtOnce(g, top - YY_MIN_REDUCE))
  }

  // One place down the stack.
  lemma OneDown(t: Tables, g: Grammar, items: ItemSets, stack: seq<StackEntry>, trees: seq<Tree>, k: nat, it: Item)
    returns (whole: Tree)
    requires ItemsFit(g, items) && Forest(t, g, items, stack, trees)
    requires k < |stack| && IsState(stack[k].stateno) && it in Items(g, items, stack[k].stateno) && IsItem(g, it)
        && it.dot > 0
    ensures 0 < k <= |trees| && IsState(stack[k - 1].stateno)
    ensures Item(it.rule, it.dot - 1) in Items(g, items, stack[k - 1].stateno)
    ensures Derivation(t, g, whole) && Fits(t, g, whole, g.rules[it.rule].rhs[it.dot - 1])
    ensures Covers(whole, trees[k - 1])
  {
    hide Derivation, Fits, Covers;
    assert k > 0;
    assert Link(t, g, items, stack[k - 1].stateno, stack[k].stateno, trees[k - 1]);
    var place := g.rules[it.rule].rhs[it.dot - 1];
    assert CanStand(t, g, trees[k - 1], place);
    whole :| Derivation(t, g, whole) && Fits(t, g, whole, place) && Covers(whole, trees[k - 1]);
  }

  // The trees match the first places of rule r.
  predicate Match(t: Tables, g: Grammar, trees: seq<Tree>, r: nat)
    requires r < |g.rules| && |trees| <= |g.rules[r].rhs|
  {
    forall i :: 0 <= i < |trees| ==> Derivation(t, g, trees[i]) && Fits(t, g, trees[i], g.rules[r].rhs[i])
  }

  lemma MatchSnoc(t: Tables, g: Grammar, trees: seq<Tree>, tree: Tree, r: nat)
    requires r < |g.rules| && |trees| < |g.rules[r].rhs| && Match(t, g, trees, r)
    requires Derivation(t, g, tree) && Fits(t, g, tree, g.rules[r].rhs[|trees|])
    ensures Match(t, g, trees + [tree], r)
  {
  }

  // The item sets a stack of this grammar can have.
  ghost predicate ItemsFit(g: Grammar, items: ItemSets) {
    |g.rules| == YYNRULE && |items| == YY_SHIFT_COUNT + 1 && forall it :: it in items[0] ==> it.dot == 0
  }

  /** Reading an item down the stack: its symbols are there, and below them the state it began in. */
  lemma {:induction false} ItemsDown(t: Tables, g: Grammar, items: ItemSets, stack: seq<StackEntry>, trees: seq<Tree>,
      k: nat, it: Item)
    returns (whole: seq<Tree>)
    requires ItemsFit(g, items) && Forest(t, g, items, stack, trees)
    requires k < |stack| && IsState(stack[k].stateno) && it in Items(g, items, stack[k].stateno) && IsItem(g, it)
    ensures it.dot <= k < |trees| + 1 && IsState(stack[k - it.dot].stateno)
    ensures Item(it.rule, 0) in Items(g, items, stack[k - it.dot].stateno)
    ensures |whole| == it.dot && Yields(whole) == Yields(trees[k - it.dot..k])
    ensures Sizes(whole) >= Sizes(trees[k - it.dot..k])
    ensures Match(t, g, whole, it.rule)
    decreases it.dot
  {
    hide *;
    SizesFit(t, g, items, stack, trees, it);
    if it.dot == 0 {
      whole := [];
      EmptyMatch(t, g, trees, k, it.rule);
    } else {
      var tree := OneDown(t, g, items, stack, trees, k, it);
      var rest := ItemsDown(t, g, items, stack, trees, k - 1, Item(it.rule, it.dot - 1));
      whole := rest + [tree];
      MatchSnoc(t, g, rest, tree, it.rule);
      CoversUnfold(tree, trees[k - 1]);
      YieldsStep(rest, tree, trees, k - it.dot, k - 1);
      SizesStep(rest, tree, trees, k - it.dot, k - 1);
    }
  }

  lemma SizesFit(t: Tables, g: Grammar, items: ItemSets, stack: seq<StackEntry>, trees: seq<Tree>, it: Item)
    requires ItemsFit(g, items) && Forest(t, g, items, stack, trees) && IsItem(g, it)
    ensures |g.rules| == YYNRULE && |items| == YY_SHIFT_COUNT + 1 && |stack| == |trees| + 1
    ensures it.rule < |g.rules| && it.dot <= |g.rules[it.rule].rhs|
    ensures it.dot > 0 ==> IsItem(g, Item(it.rule, it.dot - 1))
  {
  }

  lemma EmptyMatch(t: Tables, g: Grammar, trees: seq<Tree>, k: nat, r: nat)
    requires r < |g.rules| && k <= |trees|
    ensures Match(t, g, [], r) && Yields([]) == Yields(trees[k..k]) && Sizes([]) == Sizes(trees[k..k])
  {
    assert trees[k..k] == [];
  }

  lemma CoversUnfold(whole: Tree, tree: Tree)
    requires Covers(whole, tree)
    ensures Yield(whole) == Yield(tree) && Size(whole) >= Size(tree)
  {
  }

  lemma SizesStep(rest: seq<Tree>, tree: Tree, trees: seq<Tree>, lo: nat, k: nat)
    requires lo <= k < |trees| && Sizes(rest) >= Sizes(trees[lo..k]) && Size(tree) >= Size(trees[k])
    ensures Sizes(rest + [tree]) >= Sizes(trees[lo..k + 1])
  {
    hide Sizes, Size;
    SizesSnoc(rest, tree);
    SizesSnoc(trees[lo..k], trees[k]);
    assert trees[lo..k + 1] == trees[lo..k] + [trees[k]];
  }

  lemma YieldsStep(rest: seq<Tree>, tree: Tree, trees: seq<Tree>, lo: nat, k: nat)
    requires lo <= k < |trees| && Yields(rest) == Yields(trees[lo..k]) && Yield(tree) == Yield(trees[k])
    ensures Yields(rest + [tree]) == Yields(trees[lo..k + 1])
  {
    hide Yields, Yield;
    YieldsSnoc(rest, tree);
    YieldsSnoc(trees[lo..k], trees[k]);
    assert trees[lo..k + 1] == trees[lo..k] + [trees[k]];
  }

  lemma YieldsSnoc(trees: seq<Tree>, tree: Tree)
    ensures Yields(trees + [tree]) == Yields(trees) + Yield(tree)
  {
    assert (trees + [tree])[..|trees|] == trees;
  }
}
