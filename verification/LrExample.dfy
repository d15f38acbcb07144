/** Tables that meet every condition of LrDriver and LrCompleteness, for a
    grammar whose only sentence is the token 1. */
module LrExample {
  import opened LrTables
  import opened Wrappers
  import opened LrForest
  import opened LrDriver
  import opened LrCompleteness

  const S := 200

  function OneTables(): Tables {
    Tables(
      seq(YY_ACTTAB_COUNT, i => if i == 11 then 1 else if i == 20 then YY_MIN_REDUCE else YY_ACCEPT_ACTION),
      seq(YY_ACTTAB_COUNT, i => if i == 11 then 1 else if i == 20 then 0 else if i == 300 then S else 999),
      seq(YY_SHIFT_COUNT + 1, q => if q == 0 then 10 else if q == 1 then 20 else 30),
      seq(YY_REDUCE_COUNT + 1, _ => 100), seq(YY_SHIFT_COUNT + 1, _ => YY_ERROR_ACTION), [],
      seq(YYNRULE, r => RuleInfo(if r == 0 then S else S + 1, 1)))
  }

  function OneGrammar(): Grammar {
    Grammar(seq(YYNRULE, r => Rule(if r == 0 then S else S + 1, [{1}])), S, {})
  }

  function OneLr(): Lr {
    Lr(OneTables(), OneGrammar(),
       seq(YY_SHIFT_COUNT + 1, q => if q == 0 then {Item(0, 0)} else if q == 1 then {Item(0, 1)} else {}))
  }

  function OneLooks(): Looks {
    Looks([map[Item(0, 0) := {0}], map[Item(0, 1) := {0}]], map[S := {1}, S + 1 := {1}], {})
  }

  lemma OneSized()
    ensures Sized(OneTables()) && RulesAgree(OneTables(), OneGrammar()) && |OneLr().items| == YY_SHIFT_COUNT + 1
  {
  }

  // The only entries of the table.
  lemma OneEntries(q: nat, x: nat)
    requires q <= YY_MAX_SHIFT
    ensures Sized(OneTables())
    ensures var e := Entry(OneTables(), OneTables().shiftOfst[q], x);
            x < NTERMINAL ==>
              if q == 0 && x == 1 then e == Some(1)
              else if q == 1 && x == 0 then e == Some(YY_MIN_REDUCE)
              else e == None
    ensures Entry(OneTables(), OneTables().reduceOfst[0], S) == Some(YY_ACCEPT_ACTION)
  {
    OneSized();
  }

  lemma OneItems(q: nat, it: Item)
    requires q <= YY_MAX_SHIFT
    ensures |OneLr().items| == YY_SHIFT_COUNT + 1
    ensures it in OneLr().items[q] <==> it == Item(0, q) && q <= 1
  {
  }

  lemma OneRule(r: nat)
    requires r < YYNRULE
    ensures |OneGrammar().rules| == YYNRULE
    ensures OneGrammar().rules[r] == Rule(if r == 0 then S else S + 1, [{1}])
  {
  }

  lemma OneConsistent()
    ensures LrOk(OneLr())
  {
    var lr := OneLr();
    OneSized();
    hide OneTables, OneGrammar, OneLr, Sized, Entry, RulesAgree;
    assert lr.t == OneTables() && lr.g == OneGrammar() && lr.g.start == S && lr.g.optimized == {} by { OneParts(); }
    forall q: nat, it | q <= YY_MAX_SHIFT && it in lr.items[q] ensures IsItem(lr.g, it) {
      OneItems(q, it);
      OneRule(0);
    }
    forall it | it in lr.items[0] ensures it.dot == 0 { OneItems(0, it); }
    forall q: nat, x: nat | q <= YY_MAX_SHIFT && x < NTERMINAL && Entry(lr.t, lr.t.shiftOfst[q], x).Some?
      ensures TokenOk(lr.g, lr.items, q, x, Entry(lr.t, lr.t.shiftOfst[q], x).value)
    {
      OneEntries(q, x);
      OneToken(q, x);
    }
    forall q: nat, r: nat | q <= YY_MAX_SHIFT && r < YYNRULE && r !in lr.g.optimized && Item(r, 0) in lr.items[q]
      ensures GotoOk(lr.t, lr.g, lr.items, q, lr.g.rules[r].lhs)
    {
      OneItems(q, Item(r, 0));
      OneRule(r);
      OneEntries(0, 0);
    }
    OneDefaults();
  }

  lemma OneParts()
    ensures OneLr().t == OneTables() && OneLr().g == OneGrammar()
    ensures OneGrammar().start == S && OneGrammar().optimized == {}
  {
  }

  lemma OneDefaults()
    ensures Sized(OneTables())
    ensures forall q :: 0 <= q <= YY_MAX_SHIFT ==> OneTables().dflt[q] == YY_ERROR_ACTION
    ensures OneTables().fallback == []
  {
    OneSized();
  }

  lemma OneToken(q: nat, x: nat)
    requires (q == 0 && x == 1) || (q == 1 && x == 0)
    ensures |OneGrammar().rules| == YYNRULE && |OneLr().items| == YY_SHIFT_COUNT + 1
    ensures TokenOk(OneGrammar(), OneLr().items, q, x, if q == 0 then 1 else YY_MIN_REDUCE)
  {
    OneRule(0);
    OneParts();
    hide OneTables, OneGrammar, OneLr;
    OneItems(0, Item(0, 0));
    forall it ensures it in OneLr().items[1] <==> it == Item(0, 1) { OneItems(1, it); }
  }

  lemma OneFirsts()
    ensures FirstsOk(OneGrammar(), OneLooks())
  {
    hide OneGrammar;
    OneRule(0);
    forall r: nat, a: nat | r < YYNRULE && Begins(OneLooks(), OneGrammar().rules[r].rhs, {}, a)
      ensures a in First(OneLooks(), OneGrammar().rules[r].lhs)
    {
      OneRule(r);
      assert [{1}][1..] == [];
    }
    forall r: nat | r < YYNRULE ensures !AllEmpty(OneLooks(), OneGrammar().rules[r].rhs) {
      OneRule(r);
      assert !MayBeEmpty(OneLooks(), OneGrammar().rules[r].rhs[0]);
    }
  }

  lemma NoChain(g: Grammar, x: nat)
    requires g.optimized == {} && StandsIn(g, x, {1})
    ensures x == 1
  {
    var chain, y :| y in {1} && Chain(g, chain, x, y);
  }

  lemma OneComplete(q: nat, it: Item)
    requires LrOk(OneLr()) && q <= YY_MAX_SHIFT && it in OneLr().items[q]
    ensures Sized(OneLr().t) && |OneGrammar().rules| == YYNRULE && IsItem(OneGrammar(), it)
    ensures ItemComplete(OneLr(), OneLooks(), q, it)
  {
    var lr, lk := OneLr(), OneLooks();
    GrammarSize(lr);
    RuleSize(lr, 0);
    OneParts();
    OneItems(q, it);
    OneRule(0);
    OneDefaults();
    OneEntries(q, 1 - q);
    hide OneTables, OneGrammar, OneLr, LrOk, Entry, Sized;
    if q == 0 {
      OneItems(1, Item(0, 1));
      forall r: nat | r < YYNRULE && StandsIn(lr.g, lr.g.rules[r].lhs, {1}) ensures false {
        OneRule(r);
        NoChain(lr.g, lr.g.rules[r].lhs);
      }
    }
  }

  lemma OneTree()
    ensures Exact(OneGrammar(), Node(0, [Leaf(1)])) && Yield(Node(0, [Leaf(1)])) == [1]
    ensures Need(Node(0, [Leaf(1)])) == 1
  {
    OneRule(0);
    hide OneGrammar;
    assert [Leaf(1)][..0] == [];
    assert Yields([Leaf(1)]) == [] + Yield(Leaf(1)) && Needs([Leaf(1)]) == Max(0, 0 + Need(Leaf(1)));
  }

  lemma OneStart(r: nat)
    requires r < YYNRULE
    ensures |OneGrammar().rules| == YYNRULE && OneGrammar().rules[r].lhs >= NTERMINAL
    ensures OneGrammar().rules[r].lhs == S ==> r == 0
    ensures |OneLr().items| == YY_SHIFT_COUNT + 1 && Item(0, 0) in OneLr().items[0]
  {
    OneRule(r);
    OneItems(0, Item(0, 0));
  }

  /** These tables are complete for this grammar, and so the parser accepts its sentence. */
  lemma {:induction false} SuchTablesExist() returns (p': Parser)
    ensures LrOk(OneLr()) && Complete(OneLr(), OneLooks())
    ensures Feed(OneTables(), START, [1] + [0], p') && p'.errors == 0 && p'.accepted == [[1]]
  {
    OneConsistent();
    OneFirsts();
    OneParts();
    OneTree();
    OneStart(0);
    OneDefaults();
    hide OneTables, OneGrammar, OneLr, LrOk, FirstsOk, ItemComplete, Feed, Exact, Yield, Need;
    forall r: nat | r < YYNRULE
      ensures OneGrammar().rules[r].lhs >= NTERMINAL && (OneGrammar().rules[r].lhs == S ==> r == 0)
    {
      OneStart(r);
    }
    forall q: nat, it | q <= YY_MAX_SHIFT && it in OneLr().items[q]
      ensures IsItem(OneGrammar(), it) && ItemComplete(OneLr(), OneLooks(), q, it)
    {
      OneComplete(q, it);
    }
    OneRule(0);
    p' := SentenceIsAccepted(OneLr(), OneLooks(), Node(0, [Leaf(1)]));
  }
}
