/** The parser object: a stack array with a stack pointer, changed in place by
    shift and reduce, refines the driver over values. */
module LrParser {
  import opened LrTables
  import opened Wrappers
  import opened LrDriver
  import F = LrForest

  class YyParser {
    const t: Tables
    const yystack: array<F.StackEntry>
    var yytos: nat
    var nErr: nat                        // messages from sqlite3ErrorMsg
    ghost var shifted: seq<nat>          // the tokens shifted since the stack was last empty
    ghost var accepted: seq<seq<nat>>

    ghost predicate Valid()
      reads this, yystack
    {
      Sized(t) && yystack.Length == YYSTACKDEPTH && yytos < YYSTACKDEPTH
    }

    ghost function View(): Parser
      reads this, yystack
      requires Valid()
    {
      Parser(yystack[..yytos + 1], shifted, nErr, accepted)
    }

    // sqlite3ParserAlloc
    constructor (t: Tables)
      requires Sized(t)
      ensures Valid() && View() == START && this.t == t && fresh(yystack)
    {
      this.t, yytos, nErr, shifted, accepted := t, 0, 0, [], [];
      yystack := new F.StackEntry[YYSTACKDEPTH](_ => F.StackEntry(0, 0));
    }

    // yy_find_shift_action: the fallback loop stops because a fallback token has no fallback itself.
    method FindShiftAction(a: nat) returns (act: nat)
      requires Valid() && IsState(yystack[yytos].stateno)
      ensures act == Action(t, View(), a)
      ensures var q := yystack[yytos].stateno; if q >= YY_MIN_REDUCE then act == q else Chosen(t, q, a, act)
    {
      var stateno := yystack[yytos].stateno;
      if stateno >= YY_MIN_REDUCE { return stateno; }
      LookupOrder(t, stateno, a);
      hide Chosen;
      var iLookAhead: nat := a;
      assert t.shiftOfst[stateno] >= YY_SHIFT_MIN;
      while true
        invariant ShiftAction(t, stateno, iLookAhead) == ShiftAction(t, stateno, a)
        decreases if Fallback(t, iLookAhead) != 0 then 1 else 0
      {
        var i := t.shiftOfst[stateno] + iLookAhead;
        if i < 0 || i >= YY_ACTTAB_COUNT || t.lookahead[i] != iLookAhead {
          if iLookAhead < |t.fallback| && t.fallback[iLookAhead] != 0 {
            var iFallback := t.fallback[iLookAhead];
            assert t.fallback[iFallback] == 0;
            iLookAhead := iFallback;
          } else {
            var j := i - iLookAhead + YYWILDCARD;
            if j < YY_ACTTAB_COUNT && t.lookahead[j] == YYWILDCARD && iLookAhead > 0 { return t.action[j]; }
            return t.dflt[stateno];
          }
        } else {
          return t.action[i];
        }
      }
    }

    // yy_find_reduce_action
    method FindReduceAction(stateno: nat, a: nat) returns (act: nat)
      requires Sized(t) && HasGoto(t, stateno, a)
      ensures act == ReduceAction(t, stateno, a)
    {
      var i := t.reduceOfst[stateno] + a;
      assert 0 <= i < YY_ACTTAB_COUNT && t.lookahead[i] == a;
      return t.action[i];
    }

    // yyStackOverflow, after the pointer was put back: pop everything and report.
    method StackOverflow()
      requires Valid()
      modifies this
      ensures Valid() && View() == Overflow(old(View()))
    {
      while yytos > 0
        invariant yytos <= old(yytos) && Valid() && nErr == old(nErr) && accepted == old(accepted)
      {
        yytos := yytos - 1;
      }
      nErr := nErr + 1;
      shifted := [];
    }

    // yy_shift
    method YyShift(act: nat, major: nat)
      requires Valid() && (act <= YY_MAX_SHIFT || YY_MIN_SHIFTREDUCE <= act <= YY_MAX_SHIFTREDUCE)
      modifies this, yystack
      ensures Valid() && View() == Shift(old(View()), act, major)
    {
      if yytos + 1 >= YYSTACKDEPTH {
        StackOverflow();
        return;
      }
      ghost var before := yystack[..yytos + 1];
      var yyNewState := act;
      if yyNewState > YY_MAX_SHIFT { yyNewState := yyNewState + YY_MIN_REDUCE - YY_MIN_SHIFTREDUCE; }
      yytos := yytos + 1;
      yystack[yytos] := F.StackEntry(yyNewState, major);
      shifted := shifted + [major];
      assert yystack[..yytos + 1] == before + [F.StackEntry(NewState(act), major)];
    }

    // The end of yy_reduce: the symbols of the rule make way for one entry.
    method Replace(yysize: nat, act: nat, major: nat)
      requires Valid() && yysize <= yytos && (yysize == 0 ==> yytos < YYSTACKDEPTH - 1)
      requires act <= YY_MAX_SHIFT || YY_MIN_SHIFTREDUCE <= act <= YY_MAX_SHIFTREDUCE
      modifies `yytos, yystack
      ensures Valid()
      ensures var p := old(View());
              View() == p.(stack := p.stack[..|p.stack| - yysize] + [F.StackEntry(NewState(act), major)])
    {
      ghost var below := yystack[..yytos + 1 - yysize];
      var yyact := act;
      if yyact > YY_MAX_SHIFT { yyact := yyact + YY_MIN_REDUCE - YY_MIN_SHIFTREDUCE; }
      yytos := yytos - (yysize - 1);
      yystack[yytos] := F.StackEntry(yyact, major);
      assert yystack[..yytos + 1] == below + [F.StackEntry(yyact, major)];
      assert old(View()).stack[..old(yytos) + 1 - yysize] == below;
    }

    // yy_reduce
    method YyReduce(r: nat)
      requires Valid() && CanReduce(t, View(), r)
      modifies this, yystack
      ensures Valid() && View() == Reduce(t, old(View()), r)
    {
      if t.ruleInfo[r].nrhs == 0 && yytos >= YYSTACKDEPTH - 1 {
        StackOverflow();
        return;
      }
      hide ReduceAction, HasGoto;
      var yygoto, yysize := t.ruleInfo[r].lhs, t.ruleInfo[r].nrhs;
      assert yysize <= yytos && View().stack[yytos - yysize] == yystack[yytos - yysize];
      var yyact := FindReduceAction(yystack[yytos - yysize].stateno, yygoto);
      if yyact <= YY_MAX_SHIFTREDUCE {
        hide NewState;
        Replace(yysize, yyact, yygoto);
      } else {
        assert yyact == YY_ACCEPT_ACTION;
        yytos := yytos - yysize;
        assert yytos == 0;
        accepted, shifted := accepted + [shifted], [];
      }
    }

    // One round of the loop of sqlite3Parser; more says that the token is still there.
    method ParseOnce(yymajor: nat) returns (more: bool)
      requires Valid() && Ready(t, View(), yymajor)
      modifies this, yystack
      ensures Valid() && (View(), more) == Round(t, old(View()), yymajor)
    {
      assert View().stack[|View().stack| - 1] == yystack[yytos];
      var yyact := FindShiftAction(yymajor);
      if yyact <= YY_MAX_SHIFTREDUCE {
        YyShift(yyact, yymajor);
        more := false;
      } else if yyact <= YY_MAX_REDUCE {
        YyReduce(yyact - YY_MIN_REDUCE);
        more := true;
      } else {
        assert yyact == YY_ERROR_ACTION;
        nErr := nErr + 1;
        more := false;
      }
    }

    // sqlite3Parser.  It returns if the driver on values does: see LrTermination.EveryCallReturns.
    method Parse(yymajor: nat)
      requires Valid() && exists n: nat, q :: Call(t, View(), yymajor, n, q)
      modifies this, yystack
      ensures Valid() && exists n: nat :: Call(t, old(View()), yymajor, n, View())
    {
      hide Round, Ready;
      ghost var p := View();
      ghost var n: nat, q :| Call(t, p, yymajor, n, q);
      ghost var left := n;
      while true
        invariant Valid() && Call(t, View(), yymajor, left, q)
        decreases left
      {
        var more := ParseOnce(yymajor);
        if !more || yytos == 0 { break; }
        left := left - 1;
      }
      assert View() == q;
    }
  }

  /** What a call leaves is decided by its token and the parser it finds. */
  lemma {:induction false} CallUnique(t: Tables, p: Parser, a: nat, n: nat, q: Parser, n': nat, q': Parser)
    requires Call(t, p, a, n, q) && Call(t, p, a, n', q')
    ensures n == n' && q == q'
    decreases n
  {
    hide Ready, Round;
    var (r, more) := Round(t, p, a);
    if more && |r.stack| > 1 { CallUnique(t, r, a, n - 1, q, n' - 1, q'); }
  }
}
