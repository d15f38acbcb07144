/** The built-in self-test as the client of a Bitvec: a program of set and clear
    operations is run on a Bitvec and on a plain bit array side by side, and the
    two are compared at the end. */
module BitvecBuiltinTest {
  import opened BitvecForms
  import opened BitvecObject

  const INT_MAX := 0x7fff_ffff

  // How many integers the instruction op takes.
  function Width(op: int): nat {
    if op == 1 || op == 2 || op == 5 then 4 else 2
  }

  // From pc on, aOp holds whole instructions up to a halt.
  ghost predicate Program(aOp: seq<int>, pc: nat)
    decreases |aOp| - pc
  {
    && pc < |aOp|
    && (aOp[pc] != 0 ==> pc + Width(aOp[pc]) < |aOp| && Program(aOp, pc + Width(aOp[pc])))
  }

  lemma ProgramSuffix(ops: seq<int>, ops': seq<int>, pc: nat)
    requires |ops| == |ops'| && (forall k :: pc <= k < |ops| ==> ops[k] == ops'[k])
    requires Program(ops, pc)
    ensures Program(ops', pc)
    decreases |ops| - pc
  {
    if ops[pc] != 0 { ProgramSuffix(ops, ops', pc + Width(ops[pc])); }
  }

  // One round: the instruction, and the number it works on.
  datatype Round = Round(op: int, n: nat)

  // The program after one round of the instruction at pc, and where it goes on; a halt stays where it is.
  function After(ops: seq<int>, pc: nat): (r: (seq<int>, nat))
    requires Program(ops, pc)
    ensures |r.0| == |ops| && Program(r.0, r.1)
  {
    if ops[pc] == 0 then (ops, pc)
    else
      var ops1 := if Width(ops[pc]) == 4 then ops[pc + 2 := ops[pc + 2] + ops[pc + 3]] else ops;
      var ops2 := ops1[pc + 1 := ops[pc + 1] - 1];
      var pc' := if ops[pc + 1] > 1 then pc else pc + Width(ops[pc]);
      ProgramSuffix(ops, ops2, pc + Width(ops[pc]));
      (ops2, pc')
  }

  // After k rounds.
  function AfterRounds(ops: seq<int>, k: nat): (r: (seq<int>, nat))
    requires Program(ops, 0)
    ensures |r.0| == |ops| && Program(r.0, r.1)
  {
    if k == 0 then (ops, 0) else var (o, pc) := AfterRounds(ops, k - 1); After(o, pc)
  }

  // A round of the program: instructions 1, 2 and 5 have their number in the program, for the others it is random.
  predicate RoundOf(ops: seq<int>, pc: nat, r: Round, sz: nat)
    requires Program(ops, pc) && sz > 0
  {
    && r.op == ops[pc] != 0 && 1 <= r.n <= sz
    && (r.op in {1, 2, 5} ==> r.n == (ops[pc + 2] - 1) % 0x8000_0000 % sz + 1)
  }

  ghost predicate Rounds(ops: seq<int>, t: seq<Round>, sz: nat)
    requires Program(ops, 0) && sz > 0
  {
    forall k :: 0 <= k < |t| ==> var (o, pc) := AfterRounds(ops, k); RoundOf(o, pc, t[k], sz)
  }

  // These are all the rounds up to the halt.
  ghost predicate Executes(ops: seq<int>, t: seq<Round>, sz: nat)
    requires Program(ops, 0) && sz > 0
  {
    Rounds(ops, t, sz) && var (o, pc) := AfterRounds(ops, |t|); o[pc] == 0
  }

  // What the bit array holds after the rounds t, and what the Bitvec should.
  function ArrayAfter(t: seq<Round>): set<nat> {
    if |t| == 0 then {}
    else
      var c, r := ArrayAfter(t[..|t| - 1]), t[|t| - 1];
      if r.op % 2 != 0 then c + {r.n} else c - {r.n}
  }

  function BitvecAfter(t: seq<Round>): set<nat> {
    if |t| == 0 then {}
    else
      var c, r := BitvecAfter(t[..|t| - 1]), t[|t| - 1];
      if r.op == 5 then c else if r.op % 2 != 0 then c + {r.n} else c - {r.n}
  }

  // The last round on n.
  predicate LastOn(t: seq<Round>, n: nat, k: nat) {
    k < |t| && t[k].n == n && forall j :: k < j < |t| ==> t[j].n != n
  }

  /** What the last round on n was decides whether n is in the bit array, and in the Bitvec, unless it was
      instruction 5, which leaves the Bitvec as it was before. */
  lemma {:induction false} LastRoundDecides(t: seq<Round>, n: nat, k: nat)
    requires LastOn(t, n, k)
    ensures n in ArrayAfter(t) <==> t[k].op % 2 != 0
    ensures n in BitvecAfter(t) <==> if t[k].op == 5 then n in BitvecAfter(t[..k]) else t[k].op % 2 != 0
    decreases |t|
  {
    var m := |t| - 1;
    if k < m {
      assert t[..m][..k] == t[..k] && LastOn(t[..m], n, k);
      LastRoundDecides(t[..m], n, k);
    }
  }

  // Without instruction 5 they are the same.
  lemma {:induction false} SidesAgree(t: seq<Round>)
    requires forall k :: 0 <= k < |t| ==> t[k].op != 5
    ensures ArrayAfter(t) == BitvecAfter(t)
    decreases |t|
  {
    if |t| > 0 { SidesAgree(t[..|t| - 1]); }
  }

  // The bit array of the test holds value k.
  predicate InArray(a: seq<bv8>, k: nat)
    requires k < 8 * |a|
  {
    TestBit(a, k)
  }

  ghost predicate Agree(a: seq<bv8>, c: set<nat>, sz: nat)
    requires sz < 8 * |a|
  {
    forall k: nat :: 1 <= k <= sz ==> (InArray(a, k) <==> k in c)
  }

  lemma ZerosAgree(a: seq<bv8>, sz: nat)
    requires sz < 8 * |a| && forall j :: 0 <= j < |a| ==> a[j] == 0
    ensures Agree(a, {}, sz)
  {
  }

  lemma {:induction false} SetAgrees(a: seq<bv8>, c: set<nat>, sz: nat, i: nat)
    requires i <= sz < 8 * |a| && Agree(a, c, sz)
    ensures Agree(SetBit(a, i), c + {i}, sz)
  {
    hide TestBit, SetBit;
    forall k: nat | 1 <= k <= sz ensures InArray(SetBit(a, i), k) <==> k in c + {i} {
      SetBitAt(a, i, k);
      assert InArray(a, k) <==> k in c;
    }
  }

  lemma {:induction false} ClearAgrees(a: seq<bv8>, c: set<nat>, sz: nat, i: nat)
    requires i <= sz < 8 * |a| && Agree(a, c, sz)
    ensures Agree(ClearBit(a, i), c - {i}, sz)
  {
    hide TestBit, ClearBit;
    forall k: nat | 1 <= k <= sz ensures InArray(ClearBit(a, i), k) <==> k in c - {i} {
      ClearBitAt(a, i, k);
      assert InArray(a, k) <==> k in c;
    }
  }

  // One set or clear on both sides; op 5 sets in the array only.
  method Apply(pBitvec: Bitvec, pV: array<bv8>, op: int, i: nat, mem: Allocator, ghost t: seq<Round>) returns (rc: int)
    requires pBitvec.Valid() && pV !in pBitvec.Repr && mem !in pBitvec.Repr && i < pBitvec.iSize < 8 * pV.Length
    requires Agree(pV[..], ArrayAfter(t), pBitvec.iSize) && pBitvec.Contents == BitvecAfter(t)
    modifies pV, pBitvec.Repr, mem
    ensures pBitvec.Valid() && fresh(pBitvec.Repr - old(pBitvec.Repr)) && mem.failures >= old(mem.failures)
    ensures rc == OK <==> mem.failures == old(mem.failures)
    ensures Agree(pV[..], ArrayAfter(t + [Round(op, i + 1)]), pBitvec.iSize)
    ensures rc == OK ==> pBitvec.Contents == BitvecAfter(t + [Round(op, i + 1)])
  {
    hide *;
    rc := OK;
    var n := i + 1;
    ghost var a, c, sz := pV[..], ArrayAfter(t), pBitvec.iSize;
    OneMore(t, op, n);
    if op % 2 != 0 {
      RaiseBit(pV, n);
      SetAgrees(a, c, sz, n);
      if op != 5 {
        ghost var c0, k := pBitvec.Contents, mem.failures;
        rc := BitvecSet(pBitvec, n, mem);
        AddedWhole(c0, n, pBitvec.Contents, rc, mem.failures - k);
      }
    } else {
      LowerBit(pV, n);
      ClearAgrees(a, c, sz, n);
      BitvecClear(pBitvec, n);
    }
  }

  lemma OneMore(t: seq<Round>, op: int, n: nat)
    ensures ArrayAfter(t + [Round(op, n)]) == if op % 2 != 0 then ArrayAfter(t) + {n} else ArrayAfter(t) - {n}
    ensures BitvecAfter(t + [Round(op, n)])
         == if op == 5 then BitvecAfter(t) else if op % 2 != 0 then BitvecAfter(t) + {n} else BitvecAfter(t) - {n}
  {
    assert (t + [Round(op, n)])[..|t|] == t;
  }

  lemma AddedWhole(c0: set<nat>, i: nat, c: set<nat>, rc: int, k: int)
    requires SetEnds(c0, i, c, rc, k)
    ensures k >= 0 && (rc == OK <==> k == 0) && (rc == OK ==> c == c0 + {i})
  {
    if k == 0 { assert |c0 + {i} - c| == 0 && c0 + {i} - c == {}; }
  }

  // Memory for all three buffers, or nothing.
  method Allocate(sz: nat, mem: Allocator) returns (pBitvec: Bitvec?, pV: array<bv8>)
    requires 0 < sz <= INT_MAX
    modifies mem
    ensures fresh(pV) && pV.Length == (sz + 7) / 8 + 1 && Agree(pV[..], {}, sz)
    ensures mem.failures >= old(mem.failures) && (pBitvec == null <==> mem.failures > old(mem.failures))
    ensures pBitvec != null ==>
              && pBitvec.Valid() && fresh(pBitvec.Repr) && pV !in pBitvec.Repr && mem !in pBitvec.Repr
              && pBitvec.iSize == sz && pBitvec.Contents == {}
  {
    pBitvec := BitvecCreate(sz, mem);
    var okV := mem.Request();
    var okTmp := mem.Request();
    pV := new bv8[(sz + 7) / 8 + 1](_ => 0);
    ZerosAgree(pV[..], sz);
    if !okV || !okTmp { pBitvec := null; }
  }

  // The final comparison: 0, or the first value on which the two sides differ.
  method Compare(pBitvec: Bitvec, pV: array<bv8>, sz: nat) returns (rc: int)
    requires pBitvec.Valid() && pBitvec.iSize == sz && sz <= INT_MAX && sz < 8 * pV.Length
    ensures rc == 0 <==> Agree(pV[..], pBitvec.Contents, sz)
    ensures rc != 0 ==> 1 <= rc <= sz && Agree(pV[..], pBitvec.Contents, rc - 1) && !Agree(pV[..], pBitvec.Contents, rc)
  {
    var none := BitvecTest(null, 0);
    var above := BitvecTest(pBitvec, sz + 1);
    var zero := BitvecTest(pBitvec, 0);
    pBitvec.ContentsBounded();
    rc := One(none) + One(above) + One(zero) + (pBitvec.iSize - sz);
    hide TestBit;
    var i := 1;
    while i <= sz
      invariant 1 <= i <= sz + 1 && rc == 0 && Agree(pV[..], pBitvec.Contents, i - 1)
    {
      var inArray := ReadBit(pV, i);
      var inBitvec := BitvecTest(pBitvec, i);
      assert inArray == InArray(pV[..], i);
      if inArray != inBitvec { return i; }
      i := i + 1;
    }
  }

  function One(b: bool): int {
    if b then 1 else 0
  }

  lemma NoRounds(ops: seq<int>, sz: nat)
    requires Program(ops, 0) && sz > 0
    ensures Rounds(ops, [], sz)
  {
  }

  lemma FetchedRound(ops: seq<int>, pc: nat, op: int, x: int, sz: nat)
    requires Program(ops, pc) && sz > 0 && op == ops[pc] != 0 && (Width(op) == 4 ==> x == ops[pc + 2] - 1)
    ensures RoundOf(ops, pc, Round(op, x % 0x8000_0000 % sz + 1), sz)
  {
  }

  lemma SameSets(c: set<nat>, sz: nat, rc: int)
    requires FirstDifference(c, c, sz, rc)
    ensures rc == 0
  {
  }

  lemma MoreRounds(ops: seq<int>, t: seq<Round>, r: Round, sz: nat)
    requires Program(ops, 0) && sz > 0 && Rounds(ops, t, sz)
    requires var (o, pc) := AfterRounds(ops, |t|); RoundOf(o, pc, r, sz)
    ensures Rounds(ops, t + [r], sz)
  {
    hide RoundOf, AfterRounds;
  }

  // The first number at which the two sides differ, or 0.
  ghost predicate FirstDifference(c: set<nat>, c': set<nat>, sz: nat, rc: int) {
    if rc == 0 then forall k: nat :: 1 <= k <= sz ==> (k in c <==> k in c')
    else 1 <= rc <= sz && (rc in c <==> rc !in c') && forall k: nat :: 1 <= k < rc ==> (k in c <==> k in c')
  }

  lemma ComparedSets(a: seq<bv8>, c: set<nat>, c': set<nat>, sz: nat, rc: int)
    requires sz < 8 * |a| && Agree(a, c, sz)
    requires rc == 0 <==> Agree(a, c', sz)
    requires rc != 0 ==> 1 <= rc <= sz && Agree(a, c', rc - 1) && !Agree(a, c', rc)
    ensures FirstDifference(c, c', sz, rc)
  {
    hide InArray;
  }

  /** sqlite3BitvecBuiltinTest: -1 exactly if a request for memory failed.  Otherwise the whole program was run, and the
      result is the first number at which the bit array and the Bitvec should differ: 0 without instruction 5,
      whatever the random numbers. */
  method BuiltinTest(sz: nat, aOp: array<int>, mem: Allocator) returns (rc: int, ghost t: seq<Round>)
    requires 0 < sz <= INT_MAX && Program(aOp[..], 0)
    modifies aOp, mem
    ensures -1 <= rc <= sz && mem.failures >= old(mem.failures)
    ensures rc == -1 <==> mem.failures > old(mem.failures)
    ensures Rounds(old(aOp[..]), t, sz)
    ensures rc != -1 ==> Executes(old(aOp[..]), t, sz) && FirstDifference(ArrayAfter(t), BitvecAfter(t), sz, rc)
    ensures rc != -1 && (forall k :: 0 <= k < |t| ==> t[k].op != 5) ==> rc == 0
  {
    hide Rounds, RoundOf, Agree, Bitvec.Valid, FirstDifference, Bitvec.NeedsMemory, Bitvec.Rehashes, SetEnds;
    ghost var ops := aOp[..];
    rc, t := -1, [];
    NoRounds(ops, sz);
    var pBitvec, pV := Allocate(sz, mem);
    if pBitvec == null { return; }
    var rcNull := BitvecSet(null, 1, mem);
    BitvecClear(null, 1);
    var pc := 0;
    while aOp[pc] != 0
      invariant 0 <= pc < aOp.Length && Program(aOp[..], pc) && (aOp[..], pc) == AfterRounds(ops, |t|)
      invariant fresh(pV) && fresh(pBitvec.Repr) && pV !in pBitvec.Repr && mem !in pBitvec.Repr
      invariant pBitvec.Valid() && pBitvec.iSize == sz && mem.failures == old(mem.failures)
      invariant Agree(pV[..], ArrayAfter(t), sz) && pBitvec.Contents == BitvecAfter(t) && Rounds(ops, t, sz)
      decreases aOp.Length - pc, if pc + 1 < aOp.Length then aOp[pc + 1] else 0
    {
      ghost var ops0, pc0 := aOp[..], pc;
      var op, i := aOp[pc], 0;
      pc, i := Fetch(aOp, pc);
      FetchedRound(ops0, pc0, op, i, sz);
      i := i % 0x8000_0000 % sz;
      MoreRounds(ops, t, Round(op, i + 1), sz);
      ghost var t0 := t;
      t := t + [Round(op, i + 1)];
      var rcSet := Apply(pBitvec, pV, op, i, mem, t0);
      if rcSet != OK { return -1, t; }
    }
    rc := Compare(pBitvec, pV, sz);
    ComparedSets(pV[..], ArrayAfter(t), BitvecAfter(t), sz, rc);
    if forall k :: 0 <= k < |t| ==> t[k].op != 5 {
      SidesAgree(t);
      SameSets(ArrayAfter(t), sz, rc);
    }
  }

  // The operand of the instruction at pc, which is counted down and left behind after its last round.
  method Fetch(aOp: array<int>, pc: nat) returns (pc': nat, i: int)
    requires Program(aOp[..], pc) && aOp[pc] != 0
    modifies aOp
    ensures (aOp[..], pc') == After(old(aOp[..]), pc)
    ensures Width(old(aOp[pc])) == 4 ==> i == old(aOp[pc + 2]) - 1
  {
    ghost var ops := aOp[..];
    var op := aOp[pc];
    var nx := Width(op);
    if nx == 4 {
      i := aOp[pc + 2] - 1;
      aOp[pc + 2] := aOp[pc + 2] + aOp[pc + 3];
    } else {
      i := *;
    }
    aOp[pc + 1] := aOp[pc + 1] - 1;
    if aOp[pc + 1] > 0 { nx := 0; }
    pc' := pc + nx;
    assert aOp[..] == After(ops, pc).0;
  }
}
