/** The Bitvec object: a set of numbers in 1..iSize held as a flat bitmap, a
    hash table or an array of smaller Bitvecs.  Contents is the set it stands
    for.  The three forms share one memory area in the C code; here each has an
    array of its own, and iSize and iDivisor tell which one is in use.  Any
    request for memory may fail; the Allocator counts those that do. */
module BitvecObject {
  import opened BitvecForms

  const OK := 0
  const NOMEM := 7

  // The largest iSize for which the divisor is computed without overflow.
  predicate SizeOk(iSize: nat) {
    iSize + NPTR - 1 < U32
  }

  function DivisorFor(iSize: nat): nat {
    (iSize + NPTR - 1) / NPTR
  }

  // The sub-bitvec that holds value i, and its number there.
  function BinOf(i: nat, d: nat): nat
    requires i > 0 && d > 0
  {
    (i - 1) / d
  }

  function NumOf(i: nat, d: nat): nat
    requires i > 0 && d > 0
  {
    (i - 1) % d + 1
  }

  // What sub-bitvecs with contents subs stand for.
  ghost function Union(subs: seq<set<nat>>, d: nat, iSize: nat): set<nat>
    requires |subs| == NPTR && d > 0
  {
    set i: nat | 1 <= i <= iSize && InSub(subs, d, i)
  }

  ghost predicate InSub(subs: seq<set<nat>>, d: nat, i: nat)
    requires |subs| == NPTR && d > 0
  {
    i > 0 && BinOf(i, d) < NPTR && NumOf(i, d) in subs[BinOf(i, d)]
  }

  lemma {:induction false} DivisorFits(iSize: nat)
    requires iSize > NBIT && SizeOk(iSize)
    ensures var d := DivisorFor(iSize); 0 < d < iSize <= NPTR * d && SizeOk(d)
  {
  }

  lemma SubIndex(i: nat, d: nat, iSize: nat)
    requires d > 0 && 1 <= i <= iSize <= NPTR * d
    ensures BinOf(i, d) < NPTR && 1 <= NumOf(i, d) <= d
  {
    assert i - 1 == d * BinOf(i, d) + (i - 1) % d;
  }

  // A value is determined by its bin and its number there.
  lemma SubUnique(i: nat, j: nat, d: nat)
    requires d > 0 && i > 0 && j > 0 && BinOf(i, d) == BinOf(j, d) && NumOf(i, d) == NumOf(j, d)
    ensures i == j
  {
    assert i - 1 == d * ((i - 1) / d) + (i - 1) % d;
    assert j - 1 == d * ((j - 1) / d) + (j - 1) % d;
  }

  // Changing one sub-bitvec at one number changes the whole at one number.
  lemma {:induction false} UnionUpdate(subs: seq<set<nat>>, d: nat, iSize: nat, i: nat, c: set<nat>)
    requires |subs| == NPTR && d > 0 && 1 <= i <= iSize <= NPTR * d
    ensures BinOf(i, d) < NPTR
    ensures var b, v := BinOf(i, d), NumOf(i, d);
            var u, u' := Union(subs, d, iSize), Union(subs[b := c], d, iSize);
            && (c == subs[b] + {v} ==> u' == u + {i})
            && (c <= subs[b] + {v} ==> u' <= u + {i})
            && (c == subs[b] - {v} ==> u' == u - {i})
  {
    SubIndex(i, d, iSize);
    var b, v := BinOf(i, d), NumOf(i, d);
    forall j: nat | 1 <= j <= iSize && BinOf(j, d) == b && NumOf(j, d) == v ensures j == i {
      SubUnique(i, j, d);
    }
    hide BinOf, NumOf;
  }

  // Reading and changing one bit of a bit array in place.

  method ReadBit(a: array<bv8>, k: nat) returns (r: bool)
    requires k < 8 * a.Length
    ensures r == TestBit(a[..], k)
  {
    r := a[k / 8] & (1 << (k % 8)) != 0;
  }

  method RaiseBit(a: array<bv8>, k: nat)
    requires k < 8 * a.Length
    modifies a
    ensures a[..] == SetBit(old(a[..]), k)
  {
    a[k / 8] := a[k / 8] | (1 << (k % 8));
  }

  method LowerBit(a: array<bv8>, k: nat)
    requires k < 8 * a.Length
    modifies a
    ensures a[..] == ClearBit(old(a[..]), k)
  {
    a[k / 8] := a[k / 8] & !(1 << (k % 8));
  }

  // Where memory comes from: what was asked for, and what was refused.
  class Allocator {
    ghost var requests: nat
    ghost var failures: nat

    constructor ()
      ensures requests == failures == 0
    {
      requests, failures := 0, 0;
    }

    method Request() returns (ok: bool)
      modifies this
      ensures requests == old(requests) + 1 && failures == old(failures) + if ok then 0 else 1
    {
      ok := *;
      requests := requests + 1;
      if !ok { failures := failures + 1; }
    }
  }

  // How a call that was to add i to the set c0 ended: with the code rc and the set c, after k failed requests.
  ghost predicate SetEnds(c0: set<nat>, i: nat, c: set<nat>, rc: int, k: int) {
    && rc == (if k == 0 then OK else NOMEM) && k >= 0
    && c <= c0 + {i} && |c0 + {i} - c| <= k
  }

  class Bitvec {
    const iSize: nat
    var nSet: nat
    var iDivisor: nat
    const aBitmap: array<bv8>
    const aHash: array<nat>
    const apSub: array<Bitvec?>

    ghost var Contents: set<nat>
    ghost var subs: seq<set<nat>>      // the contents of the sub-bitvecs
    ghost var Repr: set<object>

    ghost predicate Valid()
      reads this, Repr
      ensures Valid() ==> this in Repr
      decreases Repr, 1
    {
      && Frame() && SizeOk(iSize)
      && (iSize <= NBIT ==> iDivisor == 0 && BitmapForm())
      && (iSize > NBIT && iDivisor == 0 ==> HashForm())
      && (iDivisor != 0 ==> SubForm())
    }

    ghost predicate Frame()
      reads this
    {
      && {this, aBitmap, aHash, apSub} <= Repr
      && aBitmap.Length == NELEM && aHash.Length == NINT && apSub.Length == NPTR
    }

    ghost predicate BitmapForm()
      requires Frame() && iSize <= NBIT
      reads this, aBitmap
    {
      forall i: nat :: i in Contents <==> 1 <= i <= iSize && HasBit(aBitmap[..], i)
    }

    ghost predicate HashForm()
      requires Frame()
      reads this, aHash
    {
      HashOk(aHash[..], nSet) && Contents == Members(aHash[..]) && forall i :: i in Contents ==> i <= iSize
    }

    ghost predicate SubForm()
      requires Frame()
      reads this, Repr
      decreases Repr, 0
    {
      && iSize > NBIT && iDivisor == DivisorFor(iSize) && |subs| == NPTR
      && Contents == Union(subs, iDivisor, iSize)
      && (forall k :: 0 <= k < NPTR && apSub[k] == null ==> subs[k] == {})
      && (forall k :: 0 <= k < NPTR && apSub[k] != null ==>
            && apSub[k] in Repr && apSub[k].Repr < Repr && this !in apSub[k].Repr
            && aBitmap !in apSub[k].Repr && aHash !in apSub[k].Repr && apSub !in apSub[k].Repr
            && apSub[k].iSize == iDivisor && apSub[k].Valid() && subs[k] == apSub[k].Contents)
      && (forall j, k :: 0 <= j < k < NPTR && apSub[j] != null && apSub[k] != null ==> apSub[j].Repr !! apSub[k].Repr)
    }

    constructor (iSize: nat)
      requires SizeOk(iSize)
      ensures Valid() && fresh(Repr) && this.iSize == iSize && Contents == {} && iDivisor == 0 && nSet == 0
    {
      this.iSize, nSet, iDivisor := iSize, 0, 0;
      aBitmap := new bv8[NELEM](_ => 0);
      aHash := new nat[NINT](_ => 0);
      apSub := new Bitvec?[NPTR](_ => null);
      Contents, subs := {}, [];
      new;
      Repr := {this, aBitmap, aHash, apSub};
      assert aHash[..] == seq(NINT, _ => 0);
      EmptyTable();
      forall i: nat ensures !HasBit(aBitmap[..], i) { NoBits(aBitmap[..], i); }
    }

    // sqlite3BitvecTestNotNull
    method TestNotNull(i0: nat) returns (r: bool)
      requires Valid() && i0 < U32
      ensures r <==> i0 in Contents
    {
      hide TestBit;
      var i: nat := (i0 + U32 - 1) % U32;
      if i >= iSize {
        ContentsBounded();
        return false;
      }
      var p: Bitvec := this;
      while p.iDivisor != 0
        invariant p.Valid() && i < p.iSize && (i0 in Contents <==> i + 1 in p.Contents)
        decreases p.iSize
      {
        var bin: nat := i / p.iDivisor;
        DivisorFits(p.iSize);
        SubIndex(i + 1, p.iDivisor, p.iSize);
        assert bin == BinOf(i + 1, p.iDivisor);
        i := i % p.iDivisor;
        if p.apSub[bin] == null { return false; }
        p := p.apSub[bin];
      }
      if p.iSize <= NBIT {
        r := ReadBit(p.aBitmap, i);
      } else {
        r := p.FindInHash(i + 1);
      }
    }

    lemma ContentsBounded()
      requires Valid()
      ensures forall i :: i in Contents ==> 1 <= i <= iSize
    {
    }

    // The probe loop of sqlite3BitvecTestNotNull.
    method FindInHash(v: nat) returns (r: bool)
      requires Valid() && iSize > NBIT && iDivisor == 0 && 0 < v
      ensures r <==> v in Contents
    {
      var h := (v - 1) % NINT;
      ghost var z := EmptySlot(aHash[..]);
      while aHash[h] != 0
        invariant 0 <= h < NINT && Probed(aHash[..], v, h)
        decreases Probes(Home(v), z) - Probes(Home(v), h)
      {
        if aHash[h] == v {
          assert aHash[..][h] == v;
          return true;
        }
        ProbeOn(aHash[..], v, h, z);
        h := (h + 1) % NINT;
      }
      ProbeMisses(aHash[..], nSet, v, h);
      return false;
    }

    // sqlite3BitvecSet on the bitmap form.
    method SetInBitmap(i: nat)
      requires Valid() && iSize <= NBIT && 1 <= i <= iSize
      modifies aBitmap, `Contents
      ensures Valid() && Contents == old(Contents) + {i}
    {
      hide TestBit, SetBit;
      ghost var a := aBitmap[..];
      RaiseBit(aBitmap, i - 1);
      Contents := Contents + {i};
      forall j: nat ensures HasBit(aBitmap[..], j) <==> j == i || HasBit(a, j) {
        if 1 <= j <= NBIT { SetBitAt(a, i - 1, j - 1); }
      }
    }

    // The probe loop of sqlite3BitvecSet after a collision: v itself, or the empty slot where it belongs.
    method ProbeFrom(h0: nat, v: nat) returns (found: bool, h: nat)
      requires Valid() && iSize > NBIT && iDivisor == 0 && 0 < v && h0 == Home(v) && aHash[h0] != 0
      ensures found <==> v in Contents
      ensures h < NINT && (!found ==> Probed(aHash[..], v, h) && aHash[h] == 0)
    {
      h := h0;
      ghost var z := EmptySlot(aHash[..]);
      while true
        invariant h < NINT && Probed(aHash[..], v, h) && aHash[h] != 0
        decreases Probes(Home(v), z) - Probes(Home(v), h)
      {
        if aHash[h] == v {
          assert aHash[..][h] == v;
          return true, h;
        }
        ProbeOn(aHash[..], v, h, z);
        h := h + 1;
        if h >= NINT { h := 0; }
        if aHash[h] == 0 { break; }
      }
      ProbeMisses(aHash[..], nSet, v, h);
      found := false;
    }

    // Store v in the empty slot h.
    method Store(v: nat, h: nat)
      requires Valid() && iSize > NBIT && iDivisor == 0 && 1 <= v <= iSize && nSet < NINT - 1
      requires h < NINT && Probed(aHash[..], v, h) && aHash[h] == 0
      modifies aHash, `nSet, `Contents
      ensures Valid() && Contents == old(Contents) + {v} && iDivisor == 0
    {
      HashInsert(aHash[..], nSet, v, h);
      ghost var a := aHash[..];
      nSet := nSet + 1;
      aHash[h] := v;
      assert aHash[..] == a[h := v];
      Contents := Contents + {v};
    }

    // Turn the hash form into the (still empty) form with sub-bitvecs.
    method Divide() returns (aiValues: seq<nat>)
      requires Valid() && iSize > NBIT && iDivisor == 0
      modifies apSub, `iDivisor, `Contents, `subs, `Repr
      ensures Valid() && iDivisor != 0 && Contents == {} && Repr <= old(Repr)
      ensures |aiValues| == NINT && Members(aiValues) == old(Contents) && forall j :: 0 <= j < NINT ==>
          aiValues[j] <= iSize
    {
      aiValues := aHash[..];
      assert forall j :: 0 <= j < NINT && aiValues[j] != 0 ==> aiValues[j] in Members(aiValues);
      forall k | 0 <= k < NPTR { apSub[k] := null; }
      iDivisor := (iSize + NPTR - 1) / NPTR;
      DivisorFits(iSize);
      Repr := {this, aBitmap, aHash, apSub};
      subs := seq(NPTR, _ => {});
      Contents := {};
      assert Union(subs, iDivisor, iSize) == {};
    }

    // The hash form has no room for i and becomes the form with sub-bitvecs.
    ghost predicate Full(i: nat)
      requires Frame() && 0 < i
      reads this, aHash
    {
      iSize > NBIT && i !in Contents && nSet >= MXHASH && (aHash[Home(i)] != 0 || nSet >= NINT - 1)
    }

    // The sub-bitvec where i belongs, and its number there.
    ghost function SubFor(i: nat): (r: (Bitvec?, nat))
      requires Valid() && 1 <= i <= iSize && iDivisor != 0
      reads this, Repr
      ensures r.0 != null ==> r.0 in Repr && r.0.Repr < Repr && r.0.Valid() && 1 <= r.1 <= r.0.iSize
    {
      assert SubForm();
      DivisorFits(iSize);
      SubIndex(i, iDivisor, iSize);
      (apSub[BinOf(i, iDivisor)], NumOf(i, iDivisor))
    }

    // Setting i re-hashes a table.
    ghost predicate Rehashes(i: nat)
      requires Valid() && 1 <= i <= iSize
      reads this, Repr
      decreases Repr
    {
      if iDivisor == 0 then Full(i)
      else var (p, v) := SubFor(i); p != null && p.Rehashes(v)
    }

    // Setting i asks for memory.
    ghost predicate NeedsMemory(i: nat)
      requires Valid() && 1 <= i <= iSize
      reads this, Repr
      decreases Repr
    {
      if iDivisor == 0 then Full(i)
      else var (p, v) := SubFor(i); p == null || p.NeedsMemory(v)
    }

    // sqlite3BitvecSet
    method Set(i: nat, mem: Allocator) returns (rc: int)
      requires Valid() && 1 <= i <= iSize && mem !in Repr
      modifies Repr, mem
      ensures Valid() && fresh(Repr - old(Repr)) && (old(iDivisor) != 0 ==> iDivisor != 0)
      ensures SetEnds(old(Contents), i, Contents, rc, mem.failures - old(mem.failures))
      ensures old(Rehashes(i)) || Contents == if rc == OK then old(Contents) + {i} else old(Contents)
      ensures old(NeedsMemory(i)) || (mem.requests == old(mem.requests) && mem.failures == old(mem.failures))
      decreases iSize, if iDivisor == 0 then 1 else 0, 3
    {
      hide SubForm, SetEnds, HashForm, BitmapForm;
      if iSize > NBIT && iDivisor != 0 {
        rc := SetInSub(i, mem);
      } else if iSize <= NBIT {
        SetInBitmap(i);
        AllAdded(old(Contents), i);
        rc := OK;
      } else {
        rc := SetInHash(i, mem);
      }
    }

    // sqlite3BitvecSet on the hash form.
    method SetInHash(i: nat, mem: Allocator) returns (rc: int)
      requires Valid() && iSize > NBIT && iDivisor == 0 && 1 <= i <= iSize && mem !in Repr
      modifies Repr, mem
      ensures Valid() && fresh(Repr - old(Repr))
      ensures SetEnds(old(Contents), i, Contents, rc, mem.failures - old(mem.failures))
      ensures old(Full(i)) || Contents == if rc == OK then old(Contents) + {i} else old(Contents)
      ensures old(Full(i)) || (mem.requests == old(mem.requests) && mem.failures == old(mem.failures))
      decreases iSize, 1, 1
    {
      hide SubForm, SetEnds, Members, BitmapForm, HashOk;
      AllAdded(Contents, i);
      var h := (i - 1) % NINT;
      if aHash[h] != 0 {
        var found;
        found, h := ProbeFrom(h, i);
        if found {
          assert Contents + {i} == Contents;
          return OK;
        }
        if nSet >= MXHASH { rc := Rehash(i, mem); return; }
      } else {
        ProbeMisses(aHash[..], nSet, i, h);
        if nSet >= NINT - 1 { rc := Rehash(i, mem); return; }
      }
      Store(i, h);
      rc := OK;
    }

    // sqlite3BitvecClear on the bitmap form.
    method ClearInBitmap(i: nat)
      requires Valid() && iSize <= NBIT && 1 <= i <= iSize
      modifies aBitmap, `Contents
      ensures Valid() && Contents == old(Contents) - {i}
    {
      hide TestBit, ClearBit;
      ghost var a := aBitmap[..];
      LowerBit(aBitmap, i - 1);
      Contents := Contents - {i};
      forall j: nat ensures HasBit(aBitmap[..], j) <==> j != i && HasBit(a, j) {
        if 1 <= j <= NBIT { ClearBitAt(a, i - 1, j - 1); }
      }
    }

    // sqlite3BitvecClear on the hash form: the table is built anew without i.
    method RebuildWithout(i: nat)
      requires Valid() && iSize > NBIT && iDivisor == 0
      modifies aHash, `nSet, `Contents
      ensures Valid() && Contents == old(Contents) - {i}
    {
      var aiValues := aHash[..];
      ghost var all := Contents;
      forall k | 0 <= k < NINT { aHash[k] := 0; }
      nSet := 0;
      assert aHash[..] == seq(NINT, _ => 0);
      EmptyTable();
      var j := 0;
      while j < NINT
        invariant 0 <= j <= NINT
        invariant HashOk(aHash[..], nSet) && nSet <= NonZero(aiValues[..j])
        invariant Members(aHash[..]) == Members(aiValues[..j]) - {i}
        invariant Contents == all
      {
        MembersSnoc(aiValues, j);
        assert aiValues[..j + 1][..j] == aiValues[..j];
        NonZeroPrefix(aiValues, j + 1);
        if aiValues[j] != 0 && aiValues[j] != i {
          assert aiValues[j] !in aiValues[..j];
          Reinsert(aiValues[j]);
        }
        j := j + 1;
      }
      assert aiValues[..NINT] == aiValues;
      Contents := Contents - {i};
      assert forall k :: k in Contents ==> k in all;
    }

    // The insertion loop of sqlite3BitvecClear; v is known to be absent.
    method Reinsert(v: nat)
      requires aHash.Length == NINT && HashOk(aHash[..], nSet) && nSet < NINT - 1
      requires 0 < v && v !in Members(aHash[..])
      modifies aHash, `nSet
      ensures HashOk(aHash[..], nSet) && nSet == old(nSet) + 1
      ensures Members(aHash[..]) == old(Members(aHash[..])) + {v}
    {
      ghost var a, n := aHash[..], nSet;
      assert v !in a;
      var h := (v - 1) % NINT;
      nSet := nSet + 1;
      ghost var z := EmptySlot(a);
      while aHash[h] != 0
        invariant 0 <= h < NINT && Probed(a, v, h) && aHash[..] == a && nSet == n + 1
        decreases Probes(Home(v), z) - Probes(Home(v), h)
      {
        ProbeOn(a, v, h, z);
        h := h + 1;
        if h >= NINT { h := 0; }
      }
      HashInsert(a, n, v, h);
      aHash[h] := v;
      assert aHash[..] == a[h := v];
    }

    // sqlite3BitvecClear
    method Clear(i: nat)
      requires Valid() && 1 <= i <= iSize
      modifies Repr
      ensures Valid() && fresh(Repr - old(Repr))
      ensures Contents == old(Contents) - {i}
      decreases iSize
    {
      if iDivisor != 0 {
        var bin: nat, v: nat := (i - 1) / iDivisor, (i - 1) % iDivisor + 1;
        DivisorFits(iSize);
        SubIndex(i, iDivisor, iSize);
        assert bin == BinOf(i, iDivisor) && v == NumOf(i, iDivisor);
        ClearInSub(i, bin, v);
      } else if iSize <= NBIT {
        ClearInBitmap(i);
      } else {
        RebuildWithout(i);
      }
    }

    // sqlite3BitvecClear on the form with sub-bitvecs.
    method ClearInSub(i: nat, bin: nat, v: nat)
      requires Valid() && iDivisor != 0 && 1 <= i <= iSize <= NPTR * iDivisor && iDivisor < iSize
      requires bin == BinOf(i, iDivisor) < NPTR && v == NumOf(i, iDivisor) && 1 <= v <= iDivisor
      modifies Repr
      ensures Valid() && fresh(Repr - old(Repr))
      ensures Contents == old(Contents) - {i}
      decreases iSize, 0
    {
      hide Union, BinOf, NumOf;
      var p := apSub[bin];
      if p == null {
        UnionUpdate(subs, iDivisor, iSize, i, {});
        assert subs[bin := {}] == subs;
        return;
      }
      p.Clear(v);
      ReadyToRejoin(bin);
      hide Valid, AllBut, Apart;
      UnionUpdate(subs, iDivisor, iSize, i, p.Contents);
      Rejoin(bin);
    }

    // sqlite3BitvecSet on the form with sub-bitvecs.
    method SetInSub(i: nat, mem: Allocator) returns (rc: int)
      requires Valid() && iDivisor != 0 && 1 <= i <= iSize && mem !in Repr
      modifies Repr, mem
      ensures Valid() && fresh(Repr - old(Repr)) && iDivisor != 0
      ensures SetEnds(old(Contents), i, Contents, rc, mem.failures - old(mem.failures))
      ensures old(Rehashes(i)) || Contents == if rc == OK then old(Contents) + {i} else old(Contents)
      ensures old(NeedsMemory(i)) || (mem.requests == old(mem.requests) && mem.failures == old(mem.failures))
      decreases iSize, 0, 2
    {
      var bin: nat, v: nat := (i - 1) / iDivisor, (i - 1) % iDivisor + 1;
      DivisorFits(iSize);
      SubIndex(i, iDivisor, iSize);
      assert bin == BinOf(i, iDivisor) && v == NumOf(i, iDivisor);
      hide Union, BinOf, NumOf, SetEnds;
      if apSub[bin] == null {
        rc := SetInNew(i, bin, v, mem);
      } else {
        rc := SetAt(i, bin, v, mem);
      }
    }

    // The sub-bitvec has to be allocated first.
    method SetInNew(i: nat, bin: nat, v: nat, mem: Allocator) returns (rc: int)
      requires Valid() && iDivisor != 0 && 1 <= i <= iSize <= NPTR * iDivisor && iDivisor < iSize
      requires bin == BinOf(i, iDivisor) < NPTR && v == NumOf(i, iDivisor) && 1 <= v <= iDivisor && apSub[bin] == null
      requires mem !in Repr
      modifies Repr, mem
      ensures Valid() && fresh(Repr - old(Repr)) && iDivisor != 0 && old(NeedsMemory(i))
      ensures SetEnds(old(Contents), i, Contents, rc, mem.failures - old(mem.failures))
      ensures Contents == if rc == OK then old(Contents) + {i} else old(Contents)
      decreases iSize, 0, 1
    {
      hide Union, BinOf, NumOf, SetEnds;
      assert SubFor(i) == (null, v);
      NoneLost(Contents, i);
      var ok := AddSub(bin, mem);
      if ok {
        assert SubFor(i) == (apSub[bin], v) && !Rehashes(i);
        rc := SetAt(i, bin, v, mem);
      } else {
        rc := NOMEM;
      }
    }

    // The value goes into sub-bitvec bin.
    method SetAt(i: nat, bin: nat, v: nat, mem: Allocator) returns (rc: int)
      requires Valid() && iDivisor != 0 && 1 <= i <= iSize <= NPTR * iDivisor && iDivisor < iSize
      requires bin == BinOf(i, iDivisor) < NPTR && v == NumOf(i, iDivisor) && 1 <= v <= iDivisor && apSub[bin] != null
      requires mem !in Repr
      modifies Repr, mem
      ensures Valid() && fresh(Repr - old(Repr)) && iDivisor != 0
      ensures SetEnds(old(Contents), i, Contents, rc, mem.failures - old(mem.failures))
      ensures old(Rehashes(i)) || Contents == if rc == OK then old(Contents) + {i} else old(Contents)
      ensures old(NeedsMemory(i)) || (mem.requests == old(mem.requests) && mem.failures == old(mem.failures))
      decreases iSize, 0, 0
    {
      hide Union, BinOf, NumOf, SetEnds;
      var p: Bitvec := apSub[bin];
      assert SubFor(i) == (p, v);
      rc := p.Set(v, mem);
      ReadyToRejoin(bin);
      hide Valid, AllBut, Apart;
      UnionEnds(subs, iDivisor, iSize, i, p.Contents, rc, mem.failures - old(mem.failures));
      Rejoin(bin);
    }

    // Everything but sub-bitvec bin is as it was when this was valid.
    ghost predicate AllBut(bin: nat)
      reads this, Repr
    {
      && Frame() && SizeOk(iSize) && iSize > NBIT && iDivisor == DivisorFor(iSize) && |subs| == NPTR && bin < NPTR
      && (forall k :: 0 <= k < NPTR && apSub[k] == null ==> subs[k] == {})
      && (forall k :: 0 <= k < NPTR && k != bin && apSub[k] != null ==>
            && apSub[k] in Repr && apSub[k].Repr < Repr && this !in apSub[k].Repr
            && aBitmap !in apSub[k].Repr && aHash !in apSub[k].Repr && apSub !in apSub[k].Repr
            && apSub[k].iSize == iDivisor && apSub[k].Valid() && subs[k] == apSub[k].Contents)
      && (forall j, k :: 0 <= j < k < NPTR && j != bin && k != bin && apSub[j] != null && apSub[k] != null ==>
            apSub[j].Repr !! apSub[k].Repr)
    }

    // Sub-bitvec bin shares no storage with the rest.
    ghost predicate Apart(bin: nat)
      requires apSub.Length == NPTR && bin < NPTR && apSub[bin] != null
      reads this, apSub, set k | 0 <= k < NPTR && k < apSub.Length && apSub[k] != null :: apSub[k]
    {
      && apSub[bin].iSize == iDivisor && {this, aBitmap, aHash, apSub} !! apSub[bin].Repr
      && forall k :: 0 <= k < NPTR && k != bin && apSub[k] != null ==> apSub[k].Repr !! apSub[bin].Repr
    }

    // A change inside sub-bitvec bin leaves the rest alone.
    twostate lemma OthersKept(bin: nat)
      requires old(Valid()) && old(iDivisor) != 0 && bin < NPTR && old(apSub[bin]) != null
      requires forall o :: o in old(Repr) && o !in old(apSub[bin].Repr) ==> unchanged(o)
      ensures unchanged(this, apSub)
      ensures forall k :: 0 <= k < NPTR && k != bin && apSub[k] != null ==> unchanged(apSub[k]) && apSub[k].Valid()
    {
      hide Union, BitmapForm, HashForm;
      assert unchanged(apSub);
      forall k | 0 <= k < NPTR && k != bin && apSub[k] != null ensures unchanged(apSub[k]) && apSub[k].Valid() {
        assert apSub[k] == old(apSub[k]);
        assert old(apSub[k].Repr !! apSub[bin].Repr);
        assert old(apSub[k].Valid());
      }
    }

    // After such a change the whole only waits for sub-bitvec bin to be taken back.
    twostate lemma ReadyToRejoin(bin: nat)
      requires old(Valid()) && old(iDivisor) != 0 && bin < NPTR && old(apSub[bin]) != null
      requires forall o :: o in old(Repr) && o !in old(apSub[bin].Repr) ==> unchanged(o)
      requires var p: Bitvec := old(apSub[bin]); p.Valid() && fresh(p.Repr - old(p.Repr))
      ensures AllBut(bin) && apSub[bin] != null && Apart(bin) && apSub[bin].Valid()
    {
      hide Union, BitmapForm, HashForm;
      OthersKept(bin);
    }

    // Take the changed sub-bitvec bin back into the whole.
    ghost method Rejoin(bin: nat)
      requires AllBut(bin) && apSub[bin] != null && Apart(bin) && apSub[bin].Valid()
      modifies `subs, `Contents, `Repr
      ensures Valid() && Repr == old(Repr) + apSub[bin].Repr
      ensures subs == old(subs)[bin := apSub[bin].Contents] && Contents == Union(subs, iDivisor, iSize)
    {
      hide Union;
      subs := subs[bin := apSub[bin].Contents];
      Contents := Union(subs, iDivisor, iSize);
      Repr := Repr + apSub[bin].Repr;
    }

    // Allocate the missing sub-bitvec bin.
    method AddSub(bin: nat, mem: Allocator) returns (ok: bool)
      requires Valid() && iDivisor != 0 && bin < NPTR && apSub[bin] == null && mem !in Repr
      modifies apSub, `Repr, mem
      ensures Valid() && fresh(Repr - old(Repr))
      ensures ok ==> apSub[bin] != null && apSub[bin].iDivisor == 0 && apSub[bin].nSet == 0
      ensures mem.failures == old(mem.failures) + if ok then 0 else 1
    {
      hide Union;
      DivisorFits(iSize);
      var p := BitvecCreate(iDivisor, mem);
      if p == null { return false; }
      apSub[bin] := p;
      Repr := Repr + p.Repr;
      ok := true;
    }

    // The re-hash of sqlite3BitvecSet; the first request is for the copy of the table.
    method Rehash(i: nat, mem: Allocator) returns (rc: int)
      requires Valid() && iSize > NBIT && iDivisor == 0 && 1 <= i <= iSize && mem !in Repr
      modifies Repr, mem
      ensures Valid() && fresh(Repr - old(Repr))
      ensures SetEnds(old(Contents), i, Contents, rc, mem.failures - old(mem.failures))
      decreases iSize, 1, 0
    {
      hide SubForm, Members;
      var ok := mem.Request();
      if !ok {
        NoneLost(Contents, i);
        return NOMEM;
      }
      var aiValues := Divide();
      rc := InsertAll(aiValues, i, mem);
    }

    // Its loop: i and the old values are set in turn.
    method InsertAll(aiValues: seq<nat>, i: nat, mem: Allocator) returns (rc: int)
      requires Valid() && iDivisor != 0 && Contents == {} && 1 <= i <= iSize && mem !in Repr
      requires |aiValues| == NINT && forall j :: 0 <= j < NINT ==> aiValues[j] <= iSize
      modifies Repr, mem
      ensures Valid() && fresh(Repr - old(Repr))
      ensures SetEnds(Members(aiValues), i, Contents, rc, mem.failures - old(mem.failures))
      decreases iSize, 0, 4
    {
      hide SubForm, Members, Valid, SetEnds, Rehashes, NeedsMemory;
      rc := Set(i, mem);
      var j := 0;
      NoMembers(aiValues);
      while j < NINT
        invariant 0 <= j <= NINT && Valid() && iDivisor != 0 && fresh(Repr - old(Repr)) && mem !in Repr
        invariant SetEnds(Members(aiValues[..j]), i, Contents, rc, mem.failures - old(mem.failures))
      {
        MembersSnoc(aiValues, j);
        if aiValues[j] != 0 {
          ghost var c, k, rc0 := Contents, mem.failures, rc;
          var rc' := Set(aiValues[j], mem);
          rc := Or(rc, rc');
          LostMore(Members(aiValues[..j]), i, c, rc0, k - old(mem.failures), aiValues[j], Contents, rc',
              mem.failures - k);
        } else {
          assert Members(aiValues[..j + 1]) == Members(aiValues[..j]);
        }
        j := j + 1;
      }
      assert aiValues[..NINT] == aiValues;
    }

    /** Setting a number that is already there asks for no memory; neither does a bitmap, or a table that is less than
        half full. */
    lemma {:induction false} NoMemoryNeeded(i: nat)
      requires Valid() && 1 <= i <= iSize
      ensures i in Contents ==> !NeedsMemory(i)
      ensures iSize <= NBIT ==> !NeedsMemory(i)
      ensures iDivisor == 0 && nSet < MXHASH ==> !NeedsMemory(i)
      ensures Rehashes(i) ==> NeedsMemory(i)
      decreases Repr
    {
      if iDivisor != 0 {
        var (p, v) := SubFor(i);
        if p != null { p.NoMemoryNeeded(v); }
      }
    }
  }

  lemma AllAdded(c: set<nat>, i: nat)
    ensures SetEnds(c, i, c + {i}, OK, 0)
  {
  }

  lemma NoneLost(c: set<nat>, i: nat)
    ensures SetEnds(c, i, c, NOMEM, 1)
  {
    assert c + {i} - c <= {i};
    SubsetSize(c + {i} - c, {i});
  }

  lemma SubsetSize(a: set<nat>, b: set<nat>)
    requires a <= b
    ensures |a| <= |b|
  {
    assert b == a + (b - a);
  }

  // Two calls one after the other: k failed requests, then k'.
  lemma LostMore(m: set<nat>, i: nat, c: set<nat>, rc: int, k: int, v: nat, c': set<nat>, rc': int, k': int)
    requires SetEnds(m, i, c, rc, k) && SetEnds(c, v, c', rc', k')
    ensures SetEnds(m + {v}, i, c', Or(rc, rc'), k + k')
  {
    var lost, lost' := m + {i} - c, c + {v} - c';
    var all := m + {v} + {i} - c';
    assert all <= lost + lost';
    SubsetSize(all, lost + lost');
  }

  // The values missing from a sub-bitvec are as many as those missing from the whole.
  lemma UnionLost(subs: seq<set<nat>>, d: nat, iSize: nat, i: nat, c: set<nat>)
    requires |subs| == NPTR && d > 0 && 1 <= i <= iSize <= NPTR * d
    ensures BinOf(i, d) < NPTR
    ensures var b, v := BinOf(i, d), NumOf(i, d);
            var u, u' := Union(subs, d, iSize), Union(subs[b := c], d, iSize);
            |u + {i} - u'| <= |subs[b] + {v} - c|
  {
    SubIndex(i, d, iSize);
    var b, v := BinOf(i, d), NumOf(i, d);
    var lost := Union(subs, d, iSize) + {i} - Union(subs[b := c], d, iSize);
    forall j | j in lost ensures j > 0 && BinOf(j, d) == b && NumOf(j, d) in subs[b] + {v} - c {
    }
    NumbersDiffer(lost, subs[b] + {v} - c, d, b);
  }

  // A call on the sub-bitvec, seen from the whole.
  lemma UnionEnds(subs: seq<set<nat>>, d: nat, iSize: nat, i: nat, c: set<nat>, rc: int, k: int)
    requires |subs| == NPTR && d > 0 && 1 <= i <= iSize <= NPTR * d && BinOf(i, d) < NPTR
    requires SetEnds(subs[BinOf(i, d)], NumOf(i, d), c, rc, k)
    ensures var b, v := BinOf(i, d), NumOf(i, d);
            var u, u' := Union(subs, d, iSize), Union(subs[b := c], d, iSize);
            && SetEnds(u, i, u', rc, k)
            && (c == subs[b] + {v} ==> u' == u + {i}) && (c == subs[b] ==> u' == u)
  {
    hide Union, BinOf, NumOf;
    UnionUpdate(subs, d, iSize, i, c);
    UnionLost(subs, d, iSize, i, c);
    assert subs[BinOf(i, d) := subs[BinOf(i, d)]] == subs;
  }

  lemma {:induction false} NumbersDiffer(a: set<nat>, nums: set<nat>, d: nat, b: nat)
    requires d > 0 && forall j :: j in a ==> j > 0 && BinOf(j, d) == b && NumOf(j, d) in nums
    ensures |a| <= |nums|
    decreases a
  {
    hide BinOf, NumOf;
    if j :| j in a {
      forall l | l in a - {j} ensures NumOf(l, d) in nums - {NumOf(j, d)} {
        if NumOf(l, d) == NumOf(j, d) { SubUnique(l, j, d); }
      }
      NumbersDiffer(a - {j}, nums - {NumOf(j, d)}, d, b);
    }
  }

  // The entry points; a null Bitvec holds nothing.

  // sqlite3BitvecCreate: null if there is no memory.
  method BitvecCreate(iSize: nat, mem: Allocator) returns (p: Bitvec?)
    requires SizeOk(iSize)
    modifies mem
    ensures mem.requests == old(mem.requests) + 1
    ensures mem.failures == old(mem.failures) + if p == null then 1 else 0
    ensures p != null ==>
              p.Valid() && fresh(p.Repr) && p.iSize == iSize && p.Contents == {} && p.iDivisor == 0 && p.nSet == 0
  {
    var ok := mem.Request();
    p := null;
    if ok { p := new Bitvec(iSize); }
  }

  // sqlite3BitvecTest
  method BitvecTest(p: Bitvec?, i: nat) returns (r: bool)
    requires p != null ==> p.Valid()
    requires i < U32
    ensures r <==> p != null && i in p.Contents
  {
    r := false;
    if p != null { r := p.TestNotNull(i); }
  }

  method BitvecSet(p: Bitvec?, i: nat, mem: Allocator) returns (rc: int)
    requires p != null ==> p.Valid() && 1 <= i <= p.iSize && mem !in p.Repr
    modifies if p == null then {} else p.Repr, mem
    ensures p == null ==> rc == OK && mem.requests == old(mem.requests) && mem.failures == old(mem.failures)
    ensures p != null ==>
              && p.Valid() && fresh(p.Repr - old(p.Repr))
              && SetEnds(old(p.Contents), i, p.Contents, rc, mem.failures - old(mem.failures))
              && (old(p.Rehashes(i)) || p.Contents == if rc == OK then old(p.Contents) + {i} else old(p.Contents))
              && (old(p.NeedsMemory(i)) ||
                  (mem.requests == old(mem.requests) && mem.failures == old(mem.failures)))
  {
    rc := OK;
    if p != null { rc := p.Set(i, mem); }
  }

  method BitvecClear(p: Bitvec?, i: nat)
    requires p != null ==> p.Valid() && 1 <= i <= p.iSize
    modifies if p == null then {} else p.Repr
    ensures p != null ==> p.Valid() && fresh(p.Repr - old(p.Repr)) && p.Contents == old(p.Contents) - {i}
  {
    if p != null { p.Clear(i); }
  }

  // rc |= rc', for codes that are OK or NOMEM.
  function Or(rc: int, rc': int): int {
    if rc' != OK then rc' else rc
  }

  lemma NoMembers(a: seq<nat>)
    ensures Members(a[..0]) == {}
  {
  }

  lemma MembersSnoc(a: seq<nat>, j: nat)
    requires j < |a|
    ensures Members(a[..j + 1]) == Members(a[..j]) + (if a[j] != 0 then {a[j]} else {})
  {
    assert a[..j + 1] == a[..j] + [a[j]];
  }
}
