/** The two leaf forms of a Bitvec as values: the flat bitmap and the
    linear-probing hash table. */
module BitvecForms {

  const U32 := 0x1_0000_0000
  const NPTR := 62
  const NELEM := 496     // bytes in the union
  const NBIT := 3968     // bits in the bitmap form
  const NINT := 124      // slots in the hash form
  const MXHASH := 62

  /** Bitmap form: value i is bit i-1. */

  function Mask(k: nat): bv8
    requires k < 8
  {
    1 << k
  }

  predicate BitAt(b: bv8, k: nat)
    requires k < 8
  {
    b & Mask(k) != 0
  }

  predicate TestBit(a: seq<bv8>, i: nat)
    requires i < 8 * |a|
  {
    BitAt(a[i / 8], i % 8)
  }

  // Value i is in the bitmap.
  predicate HasBit(a: seq<bv8>, i: nat)
    requires |a| == NELEM
  {
    1 <= i <= NBIT && TestBit(a, i - 1)
  }

  lemma NoBits(a: seq<bv8>, i: nat)
    requires |a| == NELEM && forall k :: 0 <= k < NELEM ==> a[k] == 0
    ensures !HasBit(a, i)
  {
  }

  function SetBit(a: seq<bv8>, i: nat): (r: seq<bv8>)
    requires i < 8 * |a|
    ensures |r| == |a|
  {
    a[i / 8 := a[i / 8] | Mask(i % 8)]
  }

  function ClearBit(a: seq<bv8>, i: nat): (r: seq<bv8>)
    requires i < 8 * |a|
    ensures |r| == |a|
  {
    a[i / 8 := a[i / 8] & !Mask(i % 8)]
  }

  // The mask as a table, so that bits can be compared one by one.
  lemma MaskTable()
    ensures Mask(0) == 1 && Mask(1) == 2 && Mask(2) == 4 && Mask(3) == 8
    ensures Mask(4) == 16 && Mask(5) == 32 && Mask(6) == 64 && Mask(7) == 128
  {
  }

  lemma ByteBits(b: bv8, m: bv8, n: bv8)
    requires m == 1 || m == 2 || m == 4 || m == 8 || m == 16 || m == 32 || m == 64 || m == 128
    requires n == 1 || n == 2 || n == 4 || n == 8 || n == 16 || n == 32 || n == 64 || n == 128
    ensures ((b | m) & n != 0) <==> (m == n || b & n != 0)
    ensures (b & !m & n != 0) <==> (m != n && b & n != 0)
  {
  }

  lemma MasksDiffer(j: nat, k: nat)
    requires j < 8 && k < 8
    ensures Mask(j) == Mask(k) <==> j == k
    ensures var m := Mask(j); m == 1 || m == 2 || m == 4 || m == 8 || m == 16 || m == 32 || m == 64 || m == 128
  {
    MaskTable();
    hide Mask;
  }

  lemma OneBit(b: bv8, j: nat, k: nat)
    requires j < 8 && k < 8
    ensures BitAt(b | Mask(j), k) <==> j == k || BitAt(b, k)
    ensures BitAt(b & !Mask(j), k) <==> j != k && BitAt(b, k)
  {
    hide *;
    MaskEquals(j, k);
    MaskedByte(b, j, k);
    BitIs(b, k);
    BitIs(b | Mask(j), k);
    BitIs(b & !Mask(j), k);
  }

  lemma BitIs(b: bv8, k: nat)
    requires k < 8
    ensures BitAt(b, k) <==> b & Mask(k) != 0
  {
  }

  lemma MaskEquals(j: nat, k: nat)
    requires j < 8 && k < 8
    ensures Mask(j) == Mask(k) <==> j == k
  {
    MasksDiffer(j, k);
  }

  lemma MaskedByte(b: bv8, j: nat, k: nat)
    requires j < 8 && k < 8
    ensures ((b | Mask(j)) & Mask(k) != 0) <==> (Mask(j) == Mask(k) || b & Mask(k) != 0)
    ensures (b & !Mask(j) & Mask(k) != 0) <==> (Mask(j) != Mask(k) && b & Mask(k) != 0)
  {
    hide Mask;
    MasksDiffer(j, k);
    MasksDiffer(k, j);
    ByteBits(b, Mask(j), Mask(k));
  }

  lemma SameByte(i: nat, j: nat)
    ensures i == j <==> i / 8 == j / 8 && i % 8 == j % 8
  {
  }

  lemma ByteUpdate(a: seq<bv8>, n: nat, b: bv8, j: nat)
    requires n < |a| && j < 8 * |a|
    ensures TestBit(a[n := b], j) == if j / 8 == n then BitAt(b, j % 8) else TestBit(a, j)
  {
    hide BitAt;
  }

  /** Setting a bit adds exactly that member. */
  lemma {:induction false} SetBitAt(a: seq<bv8>, i: nat, j: nat)
    requires i < 8 * |a| && j < 8 * |a|
    ensures TestBit(SetBit(a, i), j) <==> i == j || TestBit(a, j)
  {
    hide BitAt, Mask;
    SameByte(i, j);
    OneBit(a[i / 8], i % 8, j % 8);
    ByteUpdate(a, i / 8, a[i / 8] | Mask(i % 8), j);
  }

  /** Clearing a bit removes exactly that member. */
  lemma {:induction false} ClearBitAt(a: seq<bv8>, i: nat, j: nat)
    requires i < 8 * |a| && j < 8 * |a|
    ensures TestBit(ClearBit(a, i), j) <==> i != j && TestBit(a, j)
  {
    hide BitAt, Mask;
    SameByte(i, j);
    OneBit(a[i / 8], i % 8, j % 8);
    ByteUpdate(a, i / 8, a[i / 8] & !Mask(i % 8), j);
  }

  /** Hash form: slot values are members, 0 is an empty slot. */

  function Home(v: nat): nat
    requires v > 0
  {
    (v - 1) % NINT
  }

  function NextSlot(h: nat): nat
    requires h < NINT
  {
    (h + 1) % NINT
  }

  // How many probes lead from slot h to slot t.
  function Probes(h: nat, t: nat): nat
    requires h < NINT && t < NINT
  {
    if t >= h then t - h else t + NINT - h
  }

  function NonZero(a: seq<nat>): (n: nat)
    ensures n <= |a|
  {
    if |a| == 0 then 0 else NonZero(a[..|a| - 1]) + (if a[|a| - 1] != 0 then 1 else 0)
  }

  function Members(a: seq<nat>): set<nat> {
    set v | v in a && v != 0
  }

  // Every slot before slot s on the probe path of its value is in use.
  predicate Reachable(a: seq<nat>, s: nat, t: nat)
    requires |a| == NINT && s < NINT && t < NINT
  {
    a[s] != 0 && Probes(Home(a[s]), t) < Probes(Home(a[s]), s) ==> a[t] != 0
  }

  ghost predicate HashOk(a: seq<nat>, nSet: nat)
  {
    && |a| == NINT && nSet == NonZero(a) && nSet < NINT
    && (forall s, t :: 0 <= s < t < NINT && a[s] != 0 ==> a[s] != a[t])
    && (forall s, t :: 0 <= s < NINT && 0 <= t < NINT ==> Reachable(a, s, t))
  }

  // A table that is not full has an empty slot.
  lemma {:induction false} EmptySlot(a: seq<nat>) returns (z: nat)
    requires NonZero(a) < |a|
    ensures z < |a| && a[z] == 0
  {
    if a[|a| - 1] == 0 { z := |a| - 1; } else { z := EmptySlot(a[..|a| - 1]); }
  }

  lemma {:induction false} NonZeroUpdate(a: seq<nat>, h: nat, v: nat)
    requires h < |a| && a[h] == 0 && v != 0
    ensures NonZero(a[h := v]) == NonZero(a) + 1
  {
    var n := |a| - 1;
    if h < n {
      assert a[h := v][..n] == a[..n][h := v];
      NonZeroUpdate(a[..n], h, v);
    } else {
      assert a[h := v][..n] == a[..n];
    }
  }

  lemma {:induction false} NonZeroOfZeros(n: nat)
    ensures NonZero(seq(n, _ => 0)) == 0
  {
    if n > 0 {
      assert seq(n, _ => 0)[..n - 1] == seq(n - 1, _ => 0);
      NonZeroOfZeros(n - 1);
    }
  }

  lemma {:induction false} NonZeroPrefix(a: seq<nat>, j: nat)
    requires j <= |a|
    ensures NonZero(a[..j]) <= NonZero(a)
  {
    if j < |a| {
      assert a[..|a| - 1][..j] == a[..j];
      NonZeroPrefix(a[..|a| - 1], j);
    } else {
      assert a[..j] == a;
    }
  }

  // The slots probed before h hold values other than v.
  ghost predicate Probed(a: seq<nat>, v: nat, h: nat)
    requires |a| == NINT && v > 0 && h < NINT
  {
    forall t :: 0 <= t < NINT && Probes(Home(v), t) < Probes(Home(v), h) ==> a[t] != 0 && a[t] != v
  }

  // Probing on from an occupied slot: the path to the empty slot z gets shorter.
  lemma {:induction false} ProbeOn(a: seq<nat>, v: nat, h: nat, z: nat)
    requires |a| == NINT && v > 0 && h < NINT && z < NINT && Probed(a, v, h)
    requires a[h] != 0 && a[h] != v && a[z] == 0
    ensures Probed(a, v, NextSlot(h))
    ensures Probes(Home(v), h) < Probes(Home(v), NextSlot(h)) <= Probes(Home(v), z)
  {
    var s := Home(v);
    assert Probes(s, h) < Probes(s, z);
    forall t | 0 <= t < NINT && Probes(s, t) < Probes(s, NextSlot(h)) ensures a[t] != 0 && a[t] != v {
      assert Probes(s, t) < Probes(s, h) || t == h;
    }
  }

  /** The first empty slot on the probe path proves absence. */
  lemma {:induction false} ProbeMisses(a: seq<nat>, nSet: nat, v: nat, h: nat)
    requires HashOk(a, nSet) && v > 0 && h < NINT && Probed(a, v, h) && a[h] == 0
    ensures v !in Members(a)
  {
    forall s | 0 <= s < NINT ensures a[s] != v {
      assert Reachable(a, s, h);
    }
  }

  /** Storing an absent value in the first empty slot of its path keeps the table sound. */
  lemma {:induction false} HashInsert(a: seq<nat>, nSet: nat, v: nat, h: nat)
    requires HashOk(a, nSet) && nSet < NINT - 1 && v > 0 && h < NINT && Probed(a, v, h) && a[h] == 0
    ensures HashOk(a[h := v], nSet + 1)
    ensures Members(a[h := v]) == Members(a) + {v}
  {
    var b := a[h := v];
    ProbeMisses(a, nSet, v, h);
    NonZeroUpdate(a, h, v);
    forall s, t | 0 <= s < NINT && 0 <= t < NINT ensures Reachable(b, s, t) {
      assert Reachable(a, s, t);
    }
    forall s, t | 0 <= s < t < NINT && b[s] != 0 ensures b[s] != b[t] {
      assert a[s] in a && a[t] in a;
    }
    InsertMembers(a, v, h);
  }

  lemma InsertMembers(a: seq<nat>, v: nat, h: nat)
    requires h < |a| && a[h] == 0 && v != 0
    ensures Members(a[h := v]) == Members(a) + {v}
  {
    var b := a[h := v];
    assert b[h] == v;
    forall x ensures x in Members(b) <==> x in Members(a) + {v} {
      if x in Members(a) {
        var s :| 0 <= s < |a| && a[s] == x;
        assert b[s] == x;
      }
    }
  }

  lemma EmptyTable()
    ensures HashOk(seq(NINT, _ => 0), 0) && Members(seq(NINT, _ => 0)) == {}
  {
    NonZeroOfZeros(NINT);
    var a: seq<nat> := seq(NINT, _ => 0);
    assert forall s :: 0 <= s < NINT ==> a[s] == 0;
  }
}
