/** The text form of the sqlite_stat1 and sqlite_stat4 counters: how stat_get
    prints them and how decodeIntArray reads them back. */
module CountText {

  const U64 := 0x1_0000_0000_0000_0000

  function Digit(d: nat): char
    requires d < 10
  {
    ('0' as int + d) as char
  }

  // printf's %llu.
  function Decimal(n: nat): (s: string)
    ensures |s| > 0 && forall k :: 0 <= k < |s| ==> '0' <= s[k] <= '9'
  {
    if n < 10 then [Digit(n)] else Decimal(n / 10) + [Digit(n % 10)]
  }

  // The counters, separated by single spaces.
  function Joined(a: seq<nat>): string {
    if |a| == 0 then "" else if |a| == 1 then Decimal(a[0]) else Decimal(a[0]) + " " + Joined(a[1..])
  }

  // sqlite3_snprintf(24, ...) keeps at most 23 characters.
  function Snprintf24(s: string): string {
    if |s| <= 23 then s else s[..23]
  }

  function Pow10(k: nat): nat {
    if k == 0 then 1 else 10 * Pow10(k - 1)
  }

  lemma {:induction false} DecimalLength(n: nat, k: nat)
    requires k > 0 && n < Pow10(k)
    ensures |Decimal(n)| <= k
    decreases k
  {
    if n >= 10 { DecimalLength(n / 10, k - 1); }
  }

  lemma Decimal64(n: nat)
    requires n < U64
    ensures |Decimal(n)| <= 20
  {
    assert Pow10(5) == 100000;
    assert Pow10(10) == 100000 * Pow10(5);
    assert Pow10(15) == 100000 * Pow10(10);
    assert Pow10(20) == 100000 * Pow10(15);
    DecimalLength(n, 20);
  }

  // The number that decimal digits stand for.
  function NumberOf(s: string): nat
    requires forall k :: 0 <= k < |s| ==> '0' <= s[k] <= '9'
  {
    if s == "" then 0 else 10 * NumberOf(s[..|s| - 1]) + (s[|s| - 1] as int - '0' as int)
  }

  /** A number is printed in decimal digits without leading zeros, and counters with single blanks between them. */
  lemma {:induction false} DecimalMeans(n: nat)
    ensures NumberOf(Decimal(n)) == n && (n > 0 ==> Decimal(n)[0] != '0')
    ensures Decimal(0) == "0" && Joined([1, 20, 300]) == "1 20 300"
  {
    if n < 10 {
      assert [Digit(n)][..0] == "";
    } else {
      DecimalMeans(n / 10);
      assert Decimal(n)[..|Decimal(n)| - 1] == Decimal(n / 10);
    }
    ThreeNumbers();
  }

  lemma ThreeNumbers()
    ensures Decimal(0) == "0" && Joined([1, 20, 300]) == "1 20 300"
  {
    assert Decimal(20) == "20" && Decimal(30) == "30" && Decimal(300) == "300";
    var a := [1, 20, 300];
    assert a[1..] == [20, 300] && a[1..][1..] == [300];
  }

  // What the printing loop has written before column i: every number followed by a space.
  function Printed(a: seq<nat>, i: nat): string
    requires i <= |a|
  {
    if i == 0 then "" else Printed(a, i - 1) + Decimal(a[i - 1]) + " "
  }

  lemma {:induction false} PrintedIsJoined(a: seq<nat>, i: nat)
    requires 0 < i <= |a|
    ensures Printed(a, i) == Joined(a[..i]) + " "
  {
    if i == 1 {
      assert Printed(a, 0) == "";
    } else {
      PrintedIsJoined(a, i - 1);
      JoinedSnoc(a[..i - 1], a[i - 1]);
      assert a[..i] == a[..i - 1] + [a[i - 1]];
    }
  }

  lemma {:induction false} JoinedSnoc(a: seq<nat>, x: nat)
    requires |a| > 0
    ensures Joined(a + [x]) == Joined(a) + " " + Decimal(x)
    decreases |a|
  {
    if |a| == 1 {
      assert (a + [x])[1..] == [x];
    } else {
      assert (a + [x])[1..] == a[1..] + [x];
      JoinedSnoc(a[1..], x);
    }
  }

  lemma {:induction false} PrintedLength(a: seq<nat>, i: nat)
    requires i <= |a| && forall k :: 0 <= k < |a| ==> a[k] < U64
    ensures |Printed(a, i)| <= 21 * i
  {
    if i > 0 {
      PrintedLength(a, i - 1);
      Decimal64(a[i - 1]);
    }
  }

  // The printing loop of statGet (columns nEq, nLt and nDLt), into a buffer of 25 bytes a column.
  method FormatCounts(aCnt: seq<nat>) returns (z: string)
    requires |aCnt| > 0 && forall k :: 0 <= k < |aCnt| ==> aCnt[k] < U64
    ensures z == Joined(aCnt) && |z| < 25 * |aCnt|
  {
    var buf := "";
    for i := 0 to |aCnt|
      invariant buf == Printed(aCnt, i) && |buf| <= 21 * i
    {
      Decimal64(aCnt[i]);
      PrintedLength(aCnt, i + 1);
      assert |buf| + 24 <= 25 * |aCnt|;    // the space snprintf may use
      buf := buf + Snprintf24(Decimal(aCnt[i]) + " ");
    }
    PrintedIsJoined(aCnt, |aCnt|);
    assert aCnt[..|aCnt|] == aCnt;
    z := buf[..|buf| - 1];
  }

  // One more number behind a blank, as the stat1 loop of statGet prints it.
  method AppendNumber(z: string, ghost a: seq<nat>, x: nat) returns (z': string)
    requires |a| > 0 && z == Joined(a) && x < U64
    ensures z' == Joined(a + [x]) && |z'| <= |z| + 21
  {
    Decimal64(x);
    JoinedSnoc(a, x);
    var n := Decimal(x);
    hide *;
    Fits24(" " + n);
    z' := z + Snprintf24(" " + n);
    Reassociate(z, n);
  }

  lemma Fits24(s: string)
    requires |s| <= 23
    ensures Snprintf24(s) == s
  {
  }

  lemma Reassociate(z: string, n: string)
    ensures z + " " + n == z + (" " + n)
  {
  }

  predicate IsDigit(c: char) {
    '0' <= c <= '9'
  }

  // The digits at the front of z, appended to v in u64 arithmetic, and the rest of z.
  function TakeNumber(z: string, v: nat): (nat, string) {
    if z != "" && IsDigit(z[0]) then TakeNumber(z[1..], (v * 10 + (z[0] as int - '0' as int)) % U64) else (v, z)
  }

  function SkipSpace(z: string): string {
    if z != "" && z[0] == ' ' then z[1..] else z
  }

  // The numbers decodeIntArray stores, in order.
  function Decoded(z: string, nOut: nat): seq<nat>
    decreases nOut
  {
    if z == "" || nOut == 0 then []
    else
      var (v, rest) := TakeNumber(z, 0);
      [v] + Decoded(SkipSpace(rest), nOut - 1)
  }

  // The inner loop of decodeIntArray.
  method ReadNumber(zIntArray: string) returns (v: nat, z: string)
    ensures (v, z) == TakeNumber(zIntArray, 0)
  {
    v, z := 0, zIntArray;
    while z != "" && IsDigit(z[0])
      invariant TakeNumber(z, v) == TakeNumber(zIntArray, 0)
      decreases |z|
    {
      v := (v * 10 + (z[0] as int - '0' as int)) % U64;
      z := z[1..];
    }
  }

  // After storing done, z remains of zIntArray.
  predicate ToDecode(zIntArray: string, nOut: nat, done: seq<nat>, z: string) {
    |done| <= nOut && Decoded(zIntArray, nOut) == done + Decoded(z, nOut - |done|)
  }

  lemma DecodeOne(zIntArray: string, nOut: nat, done: seq<nat>, z: string)
    requires ToDecode(zIntArray, nOut, done, z) && z != "" && |done| < nOut
    ensures var (v, rest) := TakeNumber(z, 0); ToDecode(zIntArray, nOut, done + [v], SkipSpace(rest))
  {
    hide TakeNumber, SkipSpace;
    var (v, rest) := TakeNumber(z, 0);
    var tail := Decoded(SkipSpace(rest), nOut - |done| - 1);
    assert done + ([v] + tail) == (done + [v]) + tail;
  }

  // decodeIntArray with aOut given: it overwrites a prefix of aOut.
  method DecodeIntArray(zIntArray: string, aOut: array<nat>)
    modifies aOut
    ensures var d := Decoded(zIntArray, aOut.Length);
            |d| <= aOut.Length && aOut[..] == d + old(aOut[..])[|d|..]
  {
    var z := zIntArray;
    var i := 0;
    DecodedLength(z, aOut.Length);
    while z != "" && i < aOut.Length
      invariant 0 <= i <= aOut.Length
      invariant ToDecode(zIntArray, aOut.Length, aOut[..i], z)
      invariant aOut[i..] == old(aOut[..])[i..]
      decreases aOut.Length - i
    {
      ghost var before := aOut[..];
      var v, rest := ReadNumber(z);
      DecodeOne(zIntArray, aOut.Length, aOut[..i], z);
      aOut[i] := v;
      z := if rest != "" && rest[0] == ' ' then rest[1..] else rest;
      assert aOut[..i + 1] == before[..i] + [v];
      assert aOut[i + 1..] == before[i + 1..] == before[i..][1..];
      assert old(aOut[..])[i + 1..] == old(aOut[..])[i..][1..];
      i := i + 1;
    }
    assert aOut[..] == aOut[..i] + aOut[i..];
  }

  lemma {:induction false} DecodedLength(z: string, nOut: nat)
    ensures |Decoded(z, nOut)| <= nOut
    decreases nOut
  {
    if z != "" && nOut > 0 { DecodedLength(SkipSpace(TakeNumber(z, 0).1), nOut - 1); }
  }

  // Reading the digits of n restores n.
  lemma {:induction false} TakeDecimal(n: nat, rest: string)
    requires n < U64 && (rest == "" || !IsDigit(rest[0]))
    ensures TakeNumber(Decimal(n) + rest, 0) == (n, rest)
  {
    TakeDigits(n, rest);
  }

  lemma TakeDigit(d: nat, v: nat, rest: string)
    requires d < 10 && v * 10 + d < U64
    ensures TakeNumber([Digit(d)] + rest, v) == TakeNumber(rest, v * 10 + d)
  {
    assert ([Digit(d)] + rest)[1..] == rest;
  }

  lemma {:induction false} TakeDigits(n: nat, rest: string)
    requires n < U64
    ensures TakeNumber(Decimal(n) + rest, 0) == TakeNumber(rest, n)
    decreases n
  {
    var q, d := n / 10, n % 10;
    var last := [Digit(d)] + rest;
    TakeDigit(d, q, rest);
    if n < 10 {
      assert Decimal(n) + rest == last;
    } else {
      assert Decimal(n) + rest == Decimal(q) + last;
      TakeDigits(q, last);
    }
  }

  /** Decoding the printed counters gives them back, for every number of columns and every 64-bit value. */
  lemma {:induction false} DecodePrinted(a: seq<nat>)
    requires forall k :: 0 <= k < |a| ==> a[k] < U64
    ensures Decoded(Joined(a), |a|) == a
    decreases |a|
  {
    if |a| == 1 {
      TakeDecimal(a[0], "");
      assert Decimal(a[0]) + "" == Decimal(a[0]);
    } else if |a| > 1 {
      var rest := " " + Joined(a[1..]);
      assert Joined(a) == Decimal(a[0]) + rest;
      TakeDecimal(a[0], rest);
      DecodePrinted(a[1..]);
      assert SkipSpace(rest) == Joined(a[1..]);
    }
  }
}
