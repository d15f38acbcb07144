/** Integers and varints in database pages: the file format's encodings and
    what the repair kit's parsers make of any bytes. */
module RepairNumbers {

  type Byte = b: int | 0 <= b < 256

  // Undefined: the C code reads memory outside its buffer, or a variable it has not set.
  datatype Outcome<T> = Ok(value: T) | Damaged | Misuse | Undefined

  const MAX_VARINT := 9

  function Pow256(n: nat): (p: nat)
    ensures p > 0
  {
    if n == 0 then 1 else 256 * Pow256(n - 1)
  }

  /** Big-endian two's complement integers. */

  // The unsigned value of big-endian bytes.
  function BigEndian(b: seq<Byte>): (v: nat) {
    if b == [] then 0 else BigEndian(b[..|b| - 1]) * 256 + b[|b| - 1]
  }

  lemma {:induction false} BigEndianBound(b: seq<Byte>)
    ensures BigEndian(b) < Pow256(|b|)
  {
    if b != [] { BigEndianBound(b[..|b| - 1]); }
  }

  // The big-endian bytes of an unsigned value.
  function ToBytes(v: nat, n: nat): (b: seq<Byte>)
    ensures |b| == n
  {
    if n == 0 then [] else ToBytes(v / 256, n - 1) + [v % 256]
  }

  lemma {:induction false} ToBytesInverse(v: nat, n: nat)
    requires v < Pow256(n)
    ensures BigEndian(ToBytes(v, n)) == v
  {
    if n > 0 {
      DivBelow(v, Pow256(n - 1));
      ToBytesInverse(v / 256, n - 1);
      hide Pow256;
      BigEndianSnoc(ToBytes(v / 256, n - 1), v % 256);
    }
  }

  lemma DivBelow(v: nat, p: nat)
    requires v < 256 * p
    ensures v / 256 < p && v == v / 256 * 256 + v % 256
  {
  }

  lemma BigEndianSnoc(b: seq<Byte>, x: Byte)
    ensures BigEndian(b + [x]) == BigEndian(b) * 256 + x
  {
    assert (b + [x])[..|b|] == b;
  }

  lemma {:induction false} BytesInverse(b: seq<Byte>)
    ensures ToBytes(BigEndian(b), |b|) == b
  {
    if b != [] { BytesInverse(b[..|b| - 1]); }
  }

  // The integer v as n bytes of two's complement.
  function EncodeInt(v: int, n: nat): (b: seq<Byte>)
    requires v + Pow256(n) >= 0
    ensures |b| == n
  {
    ToBytes(if v < 0 then v + Pow256(n) else v, n)
  }

  predicate IntFits(v: int, n: nat) {
    0 <= 2 * v + Pow256(n) && 2 * v < Pow256(n)
  }

  function Int8(b: Byte): int {
    if b >= 128 then b - 256 else b
  }

  // sqliterkParseInt64, on the bytes it reads
  function ParseInt64(p: seq<Byte>): Outcome<int> {
    var q: seq<int> := p;
    match |p|
    case 1 => Ok(Int8(p[0]))
    case 2 => Ok(Int8(p[0]) * 256 + q[1])
    case 3 => Ok(Int8(p[0]) * 65536 + q[1] * 256 + q[2])
    case 4 => Ok(Int8(p[0]) * 16777216 + q[1] * 65536 + q[2] * 256 + q[3])
    case 6 => Ok((Int8(p[0]) * 256 + q[1]) * 0x1_0000_0000 + (q[2] * 16777216 + q[3] * 65536 + q[4] * 256 + q[5]))
    case 8 =>
      Ok((Int8(p[0]) * 16777216 + q[1] * 65536 + q[2] * 256 + q[3]) * 0x1_0000_0000
         + (q[4] * 16777216 + q[5] * 65536 + q[6] * 256 + q[7]))
    case _ => Misuse
  }

  // The two's complement value of big-endian bytes.
  function Signed(b: seq<Byte>): int
    requires |b| > 0
  {
    if b[0] >= 128 then BigEndian(b) - Pow256(|b|) else BigEndian(b)
  }

  lemma BigEndian4(b: seq<Byte>)
    requires |b| >= 4
    ensures var q: seq<int> := b;
            && BigEndian(b[..1]) == q[0] && BigEndian(b[..2]) == q[0] * 256 + q[1]
            && BigEndian(b[..3]) == q[0] * 65536 + q[1] * 256 + q[2]
            && BigEndian(b[..4]) == q[0] * 16777216 + q[1] * 65536 + q[2] * 256 + q[3]
  {
    assert b[..1][..0] == [] && b[..2][..1] == b[..1] && b[..3][..2] == b[..2] && b[..4][..3] == b[..3];
  }

  lemma {:induction false} BigEndianSplit(x: seq<Byte>, y: seq<Byte>)
    ensures BigEndian(x + y) == BigEndian(x) * Pow256(|y|) + BigEndian(y)
  {
    if y == [] {
      assert x + y == x;
    } else {
      var n := |y| - 1;
      assert (x + y)[..|x| + n] == x + y[..n];
      BigEndianSplit(x, y[..n]);
      assert BigEndian(x) * Pow256(n) * 256 == BigEndian(x) * (256 * Pow256(n));
    }
  }

  lemma Powers()
    ensures Pow256(1) == 256 && Pow256(2) == 65536 && Pow256(3) == 16777216 && Pow256(4) == 0x1_0000_0000
    ensures Pow256(6) == 0x1_0000_0000_0000 && Pow256(8) == 0x1_0000_0000_0000_0000
  {
    assert Pow256(1) == 256 && Pow256(2) == 65536 && Pow256(3) == 16777216 && Pow256(4) == 0x1_0000_0000;
    assert Pow256(5) == 256 * Pow256(4) && Pow256(6) == 256 * Pow256(5);
    assert Pow256(7) == 256 * Pow256(6) && Pow256(8) == 256 * Pow256(7);
  }

  /** ParseInt64 reads two's complement of every length it takes, and takes no other length. */
  lemma {:induction false} ParseIsSigned(p: seq<Byte>)
    ensures ParseInt64(p).Ok? <==> |p| in {1, 2, 3, 4, 6, 8}
    ensures ParseInt64(p).Ok? ==> ParseInt64(p).value == Signed(p)
  {
    Powers();
    var n := |p|;
    if n == 1 || n == 2 || n == 3 {
      BigEndian4(p + [0, 0, 0]);
      assert (p + [0, 0, 0])[..n] == p;
    } else if n == 4 {
      BigEndian4(p);
      assert p[..4] == p;
    } else if n == 6 || n == 8 {
      ParseWide(p);
    }
  }

  lemma ParseWide(p: seq<Byte>)
    requires |p| == 6 || |p| == 8
    ensures ParseInt64(p) == Ok(Signed(p))
  {
    Powers();
    var h := |p| - 4;
    BigEndian4(p);
    BigEndian4(p[h..]);
    assert p[..h] + p[h..] == p && p[h..][..4] == p[h..];
    BigEndianSplit(p[..h], p[h..]);
    hide BigEndian, Pow256;
  }

  /** What the format stores, the parser gives back. */
  lemma {:induction false} IntRoundTrip(v: int, n: nat)
    requires n in {1, 2, 3, 4, 6, 8} && IntFits(v, n)
    ensures v + Pow256(n) >= 0 && ParseInt64(EncodeInt(v, n)) == Ok(v)
  {
    SignedInverse(v, n);
    hide Signed, EncodeInt, IntFits;
    ParseIsSigned(EncodeInt(v, n));
  }

  lemma SignedInverse(v: int, n: nat)
    requires n > 0 && IntFits(v, n)
    ensures v + Pow256(n) >= 0 && Signed(EncodeInt(v, n)) == v
  {
    var u := if v < 0 then v + Pow256(n) else v;
    ToBytesInverse(u, n);
    TopBit(ToBytes(u, n));
    hide ToBytes, BigEndian, Pow256;
  }

  /** And what the parser reads, the format would store in the same bytes. */
  lemma {:induction false} ParsedInt(b: seq<Byte>)
    requires ParseInt64(b).Ok?
    ensures var v := ParseInt64(b).value; IntFits(v, |b|) && v + Pow256(|b|) >= 0 && EncodeInt(v, |b|) == b
  {
    ParseIsSigned(b);
    assert |b| > 0;
    hide *;
    SignedInt(b);
  }

  lemma SignedInt(b: seq<Byte>)
    requires |b| > 0
    ensures var v := Signed(b); IntFits(v, |b|) && v + Pow256(|b|) >= 0 && EncodeInt(v, |b|) == b
  {
    hide BigEndian, ToBytes, Pow256;
    TopBit(b);
    BigEndianBound(b);
    BytesInverse(b);
  }

  // The top bit of the first byte tells the upper half of the range.
  lemma TopBit(b: seq<Byte>)
    requires |b| > 0
    ensures b[0] >= 128 <==> 2 * BigEndian(b) >= Pow256(|b|)
  {
    assert b == b[..1] + b[1..];
    BigEndianSplit(b[..1], b[1..]);
    assert b[..1][..0] == [];
    BigEndianBound(b[1..]);
    Halves(b[0], Pow256(|b| - 1), BigEndian(b[1..]));
    hide BigEndian;
  }

  lemma Halves(b: int, p: nat, r: nat)
    requires 0 <= b < 256 && r < p
    ensures b >= 128 <==> 2 * (b * p + r) >= 256 * p
  {
    if b >= 128 {
      assert b * p >= 128 * p;
    } else {
      assert b * p <= 127 * p;
    }
  }

  /** Varints. */

  datatype Varint = Varint(value: nat, length: nat)

  // The loop of sqliterkParseVarint64, with i bytes read into out.
  function VarintFrom(data: seq<Byte>, off: int, i: nat, out: nat): Outcome<Varint>
    requires i < MAX_VARINT
    decreases MAX_VARINT - i
  {
    if !(0 <= off + i < |data|) then Undefined
    else if data[off + i] >= 128 then
      if i + 1 >= MAX_VARINT then Damaged else VarintFrom(data, off, i + 1, (out + data[off + i] - 128) * 128)
    else Ok(Varint(out + data[off + i], i + 1))
  }

  // sqliterkParseVarint64
  function ParseVarint64(data: seq<Byte>, off: int): Outcome<Varint> {
    VarintFrom(data, off, 0, 0)
  }

  // The conversion to a C int.
  function ToInt32(v: int): int {
    (v + 0x8000_0000) % 0x1_0000_0000 - 0x8000_0000
  }

  /** The conversion keeps the value modulo 2^32, and is the only one into the range of a C int that does. */
  lemma {:induction false} Int32Means(v: int, r: int)
    requires -0x8000_0000 <= r < 0x8000_0000
    ensures r == ToInt32(v) <==> (v - r) % 0x1_0000_0000 == 0
  {
  }

  // The number in the low seven bits of the bytes.
  function Groups(b: seq<Byte>): nat {
    if b == [] then 0 else Groups(b[..|b| - 1]) * 128 + b[|b| - 1] % 128
  }

  predicate AllHigh(b: seq<Byte>) {
    forall i :: 0 <= i < |b| ==> b[i] >= 128
  }

  // All bytes but the last have their top bit set.
  predicate Continued(b: seq<Byte>) {
    |b| > 0 && b[|b| - 1] < 128 && AllHigh(b[..|b| - 1])
  }

  // A varint of value v in at most eight bytes.
  predicate IsVarint(b: seq<Byte>, v: nat) {
    Continued(b) && |b| <= 8 && Groups(b) == v
  }

  // The bytes b stand in the data at an offset.
  predicate At(data: seq<Byte>, off: int, b: seq<Byte>) {
    0 <= off && off + |b| <= |data| && data[off..off + |b|] == b
  }

  // One byte more.
  lemma GroupsSnoc(data: seq<Byte>, off: nat, i: nat)
    requires off + i < |data|
    ensures Groups(data[off..off + i + 1]) == Groups(data[off..off + i]) * 128 + data[off + i] % 128
    ensures AllHigh(data[off..off + i]) && data[off + i] >= 128 ==> AllHigh(data[off..off + i + 1])
    ensures AllHigh(data[off..off + i]) && data[off + i] < 128 ==> Continued(data[off..off + i + 1])
  {
    var b := data[off..off + i + 1];
    assert b[..i] == data[off..off + i] && b[i] == data[off + i];
  }

  // One round of the loop.
  lemma VarintRound(data: seq<Byte>, off: nat, i: nat)
    requires i < MAX_VARINT && off + i < |data|
    ensures var out, g := Groups(data[off..off + i]) * 128, Groups(data[off..off + i + 1]);
            VarintFrom(data, off, i, out) ==
              if data[off + i] < 128 then Ok(Varint(g, i + 1))
              else if i + 1 >= MAX_VARINT then Damaged
              else VarintFrom(data, off, i + 1, g * 128)
  {
    hide Groups, AllHigh, Continued;
    GroupsSnoc(data, off, i);
    VarintUnfold(data, off, i, Groups(data[off..off + i]) * 128);
    hide VarintFrom;
  }

  lemma VarintUnfold(data: seq<Byte>, off: nat, i: nat, out: nat)
    requires i < MAX_VARINT && off + i < |data|
    ensures VarintFrom(data, off, i, out) ==
              if data[off + i] < 128 then Ok(Varint(out + data[off + i], i + 1))
              else if i + 1 >= MAX_VARINT then Damaged
              else VarintFrom(data, off, i + 1, (out + data[off + i] - 128) * 128)
  {
  }

  lemma ContinuedAt(b: seq<Byte>, i: nat)
    requires Continued(b) && i < |b|
    ensures b[i] >= 128 <==> i < |b| - 1
  {
    if i < |b| - 1 { assert b[..|b| - 1][i] >= 128; }
  }

  // A continued varint of n bytes at the offset, of which i are read.
  lemma {:induction false} VarintGroups(data: seq<Byte>, off: nat, i: nat, n: nat)
    requires i < n <= MAX_VARINT && off + n <= |data| && Continued(data[off..off + n])
    ensures VarintFrom(data, off, i, Groups(data[off..off + i]) * 128) == Ok(Varint(Groups(data[off..off + n]), n))
    decreases n - i
  {
    ContinuedAt(data[off..off + n], i);
    assert data[off..off + n][i] == data[off + i];
    hide Groups, VarintFrom, Continued;
    VarintRound(data, off, i);
    if i < n - 1 { VarintGroups(data, off, i + 1, n); }
  }

  // Before the first byte.
  lemma NothingRead(data: seq<Byte>, off: int, b: seq<Byte>)
    requires At(data, off, b) || (b == [] && 0 <= off <= |data|)
    ensures 0 <= off && off + |b| <= |data| && data[off..off + |b|] == b
    ensures Groups(data[off..off + 0]) * 128 == 0 && AllHigh(data[off..off + 0])
    ensures ParseVarint64(data, off) == VarintFrom(data, off, 0, Groups(data[off..off + 0]) * 128)
  {
    assert data[off..off + 0] == [];
    hide VarintFrom;
  }

  lemma VarintAt(data: seq<Byte>, off: int, b: seq<Byte>)
    requires Continued(b) && |b| <= MAX_VARINT && At(data, off, b)
    ensures ParseVarint64(data, off) == Ok(Varint(Groups(b), |b|))
  {
    assert |b| > 0;
    hide *;
    NothingRead(data, off, b);
    VarintGroups(data, off, 0, |b|);
  }

  /** A varint of up to eight bytes is read as what it stands for, wherever it lies and whatever follows. */
  lemma {:induction false} VarintRead(data: seq<Byte>, off: int, b: seq<Byte>, v: nat)
    requires IsVarint(b, v) && At(data, off, b)
    ensures ParseVarint64(data, off) == Ok(Varint(v, |b|))
  {
    hide *;
    VarintIs(b, v);
    VarintAt(data, off, b);
  }

  lemma VarintIs(b: seq<Byte>, v: nat)
    requires IsVarint(b, v)
    ensures Continued(b) && |b| <= 8 < MAX_VARINT && Groups(b) == v
  {
  }

  lemma VarintIn(data: seq<Byte>, off: nat, i: nat, out: nat)
    requires i < MAX_VARINT && VarintFrom(data, off, i, out).Ok?
    ensures i < MAX_VARINT == 9 && off + i < |data|
  {
  }

  lemma {:induction false} VarintParsedFrom(data: seq<Byte>, off: nat, i: nat)
    requires i < MAX_VARINT && off + i <= |data| && AllHigh(data[off..off + i])
    requires VarintFrom(data, off, i, Groups(data[off..off + i]) * 128).Ok?
    ensures var r := VarintFrom(data, off, i, Groups(data[off..off + i]) * 128).value;
            && 0 < r.length <= MAX_VARINT && off + r.length <= |data| && Continued(data[off..off + r.length])
            && Groups(data[off..off + r.length]) == r.value
    decreases MAX_VARINT - i
  {
    hide *;
    VarintIn(data, off, i, Groups(data[off..off + i]) * 128);
    GroupsSnoc(data, off, i);
    VarintRound(data, off, i);
    if data[off + i] >= 128 { VarintParsedFrom(data, off, i + 1); }
  }

  /** What the parser takes for a varint is a varint of that value, of at most nine bytes. */
  lemma {:induction false} VarintParsed(data: seq<Byte>, off: int)
    requires ParseVarint64(data, off).Ok?
    ensures var r := ParseVarint64(data, off).value;
            && 0 <= off && 0 < r.length <= MAX_VARINT && off + r.length <= |data|
            && Continued(data[off..off + r.length]) && Groups(data[off..off + r.length]) == r.value
  {
    VarintIn(data, off, 0, 0);
    hide *;
    NothingRead(data, off, []);
    VarintParsedFrom(data, off, 0);
  }

  // The shortest varint of a value.
  function EncodeVarint(v: nat): seq<Byte> {
    if v < 128 then [v] else More(v / 128) + [v % 128]
  }

  // The bytes of a varint that are followed by more.
  function More(v: nat): seq<Byte> {
    if v < 128 then [v + 128] else More(v / 128) + [v % 128 + 128]
  }

  lemma {:induction false} MoreGroups(v: nat)
    ensures Groups(More(v)) == v && |More(v)| > 0 && AllHigh(More(v))
  {
    var b := More(v);
    if v < 128 {
      assert b[..0] == [];
    } else {
      MoreGroups(v / 128);
      assert b[..|b| - 1] == More(v / 128);
    }
  }

  function Pow128(n: nat): nat {
    if n == 0 then 1 else 128 * Pow128(n - 1)
  }

  lemma {:induction false} MoreLength(v: nat, n: nat)
    requires 0 < n && v < Pow128(n)
    ensures |More(v)| <= n
  {
    if v >= 128 {
      assert n > 1;
      assert v / 128 < Pow128(n - 1);
      MoreLength(v / 128, n - 1);
    }
  }

  /** Every value below 2^56 has a varint of at most eight bytes. */
  lemma {:induction false} EncodeIsVarint(v: nat)
    requires v < Pow128(8)
    ensures IsVarint(EncodeVarint(v), v)
  {
    var b := EncodeVarint(v);
    if v < 128 {
      assert b[..0] == [];
    } else {
      MoreGroups(v / 128);
      assert v / 128 < Pow128(7) by { assert Pow128(8) == 128 * Pow128(7); }
      MoreLength(v / 128, 7);
      assert b[..|b| - 1] == More(v / 128);
    }
  }

  /** The varint of the file format, section 1.6: a ninth byte counts with all its eight bits, and the result is a
      64-bit two's complement integer. */

  // b is one varint of the format.
  predicate FormatVarint(b: seq<Byte>) {
    || (Continued(b) && |b| <= 8)
    || (|b| == 9 && AllHigh(b[..8]))
  }

  function FormatValue(b: seq<Byte>): int
    requires FormatVarint(b)
  {
    if |b| <= 8 then Groups(b)
    else
      var u := Groups(b[..8]) * 256 + b[8];
      if u >= 0x8000_0000_0000_0000 then u - 0x1_0000_0000_0000_0000 else u
  }

  lemma {:induction false} GroupsBound(b: seq<Byte>)
    ensures Groups(b) < Pow128(|b|)
  {
    if b != [] { GroupsBound(b[..|b| - 1]); }
  }

  lemma {:induction false} NineDamaged(data: seq<Byte>, off: int, b: seq<Byte>, i: nat, out: nat)
    requires |b| == 9 && At(data, off, b) && AllHigh(b) && i < 9
    ensures VarintFrom(data, off, i, out) == Damaged
    decreases 9 - i
  {
    assert data[off + i] == b[i];
    if i < 8 { NineDamaged(data, off, b, i + 1, (out + data[off + i] - 128) * 128); }
  }

  /** The parser agrees with the format on a varint if and only if it has at most eight bytes, or nine of which the
      first eight carry only zeros and the last is below 128. */
  lemma {:induction false} VarintAgrees(data: seq<Byte>, off: int, b: seq<Byte>)
    requires FormatVarint(b) && At(data, off, b)
    ensures var r := ParseVarint64(data, off);
            (r.Ok? && r.value.value == FormatValue(b) && r.value.length == |b|)
            <==> |b| <= 8 || ((forall i :: 0 <= i < 8 ==> b[i] == 128) && b[8] < 128)
  {
    if |b| <= 8 {
      VarintAt(data, off, b);
    } else if b[8] >= 128 {
      assert AllHigh(b);
      NineDamaged(data, off, b, 0, 0);
    } else {
      VarintAt(data, off, b);
      NineValue(b);
      hide Groups, VarintFrom;
    }
  }

  // Nine bytes with the last below 128: read with seven bits of it, or with eight.
  lemma NineValue(b: seq<Byte>)
    requires |b| == 9 && AllHigh(b[..8]) && b[8] < 128
    ensures Groups(b) == FormatValue(b) <==> forall i :: 0 <= i < 8 ==> b[i] == 128
  {
    var g := Groups(b[..8]);
    GroupsBound(b[..8]);
    EightGroups();
    ZeroGroups(b[..8]);
    assert Groups(b) == g * 128 + b[8];
    assert (forall i :: 0 <= i < 8 ==> b[..8][i] == 128) <==> forall i :: 0 <= i < 8 ==> b[i] == 128;
    hide Groups, Pow128;
  }

  /** One that is misread: the first of nine bytes carries a one. */
  lemma {:induction false} NineBytesMisread()
    ensures var b := [129, 128, 128, 128, 128, 128, 128, 128, 0];
            var r := ParseVarint64(b, 0);
            FormatVarint(b) && !(r.Ok? && r.value.value == FormatValue(b) && r.value.length == |b|)
  {
    var b := [129, 128, 128, 128, 128, 128, 128, 128, 0];
    assert b[0..9] == b && b[0] != 128;
    VarintAgrees(b, 0, b);
  }

  lemma EightGroups()
    ensures Pow128(8) == 0x100_0000_0000_0000
  {
    assert Pow128(2) == 16384 && Pow128(3) == 128 * Pow128(2) && Pow128(4) == 128 * Pow128(3);
    assert Pow128(5) == 128 * Pow128(4) && Pow128(6) == 128 * Pow128(5);
    assert Pow128(7) == 128 * Pow128(6) && Pow128(8) == 128 * Pow128(7);
  }

  lemma {:induction false} ZeroGroups(b: seq<Byte>)
    requires AllHigh(b)
    ensures Groups(b) == 0 <==> forall i :: 0 <= i < |b| ==> b[i] == 128
  {
    if b != [] {
      ZeroGroups(b[..|b| - 1]);
      assert forall i :: 0 <= i < |b| - 1 ==> b[..|b| - 1][i] == b[i];
    }
  }
}
