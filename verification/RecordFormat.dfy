/** Records of table rows as the file format lays them out (sections 1.6, 1.7
    and 2.1 of "Database File Format"), and what the repair kit decodes from
    the bytes of a payload. */
module RecordFormat {
  import opened RepairNumbers

  // A number keeps the bytes of its floating-point value, in the machine's little-endian order.
  datatype Value = Null | Integer(i: int) | Number(bits: seq<Byte>) | Text(t: seq<Byte>) | Blob(b: seq<Byte>)

  const INT_LIMIT := 0x8000_0000

  function Reversed(b: seq<Byte>): (r: seq<Byte>)
    ensures |r| == |b|
  {
    if b == [] then [] else Reversed(b[1..]) + [b[0]]
  }

  lemma {:induction false} ReversedAt(b: seq<Byte>, k: nat)
    requires k < |b|
    ensures Reversed(b)[k] == b[|b| - 1 - k]
  {
    if k < |b| - 1 { ReversedAt(b[1..], k); }
  }

  lemma ReversedTwice(b: seq<Byte>)
    ensures Reversed(Reversed(b)) == b
  {
    forall k | 0 <= k < |b| ensures Reversed(Reversed(b))[k] == b[k] {
      ReversedAt(Reversed(b), k);
      ReversedAt(b, |b| - 1 - k);
    }
  }

  // sqliterkBtreeGetLengthForSerialType
  function SerialLength(serialType: int): nat {
    if serialType < 0 then 0
    else if serialType < 12 then [0, 1, 2, 3, 4, 6, 8, 8, 0, 0, 0, 0][serialType]
    else (serialType - 12 - serialType % 2) / 2
  }

  /** Fields. */

  // A column: its serial type, the varint that gives it, and its value.
  datatype Field = Field(serialType: nat, varint: seq<Byte>, value: Value)

  // The serial type admits the value.
  predicate Admits(serialType: nat, v: Value) {
    if serialType == 0 then v == Null
    else if serialType < 7 then v.Integer? && IntFits(v.i, SerialLength(serialType))
    else if serialType == 7 then v.Number? && |v.bits| == 8
    else if serialType == 8 then v == Integer(0)
    else if serialType == 9 then v == Integer(1)
    else if serialType < 12 then false
    else if serialType % 2 == 0 then v.Blob? && 2 * |v.b| == serialType - 12
    else v.Text? && 2 * |v.t| == serialType - 13
  }

  // The varint, cut off to a C int, is a serial type that admits the value.
  predicate FieldOk(f: Field) {
    && Continued(f.varint) && |f.varint| <= MAX_VARINT && ToInt32(Groups(f.varint)) == f.serialType
    && Admits(f.serialType, f.value)
  }

  predicate FieldsOk(fs: seq<Field>) {
    forall i :: 0 <= i < |fs| ==> FieldOk(fs[i])
  }

  // The content bytes of a value.
  function Content(f: Field): (b: seq<Byte>)
    requires FieldOk(f)
    ensures |b| == SerialLength(f.serialType)
  {
    match f.value
    case Null => []
    case Integer(i) => if f.serialType < 7 then EncodeInt(i, SerialLength(f.serialType)) else []
    case Number(bits) => Reversed(bits)
    case Text(t) => t
    case Blob(b) => b
  }

  function Types(fs: seq<Field>): seq<Byte> {
    if fs == [] then [] else fs[0].varint + Types(fs[1..])
  }

  function Contents(fs: seq<Field>): seq<Byte>
    requires FieldsOk(fs)
  {
    if fs == [] then [] else Content(fs[0]) + Contents(fs[1..])
  }

  function Values(fs: seq<Field>): seq<Value> {
    if fs == [] then [] else [fs[0].value] + Values(fs[1..])
  }

  /** What can be read as a record: the header size, the serial types, the contents. */
  predicate Readable(p: seq<Byte>, h: seq<Byte>, fs: seq<Field>) {
    && FieldsOk(fs) && Continued(h) && |h| <= MAX_VARINT && ToInt32(Groups(h)) == |h| + |Types(fs)|
    && p == h + Types(fs) + Contents(fs)
  }

  /** A record of the file format whose varints have at most eight bytes and fit a C int. */
  predicate IsRecord(p: seq<Byte>, h: seq<Byte>, fs: seq<Field>) {
    && FieldsOk(fs) && p == h + Types(fs) + Contents(fs) && |p| < INT_LIMIT && IsVarint(h, |h| + |Types(fs)|)
    && forall i :: 0 <= i < |fs| ==> fs[i].serialType < INT_LIMIT && IsVarint(fs[i].varint, fs[i].serialType)
  }

  /** Decoding. */

  // The value of one serial type at an offset of the payload.
  function DecodeValue(p: seq<Byte>, serialType: int, off: int): Outcome<Value> {
    var n := SerialLength(serialType);
    if serialType == 0 then Ok(Null)
    else if serialType < 0 then Undefined
    else if serialType == 8 then Ok(Integer(0))
    else if serialType == 9 then Ok(Integer(1))
    else if serialType == 10 || serialType == 11 then Damaged
    else if off < 0 || off + n > |p| then Undefined
    else
      var b := p[off..off + n];
      if serialType < 7 then
        var r := ParseInt64(b);
        if r.Ok? then Ok(Integer(r.value)) else Undefined
      else if serialType == 7 then Ok(Number(Reversed(b)))
      else if serialType % 2 == 0 then Ok(Blob(b)) else Ok(Text(b))
  }

  // The column loop of sqliterkBtreeParsePayload, with the values read so far.
  function Columns(p: seq<Byte>, offType: nat, offValue: int, endType: int, values: seq<Value>): Outcome<seq<Value>>
    decreases if offType < |p| then |p| - offType else 0
  {
    if !(offValue < |p| || offType < endType) then
      if offType != endType || offValue != |p| then Damaged else Ok(values)
    else
      match ParseVarint64(p, offType)
      case Ok(t) =>
        VarintInside(p, offType);
        var serialType := ToInt32(t.value);
        (match DecodeValue(p, serialType, offValue)
         case Ok(v) => Columns(p, offType + t.length, offValue + SerialLength(serialType), endType, values + [v])
         case Damaged => Damaged
         case Misuse => Misuse
         case Undefined => Undefined)
      case Damaged => Damaged
      case Misuse => Misuse
      case Undefined => Undefined
  }

  lemma VarintInside(p: seq<Byte>, off: int)
    requires ParseVarint64(p, off).Ok?
    ensures 0 <= off && 0 < ParseVarint64(p, off).value.length <= |p| - off
  {
    VarintInsideFrom(p, off, 0, 0);
  }

  lemma {:induction false} VarintInsideFrom(p: seq<Byte>, off: int, i: nat, out: nat)
    requires i < MAX_VARINT && VarintFrom(p, off, i, out).Ok?
    ensures 0 <= off + i && i < VarintFrom(p, off, i, out).value.length <= |p| - off
    decreases MAX_VARINT - i
  {
    if p[off + i] >= 128 { VarintInsideFrom(p, off, i + 1, (out + p[off + i] - 128) * 128); }
  }

  // The record part of sqliterkBtreeParsePayload.
  function DecodeRecord(p: seq<Byte>): Outcome<seq<Value>> {
    match ParseVarint64(p, 0)
    case Ok(h) =>
      VarintInside(p, 0);
      Columns(p, h.length, ToInt32(h.value), ToInt32(h.value), [])
    case Damaged => Damaged
    case Misuse => Misuse
    case Undefined => Undefined
  }

  /** Decoding inverts encoding. */

  lemma Int32Small(v: nat)
    requires v < INT_LIMIT
    ensures ToInt32(v) == v
  {
  }

  /** Every serial type is read back as the value it stores. */
  lemma {:induction false} ValueRoundTrip(p: seq<Byte>, f: Field, off: int)
    requires FieldOk(f) && At(p, off, Content(f))
    ensures DecodeValue(p, f.serialType, off) == Ok(f.value)
  {
    match f.value
    case Null =>
    case Integer(i) => if f.serialType < 7 { IntRoundTrip(i, SerialLength(f.serialType)); }
    case Number(bits) => ReversedTwice(bits);
    case Text(t) =>
    case Blob(b) =>
  }

  lemma AtSplit(p: seq<Byte>, off: int, x: seq<Byte>, y: seq<Byte>)
    requires At(p, off, x + y)
    ensures At(p, off, x) && At(p, off + |x|, y)
  {
    assert (x + y)[..|x|] == x && (x + y)[|x|..] == y;
    assert p[off..off + |x + y|][..|x|] == p[off..off + |x|];
    assert p[off..off + |x + y|][|x|..] == p[off + |x|..off + |x| + |y|];
  }

  // One round of the column loop.
  lemma ColumnsStep(p: seq<Byte>, offType: nat, offValue: int, endType: int, t: Varint, v: Value, values: seq<Value>)
    requires offValue < |p| || offType < endType
    requires ParseVarint64(p, offType) == Ok(t) && DecodeValue(p, ToInt32(t.value), offValue) == Ok(v)
    ensures Columns(p, offType, offValue, endType, values)
         == Columns(p, offType + t.length, offValue + SerialLength(ToInt32(t.value)), endType, values + [v])
  {
    hide ParseVarint64, DecodeValue, ToInt32;
  }

  // The values read before and those of the fields are the result.
  predicate Gives(r: Outcome<seq<Value>>, values: seq<Value>, fs: seq<Field>) {
    r == Ok(values + Values(fs))
  }

  lemma ColumnsEnd(p: seq<Byte>, offType: nat, offValue: int, endType: int, fs: seq<Field>, values: seq<Value>)
    requires fs == [] && FieldsOk(fs) && endType == offType + |Types(fs)| && |p| == offValue + |Contents(fs)|
    ensures Gives(Columns(p, offType, offValue, endType, values), values, fs)
  {
    assert values + [] == values;
  }

  lemma Unfold(fs: seq<Field>)
    requires fs != [] && FieldsOk(fs)
    ensures FieldOk(fs[0]) && FieldsOk(fs[1..]) && |fs[0].varint| > 0
        && |Content(fs[0])| == SerialLength(fs[0].serialType)
    ensures Types(fs) == fs[0].varint + Types(fs[1..]) && Contents(fs) == Content(fs[0]) + Contents(fs[1..])
    ensures Values(fs) == [fs[0].value] + Values(fs[1..])
  {
  }

  lemma FieldVarint(f: Field)
    requires FieldOk(f)
    ensures Continued(f.varint) && |f.varint| <= MAX_VARINT && ToInt32(Groups(f.varint)) == f.serialType
  {
  }

  // The first field is where the loop looks for it.
  lemma FirstField(p: seq<Byte>, offType: nat, offValue: int, f: Field, types: seq<Byte>, contents: seq<Byte>)
    requires FieldOk(f) && At(p, offType, f.varint + types) && At(p, offValue, Content(f) + contents)
    ensures At(p, offType + |f.varint|, types) && At(p, offValue + SerialLength(f.serialType), contents)
    ensures var r := ParseVarint64(p, offType);
            r.Ok? && r.value.length == |f.varint| && ToInt32(r.value.value) == f.serialType
    ensures DecodeValue(p, f.serialType, offValue) == Ok(f.value)
  {
    hide *;
    AtSplit(p, offType, f.varint, types);
    AtSplit(p, offValue, Content(f), contents);
    FieldVarint(f);
    VarintAt(p, offType, f.varint);
    ValueRoundTrip(p, f, offValue);
  }

  // The column loop on the remaining fields.
  lemma {:induction false} ColumnsRead(p: seq<Byte>, offType: nat, offValue: int, endType: int, fs: seq<Field>,
      values: seq<Value>)
    requires FieldsOk(fs) && At(p, offType, Types(fs)) && At(p, offValue, Contents(fs))
    requires endType == offType + |Types(fs)| && |p| == offValue + |Contents(fs)|
    ensures Gives(Columns(p, offType, offValue, endType, values), values, fs)
    decreases |fs|
  {
    hide *;
    if fs == [] {
      ColumnsEnd(p, offType, offValue, endType, fs, values);
    } else {
      var f := fs[0];
      Unfold(fs);
      FirstField(p, offType, offValue, f, Types(fs[1..]), Contents(fs[1..]));
      var t := ParseVarint64(p, offType).value;
      ColumnsStep(p, offType, offValue, endType, t, f.value, values);
      ColumnsRead(p, offType + |f.varint|, offValue + SerialLength(f.serialType), endType, fs[1..], values + [f.value]);
      FieldDone(Columns(p, offType, offValue, endType, values), values, fs);
    }
  }

  lemma FieldDone(r: Outcome<seq<Value>>, values: seq<Value>, fs: seq<Field>)
    requires fs != [] && Gives(r, values + [fs[0].value], fs[1..])
    ensures Gives(r, values, fs)
  {
    assert values + ([fs[0].value] + Values(fs[1..])) == values + [fs[0].value] + Values(fs[1..]);
  }

  // Where the parts of a record begin.
  lemma RecordParts(p: seq<Byte>, h: seq<Byte>, fs: seq<Field>)
    requires Readable(p, h, fs)
    ensures FieldsOk(fs) && Continued(h) && |h| <= MAX_VARINT && ToInt32(Groups(h)) == |h| + |Types(fs)|
    ensures At(p, 0, h) && At(p, |h|, Types(fs)) && At(p, |h| + |Types(fs)|, Contents(fs))
    ensures |p| == |h| + |Types(fs)| + |Contents(fs)|
  {
    hide FieldsOk, Continued, Types, Contents, ToInt32, Groups;
    assert p[0..|p|] == p;
    assert At(p, 0, h + Types(fs) + Contents(fs));
    AtSplit(p, 0, h + Types(fs), Contents(fs));
    AtSplit(p, 0, h, Types(fs));
  }

  lemma DecodeStart(p: seq<Byte>, h: Varint)
    requires ParseVarint64(p, 0) == Ok(h)
    ensures DecodeRecord(p) == Columns(p, h.length, ToInt32(h.value), ToInt32(h.value), [])
  {
    hide ParseVarint64, Columns, ToInt32;
  }

  lemma GivesAll(r: Outcome<seq<Value>>, fs: seq<Field>)
    ensures Gives(r, [], fs) <==> r == Ok(Values(fs))
  {
    assert [] + Values(fs) == Values(fs);
  }

  lemma ReadableRead(p: seq<Byte>, h: seq<Byte>, fs: seq<Field>)
    requires Readable(p, h, fs)
    ensures DecodeRecord(p) == Ok(Values(fs))
  {
    hide *;
    RecordParts(p, h, fs);
    var n := |h| + |Types(fs)|;
    VarintAt(p, 0, h);
    DecodeStart(p, Varint(Groups(h), |h|));
    ColumnsRead(p, |h|, n, n, fs, []);
    GivesAll(Columns(p, |h|, n, n, []), fs);
  }

  /** The column values of a record come back exactly, and all of its bytes are used. */
  lemma {:induction false} RecordRoundTrip(p: seq<Byte>, h: seq<Byte>, fs: seq<Field>)
    requires IsRecord(p, h, fs)
    ensures DecodeRecord(p) == Ok(Values(fs))
  {
    hide *;
    RecordIsReadable(p, h, fs);
    ReadableRead(p, h, fs);
  }

  lemma RecordIsReadable(p: seq<Byte>, h: seq<Byte>, fs: seq<Field>)
    requires IsRecord(p, h, fs)
    ensures Readable(p, h, fs)
  {
    hide FieldsOk, Continued, Types, Contents;
    Int32Small(|h| + |Types(fs)|);
  }

  /** Conversely, only what is laid out as a record is taken for one. */

  lemma ValueParsed(p: seq<Byte>, serialType: int, off: int, varint: seq<Byte>) returns (f: Field)
    requires DecodeValue(p, serialType, off).Ok? && Continued(varint) && |varint| <= MAX_VARINT
    requires ToInt32(Groups(varint)) == serialType
    ensures f.serialType == serialType && f.varint == varint && f.value == DecodeValue(p, serialType, off).value
        && FieldOk(f)
    ensures |Content(f)| > 0 ==> At(p, off, Content(f))
  {
    f := Field(serialType, varint, DecodeValue(p, serialType, off).value);
    if 0 < serialType < 7 {
      var b := p[off..off + SerialLength(serialType)];
      ParsedInt(b);
    } else if serialType == 7 {
      ReversedTwice(p[off..off + 8]);
    }
  }

  // The field that a round of the loop reads.
  lemma HeadParsed(p: seq<Byte>, offType: nat, offValue: int, endType: int, values: seq<Value>) returns (f: Field)
    requires Columns(p, offType, offValue, endType, values).Ok? && offType <= |p|
        && (offValue < |p| || offType < endType)
    ensures FieldOk(f) && |f.varint| > 0 && At(p, offType, f.varint)
        && (|Content(f)| > 0 ==> At(p, offValue, Content(f)))
    ensures Columns(p, offType, offValue, endType, values)
         == Columns(p, offType + |f.varint|, offValue + |Content(f)|, endType, values + [f.value])
  {
    hide *;
    RoundOk(p, offType, offValue, endType, values);
    var t := ParseVarint64(p, offType).value;
    VarintParsed(p, offType);
    var varint := p[offType..offType + t.length];
    f := ValueParsed(p, ToInt32(t.value), offValue, varint);
    ColumnsStep(p, offType, offValue, endType, t, f.value, values);
    VarintStands(p, offType, t.length);
    ContentLength(f);
  }

  lemma RoundOk(p: seq<Byte>, offType: nat, offValue: int, endType: int, values: seq<Value>)
    requires Columns(p, offType, offValue, endType, values).Ok? && (offValue < |p| || offType < endType)
    ensures ParseVarint64(p, offType).Ok?
    ensures DecodeValue(p, ToInt32(ParseVarint64(p, offType).value.value), offValue).Ok?
  {
    hide ParseVarint64, DecodeValue, ToInt32;
  }

  lemma VarintStands(p: seq<Byte>, off: nat, n: nat)
    requires off + n <= |p|
    ensures At(p, off, p[off..off + n])
  {
  }

  lemma ContentLength(f: Field)
    requires FieldOk(f)
    ensures |Content(f)| == SerialLength(f.serialType)
  {
  }

  lemma LoopEnds(p: seq<Byte>, offType: nat, offValue: int, endType: int, values: seq<Value>)
    requires Columns(p, offType, offValue, endType, values).Ok? && !(offValue < |p| || offType < endType)
    ensures endType == offType + |Types([])| && |p| == offValue + |Contents([])| && FieldsOk([])
    ensures offType <= |p| ==> At(p, offType, Types([]))
    ensures 0 <= offValue && At(p, offValue, Contents([]))
  {
  }

  lemma {:induction false} ColumnsParsed(p: seq<Byte>, offType: nat, offValue: int, endType: int, values: seq<Value>)
    returns (fs: seq<Field>)
    requires Columns(p, offType, offValue, endType, values).Ok? && offType <= |p|
    ensures FieldsOk(fs) && Gives(Columns(p, offType, offValue, endType, values), values, fs)
    ensures endType == offType + |Types(fs)| && |p| == offValue + |Contents(fs)|
    ensures At(p, offType, Types(fs)) && (0 <= offValue ==> At(p, offValue, Contents(fs)))
    decreases |p| - offType
  {
    hide *;
    if !(offValue < |p| || offType < endType) {
      fs := [];
      LoopEnds(p, offType, offValue, endType, values);
      ColumnsEnd(p, offType, offValue, endType, fs, values);
    } else {
      var f := HeadParsed(p, offType, offValue, endType, values);
      Inside(p, offType, f.varint);
      var rest := ColumnsParsed(p, offType + |f.varint|, offValue + |Content(f)|, endType, values + [f.value]);
      fs := [f] + rest;
      assert fs[1..] == rest && fs[0] == f;
      FieldsCons(f, rest);
      Unfold(fs);
      AtJoin(p, offType, f.varint, Types(rest));
      if 0 <= offValue { AtJoin(p, offValue, Content(f), Contents(rest)); }
      FieldDone(Columns(p, offType, offValue, endType, values), values, fs);
    }
  }

  lemma Inside(p: seq<Byte>, off: int, b: seq<Byte>)
    requires At(p, off, b)
    ensures 0 <= off && off + |b| <= |p|
  {
  }

  lemma FieldsCons(f: Field, fs: seq<Field>)
    requires FieldOk(f) && FieldsOk(fs)
    ensures FieldsOk([f] + fs)
  {
    hide FieldOk;
  }

  lemma AtJoin(p: seq<Byte>, off: int, x: seq<Byte>, y: seq<Byte>)
    requires 0 <= off && (|x| > 0 ==> At(p, off, x)) && At(p, off + |x|, y)
    ensures At(p, off, x + y)
  {
    assert p[off..off + |x + y|] == p[off..off + |x|] + p[off + |x|..off + |x| + |y|];
    assert |x| == 0 ==> x + y == y;
  }

  /** A payload is decoded, to these values and no others, exactly when it can be read as a record of them. */
  lemma {:induction false} DecodedIffReadable(p: seq<Byte>, values: seq<Value>)
    ensures DecodeRecord(p) == Ok(values) <==> exists h, fs :: Readable(p, h, fs) && Values(fs) == values
  {
    forall h, fs | Readable(p, h, fs) ensures DecodeRecord(p) == Ok(Values(fs)) { ReadableRead(p, h, fs); }
    if DecodeRecord(p) == Ok(values) {
      var h, fs := RecordParsed(p);
    }
  }

  lemma RecordParsed(p: seq<Byte>) returns (h: seq<Byte>, fs: seq<Field>)
    requires DecodeRecord(p).Ok?
    ensures Readable(p, h, fs) && DecodeRecord(p) == Ok(Values(fs))
  {
    hide *;
    HeaderOk(p);
    var t := ParseVarint64(p, 0).value;
    VarintParsed(p, 0);
    var n := ToInt32(t.value);
    h := p[0..t.length];
    DecodeStart(p, t);
    fs := ColumnsParsed(p, t.length, n, n, []);
    VarintStands(p, 0, t.length);
    LayoutIs(p, h, fs);
    GivesAll(Columns(p, t.length, n, n, []), fs);
  }

  lemma HeaderOk(p: seq<Byte>)
    requires DecodeRecord(p).Ok?
    ensures ParseVarint64(p, 0).Ok?
  {
    hide ParseVarint64, Columns;
  }

  lemma LayoutIs(p: seq<Byte>, h: seq<Byte>, fs: seq<Field>)
    requires FieldsOk(fs) && At(p, 0, h) && At(p, |h|, Types(fs)) && At(p, |h| + |Types(fs)|, Contents(fs))
    requires |p| == |h| + |Types(fs)| + |Contents(fs)|
    requires Continued(h) && |h| <= MAX_VARINT && ToInt32(Groups(h)) == |h| + |Types(fs)|
    ensures Readable(p, h, fs)
  {
    hide FieldsOk, Continued, Types, Contents, ToInt32, Groups, At;
    AtJoin(p, |h|, Types(fs), Contents(fs));
    AtJoin(p, 0, h, Types(fs) + Contents(fs));
    assert h + (Types(fs) + Contents(fs)) == h + Types(fs) + Contents(fs);
    AtWhole(p, h + Types(fs) + Contents(fs));
  }

  lemma AtWhole(p: seq<Byte>, b: seq<Byte>)
    requires At(p, 0, b) && |p| == |b|
    ensures p == b
  {
    assert p[0..|p|] == p;
  }
}
