/** The decoding loops of the repair kit, filling buffers step by step, compute
    what RecordFormat and RecordPages define.  Where the C code would read
    outside a buffer they stop with Undefined. */
module RecordReader {
  import opened RepairNumbers
  import opened RecordFormat
  import opened RecordPages

  // sqliterkParseVarint64
  method ReadVarint(data: seq<Byte>, offset: int) returns (r: Outcome<Varint>)
    ensures r == ParseVarint64(data, offset)
  {
    var out: nat, i := 0, 0;
    while 0 <= offset + i < |data| && data[offset + i] >= 128 && i < MAX_VARINT
      invariant 0 <= i < MAX_VARINT && ParseVarint64(data, offset) == VarintFrom(data, offset, i, out)
      decreases MAX_VARINT - i
    {
      out := out + data[offset + i] - 128;
      out := out * 128;
      i := i + 1;
      if i >= MAX_VARINT { return Damaged; }
    }
    if !(0 <= offset + i < |data|) { return Undefined; }
    out := out + data[offset + i];
    return Ok(Varint(out, i + 1));
  }

  // sqliterkParseNumber, on the eight bytes it reads
  method ReadNumber(begin: seq<Byte>) returns (out: array<Byte>)
    requires |begin| == 8
    ensures fresh(out) && out.Length == 8 && out[..] == Reversed(begin)
  {
    out := new Byte[8](_ => 0);
    for i := 0 to 8
      invariant forall k :: 0 <= k < i ==> out[k] == begin[8 - 1 - k]
    {
      out[i] := begin[8 - 1 - i];
    }
    forall k | 0 <= k < 8 ensures out[k] == Reversed(begin)[k] { ReversedAt(begin, k); }
  }

  // The value part of one round of the column loop
  method ReadValue(p: seq<Byte>, serialType: int, offsetValue: int) returns (r: Outcome<Value>)
    ensures r == DecodeValue(p, serialType, offsetValue)
  {
    var valueLength := SerialLength(serialType);
    if serialType == 7 && 0 <= offsetValue && offsetValue + valueLength <= |p| {
      var number := ReadNumber(p[offsetValue..offsetValue + valueLength]);
      return Ok(Number(number[..]));
    }
    r := DecodeValue(p, serialType, offsetValue);
  }

  // The column loop of sqliterkBtreeParsePayload, after the header size
  method ReadColumns(payloadData: seq<Byte>) returns (r: Outcome<seq<Value>>)
    ensures r == DecodeRecord(payloadData)
  {
    hide ParseVarint64, DecodeValue, ToInt32, SerialLength;
    var header := ReadVarint(payloadData, 0);
    match header {
      case Damaged => return Damaged;
      case Misuse => return Misuse;
      case Undefined => return Undefined;
      case Ok(h) =>
        VarintInside(payloadData, 0);
        var offsetSerialType, offsetValue: int := h.length, ToInt32(h.value);
        var endSerialType, endValue := offsetValue, |payloadData|;
        var values: seq<Value> := [];
        while offsetValue < endValue || offsetSerialType < endSerialType
          invariant 0 <= offsetSerialType <= |payloadData|
          invariant DecodeRecord(payloadData)
              == Columns(payloadData, offsetSerialType, offsetValue, endSerialType, values)
          decreases |payloadData| - offsetSerialType
        {
          var t := ReadVarint(payloadData, offsetSerialType);
          if !t.Ok? { return if t.Damaged? then Damaged else if t.Misuse? then Misuse else Undefined; }
          VarintInside(payloadData, offsetSerialType);
          var serialType := ToInt32(t.value.value);
          var v := ReadValue(payloadData, serialType, offsetValue);
          if !v.Ok? { return if v.Damaged? then Damaged else if v.Misuse? then Misuse else Undefined; }
          values := values + [v.value];
          offsetValue := offsetValue + SerialLength(serialType);
          offsetSerialType := offsetSerialType + t.value.length;
        }
        if offsetSerialType != endSerialType || offsetValue != endValue { return Damaged; }
        return Ok(values);
    }
  }

  // The overflow loop of sqliterkBtreeParsePayload: fill the buffer from the pointer on, page by page.
  method ReadOverflow(pager: Pager, payloadData: array<Byte>, local: nat, first: int, ghost chain: seq<nat>)
    returns (payloadPointer: nat, overflowPages: seq<nat>)
    requires PagerOk(pager) && local <= payloadData.Length && Linked(pager, first, chain)
    modifies payloadData
    ensures overflowPages == chain
    ensures payloadPointer <= payloadData.Length
    ensures payloadData[..payloadPointer]
        == old(payloadData[..local]) + Gather(pager, first, chain, payloadData.Length - local)
  {
    hide Linked, Gather;
    var overflowPageno := first;
    payloadPointer, overflowPages := local, [];
    ghost var rest, size := chain, payloadData.Length;
    ghost var whole := payloadData[..local] + Gather(pager, first, chain, size - local);
    while IsPagenoValid(pager, overflowPageno)
      invariant local <= payloadPointer <= size && Linked(pager, overflowPageno, rest) && overflowPages + rest == chain
      invariant payloadData[..payloadPointer] + Gather(pager, overflowPageno, rest, size - payloadPointer) == whole
      decreases |rest|
    {
      GatherStep(pager, overflowPageno, rest, size - payloadPointer, payloadData[..payloadPointer]);
      overflowPages := overflowPages + [overflowPageno];
      var overflowSize := payloadData.Length - payloadPointer;
      var maxSize := pager.usableSize - 4;
      if overflowSize > maxSize { overflowSize := maxSize; }
      var pageData := PageData(pager, overflowPageno);
      CopyInto(payloadData, payloadPointer, pageData[4..4 + overflowSize]);
      payloadPointer := payloadPointer + overflowSize;
      overflowPageno := PagenoAt(pageData, 0);
      rest := rest[1..];
    }
    GatherEnd(pager, overflowPageno, rest, size - payloadPointer);
  }

  lemma GatherEnd(pager: Pager, first: int, chain: seq<nat>, need: nat)
    requires PagerOk(pager) && Linked(pager, first, chain) && !IsPagenoValid(pager, first)
    ensures chain == [] && Gather(pager, first, chain, need) == []
  {
  }

  // memcpy
  method CopyInto(a: array<Byte>, at: nat, b: seq<Byte>)
    requires at + |b| <= a.Length
    modifies a
    ensures a[..at + |b|] == old(a[..at]) + b
  {
    forall j | 0 <= j < |b| { a[at + j] := b[j]; }
    assert a[..at] == old(a[..at]);
  }

  lemma GatherStep(pager: Pager, first: int, chain: seq<nat>, need: nat, before: seq<Byte>)
    requires PagerOk(pager) && Linked(pager, first, chain) && IsPagenoValid(pager, first)
    ensures chain != [] && chain[0] == first && Linked(pager, NextPage(pager, first), chain[1..])
    ensures var share := PageData(pager, first)[4..4 + Share(pager, need)];
            before + share + Gather(pager, NextPage(pager, first), chain[1..], need - Share(pager, need))
            == before + Gather(pager, first, chain, need)
  {
    GatherUnfold(pager, first, chain, need);
  }

  // The part of sqliterkBtreeParsePayload that fills the buffer
  method ReadBuffer(pager: Pager, page: seq<Byte>, offset: int, payloadSize: int, ghost chain: seq<nat>)
      returns (r: Outcome<seq<Byte>>)
    requires PagerOk(pager) && |page| == pager.pagesize && Follows(pager, page, offset, payloadSize, chain)
    ensures r == ReadPayload(pager, page, offset, payloadSize, chain)
  {
    if payloadSize <= 0 { return Misuse; }
    hide Gather, Linked, LocalSize, PagenoAt;
    var payloadData := new Byte[payloadSize](_ => 0);
    var local := LocalSize(pager.usableSize, payloadSize);
    if offset + local > pager.pagesize { return Damaged; }
    if offset < 0 { return Undefined; }
    CopyInto(payloadData, 0, page[offset..offset + local]);
    assert payloadData[..local] == page[offset..offset + local];
    if local == payloadSize {
      assert payloadData[..local] == payloadData[..];
      return Ok(payloadData[..]);
    }
    if offset + local + 4 > pager.pagesize { return Undefined; }
    var payloadPointer, overflowPages := ReadOverflow(pager, payloadData, local, PagenoAt(page, offset + local), chain);
    if payloadPointer < payloadSize { return Undefined; }
    assert payloadData[..payloadPointer] == payloadData[..];
    return Ok(payloadData[..]);
  }

  // sqliterkBtreeParsePayload
  method ReadRow(pager: Pager, page: seq<Byte>, offset: int, payloadSize: int, ghost chain: seq<nat>)
      returns (r: Outcome<seq<Value>>)
    requires PagerOk(pager) && |page| == pager.pagesize && Follows(pager, page, offset, payloadSize, chain)
    ensures r == ParsePayload(pager, page, offset, payloadSize, chain)
  {
    hide ReadPayload, Follows, DecodeRecord, PagerOk;
    var payload := ReadBuffer(pager, page, offset, payloadSize, chain);
    match payload {
      case Ok(p) => r := ReadColumns(p);
      case Damaged => r := Damaged;
      case Misuse => r := Misuse;
      case Undefined => r := Undefined;
    }
  }

  ghost function Prepend(rows: seq<Row>, r: (seq<Row>, Code)): (seq<Row>, Code) {
    (rows + r.0, r.1)
  }

  lemma CellsFrom(pager: Pager, page: seq<Byte>, pointers: seq<int>, chains: seq<seq<nat>>, i: nat, rows: seq<Row>)
    requires PagerOk(pager) && |page| == pager.pagesize && CellsFollow(pager, page, pointers, chains) && i < |pointers|
    ensures CellFollows(pager, page, pointers[i], chains[i])
    ensures CellsFollow(pager, page, pointers[i..], chains[i..])
        && CellsFollow(pager, page, pointers[i + 1..], chains[i + 1..])
    ensures var left := Prepend(rows, ParseCells(pager, page, pointers[i..], chains[i..]));
            match ParseCell(pager, page, pointers[i], chains[i])
            case Ok(row) => left == Prepend(rows + [row], ParseCells(pager, page, pointers[i + 1..], chains[i + 1..]))
            case Damaged => left == (rows, DamagedCode)
            case Misuse => left == (rows, MisuseCode)
            case Undefined => left == (rows, UndefinedCode)
  {
    hide ParseCell, CellFollows, PagerOk;
    assert pointers[i..][1..] == pointers[i + 1..] && chains[i..][1..] == chains[i + 1..];
    assert CellsFollow(pager, page, pointers[i..], chains[i..]);
    var r := ParseCell(pager, page, pointers[i], chains[i]);
    if r.Ok? {
      var rest := ParseCells(pager, page, pointers[i + 1..], chains[i + 1..]).0;
      assert rows + ([r.value] + rest) == rows + [r.value] + rest;
    } else {
      assert rows + [] == rows;
    }
  }

  lemma NoCells(pager: Pager, page: seq<Byte>, pointers: seq<int>, chains: seq<seq<nat>>, rows: seq<Row>)
    requires PagerOk(pager) && |page| == pager.pagesize && CellsFollow(pager, page, pointers, chains) && pointers == []
    ensures Prepend(rows, ParseCells(pager, page, pointers, chains)) == (rows, OkCode)
  {
    assert rows + [] == rows;
  }

  // sqliterkBtreeParseCell
  method ReadCells(pager: Pager, page: seq<Byte>, pointers: seq<int>, ghost chains: seq<seq<nat>>)
      returns (rows: seq<Row>, rc: Code)
    requires PagerOk(pager) && |page| == pager.pagesize && CellsFollow(pager, page, pointers, chains)
    ensures (rows, rc) == ParseCells(pager, page, pointers, chains)
  {
    rows := [];
    var i := 0;
    ghost var all := ParseCells(pager, page, pointers, chains);
    assert pointers[0..] == pointers && chains[0..] == chains && [] + all.0 == all.0;
    assert all == Prepend(rows, all);
    hide *;
    while i < |pointers|
      invariant 0 <= i <= |pointers| == |chains| && PagerOk(pager)
          && CellsFollow(pager, page, pointers[i..], chains[i..])
      invariant all == Prepend(rows, ParseCells(pager, page, pointers[i..], chains[i..]))
    {
      CellsFrom(pager, page, pointers, chains, i, rows);
      var row := ReadCell(pager, page, pointers[i], chains[i]);
      match row {
        case Ok(v) => rows := rows + [v];
        case Damaged => return rows, DamagedCode;
        case Misuse => return rows, MisuseCode;
        case Undefined => return rows, UndefinedCode;
      }
      i := i + 1;
    }
    NoCells(pager, page, pointers[i..], chains[i..], rows);
    return rows, OkCode;
  }

  method ReadCell(pager: Pager, page: seq<Byte>, offset: int, ghost chain: seq<nat>) returns (r: Outcome<Row>)
    requires PagerOk(pager) && |page| == pager.pagesize && CellFollows(pager, page, offset, chain)
    ensures r == ParseCell(pager, page, offset, chain)
  {
    hide ParseVarint64, ParsePayload, Follows, ToInt32;
    var size := ReadVarint(page, offset);
    if !size.Ok? { return if size.Damaged? then Damaged else if size.Misuse? then Misuse else Undefined; }
    var rowid := ReadVarint(page, offset + size.value.length);
    if !rowid.Ok? { return if rowid.Damaged? then Damaged else if rowid.Misuse? then Misuse else Undefined; }
    var values := ReadRow(pager, page, offset + size.value.length + rowid.value.length, ToInt32(size.value.value),
        chain);
    if !values.Ok? { return if values.Damaged? then Damaged else if values.Misuse? then Misuse else Undefined; }
    return Ok(Row(rowid.value.value, values.value));
  }
}
