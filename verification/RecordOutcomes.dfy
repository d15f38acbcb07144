/** How the parsing of payloads and cells can end: where every byte of a
    payload comes from, which inputs are reported as damaged, and which rows of
    a leaf are handed over. */
module RecordOutcomes {
  import opened RepairNumbers
  import opened RecordFormat
  import opened RecordPages

  // The place of byte i of what a chain holds, cap bytes to a page.
  function PageIndex(i: nat, cap: nat): nat
    requires cap > 0
  {
    i / cap
  }

  lemma IndexStep(i: nat, cap: nat)
    requires cap > 0
    ensures i < cap ==> PageIndex(i, cap) == 0 && i % cap == i
    ensures i >= cap ==> PageIndex(i, cap) == PageIndex(i - cap, cap) + 1 && i % cap == (i - cap) % cap
  {
    var q := i / cap;
    assert i == q * cap + i % cap;
    if i < cap {
      Multiples(q, cap);
    } else {
      var q' := (i - cap) / cap;
      ModShift(i - cap, 1, cap);
      assert i - cap == q' * cap + (i - cap) % cap;
      assert (q - q' - 1) * cap == q * cap - q' * cap - cap;
      Multiples(q - q' - 1, cap);
    }
  }

  // Byte i behind the local part: on which page of the chain, and where.
  ghost predicate ChainByte(pager: Pager, chain: seq<nat>, i: nat, b: Byte)
    requires PagerOk(pager)
  {
    var cap := pager.usableSize - 4;
    && PageIndex(i, cap) < |chain| && IsPagenoValid(pager, chain[PageIndex(i, cap)])
    && b == PageData(pager, chain[PageIndex(i, cap)])[4 + i % cap]
  }

  lemma {:induction false} GatherAt(pager: Pager, first: int, chain: seq<nat>, need: nat, i: nat)
    requires PagerOk(pager) && Linked(pager, first, chain) && i < |Gather(pager, first, chain, need)|
    ensures ChainByte(pager, chain, i, Gather(pager, first, chain, need)[i])
    decreases |chain|
  {
    var cap, n := pager.usableSize - 4, Share(pager, need);
    IndexStep(i, cap);
    hide PageIndex, NextPage;
    if i >= n {
      GatherAt(pager, NextPage(pager, first), chain[1..], need - n, i - n);
    }
  }

  /** A payload is refused exactly if its size is not positive or its local part leaves the page; otherwise every byte
      is the one the format puts there. */
  lemma {:induction false} PayloadOutcome(pager: Pager, page: seq<Byte>, off: int, size: int, chain: seq<nat>)
    requires PagerOk(pager) && |page| == pager.pagesize && Follows(pager, page, off, size, chain)
    ensures var r := ReadPayload(pager, page, off, size, chain);
            && (r == Misuse <==> size <= 0)
            && (r == Damaged <==> size > 0 && off + LocalSize(pager.usableSize, size) > pager.pagesize)
            && (r.Ok? ==>
                  var local := LocalSize(pager.usableSize, size);
                  && |r.value| == size && 0 <= off && off + local <= |page|
                  && (forall i :: 0 <= i < local ==> r.value[i] == page[off + i])
                  && forall i :: local <= i < size ==> ChainByte(pager, chain, i - local, r.value[i]))
  {
    hide LocalSize, ChainByte, PagenoAt, Linked, Gather;
    var r := ReadPayload(pager, page, off, size, chain);
    if r.Ok? {
      var local := LocalSize(pager.usableSize, size);
      if local < size {
        var rest := Gather(pager, PagenoAt(page, off + local), chain, size - local);
        forall i | local <= i < size ensures ChainByte(pager, chain, i - local, r.value[i]) {
          GatherAt(pager, PagenoAt(page, off + local), chain, size - local, i - local);
        }
      }
    }
  }

  /** Cells. */

  // The bytes of a cell: its size, its rowid, and a payload that can be read as a record.
  ghost predicate CellReads(pager: Pager, page: seq<Byte>, off: int, chain: seq<nat>, s: seq<Byte>, w: seq<Byte>,
      p: seq<Byte>, h: seq<Byte>, fs: seq<Field>)
    requires PagerOk(pager) && |page| == pager.pagesize
  {
    && At(page, off, s) && Continued(s) && |s| <= MAX_VARINT && ToInt32(Groups(s)) == |p|
    && At(page, off + |s|, w) && Continued(w) && |w| <= MAX_VARINT
    && Follows(pager, page, off + |s| + |w|, |p|, chain)
    && ReadPayload(pager, page, off + |s| + |w|, |p|, chain) == Ok(p) && Readable(p, h, fs)
  }

  // The payload can be read, and decodes to these values.
  predicate PayloadGives(pager: Pager, page: seq<Byte>, off: int, size: int, chain: seq<nat>, values: seq<Value>)
    requires PagerOk(pager) && |page| == pager.pagesize
  {
    && Follows(pager, page, off, size, chain)
    && var r := ReadPayload(pager, page, off, size, chain);
       r.Ok? && DecodeRecord(r.value) == Ok(values)
  }

  // Size and rowid of a cell that gives a row.
  lemma CellVarints(pager: Pager, page: seq<Byte>, off: int, chain: seq<nat>, row: Row)
    returns (size: Varint, rowid: Varint)
    requires PagerOk(pager) && |page| == pager.pagesize && CellFollows(pager, page, off, chain)
    requires ParseCell(pager, page, off, chain) == Ok(row)
    ensures ParseVarint64(page, off) == Ok(size) && ParseVarint64(page, off + size.length) == Ok(rowid)
    ensures row.rowid == rowid.value
    ensures PayloadGives(pager, page, off + size.length + rowid.length, ToInt32(size.value), chain, row.values)
  {
    hide Follows, ReadPayload, DecodeRecord, ParseVarint64, ToInt32;
    size := ParseVarint64(page, off).value;
    rowid := ParseVarint64(page, off + size.length).value;
  }

  // The bytes of a varint that was parsed.
  lemma VarintBytes(data: seq<Byte>, off: int) returns (b: seq<Byte>)
    requires ParseVarint64(data, off).Ok?
    ensures At(data, off, b) && Continued(b) && |b| <= MAX_VARINT
    ensures ParseVarint64(data, off).value == Varint(Groups(b), |b|)
  {
    VarintParsed(data, off);
    b := data[off..off + ParseVarint64(data, off).value.length];
  }

  lemma PayloadSize(pager: Pager, page: seq<Byte>, off: int, size: int, chain: seq<nat>)
    requires PagerOk(pager) && |page| == pager.pagesize && Follows(pager, page, off, size, chain)
    requires ReadPayload(pager, page, off, size, chain).Ok?
    ensures |ReadPayload(pager, page, off, size, chain).value| == size
  {
    PayloadOutcome(pager, page, off, size, chain);
  }

  lemma RecordOf(p: seq<Byte>, values: seq<Value>) returns (h: seq<Byte>, fs: seq<Field>)
    requires DecodeRecord(p) == Ok(values)
    ensures Readable(p, h, fs) && values == Values(fs)
  {
    hide *;
    DecodedIffReadable(p, values);
    h, fs :| Readable(p, h, fs) && values == Values(fs);
  }

  lemma CellParts(pager: Pager, page: seq<Byte>, off: int, chain: seq<nat>, row: Row)
    returns (s: seq<Byte>, w: seq<Byte>, p: seq<Byte>, h: seq<Byte>, fs: seq<Field>)
    requires PagerOk(pager) && |page| == pager.pagesize && CellFollows(pager, page, off, chain)
    requires ParseCell(pager, page, off, chain) == Ok(row)
    ensures CellReads(pager, page, off, chain, s, w, p, h, fs) && row == Row(Groups(w), Values(fs))
  {
    hide PagerOk, CellFollows, ParseCell, Follows, ReadPayload, DecodeRecord, ParseVarint64, ToInt32, Groups, Readable,
        Values, At, Continued;
    var size, rowid := CellVarints(pager, page, off, chain, row);
    s := VarintBytes(page, off);
    w := VarintBytes(page, off + |s|);
    p := ReadPayload(pager, page, off + |s| + |w|, ToInt32(Groups(s)), chain).value;
    PayloadSize(pager, page, off + |s| + |w|, ToInt32(Groups(s)), chain);
    h, fs := RecordOf(p, row.values);
  }

  lemma PartsCell(pager: Pager, page: seq<Byte>, off: int, chain: seq<nat>, s: seq<Byte>, w: seq<Byte>, p: seq<Byte>,
      h: seq<Byte>, fs: seq<Field>)
    requires PagerOk(pager) && |page| == pager.pagesize && CellFollows(pager, page, off, chain)
    requires CellReads(pager, page, off, chain, s, w, p, h, fs)
    ensures ParseCell(pager, page, off, chain) == Ok(Row(Groups(w), Values(fs)))
  {
    hide PagerOk, CellFollows, Follows, ReadPayload, DecodeRecord, ParseVarint64, ToInt32, Groups, Readable, Values, At,
        Continued;
    VarintAt(page, off, s);
    VarintAt(page, off + |s|, w);
    ReadableRead(p, h, fs);
  }

  /** A cell gives a row exactly if its bytes can be read as one, and then that row. */
  lemma {:induction false} CellOutcome(pager: Pager, page: seq<Byte>, off: int, chain: seq<nat>, row: Row)
    requires PagerOk(pager) && |page| == pager.pagesize && CellFollows(pager, page, off, chain)
    ensures ParseCell(pager, page, off, chain) == Ok(row)
            <==> exists s, w, p, h, fs ::
                   CellReads(pager, page, off, chain, s, w, p, h, fs) && row == Row(Groups(w), Values(fs))
  {
    hide *;
    if ParseCell(pager, page, off, chain) == Ok(row) { var s, w, p, h, fs := CellParts(pager, page, off, chain, row); }
    forall s, w, p, h, fs | CellReads(pager, page, off, chain, s, w, p, h, fs) && row == Row(Groups(w), Values(fs))
      ensures ParseCell(pager, page, off, chain) == Ok(row)
    {
      PartsCell(pager, page, off, chain, s, w, p, h, fs);
    }
  }

  // How a cell ends up as it does.
  ghost predicate EndsAs<T>(r: Outcome<T>, code: Code) {
    match r
    case Ok(_) => code == OkCode
    case Damaged => code == DamagedCode
    case Misuse => code == MisuseCode
    case Undefined => code == UndefinedCode
  }

  /** The rows before the first cell that fails are handed over, and that cell decides the code. */
  lemma {:induction false} CellsOutcome(pager: Pager, page: seq<Byte>, pointers: seq<int>, chains: seq<seq<nat>>)
    requires PagerOk(pager) && |page| == pager.pagesize && CellsFollow(pager, page, pointers, chains)
    ensures var (rows, code) := ParseCells(pager, page, pointers, chains);
            && |rows| <= |pointers|
            && (forall i :: 0 <= i < |rows| ==> ParseCell(pager, page, pointers[i], chains[i]) == Ok(rows[i]))
            && (|rows| == |pointers| <==> code == OkCode)
            && (|rows| < |pointers| ==> EndsAs(ParseCell(pager, page, pointers[|rows|], chains[|rows|]), code))
    decreases |pointers|
  {
    hide ParseCell, CellFollows;
    if pointers != [] && ParseCell(pager, page, pointers[0], chains[0]).Ok? {
      CellsOutcome(pager, page, pointers[1..], chains[1..]);
    }
  }
}
