/** Payloads and cells in pages: the local part, the overflow chain, and the
    cells of a table leaf. */
module RecordPages {
  import opened RepairNumbers
  import opened RecordFormat

  // The pages of a file; pages[n-1] is page number n.
  datatype Pager = Pager(pages: seq<seq<Byte>>, pagesize: nat, usableSize: nat)

  predicate PagerOk(pager: Pager) {
    && 512 <= pager.pagesize && pager.usableSize <= pager.pagesize <= pager.usableSize + 255
    && forall i :: 0 <= i < |pager.pages| ==> |pager.pages[i]| == pager.pagesize
  }

  predicate IsPagenoValid(pager: Pager, pageno: int) {
    1 <= pageno <= |pager.pages|
  }

  function PageData(pager: Pager, pageno: int): (data: seq<Byte>)
    requires PagerOk(pager) && IsPagenoValid(pager, pageno)
    ensures |data| == pager.pagesize
  {
    pager.pages[pageno - 1]
  }

  /** How much of a payload of size p is on the leaf itself (section 1.6). */
  function LocalSize(usableSize: nat, p: nat): nat
    requires usableSize >= 257
    ensures LocalSize(usableSize, p) <= p
  {
    var maxLeaf, minLocal := usableSize - 35, (usableSize - 12) * 32 / 255 - 23;
    if p <= maxLeaf then p
    else
      var surplus := minLocal + (p - minLocal) % (usableSize - 4);
      if surplus <= maxLeaf then surplus else minLocal
  }

  lemma ModShift(a: int, k: int, d: nat)
    requires d > 0
    ensures (a + k * d) % d == a % d
  {
    var q, q' := a / d, (a + k * d) / d;
    assert a == q * d + a % d && a + k * d == q' * d + (a + k * d) % d;
    assert (q + k - q') * d == (a + k * d) % d - a % d by { assert (q + k - q') * d == q * d + k * d - q' * d; }
    Multiples(q + k - q', d);
  }

  // A multiple of d other than 0 is at least d away from 0.
  lemma Multiples(z: int, d: nat)
    ensures z > 0 ==> z * d >= d
    ensures z < 0 ==> z * d <= -(d as int)
  {
    if z > 0 { assert (z - 1) * d >= 0; }
    if z < 0 { assert (-z - 1) * d >= 0; }
  }

  // With local bytes of a payload on the page, the overflow pages are filled to the last byte.
  predicate FillsPages(usableSize: nat, p: nat, local: int)
    requires usableSize > 4
  {
    (p - local) % (usableSize - 4) == 0
  }

  /** A payload that spills keeps an admissible number of bytes on its page, and its overflow pages are full if any
      admissible number makes them so; otherwise it keeps as few bytes as it may. */
  lemma {:induction false} LocalSizeFills(usableSize: nat, p: nat, other: int)
    requires usableSize >= 257
    ensures var maxLeaf, minLocal, local := usableSize - 35, (usableSize - 12) * 32 / 255 - 23,
        LocalSize(usableSize, p);
            if p <= maxLeaf then local == p
            else
              && minLocal <= local <= maxLeaf && (FillsPages(usableSize, p, local) || local == minLocal)
              && (minLocal <= other <= maxLeaf && FillsPages(usableSize, p, other) ==> local == other)
  {
    var maxLeaf, minLocal := usableSize - 35, (usableSize - 12) * 32 / 255 - 23;
    if p > maxLeaf {
      var d := usableSize - 4;
      var k, r := (p - minLocal) / d, (p - minLocal) % d;
      assert p - minLocal == k * d + r;
      ModShift(0, k, d);
      if minLocal <= other <= maxLeaf && FillsPages(usableSize, p, other) {
        var j := (p - other) / d;
        assert p - other == j * d;
        assert (k - j) * d == other - minLocal - r by { assert (k - j) * d == k * d - j * d; }
        Multiples(k - j, d);
      }
    }
  }

  // A four-byte page number, as sqliterkParseInt reads it.
  function PagenoAt(data: seq<Byte>, off: nat): int
    requires off + 4 <= |data|
  {
    Signed(data[off..off + 4])
  }

  // The next page of an overflow chain.
  function NextPage(pager: Pager, pageno: int): int
    requires PagerOk(pager) && IsPagenoValid(pager, pageno)
  {
    PagenoAt(PageData(pager, pageno), 0)
  }

  // From page number first on, the pages linked are those of the chain, and then the chain ends.
  predicate Linked(pager: Pager, first: int, chain: seq<nat>)
    requires PagerOk(pager)
    decreases |chain|
  {
    if chain == [] then !IsPagenoValid(pager, first)
    else first == chain[0] && IsPagenoValid(pager, first) && Linked(pager, NextPage(pager, first), chain[1..])
  }

  // The size of one overflow page's share.
  function Share(pager: Pager, need: nat): nat
    requires PagerOk(pager)
  {
    if need < pager.usableSize - 4 then need else pager.usableSize - 4
  }

  // What the overflow loop copies along the chain.
  function Gather(pager: Pager, first: int, chain: seq<nat>, need: nat): (b: seq<Byte>)
    requires PagerOk(pager) && Linked(pager, first, chain)
    ensures |b| <= need
    decreases |chain|
  {
    if chain == [] then []
    else
      PageData(pager, first)[4..4 + Share(pager, need)]
      + Gather(pager, NextPage(pager, first), chain[1..], need - Share(pager, need))
  }

  /** The payload of sqliterkBtreeParsePayload.  The chain is the one the loop follows; bytes that no page supplies are
      uninitialised memory. */
  function ReadPayload(pager: Pager, page: seq<Byte>, off: int, size: int, chain: seq<nat>): Outcome<seq<Byte>>
    requires PagerOk(pager) && |page| == pager.pagesize && Follows(pager, page, off, size, chain)
  {
    if size <= 0 then Misuse
    else
      var local := LocalSize(pager.usableSize, size);
      if off + local > pager.pagesize then Damaged
      else if off < 0 then Undefined
      else if local == size then Ok(page[off..off + local])
      else if off + local + 4 > pager.pagesize then Undefined
      else
        var b := page[off..off + local] + Gather(pager, PagenoAt(page, off + local), chain, size - local);
        if |b| < size then Undefined else Ok(b)
  }

  // The overflow loop, if it is reached, runs along the chain and ends.
  predicate Follows(pager: Pager, page: seq<Byte>, off: int, size: int, chain: seq<nat>)
    requires PagerOk(pager) && |page| == pager.pagesize
  {
    size > 0 ==>
      var at := off + LocalSize(pager.usableSize, size);
      LocalSize(pager.usableSize, size) < size && off >= 0 && at + 4 <= pager.pagesize ==>
        Linked(pager, PagenoAt(page, at), chain)
  }

  // sqliterkBtreeParsePayload
  function ParsePayload(pager: Pager, page: seq<Byte>, off: int, size: int, chain: seq<nat>): Outcome<seq<Value>>
    requires PagerOk(pager) && |page| == pager.pagesize && Follows(pager, page, off, size, chain)
  {
    match ReadPayload(pager, page, off, size, chain)
    case Ok(p) => DecodeRecord(p)
    case Damaged => Damaged
    case Misuse => Misuse
    case Undefined => Undefined
  }

  /** The layout of a payload by section 1.6. */

  // The pages of the chain hold the rest of the payload, each beginning with the number of the next, the last with 0.
  predicate Spilled(pager: Pager, chain: seq<nat>, rest: seq<Byte>)
    requires PagerOk(pager)
    decreases |chain|
  {
    if chain == [] then rest == []
    else
      && IsPagenoValid(pager, chain[0]) && chain[0] < INT_LIMIT && |rest| > 0
      && At(PageData(pager, chain[0]), 0, ToBytes(if |chain| > 1 then chain[1] else 0, 4))
      && At(PageData(pager, chain[0]), 4, rest[..Share(pager, |rest|)])
      && Spilled(pager, chain[1..], rest[Share(pager, |rest|)..])
  }

  predicate PayloadAt(pager: Pager, page: seq<Byte>, off: int, p: seq<Byte>, chain: seq<nat>)
    requires PagerOk(pager)
  {
    var local := LocalSize(pager.usableSize, |p|);
    && At(page, off, p[..local]) && Spilled(pager, chain, p[local..])
    && (local < |p| ==> chain != [] && At(page, off + local, ToBytes(chain[0], 4)))
  }

  lemma PagenoRead(data: seq<Byte>, off: nat, n: nat)
    requires n < INT_LIMIT && At(data, off, ToBytes(n, 4))
    ensures PagenoAt(data, off) == n
  {
    assert n < Pow256(4) && 2 * n < Pow256(4) by { Powers(); }
    ToBytesInverse(n, 4);
    TopBit(ToBytes(n, 4));
  }

  // What the layout says of the first page of a chain.
  lemma SpilledUnfold(pager: Pager, chain: seq<nat>, rest: seq<Byte>)
    requires PagerOk(pager) && chain != [] && Spilled(pager, chain, rest)
    ensures var next := if |chain| > 1 then chain[1] else 0;
            && IsPagenoValid(pager, chain[0]) && |rest| > 0 && next < INT_LIMIT
            && At(PageData(pager, chain[0]), 0, ToBytes(next, 4))
            && At(PageData(pager, chain[0]), 4, rest[..Share(pager, |rest|)])
            && Spilled(pager, chain[1..], rest[Share(pager, |rest|)..])
            && (|chain| == 1 ==> rest[Share(pager, |rest|)..] == [])
  {
    hide At, ToBytes, Share, PageData;
  }

  // The first page of a chain.
  lemma FirstShare(pager: Pager, chain: seq<nat>, rest: seq<Byte>)
    requires PagerOk(pager) && chain != [] && Spilled(pager, chain, rest)
    ensures IsPagenoValid(pager, chain[0]) && 0 < Share(pager, |rest|) <= |rest|
        && Share(pager, |rest|) <= pager.usableSize - 4
    ensures NextPage(pager, chain[0]) == if |chain| > 1 then chain[1] else 0
    ensures PageData(pager, chain[0])[4..4 + Share(pager, |rest|)] == rest[..Share(pager, |rest|)]
    ensures Spilled(pager, chain[1..], rest[Share(pager, |rest|)..])
    ensures |chain| == 1 ==> rest[Share(pager, |rest|)..] == []
  {
    hide Spilled, ToBytes, PagenoAt;
    SpilledUnfold(pager, chain, rest);
    PagenoRead(PageData(pager, chain[0]), 0, if |chain| > 1 then chain[1] else 0);
  }

  lemma GatherUnfold(pager: Pager, first: int, chain: seq<nat>, need: nat)
    requires PagerOk(pager) && chain != [] && first == chain[0] && IsPagenoValid(pager, first)
    requires Linked(pager, NextPage(pager, first), chain[1..])
    ensures Linked(pager, first, chain)
    ensures Gather(pager, first, chain, need)
         == PageData(pager, first)[4..4 + Share(pager, need)]
            + Gather(pager, NextPage(pager, first), chain[1..], need - Share(pager, need))
  {
    hide PagerOk, NextPage;
  }

  lemma {:induction false} SpilledGathers(pager: Pager, chain: seq<nat>, rest: seq<Byte>)
    requires PagerOk(pager) && chain != [] && Spilled(pager, chain, rest)
    ensures Linked(pager, chain[0], chain) && Gather(pager, chain[0], chain, |rest|) == rest
    decreases |chain|
  {
    FirstShare(pager, chain, rest);
    var n, first := Share(pager, |rest|), chain[0];
    assert !IsPagenoValid(pager, 0);
    hide Spilled, NextPage, Share, IsPagenoValid, PageData, PagerOk;
    if |chain| > 1 {
      SpilledGathers(pager, chain[1..], rest[n..]);
    } else {
      ChainEnds(pager, chain[1..], rest[n..]);
    }
    hide Linked, Gather;
    GatherUnfold(pager, first, chain, |rest|);
    assert rest[..n] + rest[n..] == rest;
  }

  lemma ChainEnds(pager: Pager, chain: seq<nat>, rest: seq<Byte>)
    requires PagerOk(pager) && chain == [] && rest == []
    ensures Linked(pager, 0, chain) && Gather(pager, 0, chain, |rest|) == rest
  {
  }

  lemma LocalRead(pager: Pager, page: seq<Byte>, off: int, p: seq<Byte>)
    requires PagerOk(pager) && |page| == pager.pagesize && |p| > 0 && LocalSize(pager.usableSize, |p|) == |p|
        && At(page, off, p)
    ensures Follows(pager, page, off, |p|, []) && ReadPayload(pager, page, off, |p|, []) == Ok(p)
  {
    hide LocalSize;
  }

  lemma SpilledRead(pager: Pager, page: seq<Byte>, off: int, p: seq<Byte>, chain: seq<nat>, local: nat)
    requires PagerOk(pager) && |page| == pager.pagesize && local == LocalSize(pager.usableSize, |p|) < |p|
        && chain != []
    requires At(page, off, p[..local]) && off + local + 4 <= |page| && PagenoAt(page, off + local) == chain[0]
    requires Linked(pager, chain[0], chain) && Gather(pager, chain[0], chain, |p| - local) == p[local..]
    ensures Follows(pager, page, off, |p|, chain) && ReadPayload(pager, page, off, |p|, chain) == Ok(p)
  {
    hide LocalSize, Linked, Gather, PagenoAt;
    assert p[..local] + p[local..] == p;
  }

  /** A payload laid out by the format, local part and overflow chain, is read back byte for byte. */
  lemma {:induction false} PayloadRoundTrip(pager: Pager, page: seq<Byte>, off: int, p: seq<Byte>, chain: seq<nat>)
    requires PagerOk(pager) && |page| == pager.pagesize && |p| > 0 && PayloadAt(pager, page, off, p, chain)
    ensures Follows(pager, page, off, |p|, chain) && ReadPayload(pager, page, off, |p|, chain) == Ok(p)
  {
    hide LocalSize, Spilled, Linked, Gather, Follows, ReadPayload, PagenoAt, ToBytes;
    var local := LocalSize(pager.usableSize, |p|);
    if local < |p| {
      NumberFits(pager, chain, p[local..]);
      PagenoRead(page, off + local, chain[0]);
      SpilledGathers(pager, chain, p[local..]);
      SpilledRead(pager, page, off, p, chain, local);
    } else {
      assert p[..local] == p && p[local..] == [];
      NoChain(pager, chain, p[local..]);
      LocalRead(pager, page, off, p);
    }
  }

  lemma NumberFits(pager: Pager, chain: seq<nat>, rest: seq<Byte>)
    requires PagerOk(pager) && Spilled(pager, chain, rest) && chain != []
    ensures chain[0] < INT_LIMIT
  {
  }

  lemma NoChain(pager: Pager, chain: seq<nat>, rest: seq<Byte>)
    requires PagerOk(pager) && Spilled(pager, chain, rest) && rest == []
    ensures chain == []
  {
  }

  /** Cells of a table leaf. */

  datatype Row = Row(rowid: int, values: seq<Value>)

  // How the parsing of a page ends.
  datatype Code = OkCode | DamagedCode | MisuseCode | UndefinedCode

  // One round of sqliterkBtreeParseCell: the row of the cell at an offset.
  function ParseCell(pager: Pager, page: seq<Byte>, off: int, chain: seq<nat>): Outcome<Row>
    requires PagerOk(pager) && |page| == pager.pagesize && CellFollows(pager, page, off, chain)
  {
    match ParseVarint64(page, off)
    case Ok(size) =>
      (match ParseVarint64(page, off + size.length)
       case Ok(rowid) =>
         (match ParsePayload(pager, page, off + size.length + rowid.length, ToInt32(size.value), chain)
          case Ok(values) => Ok(Row(rowid.value, values))
          case Damaged => Damaged
          case Misuse => Misuse
          case Undefined => Undefined)
       case Damaged => Damaged
       case Misuse => Misuse
       case Undefined => Undefined)
    case Damaged => Damaged
    case Misuse => Misuse
    case Undefined => Undefined
  }

  predicate CellFollows(pager: Pager, page: seq<Byte>, off: int, chain: seq<nat>)
    requires PagerOk(pager) && |page| == pager.pagesize
  {
    var size := ParseVarint64(page, off);
    size.Ok? ==>
      var rowid := ParseVarint64(page, off + size.value.length);
      rowid.Ok? ==> Follows(pager, page, off + size.value.length + rowid.value.length, ToInt32(size.value.value), chain)
  }

  predicate CellsFollow(pager: Pager, page: seq<Byte>, pointers: seq<int>, chains: seq<seq<nat>>)
    requires PagerOk(pager) && |page| == pager.pagesize
  {
    |chains| == |pointers| && forall i :: 0 <= i < |pointers| ==> CellFollows(pager, page, pointers[i], chains[i])
  }

  // sqliterkBtreeParseCell: the rows handed to the listener before the first failure, and how it ends.
  function ParseCells(pager: Pager, page: seq<Byte>, pointers: seq<int>, chains: seq<seq<nat>>): (seq<Row>, Code)
    requires PagerOk(pager) && |page| == pager.pagesize && CellsFollow(pager, page, pointers, chains)
    decreases |pointers|
  {
    if pointers == [] then ([], OkCode)
    else
      match ParseCell(pager, page, pointers[0], chains[0])
      case Ok(row) =>
        var (rows, code) := ParseCells(pager, page, pointers[1..], chains[1..]);
        ([row] + rows, code)
      case Damaged => ([], DamagedCode)
      case Misuse => ([], MisuseCode)
      case Undefined => ([], UndefinedCode)
  }

  /** The layout of a cell: payload size, rowid, payload. */
  datatype Cell = Cell(size: seq<Byte>, rowid: seq<Byte>, header: seq<Byte>, fields: seq<Field>, payload: seq<Byte>,
      chain: seq<nat>)

  predicate CellAt(pager: Pager, page: seq<Byte>, off: int, cell: Cell)
    requires PagerOk(pager)
  {
    && IsVarint(cell.size, |cell.payload|) && IsVarint(cell.rowid, Groups(cell.rowid))
    && IsRecord(cell.payload, cell.header, cell.fields)
    && At(page, off, cell.size) && At(page, off + |cell.size|, cell.rowid)
    && PayloadAt(pager, page, off + |cell.size| + |cell.rowid|, cell.payload, cell.chain)
  }

  function RowOf(cell: Cell): Row {
    Row(Groups(cell.rowid), Values(cell.fields))
  }

  lemma RecordNonempty(p: seq<Byte>, h: seq<Byte>, fs: seq<Field>)
    requires IsRecord(p, h, fs)
    ensures 0 < |p| < INT_LIMIT
  {
    hide FieldsOk, Types, Contents;
  }

  lemma {:induction false} CellRoundTrip(pager: Pager, page: seq<Byte>, off: int, cell: Cell)
    requires PagerOk(pager) && |page| == pager.pagesize && CellAt(pager, page, off, cell)
    ensures CellFollows(pager, page, off, cell.chain) && ParseCell(pager, page, off, cell.chain) == Ok(RowOf(cell))
  {
    hide IsVarint, IsRecord, At, PayloadAt, PagerOk, ReadPayload, Follows, ParseVarint64, DecodeRecord, Groups, Values,
        ToInt32;
    RecordNonempty(cell.payload, cell.header, cell.fields);
    VarintRead(page, off, cell.size, |cell.payload|);
    VarintRead(page, off + |cell.size|, cell.rowid, Groups(cell.rowid));
    Int32Small(|cell.payload|);
    PayloadRoundTrip(pager, page, off + |cell.size| + |cell.rowid|, cell.payload, cell.chain);
    RecordRoundTrip(cell.payload, cell.header, cell.fields);
  }

  predicate CellsAt(pager: Pager, page: seq<Byte>, pointers: seq<int>, cells: seq<Cell>)
    requires PagerOk(pager)
  {
    |cells| == |pointers| && forall i :: 0 <= i < |pointers| ==> CellAt(pager, page, pointers[i], cells[i])
  }

  function RowsOf(cells: seq<Cell>): seq<Row> {
    if cells == [] then [] else [RowOf(cells[0])] + RowsOf(cells[1..])
  }

  function ChainsOf(cells: seq<Cell>): (c: seq<seq<nat>>)
    ensures |c| == |cells|
  {
    if cells == [] then [] else [cells[0].chain] + ChainsOf(cells[1..])
  }

  /** Every row of a leaf whose cells the format laid out is recovered, in order: decoding inverts encoding. */
  lemma {:induction false} CellsRoundTrip(pager: Pager, page: seq<Byte>, pointers: seq<int>, cells: seq<Cell>)
    requires PagerOk(pager) && |page| == pager.pagesize && CellsAt(pager, page, pointers, cells)
    ensures CellsFollow(pager, page, pointers, ChainsOf(cells))
    ensures ParseCells(pager, page, pointers, ChainsOf(cells)) == (RowsOf(cells), OkCode)
    decreases |pointers|
  {
    hide CellAt, CellFollows, ParseCell, RowOf, PagerOk;
    if pointers != [] {
      CellRoundTrip(pager, page, pointers[0], cells[0]);
      CellsRoundTrip(pager, page, pointers[1..], cells[1..]);
      var chains := ChainsOf(cells);
      assert chains[1..] == ChainsOf(cells[1..]);
      forall i | 0 <= i < |pointers| ensures CellFollows(pager, page, pointers[i], chains[i]) {
        if i > 0 { assert CellFollows(pager, page, pointers[1..][i - 1], chains[1..][i - 1]); }
      }
    }
  }
}
