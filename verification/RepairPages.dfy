/** What sqliterkBtreeParsePage finds in the bytes of a page, and what the parse
    of a whole file makes of pages laid out by the file format. */
module RepairPages {
  import opened RepairNumbers
  import opened RecordFormat
  import opened RecordPages
  import opened RecordChains
  import opened Wrappers
  import W = RepairWalk

  const INTERIOR_INDEX := 2
  const INTERIOR_TABLE := 5
  const LEAF_INDEX := 10
  const LEAF_TABLE := 13

  function HeaderOffset(pageno: int): nat {
    if pageno == 1 then 100 else 0
  }

  // sqliterkParseInt at an offset of a page
  function IntAt(data: seq<Byte>, off: int, n: nat): Outcome<int> {
    if 0 <= off && off + n <= |data| then ParseInt64(data[off..off + n]) else Undefined
  }

  // Integers of n bytes at the given offsets.
  function IntsAt(data: seq<Byte>, offs: seq<int>, n: nat): Outcome<seq<int>> {
    if offs == [] then Ok([])
    else
      match IntAt(data, offs[0], n)
      case Ok(v) =>
        (match IntsAt(data, offs[1..], n)
         case Ok(vs) => Ok([v] + vs)
         case Damaged => Damaged
         case Misuse => Misuse
         case Undefined => Undefined)
      case Damaged => Damaged
      case Misuse => Misuse
      case Undefined => Undefined
  }

  // The offset of the cell pointer array in the header of a page; interior index pages are treated like leaves.
  function PointerArray(kind: int): nat {
    if kind == INTERIOR_TABLE then 12 else 8
  }

  // The offsets of the first n cell pointers.
  function PointerOffsets(start: int, n: nat): (offs: seq<int>)
    ensures |offs| == n && forall i :: 0 <= i < n ==> offs[i] == start + 2 * i
  {
    seq(n, i => start + 2 * i)
  }

  datatype Header = BadType | BadHeader | Page(kind: int, pointers: seq<int>)

  // The page type, the number of cells and the cell pointers.
  function ParseHeader(data: seq<Byte>, pageno: int): Outcome<Header> {
    var h := HeaderOffset(pageno);
    match IntAt(data, h, 1)
    case Ok(kind) =>
      if !(kind == INTERIOR_INDEX || kind == INTERIOR_TABLE || kind == LEAF_INDEX || kind == LEAF_TABLE)
          then Ok(BadType)
      else
        (match IntAt(data, 3 + h, 2)
         case Ok(cells) =>
           if cells <= 0 || cells * 2 + PointerArray(kind) > |data| then Ok(BadHeader)
           else
             (match IntsAt(data, PointerOffsets(h + PointerArray(kind), cells), 2)
              case Ok(pointers) => Ok(Page(kind, pointers))
              case Damaged => Damaged
              case Misuse => Misuse
              case Undefined => Undefined)
         case Damaged => Damaged
         case Misuse => Misuse
         case Undefined => Undefined)
    case Damaged => Damaged
    case Misuse => Misuse
    case Undefined => Undefined
  }

  // The page numbers of the children; the right-most one only of an interior table page.
  function ParseChildren(data: seq<Byte>, kind: int, pointers: seq<int>): Outcome<seq<int>> {
    match IntsAt(data, pointers, 4)
    case Ok(children) =>
      if kind != INTERIOR_TABLE then Ok(children)
      else
        (match IntAt(data, 8, 4)
         case Ok(last) => Ok(children + [last])
         case Damaged => Damaged
         case Misuse => Misuse
         case Undefined => Undefined)
    case Damaged => Damaged
    case Misuse => Misuse
    case Undefined => Undefined
  }

  function RcOf(code: Code): W.Rc {
    match code
    case OkCode => W.OK
    case DamagedCode => W.DAMAGED
    case _ => W.MISUSE
  }

  // What the walk sees of a page, the listener taking every row; Undefined also where an overflow loop does not end.
  function Classify(pager: Pager, pageno: int): Outcome<W.PageInfo>
    requires PagerOk(pager) && IsPagenoValid(pager, pageno)
  {
    var data := PageData(pager, pageno);
    match ParseHeader(data, pageno)
    case Ok(BadType) => Ok(W.BadType)
    case Ok(BadHeader) => Ok(W.BadHeader)
    case Ok(Page(kind, pointers)) =>
      if kind == INTERIOR_TABLE || kind == INTERIOR_INDEX then
        (match ParseChildren(data, kind, pointers)
         case Ok(children) => Ok(W.Interior(children))
         case Damaged => Damaged
         case Misuse => Misuse
         case Undefined => Undefined)
      else if kind == LEAF_INDEX then Ok(W.Leaf(W.OK, []))
      else
        (match ParseLeaf(pager, data, pointers)
         case None => Undefined
         case Some((code, overflow)) => if code == UndefinedCode then Undefined else Ok(W.Leaf(RcOf(code), overflow)))
    case Damaged => Damaged
    case Misuse => Misuse
    case Undefined => Undefined
  }

  // The file the walk goes over, page by page.  On each page the code stays inside its buffers and comes to an end.
  predicate FileOf(pager: Pager, f: W.File)
    requires PagerOk(pager)
  {
    |f| == |pager.pages| && forall i :: 0 <= i < |f| ==> Classify(pager, i + 1) == Ok(f[i])
  }

  /** Pages laid out by section 1.6. */

  // Where the B-tree header of a page lies: page 1 begins with the 100 bytes of the database header.
  function TreeHeader(pageno: int): nat {
    if pageno == 1 then 100 else 0
  }

  // A page header with its cell pointers, behind the eight or twelve bytes that begin the header.
  predicate HeaderAt(data: seq<Byte>, h: nat, kind: Byte, start: nat, pointers: seq<nat>) {
    && At(data, h, [kind]) && At(data, h + 3, ToBytes(|pointers|, 2)) && |pointers| < 0x1_0000
    && h + start + 2 * |pointers| <= |data|
    && forall i :: 0 <= i < |pointers| ==>
         pointers[i] < 0x1_0000 && At(data, h + start + 2 * i, ToBytes(pointers[i], 2))
  }

  // A table leaf.
  predicate LeafAt(pager: Pager, pageno: int, pointers: seq<nat>, cells: seq<Cell>)
    requires PagerOk(pager)
  {
    && IsPagenoValid(pager, pageno) && |pointers| == |cells|
    && var data := PageData(pager, pageno);
       HeaderAt(data, TreeHeader(pageno), LEAF_TABLE, 8, pointers) && CellsAt(pager, data, pointers, cells)
  }

  // An interior page: the cells begin with the page numbers of the children, and the page number of the right-most
  // child is in the header. Page numbers have 31 bits.
  predicate InteriorAt(pager: Pager, pageno: int, kind: Byte, pointers: seq<nat>, children: seq<nat>, last: nat)
    requires PagerOk(pager)
  {
    && IsPagenoValid(pager, pageno) && |pointers| == |children| && last < INT_LIMIT
    && var data := PageData(pager, pageno);
       && HeaderAt(data, TreeHeader(pageno), kind, 12, pointers)
       && At(data, TreeHeader(pageno) + 8, ToBytes(last, 4))
       && forall i :: 0 <= i < |children| ==> children[i] < INT_LIMIT && At(data, pointers[i], ToBytes(children[i], 4))
  }

  // The header is read as it is meant: there are cells, and no 16-bit number is taken for a negative one.
  predicate ReadsPointers(pointers: seq<nat>) {
    0 < |pointers| < 0x8000 && forall i :: 0 <= i < |pointers| ==> pointers[i] < 0x8000
  }

  /** How the header is read. */

  // Two bytes as sqliterkParseInt reads them.
  function Short(v: nat): int {
    if v < 0x8000 then v else v - 0x1_0000
  }

  function Shorts(vs: seq<nat>): (r: seq<int>)
    ensures |r| == |vs| && forall i :: 0 <= i < |vs| ==> r[i] == Short(vs[i])
  {
    seq(|vs|, i requires 0 <= i < |vs| => Short(vs[i]))
  }

  lemma ShortRead(data: seq<Byte>, off: int, v: nat)
    requires v < 0x1_0000 && At(data, off, ToBytes(v, 2))
    ensures IntAt(data, off, 2) == Ok(Short(v))
  {
    Powers();
    ToBytesInverse(v, 2);
    var b := ToBytes(v, 2);
    assert BigEndian(b) == v;
    TopBit(b);
    ParseIsSigned(b);
    assert data[off..off + 2] == b;
    hide ParseInt64, ToBytes, BigEndian;
  }

  lemma {:induction false} IntsRead(data: seq<Byte>, offs: seq<int>, n: nat, vs: seq<int>)
    requires |offs| == |vs| && forall i :: 0 <= i < |vs| ==> IntAt(data, offs[i], n) == Ok(vs[i])
    ensures IntsAt(data, offs, n) == Ok(vs)
  {
    hide IntAt;
    if offs != [] {
      IntsRead(data, offs[1..], n, vs[1..]);
      assert vs == [vs[0]] + vs[1..];
    }
  }

  // Reading outside the page.
  lemma {:induction false} IntsOutside(data: seq<Byte>, offs: seq<int>, n: nat, i: nat)
    requires i < |offs| && offs[i] < 0
    requires forall j :: 0 <= j < |offs| && offs[j] >= 0 ==> IntAt(data, offs[j], n).Ok?
    ensures IntsAt(data, offs, n) == Undefined
  {
    if offs[0] >= 0 { IntsOutside(data, offs[1..], n, i - 1); }
  }

  // The words of a header from the pointer array on, as it is read.
  lemma HeaderRead(data: seq<Byte>, pageno: int, kind: Byte, words: seq<nat>)
    requires kind == LEAF_TABLE || kind == INTERIOR_TABLE || kind == INTERIOR_INDEX || kind == LEAF_INDEX
    requires HeaderAt(data, TreeHeader(pageno), kind, PointerArray(kind), words)
    ensures ParseHeader(data, pageno) == Ok(if 0 < |words| < 0x8000 then Page(kind, Shorts(words)) else BadHeader)
  {
    hide ToBytes;
    var h, start := TreeHeader(pageno), PointerArray(kind);
    ShortRead(data, h + 3, |words|);
    assert data[h..h + 1] == [kind];
    assert IntAt(data, h, 1) == Ok(kind);
    if 0 < |words| < 0x8000 {
      var offs := PointerOffsets(h + start, |words|);
      forall i | 0 <= i < |words| ensures IntAt(data, offs[i], 2) == Ok(Shorts(words)[i]) {
        ShortRead(data, h + start + 2 * i, words[i]);
      }
      IntsRead(data, offs, 2, Shorts(words));
    }
  }

  /** Table leaves. */

  /** A table leaf is found with its cells and their overflow pages if and only if it has cells and their pointers are
      below 0x8000: an empty one is taken for damaged, and a larger pointer for a negative one. */
  lemma {:induction false} LeafClassified(pager: Pager, pageno: int, pointers: seq<nat>, cells: seq<Cell>)
    requires PagerOk(pager) && LeafAt(pager, pageno, pointers, cells)
    ensures Classify(pager, pageno) == Ok(W.Leaf(W.OK, OverflowPages(cells))) <==> ReadsPointers(pointers)
    ensures pointers == [] ==> Classify(pager, pageno) == Ok(W.BadHeader)
    ensures 0 < |pointers| < 0x8000 && !ReadsPointers(pointers) ==> Classify(pager, pageno) == Undefined
  {
    var data := PageData(pager, pageno);
    HeaderRead(data, pageno, LEAF_TABLE, pointers);
    if 0 < |pointers| < 0x8000 {
      LeafParsed(pager, data, Shorts(pointers), pointers, cells);
      LeafOf(pager, pageno, Shorts(pointers));
    }
    hide ParseHeader, HeaderAt, CellsAt, ParseLeaf, PagerOk, Shorts;
  }

  // A table leaf whose header has been read.
  lemma LeafOf(pager: Pager, pageno: int, pointers: seq<int>)
    requires PagerOk(pager) && IsPagenoValid(pager, pageno)
    requires ParseHeader(PageData(pager, pageno), pageno) == Ok(Page(LEAF_TABLE, pointers))
    ensures var r := ParseLeaf(pager, PageData(pager, pageno), pointers);
            && (r.Some? && r.value.0 != UndefinedCode ==>
                Classify(pager, pageno) == Ok(W.Leaf(RcOf(r.value.0), r.value.1)))
            && (r.Some? && r.value.0 == UndefinedCode ==> Classify(pager, pageno) == Undefined)
  {
    hide ParseHeader, ParseLeaf, PagerOk;
  }

  /** Whatever else is in such a file, if no chain passes through an interior page: a leaf as above ends up checked.
      If it is itself on no chain it has been parsed, which gives its rows as they were stored. */
  lemma {:induction false} LeafRecovered(pager: Pager, f: W.File, pageno: int, pointers: seq<nat>, cells: seq<Cell>)
    requires PagerOk(pager) && FileOf(pager, f) && W.ChainsClear(f)
    requires LeafAt(pager, pageno, pointers, cells) && ReadsPointers(pointers)
    ensures W.ParseFirst(f, |f|)[pageno - 1] == W.Checked
    ensures CellsFollow(pager, PageData(pager, pageno), pointers, ChainsOf(cells))
    ensures ParseCells(pager, PageData(pager, pageno), pointers, ChainsOf(cells)) == (RowsOf(cells), OkCode)
  {
    LeafClassified(pager, pageno, pointers, cells);
    assert Classify(pager, pageno - 1 + 1) == Ok(f[pageno - 1]);
    NeverCancelled(pager, f);
    CellsRoundTrip(pager, PageData(pager, pageno), pointers, cells);
    hide *;
    LeafChecked(f, pageno, OverflowPages(cells));
  }

  lemma LeafChecked(f: W.File, pageno: int, overflow: seq<int>)
    requires W.ChainsClear(f) && W.NoCancel(f) && 1 <= pageno <= |f| && f[pageno - 1] == W.Leaf(W.OK, overflow)
    ensures W.ParseFirst(f, |f|)[pageno - 1] == W.Checked
  {
    W.FinalStatus(f, pageno);
  }

  /** Its overflow pages end up checked too, if it is on no chain and they are no interior page's children. */
  lemma {:induction false} OverflowRecovered(pager: Pager, f: W.File, pageno: int, pointers: seq<nat>,
      cells: seq<Cell>, p: int)
    requires PagerOk(pager) && FileOf(pager, f) && W.ChainsClear(f)
    requires LeafAt(pager, pageno, pointers, cells) && ReadsPointers(pointers) && !W.OnChain(f, pageno)
    requires p in OverflowPages(cells) && 1 <= p <= |f| && W.NoChild(f, p)
    ensures W.ParseFirst(f, |f|)[p - 1] == W.Checked
  {
    LeafClassified(pager, pageno, pointers, cells);
    assert Classify(pager, pageno - 1 + 1) == Ok(f[pageno - 1]);
    NeverCancelled(pager, f);
    assert 1 <= pageno <= |f| && f[pageno - 1] == W.Leaf(W.OK, OverflowPages(cells));
    hide *;
    LeafOverflows(f, pageno, OverflowPages(cells), p);
  }

  lemma LeafOverflows(f: W.File, pageno: int, overflow: seq<int>, p: int)
    requires W.ChainsClear(f) && W.NoCancel(f) && 1 <= pageno <= |f| && f[pageno - 1] == W.Leaf(W.OK, overflow)
    requires !W.OnChain(f, pageno) && p in overflow && 1 <= p <= |f| && W.NoChild(f, p)
    ensures W.ParseFirst(f, |f|)[p - 1] == W.Checked
  {
    hide *;
    var l := pageno - 1;
    LeafOverflow(f, l, overflow, p);
    assert pageno == l + 1;
    W.OverflowChecked(f, l, p);
  }

  lemma LeafOverflow(f: W.File, l: nat, overflow: seq<int>, p: int)
    requires l < |f| && f[l] == W.Leaf(W.OK, overflow) && p in overflow
    ensures W.Overflows(f, l, p)
  {
  }

  /** An empty table leaf, as every empty table has, ends up marked as damaged unless it is an overflow page. */
  lemma {:induction false} EmptyLeafDamaged(pager: Pager, f: W.File, pageno: int)
    requires PagerOk(pager) && FileOf(pager, f) && W.ChainsClear(f) && LeafAt(pager, pageno, [], [])
    requires !W.OnChain(f, pageno)
    ensures W.ParseFirst(f, |f|)[pageno - 1] == W.DamagedPage
  {
    LeafClassified(pager, pageno, [], []);
    assert Classify(pager, pageno - 1 + 1) == Ok(f[pageno - 1]);
    NeverCancelled(pager, f);
    hide Classify, LeafAt, FileOf, PagerOk;
    W.FinalStatus(f, pageno);
  }

  lemma BytesAt(data: seq<Byte>, off: nat, b: seq<Byte>)
    requires off + |b| <= |data| && forall k :: 0 <= k < |b| ==> data[off + k] == b[k]
    ensures At(data, off, b)
  {
  }

  // Small numbers as bytes.
  lemma SmallBytes(v: Byte)
    ensures ToBytes(v, 2) == [0, v] && ToBytes(v, 4) == [0, 0, 0, v]
  {
    assert ToBytes(0, 1) == ToBytes(0, 0) + [0] && ToBytes(0, 2) == ToBytes(0, 1) + [0]
        && ToBytes(0, 3) == ToBytes(0, 2) + [0];
    assert ToBytes(v, 2) == ToBytes(0, 1) + [v] && ToBytes(v, 4) == ToBytes(0, 3) + [v];
  }

  // The whole file of a database without tables: page 1 is an empty leaf.
  function EmptyDatabase(): (pager: Pager)
    ensures PagerOk(pager) && |pager.pages| == 1
  {
    Pager([seq(512, i => if i == 100 then LEAF_TABLE else 0)], 512, 512)
  }

  lemma EmptyDatabaseLaidOut()
    ensures LeafAt(EmptyDatabase(), 1, [], [])
  {
    var data := PageData(EmptyDatabase(), 1);
    SmallBytes(0);
    hide ToBytes;
    BytesAt(data, 100, [LEAF_TABLE]);
    BytesAt(data, 103, [0, 0]);
    hide At;
  }

  /** So the parse of an empty database marks its only page as damaged. */
  lemma {:induction false} EmptyDatabaseDamaged()
    ensures LeafAt(EmptyDatabase(), 1, [], []) && FileOf(EmptyDatabase(), [W.BadHeader])
    ensures W.ChainsClear([W.BadHeader]) && W.ParseFirst([W.BadHeader], 1) == [W.DamagedPage]
  {
    EmptyDatabaseLaidOut();
    LeafClassified(EmptyDatabase(), 1, [], []);
    hide Classify, LeafAt, EmptyDatabase, ReadsPointers;
    assert FileOf(EmptyDatabase(), [W.BadHeader]);
    assert !W.OnChain([W.BadHeader], 1);
    hide W.ParseFirst;
    EmptyLeafDamaged(EmptyDatabase(), [W.BadHeader], 1);
  }

  lemma NeverCancelled(pager: Pager, f: W.File)
    requires PagerOk(pager) && FileOf(pager, f)
    ensures W.NoCancel(f)
  {
    forall i | 0 <= i < |f| && f[i].Leaf? ensures f[i].rc != W.CANCELLED {
      assert Classify(pager, i + 1) == Ok(f[i]);
      NoneCancelled(pager, i + 1);
    }
  }

  lemma NoneCancelled(pager: Pager, pageno: int)
    requires PagerOk(pager) && IsPagenoValid(pager, pageno)
    ensures Classify(pager, pageno).Ok? && Classify(pager, pageno).value.Leaf? ==>
        Classify(pager, pageno).value.rc != W.CANCELLED
  {
    hide ParseHeader, ParseChildren, ParseLeaf, PagerOk;
  }

  /** Interior table pages. */

  lemma ChildRead(data: seq<Byte>, off: int, child: nat)
    requires child < INT_LIMIT && At(data, off, ToBytes(child, 4))
    ensures IntAt(data, off, 4) == Ok(child)
  {
    PagenoRead(data, off, child);
    ParseIsSigned(data[off..off + 4]);
    hide ParseInt64, ToBytes, Signed;
  }

  // The number read as that of the right-most child: four bytes at offset 8 of the page.
  lemma LastRead(data: seq<Byte>) returns (last: int)
    requires |data| >= 12
    ensures IntAt(data, 8, 4) == Ok(last)
  {
    ParseIsSigned(data[8..12]);
    last := Signed(data[8..12]);
  }

  // The numbers at the cell pointers.
  lemma ChildrenRead(data: seq<Byte>, pointers: seq<nat>, children: seq<nat>)
    requires |pointers| == |children| && |pointers| > 0
    requires forall i :: 0 <= i < |children| ==>
      pointers[i] < 0x1_0000 && children[i] < INT_LIMIT && At(data, pointers[i], ToBytes(children[i], 4))
    ensures if forall i :: 0 <= i < |pointers| ==>
        pointers[i] < 0x8000 then IntsAt(data, Shorts(pointers), 4) == Ok(children)
            else IntsAt(data, Shorts(pointers), 4) == Undefined
  {
    hide IntAt, At, ToBytes;
    forall i | 0 <= i < |children| ensures IntAt(data, pointers[i], 4) == Ok(children[i]) {
      ChildRead(data, pointers[i], children[i]);
    }
    if forall i :: 0 <= i < |pointers| ==> pointers[i] < 0x8000 {
      IntsRead(data, Shorts(pointers), 4, children);
    } else {
      var i :| 0 <= i < |pointers| && pointers[i] >= 0x8000;
      IntsOutside(data, Shorts(pointers), 4, i);
    }
  }

  /** An interior table page is found with its children if and only if its header is read as it is meant and the
      number of the right-most child stands at offset 8 of the page, as it does on every page but the first. */
  lemma {:induction false} InteriorClassified(pager: Pager, pageno: int, pointers: seq<nat>, children: seq<nat>,
      last: nat)
    requires PagerOk(pager) && InteriorAt(pager, pageno, INTERIOR_TABLE, pointers, children, last)
    ensures Classify(pager, pageno) == Ok(W.Interior(children + [last]))
            <==> ReadsPointers(pointers) && IntAt(PageData(pager, pageno), 8, 4) == Ok(last)
    ensures pageno != 1 ==> IntAt(PageData(pager, pageno), 8, 4) == Ok(last)
    ensures ReadsPointers(pointers) ==>
              var c := Classify(pager, pageno);
              c.Ok? && c.value.Interior? && |c.value.children| == |children| + 1
                  && c.value.children[..|children|] == children
    ensures pointers == [] ==> Classify(pager, pageno) == Ok(W.BadHeader)
  {
    var data := PageData(pager, pageno);
    HeaderRead(data, pageno, INTERIOR_TABLE, pointers);
    if pageno != 1 { ChildRead(data, 8, last); }
    var found := LastRead(data);
    if pointers != [] { ChildrenRead(data, pointers, children); }
    if 0 < |pointers| < 0x8000 { TableOf(pager, pageno, Shorts(pointers), found); }
    hide ParseHeader, ParseChildren, HeaderAt, IntAt, IntsAt, At, ToBytes, Shorts, PagerOk;
    assert (children + [found])[|children|] == found;
    assert (children + [found])[..|children|] == children;
  }

  // An interior table page whose header has been read.
  lemma TableOf(pager: Pager, pageno: int, pointers: seq<int>, found: int)
    requires PagerOk(pager) && IsPagenoValid(pager, pageno) && IntAt(PageData(pager, pageno), 8, 4) == Ok(found)
    requires ParseHeader(PageData(pager, pageno), pageno) == Ok(Page(INTERIOR_TABLE, pointers))
    ensures var ints := IntsAt(PageData(pager, pageno), pointers, 4);
            Classify(pager, pageno) == match ints
                                       case Ok(cs) => Ok(W.Interior(cs + [found]))
                                       case Damaged => Damaged
                                       case Misuse => Misuse
                                       case Undefined => Undefined
  {
    hide ParseHeader, IntsAt, IntAt, PagerOk;
  }

  // The first page of a file of three: an interior table page with one cell, for child 3, and the right-most child 2.
  // Bytes 8..11 are "orma", of the text "SQLite format 3" that begins the database header.
  function FirstPage(): (page: seq<Byte>)
    ensures |page| == 512
  {
    var zeros: seq<Byte> := seq(512, _ => 0);
    zeros[8 := 0x6F][9 := 0x72][10 := 0x6D][11 := 0x61][100 := INTERIOR_TABLE][104 := 1][111 := 2][112 := 1][259 := 3]
  }

  function ThreePages(): (pager: Pager)
    ensures PagerOk(pager) && |pager.pages| == 3 && pager.pages[0] == FirstPage()
  {
    Pager([FirstPage(), seq(512, _ => 0), seq(512, _ => 0)], 512, 512)
  }

  lemma FirstPageLaidOut()
    ensures InteriorAt(ThreePages(), 1, INTERIOR_TABLE, [256], [3], 2)
  {
    var data := FirstPage();
    SmallBytes(1);
    SmallBytes(2);
    SmallBytes(3);
    assert ToBytes(256, 2) == [1, 0]
        by { assert ToBytes(1, 1) == ToBytes(0, 0) + [1] && ToBytes(256, 2) == ToBytes(1, 1) + [0]; }
    hide ToBytes;
    assert At(data, 100, [INTERIOR_TABLE]) by { BytesAt(data, 100, [INTERIOR_TABLE]); }
    assert At(data, 103, [0, 1]) by { BytesAt(data, 103, [0, 1]); }
    assert At(data, 108, [0, 0, 0, 2]) by { BytesAt(data, 108, [0, 0, 0, 2]); }
    assert At(data, 112, [1, 0]) by { BytesAt(data, 112, [1, 0]); }
    assert At(data, 256, [0, 0, 0, 3]) by { BytesAt(data, 256, [0, 0, 0, 3]); }
    hide FirstPage, At;
  }

  lemma HeaderTextRead()
    ensures IntAt(FirstPage(), 8, 4) == Ok(0x6F726D61)
  {
    BytesAt(FirstPage(), 8, [0x6F, 0x72, 0x6D, 0x61]);
    hide FirstPage;
  }

  /** On that page the right-most child is missed: its number is read from the text of the database header. */
  lemma {:induction false} RightMostMissed()
    ensures InteriorAt(ThreePages(), 1, INTERIOR_TABLE, [256], [3], 2)
    ensures Classify(ThreePages(), 1) == Ok(W.Interior([3, 0x6F726D61]))
  {
    FirstPageLaidOut();
    HeaderTextRead();
    assert [3] + [0x6F726D61] == [3, 0x6F726D61];
    hide InteriorAt, IntAt, FirstPage, Classify;
    FoundLast(ThreePages(), 1, [256], [3], 2, 0x6F726D61);
  }

  // The right-most child that is found.
  lemma FoundLast(pager: Pager, pageno: int, pointers: seq<nat>, children: seq<nat>, last: nat, found: int)
    requires PagerOk(pager) && InteriorAt(pager, pageno, INTERIOR_TABLE, pointers, children, last)
    requires ReadsPointers(pointers) && IntAt(PageData(pager, pageno), 8, 4) == Ok(found)
    ensures Classify(pager, pageno) == Ok(W.Interior(children + [found]))
  {
    HeaderRead(PageData(pager, pageno), pageno, INTERIOR_TABLE, pointers);
    ChildrenRead(PageData(pager, pageno), pointers, children);
    hide ParseHeader, HeaderAt, IntAt, IntsAt, At, ToBytes, Shorts, Classify, PagerOk;
    TableOf(pager, pageno, Shorts(pointers), found);
  }

  /** Whatever else is in such a file, every page that an interior table page points to ends up judged: it has the
      verdict of its own content, or is an overflow page marked as checked. */
  lemma {:induction false} ChildrenVisited(pager: Pager, f: W.File, pageno: int, pointers: seq<nat>,
      children: seq<nat>, last: nat, child: nat)
    requires PagerOk(pager) && FileOf(pager, f) && W.ChainsClear(f)
    requires InteriorAt(pager, pageno, INTERIOR_TABLE, pointers, children, last) && ReadsPointers(pointers)
    requires IsPagenoValid(pager, child) && (child in children || (child == last && pageno != 1))
    ensures W.Judged(f, W.ParseFirst(f, |f|), child - 1)
  {
    InteriorClassified(pager, pageno, pointers, children, last);
    assert Classify(pager, pageno - 1 + 1) == Ok(f[pageno - 1]);
    NeverCancelled(pager, f);
    hide Classify, InteriorAt, PagerOk, FileOf;
    var found := f[pageno - 1].children;
    assert child in found[..|children|] || child == found[|children|];
    assert child in found;
    W.FinalStatus(f, child);
  }

  /** Interior index pages. */

  // The words that are read as the cell pointers of n cells: those of the right-most child's number come first.
  function IndexWords(pointers: seq<nat>, last: nat): (words: seq<nat>)
    ensures |words| == |pointers|
  {
    ([last / 0x1_0000, last % 0x1_0000] + pointers)[..|pointers|]
  }

  lemma WordsOf(data: seq<Byte>, off: int, v: nat)
    requires At(data, off, ToBytes(v, 4))
    ensures At(data, off, ToBytes(v / 0x1_0000, 2)) && At(data, off + 2, ToBytes(v % 0x1_0000, 2))
  {
    hide ToBytes, At;
    var hi, mid, lo := Digits(v);
    WordBytes(hi, mid, lo);
    AtSplit(data, off, ToBytes(hi, 2), ToBytes(mid * 256 + lo, 2));
  }

  lemma Digits(v: nat) returns (hi: nat, mid: nat, lo: nat)
    ensures mid < 256 && lo < 256 && v == hi * 0x1_0000 + mid * 256 + lo && hi == v / 0x1_0000
        && mid * 256 + lo == v % 0x1_0000
  {
    hi, mid, lo := v / 0x1_0000, v % 0x1_0000 / 256, v % 0x1_0000 % 256;
  }

  lemma WordBytes(hi: nat, mid: nat, lo: nat)
    requires mid < 256 && lo < 256
    ensures ToBytes(hi * 0x1_0000 + mid * 256 + lo, 4) == ToBytes(hi, 2) + ToBytes(mid * 256 + lo, 2)
  {
    var v := hi * 0x1_0000 + mid * 256 + lo;
    assert v / 256 == hi * 256 + mid && v % 256 == lo;
    assert v / 256 / 256 == hi && v / 256 % 256 == mid;
    assert (mid * 256 + lo) / 256 == mid && (mid * 256 + lo) % 256 == lo;
    assert ToBytes(v, 4) == ToBytes(v / 256, 3) + [lo] && ToBytes(v / 256, 3) == ToBytes(hi, 2) + [mid];
    assert ToBytes(mid * 256 + lo, 2) == ToBytes(mid, 1) + [lo] && ToBytes(mid, 1) == ToBytes(mid / 256, 0) + [mid];
  }

  lemma IndexHeader(data: seq<Byte>, h: nat, pointers: seq<nat>, last: nat)
    requires HeaderAt(data, h, INTERIOR_INDEX, 12, pointers) && At(data, h + 8, ToBytes(last, 4)) && last < INT_LIMIT
    ensures HeaderAt(data, h, INTERIOR_INDEX, 8, IndexWords(pointers, last))
  {
    hide ToBytes, At;
    var words := IndexWords(pointers, last);
    WordsOf(data, h + 8, last);
    forall i | 0 <= i < |words| ensures words[i] < 0x1_0000 && At(data, h + 8 + 2 * i, ToBytes(words[i], 2)) {
      if i >= 2 { assert words[i] == pointers[i - 2] && h + 8 + 2 * i == h + 12 + 2 * (i - 2); }
    }
  }

  // An interior index page whose header has been read.
  lemma IndexOf(pager: Pager, pageno: int, pointers: seq<int>)
    requires PagerOk(pager) && IsPagenoValid(pager, pageno)
    requires ParseHeader(PageData(pager, pageno), pageno) == Ok(Page(INTERIOR_INDEX, pointers))
    ensures var c, ints := Classify(pager, pageno), IntsAt(PageData(pager, pageno), pointers, 4);
            (c.Ok? <==> ints.Ok?) && (c.Ok? ==> c.value == W.Interior(ints.value))
  {
    hide ParseHeader, IntsAt, PagerOk;
  }

  // What is found behind the first two words.
  lemma IndexChildren(data: seq<Byte>, pointers: seq<nat>, children: seq<nat>, last: nat)
    requires |pointers| == |children| && IntsAt(data, Shorts(IndexWords(pointers, last)), 4).Ok?
    requires forall i :: 0 <= i < |children| ==>
      pointers[i] < 0x1_0000 && children[i] < INT_LIMIT && At(data, pointers[i], ToBytes(children[i], 4))
    ensures var found := IntsAt(data, Shorts(IndexWords(pointers, last)), 4).value;
            |found| == |children| && forall i :: 2 <= i < |children| ==> found[i] == children[i - 2]
  {
    hide ToBytes, At, IntsAt, IntAt;
    var words := IndexWords(pointers, last);
    var found := IntsAt(data, Shorts(words), 4).value;
    IntsEach(data, Shorts(words), 4);
    forall i | 2 <= i < |children| ensures found[i] == children[i - 2] {
      assert words[i] == pointers[i - 2] && Shorts(words)[i] == Short(words[i]);
      ChildRead(data, pointers[i - 2], children[i - 2]);
      OutsideShort(data, words[i], 4);
    }
  }

  /** The header of an interior index page is read four bytes too early. Of n cells, the first two are looked for
      where the halves of the right-most child's number point, the others where the first n-2 pointers do: the
      children of the last two cells and the right-most child are not looked for. */
  lemma {:induction false} IndexClassified(pager: Pager, pageno: int, pointers: seq<nat>, children: seq<nat>, last: nat)
    requires PagerOk(pager) && InteriorAt(pager, pageno, INTERIOR_INDEX, pointers, children, last)
    requires 0 < |pointers| < 0x8000
    ensures var c, ints := Classify(pager, pageno),
        IntsAt(PageData(pager, pageno), Shorts(IndexWords(pointers, last)), 4);
            && (c.Ok? <==> ints.Ok?)
            && (c.Ok? ==> c.value == W.Interior(ints.value) && |ints.value| == |children|
                          && forall i :: 2 <= i < |children| ==> ints.value[i] == children[i - 2])
  {
    assert forall i :: 0 <= i < |pointers| ==> pointers[i] < 0x1_0000;
    hide ToBytes, At, HeaderAt, ParseHeader, IntsAt, Shorts, IndexWords, PagerOk, Classify, PageData;
    var data, words := PageData(pager, pageno), IndexWords(pointers, last);
    IndexHeader(data, TreeHeader(pageno), pointers, last);
    HeaderRead(data, pageno, INTERIOR_INDEX, words);
    IndexOf(pager, pageno, Shorts(words));
    if IntsAt(data, Shorts(words), 4).Ok? { IndexChildren(data, pointers, children, last); }
  }

  // What is read at a word is at that offset.
  lemma OutsideShort(data: seq<Byte>, v: nat, n: nat)
    requires IntAt(data, Short(v), n).Ok? && v < 0x1_0000
    ensures Short(v) == v
  {
  }

  lemma {:induction false} IntsEach(data: seq<Byte>, offs: seq<int>, n: nat)
    requires IntsAt(data, offs, n).Ok?
    ensures var vs := IntsAt(data, offs, n).value;
            |vs| == |offs| && forall i :: 0 <= i < |offs| ==> IntAt(data, offs[i], n) == Ok(vs[i])
  {
    hide IntAt;
    if offs != [] {
      IntsEach(data, offs[1..], n);
      var vs := IntsAt(data, offs, n).value;
      forall i | 0 <= i < |offs| ensures IntAt(data, offs[i], n) == Ok(vs[i]) {
        if i > 0 { assert offs[i] == offs[1..][i - 1]; }
      }
    }
  }
}
