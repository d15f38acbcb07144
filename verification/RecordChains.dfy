/** Following overflow chains: when the loop over a chain ends, and which pages
    it runs over while the cells of a leaf are parsed. */
module RecordChains {
  import opened RepairNumbers
  import opened RecordFormat
  import opened RecordPages
  import opened Wrappers

  // The chain from page number first on, if it ends within fuel pages.
  function Chase(pager: Pager, first: int, fuel: nat): (r: Option<seq<nat>>)
    requires PagerOk(pager)
    ensures r.Some? ==> Linked(pager, first, r.value)
    decreases fuel
  {
    if !IsPagenoValid(pager, first) then Some([])
    else if fuel == 0 then None
    else
      match Chase(pager, NextPage(pager, first), fuel - 1)
      case Some(rest) => Some([first] + rest)
      case None => None
  }

  lemma {:induction false} LinkedUnique(pager: Pager, first: int, x: seq<nat>, y: seq<nat>)
    requires PagerOk(pager) && Linked(pager, first, x) && Linked(pager, first, y)
    ensures x == y
    decreases |x|
  {
    hide NextPage, PagerOk;
    if x != [] && y != [] {
      LinkedUnique(pager, NextPage(pager, first), x[1..], y[1..]);
      assert x == [x[0]] + x[1..] && y == [y[0]] + y[1..];
    }
  }

  lemma {:induction false} ChaseFinds(pager: Pager, first: int, chain: seq<nat>, fuel: nat)
    requires PagerOk(pager) && Linked(pager, first, chain) && |chain| <= fuel
    ensures Chase(pager, first, fuel) == Some(chain)
    decreases fuel
  {
    hide NextPage, PagerOk;
    if chain != [] {
      ChaseFinds(pager, NextPage(pager, first), chain[1..], fuel - 1);
      assert chain == [chain[0]] + chain[1..];
    }
  }

  lemma {:induction false} LinkedFrom(pager: Pager, first: int, chain: seq<nat>, i: nat)
    requires PagerOk(pager) && Linked(pager, first, chain) && i < |chain|
    ensures Linked(pager, chain[i], chain[i..]) && IsPagenoValid(pager, chain[i])
    decreases |chain|
  {
    hide NextPage, PagerOk;
    if i > 0 {
      LinkedFrom(pager, NextPage(pager, first), chain[1..], i - 1);
      assert chain[1..][i - 1..] == chain[i..];
    } else {
      assert chain[0..] == chain;
    }
  }

  // A chain that ends comes to no page twice.
  lemma LinkedDistinct(pager: Pager, first: int, chain: seq<nat>, i: nat, j: nat)
    requires PagerOk(pager) && Linked(pager, first, chain) && i < j < |chain|
    ensures chain[i] != chain[j]
  {
    hide Linked, PagerOk;
    LinkedFrom(pager, first, chain, i);
    LinkedFrom(pager, first, chain, j);
    if chain[i] == chain[j] { LinkedUnique(pager, chain[i], chain[i..], chain[j..]); }
  }

  function PagesUpTo(n: nat): (s: set<nat>)
    ensures |s| == n && forall p :: p in s <==> 1 <= p <= n
  {
    if n == 0 then {} else PagesUpTo(n - 1) + {n}
  }

  lemma {:induction false} DistinctFit(x: seq<nat>, s: set<nat>)
    requires (forall i :: 0 <= i < |x| ==> x[i] in s) && forall i, j :: 0 <= i < j < |x| ==> x[i] != x[j]
    ensures |x| <= |s|
  {
    if x != [] {
      var k := |x| - 1;
      DistinctFit(x[..k], s - {x[k]});
    }
  }

  lemma LinkedShort(pager: Pager, first: int, chain: seq<nat>)
    requires PagerOk(pager) && Linked(pager, first, chain)
    ensures |chain| <= |pager.pages|
  {
    hide Linked, PagerOk;
    forall i | 0 <= i < |chain| ensures chain[i] in PagesUpTo(|pager.pages|) { LinkedFrom(pager, first, chain, i); }
    forall i, j | 0 <= i < j < |chain| ensures chain[i] != chain[j] { LinkedDistinct(pager, first, chain, i, j); }
    DistinctFit(chain, PagesUpTo(|pager.pages|));
  }

  // The page number the overflow loop has after n rounds, if it gets so far.
  function Nth(pager: Pager, first: int, n: nat): int
    requires PagerOk(pager)
    decreases n
  {
    if n == 0 || !IsPagenoValid(pager, first) then first else Nth(pager, NextPage(pager, first), n - 1)
  }

  lemma {:induction false} NthChain(pager: Pager, first: int, n: nat) returns (chain: seq<nat>)
    requires PagerOk(pager) && !IsPagenoValid(pager, Nth(pager, first, n))
    ensures Linked(pager, first, chain)
    decreases n
  {
    hide NextPage, PagerOk;
    if !IsPagenoValid(pager, first) {
      chain := [];
    } else {
      var rest := NthChain(pager, NextPage(pager, first), n - 1);
      chain := [first] + rest;
      assert chain[1..] == rest;
    }
  }

  /** The overflow loop ends, along a chain, if and only if it ends within as many rounds as there are pages;
      otherwise it runs in a circle for ever. */
  lemma {:induction false} LoopEnds(pager: Pager, first: int)
    requires PagerOk(pager)
    ensures (exists chain :: Linked(pager, first, chain)) <==> Chase(pager, first, |pager.pages|).Some?
    ensures Chase(pager, first, |pager.pages|).None? ==> forall n: nat :: IsPagenoValid(pager, Nth(pager, first, n))
  {
    hide Linked, Chase, Nth, PagerOk;
    if chain :| Linked(pager, first, chain) {
      LinkedShort(pager, first, chain);
      ChaseFinds(pager, first, chain, |pager.pages|);
    }
    forall n: nat ensures Chase(pager, first, |pager.pages|).None? ==> IsPagenoValid(pager, Nth(pager, first, n)) {
      if !IsPagenoValid(pager, Nth(pager, first, n)) { var chain := NthChain(pager, first, n); }
    }
  }

  /** The chains of the cells of a leaf. */

  // The chain that sqliterkBtreeParsePayload runs over, if its loop is reached and ends.
  function PayloadChain(pager: Pager, page: seq<Byte>, off: int, size: int): (r: Option<seq<nat>>)
    requires PagerOk(pager) && |page| == pager.pagesize
    ensures r.Some? ==> Follows(pager, page, off, size, r.value)
  {
    if size <= 0 then Some([])
    else
      var local := LocalSize(pager.usableSize, size);
      if local < size && off >= 0 && off + local + 4 <= pager.pagesize
      then Chase(pager, PagenoAt(page, off + local), |pager.pages|) else Some([])
  }

  function CellChain(pager: Pager, page: seq<Byte>, off: int): (r: Option<seq<nat>>)
    requires PagerOk(pager) && |page| == pager.pagesize
    ensures r.Some? ==> CellFollows(pager, page, off, r.value)
  {
    match ParseVarint64(page, off)
    case Ok(size) =>
      (match ParseVarint64(page, off + size.length)
       case Ok(rowid) => PayloadChain(pager, page, off + size.length + rowid.length, ToInt32(size.value))
       case _ => Some([]))
    case _ => Some([])
  }

  function CodeOf(r: Outcome<Row>): Code {
    match r
    case Ok(_) => OkCode
    case Damaged => DamagedCode
    case Misuse => MisuseCode
    case Undefined => UndefinedCode
  }

  // The cells of a leaf: how their parsing ends, and the overflow pages it runs over; None if a chain is a circle.
  function ParseLeaf(pager: Pager, page: seq<Byte>, pointers: seq<int>): Option<(Code, seq<nat>)>
    requires PagerOk(pager) && |page| == pager.pagesize
    decreases |pointers|
  {
    if pointers == [] then Some((OkCode, []))
    else
      match CellChain(pager, page, pointers[0])
      case None => None
      case Some(chain) =>
        var code := CodeOf(ParseCell(pager, page, pointers[0], chain));
        if code != OkCode then Some((code, chain))
        else
          match ParseLeaf(pager, page, pointers[1..])
          case None => None
          case Some(rest) => Some((rest.0, chain + rest.1))
  }

  // The overflow pages of all cells.
  function OverflowPages(cells: seq<Cell>): seq<nat> {
    if cells == [] then [] else cells[0].chain + OverflowPages(cells[1..])
  }

  lemma PayloadChainFound(pager: Pager, page: seq<Byte>, off: int, p: seq<Byte>, chain: seq<nat>)
    requires PagerOk(pager) && |page| == pager.pagesize && |p| > 0 && PayloadAt(pager, page, off, p, chain)
    ensures PayloadChain(pager, page, off, |p|) == Some(chain)
  {
    hide LocalSize, Spilled, Linked, PagenoAt, ToBytes, ReadPayload, Chase;
    PayloadRoundTrip(pager, page, off, p, chain);
    var local := LocalSize(pager.usableSize, |p|);
    if local < |p| {
      var first := PagenoAt(page, off + local);
      assert Linked(pager, first, chain);
      LinkedShort(pager, first, chain);
      ChaseFinds(pager, first, chain, |pager.pages|);
    } else {
      assert p[local..] == [];
      NoChain(pager, chain, p[local..]);
    }
  }

  lemma CellChainFound(pager: Pager, page: seq<Byte>, off: int, cell: Cell)
    requires PagerOk(pager) && |page| == pager.pagesize && CellAt(pager, page, off, cell)
    ensures CellChain(pager, page, off) == Some(cell.chain)
  {
    hide IsVarint, IsRecord, At, PayloadAt, PagerOk, ParseVarint64, Groups, ToInt32, PayloadChain;
    RecordNonempty(cell.payload, cell.header, cell.fields);
    VarintRead(page, off, cell.size, |cell.payload|);
    VarintRead(page, off + |cell.size|, cell.rowid, Groups(cell.rowid));
    Int32Small(|cell.payload|);
    PayloadChainFound(pager, page, off + |cell.size| + |cell.rowid|, cell.payload, cell.chain);
  }

  // The cells that come before a pointer outside the page are parsed; there the page is left.
  lemma {:induction false} LeafParsed(pager: Pager, page: seq<Byte>, pointers: seq<int>, places: seq<int>,
      cells: seq<Cell>)
    requires PagerOk(pager) && |page| == pager.pagesize && CellsAt(pager, page, places, cells) && |pointers| == |places|
    requires forall i :: 0 <= i < |pointers| ==> pointers[i] == places[i] || pointers[i] < 0
    ensures var r := ParseLeaf(pager, page, pointers);
            if forall i :: 0 <= i < |pointers| ==> pointers[i] >= 0 then r == Some((OkCode, OverflowPages(cells)))
            else r.Some? && r.value.0 == UndefinedCode
    decreases |pointers|
  {
    hide CellAt, CellChain, ParseCell, PagerOk, ParseVarint64;
    if pointers != [] {
      if pointers[0] < 0 {
        OutsideCell(pager, page, pointers[0]);
      } else {
        CellRoundTrip(pager, page, places[0], cells[0]);
        CellChainFound(pager, page, places[0], cells[0]);
        LeafParsed(pager, page, pointers[1..], places[1..], cells[1..]);
        assert forall i :: 0 < i < |pointers| ==> pointers[i] == pointers[1..][i - 1];
      }
    }
  }

  lemma OutsideCell(pager: Pager, page: seq<Byte>, off: int)
    requires PagerOk(pager) && |page| == pager.pagesize && off < 0
    ensures CellChain(pager, page, off) == Some([]) && ParseCell(pager, page, off, []) == Undefined
  {
    assert ParseVarint64(page, off) == Undefined;
  }
}
