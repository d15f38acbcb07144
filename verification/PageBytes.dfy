/** Database files as sequences of pages, addressed by file offset.

    Page n of a file with page size sz holds the bytes at offsets
    (n-1)*sz .. n*sz-1.  PENDING_BYTE is the offset of the locking page, which
    is never used for data. */
module PageBytes {
  import opened Arithmetic

  const PENDING_BYTE := 0x4000_0000

  type Page = seq<int>

  // The page sizes SQLite supports: the powers of two from 512 to 65536.
  predicate IsPageSize(sz: nat) {
    sz == 512 || sz == 1024 || sz == 2048 || sz == 4096 ||
    sz == 8192 || sz == 16384 || sz == 32768 || sz == 65536
  }

  predicate Sized(pages: seq<Page>, sz: nat) {
    forall i :: 0 <= i < |pages| ==> |pages[i]| == sz
  }

  // PENDING_BYTE_PAGE
  function PendingPage(sz: nat): nat
    requires sz > 0
  {
    PENDING_BYTE / sz + 1
  }

  // The page that holds a file offset.
  function PageOf(off: nat, sz: nat): nat
    requires sz > 0
  {
    off / sz + 1
  }

  predicate InPending(off: nat, sz: nat)
    requires sz > 0
  {
    PageOf(off, sz) == PendingPage(sz)
  }

  // The byte at a file offset; pages that do not exist read as zero.
  function ByteAt(pages: seq<Page>, sz: nat, off: nat): int
    requires sz > 0 && Sized(pages, sz)
  {
    PageByte(pages, sz, off / sz, off % sz)
  }

  function Zeros(n: nat): (z: seq<int>)
    ensures |z| == n
  {
    seq(n, _ => 0)
  }

  // Extend the file to at least n pages.
  function Pad(pages: seq<Page>, sz: nat, n: nat): (r: seq<Page>)
    requires Sized(pages, sz)
    ensures Sized(r, sz) && |r| == (if |pages| < n then n else |pages|) && pages <= r
  {
    if |pages| < n then pages + seq(n - |pages|, _ => Zeros(sz)) else pages
  }

  function Splice(p: seq<int>, at: nat, data: seq<int>): (r: seq<int>)
    requires at + |data| <= |p|
    ensures |r| == |p|
    ensures forall k :: 0 <= k < |p| ==> r[k] == if at <= k < at + |data| then data[k - at] else p[k]
  {
    p[..at] + data + p[at + |data|..]
  }

  // Write data into page n at offset at of that page.
  function PutBytes(pages: seq<Page>, sz: nat, n: nat, at: nat, data: seq<int>): (r: seq<Page>)
    requires Sized(pages, sz) && n > 0 && at + |data| <= sz
    ensures Sized(r, sz) && |r| == (if |pages| < n then n else |pages|)
  {
    var q := Pad(pages, sz, n);
    q[n - 1 := Splice(q[n - 1], at, data)]
  }

  lemma DivMod(off: nat, sz: nat)
    requires sz > 0
    ensures off == off / sz * sz + off % sz && off % sz < sz
  {
  }

  // A file offset determines its page and its place in the page.
  lemma Locate(off: nat, sz: nat, q: nat, m: nat)
    requires sz > 0 && off == q * sz + m && m < sz
    ensures off / sz == q && off % sz == m
  {
    var q', m' := off / sz, off % sz;
    DivMod(off, sz);
    if q' < q { MulMonotone(q' + 1, q, sz); }
    if q < q' { MulMonotone(q + 1, q', sz); }
  }

  // Byte m of page q (counting pages from 0), or zero.
  function PageByte(pages: seq<Page>, sz: nat, q: nat, m: nat): int
    requires Sized(pages, sz) && m < sz
  {
    if q < |pages| then pages[q][m] else 0
  }

  lemma PutOnPage(pages: seq<Page>, sz: nat, n: nat, at: nat, data: seq<int>, q: nat, m: nat)
    requires Sized(pages, sz) && n > 0 && at + |data| <= sz && m < sz
    ensures PageByte(PutBytes(pages, sz, n, at, data), sz, q, m)
         == if q == n - 1 && at <= m < at + |data| then data[m - at] else PageByte(pages, sz, q, m)
  {
  }

  // Whether an offset lies in the range at .. at+len-1 of page n.
  lemma RangeOnPage(off: nat, sz: nat, n: nat, at: nat, len: nat)
    requires sz > 0 && n > 0 && at + len <= sz
    ensures var start := (n - 1) * sz + at;
            && (start <= off < start + len <==> off / sz == n - 1 && at <= off % sz < at + len)
            && (off / sz == n - 1 ==> off - start == off % sz - at)
  {
    var q := off / sz;
    DivMod(off, sz);
    if q < n - 1 { MulMonotone(q + 1, n - 1, sz); }
    if q > n - 1 { MulMonotone(n, q, sz); }
  }

  // Writing into a page changes exactly the bytes at the corresponding file offsets.
  lemma {:induction false} PutByte(pages: seq<Page>, sz: nat, n: nat, at: nat, data: seq<int>, off: nat)
    requires sz > 0 && Sized(pages, sz) && n > 0 && at + |data| <= sz
    ensures var start, r := (n - 1) * sz + at, PutBytes(pages, sz, n, at, data);
            ByteAt(r, sz, off) == (if start <= off < start + |data| then data[off - start] else ByteAt(pages, sz, off))
  {
    RangeOnPage(off, sz, n, at, |data|);
    DivMod(off, sz);
    PutOnPage(pages, sz, n, at, data, off / sz, off % sz);
  }

  lemma MulSplit(x: nat, b: nat, y: nat, c: nat)
    ensures (x * b + y) * c == x * (b * c) + y * c
  {
  }

  lemma ChunkCore(a: nat, b: nat, c: nat)
    requires b > 0 && c > 0
    ensures b * c > 0 && a * c % (b * c) == a % b * c && a % b * c + c <= b * c
    ensures a * c / (b * c) == a / b
  {
    DivMod(a, b);
    MulSplit(a / b, b, a % b, c);
    MulMonotone(a % b + 1, b, c);
    Locate(a * c, b * c, a / b, a % b * c);
  }

  // An aligned chunk of c bytes lies within one page of any larger page size.
  lemma {:induction false} ChunkFits(off: nat, sz: nat, c: nat)
    requires c > 0 && sz > 0 && off % c == 0 && sz % c == 0
    ensures off % sz + c <= sz
  {
    DivMod(off, c);
    DivMod(sz, c);
    ChunkCore(off / c, sz / c, c);
  }

  lemma SamePage(off: nat, sz: nat, k: nat)
    requires sz > 0 && off % sz + k < sz
    ensures (off + k) / sz == off / sz && (off + k) % sz == off % sz + k
  {
    DivMod(off, sz);
    Locate(off + k, sz, off / sz, off % sz + k);
  }

  // All bytes of such a chunk are on the page of its first byte.
  lemma ChunkPage(off: nat, sz: nat, c: nat, k: nat)
    requires c > 0 && sz > 0 && off % c == 0 && sz % c == 0 && k < c
    ensures (off + k) / sz == off / sz && (off + k) % sz == off % sz + k
  {
    ChunkFits(off, sz, c);
    SamePage(off, sz, k);
  }

  /** The image of a whole file. */
  function Flatten(pages: seq<Page>, sz: nat): (f: seq<int>)
    requires sz > 0 && Sized(pages, sz)
    ensures |f| == |pages| * sz
    ensures forall off :: 0 <= off < |f| ==> f[off] == ByteAt(pages, sz, off)
  {
    seq(|pages| * sz, off requires off >= 0 => ByteAt(pages, sz, off))
  }

  // sqlite3OsWrite: a write past the end leaves a hole of zeros.
  function OsWrite(f: seq<int>, data: seq<int>, off: nat): (r: seq<int>)
    ensures |r| == (if |f| < off + |data| then off + |data| else |f|)
  {
    var g := if |f| < off + |data| then f + Zeros(off + |data| - |f|) else f;
    Splice(g, off, data)
  }

  lemma OsWriteByte(f: seq<int>, data: seq<int>, off: nat, k: nat)
    requires k < |OsWrite(f, data, off)|
    ensures OsWrite(f, data, off)[k] == if off <= k < off + |data| then data[k - off] else if k < |f| then f[k] else 0
  {
  }

  // Big-endian 32 bits (sqlite3Put4byte).
  function Put4(v: nat): (r: seq<int>)
    ensures |r| == 4
  {
    [v / 0x1000000 % 256, v / 0x10000 % 256, v / 0x100 % 256, v % 256]
  }

  // The most significant byte comes first.
  lemma {:induction false} Put4Value(v: nat)
    requires v < 0x1_0000_0000
    ensures var b := Put4(v);
            && (forall k :: 0 <= k < 4 ==> 0 <= b[k] < 256)
            && b[0] * 0x1000000 + b[1] * 0x10000 + b[2] * 0x100 + b[3] == v
  {
    var x, y := v / 0x100, v / 0x10000;
    assert y == x / 0x100 && v / 0x1000000 == y / 0x100;
  }
}
