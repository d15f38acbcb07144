/** The online backup as a state machine over values: one function per C
    function, then one step for every event that can happen while a backup is
    in progress.  Page reads, page writes and the calls that finish a backup
    may fail, but (as the C code asserts) only with fatal codes. */
module Backup {
  import opened Arithmetic
  import opened PageBytes

  const OK := 0
  const BUSY := 5
  const LOCKED := 6
  const NOMEM := 7
  const READONLY := 8
  const DONE := 101
  const IOERR_NOMEM := 3082
  const U32 := 0x1_0000_0000

  predicate IsFatalError(rc: int) {
    rc != OK && rc != BUSY && rc != LOCKED
  }

  // What stays fixed during one backup.
  datatype Config = Config(srcSz: nat, destSz: nat, destIsMemdb: bool, wal: bool, ownDestDb: bool)

  predicate ValidConfig(cfg: Config) {
    IsPageSize(cfg.srcSz) && IsPageSize(cfg.destSz)
  }

  lemma SizesPositive(cfg: Config)
    requires ValidConfig(cfg)
    ensures cfg.srcSz > 43 && cfg.destSz > 43
  {
  }

  // The larger page size is a multiple of the smaller, and PENDING_BYTE of both.
  function CopySize(cfg: Config): (c: nat)
    requires ValidConfig(cfg)
    ensures c > 43 && cfg.srcSz % c == 0 && cfg.destSz % c == 0 && PENDING_BYTE % c == 0
    ensures (c == cfg.srcSz && c < cfg.destSz) || (c == cfg.destSz && c <= cfg.srcSz)
  {
    if cfg.srcSz < cfg.destSz then cfg.srcSz else cfg.destSz
  }

  /** backupOnePage */

  // One iteration of its loop: copy the chunk at file offset iOff.
  function CopyChunk(cfg: Config, dest: seq<Page>, nSrc: nat, data: Page, bUpdate: bool, iOff: nat): (r: seq<Page>)
    requires ValidConfig(cfg) && Sized(dest, cfg.destSz) && |data| == cfg.srcSz && iOff % CopySize(cfg) == 0
    ensures Sized(r, cfg.destSz)
        && |r| == (if |dest| < PageOf(iOff, cfg.destSz) then PageOf(iOff, cfg.destSz) else |dest|)
  {
    var c := CopySize(cfg);
    ChunkFits(iOff, cfg.srcSz, c);
    ChunkFits(iOff, cfg.destSz, c);
    var iDest, at := PageOf(iOff, cfg.destSz), iOff % cfg.destSz;
    var r := PutBytes(dest, cfg.destSz, iDest, at, data[iOff % cfg.srcSz..iOff % cfg.srcSz + c]);
    if iOff == 0 && !bUpdate then PutBytes(r, cfg.destSz, iDest, at + 28, Put4(nSrc)) else r
  }

  // The loop from iOff on; faults gives the destination pages that cannot be read or written.
  function CopyLoop(cfg: Config, dest: seq<Page>, nSrc: nat, data: Page, bUpdate: bool, faults: map<nat, int>, rc: int,
      iOff: nat, iEnd: nat): (r: (int, seq<Page>))
    requires ValidConfig(cfg) && Sized(dest, cfg.destSz) && |data| == cfg.srcSz && iOff % CopySize(cfg) == 0
    ensures Sized(r.1, cfg.destSz) && |dest| <= |r.1|
    decreases iEnd - iOff
  {
    if rc != OK || iOff >= iEnd then (rc, dest)
    else
      var iDest := PageOf(iOff, cfg.destSz);
      StepAligned(iOff, cfg.destSz, CopySize(cfg));
      if iDest == PendingPage(cfg.destSz)
          then CopyLoop(cfg, dest, nSrc, data, bUpdate, faults, rc, iOff + cfg.destSz, iEnd)
      else if iDest in faults
          then CopyLoop(cfg, dest, nSrc, data, bUpdate, faults, faults[iDest], iOff + cfg.destSz, iEnd)
      else CopyLoop(cfg, CopyChunk(cfg, dest, nSrc, data, bUpdate, iOff), nSrc, data, bUpdate, faults, rc,
          iOff + cfg.destSz, iEnd)
  }

  lemma StepAligned(a: nat, b: nat, c: nat)
    requires c > 0 && a % c == 0 && b % c == 0
    ensures (a + b) % c == 0
  {
    DivMod(a, c);
    DivMod(b, c);
    Locate(a + b, c, a / c + b / c, 0);
  }

  lemma MultipleAligned(n: nat, b: nat, c: nat)
    requires c > 0 && b % c == 0
    ensures n * b % c == 0
  {
    DivMod(b, c);
    MulAssoc(n, b / c, c);
    Locate(n * b, c, n * (b / c), 0);
  }

  lemma MulAssoc(a: nat, b: nat, c: nat)
    ensures a * (b * c) == a * b * c
  {
  }

  function BackupOnePage(cfg: Config, dest: seq<Page>, nSrc: nat, iSrcPg: nat, data: Page, bUpdate: bool,
      faults: map<nat, int>): (r: (int, seq<Page>))
    requires ValidConfig(cfg) && Sized(dest, cfg.destSz) && |data| == cfg.srcSz && iSrcPg > 0
    ensures Sized(r.1, cfg.destSz) && |dest| <= |r.1|
  {
    var rc := if cfg.srcSz != cfg.destSz && cfg.destIsMemdb then READONLY else OK;
    MultipleAligned(iSrcPg - 1, cfg.srcSz, CopySize(cfg));
    CopyLoop(cfg, dest, nSrc, data, bUpdate, faults, rc, (iSrcPg - 1) * cfg.srcSz, iSrcPg * cfg.srcSz)
  }

  // Header bytes a finished backup may change: the WAL file format, the page count and the schema cookie.
  predicate Header(cfg: Config, off: nat) {
    28 <= off < 32 || 40 <= off < 44 || (cfg.wal && 18 <= off < 20)
  }

  // Source byte off has reached the destination, or is one that backupOnePage does not copy.
  predicate ByteOk(cfg: Config, src: seq<Page>, dest: seq<Page>, off: nat)
    requires ValidConfig(cfg) && Sized(src, cfg.srcSz) && Sized(dest, cfg.destSz)
  {
    || InPending(off, cfg.srcSz)
    || InPending(off, cfg.destSz)
    || (off / cfg.destSz < |dest| && (Header(cfg, off) || ByteAt(dest, cfg.destSz, off) == ByteAt(src, cfg.srcSz, off)))
  }

  // The byte to be put at file offset off: that of the page, whose first byte is at start, or of the new page count.
  function NewByte(nSrc: nat, data: Page, bUpdate: bool, start: nat, off: nat): int
    requires 0 <= off - start < |data|
  {
    if 28 <= off < 32 && !bUpdate then Put4(nSrc)[off - 28] else data[off - start]
  }

  /** What the loop does to every byte. */

  // A chunk that reaches into the header is the first.
  lemma HeaderChunk(iOff: nat, c: nat, off: nat)
    requires c > 43 && iOff % c == 0 && iOff <= off < 32
    ensures iOff == 0
  {
    DivMod(iOff, c);
    if iOff / c > 0 { MulMonotone(1, iOff / c, c); }
  }

  lemma ChunkByte(cfg: Config, dest: seq<Page>, nSrc: nat, data: Page, bUpdate: bool, iOff: nat, off: nat)
    requires ValidConfig(cfg) && Sized(dest, cfg.destSz) && |data| == cfg.srcSz && iOff % CopySize(cfg) == 0
    ensures var c, r := CopySize(cfg), CopyChunk(cfg, dest, nSrc, data, bUpdate, iOff);
            && (!(iOff <= off < iOff + c) ==> ByteAt(r, cfg.destSz, off) == ByteAt(dest, cfg.destSz, off))
            && (iOff <= off < iOff + c ==>
                  && 0 <= iOff % cfg.srcSz + off - iOff < |data|
                  && ByteAt(r, cfg.destSz, off) == if iOff == 0 && 28 <= off < 32 && !bUpdate then Put4(nSrc)[off - 28]
                                                   else data[iOff % cfg.srcSz + off - iOff])
  {
    hide IsPageSize, PutBytes, ByteAt, Put4;
    var c := CopySize(cfg);
    ChunkFits(iOff, cfg.srcSz, c);
    ChunkFits(iOff, cfg.destSz, c);
    var iDest, at := PageOf(iOff, cfg.destSz), iOff % cfg.destSz;
    var chunk := data[iOff % cfg.srcSz..iOff % cfg.srcSz + c];
    DivMod(iOff, cfg.destSz);
    PutByte(dest, cfg.destSz, iDest, at, chunk, off);
    var r := PutBytes(dest, cfg.destSz, iDest, at, chunk);
    PutByte(r, cfg.destSz, iDest, at + 28, Put4(nSrc), off);
  }

  // A fatal code other than DONE.
  predicate IsFault(rc: int) {
    IsFatalError(rc) && rc != DONE
  }

  predicate FaultsOk(faults: map<nat, int>) {
    forall n :: n in faults ==> IsFault(faults[n])
  }

  // iOff is a point the loop over source page iSrcPg passes through.
  predicate LoopAt(cfg: Config, iSrcPg: nat, iOff: nat)
    requires ValidConfig(cfg)
  {
    var c, iEnd := CopySize(cfg), iSrcPg * cfg.srcSz;
    && iSrcPg > 0 && (iSrcPg - 1) * cfg.srcSz <= iOff && iOff % c == 0
    && (iOff < iEnd ==> iOff + c <= iEnd && (c == cfg.destSz || iOff + c == iEnd))
  }

  lemma LoopStart(cfg: Config, iSrcPg: nat)
    requires ValidConfig(cfg) && iSrcPg > 0
    ensures LoopAt(cfg, iSrcPg, (iSrcPg - 1) * cfg.srcSz)
  {
    MultipleAligned(iSrcPg - 1, cfg.srcSz, CopySize(cfg));
    assert iSrcPg * cfg.srcSz == (iSrcPg - 1) * cfg.srcSz + cfg.srcSz;
  }

  lemma LoopNext(cfg: Config, iSrcPg: nat, iOff: nat)
    requires ValidConfig(cfg) && LoopAt(cfg, iSrcPg, iOff) && iOff < iSrcPg * cfg.srcSz
    ensures LoopAt(cfg, iSrcPg, iOff + cfg.destSz)
  {
    hide IsPageSize;
    var c, iEnd := CopySize(cfg), iSrcPg * cfg.srcSz;
    StepAligned(iOff, cfg.destSz, c);
    MultipleAligned(iSrcPg, cfg.srcSz, c);
    if c == cfg.destSz && iOff + c < iEnd { MultiplesApart(iOff + c, iEnd, c); }
  }

  lemma MultiplesApart(a: nat, b: nat, c: nat)
    requires c > 0 && a % c == 0 && b % c == 0 && a < b
    ensures a + c <= b
  {
    DivMod(a, c);
    DivMod(b, c);
    if b / c <= a / c { MulMonotone(b / c, a / c, c); }
    MulMonotone(a / c + 1, b / c, c);
  }

  // What one chunk does to its own bytes.
  lemma ChunkDone(cfg: Config, dest: seq<Page>, nSrc: nat, data: Page, bUpdate: bool, iSrcPg: nat, iOff: nat, off: nat)
    requires ValidConfig(cfg) && Sized(dest, cfg.destSz) && |data| == cfg.srcSz
    requires LoopAt(cfg, iSrcPg, iOff) && iOff < iSrcPg * cfg.srcSz && iOff <= off < iOff + CopySize(cfg)
    ensures PageOf(off, cfg.destSz) == PageOf(iOff, cfg.destSz)
    ensures var r := CopyChunk(cfg, dest, nSrc, data, bUpdate, iOff);
            && off / cfg.destSz < |r| && 0 <= off - (iSrcPg - 1) * cfg.srcSz < |data|
            && ByteAt(r, cfg.destSz, off) == NewByte(nSrc, data, bUpdate, (iSrcPg - 1) * cfg.srcSz, off)
  {
    hide IsPageSize, ByteAt, CopyChunk, Put4;
    var c := CopySize(cfg);
    ChunkPage(iOff, cfg.destSz, c, off - iOff);
    assert iSrcPg * cfg.srcSz == (iSrcPg - 1) * cfg.srcSz + cfg.srcSz;
    Locate(iOff, cfg.srcSz, iSrcPg - 1, iOff - (iSrcPg - 1) * cfg.srcSz);
    ChunkByte(cfg, dest, nSrc, data, bUpdate, iOff, off);
    if off < 32 { HeaderChunk(iOff, c, off); }
  }

  lemma {:induction false} LoopByte(cfg: Config, dest: seq<Page>, nSrc: nat, data: Page, bUpdate: bool,
      faults: map<nat, int>, rc: int, iSrcPg: nat, iOff: nat, off: nat)
    requires ValidConfig(cfg) && Sized(dest, cfg.destSz) && |data| == cfg.srcSz && FaultsOk(faults)
    requires LoopAt(cfg, iSrcPg, iOff)
    ensures var r, iEnd := CopyLoop(cfg, dest, nSrc, data, bUpdate, faults, rc, iOff, iSrcPg * cfg.srcSz),
        iSrcPg * cfg.srcSz;
            && (!(iOff <= off < iEnd) ==> ByteAt(r.1, cfg.destSz, off) == ByteAt(dest, cfg.destSz, off))
            && (r.0 == OK && iOff <= off < iEnd && !InPending(off, cfg.destSz) ==>
                  && off / cfg.destSz < |r.1| && 0 <= off - (iSrcPg - 1) * cfg.srcSz < |data|
                  && ByteAt(r.1, cfg.destSz, off) == NewByte(nSrc, data, bUpdate, (iSrcPg - 1) * cfg.srcSz, off))
    decreases iSrcPg * cfg.srcSz - iOff
  {
    hide IsPageSize, ByteAt, CopyChunk;
    var c, iEnd, next := CopySize(cfg), iSrcPg * cfg.srcSz, iOff + cfg.destSz;
    if rc == OK && iOff < iEnd {
      var iDest := PageOf(iOff, cfg.destSz);
      LoopNext(cfg, iSrcPg, iOff);
      var (rc', dest') :=
        if iDest == PendingPage(cfg.destSz) then (rc, dest)
        else if iDest in faults then (faults[iDest], dest)
        else (rc, CopyChunk(cfg, dest, nSrc, data, bUpdate, iOff));
      LoopByte(cfg, dest', nSrc, data, bUpdate, faults, rc', iSrcPg, next, off);
      if iOff <= off < iOff + c {
        ChunkDone(cfg, dest, nSrc, data, bUpdate, iSrcPg, iOff, off);
      } else {
        ChunkByte(cfg, dest, nSrc, data, bUpdate, iOff, off);
      }
    }
  }

  /** sqlite3_backup_step */

  datatype World = World(
    iNext: nat, rc: int, bDestLocked: bool, iDestSchema: nat, isAttached: bool,
    nRemaining: nat, nPagecount: nat,
    src: seq<Page>, dest: seq<Page>, file: seq<int>)

  // What the surroundings answer during one call of sqlite3_backup_step.
  datatype Env = Env(
    srcInWrite: bool, srcInRead: bool, rcBeginSrc: int, nomem: bool, rcBeginDest: int, schema: nat,
    srcFaults: map<nat, int>, destFaults: map<nat, int>,
    rcNewDb: int, newPage: Page, rcMeta: int, rcVersion: int, rcJournal: int, rcCommitOne: int,
    extraFaults: map<nat, int>, rcTruncate: int, rcSync: int, rcCommitTwo: int)

  predicate OkOrFault(rc: int) {
    rc == OK || IsFault(rc)
  }

  predicate EnvOk(cfg: Config, env: Env) {
    && FaultsOk(env.srcFaults) && FaultsOk(env.destFaults) && FaultsOk(env.extraFaults)
    && |env.newPage| == cfg.destSz && env.rcBeginSrc != DONE && env.rcBeginDest != DONE
    && OkOrFault(env.rcNewDb) && OkOrFault(env.rcMeta) && OkOrFault(env.rcVersion) && OkOrFault(env.rcJournal)
    && OkOrFault(env.rcCommitOne) && OkOrFault(env.rcTruncate) && OkOrFault(env.rcSync) && OkOrFault(env.rcCommitTwo)
  }

  predicate WellFormed(cfg: Config, w: World) {
    ValidConfig(cfg) && Sized(w.src, cfg.srcSz) && Sized(w.dest, cfg.destSz) && w.iNext >= 1
  }

  // The copying loop, started with ii pages done.
  function CopyPages(cfg: Config, w: World, nPage: int, ii: nat, env: Env): (r: World)
    requires WellFormed(cfg, w)
    ensures WellFormed(cfg, r) && r == w.(iNext := r.iNext, rc := r.rc, dest := r.dest)
    ensures r.iNext >= w.iNext
    decreases |w.src| + 1 - w.iNext
  {
    if (nPage < 0 || ii < nPage) && w.iNext <= |w.src| && w.rc == OK then
      var (rc, dest) := CopyOne(cfg, w, env);
      CopyPages(cfg, w.(iNext := w.iNext + 1, rc := rc, dest := dest), nPage, ii + 1, env)
    else w
  }

  // What copying page iNext returns.
  function CopyOne(cfg: Config, w: World, env: Env): (r: (int, seq<Page>))
    requires WellFormed(cfg, w) && w.iNext <= |w.src|
    ensures Sized(r.1, cfg.destSz)
  {
    if w.iNext == PendingPage(cfg.srcSz) then (OK, w.dest)
    else if w.iNext in env.srcFaults then (env.srcFaults[w.iNext], w.dest)
    else BackupOnePage(cfg, w.dest, |w.src|, w.iNext, w.src[w.iNext - 1], false, env.destFaults)
  }

  // Open the transactions a step needs; the result's rc is the local return code.
  function Begin(cfg: Config, w: World, env: Env): (r: World)
    ensures r == w.(rc := r.rc, bDestLocked := r.bDestLocked, iDestSchema := r.iDestSchema)
  {
    var rc0 := if cfg.ownDestDb && env.srcInWrite then BUSY else OK;
    var rc1 := if rc0 == OK && !env.srcInRead then env.rcBeginSrc else rc0;
    var rc2 := if !w.bDestLocked && rc1 == OK && env.nomem then NOMEM else rc1;
    var rc3 := if rc2 == OK && !w.bDestLocked then env.rcBeginDest else rc2;
    var w1 :=
      if rc2 == OK && !w.bDestLocked && rc3 == OK then w.(bDestLocked := true, iDestSchema := env.schema) else w;
    var rc4 := if rc3 == OK && cfg.wal && cfg.srcSz != cfg.destSz then READONLY else rc3;
    w1.(rc := rc4)
  }

  // Record the progress; the result's rc is DONE once every page is copied.
  function Progress(w: World): World
    requires w.iNext >= 1
  {
    if w.rc != OK then w
    else
      var w1 := w.(nPagecount := |w.src|, nRemaining := (|w.src| + 1 - w.iNext) % U32);
      if w.iNext > |w.src| then w1.(rc := DONE) else w1.(isAttached := true)
  }

  // The final number of destination pages.
  function DestTruncate(cfg: Config, nSrcPage: nat): nat
    requires ValidConfig(cfg)
  {
    if cfg.srcSz < cfg.destSz then
      var ratio := cfg.destSz / cfg.srcSz;
      var n := (nSrcPage + ratio - 1) / ratio;
      if n == PendingPage(cfg.destSz) then n - 1 else n
    else nSrcPage * (cfg.srcSz / cfg.destSz)
  }

  // A new database, if the source is empty.
  function StampNew(cfg: Config, w: World, env: Env): (r: World)
    requires WellFormed(cfg, w) && EnvOk(cfg, env)
    ensures WellFormed(cfg, r) && r == w.(rc := r.rc, dest := r.dest)
  {
    if |w.src| == 0 then w.(rc := env.rcNewDb, dest := if env.rcNewDb == OK then [env.newPage] else w.dest) else w
  }

  // The new schema cookie.
  function StampCookie(cfg: Config, w: World, env: Env): (r: World)
    requires WellFormed(cfg, w)
    ensures WellFormed(cfg, r) && r == w.(rc := r.rc, dest := r.dest)
  {
    if w.rc != OK && w.rc != DONE then w
    else
      w.(rc := env.rcMeta,
         dest := if env.rcMeta == OK then PutBytes(w.dest, cfg.destSz, 1, 40, Put4((w.iDestSchema + 1) % U32))
             else w.dest)
  }

  // In WAL mode, the file format.
  function StampVersion(cfg: Config, w: World, env: Env): (r: World)
    requires WellFormed(cfg, w)
    ensures WellFormed(cfg, r) && r == w.(rc := r.rc, dest := r.dest)
  {
    if w.rc != OK || !cfg.wal then w
    else w.(rc := env.rcVersion, dest := if env.rcVersion == OK then PutBytes(w.dest, cfg.destSz, 1, 18, [2, 2])
        else w.dest)
  }

  function StampHeader(cfg: Config, w: World, env: Env): (r: World)
    requires WellFormed(cfg, w) && EnvOk(cfg, env)
    ensures WellFormed(cfg, r) && r == w.(rc := r.rc, dest := r.dest)
  {
    StampVersion(cfg, StampCookie(cfg, StampNew(cfg, w, env), env), env)
  }

  // The loop that writes the source pages after the pending-byte page straight into the file.
  function WriteExtra(cfg: Config, src: seq<Page>, file: seq<int>, faults: map<nat, int>, rc: int, iOff: nat,
      iEnd: nat): (int, seq<int>)
    requires ValidConfig(cfg) && Sized(src, cfg.srcSz)
    decreases iEnd - iOff
  {
    if rc == OK && iOff < iEnd then
      var iSrcPg := PageOf(iOff, cfg.srcSz);
      if iSrcPg in faults then (faults[iSrcPg], file)
      else
        var zData := if iSrcPg <= |src| then src[iSrcPg - 1] else Zeros(cfg.srcSz);
        WriteExtra(cfg, src, OsWrite(file, zData, iOff), faults, rc, iOff + cfg.srcSz, iEnd)
    else (rc, file)
  }

  // Commit when the destination pages are larger: the file is patched and cut behind the pager's back.
  function CommitPatched(cfg: Config, w: World, nSrcPage: nat, env: Env): World
    requires WellFormed(cfg, w)
  {
    var iSize := cfg.srcSz * nSrcPage;
    var rc := if env.rcJournal == OK then env.rcCommitOne else env.rcJournal;
    var file := if rc == OK then Flatten(w.dest, cfg.destSz) else w.file;
    var iEnd := if PENDING_BYTE + cfg.destSz < iSize then PENDING_BYTE + cfg.destSz else iSize;
    var (rc1, file1) := WriteExtra(cfg, w.src, file, env.extraFaults, rc, PENDING_BYTE + cfg.srcSz, iEnd);
    var rc2 := if rc1 == OK then env.rcTruncate else rc1;
    var file2 := if rc2 == OK && |file1| > iSize then file1[..iSize] else file1;
    w.(rc := if rc2 == OK then env.rcSync else rc2, file := file2)
  }

  // Commit otherwise: truncate the image and write it.
  function CommitPlain(cfg: Config, w: World, nSrcPage: nat, env: Env): World
    requires WellFormed(cfg, w)
  {
    var n := DestTruncate(cfg, nSrcPage);
    var dest := if n <= |w.dest| then w.dest[..n] else w.dest;
    w.(rc := env.rcCommitOne, dest := dest, file := if env.rcCommitOne == OK then Flatten(dest, cfg.destSz) else w.file)
  }

  function Finish(cfg: Config, w: World, env: Env): (r: World)
    requires WellFormed(cfg, w) && EnvOk(cfg, env)
    ensures WellFormed(cfg, r) && r == w.(rc := r.rc, dest := r.dest, file := r.file)
  {
    var w1 := StampHeader(cfg, w, env);
    var nSrcPage := if |w.src| == 0 then 1 else |w.src|;
    if w1.rc != OK then w1
    else
      var w2 := if cfg.srcSz < cfg.destSz then CommitPatched(cfg, w1, nSrcPage, env)
          else CommitPlain(cfg, w1, nSrcPage, env);
      if w2.rc != OK then w2 else w2.(rc := if env.rcCommitTwo == OK then DONE else env.rcCommitTwo)
  }

  function Step(cfg: Config, w: World, nPage: int, env: Env): (r: World)
    requires WellFormed(cfg, w) && EnvOk(cfg, env)
    ensures WellFormed(cfg, r) && r.src == w.src
  {
    if IsFatalError(w.rc) then w
    else
      var w1 := Progress(CopyPages(cfg, Begin(cfg, w, env), nPage, 0, env));
      var w2 := if w1.rc == DONE then Finish(cfg, w1, env) else w1;
      if w2.rc == IOERR_NOMEM then w2.(rc := NOMEM) else w2
  }

  // backupUpdate, for one backup of the list.
  function Update(cfg: Config, w: World, iPage: nat, aData: Page, faults: map<nat, int>): (r: World)
    requires WellFormed(cfg, w) && iPage > 0 && |aData| == cfg.srcSz
    ensures WellFormed(cfg, r) && r == w.(rc := r.rc, dest := r.dest)
  {
    if !IsFatalError(w.rc) && iPage < w.iNext then
      var (rc, dest) := BackupOnePage(cfg, w.dest, |w.src|, iPage, aData, true, faults);
      w.(rc := if rc != OK then rc else w.rc, dest := dest)
    else w
  }
}
