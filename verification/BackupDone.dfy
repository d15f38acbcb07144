/** What SQLITE_DONE means: for any two page sizes, the committed destination
    file is the source file, byte for byte, outside the source's pending-byte
    page and the header fields a backup rewrites. */
module BackupDone {
  import opened Arithmetic
  import opened PageBytes
  import opened Backup
  import opened BackupSafety

  ghost predicate FileMatches(cfg: Config, src: seq<Page>, file: seq<int>)
    requires ValidConfig(cfg) && Sized(src, cfg.srcSz)
  {
    && |file| == |src| * cfg.srcSz
    && forall off :: 0 <= off < |file| ==> FileByteOk(cfg, src, file, off)
  }

  predicate FileByteOk(cfg: Config, src: seq<Page>, file: seq<int>, off: nat)
    requires ValidConfig(cfg) && Sized(src, cfg.srcSz) && off < |file|
  {
    InPending(off, cfg.srcSz) || Header(cfg, off) || file[off] == ByteAt(src, cfg.srcSz, off)
  }

  // The pending-byte page starts at PENDING_BYTE, whatever the page size.
  lemma PendingRange(off: nat, sz: nat)
    requires sz > 0 && PENDING_BYTE % sz == 0
    ensures InPending(off, sz) <==> PENDING_BYTE <= off < PENDING_BYTE + sz
  {
    var p, q := PENDING_BYTE / sz, off / sz;
    DivMod(PENDING_BYTE, sz);
    DivMod(off, sz);
    if q < p { MulMonotone(q + 1, p, sz); }
    if q > p { MulMonotone(p + 1, q, sz); }
  }

  lemma PendingDivides(cfg: Config)
    requires ValidConfig(cfg)
    ensures PENDING_BYTE % cfg.srcSz == 0 && PENDING_BYTE % cfg.destSz == 0
  {
  }

  // Rewriting header bytes on page 1 leaves every other byte.
  lemma StampByte(cfg: Config, src: seq<Page>, dest: seq<Page>, at: nat, data: seq<int>, off: nat)
    requires ValidConfig(cfg) && Sized(src, cfg.srcSz) && Sized(dest, cfg.destSz)
    requires at + |data| <= 44 && forall k :: at <= k < at + |data| ==> Header(cfg, k)
    requires ByteOk(cfg, src, dest, off)
    ensures at + |data| <= cfg.destSz && ByteOk(cfg, src, PutBytes(dest, cfg.destSz, 1, at, data), off)
  {
    hide IsPageSize, ByteAt, PutBytes;
    SizesPositive(cfg);
    PutByte(dest, cfg.destSz, 1, at, data, off);
  }

  lemma StampKeeps(cfg: Config, w: World, env: Env)
    requires WellFormed(cfg, w) && EnvOk(cfg, env) && |w.src| > 0 && Copied(cfg, w.src, w.dest, |w.src|)
    ensures Copied(cfg, w.src, StampHeader(cfg, w, env).dest, |w.src|)
  {
    hide IsPageSize, ByteOk, Put4, PutBytes;
    SizesPositive(cfg);
    var cookie := Put4((w.iDestSchema + 1) % U32);
    var d1 := PutBytes(w.dest, cfg.destSz, 1, 40, cookie);
    forall off: nat | off / cfg.srcSz < |w.src|
      ensures ByteOk(cfg, w.src, StampHeader(cfg, w, env).dest, off)
    {
      StampByte(cfg, w.src, w.dest, 40, cookie, off);
      if cfg.wal { StampByte(cfg, w.src, d1, 18, [2, 2], off); }
    }
  }

  // The extra loop writes exactly the source bytes of its range.
  lemma {:induction false} ExtraByte(cfg: Config, src: seq<Page>, file: seq<int>, faults: map<nat, int>, rc: int,
      iOff: nat, iEnd: nat, off: nat)
    requires ValidConfig(cfg) && Sized(src, cfg.srcSz) && FaultsOk(faults)
    requires iOff % cfg.srcSz == 0 && iEnd % cfg.srcSz == 0 && iEnd <= |src| * cfg.srcSz
    ensures var r := WriteExtra(cfg, src, file, faults, rc, iOff, iEnd);
            r.0 == OK ==>
              && rc == OK && |r.1| == (if iOff < iEnd && |file| < iEnd then iEnd else |file|)
              && (off < |r.1| && iOff <= off < iEnd ==> r.1[off] == ByteAt(src, cfg.srcSz, off))
              && (off < |file| && !(iOff <= off < iEnd) ==> r.1[off] == file[off])
    decreases iEnd - iOff
  {
    hide IsPageSize, ByteAt, OsWrite;
    SizesPositive(cfg);
    if rc == OK && iOff < iEnd && PageOf(iOff, cfg.srcSz) !in faults {
      var sz, q := cfg.srcSz, iOff / cfg.srcSz;
      DivMod(iOff, sz);
      if |src| <= q { MulMonotone(|src|, q, sz); }
      MultiplesApart(iOff, iEnd, sz);
      StepAligned(iOff, sz, sz);
      assert iOff == q * sz;
      var file' := OsWrite(file, src[q], iOff);
      ExtraByte(cfg, src, file', faults, rc, iOff + sz, iEnd, off);
      if off < |file'| { OsWriteByte(file, src[q], iOff, off); }
      if iOff <= off < iOff + sz { PageByteAt(src, sz, q, off); }
    }
  }

  lemma PageByteAt(src: seq<Page>, sz: nat, q: nat, off: nat)
    requires sz > 0 && Sized(src, sz) && q < |src| && q * sz <= off < q * sz + sz
    ensures ByteAt(src, sz, off) == src[q][off - q * sz]
  {
    Locate(off, sz, q, off - q * sz);
  }

  lemma BelowEnd(off: nat, sz: nat, n: nat)
    requires sz > 0
    ensures off < n * sz <==> off / sz < n
  {
    DivMod(off, sz);
    if off / sz < n { MulMonotone(off / sz + 1, n, sz); } else { MulMonotone(n, off / sz, sz); }
  }

  // The assertion sqlite3_backup_step makes before the file is patched.
  predicate TruncateOk(cfg: Config, nSrcPage: nat)
    requires ValidConfig(cfg)
  {
    var nDestTruncate, iSize := DestTruncate(cfg, nSrcPage), cfg.srcSz * nSrcPage;
    && nDestTruncate > 0
    && (nDestTruncate * cfg.destSz >= iSize
        || (nDestTruncate == PendingPage(cfg.destSz) - 1 && PENDING_BYTE <= iSize <= PENDING_BYTE + cfg.destSz))
  }

  /** That assertion always holds; moreover the destination never ends with its locking page, and has no page more than
      the source needs. */
  lemma {:induction false} TruncateAssertion(cfg: Config, nSrcPage: nat)
    requires ValidConfig(cfg) && cfg.srcSz < cfg.destSz && nSrcPage > 0
    ensures TruncateOk(cfg, nSrcPage)
    ensures DestTruncate(cfg, nSrcPage) != PendingPage(cfg.destSz)
    ensures DestTruncate(cfg, nSrcPage) * cfg.destSz < cfg.srcSz * nSrcPage + cfg.destSz
  {
    var ratio := cfg.destSz / cfg.srcSz;
    SizeRatio(cfg);
    PendingStart(cfg);
    hide IsPageSize, PendingPage;
    var n := (nSrcPage + ratio - 1) / ratio;
    RoundUp(nSrcPage, ratio, cfg.srcSz);
    MulStep(n - 1, cfg.destSz);
  }

  lemma SizeRatio(cfg: Config)
    requires ValidConfig(cfg) && cfg.srcSz < cfg.destSz
    ensures cfg.destSz == cfg.destSz / cfg.srcSz * cfg.srcSz && cfg.destSz / cfg.srcSz > 1
  {
  }

  // Where the locking page of the destination begins.
  lemma PendingStart(cfg: Config)
    requires ValidConfig(cfg)
    ensures PendingPage(cfg.destSz) > 1 && (PendingPage(cfg.destSz) - 1) * cfg.destSz == PENDING_BYTE
  {
    PendingDivides(cfg);
  }

  // n small pages need (n+r-1)/r pages that are r times larger.
  lemma RoundUp(n: nat, r: nat, sz: nat)
    requires n > 0 && r > 0 && sz > 0
    ensures var m := (n + r - 1) / r; m > 0 && (m - 1) * (r * sz) < sz * n <= m * (r * sz)
  {
    var m := (n + r - 1) / r;
    DivMod(n + r - 1, r);
    assert (m - 1) * r == m * r - r;
    assert (m - 1) * r < n <= m * r;
    assert m > 0;
    MulMonotone(n, m * r, sz);
    MulMonotone((m - 1) * r + 1, n, sz);
    MulAssoc(m, r, sz);
    MulAssoc(m - 1, r, sz);
  }

  // The last byte of a source file is never in the pending-byte page.
  lemma LastByte(cfg: Config, src: seq<Page>)
    requires ValidConfig(cfg) && SourceOk(cfg, src) && |src| > 0
    ensures |src| * cfg.srcSz > 0
    ensures var off := |src| * cfg.srcSz - 1; off / cfg.srcSz == |src| - 1 && !InPending(off, cfg.srcSz)
  {
    hide IsPageSize;
    SizesPositive(cfg);
    assert |src| * cfg.srcSz == (|src| - 1) * cfg.srcSz + cfg.srcSz;
    Locate(|src| * cfg.srcSz - 1, cfg.srcSz, |src| - 1, cfg.srcSz - 1);
  }

  // With the smaller pages in the destination, its image covers the source file.
  lemma PlainCovers(cfg: Config, src: seq<Page>, dest: seq<Page>)
    requires ValidConfig(cfg) && SourceOk(cfg, src) && Sized(dest, cfg.destSz) && |src| > 0
    requires cfg.destSz <= cfg.srcSz && Copied(cfg, src, dest, |src|)
    ensures var n := DestTruncate(cfg, |src|); n <= |dest| && n * cfg.destSz == |src| * cfg.srcSz
  {
    PendingDivides(cfg);
    var ratio, off, n := cfg.srcSz / cfg.destSz, |src| * cfg.srcSz - 1, DestTruncate(cfg, |src|);
    assert cfg.srcSz == ratio * cfg.destSz;
    MulAssoc(|src|, ratio, cfg.destSz);
    LastByte(cfg, src);
    hide IsPageSize, ByteAt;
    PendingRange(off, cfg.srcSz);
    PendingRange(off, cfg.destSz);
    assert ByteOk(cfg, src, dest, off);
    BelowEnd(off, cfg.destSz, |dest|);
    BelowEnd(off, cfg.destSz, n);
    if |dest| < n { MulMonotone(|dest| + 1, n, cfg.destSz); }
  }

  lemma {:induction false} PlainMatches(cfg: Config, w: World, env: Env)
    requires WellFormed(cfg, w) && SourceOk(cfg, w.src) && |w.src| > 0 && Copied(cfg, w.src, w.dest, |w.src|)
    requires cfg.destSz <= cfg.srcSz && env.rcCommitOne == OK
    ensures FileMatches(cfg, w.src, CommitPlain(cfg, w, |w.src|, env).file)
  {
    var file := CommitPlain(cfg, w, |w.src|, env).file;
    var n := DestTruncate(cfg, |w.src|);
    PlainCovers(cfg, w.src, w.dest);
    PendingDivides(cfg);
    hide IsPageSize, ByteAt, DestTruncate;
    SizesPositive(cfg);
    var dest := w.dest[..n];
    assert file == Flatten(dest, cfg.destSz);
    forall off | 0 <= off < |file| ensures FileByteOk(cfg, w.src, file, off) {
      BelowEnd(off, cfg.srcSz, |w.src|);
      BelowEnd(off, cfg.destSz, n);
      PendingRange(off, cfg.srcSz);
      PendingRange(off, cfg.destSz);
      assert ByteOk(cfg, w.src, w.dest, off);
      TakeByte(w.dest, cfg.destSz, n, off);
    }
  }

  lemma TakeByte(pages: seq<Page>, sz: nat, n: nat, off: nat)
    requires sz > 0 && Sized(pages, sz) && n <= |pages| && off / sz < n
    ensures ByteAt(pages[..n], sz, off) == ByteAt(pages, sz, off)
  {
  }

  // The end of the extra loop: a multiple of the source page size within the source.
  function ExtraEnd(cfg: Config, nSrcPage: nat): (e: nat) {
    var iSize := cfg.srcSz * nSrcPage;
    if PENDING_BYTE + cfg.destSz < iSize then PENDING_BYTE + cfg.destSz else iSize
  }

  lemma ExtraRange(cfg: Config, nSrcPage: nat)
    requires ValidConfig(cfg) && cfg.srcSz < cfg.destSz
    ensures (PENDING_BYTE + cfg.srcSz) % cfg.srcSz == 0
    ensures ExtraEnd(cfg, nSrcPage) % cfg.srcSz == 0 && ExtraEnd(cfg, nSrcPage) <= nSrcPage * cfg.srcSz
  {
    PendingDivides(cfg);
    hide IsPageSize;
    SizesPositive(cfg);
    var c := CopySize(cfg);
    assert c == cfg.srcSz;
    StepAligned(PENDING_BYTE, cfg.srcSz, c);
    StepAligned(PENDING_BYTE, cfg.destSz, c);
    MultipleAligned(nSrcPage, cfg.srcSz, c);
  }

  // A copied byte, in the image or in the range the extra loop writes.
  lemma PatchedByte(cfg: Config, w: World, env: Env, off: nat)
    requires WellFormed(cfg, w) && SourceOk(cfg, w.src) && |w.src| > 0 && EnvOk(cfg, env)
    requires cfg.srcSz < cfg.destSz && Copied(cfg, w.src, w.dest, |w.src|) && off / cfg.srcSz < |w.src|
    ensures var r := WriteExtra(cfg, w.src, Flatten(w.dest, cfg.destSz), env.extraFaults, OK, PENDING_BYTE + cfg.srcSz,
        ExtraEnd(cfg, |w.src|));
            r.0 == OK && !InPending(off, cfg.srcSz) ==>
              off < |r.1| && (Header(cfg, off) || r.1[off] == ByteAt(w.src, cfg.srcSz, off))
  {
    PendingDivides(cfg);
    hide IsPageSize, ByteAt, WriteExtra, EnvOk;
    SizesPositive(cfg);
    ExtraRange(cfg, |w.src|);
    var file := Flatten(w.dest, cfg.destSz);
    assert FaultsOk(env.extraFaults) by { EnvFaults(cfg, env); }
    ExtraByte(cfg, w.src, file, env.extraFaults, OK, PENDING_BYTE + cfg.srcSz, ExtraEnd(cfg, |w.src|), off);
    PendingRange(off, cfg.srcSz);
    PendingRange(off, cfg.destSz);
    BelowEnd(off, cfg.srcSz, |w.src|);
    BelowEnd(off, cfg.destSz, |w.dest|);
    assert ByteOk(cfg, w.src, w.dest, off);
  }

  lemma EnvFaults(cfg: Config, env: Env)
    requires EnvOk(cfg, env)
    ensures FaultsOk(env.extraFaults)
  {
  }

  lemma {:induction false} PatchedMatches(cfg: Config, w: World, env: Env)
    requires WellFormed(cfg, w) && SourceOk(cfg, w.src) && |w.src| > 0 && EnvOk(cfg, env)
    requires cfg.srcSz < cfg.destSz && Copied(cfg, w.src, w.dest, |w.src|)
    requires CommitPatched(cfg, w, |w.src|, env).rc == OK
    ensures FileMatches(cfg, w.src, CommitPatched(cfg, w, |w.src|, env).file)
  {
    hide IsPageSize, ByteAt, EnvOk, Copied, WriteExtra, ByteOk;
    SizesPositive(cfg);
    var iSize := |w.src| * cfg.srcSz;
    var rc := if env.rcJournal == OK then env.rcCommitOne else env.rcJournal;
    var image := if rc == OK then Flatten(w.dest, cfg.destSz) else w.file;
    var (rc1, file1) := WriteExtra(cfg, w.src, image, env.extraFaults, rc, PENDING_BYTE + cfg.srcSz,
        ExtraEnd(cfg, |w.src|));
    assert rc == OK && rc1 == OK by { ExtraOk(cfg, w.src, image, env.extraFaults, rc, ExtraEnd(cfg, |w.src|)); }
    var file := CommitPatched(cfg, w, |w.src|, env).file;
    LastByte(cfg, w.src);
    PatchedByte(cfg, w, env, iSize - 1);
    assert file == file1[..iSize];
    forall off | 0 <= off < |file| ensures FileByteOk(cfg, w.src, file, off) {
      BelowEnd(off, cfg.srcSz, |w.src|);
      PatchedByte(cfg, w, env, off);
    }
  }

  // The extra loop succeeds only if what came before it did.
  lemma ExtraOk(cfg: Config, src: seq<Page>, file: seq<int>, faults: map<nat, int>, rc: int, iEnd: nat)
    requires ValidConfig(cfg) && Sized(src, cfg.srcSz)
    ensures WriteExtra(cfg, src, file, faults, rc, PENDING_BYTE + cfg.srcSz, iEnd).0 == OK ==> rc == OK
  {
  }

  /** A step that returns DONE has committed a file that matches the source. */
  lemma FinishMatches(cfg: Config, w: World, env: Env)
    requires WellFormed(cfg, w) && SourceOk(cfg, w.src) && |w.src| > 0 && EnvOk(cfg, env)
    requires w.rc == DONE && Copied(cfg, w.src, w.dest, |w.src|)
    ensures Finish(cfg, w, env).rc == DONE ==> FileMatches(cfg, w.src, Finish(cfg, w, env).file)
  {
    hide IsPageSize, Copied, FileMatches, CommitPatched, CommitPlain, FaultsOk;
    var w1 := StampHeader(cfg, w, env);
    StampKeeps(cfg, w, env);
    if w1.rc == OK {
      if cfg.srcSz < cfg.destSz {
        PatchedCode(cfg, w1, |w.src|, env);
        if CommitPatched(cfg, w1, |w.src|, env).rc == OK { PatchedMatches(cfg, w1, env); }
      } else {
        if env.rcCommitOne == OK { PlainMatches(cfg, w1, env); }
        PlainCode(cfg, w1, env);
      }
    }
  }

  lemma PlainCode(cfg: Config, w: World, env: Env)
    requires WellFormed(cfg, w)
    ensures CommitPlain(cfg, w, |w.src|, env).rc == env.rcCommitOne
  {
  }

  lemma StepMatches(cfg: Config, w: World, nPage: int, env: Env)
    requires Inv(cfg, w) && EnvOk(cfg, env) && |w.src| > 0 && !IsFatalError(w.rc)
    ensures var r := Step(cfg, w, nPage, env); r.rc == DONE ==> FileMatches(cfg, r.src, r.file)
  {
    hide IsPageSize, Copied, FaultsOk, Finish, CopyPages, Sized, FileMatches;
    var w0 := Begin(cfg, w, env);
    if w0.rc == OK {
      CopyPagesKeep(cfg, w0, nPage, 0, env);
      var w1 := Progress(CopyPages(cfg, w0, nPage, 0, env));
      if w1.rc == DONE { FinishMatches(cfg, w1, env); }
    } else {
      CopyPagesIdle(cfg, w0, nPage, 0, env);
    }
  }

  /** Over every run: when a backup step reports DONE, for any two page sizes and
      after any interleaving of steps, reported writes, shrinks and restarts,
      the destination file holds the source. */
  lemma {:induction false} DoneMeansCopied(cfg: Config, src: seq<Page>, dest: seq<Page>, file: seq<int>,
      es: seq<Event>, nPage: int, env: Env)
    requires ValidConfig(cfg) && SourceOk(cfg, src) && Sized(dest, cfg.destSz) && EnvOk(cfg, env)
    ensures var w := Run(cfg, Start(src, dest, file), es); var r := Step(cfg, w, nPage, env);
            !IsFatalError(w.rc) && |w.src| > 0 && r.rc == DONE ==> FileMatches(cfg, r.src, r.file)
  {
    hide Step, Run, FileMatches, EnvOk;
    RunKeeps(cfg, src, dest, file, es);
    var w := Run(cfg, Start(src, dest, file), es);
    if !IsFatalError(w.rc) && |w.src| > 0 { StepMatches(cfg, w, nPage, env); }
  }

  /** The schema cookie of a finished destination is one more than it was. */
  lemma {:induction false} CookieByte(cfg: Config, w: World, env: Env, i: nat)
    requires WellFormed(cfg, w) && SourceOk(cfg, w.src) && |w.src| > 0 && EnvOk(cfg, env) && w.rc == DONE && i < 4
    requires Copied(cfg, w.src, w.dest, |w.src|) && Finish(cfg, w, env).rc == DONE
    ensures var r := Finish(cfg, w, env); 40 + i < |r.file| && r.file[40 + i] == Put4((w.iDestSchema + 1) % U32)[i]
  {
    hide IsPageSize, Copied, CommitPatched, CommitPlain, FaultsOk, Put4, ByteAt;
    SizesPositive(cfg);
    var w1 := StampHeader(cfg, w, env);
    StampKeeps(cfg, w, env);
    StampedCookie(cfg, w, env, i);
    if cfg.srcSz < cfg.destSz {
      PatchedCode(cfg, w1, |w.src|, env);
      PatchedPrefix(cfg, w1, env, 40 + i);
    } else {
      PlainCode(cfg, w1, env);
      PlainPrefix(cfg, w1, env, 40 + i);
    }
  }

  lemma StampedCookie(cfg: Config, w: World, env: Env, i: nat)
    requires WellFormed(cfg, w) && EnvOk(cfg, env) && |w.src| > 0 && w.rc == DONE && i < 4
        && StampHeader(cfg, w, env).rc == OK
    ensures var d := StampHeader(cfg, w, env).dest;
            |d| > 0 && ByteAt(d, cfg.destSz, 40 + i) == Put4((w.iDestSchema + 1) % U32)[i]
  {
    hide IsPageSize, FaultsOk, Put4, ByteAt, PutBytes;
    SizesPositive(cfg);
    var cookie := Put4((w.iDestSchema + 1) % U32);
    var d1 := PutBytes(w.dest, cfg.destSz, 1, 40, cookie);
    PutByte(w.dest, cfg.destSz, 1, 40, cookie, 40 + i);
    if cfg.wal { PutByte(d1, cfg.destSz, 1, 18, [2, 2], 40 + i); }
  }

  // The beginning of the file is the beginning of the image.
  lemma PatchedPrefix(cfg: Config, w: World, env: Env, off: nat)
    requires WellFormed(cfg, w) && EnvOk(cfg, env) && |w.src| > 0 && |w.dest| > 0 && off < 44
    requires cfg.srcSz < cfg.destSz && CommitPatched(cfg, w, |w.src|, env).rc == OK
    ensures var file := CommitPatched(cfg, w, |w.src|, env).file;
            off < |file| && file[off] == ByteAt(w.dest, cfg.destSz, off)
  {
    hide IsPageSize, ByteAt, EnvOk, WriteExtra;
    SizesPositive(cfg);
    var rc := if env.rcJournal == OK then env.rcCommitOne else env.rcJournal;
    var image := if rc == OK then Flatten(w.dest, cfg.destSz) else w.file;
    var iEnd := ExtraEnd(cfg, |w.src|);
    ExtraOk(cfg, w.src, image, env.extraFaults, rc, iEnd);
    EnvFaults(cfg, env);
    ExtraRange(cfg, |w.src|);
    ExtraByte(cfg, w.src, image, env.extraFaults, rc, PENDING_BYTE + cfg.srcSz, iEnd, off);
    MulMonotone(1, |w.src|, cfg.srcSz);
    MulMonotone(1, |w.dest|, cfg.destSz);
  }

  lemma PlainPrefix(cfg: Config, w: World, env: Env, off: nat)
    requires WellFormed(cfg, w) && SourceOk(cfg, w.src) && |w.src| > 0 && off < 44
    requires cfg.destSz <= cfg.srcSz && Copied(cfg, w.src, w.dest, |w.src|) && env.rcCommitOne == OK
    ensures var file := CommitPlain(cfg, w, |w.src|, env).file;
            off < |file| && file[off] == ByteAt(w.dest, cfg.destSz, off)
  {
    var n := DestTruncate(cfg, |w.src|);
    PlainCovers(cfg, w.src, w.dest);
    hide IsPageSize, ByteAt, DestTruncate, Copied;
    SizesPositive(cfg);
    MulMonotone(1, |w.src|, cfg.srcSz);
    BelowEnd(off, cfg.destSz, n);
    TakeByte(w.dest, cfg.destSz, n, off);
  }

  function Min(a: int, b: int): int {
    if a <= b then a else b
  }

  /** An empty source: the new page is stamped and committed, cut to the source's page size if that is smaller. */

  lemma StampedPage(cfg: Config, w: World, env: Env, off: nat)
    requires WellFormed(cfg, w) && EnvOk(cfg, env) && |w.src| == 0 && StampHeader(cfg, w, env).rc == OK
    ensures var d := StampHeader(cfg, w, env).dest;
            && |d| == 1
            && (40 <= off < 44 ==> ByteAt(d, cfg.destSz, off) == Put4((w.iDestSchema + 1) % U32)[off - 40])
            && (off < cfg.destSz && !(40 <= off < 44) && !(cfg.wal && 18 <= off < 20) ==>
                  ByteAt(d, cfg.destSz, off) == env.newPage[off])
  {
    hide IsPageSize, FaultsOk, Put4, PutBytes;
    SizesPositive(cfg);
    var d0, cookie := [env.newPage], Put4((w.iDestSchema + 1) % U32);
    var d1 := PutBytes(d0, cfg.destSz, 1, 40, cookie);
    PutByte(d0, cfg.destSz, 1, 40, cookie, off);
    if cfg.wal { PutByte(d1, cfg.destSz, 1, 18, [2, 2], off); }
    if off < cfg.destSz { Locate(off, cfg.destSz, 0, off); }
  }

  lemma EmptyStampCode(cfg: Config, w: World, env: Env)
    requires WellFormed(cfg, w) && EnvOk(cfg, env) && |w.src| == 0
    ensures OkOrFault(StampHeader(cfg, w, env).rc)
  {
    hide IsPageSize, FaultsOk, Put4, PutBytes;
  }

  lemma EmptyCommit(cfg: Config, w: World, env: Env)
    requires WellFormed(cfg, w) && |w.src| == 0 && |w.dest| == 1
    ensures cfg.srcSz < cfg.destSz && CommitPatched(cfg, w, 1, env).rc == OK ==>
              CommitPatched(cfg, w, 1, env).file == Flatten(w.dest, cfg.destSz)[..cfg.srcSz]
    ensures CommitPlain(cfg, w, 1, env).rc == env.rcCommitOne
    ensures cfg.srcSz >= cfg.destSz && CommitPlain(cfg, w, 1, env).rc == OK ==>
              CommitPlain(cfg, w, 1, env).file == Flatten(w.dest, cfg.destSz)
  {
    SizesPositive(cfg);
    hide IsPageSize, Flatten;
    if cfg.srcSz >= cfg.destSz {
      assert DestTruncate(cfg, 1) == cfg.srcSz / cfg.destSz;
      assert w.dest[..1] == w.dest;
    }
  }

  /** When a backup of an empty source reports DONE, the file is the new page, with the new schema cookie. */
  lemma {:induction false} EmptyDone(cfg: Config, w: World, env: Env, off: nat)
    requires WellFormed(cfg, w) && EnvOk(cfg, env) && |w.src| == 0 && w.rc == DONE && Finish(cfg, w, env).rc == DONE
    ensures var file := Finish(cfg, w, env).file;
            && |file| == Min(cfg.srcSz, cfg.destSz)
            && (40 <= off < 44 ==> file[off] == Put4((w.iDestSchema + 1) % U32)[off - 40])
            && (off < |file| && !(40 <= off < 44) && !(cfg.wal && 18 <= off < 20) ==> file[off] == env.newPage[off])
  {
    hide IsPageSize, FaultsOk, Put4, CommitPatched, CommitPlain, StampHeader, ByteAt, Flatten;
    SizesPositive(cfg);
    var w1 := StampHeader(cfg, w, env);
    EmptyStampCode(cfg, w, env);
    StampedPage(cfg, w, env, off);
    PatchedCode(cfg, w1, 1, env);
    EmptyCommit(cfg, w1, env);
  }
}
