/** What a backup keeps, over every interleaving of its steps with changes of
    the source, and what a finished backup means. */
module BackupSafety {
  import opened Arithmetic
  import opened PageBytes
  import opened Backup

  // Every byte of the first n source pages has reached the destination.
  ghost predicate Copied(cfg: Config, src: seq<Page>, dest: seq<Page>, n: int)
    requires ValidConfig(cfg) && Sized(src, cfg.srcSz) && Sized(dest, cfg.destSz)
  {
    forall off: nat :: off / cfg.srcSz < n ==> ByteOk(cfg, src, dest, off)
  }

  // Number of source pages the backup claims to have copied.
  function Claimed(w: World): int {
    if w.iNext - 1 <= |w.src| then w.iNext - 1 else |w.src|
  }

  // A database never ends with the pending-byte page.
  predicate SourceOk(cfg: Config, src: seq<Page>)
    requires ValidConfig(cfg)
  {
    Sized(src, cfg.srcSz) && |src| != PendingPage(cfg.srcSz)
  }

  ghost predicate Inv(cfg: Config, w: World) {
    && WellFormed(cfg, w) && SourceOk(cfg, w.src)
    && (!IsFatalError(w.rc) ==> Copied(cfg, w.src, w.dest, Claimed(w)) && (w.iNext > 1 ==> w.isAttached))
  }

  // Copying a source page makes its bytes agree and changes no other.
  lemma {:induction false} OnePageByte(cfg: Config, src: seq<Page>, dest: seq<Page>, q: nat, bUpdate: bool,
      faults: map<nat, int>, off: nat)
    requires ValidConfig(cfg) && Sized(src, cfg.srcSz) && Sized(dest, cfg.destSz) && FaultsOk(faults) && 0 < q <= |src|
    ensures var r := BackupOnePage(cfg, dest, |src|, q, src[q - 1], bUpdate, faults);
            && (r.0 == OK && off / cfg.srcSz == q - 1 ==> ByteOk(cfg, src, r.1, off))
            && (off / cfg.srcSz != q - 1 && ByteOk(cfg, src, dest, off) ==> ByteOk(cfg, src, r.1, off))
  {
    hide IsPageSize, CopyLoop;
    var rc := if cfg.srcSz != cfg.destSz && cfg.destIsMemdb then READONLY else OK;
    LoopStart(cfg, q);
    var lo := PageStart(q, cfg.srcSz);
    LoopByte(cfg, dest, |src|, src[q - 1], bUpdate, faults, rc, q, lo, off);
    RangeOnPage(off, cfg.srcSz, q, 0, cfg.srcSz);
  }

  // Where a page begins and ends.
  lemma PageStart(q: nat, sz: nat) returns (lo: nat)
    requires q > 0
    ensures lo == (q - 1) * sz && q * sz == lo + sz
  {
    MulMonotone(0, q - 1, sz);
    MulStep(q - 1, sz);
    lo := (q - 1) * sz;
  }

  // The result code of copying a page is never BUSY or LOCKED.
  lemma {:induction false} LoopCode(cfg: Config, dest: seq<Page>, nSrc: nat, data: Page, bUpdate: bool,
      faults: map<nat, int>, rc: int, iOff: nat, iEnd: nat)
    requires ValidConfig(cfg) && Sized(dest, cfg.destSz) && |data| == cfg.srcSz && iOff % CopySize(cfg) == 0
    requires FaultsOk(faults) && OkOrFault(rc)
    ensures OkOrFault(CopyLoop(cfg, dest, nSrc, data, bUpdate, faults, rc, iOff, iEnd).0)
    decreases iEnd - iOff
  {
    hide IsPageSize, CopyChunk;
    if rc == OK && iOff < iEnd {
      var iDest, next := PageOf(iOff, cfg.destSz), iOff + cfg.destSz;
      StepAligned(iOff, cfg.destSz, CopySize(cfg));
      if iDest == PendingPage(cfg.destSz) {
        LoopCode(cfg, dest, nSrc, data, bUpdate, faults, rc, next, iEnd);
      } else if iDest in faults {
        LoopCode(cfg, dest, nSrc, data, bUpdate, faults, faults[iDest], next, iEnd);
      } else {
        LoopCode(cfg, CopyChunk(cfg, dest, nSrc, data, bUpdate, iOff), nSrc, data, bUpdate, faults, rc, next, iEnd);
      }
    }
  }

  lemma OnePageCode(cfg: Config, dest: seq<Page>, nSrc: nat, q: nat, data: Page, bUpdate: bool, faults: map<nat, int>)
    requires ValidConfig(cfg) && Sized(dest, cfg.destSz) && |data| == cfg.srcSz && q > 0 && FaultsOk(faults)
    ensures OkOrFault(BackupOnePage(cfg, dest, nSrc, q, data, bUpdate, faults).0)
  {
    hide IsPageSize, CopyLoop;
    MultipleAligned(q - 1, cfg.srcSz, CopySize(cfg));
    var rc := if cfg.srcSz != cfg.destSz && cfg.destIsMemdb then READONLY else OK;
    LoopCode(cfg, dest, nSrc, data, bUpdate, faults, rc, (q - 1) * cfg.srcSz, q * cfg.srcSz);
  }

  // Copying page n+1 after the first n.
  lemma CopyNext(cfg: Config, src: seq<Page>, dest: seq<Page>, q: nat, faults: map<nat, int>)
    requires ValidConfig(cfg) && Sized(src, cfg.srcSz) && Sized(dest, cfg.destSz) && FaultsOk(faults) && 0 < q <= |src|
    requires Copied(cfg, src, dest, q - 1)
    ensures var r := BackupOnePage(cfg, dest, |src|, q, src[q - 1], false, faults);
            r.0 == OK ==> Copied(cfg, src, r.1, q)
  {
    hide IsPageSize, BackupOnePage, ByteOk;
    SizesPositive(cfg);
    var r := BackupOnePage(cfg, dest, |src|, q, src[q - 1], false, faults);
    forall off: nat | off / cfg.srcSz < q && r.0 == OK ensures ByteOk(cfg, src, r.1, off) {
      OnePageByte(cfg, src, dest, q, false, faults, off);
    }
  }

  lemma PendingSkipped(cfg: Config, src: seq<Page>, dest: seq<Page>, q: nat)
    requires ValidConfig(cfg) && Sized(src, cfg.srcSz) && Sized(dest, cfg.destSz)
    requires q == PendingPage(cfg.srcSz) && Copied(cfg, src, dest, q - 1)
    ensures Copied(cfg, src, dest, q)
  {
  }

  lemma {:induction false} CopyPagesKeep(cfg: Config, w: World, nPage: int, ii: nat, env: Env)
    requires WellFormed(cfg, w) && EnvOk(cfg, env) && OkOrFault(w.rc)
    requires w.rc == OK ==> Copied(cfg, w.src, w.dest, Claimed(w))
    ensures var r := CopyPages(cfg, w, nPage, ii, env);
            OkOrFault(r.rc) && (r.rc == OK ==> Copied(cfg, r.src, r.dest, Claimed(r)))
    decreases |w.src| + 1 - w.iNext
  {
    hide IsPageSize, BackupOnePage, Copied;
    SizesPositive(cfg);
    if (nPage < 0 || ii < nPage) && w.iNext <= |w.src| && w.rc == OK {
      if w.iNext == PendingPage(cfg.srcSz) {
        PendingSkipped(cfg, w.src, w.dest, w.iNext);
        CopyPagesKeep(cfg, w.(iNext := w.iNext + 1), nPage, ii + 1, env);
      } else if w.iNext in env.srcFaults {
        CopyPagesKeep(cfg, w.(iNext := w.iNext + 1, rc := env.srcFaults[w.iNext]), nPage, ii + 1, env);
      } else {
        var r := BackupOnePage(cfg, w.dest, |w.src|, w.iNext, w.src[w.iNext - 1], false, env.destFaults);
        CopyNext(cfg, w.src, w.dest, w.iNext, env.destFaults);
        OnePageCode(cfg, w.dest, |w.src|, w.iNext, w.src[w.iNext - 1], false, env.destFaults);
        CopyPagesKeep(cfg, w.(iNext := w.iNext + 1, rc := r.0, dest := r.1), nPage, ii + 1, env);
      }
    }
  }

  // If a step cannot begin, it copies nothing.
  lemma {:induction false} CopyPagesIdle(cfg: Config, w: World, nPage: int, ii: nat, env: Env)
    requires WellFormed(cfg, w) && w.rc != OK
    ensures CopyPages(cfg, w, nPage, ii, env) == w
  {
  }

  lemma {:induction false} ExtraCode(cfg: Config, src: seq<Page>, file: seq<int>, faults: map<nat, int>, rc: int,
      iOff: nat, iEnd: nat)
    requires ValidConfig(cfg) && Sized(src, cfg.srcSz) && FaultsOk(faults) && OkOrFault(rc)
    ensures OkOrFault(WriteExtra(cfg, src, file, faults, rc, iOff, iEnd).0)
    decreases iEnd - iOff
  {
    SizesPositive(cfg);
    hide IsPageSize, OsWrite, Zeros;
    if rc == OK && iOff < iEnd && PageOf(iOff, cfg.srcSz) !in faults {
      var iSrcPg := PageOf(iOff, cfg.srcSz);
      var zData := if iSrcPg <= |src| then src[iSrcPg - 1] else Zeros(cfg.srcSz);
      ExtraCode(cfg, src, OsWrite(file, zData, iOff), faults, rc, iOff + cfg.srcSz, iEnd);
    }
  }

  lemma PatchedCode(cfg: Config, w: World, nSrcPage: nat, env: Env)
    requires WellFormed(cfg, w) && EnvOk(cfg, env)
    ensures OkOrFault(CommitPatched(cfg, w, nSrcPage, env).rc)
  {
    hide IsPageSize, Flatten;
    SizesPositive(cfg);
    var iSize := cfg.srcSz * nSrcPage;
    var rc := if env.rcJournal == OK then env.rcCommitOne else env.rcJournal;
    var file := if rc == OK then Flatten(w.dest, cfg.destSz) else w.file;
    var iEnd := if PENDING_BYTE + cfg.destSz < iSize then PENDING_BYTE + cfg.destSz else iSize;
    ExtraCode(cfg, w.src, file, env.extraFaults, rc, PENDING_BYTE + cfg.srcSz, iEnd);
  }

  // A finishing step ends with DONE or a fatal code.
  lemma FinishCode(cfg: Config, w: World, env: Env)
    requires WellFormed(cfg, w) && EnvOk(cfg, env) && w.rc == DONE
    ensures IsFatalError(Finish(cfg, w, env).rc)
  {
    hide IsPageSize, DestTruncate, PutBytes, CommitPatched, Flatten;
    SizesPositive(cfg);
    PatchedCode(cfg, StampHeader(cfg, w, env), if |w.src| == 0 then 1 else |w.src|, env);
  }

  /** One step of the backup. */
  lemma {:induction false} StepKeeps(cfg: Config, w: World, nPage: int, env: Env)
    requires Inv(cfg, w) && EnvOk(cfg, env)
    ensures Inv(cfg, Step(cfg, w, nPage, env))
  {
    hide IsPageSize, Copied, FaultsOk, Finish, CopyPages, Sized;
    if !IsFatalError(w.rc) {
      var w0 := Begin(cfg, w, env);
      if w0.rc == OK {
        CopyPagesKeep(cfg, w0, nPage, 0, env);
        var w1 := Progress(CopyPages(cfg, w0, nPage, 0, env));
        if w1.rc == DONE { FinishCode(cfg, w1, env); }
      } else {
        CopyPagesIdle(cfg, w0, nPage, 0, env);
      }
    }
  }

  /** Events: a call of sqlite3_backup_step, or a change of the source. */

  datatype Event =
    | DoStep(nPage: int, env: Env)
    | Write(iPage: nat, aData: Page, faults: map<nat, int>)   // by this pager, reported through BackupUpdate
    | Shrink(nNew: nat)                                       // by this pager, at a commit
    | Restart(pages: seq<Page>)                               // by someone else, reported through BackupRestart

  predicate Enabled(cfg: Config, w: World, e: Event)
    requires ValidConfig(cfg)
  {
    match e
    case DoStep(_, env) => EnvOk(cfg, env)
    case Write(iPage, aData, faults) =>
      && 0 < iPage && iPage != PendingPage(cfg.srcSz) && |aData| == cfg.srcSz && FaultsOk(faults)
      && (iPage <= |w.src| + 1 || (iPage == |w.src| + 2 && |w.src| + 1 == PendingPage(cfg.srcSz)))
    case Shrink(nPage) => nPage <= |w.src| && nPage != PendingPage(cfg.srcSz)
    case Restart(pages) => SourceOk(cfg, pages)
  }

  // The source after page iPage is written; a skipped pending-byte page stays empty.
  function WriteSource(cfg: Config, src: seq<Page>, iPage: nat, aData: Page): (r: seq<Page>)
    requires Sized(src, cfg.srcSz) && iPage > 0 && |aData| == cfg.srcSz
    ensures Sized(r, cfg.srcSz)
  {
    var padded := Pad(src, cfg.srcSz, iPage);
    padded[iPage - 1 := aData]
  }

  function Next(cfg: Config, w: World, e: Event): (r: World)
    requires WellFormed(cfg, w) && Enabled(cfg, w, e)
    ensures WellFormed(cfg, r)
  {
    match e
    case DoStep(nPage, env) => Step(cfg, w, nPage, env)
    case Write(iPage, aData, faults) =>
      var w1 := w.(src := WriteSource(cfg, w.src, iPage, aData));
      if w.isAttached then Update(cfg, w1, iPage, aData, faults) else w1
    case Shrink(nPage) => w.(src := w.src[..nPage])
    case Restart(pages) => if w.isAttached then w.(src := pages, iNext := 1) else w.(src := pages)
  }

  // Bytes of other pages keep their status when one source page changes.
  lemma OtherPage(cfg: Config, src: seq<Page>, dest: seq<Page>, q: nat, aData: Page, off: nat)
    requires ValidConfig(cfg) && Sized(src, cfg.srcSz) && Sized(dest, cfg.destSz) && |aData| == cfg.srcSz && q > 0
    requires off / cfg.srcSz != q - 1
    ensures ByteOk(cfg, WriteSource(cfg, src, q, aData), dest, off) == ByteOk(cfg, src, dest, off)
  {
  }

  lemma {:induction false} WriteKeeps(cfg: Config, w: World, iPage: nat, aData: Page, faults: map<nat, int>)
    requires Inv(cfg, w) && Enabled(cfg, w, Write(iPage, aData, faults))
    ensures Inv(cfg, Next(cfg, w, Write(iPage, aData, faults)))
  {
    hide IsPageSize, BackupOnePage, ByteOk;
    SizesPositive(cfg);
    var src' := WriteSource(cfg, w.src, iPage, aData);
    var w1 := w.(src := src');
    var r := Next(cfg, w, Write(iPage, aData, faults));
    assert src'[iPage - 1] == aData;
    if !IsFatalError(r.rc) {
      OnePageCode(cfg, w.dest, |src'|, iPage, aData, true, faults);
      forall off: nat | off / cfg.srcSz < Claimed(r) ensures ByteOk(cfg, src', r.dest, off) {
        if off / cfg.srcSz == |w.src| && iPage == |w.src| + 2 {
          SkippedPage(cfg, src', r.dest, off);
        } else if off / cfg.srcSz != iPage - 1 {
          OtherPage(cfg, w.src, w.dest, iPage, aData, off);
          if iPage < w.iNext { OnePageByte(cfg, src', w.dest, iPage, true, faults, off); }
        } else {
          OnePageByte(cfg, src', w.dest, iPage, true, faults, off);
        }
      }
    }
  }

  lemma SkippedPage(cfg: Config, src: seq<Page>, dest: seq<Page>, off: nat)
    requires ValidConfig(cfg) && Sized(src, cfg.srcSz) && Sized(dest, cfg.destSz)
    requires PageOf(off, cfg.srcSz) == PendingPage(cfg.srcSz)
    ensures ByteOk(cfg, src, dest, off)
  {
  }

  lemma {:induction false} ShrinkKeeps(cfg: Config, w: World, nPage: nat)
    requires Inv(cfg, w) && Enabled(cfg, w, Shrink(nPage))
    ensures Inv(cfg, Next(cfg, w, Shrink(nPage)))
  {
    var src' := w.src[..nPage];
    if !IsFatalError(w.rc) {
      forall off: nat | off / cfg.srcSz < Claimed(w.(src := src')) ensures ByteOk(cfg, src', w.dest, off) {
        assert ByteOk(cfg, w.src, w.dest, off);
      }
    }
  }

  lemma {:induction false} RestartKeeps(cfg: Config, w: World, pages: seq<Page>)
    requires Inv(cfg, w) && Enabled(cfg, w, Restart(pages))
    ensures Inv(cfg, Next(cfg, w, Restart(pages)))
  {
  }

  /** Every event keeps what has been copied in agreement with the source. */
  lemma {:induction false} NextKeeps(cfg: Config, w: World, e: Event)
    requires Inv(cfg, w) && Enabled(cfg, w, e)
    ensures Inv(cfg, Next(cfg, w, e))
  {
    match e
    case DoStep(nPage, env) => StepKeeps(cfg, w, nPage, env);
    case Write(iPage, aData, faults) => WriteKeeps(cfg, w, iPage, aData, faults);
    case Shrink(nPage) => ShrinkKeeps(cfg, w, nPage);
    case Restart(pages) => RestartKeeps(cfg, w, pages);
  }

  // The world after the events es; an event that is not possible is skipped.
  function Run(cfg: Config, w: World, es: seq<Event>): (r: World)
    requires WellFormed(cfg, w)
    ensures WellFormed(cfg, r)
  {
    if |es| == 0 then w
    else
      var w1 := Run(cfg, w, es[..|es| - 1]);
      var e := es[|es| - 1];
      if Enabled(cfg, w1, e) then Next(cfg, w1, e) else w1
  }

  // sqlite3_backup_init
  function Start(src: seq<Page>, dest: seq<Page>, file: seq<int>): World {
    World(1, OK, false, 0, false, 0, 0, src, dest, file)
  }

  /** In every run, every page below iNext matches the source until a fatal code is stored. */
  lemma {:induction false} RunKeeps(cfg: Config, src: seq<Page>, dest: seq<Page>, file: seq<int>, es: seq<Event>)
    requires ValidConfig(cfg) && SourceOk(cfg, src) && Sized(dest, cfg.destSz)
    ensures Inv(cfg, Run(cfg, Start(src, dest, file), es))
  {
    if |es| > 0 {
      var n := |es| - 1;
      RunKeeps(cfg, src, dest, file, es[..n]);
      var w := Run(cfg, Start(src, dest, file), es[..n]);
      if Enabled(cfg, w, es[n]) { NextKeeps(cfg, w, es[n]); }
    }
  }
}
