/** What a call of sqlite3_backup_step achieves and reports: when it is
    refused, which failure ends it, how far it gets, and when DONE comes. */
module BackupSteps {
  import opened Arithmetic
  import opened PageBytes
  import opened Backup
  import opened BackupSafety
  import opened BackupDone

  /** One page. */

  // The destination page at file offset off is written, and that fails.
  predicate Hit(cfg: Config, faults: map<nat, int>, off: nat)
    requires cfg.destSz > 0
  {
    PageOf(off, cfg.destSz) in faults && !InPending(off, cfg.destSz)
  }

  // Writing lo..hi-1 in order ends with rc: that of the first page that fails.
  ghost predicate StopsWith(cfg: Config, faults: map<nat, int>, lo: nat, hi: nat, rc: int)
    requires cfg.destSz > 0
  {
    if rc == OK then forall off: nat :: lo <= off < hi ==> !Hit(cfg, faults, off)
    else exists off: nat :: lo <= off < hi && FirstHit(cfg, faults, lo, off, rc)
  }

  ghost predicate FirstHit(cfg: Config, faults: map<nat, int>, lo: nat, off: nat, rc: int)
    requires cfg.destSz > 0
  {
    && Hit(cfg, faults, off) && rc == faults[PageOf(off, cfg.destSz)]
    && forall o: nat :: lo <= o < off ==> !Hit(cfg, faults, o)
  }

  // The bytes of one chunk succeed or fail together.
  lemma ChunkHit(cfg: Config, faults: map<nat, int>, iOff: nat)
    requires ValidConfig(cfg) && iOff % CopySize(cfg) == 0
    ensures forall off: nat :: iOff <= off < iOff + CopySize(cfg) ==>
              (Hit(cfg, faults, off) <==> Hit(cfg, faults, iOff))
  {
    hide IsPageSize;
    forall off: nat | iOff <= off < iOff + CopySize(cfg)
      ensures Hit(cfg, faults, off) <==> Hit(cfg, faults, iOff)
    {
      ChunkPage(iOff, cfg.destSz, CopySize(cfg), off - iOff);
    }
  }

  // The rest of the loop, after a chunk that does not fail.
  lemma StopsLater(cfg: Config, faults: map<nat, int>, lo: nat, mid: nat, hi: nat, rc: int)
    requires cfg.destSz > 0 && lo <= mid && StopsWith(cfg, faults, mid, hi, rc)
    requires forall off: nat :: lo <= off < mid && off < hi ==> !Hit(cfg, faults, off)
    ensures StopsWith(cfg, faults, lo, hi, rc)
  {
    if rc != OK {
      var off: nat :| mid <= off < hi && FirstHit(cfg, faults, mid, off, rc);
      assert FirstHit(cfg, faults, lo, off, rc);
    }
  }

  lemma {:induction false} LoopStops(cfg: Config, dest: seq<Page>, nSrc: nat, data: Page, bUpdate: bool,
      faults: map<nat, int>, iSrcPg: nat, iOff: nat)
    requires ValidConfig(cfg) && Sized(dest, cfg.destSz) && |data| == cfg.srcSz && FaultsOk(faults)
    requires LoopAt(cfg, iSrcPg, iOff)
    ensures StopsWith(cfg, faults, iOff, iSrcPg * cfg.srcSz,
        CopyLoop(cfg, dest, nSrc, data, bUpdate, faults, OK, iOff, iSrcPg * cfg.srcSz).0)
    decreases iSrcPg * cfg.srcSz - iOff
  {
    hide IsPageSize, CopyChunk;
    var c, iEnd, next := CopySize(cfg), iSrcPg * cfg.srcSz, iOff + cfg.destSz;
    if iOff < iEnd {
      LoopNext(cfg, iSrcPg, iOff);
      ChunkHit(cfg, faults, iOff);
      if Hit(cfg, faults, iOff) {
        assert FirstHit(cfg, faults, iOff, iOff, faults[PageOf(iOff, cfg.destSz)]);
      } else {
        var dest' := if InPending(iOff, cfg.destSz) then dest else CopyChunk(cfg, dest, nSrc, data, bUpdate, iOff);
        LoopStops(cfg, dest', nSrc, data, bUpdate, faults, iSrcPg, next);
        StopsLater(cfg, faults, iOff, next, iEnd,
            CopyLoop(cfg, dest', nSrc, data, bUpdate, faults, OK, next, iEnd).0);
      }
    }
  }

  // Page sizes differ and the destination cannot have another page size.
  predicate Rigid(cfg: Config) {
    cfg.srcSz != cfg.destSz && cfg.destIsMemdb
  }

  /** backupOnePage reports the first destination page that fails, and refuses an in-memory destination of another page
      size. */
  lemma {:induction false} OnePageReports(cfg: Config, dest: seq<Page>, nSrc: nat, q: nat, data: Page, bUpdate: bool,
      faults: map<nat, int>)
    requires ValidConfig(cfg) && Sized(dest, cfg.destSz) && |data| == cfg.srcSz && q > 0 && FaultsOk(faults)
    ensures var rc := BackupOnePage(cfg, dest, nSrc, q, data, bUpdate, faults).0;
            if Rigid(cfg) then rc == READONLY else StopsWith(cfg, faults, (q - 1) * cfg.srcSz, q * cfg.srcSz, rc)
  {
    hide IsPageSize, CopyLoop, StopsWith;
    LoopStart(cfg, q);
    SizesPositive(cfg);
    if Rigid(cfg) {
      LoopIdle(cfg, dest, nSrc, data, bUpdate, faults, (q - 1) * cfg.srcSz, q * cfg.srcSz);
    } else {
      LoopStops(cfg, dest, nSrc, data, bUpdate, faults, q, (q - 1) * cfg.srcSz);
    }
  }

  lemma LoopIdle(cfg: Config, dest: seq<Page>, nSrc: nat, data: Page, bUpdate: bool, faults: map<nat, int>, iOff: nat,
      iEnd: nat)
    requires ValidConfig(cfg) && Sized(dest, cfg.destSz) && |data| == cfg.srcSz && iOff % CopySize(cfg) == 0
    ensures CopyLoop(cfg, dest, nSrc, data, bUpdate, faults, READONLY, iOff, iEnd).0 == READONLY
  {
    hide IsPageSize, CopyChunk;
  }

  /** A page written by the source pager behind iNext is copied again; a failure is kept as the code of the backup. */
  lemma {:induction false} UpdateReports(cfg: Config, w: World, iPage: nat, aData: Page, faults: map<nat, int>)
    requires WellFormed(cfg, w) && iPage > 0 && |aData| == cfg.srcSz && FaultsOk(faults)
    ensures cfg.destSz > 0
    ensures var r, lo, hi := Update(cfg, w, iPage, aData, faults), (iPage - 1) * cfg.srcSz, iPage * cfg.srcSz;
            if IsFatalError(w.rc) || w.iNext <= iPage then r == w
            else if Rigid(cfg) then r.rc == READONLY
            else if StopsWith(cfg, faults, lo, hi, OK) then r.rc == w.rc
            else IsFault(r.rc) && StopsWith(cfg, faults, lo, hi, r.rc)
  {
    SizesPositive(cfg);
    hide IsPageSize, BackupOnePage, Hit, Rigid, Sized, FaultsOk;
    OnePageReports(cfg, w.dest, |w.src|, iPage, aData, true, faults);
    OnePageCode(cfg, w.dest, |w.src|, iPage, aData, true, faults);
  }

  /** The copy of page 1 holds the source's page count, except when it is an update. */
  lemma {:induction false} PageCountWritten(cfg: Config, dest: seq<Page>, nSrc: nat, data: Page, bUpdate: bool,
      faults: map<nat, int>, i: nat)
    requires ValidConfig(cfg) && Sized(dest, cfg.destSz) && |data| == cfg.srcSz && FaultsOk(faults) && i < 4
    ensures var r := BackupOnePage(cfg, dest, nSrc, 1, data, bUpdate, faults);
            r.0 == OK ==> ByteAt(r.1, cfg.destSz, 28 + i) == if bUpdate then data[28 + i] else Put4(nSrc)[i]
  {
    PendingStart(cfg);
    hide IsPageSize, CopyLoop, Put4, ByteAt, PendingPage;
    SizesPositive(cfg);
    var rc := if Rigid(cfg) then READONLY else OK;
    LoopStart(cfg, 1);
    BelowEnd(28 + i, cfg.destSz, 1);
    LoopByte(cfg, dest, nSrc, data, bUpdate, faults, rc, 1, 0, 28 + i);
  }

  /** The copying loop. */

  // Source page p cannot be copied.
  ghost predicate PageFails(cfg: Config, env: Env, p: nat)
    requires cfg.destSz > 0 && cfg.srcSz > 0 && p > 0
  {
    && p != PendingPage(cfg.srcSz)
    && (p in env.srcFaults || Rigid(cfg)
        || exists off: nat :: (p - 1) * cfg.srcSz <= off < p * cfg.srcSz && Hit(cfg, env.destFaults, off))
  }

  lemma CopyOneFails(cfg: Config, w: World, env: Env)
    requires WellFormed(cfg, w) && w.iNext <= |w.src| && FaultsOk(env.srcFaults) && FaultsOk(env.destFaults)
    ensures cfg.destSz > 0 && cfg.srcSz > 0
    ensures CopyOne(cfg, w, env).0 != OK <==> PageFails(cfg, env, w.iNext)
    ensures CopyOne(cfg, w, env).0 != OK && w.iNext in env.srcFaults ==>
              CopyOne(cfg, w, env).0 == env.srcFaults[w.iNext]
    ensures OkOrFault(CopyOne(cfg, w, env).0)
  {
    hide IsPageSize, BackupOnePage, PendingPage;
    SizesPositive(cfg);
    if w.iNext != PendingPage(cfg.srcSz) && w.iNext !in env.srcFaults {
      OnePageReports(cfg, w.dest, |w.src|, w.iNext, w.src[w.iNext - 1], false, env.destFaults);
      OnePageCode(cfg, w.dest, |w.src|, w.iNext, w.src[w.iNext - 1], false, env.destFaults);
    }
  }

  // The last page a call with room for n more pages tries (all, if n < 0).
  function LastPage(w: World, n: int): int {
    if n < 0 then |w.src| else Min(|w.src|, w.iNext + n - 1)
  }

  // The loop got from page lo to page to, with rc: past every page up to last, or behind the first that fails.
  ghost predicate Copies(cfg: Config, env: Env, lo: nat, last: int, to: nat, rc: int)
    requires cfg.destSz > 0 && cfg.srcSz > 0 && lo > 0
  {
    if rc == OK then
      to == (if lo <= last then last + 1 else lo) && forall p :: lo <= p <= last ==> !PageFails(cfg, env, p)
    else
      && lo < to <= last + 1 && PageFails(cfg, env, to - 1)
      && (to - 1 in env.srcFaults ==> rc == env.srcFaults[to - 1])
      && forall p :: lo <= p < to - 1 ==> !PageFails(cfg, env, p)
  }

  lemma CopiesNext(cfg: Config, env: Env, lo: nat, last: int, to: nat, rc: int)
    requires cfg.destSz > 0 && cfg.srcSz > 0 && lo > 0 && lo <= last
    requires !PageFails(cfg, env, lo) && Copies(cfg, env, lo + 1, last, to, rc)
    ensures Copies(cfg, env, lo, last, to, rc)
  {
  }

  lemma {:induction false} LoopCopies(cfg: Config, w: World, nPage: int, ii: nat, env: Env)
    requires WellFormed(cfg, w) && FaultsOk(env.srcFaults) && FaultsOk(env.destFaults) && w.rc == OK
    requires nPage < 0 || ii <= nPage
    ensures cfg.destSz > 0 && cfg.srcSz > 0
    ensures var r := CopyPages(cfg, w, nPage, ii, env);
            && Copies(cfg, env, w.iNext, LastPage(w, if nPage < 0 then -1 else nPage - ii), r.iNext, r.rc)
            && OkOrFault(r.rc)
    decreases |w.src| + 1 - w.iNext
  {
    hide ValidConfig, PageFails, CopyOne, FaultsOk, Sized;
    SizesPositive(cfg);
    if (nPage < 0 || ii < nPage) && w.iNext <= |w.src| {
      CopyOneFails(cfg, w, env);
      var (rc, dest) := CopyOne(cfg, w, env);
      var w' := w.(iNext := w.iNext + 1, rc := rc, dest := dest);
      if rc == OK {
        LoopCopies(cfg, w', nPage, ii + 1, env);
        var r := CopyPages(cfg, w', nPage, ii + 1, env);
        hide Copies;
        CopiesNext(cfg, env, w.iNext, LastPage(w, if nPage < 0 then -1 else nPage - ii), r.iNext, r.rc);
      } else {
        CopyPagesIdle(cfg, w', nPage, ii + 1, env);
      }
    }
  }

  /** The calls that finish a backup. */

  lemma {:induction false} ExtraStops(cfg: Config, src: seq<Page>, file: seq<int>, faults: map<nat, int>, iOff: nat,
      iEnd: nat)
    requires ValidConfig(cfg) && Sized(src, cfg.srcSz) && FaultsOk(faults) && iOff % cfg.srcSz == 0
    ensures cfg.srcSz > 0
    ensures WriteExtra(cfg, src, file, faults, OK, iOff, iEnd).0 == OK
            <==> forall off: nat :: iOff <= off < iEnd ==> PageOf(off, cfg.srcSz) !in faults
    decreases iEnd - iOff
  {
    hide IsPageSize, OsWrite;
    SizesPositive(cfg);
    if iOff < iEnd {
      var q, sz := PageOf(iOff, cfg.srcSz), cfg.srcSz;
      StepAligned(iOff, sz, sz);
      forall off: nat | iOff <= off < iOff + sz ensures PageOf(off, sz) == q {
        ChunkPage(iOff, sz, sz, off - iOff);
      }
      if q !in faults {
        var zData := if q <= |src| then src[q - 1] else Zeros(sz);
        ExtraStops(cfg, src, OsWrite(file, zData, iOff), faults, iOff + sz, iEnd);
      }
    }
  }

  // The source pages after the pending-byte page that are written straight into the file can be read and written.
  ghost predicate ExtraWritten(cfg: Config, nSrcPage: nat, faults: map<nat, int>)
    requires cfg.srcSz > 0
  {
    forall off: nat :: PENDING_BYTE + cfg.srcSz <= off < Min(PENDING_BYTE + cfg.destSz, nSrcPage * cfg.srcSz) ==>
      PageOf(off, cfg.srcSz) !in faults
  }

  // None of the calls that finish this backup fails.
  ghost predicate FinishOk(cfg: Config, w: World, env: Env)
    requires cfg.srcSz > 0
  {
    && (|w.src| == 0 ==> env.rcNewDb == OK)
    && env.rcMeta == OK && (cfg.wal ==> env.rcVersion == OK) && env.rcCommitOne == OK && env.rcCommitTwo == OK
    && (cfg.srcSz < cfg.destSz ==>
          && env.rcJournal == OK && env.rcTruncate == OK && env.rcSync == OK
          && ExtraWritten(cfg, if |w.src| == 0 then 1 else |w.src|, env.extraFaults))
  }

  predicate StampOk(cfg: Config, w: World, env: Env) {
    (|w.src| == 0 ==> env.rcNewDb == OK) && env.rcMeta == OK && (cfg.wal ==> env.rcVersion == OK)
  }

  lemma StampReports(cfg: Config, w: World, env: Env)
    requires WellFormed(cfg, w) && EnvOk(cfg, env) && w.rc == DONE
    ensures var rc := StampHeader(cfg, w, env).rc;
            (rc == OK <==> StampOk(cfg, w, env)) && rc in {OK, env.rcNewDb, env.rcMeta, env.rcVersion}
  {
    hide IsPageSize, FaultsOk, PutBytes, Put4;
  }

  lemma PatchedReports(cfg: Config, w: World, nSrcPage: nat, env: Env)
    requires WellFormed(cfg, w) && FaultsOk(env.extraFaults)
    ensures cfg.srcSz > 0
    ensures CommitPatched(cfg, w, nSrcPage, env).rc == OK
            <==> env.rcJournal == OK && env.rcCommitOne == OK && env.rcTruncate == OK && env.rcSync == OK
                 && ExtraWritten(cfg, nSrcPage, env.extraFaults)
  {
    PendingDivides(cfg);
    hide IsPageSize, WriteExtra, Flatten;
    SizesPositive(cfg);
    StepAligned(PENDING_BYTE, cfg.srcSz, cfg.srcSz);
    var rc := if env.rcJournal == OK then env.rcCommitOne else env.rcJournal;
    var file := if rc == OK then Flatten(w.dest, cfg.destSz) else w.file;
    ExtraOk(cfg, w.src, file, env.extraFaults, rc, ExtraEnd(cfg, nSrcPage));
    ExtraStops(cfg, w.src, file, env.extraFaults, PENDING_BYTE + cfg.srcSz, ExtraEnd(cfg, nSrcPage));
  }

  /** A finishing step reports DONE exactly if none of its calls fails. */
  lemma {:induction false} DoneExactly(cfg: Config, w: World, env: Env)
    requires WellFormed(cfg, w) && EnvOk(cfg, env) && w.rc == DONE
    ensures cfg.srcSz > 0
    ensures Finish(cfg, w, env).rc == DONE <==> FinishOk(cfg, w, env)
    ensures IsFatalError(Finish(cfg, w, env).rc)
  {
    EnvFaults(cfg, env);
    FinishCode(cfg, w, env);
    hide IsPageSize, FaultsOk, StampHeader, CommitPatched, Flatten, ExtraWritten;
    SizesPositive(cfg);
    StampReports(cfg, w, env);
    PatchedReports(cfg, StampHeader(cfg, w, env), if |w.src| == 0 then 1 else |w.src|, env);
    PatchedCode(cfg, StampHeader(cfg, w, env), if |w.src| == 0 then 1 else |w.src|, env);
  }

  /** One call. */

  // The locks a call needs are there or can be had, and WAL mode does not forbid the page sizes.
  predicate Begins(cfg: Config, w: World, env: Env) {
    && !(cfg.ownDestDb && env.srcInWrite)
    && (env.srcInRead || env.rcBeginSrc == OK)
    && (w.bDestLocked || (!env.nomem && env.rcBeginDest == OK))
    && !(cfg.wal && cfg.srcSz != cfg.destSz)
  }

  // sqlite3_backup_step never reports SQLITE_IOERR_NOMEM.
  function Shown(rc: int): int {
    if rc == IOERR_NOMEM then NOMEM else rc
  }

  /** A call that is refused reports why and changes nothing but the locks; so does one after a fatal error. */
  lemma {:induction false} StepRefused(cfg: Config, w: World, nPage: int, env: Env)
    requires WellFormed(cfg, w) && EnvOk(cfg, env)
    ensures var r := Step(cfg, w, nPage, env);
            if w.rc !in {OK, BUSY, LOCKED} then r == w
            else if cfg.ownDestDb && env.srcInWrite then r == w.(rc := BUSY)
            else if !env.srcInRead && env.rcBeginSrc != OK then r == w.(rc := Shown(env.rcBeginSrc))
            else if !w.bDestLocked && env.nomem then r == w.(rc := NOMEM)
            else if !w.bDestLocked && env.rcBeginDest != OK then r == w.(rc := Shown(env.rcBeginDest))
            else if cfg.wal && cfg.srcSz != cfg.destSz then
              r == w.(rc := READONLY, bDestLocked := true,
                  iDestSchema := if w.bDestLocked then w.iDestSchema else env.schema)
            else r.bDestLocked && (r.iDestSchema == if w.bDestLocked then w.iDestSchema else env.schema)
  {
    hide ValidConfig, Sized, FaultsOk, OkOrFault, Finish, CopyPages;
    if !IsFatalError(w.rc) && !Begins(cfg, w, env) { CopyPagesIdle(cfg, Begin(cfg, w, env), nPage, 0, env); }
  }

  // The pages this call tries can all be copied.
  ghost predicate AllCopied(cfg: Config, env: Env, lo: nat, last: int)
    requires cfg.destSz > 0 && cfg.srcSz > 0 && lo > 0
  {
    forall p :: lo <= p <= last ==> !PageFails(cfg, env, p)
  }

  // A call stopped by page r.iNext-1.
  ghost predicate Stopped(cfg: Config, env: Env, w: World, last: int, r: World)
    requires cfg.destSz > 0 && cfg.srcSz > 0 && w.iNext > 0
  {
    && w.iNext < r.iNext <= last + 1 && PageFails(cfg, env, r.iNext - 1)
    && AllCopied(cfg, env, w.iNext, r.iNext - 2)
    && IsFault(r.rc) && (r.iNext - 1 in env.srcFaults ==> r.rc == Shown(env.srcFaults[r.iNext - 1]))
    && r.isAttached == w.isAttached && r.file == w.file
    && r.nPagecount == w.nPagecount && r.nRemaining == w.nRemaining
  }

  // A call that got through its pages, last being the last.
  ghost predicate Through(cfg: Config, env: Env, w: World, last: int, r: World)
    requires cfg.srcSz > 0
  {
    && r.iNext == (if w.iNext <= last then last + 1 else w.iNext) && r.nPagecount == |w.src|
    && (if last < |w.src| then
          r.rc == OK && r.isAttached && r.file == w.file && (|w.src| < U32 ==> r.nRemaining == |w.src| + 1 - r.iNext)
        else
          && r.isAttached == w.isAttached && IsFatalError(r.rc) && (r.rc == DONE <==> FinishOk(cfg, w, env))
          && (r.iNext == |w.src| + 1 ==> r.nRemaining == 0))
  }

  lemma BeginOk(cfg: Config, w: World, env: Env)
    requires Begins(cfg, w, env)
    ensures Begin(cfg, w, env).rc == OK
  {
  }

  // The call after its copying loop.
  function AfterLoop(cfg: Config, w1: World, env: Env): (r: World)
    requires WellFormed(cfg, w1) && EnvOk(cfg, env)
  {
    var w2 := Progress(w1);
    var w3 := if w2.rc == DONE then Finish(cfg, w2, env) else w2;
    w3.(rc := Shown(w3.rc))
  }

  lemma StepParts(cfg: Config, w: World, nPage: int, env: Env)
    requires WellFormed(cfg, w) && EnvOk(cfg, env) && !IsFatalError(w.rc)
    ensures Step(cfg, w, nPage, env) == AfterLoop(cfg, CopyPages(cfg, Begin(cfg, w, env), nPage, 0, env), env)
  {
    hide WellFormed, EnvOk, Finish, CopyPages, Begin;
  }

  // w1 is w further on: a later iNext, more of the destination written.
  predicate Ahead(w: World, w1: World) {
    && w1.src == w.src && w1.file == w.file && w1.isAttached == w.isAttached
    && w1.nPagecount == w.nPagecount && w1.nRemaining == w.nRemaining
  }

  lemma StopsAfter(cfg: Config, w: World, w1: World, env: Env, last: int)
    requires WellFormed(cfg, w1) && EnvOk(cfg, env) && OkOrFault(w1.rc) && w1.rc != OK && Ahead(w, w1) && w.iNext > 0
    requires cfg.destSz > 0 && cfg.srcSz > 0 && Copies(cfg, env, w.iNext, last, w1.iNext, w1.rc)
    ensures Stopped(cfg, env, w, last, AfterLoop(cfg, w1, env)) && !AllCopied(cfg, env, w.iNext, last)
  {
    hide WellFormed, EnvOk, Finish, PageFails;
  }

  lemma GoesOn(cfg: Config, w: World, w1: World, env: Env, last: int)
    requires WellFormed(cfg, w1) && EnvOk(cfg, env) && w1.rc == OK && Ahead(w, w1) && w.iNext > 0
    requires cfg.destSz > 0 && cfg.srcSz > 0 && Copies(cfg, env, w.iNext, last, w1.iNext, w1.rc)
    requires last <= |w.src| && (w1.iNext > |w1.src| ==> last == |w1.src|)
    ensures Through(cfg, env, w, last, AfterLoop(cfg, w1, env)) && AllCopied(cfg, env, w.iNext, last)
  {
    hide ValidConfig, Sized, EnvOk, Finish, FinishOk, PageFails;
    var w2 := Progress(w1);
    if w2.rc == DONE {
      DoneExactly(cfg, w2, env);
      SameFinish(cfg, w, w2, env);
    }
  }

  /** A call that begins copies up to nPage pages, or all with a negative nPage:
      it stops at the first that fails, or goes on to finish behind the last. */
  lemma {:induction false} StepReports(cfg: Config, w: World, nPage: int, env: Env)
    requires WellFormed(cfg, w) && EnvOk(cfg, env) && !IsFatalError(w.rc) && Begins(cfg, w, env)
    ensures cfg.destSz > 0 && cfg.srcSz > 0
    ensures var r, last := Step(cfg, w, nPage, env), LastPage(w, nPage);
            if AllCopied(cfg, env, w.iNext, last) then Through(cfg, env, w, last, r)
            else Stopped(cfg, env, w, last, r)
  {
    SizesPositive(cfg);
    EnvParts(cfg, env);
    BeginOk(cfg, w, env);
    StepParts(cfg, w, nPage, env);
    hide ValidConfig, Sized, OkOrFault, EnvOk, FaultsOk, CopyPages, Copies, AllCopied, Step, AfterLoop, Through,
        Stopped, Begins;
    var w0, last := Begin(cfg, w, env), LastPage(w, nPage);
    var w1 := CopyPages(cfg, w0, nPage, 0, env);
    LoopCopies(cfg, w0, nPage, 0, env);
    if w1.rc == OK {
      EndOfLoop(cfg, env, w, last, nPage, w1.iNext);
      GoesOn(cfg, w, w1, env, last);
    } else {
      StopsAfter(cfg, w, w1, env, last);
    }
  }

  lemma EndOfLoop(cfg: Config, env: Env, w: World, last: int, nPage: int, to: nat)
    requires cfg.destSz > 0 && cfg.srcSz > 0 && w.iNext > 0 && last == LastPage(w, nPage)
    requires Copies(cfg, env, w.iNext, last, to, OK)
    ensures last <= |w.src| && (to > |w.src| ==> last == |w.src|)
  {
    hide PageFails;
  }

  lemma EnvParts(cfg: Config, env: Env)
    requires EnvOk(cfg, env)
    ensures FaultsOk(env.srcFaults) && FaultsOk(env.destFaults)
  {
  }

  lemma SameFinish(cfg: Config, w: World, w': World, env: Env)
    requires cfg.srcSz > 0 && w.src == w'.src
    ensures FinishOk(cfg, w, env) == FinishOk(cfg, w', env)
  {
  }

  /** When DONE comes. */

  // A call during which nothing fails.
  predicate Quiet(env: Env) {
    && !env.srcInWrite && env.rcBeginSrc == OK && !env.nomem && env.rcBeginDest == OK
    && env.srcFaults == map[] && env.destFaults == map[] && env.extraFaults == map[]
    && env.rcNewDb == OK && env.rcMeta == OK && env.rcVersion == OK && env.rcJournal == OK && env.rcCommitOne == OK
    && env.rcTruncate == OK && env.rcSync == OK && env.rcCommitTwo == OK
  }

  // Configurations in which no step is refused.
  predicate Permitted(cfg: Config) {
    cfg.srcSz == cfg.destSz || (!cfg.destIsMemdb && !cfg.wal)
  }

  // The world after j steps of k pages each.
  function Steps(cfg: Config, w: World, k: nat, envs: seq<Env>): (r: World)
    requires WellFormed(cfg, w) && forall i :: 0 <= i < |envs| ==> EnvOk(cfg, envs[i])
    ensures WellFormed(cfg, r) && r.src == w.src
  {
    if |envs| == 0 then w
    else
      var n := |envs| - 1;
      Step(cfg, Steps(cfg, w, k, envs[..n]), k, envs[n])
  }

  // Then every page can be copied, and the finishing calls succeed.
  lemma QuietPages(cfg: Config, w: World, env: Env, last: int)
    requires WellFormed(cfg, w) && Permitted(cfg) && Quiet(env)
    ensures cfg.destSz > 0 && cfg.srcSz > 0
    ensures Begins(cfg, w, env) && AllCopied(cfg, env, w.iNext, last) && FinishOk(cfg, w, env)
  {
    SizesPositive(cfg);
    hide IsPageSize;
  }

  /** A call during which nothing fails copies as many pages as it may; with a
      negative nPage, all of them, and then it reports DONE. */
  lemma {:induction false} QuietStep(cfg: Config, w: World, nPage: int, env: Env)
    requires WellFormed(cfg, w) && Permitted(cfg) && EnvOk(cfg, env) && Quiet(env) && w.rc in {OK, BUSY, LOCKED}
    ensures var r := Step(cfg, w, nPage, env);
            && r.nPagecount == |w.src|
            && (if nPage < 0 || w.iNext + nPage > |w.src| then
                  && r.rc == DONE && r.iNext == Max(w.iNext, |w.src| + 1)
                  && (w.iNext <= |w.src| + 1 ==> r.nRemaining == 0)
                else
                  && r.rc == OK && r.isAttached && r.iNext == w.iNext + nPage
                  && (|w.src| < U32 ==> r.nRemaining == |w.src| + 1 - r.iNext))
  {
    hide WellFormed, Step, AllCopied, FinishOk, EnvOk, Quiet, Begins, Permitted;
    QuietPages(cfg, w, env, LastPage(w, nPage));
    StepReports(cfg, w, nPage, env);
  }

  function Max(a: int, b: int): int {
    if a < b then b else a
  }

  /** After any run without a fatal error, one call with a negative nPage during
      which nothing fails makes the destination file match the source. */
  lemma {:induction false} OneCallCopies(cfg: Config, src: seq<Page>, dest: seq<Page>, file: seq<int>, es: seq<Event>,
      nPage: int, env: Env)
    requires ValidConfig(cfg) && SourceOk(cfg, src) && Sized(dest, cfg.destSz) && EnvOk(cfg, env)
    requires Permitted(cfg) && Quiet(env) && nPage < 0
    ensures var w := Run(cfg, Start(src, dest, file), es); var r := Step(cfg, w, nPage, env);
            w.rc in {OK, BUSY, LOCKED} && |w.src| > 0 ==>
              r.rc == DONE && r.src == w.src && FileMatches(cfg, r.src, r.file)
  {
    hide Step, Run, FileMatches, EnvOk, Quiet, Permitted, ValidConfig;
    var w := Run(cfg, Start(src, dest, file), es);
    DoneMeansCopied(cfg, src, dest, file, es, nPage, env);
    if w.rc in {OK, BUSY, LOCKED} { QuietStep(cfg, w, nPage, env); }
  }

  // Before the source is covered, j steps have copied j*k pages.
  lemma {:induction false} StepsProgress(cfg: Config, w: World, k: nat, envs: seq<Env>)
    requires WellFormed(cfg, w) && Permitted(cfg) && w.rc == OK && w.iNext == 1 && |envs| * k < |w.src|
    requires forall i :: 0 <= i < |envs| ==> EnvOk(cfg, envs[i]) && Quiet(envs[i])
    ensures var r := Steps(cfg, w, k, envs); r.rc == OK && r.iNext == |envs| * k + 1
  {
    hide IsPageSize, Step, EnvOk, Quiet, Sized;
    if |envs| > 0 {
      var n := |envs| - 1;
      assert |envs| * k == n * k + k;
      StepsProgress(cfg, w, k, envs[..n]);
      QuietStep(cfg, Steps(cfg, w, k, envs[..n]), k, envs[n]);
    }
  }

  /** With an unchanging source of N >= 1 pages and steps of k >= 1 pages, DONE
      comes at step ceil(N/k) and not before. */
  lemma {:induction false} DoneAtStep(cfg: Config, w: World, k: nat, envs: seq<Env>)
    requires WellFormed(cfg, w) && Permitted(cfg) && w.rc == OK && w.iNext == 1 && |w.src| > 0 && k > 0 && |envs| > 0
    requires forall i :: 0 <= i < |envs| ==> EnvOk(cfg, envs[i]) && Quiet(envs[i])
    requires (|envs| - 1) * k < |w.src|
    ensures Steps(cfg, w, k, envs).rc == if |w.src| <= |envs| * k then DONE else OK
  {
    hide IsPageSize, Step, EnvOk, Quiet, Sized;
    var n := |envs| - 1;
    assert |envs| * k == n * k + k;
    StepsProgress(cfg, w, k, envs[..n]);
    QuietStep(cfg, Steps(cfg, w, k, envs[..n]), k, envs[n]);
  }
}
