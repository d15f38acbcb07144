/** The backup object and the source pager's list of attached backups, updated
    in place; every method is proved against the functions of Backup. */
module BackupObject {
  import opened PageBytes
  import opened Backup
  import opened BackupSafety
  import opened BackupDone

  class Sqlite3Backup {
    const cfg: Config
    var iNext: nat
    var rc: int
    var bDestLocked: bool
    var iDestSchema: nat
    var isAttached: bool
    var nRemaining: nat
    var nPagecount: nat
    var dest: seq<Page>
    var file: seq<int>
    var pNext: Sqlite3Backup?

    function State(src: seq<Page>): World
      reads `iNext, `rc, `bDestLocked, `iDestSchema, `isAttached, `nRemaining, `nPagecount, `dest, `file
    {
      World(iNext, rc, bDestLocked, iDestSchema, isAttached, nRemaining, nPagecount, src, dest, file)
    }

    ghost predicate Ready(src: seq<Page>)
      reads `iNext, `rc, `bDestLocked, `iDestSchema, `isAttached, `nRemaining, `nPagecount, `dest, `file
    {
      WellFormed(cfg, State(src))
    }

    // sqlite3_backup_init
    constructor (cfg: Config, src: seq<Page>, dest: seq<Page>, file: seq<int>)
      requires ValidConfig(cfg) && Sized(src, cfg.srcSz) && Sized(dest, cfg.destSz)
      ensures Ready(src) && pNext == null && this.cfg == cfg
      ensures State(src) == World(1, OK, false, 0, false, 0, 0, src, dest, file)
    {
      this.cfg, this.dest, this.file := cfg, dest, file;
      iNext, rc, bDestLocked, iDestSchema, isAttached, nRemaining, nPagecount := 1, OK, false, 0, false, 0, 0;
      pNext := null;
    }

    // backupOnePage
    method CopyOnePage(nSrc: nat, iSrcPg: nat, zSrcData: Page, bUpdate: bool, faults: map<nat, int>) returns (r: int)
      requires ValidConfig(cfg) && Sized(dest, cfg.destSz) && |zSrcData| == cfg.srcSz && iSrcPg > 0
      requires iSrcPg != PendingPage(cfg.srcSz)
      modifies `dest
      ensures (r, dest) == BackupOnePage(cfg, old(dest), nSrc, iSrcPg, zSrcData, bUpdate, faults)
    {
      hide IsPageSize, CopyChunk;
      SizesPositive(cfg);
      r := OK;
      if cfg.srcSz != cfg.destSz && cfg.destIsMemdb { r := READONLY; }
      var iEnd := iSrcPg * cfg.srcSz;
      var iOff := iEnd - cfg.srcSz;
      assert iOff == (iSrcPg - 1) * cfg.srcSz;
      MultipleAligned(iSrcPg - 1, cfg.srcSz, CopySize(cfg));
      while r == OK && iOff < iEnd
        invariant iOff >= 0 && Sized(dest, cfg.destSz) && iOff % CopySize(cfg) == 0
        invariant CopyLoop(cfg, dest, nSrc, zSrcData, bUpdate, faults, r, iOff, iEnd)
               == BackupOnePage(cfg, old(dest), nSrc, iSrcPg, zSrcData, bUpdate, faults)
        decreases iEnd - iOff, if r == OK then 1 else 0
      {
        var iDest := iOff / cfg.destSz + 1;
        StepAligned(iOff, cfg.destSz, CopySize(cfg));
        if iDest != PENDING_BYTE / cfg.destSz + 1 {
          if iDest in faults {
            r := faults[iDest];
          } else {
            dest := CopyChunk(cfg, dest, nSrc, zSrcData, bUpdate, iOff);
          }
        }
        iOff := iOff + cfg.destSz;
      }
    }

    // The transactions sqlite3_backup_step opens before it copies.
    method OpenTransactions(env: Env) returns (r: int)
      modifies `bDestLocked, `iDestSchema
      ensures forall src :: State(src).(rc := r) == Begin(cfg, old(State(src)), env)
    {
      r := OK;
      if cfg.ownDestDb && env.srcInWrite { r := BUSY; }
      if r == OK && !env.srcInRead { r := env.rcBeginSrc; }
      if !bDestLocked && r == OK && env.nomem { r := NOMEM; }
      if r == OK && !bDestLocked {
        r := env.rcBeginDest;
        if r == OK {
          bDestLocked := true;
          iDestSchema := env.schema;
        }
      }
      if r == OK && cfg.wal && cfg.srcSz != cfg.destSz { r := READONLY; }
    }

    // One iteration of the copying loop.
    method CopyNextPage(src: seq<Page>, env: Env) returns (r: int)
      requires Ready(src) && iNext <= |src|
      modifies `iNext, `dest
      ensures Ready(src) && iNext == old(iNext) + 1
      ensures (r, dest) == CopyOne(cfg, old(State(src)), env)
    {
      hide IsPageSize, BackupOnePage;
      SizesPositive(cfg);
      r := OK;
      var iSrcPg := iNext;
      if iSrcPg != PendingPage(cfg.srcSz) {
        if iSrcPg in env.srcFaults {
          r := env.srcFaults[iSrcPg];
        } else {
          r := CopyOnePage(|src|, iSrcPg, src[iSrcPg - 1], false, env.destFaults);
        }
      }
      iNext := iNext + 1;
    }

    // The copying loop of sqlite3_backup_step.
    method CopySome(src: seq<Page>, nPage: int, rc0: int, env: Env) returns (r: int)
      requires Ready(src)
      modifies `iNext, `dest
      ensures Ready(src) && State(src).(rc := r) == CopyPages(cfg, old(State(src)).(rc := rc0), nPage, 0, env)
    {
      hide CopyOne;
      r := rc0;
      var ii := 0;
      while (nPage < 0 || ii < nPage) && iNext <= |src| && r == OK
        invariant ii >= 0 && Ready(src)
        invariant CopyPages(cfg, State(src).(rc := r), nPage, ii, env)
            == CopyPages(cfg, old(State(src)).(rc := rc0), nPage, 0, env)
        decreases |src| + 1 - iNext
      {
        ghost var w := State(src);
        CopyOneIgnoresCode(cfg, w, r, env);
        r := CopyNextPage(src, env);
        ii := ii + 1;
      }
    }

    // The loop that writes past the pending-byte page, straight into the file.
    method WritePastPending(src: seq<Page>, rc0: int, iEnd: nat, faults: map<nat, int>) returns (r: int)
      requires Ready(src) && FaultsOk(faults)
      modifies `file
      ensures (r, file) == WriteExtra(cfg, src, old(file), faults, rc0, PENDING_BYTE + cfg.srcSz, iEnd)
    {
      hide IsPageSize, OsWrite, Sized;
      SizesPositive(cfg);
      r := rc0;
      var iOff: nat := PENDING_BYTE + cfg.srcSz;
      while r == OK && iOff < iEnd
        invariant WriteExtra(cfg, src, file, faults, r, iOff, iEnd)
               == WriteExtra(cfg, src, old(file), faults, rc0, PENDING_BYTE + cfg.srcSz, iEnd)
        decreases iEnd - iOff, if r == OK then 1 else 0
      {
        var iSrcPg: nat := PageOf(iOff, cfg.srcSz);
        if iSrcPg in faults {
          r := faults[iSrcPg];
        } else {
          file := OsWrite(file, if iSrcPg <= |src| then src[iSrcPg - 1] else Zeros(cfg.srcSz), iOff);
          iOff := iOff + cfg.srcSz;
        }
      }
    }

    // sqlite3_backup_step up to the point where it attaches the backup or finishes it.
    method StepPages(src: seq<Page>, nPage: int, env: Env) returns (r: int)
      requires Ready(src)
      modifies `iNext, `dest, `bDestLocked, `iDestSchema, `nPagecount, `nRemaining
      ensures Ready(src)
      ensures var w := Progress(CopyPages(cfg, Begin(cfg, old(State(src)), env), nPage, 0, env));
              State(src).(rc := r) == w.(isAttached := isAttached) && w.isAttached == (isAttached || r == OK)
    {
      hide CopyPages, Begin;
      r := OpenTransactions(env);
      assert State(src).(rc := r) == Begin(cfg, old(State(src)), env);
      r := CopySome(src, nPage, r, env);
      if r == OK {
        nPagecount := |src|;
        nRemaining := (|src| + 1 - iNext) % U32;
        if iNext > |src| { r := DONE; }
      }
    }

    // sqlite3BtreeNewDb, for an empty source
    method NewDb(src: seq<Page>, env: Env, rc0: int) returns (r: int)
      requires Ready(src) && EnvOk(cfg, env)
      modifies `dest
      ensures Ready(src) && State(src).(rc := r) == StampNew(cfg, old(State(src)).(rc := rc0), env)
    {
      hide IsPageSize, FaultsOk, OkOrFault;
      r := rc0;
      if |src| == 0 {
        r := env.rcNewDb;
        if r == OK { dest := [env.newPage]; }
      }
    }

    // sqlite3BtreeUpdateMeta, with the new schema cookie
    method UpdateMeta(src: seq<Page>, env: Env, rc0: int) returns (r: int)
      requires Ready(src)
      modifies `dest
      ensures Ready(src) && State(src).(rc := r) == StampCookie(cfg, old(State(src)).(rc := rc0), env)
    {
      hide IsPageSize, Put4, PutBytes;
      SizesPositive(cfg);
      r := rc0;
      if r == OK || r == DONE {
        r := env.rcMeta;
        if r == OK { dest := PutBytes(dest, cfg.destSz, 1, 40, Put4((iDestSchema + 1) % U32)); }
      }
    }

    // sqlite3BtreeSetVersion, in WAL mode
    method SetVersion(src: seq<Page>, env: Env, rc0: int) returns (r: int)
      requires Ready(src)
      modifies `dest
      ensures Ready(src) && State(src).(rc := r) == StampVersion(cfg, old(State(src)).(rc := rc0), env)
    {
      hide IsPageSize, PutBytes;
      SizesPositive(cfg);
      r := rc0;
      if r == OK && cfg.wal {
        r := env.rcVersion;
        if r == OK { dest := PutBytes(dest, cfg.destSz, 1, 18, [2, 2]); }
      }
    }

    // The header updates once every page is copied.
    method UpdateHeader(src: seq<Page>, env: Env) returns (r: int)
      requires Ready(src) && EnvOk(cfg, env)
      modifies `dest
      ensures Ready(src) && State(src).(rc := r) == StampHeader(cfg, old(State(src)).(rc := DONE), env)
    {
      hide StampNew, StampCookie, StampVersion, EnvOk, WellFormed;
      ghost var w := State(src).(rc := DONE);
      r := NewDb(src, env, DONE);
      r := UpdateMeta(src, env, r);
      r := SetVersion(src, env, r);
    }

    // Journal and commit the image, before the file is patched.
    method WriteImage(src: seq<Page>, env: Env) returns (r: int)
      requires Ready(src)
      modifies `file
      ensures r == (if env.rcJournal == OK then env.rcCommitOne else env.rcJournal)
      ensures file == if r == OK then Flatten(dest, cfg.destSz) else old(file)
    {
      SizesPositive(cfg);
      r := env.rcJournal;
      if r == OK { r := env.rcCommitOne; }
      if r == OK { file := Flatten(dest, cfg.destSz); }
    }

    // Cut the patched file to size and sync it.
    method TrimFile(rc0: int, iSize: nat, env: Env) returns (r: int)
      modifies `file
      ensures var rc2 := if rc0 == OK then env.rcTruncate else rc0;
              && file == (if rc2 == OK && |old(file)| > iSize then old(file)[..iSize] else old(file))
              && r == (if rc2 == OK then env.rcSync else rc2)
    {
      r := rc0;
      if r == OK { r := env.rcTruncate; }
      if r == OK && |file| > iSize { file := file[..iSize]; }
      if r == OK { r := env.rcSync; }
    }

    // The commit when the destination pages are larger than the source pages.
    method CommitLarger(src: seq<Page>, nSrcPage: nat, env: Env) returns (r: int)
      requires Ready(src) && cfg.srcSz < cfg.destSz && nSrcPage > 0 && FaultsOk(env.extraFaults)
      modifies `file
      ensures Ready(src) && State(src).(rc := r) == CommitPatched(cfg, old(State(src)), nSrcPage, env)
    {
      hide IsPageSize, WriteExtra, TruncateOk, Flatten, Sized, FaultsOk;
      SizesPositive(cfg);
      var iSize: nat := cfg.srcSz * nSrcPage;
      TruncateAssertion(cfg, nSrcPage);
      assert TruncateOk(cfg, nSrcPage);
      r := WriteImage(src, env);
      var iEnd: nat := if PENDING_BYTE + cfg.destSz < iSize then PENDING_BYTE + cfg.destSz else iSize;
      r := WritePastPending(src, r, iEnd, env.extraFaults);
      r := TrimFile(r, iSize, env);
    }

    // The commit otherwise.
    method CommitSameOrSmaller(src: seq<Page>, nSrcPage: nat, env: Env) returns (r: int)
      requires Ready(src) && cfg.destSz <= cfg.srcSz
      modifies `dest, `file
      ensures Ready(src) && State(src).(rc := r) == CommitPlain(cfg, old(State(src)), nSrcPage, env)
    {
      hide IsPageSize;
      SizesPositive(cfg);
      var nDestTruncate := nSrcPage * (cfg.srcSz / cfg.destSz);
      if nDestTruncate <= |dest| { dest := dest[..nDestTruncate]; }
      r := env.rcCommitOne;
      if r == OK { file := Flatten(dest, cfg.destSz); }
      assert DestTruncate(cfg, nSrcPage) == nDestTruncate;
    }

    // The part of sqlite3_backup_step that runs when every page is copied.
    method FinishCopy(src: seq<Page>, env: Env) returns (r: int)
      requires Ready(src) && EnvOk(cfg, env)
      modifies `dest, `file
      ensures Ready(src) && State(src).(rc := r) == Finish(cfg, old(State(src)).(rc := DONE), env)
    {
      EnvFaults(cfg, env);
      hide IsPageSize, FaultsOk, StampHeader, CommitPatched, CommitPlain;
      r := UpdateHeader(src, env);
      var nSrcPage := if |src| == 0 then 1 else |src|;
      if r == OK {
        ghost var w := State(src);
        CommitIgnoresCode(cfg, w, r, nSrcPage, env);
        if cfg.srcSz < cfg.destSz {
          r := CommitLarger(src, nSrcPage, env);
        } else {
          r := CommitSameOrSmaller(src, nSrcPage, env);
        }
        if r == OK {
          r := env.rcCommitTwo;
          if r == OK { r := DONE; }
        }
      }
    }
  }

  // The source pager: its pages, and the list of backups to tell about changes.
  class SourcePager {
    const pgsz: nat
    var pages: seq<Page>
    var pBackup: Sqlite3Backup?
    ghost var list: seq<Sqlite3Backup>

    ghost predicate Linked()
      reads this, list
    {
      && pBackup == (if |list| > 0 then list[0] else null)
      && (forall i {:trigger list[i].pNext} :: 0 <= i < |list| ==>
          list[i].pNext == (if i + 1 < |list| then list[i + 1] else null))
      && (forall i, j :: 0 <= i < j < |list| ==> list[i] != list[j])
    }

    ghost predicate Valid()
      reads this, list
    {
      Linked() && Sized(pages, pgsz) && forall i :: 0 <= i < |list| ==> Attached(list[i])
    }

    ghost predicate Attached(b: Sqlite3Backup)
      reads `pages, b`iNext, b`rc, b`bDestLocked, b`iDestSchema, b`isAttached, b`nRemaining, b`nPagecount, b`dest,
          b`file
    {
      b.isAttached && b.cfg.srcSz == pgsz && b.Ready(pages)
    }

    // p is a backup of this source, attached exactly if it is on the list.
    ghost predicate Knows(p: Sqlite3Backup)
      reads this, p
    {
      p.cfg.srcSz == pgsz && p.Ready(pages) && (p.isAttached <==> p in list)
    }

    constructor (pgsz: nat, pages: seq<Page>)
      requires Sized(pages, pgsz)
      ensures Valid() && list == [] && this.pgsz == pgsz && this.pages == pages
    {
      this.pgsz, this.pages, pBackup, list := pgsz, pages, null, [];
    }

    lemma ValidParts()
      requires Valid()
      ensures Linked() && Sized(pages, pgsz) && (forall i, j :: 0 <= i < j < |list| ==> list[i] != list[j])
      ensures forall b :: b in list ==> Attached(b)
    {
    }

    lemma PartsValid(l0: seq<Sqlite3Backup>)
      requires Linked() && Sized(pages, pgsz) && (forall b :: b in list ==> b in l0) && forall b :: b in l0 ==>
          Attached(b)
      ensures Valid()
    {
      hide Attached;
    }

    // attachBackupObject
    method AttachBackupObject(p: Sqlite3Backup)
      requires Valid() && Knows(p) && !p.isAttached
      modifies `pBackup, `list, p`pNext, p`isAttached
      ensures Valid() && Knows(p) && list == [p] + old(list)
      ensures p.State(pages) == old(p.State(pages)).(isAttached := true)
    {
      hide WellFormed, Sized, Valid;
      ghost var l0, w := list, p.State(pages);
      ValidParts();
      AttachedWellFormed(p.cfg, w);
      p.pNext := pBackup;
      pBackup := p;
      p.isAttached := true;
      list := [p] + list;
      assert forall b :: b in l0 ==> b != p && Attached(b);
      assert p.State(pages) == w.(isAttached := true);
      assert Attached(p);
      hide Attached;
      PushLinks(l0, p);
      PartsValid(list);
    }

    // A new head that points to the old one keeps the list linked.
    lemma PushLinks(l0: seq<Sqlite3Backup>, p: Sqlite3Backup)
      requires list == [p] + l0 && pBackup == p && p.pNext == (if |l0| > 0 then l0[0] else null) && p !in l0
      requires forall i {:trigger l0[i].pNext} :: 0 <= i < |l0| ==>
          l0[i].pNext == (if i + 1 < |l0| then l0[i + 1] else null)
      requires forall i, j :: 0 <= i < j < |l0| ==> l0[i] != l0[j]
      ensures Linked()
    {
      assert forall i :: 0 < i < |list| ==> list[i] == l0[i - 1];
    }

    // sqlite3_backup_step
    method BackupStep(p: Sqlite3Backup, nPage: int, env: Env)
      requires Valid() && Knows(p) && EnvOk(p.cfg, env)
      modifies `pBackup, `list, p
      ensures Valid() && Knows(p) && pages == old(pages)
      ensures p.State(pages) == Step(p.cfg, old(p.State(pages)), nPage, env)
      ensures list == if p.isAttached && !old(p.isAttached) then [p] + old(list) else old(list)
    {
      hide ValidConfig, Sized, EnvOk, CopyPages, Begin, Finish;
      if !IsFatalError(p.rc) {
        var rc := p.StepPages(pages, nPage, env);
        StillValid(p);
        if rc == OK && !p.isAttached { AttachBackupObject(p); }
        label Before:
        if rc == DONE { rc := p.FinishCopy(pages, env); }
        if rc == IOERR_NOMEM { rc := NOMEM; }
        p.rc := rc;
        StillValid@Before(p);
      }
    }

    // Changing one backup other than its link and attachment keeps the list valid.
    twostate lemma StillValid(p: Sqlite3Backup)
      requires old(Valid() && Knows(p)) && unchanged(this) && p.Ready(pages)
      requires p.pNext == old(p.pNext) && p.isAttached == old(p.isAttached)
      requires forall i :: 0 <= i < |list| && list[i] != p ==> unchanged(list[i])
      ensures Valid() && Knows(p)
    {
      hide WellFormed;
      assert forall i :: 0 <= i < |list| ==> list[i].pNext == old(list[i].pNext);
      assert forall i :: 0 <= i < |list| ==> old(Attached(list[i]));
    }

    // The body of the loop of backupUpdate.
    method UpdateOne(p: Sqlite3Backup, iPage: nat, aData: Page, faults: map<nat, int>)
      requires p.cfg.srcSz == pgsz && p.Ready(pages) && iPage > 0 && |aData| == pgsz
      requires pgsz > 0 && iPage != PendingPage(pgsz) && FaultsOk(faults)
      modifies p`rc, p`dest
      ensures p.Ready(pages) && p.State(pages) == Update(p.cfg, old(p.State(pages)), iPage, aData, faults)
    {
      if !IsFatalError(p.rc) && iPage < p.iNext {
        var rc := p.CopyOnePage(|pages|, iPage, aData, true, faults);
        assert rc != BUSY && rc != LOCKED by { OnePageCode(p.cfg, old(p.dest), |pages|, iPage, aData, true, faults); }
        if rc != OK { p.rc := rc; }
      }
    }

    // sqlite3BackupUpdate
    method BackupUpdate(iPage: nat, aData: Page, faults: map<nat, int>)
      requires Valid() && iPage > 0 && |aData| == pgsz && pgsz > 0 && iPage != PendingPage(pgsz) && FaultsOk(faults)
      modifies list
      ensures Valid() && list == old(list) && pages == old(pages)
      ensures forall b :: b in list ==> b.State(pages) == Update(b.cfg, old(b.State(pages)), iPage, aData, faults)
    {
      hide Update, WellFormed;
      var p := pBackup;
      ghost var i := 0;
      while p != null
        invariant 0 <= i <= |list| && Valid()
        invariant p == (if i < |list| then list[i] else null)
        invariant forall k :: 0 <= k < i ==>
            list[k].State(pages) == Update(list[k].cfg, old(list[k].State(pages)), iPage, aData, faults)
        invariant forall k :: i <= k < |list| ==> list[k].State(pages) == old(list[k].State(pages))
        decreases |list| - i
      {
        assert Attached(p);
        label Before:
        UpdateOne(p, iPage, aData, faults);
        StillValid@Before(p);
        p := p.pNext;
        i := i + 1;
      }
    }

    // sqlite3BackupRestart
    method BackupRestart()
      requires Valid()
      modifies list
      ensures Valid() && list == old(list) && pages == old(pages)
      ensures forall b :: b in list ==> b.State(pages) == old(b.State(pages)).(iNext := 1)
    {
      hide ValidConfig, Sized;
      var p := pBackup;
      ghost var i := 0;
      while p != null
        invariant 0 <= i <= |list| && Valid()
        invariant p == (if i < |list| then list[i] else null)
        invariant forall k :: 0 <= k < i ==> list[k].State(pages) == old(list[k].State(pages)).(iNext := 1)
        invariant forall k :: i <= k < |list| ==> list[k].State(pages) == old(list[k].State(pages))
        decreases |list| - i
      {
        assert Attached(p);
        label Before:
        p.iNext := 1;
        StillValid@Before(p);
        p := p.pNext;
        i := i + 1;
      }
    }

    // Make the pointer that points to p = list[k] skip it.
    method Unlink(p: Sqlite3Backup, ghost k: nat)
      requires Linked() && k < |list| && list[k] == p
      modifies `pBackup, list`pNext
      ensures list == old(list)
      ensures pBackup == if k == 0 then old(p.pNext) else old(pBackup)
      ensures forall i :: 0 <= i < |list| ==> list[i].pNext == if i == k - 1 then old(p.pNext) else old(list[i].pNext)
    {
      if pBackup == p {
        pBackup := p.pNext;
      } else {
        var q := pBackup;
        ghost var i := 0;
        while q.pNext != p
          invariant 0 <= i < k && q == list[i]
          decreases k - i
        {
          q := q.pNext;
          i := i + 1;
        }
        q.pNext := p.pNext;
      }
    }

    // Moving a pointer touches nothing else that the backups hold.
    twostate lemma KeptByUnlink(l0: seq<Sqlite3Backup>)
      requires unchanged(`pages)
      requires forall b :: b in l0 ==> old(Attached(b))
      requires forall b :: b in l0 ==>
          unchanged(b`iNext, b`rc, b`bDestLocked, b`iDestSchema, b`isAttached, b`nRemaining, b`nPagecount, b`dest,
          b`file)
      ensures forall b :: b in l0 ==> Attached(b) && b.State(pages) == old(b.State(pages))
    {
      hide WellFormed;
      forall b | b in l0 ensures Attached(b) && b.State(pages) == old(b.State(pages)) {
        assert old(Attached(b));
      }
    }

    // Take p off the list.
    method Detach(p: Sqlite3Backup)
      requires Valid() && p in list
      modifies `pBackup, `list, list`pNext
      ensures Valid() && pages == old(pages) && list == Without(old(list), p)
      ensures forall b :: b in old(list) ==> b.State(pages) == old(b.State(pages))
    {
      hide Valid, WellFormed, Attached, Without, Sized, Sqlite3Backup.State;
      ValidParts();
      ghost var k :| 0 <= k < |list| && list[k] == p;
      ghost var l0 := list;
      WithoutAt(l0, k);
      Unlink(p, k);
      KeptByUnlink(l0);
      list := l0[..k] + l0[k + 1..];
      Relinked(l0, k);
      PartsValid(l0);
    }

    // With the pointer moved, the shorter list is linked.
    lemma Relinked(l0: seq<Sqlite3Backup>, k: nat)
      requires k < |l0| && list == l0[..k] + l0[k + 1..]
      requires forall i, j :: 0 <= i < j < |l0| ==> l0[i] != l0[j]
      requires pBackup == if k > 0 then l0[0] else if |l0| > 1 then l0[1] else null
      requires forall i {:trigger l0[i].pNext} :: 0 <= i < |l0| ==>
                 l0[i].pNext == (var j := if i == k - 1 then k + 1 else i + 1; if j < |l0| then l0[j] else null)
      ensures Linked()
    {
      SkipOne(l0, k);
    }

    // sqlite3_backup_finish: take p off the list and report how it ended.
    method BackupFinish(p: Sqlite3Backup) returns (rc: int)
      requires Valid() && Knows(p)
      modifies `pBackup, `list, list`pNext
      ensures Valid() && pages == old(pages) && list == Without(old(list), p) && p !in list
      ensures forall b :: b in old(list) ==> b.State(pages) == old(b.State(pages))
      ensures rc == if old(p.rc) == DONE then OK else old(p.rc)
    {
      ghost var l0 := list;
      WithoutGone(l0, p);
      rc := if p.rc == DONE then OK else p.rc;
      if p.isAttached { Detach(p); }
    }
  }

  lemma AttachedWellFormed(cfg: Config, w: World)
    requires WellFormed(cfg, w)
    ensures WellFormed(cfg, w.(isAttached := true))
  {
  }

  lemma SkipOne(l: seq<Sqlite3Backup>, k: nat)
    requires k < |l|
    ensures var r := l[..k] + l[k + 1..];
            |r| == |l| - 1 && forall i :: 0 <= i < |r| ==> r[i] == l[if i < k then i else i + 1]
  {
  }

  // s without its first p.
  ghost function Without(s: seq<Sqlite3Backup>, p: Sqlite3Backup): seq<Sqlite3Backup> {
    if |s| == 0 then [] else if s[0] == p then s[1..] else [s[0]] + Without(s[1..], p)
  }

  lemma {:induction false} WithoutAt(s: seq<Sqlite3Backup>, k: nat)
    requires k < |s| && forall i, j :: 0 <= i < j < |s| ==> s[i] != s[j]
    ensures Without(s, s[k]) == s[..k] + s[k + 1..]
  {
    if k > 0 {
      WithoutAt(s[1..], k - 1);
      assert s[..k] + s[k + 1..] == [s[0]] + (s[1..][..k - 1] + s[1..][k..]);
    }
  }

  lemma {:induction false} WithoutGone(s: seq<Sqlite3Backup>, p: Sqlite3Backup)
    requires forall i, j :: 0 <= i < j < |s| ==> s[i] != s[j]
    ensures p !in Without(s, p) && (p !in s ==> Without(s, p) == s)
  {
    if |s| > 0 && s[0] != p {
      WithoutGone(s[1..], p);
      assert s == [s[0]] + s[1..];
    }
  }

  lemma CopyOneIgnoresCode(cfg: Config, w: World, rc: int, env: Env)
    requires WellFormed(cfg, w) && w.iNext <= |w.src|
    ensures CopyOne(cfg, w.(rc := rc), env) == CopyOne(cfg, w, env)
  {
    hide BackupOnePage, IsPageSize, Sized;
  }

  // A commit does not look at the code stored in the backup.
  lemma CommitIgnoresCode(cfg: Config, w: World, rc: int, nSrcPage: nat, env: Env)
    requires WellFormed(cfg, w)
    ensures CommitPatched(cfg, w.(rc := rc), nSrcPage, env) == CommitPatched(cfg, w, nSrcPage, env)
    ensures CommitPlain(cfg, w.(rc := rc), nSrcPage, env) == CommitPlain(cfg, w, nSrcPage, env)
  {
  }
}
