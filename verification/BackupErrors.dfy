/** Which errors a backup survives (backup.c). A step moves past a page even when copying it fails,
    so its guarantees rest on what isFatalError calls fatal. */
module BackupErrors {
  import opened BackupPages
  import opened BackupFinish
  import opened BackupSync
  import opened Backup

  /** A step over a source that does not change. An earlier fatal error keeps it from doing anything,
      and so does failing to lock the databases, with any error at all. */
  ghost predicate StepMay(src: seq<Byte>, ps: nat, nPage: nat, pd: nat, codes: set<Rc>, s: Progress, s': Progress) {
    if s.rc == DONE || s.rc == READONLY || s.rc == NOMEM || s.rc == IOERR then s' == s
    else
      || NotLocked(s, s')
      || exists mid :: Through(src, ps, nPage, pd, codes, s, mid, s')
  }

  predicate NotLocked(s: Progress, s': Progress) {
    s' == s.(rc := s'.rc) && s'.rc != OK && s'.rc != DONE
  }

  /** The states that a backup goes through, with calls of the pagers failing with these codes. */
  ghost predicate Steps(src: seq<Byte>, ps: nat, nPage: nat, pd: nat, codes: set<Rc>, run: seq<Progress>) {
    && PageSize(ps) && PageSize(pd) && |src| == nPage * ps
    && 0 < |run| && run[0].iNext == 1 && run[0].rc == OK
    && forall k :: 0 <= k < |run| - 1 ==> StepMay(src, ps, nPage, pd, codes, run[k], run[k + 1])
  }

  /** What has been copied is in sync as long as the backup goes on, and is a copy at its end. */
  ghost predicate Sound(src: seq<Byte>, ps: nat, nPage: nat, pd: nat, s: Progress) {
    && (s.rc == OK || s.rc == BUSY || s.rc == LOCKED ==> InSync(src, ps, s.dst, pd, s.iNext))
    && (s.rc == DONE && nPage > 0 ==> IsCopy(src, ps, s.dst))
  }

  ghost predicate AllSound(src: seq<Byte>, ps: nat, nPage: nat, pd: nat, run: seq<Progress>) {
    forall k :: 0 <= k < |run| ==> Sound(src, ps, nPage, pd, run[k])
  }

  ghost predicate EveryRunIsSound(codes: set<Rc>) {
    forall src, ps, nPage, pd, run ::
      Steps(src, ps, nPage, pd, codes, run) ==> AllSound(src, ps, nPage, pd, run)
  }

  /** Every run of steps, over every source and destination, keeps its guarantees exactly when the
      calls of the pagers can only fail with fatal codes: not with BUSY, nor with LOCKED. */
  lemma ErrorsMustBeFatal(codes: set<Rc>)
    requires OK !in codes && DONE !in codes
    ensures EveryRunIsSound(codes) <==> BUSY !in codes && LOCKED !in codes
  {
    if BUSY !in codes && LOCKED !in codes {
      forall src, ps, nPage, pd, run | Steps(src, ps, nPage, pd, codes, run)
        ensures AllSound(src, ps, nPage, pd, run)
      {
        FatalErrorsAreSafe(src, ps, nPage, pd, codes, run, |run| - 1);
      }
    } else {
      var c := if BUSY in codes then BUSY else LOCKED;
      var src, run := PageLost(codes, c);
      assert !Sound(src, 512, 1, 512, run[2]);
    }
  }

  lemma {:induction false} FatalErrorsAreSafe(src: seq<Byte>, ps: nat, nPage: nat, pd: nat, codes: set<Rc>,
                                              run: seq<Progress>, n: nat)
    requires Steps(src, ps, nPage, pd, codes, run) && n < |run|
    requires forall c <- codes :: c == READONLY || c == NOMEM || c == IOERR
    ensures forall k :: 0 <= k <= n ==> Sound(src, ps, nPage, pd, run[k])
  {
    if n > 0 {
      FatalErrorsAreSafe(src, ps, nPage, pd, codes, run, n - 1);
      var s, s' := run[n - 1], run[n];
      assert StepMay(src, ps, nPage, pd, codes, s, s');
      if !IsFatalError(s.rc) && !NotLocked(s, s') {
        var mid :| Through(src, ps, nPage, pd, codes, s, mid, s');
        FatalErrorsKeep(src, ps, nPage, pd, codes, s, mid, s');
      }
    }
  }

  lemma FatalErrorsKeep(src: seq<Byte>, ps: nat, nPage: nat, pd: nat, codes: set<Rc>,
                        s: Progress, mid: Progress, s': Progress)
    requires |src| == nPage * ps && forall c <- codes :: c == READONLY || c == NOMEM || c == IOERR
    requires InSync(src, ps, s.dst, pd, s.iNext) && Through(src, ps, nPage, pd, codes, s, mid, s')
    ensures Sound(src, ps, nPage, pd, s')
  {
    if mid.rc == OK {
      MovedKeepsSync(src, ps, s.dst, mid.dst, pd, s.iNext, mid.iNext);
      if s'.rc == DONE && nPage > 0 {
        AllInSync(src, ps, nPage, mid.dst, pd, mid.iNext);
        EndedIsCopy(src, ps, mid.dst, s'.dst, pd);
      }
    }
  }

  /** With any other code, the copy of a one-page source can fail, and the next step, which has
      nothing left to copy, report the end. */
  lemma PageLost(codes: set<Rc>, c: Rc) returns (src: seq<Byte>, run: seq<Progress>)
    requires c in codes && (c == BUSY || c == LOCKED)
    ensures Steps(src, 512, 1, 512, codes, run) && |run| == 3
    ensures run[1].rc == c && run[2].rc == DONE && !IsCopy(src, 512, run[2].dst)
  {
    src := seq(512, _ => 1);
    var dst: seq<Byte> := seq(512, _ => 0);
    run := [Progress(dst, 1, OK), Progress(dst, 2, c), Progress(dst, 2, DONE)];
    assert Through(src, 512, 1, 512, codes, run[0], run[1], run[1]);
    assert Through(src, 512, 1, 512, codes, run[1], run[1].(rc := OK), run[2]);
    assert !At(dst, 0, src[0]);
  }

  /** The steps of the code are such steps. */
  method StepIsStep(b: Backup, nPage: int, srcBusy: bool, destLock: Rc, srcLock: Rc, destWal: bool, header: seq<Byte>)
    returns (code: Rc)
    requires b.pSrc.Valid() && b.SoundFor(b.pSrc.data) && b.Alone()
    requires destLock != DONE && srcLock != DONE
    modifies b, b.pDest, b.pSrc`backups
    ensures b.pSrc.Valid() && b.SoundFor(b.pSrc.data) && b.Alone()
    ensures StepMay(b.pSrc.data, b.pSrc.pageSize, b.pSrc.nPage, b.pDest.pageSize, b.pDest.Codes(b.pSrc.pageSize),
      old(b.State()), b.State())
  {
    ghost var mid;
    code, mid := b.Step(nPage, srcBusy, destLock, srcLock, destWal, header);
  }

  /** A backup of one page of ones over zeros, the first call of which comes to c. */
  ghost predicate OnePage(b: Backup, c: PagerCode)
    reads b, b.pSrc, b.pSrc.backups, b.pSrc.Dests(), b.pDest
  {
    && b.pSrc.Valid() && b.SoundFor(b.pSrc.data) && b.Alone()
    && b.pSrc.pageSize == 512 && b.pSrc.nPage == 1 && b.pSrc.data == seq(512, _ => 1)
    && b.pDest.pageSize == 512 && !b.pDest.isMemdb && b.pDest.data == seq(512, _ => 0)
    && forall n: nat :: b.pDest.outcome(n) == if n == 0 then c else OK
  }

  method FirstStep(c: PagerCode, header: seq<Byte>) returns (b: Backup, code: Rc)
    requires c == BUSY || c == LOCKED
    ensures OnePage(b, c) && fresh(b) && fresh(b.pSrc) && fresh(b.pDest)
    ensures code == b.rc == c && b.iNext == 2 && b.bDestLocked && 0 < b.pDest.calls
  {
    var src := new Source(512, 1, seq(512, _ => 1));
    var dest := new Dest(512, false, n => if n == 0 then c else OK, seq(512, _ => 0));
    b := new Backup(src, dest);
    ghost var mid;
    code, mid := b.Step(1, false, OK, OK, false, header);
  }

  /** The code loses the page: c is BUSY or LOCKED, the only codes that are not fatal. */
  method BusyLosesThePage(c: PagerCode, header: seq<Byte>) returns (b: Backup, first: Rc, second: Rc)
    requires c == BUSY || c == LOCKED
    ensures first == c && second == b.rc == DONE && b.pSrc.nPage == 1
    ensures !IsCopy(b.pSrc.data, b.pSrc.pageSize, b.pDest.data)
  {
    b, first := FirstStep(c, header);
    ghost var mid;
    second, mid := b.Step(1, false, OK, OK, false, header);
    assert At(mid.dst, 0, 0) && b.pSrc.data[0] == 1 && !At(b.pDest.data, 0, b.pSrc.data[0]);
  }

  /** BUSY and LOCKED only put a backup off: stepped again with everything free, it gets to its end. */
  method PutOff(b: Backup, header: seq<Byte>) returns (code: Rc)
    requires b.pSrc.Valid() && b.SoundFor(b.pSrc.data) && b.Alone() && (b.rc == BUSY || b.rc == LOCKED)
    requires (!b.pDest.isMemdb || b.pDest.pageSize == b.pSrc.pageSize) && forall n: nat :: b.pDest.outcome(n) == OK
    modifies b, b.pDest, b.pSrc`backups
    ensures code == DONE && (b.pSrc.nPage > 0 ==> IsCopy(b.pSrc.data, b.pSrc.pageSize, b.pDest.data))
  {
    ghost var mid;
    code, mid := b.Step(-1, false, OK, OK, false, header);
  }

  /** A step that meets a writer of the source, or a locked database, and one that does not. */
  method RefusedThenDone(b: Backup, nPage: int, srcBusy: bool, lock: Rc, header: seq<Byte>)
    returns (first: Rc, second: Rc)
    requires b.pSrc.Valid() && b.SoundFor(b.pSrc.data) && b.Alone()
    requires b.rc == OK || b.rc == BUSY || b.rc == LOCKED
    requires (srcBusy && lock != DONE) || lock == BUSY || lock == LOCKED
    requires (!b.pDest.isMemdb || b.pDest.pageSize == b.pSrc.pageSize) && forall n: nat :: b.pDest.outcome(n) == OK
    modifies b, b.pDest, b.pSrc`backups
    ensures first == (if srcBusy then BUSY else lock) && second == DONE
    ensures b.pSrc.nPage > 0 ==> IsCopy(b.pSrc.data, b.pSrc.pageSize, b.pDest.data)
  {
    ghost var mid;
    first, mid := b.Step(nPage, srcBusy, OK, lock, false, header);
    second := PutOff(b, header);
  }
}
