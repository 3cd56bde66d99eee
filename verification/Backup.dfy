/** The online backup protocol of backup.c: a source database that keeps changing, the backups
    attached to it, and the steps that copy it. */
module Backup {
  import opened Arithmetic
  import opened BackupPages
  import opened BackupFinish
  import opened BackupSync

  class Backup {
    const pSrc: Source
    const pDest: Dest
    var iNext: nat
    var rc: Rc
    var nRemaining: int
    var nPagecount: nat
    var isAttached: bool
    var bDestLocked: bool
    var iDestSchema: nat
    /** The destination as it was before the backup. */
    ghost const original: seq<Byte>

    /** A rollback of the destination would bring back the original until the backup has ended, and
        nothing after that. */
    ghost predicate Undoable()
      reads this, pDest
    {
      && pDest.committed == (if rc == DONE then pDest.data else original)
      && if bDestLocked then iDestSchema == Cookie(original)
        else iNext == 1 && rc != DONE && pDest.data == original
    }

    /** Unless the backup has finished or failed, what it has copied matches source content d; this
        takes a destination whose calls can only fail fatally. */
    ghost predicate SoundFor(d: seq<Byte>)
      reads this, pDest
    {
      && PageSize(pSrc.pageSize) && PageSize(pDest.pageSize) && iNext > 0 && Undoable()
      && (pDest.FatalOnly() && !IsFatalError(rc) ==>
            InSync(d, pSrc.pageSize, pDest.data, pDest.pageSize, iNext) && (isAttached || iNext == 1))
    }

    ghost function State(): Progress
      reads this`iNext, this`rc, pDest`data
    {
      Progress(pDest.data, iNext, rc)
    }

    constructor (pSrc: Source, pDest: Dest)
      requires PageSize(pSrc.pageSize) && PageSize(pDest.pageSize) && pDest.committed == pDest.data
      ensures this.pSrc == pSrc && this.pDest == pDest && iNext == 1 && rc == OK && !isAttached
      ensures original == pDest.data && forall d :: SoundFor(d)
    {
      this.pSrc, this.pDest, original := pSrc, pDest, pDest.data;
      iNext, rc, nRemaining, nPagecount := 1, OK, 0, 0;
      isAttached, bDestLocked, iDestSchema := false, false, 0;
    }

    /** The loop of lines 418-429: at most nPage more pages, all of them if nPage is negative. */
    method CopyPages(nPage: int) returns (code: Rc)
      requires PageSize(pSrc.pageSize) && PageSize(pDest.pageSize) && iNext > 0
      requires |pSrc.data| == pSrc.nPage * pSrc.pageSize
      modifies `iNext, pDest`calls, pDest`data
      ensures code == OK || pDest.Failed(pSrc.pageSize, old(pDest.calls), code)
      ensures old(pDest.calls) <= pDest.calls
      ensures Moved(pSrc.data, pSrc.pageSize, old(pDest.data), pDest.data, pDest.pageSize, old(iNext), iNext, code)
      ensures iNext == old(iNext) || iNext <= pSrc.nPage + 1
      ensures nPage >= 0 ==> iNext <= old(iNext) + nPage
      ensures code == OK ==> iNext > pSrc.nPage || iNext == old(iNext) + nPage
      ensures old(FirstFails(nPage)) ==>
        code == pDest.outcome(old(pDest.calls)) && iNext == old(iNext) + 1 && pDest.data == old(pDest.data)
    {
      code := OK;
      var ii := 0;
      while (nPage < 0 || ii < nPage) && iNext <= pSrc.nPage && code == OK
        invariant iNext == old(iNext) + ii && ii >= 0 && (nPage >= 0 ==> ii <= nPage)
        invariant iNext == old(iNext) || iNext <= pSrc.nPage + 1
        invariant code == OK || pDest.Failed(pSrc.pageSize, old(pDest.calls), code)
        invariant old(pDest.calls) <= pDest.calls
        invariant Moved(pSrc.data, pSrc.pageSize, old(pDest.data), pDest.data, pDest.pageSize, old(iNext), iNext, code)
        invariant ii == 0 ==> code == OK && pDest.calls == old(pDest.calls) && pDest.data == old(pDest.data)
        invariant old(FirstFails(nPage)) && ii > 0 ==>
          code == pDest.outcome(old(pDest.calls)) && ii == 1 && pDest.data == old(pDest.data)
        decreases pSrc.nPage - iNext
      {
        code := CopyNext(old(iNext), old(pDest.data));
        ii := ii + 1;
      }
    }

    /** The next page is to be copied, and the first call made for it will fail. */
    ghost predicate FirstFails(nPage: int)
      requires PageSize(pSrc.pageSize)
      reads this`iNext, pSrc`nPage, pDest`calls
    {
      iNext <= pSrc.nPage && nPage != 0 && iNext != PendingPage(pSrc.pageSize) && pDest.outcome(pDest.calls) != OK
    }

    /** Lines 419-428, when the pages from first on have been copied into what was was. iNext moves
        on even when the copy fails. */
    method CopyNext(ghost first: nat, ghost was: seq<Byte>) returns (code: Rc)
      requires PageSize(pSrc.pageSize) && PageSize(pDest.pageSize) && 0 < iNext <= pSrc.nPage
      requires |pSrc.data| == pSrc.nPage * pSrc.pageSize
      requires Moved(pSrc.data, pSrc.pageSize, was, pDest.data, pDest.pageSize, first, iNext, OK)
      modifies `iNext, pDest`calls, pDest`data
      ensures iNext == old(iNext) + 1 && (code == OK || pDest.Failed(pSrc.pageSize, old(pDest.calls), code))
      ensures old(pDest.calls) <= pDest.calls
      ensures Moved(pSrc.data, pSrc.pageSize, was, pDest.data, pDest.pageSize, first, iNext, code)
      ensures old(FirstFails(1)) ==> code == pDest.outcome(old(pDest.calls)) && pDest.data == old(pDest.data)
    {
      code := CopyOrSkip(iNext);
      MovedOn(pSrc.data, pSrc.pageSize, was, old(pDest.data), pDest.data, pDest.pageSize, first, iNext, code);
      iNext := iNext + 1;
    }

    /** Lines 420-427 */
    method CopyOrSkip(iSrcPg: nat) returns (code: Rc)
      requires PageSize(pSrc.pageSize) && PageSize(pDest.pageSize) && 0 < iSrcPg <= pSrc.nPage
      requires |pSrc.data| == pSrc.nPage * pSrc.pageSize
      modifies pDest`calls, pDest`data
      ensures code == OK || pDest.Failed(pSrc.pageSize, old(pDest.calls), code)
      ensures old(pDest.calls) <= pDest.calls
      ensures Moved(pSrc.data, pSrc.pageSize, old(pDest.data), pDest.data, pDest.pageSize, iSrcPg, iSrcPg + 1, code)
      ensures iSrcPg != PendingPage(pSrc.pageSize) && pDest.outcome(old(pDest.calls)) != OK ==>
        code == pDest.outcome(old(pDest.calls)) && pDest.data == old(pDest.data)
    {
      if iSrcPg != PendingPage(pSrc.pageSize) {
        code := CopyPage(iSrcPg);
      } else {
        MovedPending(pSrc.data, pSrc.pageSize, pDest.data, pDest.pageSize, iSrcPg);
        code := OK;
      }
    }

    /** Lines 421-426 */
    method CopyPage(iSrcPg: nat) returns (code: Rc)
      requires PageSize(pSrc.pageSize) && PageSize(pDest.pageSize) && 0 < iSrcPg <= pSrc.nPage
      requires |pSrc.data| == pSrc.nPage * pSrc.pageSize && iSrcPg != PendingPage(pSrc.pageSize)
      modifies pDest`calls, pDest`data
      ensures code == OK || pDest.Failed(pSrc.pageSize, old(pDest.calls), code)
      ensures old(pDest.calls) <= pDest.calls
      ensures Moved(pSrc.data, pSrc.pageSize, old(pDest.data), pDest.data, pDest.pageSize, iSrcPg, iSrcPg + 1, code)
      ensures pDest.outcome(old(pDest.calls)) != OK ==>
        code == pDest.outcome(old(pDest.calls)) && pDest.data == old(pDest.data)
    {
      var ps := pSrc.pageSize;
      PageInside(iSrcPg, pSrc.nPage, ps);
      code := pDest.Call();
      if code == OK {
        code := BackupOnePage(pDest, ps, iSrcPg, pSrc.data[(iSrcPg - 1) * ps..iSrcPg * ps], false, pSrc.nPage);
      }
      MovedOne(pSrc.data, ps, old(pDest.data), pDest.data, pDest.pageSize, iSrcPg, code);
    }

    /** One turn of the loop of backupUpdate, after source content was has become now. The
        destination is locked then, as backupOnePage asserts. */
    method Update(iPage: nat, aData: seq<Byte>, ghost was: seq<Byte>, ghost now: seq<Byte>)
      requires SoundFor(was) && 0 < iPage != PendingPage(pSrc.pageSize) && |aData| == pSrc.pageSize
      requires iPage * pSrc.pageSize <= |now|
      requires now[(iPage - 1) * pSrc.pageSize..iPage * pSrc.pageSize] == aData
      requires SameBut(was, now, (iPage - 1) * pSrc.pageSize, iPage * pSrc.pageSize)
      modifies `rc, pDest`calls, pDest`data
      ensures SoundFor(now)
      ensures rc == old(rc) || (!IsFatalError(old(rc)) && pDest.Failed(pSrc.pageSize, old(pDest.calls), rc))
    {
      Distribute(iPage, 1, pSrc.pageSize);
      ghost var lo, hi := (iPage - 1) * pSrc.pageSize, iPage * pSrc.pageSize;
      if !IsFatalError(rc) && iPage < iNext {
        assert bDestLocked;
        var code := BackupOnePage(pDest, pSrc.pageSize, iPage, aData, true, 0);
        if code != OK {
          rc := code;
        } else if pDest.FatalOnly() {
          UpdateKeepsSync(was, now, pSrc.pageSize, old(pDest.data), pDest.data, pDest.pageSize,
            (iNext - 1) * pSrc.pageSize, lo, hi);
        }
      } else if !IsFatalError(rc) && pDest.FatalOnly() {
        PageInside(iNext - 1, iPage - 1, pSrc.pageSize);
        AheadKeepsSync(was, now, pSrc.pageSize, pDest.data, pDest.pageSize, (iNext - 1) * pSrc.pageSize, lo, hi);
      }
    }

    /** The step that led here copied pages until mid, and ended the backup if none was left. */
    ghost predicate Went(s: Progress, mid: Progress)
      reads this`iNext, this`rc, pDest`data, pSrc
    {
      Through(pSrc.data, pSrc.pageSize, pSrc.nPage, pDest.pageSize, pDest.Codes(pSrc.pageSize), s, mid, State())
    }

    /** What a step has come to that got hold of both databases, from state s and after n calls. */
    ghost predicate Stepped(nPage: int, s: Progress, mid: Progress, n: nat, firstFails: bool)
      reads this, pDest, pSrc
    {
      && Went(s, mid)
      && (rc == (if nPage < 0 || s.iNext + nPage > pSrc.nPage then DONE else OK) || pDest.Failed(pSrc.pageSize, n, rc))
      && (rc == OK ==> isAttached && iNext == s.iNext + nPage <= pSrc.nPage)
      && (rc == OK || rc == DONE ==> nPagecount == pSrc.nPage && nRemaining == pSrc.nPage + 1 - iNext)
      && (firstFails ==> State() == s.(rc := pDest.outcome(n), iNext := s.iNext + 1))
      && (rc == DONE && pSrc.nPage > 0 && pDest.FatalOnly() ==>
            IsCopy(pSrc.data, pSrc.pageSize, pDest.data) && HasCookie(pDest.data, Cookie(original) + 1))
    }

    /** sqlite3_backup_step. Another connection may be writing the source (srcBusy), locking
        either database may fail (destLock, srcLock), and a destination in WAL mode refuses other
        page sizes. header is what the commit makes of the first 100 destination bytes. */
    method Step(nPage: int, srcBusy: bool, destLock: Rc, srcLock: Rc, destWal: bool, header: seq<Byte>)
      returns (code: Rc, ghost mid: Progress)
      requires pSrc.Valid() && SoundFor(pSrc.data) && Alone()
      requires destLock != DONE && srcLock != DONE
      modifies this, pDest, pSrc`backups
      ensures pSrc.Valid() && SoundFor(pSrc.data) && Alone() && code == rc
      ensures isAttached == old(isAttached) ==> pSrc.backups == old(pSrc.backups)
      ensures isAttached != old(isAttached) ==> isAttached && pSrc.backups == [this] + old(pSrc.backups)
      ensures old(rc) == DONE || old(rc) == READONLY || old(rc) == NOMEM || old(rc) == IOERR ==> State() == old(State())
      ensures old(rc) == OK || old(rc) == BUSY || old(rc) == LOCKED ==>
        && (srcBusy ==> State() == old(State()).(rc := BUSY))
        && (!srcBusy && !old(bDestLocked) && destLock != OK ==> State() == old(State()).(rc := destLock))
        && (!srcBusy && (old(bDestLocked) || destLock == OK) ==>
              && (srcLock != OK ==> State() == old(State()).(rc := srcLock))
              && (srcLock == OK && destWal && pSrc.pageSize != pDest.pageSize ==>
                    State() == old(State()).(rc := READONLY))
              && (srcLock == OK && (!destWal || pSrc.pageSize == pDest.pageSize) ==>
                    Stepped(nPage, old(State()), mid, old(pDest.calls), old(FirstFails(nPage)))))
    {
      code, mid := rc, State();
      if !IsFatalError(code) {
        code, mid := StepOn(nPage, srcBusy, destLock, srcLock, destWal, header);
      }
    }

    /** Lines 372-586 */
    method StepOn(nPage: int, srcBusy: bool, destLock: Rc, srcLock: Rc, destWal: bool, header: seq<Byte>)
      returns (code: Rc, ghost mid: Progress)
      requires pSrc.Valid() && SoundFor(pSrc.data) && Alone() && !IsFatalError(rc)
      requires destLock != DONE && srcLock != DONE
      modifies this, pDest, pSrc`backups
      ensures pSrc.Valid() && SoundFor(pSrc.data) && Alone() && code == rc
      ensures isAttached == old(isAttached) ==> pSrc.backups == old(pSrc.backups)
      ensures isAttached != old(isAttached) ==> isAttached && pSrc.backups == [this] + old(pSrc.backups)
      ensures srcBusy ==> State() == old(State()).(rc := BUSY)
      ensures !srcBusy && !old(bDestLocked) && destLock != OK ==> State() == old(State()).(rc := destLock)
      ensures !srcBusy && (old(bDestLocked) || destLock == OK) ==>
        && (srcLock != OK ==> State() == old(State()).(rc := srcLock))
        && (srcLock == OK && destWal && pSrc.pageSize != pDest.pageSize ==> State() == old(State()).(rc := READONLY))
        && (srcLock == OK && (!destWal || pSrc.pageSize == pDest.pageSize) ==>
              Stepped(nPage, old(State()), mid, old(pDest.calls), old(FirstFails(nPage))))
    {
      mid := State();
      code := TakeLocks(srcBusy, destLock, srcLock, destWal);
      if code == OK {
        code, mid := CopyAndFinish(nPage, header);
      }
      AllSound();
    }

    lemma AllSound()
      requires OthersSound() && SoundFor(pSrc.data)
      ensures pSrc.Valid()
    {
      assert forall i :: 0 <= i < |pSrc.backups| ==> pSrc.backups[i] in pSrc.backups;
    }

    /** Lines 381-411 */
    method TakeLocks(srcBusy: bool, destLock: Rc, srcLock: Rc, destWal: bool) returns (code: Rc)
      requires OthersSound() && SoundFor(pSrc.data) && Alone() && !IsFatalError(rc)
      requires destLock != DONE && srcLock != DONE
      modifies `rc, `bDestLocked, `iDestSchema
      ensures OthersSound() && SoundFor(pSrc.data) && Alone()
      ensures srcBusy ==> code == BUSY
      ensures !srcBusy && !old(bDestLocked) && destLock != OK ==> code == destLock
      ensures !srcBusy && (old(bDestLocked) || destLock == OK) ==>
        && (srcLock != OK ==> code == srcLock)
        && (srcLock == OK && destWal && pSrc.pageSize != pDest.pageSize ==> code == READONLY)
        && (srcLock == OK && (!destWal || pSrc.pageSize == pDest.pageSize) ==> code == OK)
      ensures rc == if code == OK then old(rc) else code
      ensures bDestLocked == (old(bDestLocked) || (!srcBusy && destLock == OK))
    {
      code := if srcBusy then BUSY else OK;
      if code == OK && !bDestLocked {
        code := destLock;
        if code == OK {
          bDestLocked := true;
          iDestSchema := Cookie(pDest.data);
        }
      }
      if code == OK { code := srcLock; }
      if code == OK && destWal && pSrc.pageSize != pDest.pageSize { code := READONLY; }
      if code != OK { rc := code; }
    }

    /** Lines 416-569 */
    method CopyAndFinish(nPage: int, header: seq<Byte>) returns (code: Rc, ghost mid: Progress)
      requires OthersSound() && SoundFor(pSrc.data) && Alone() && !IsFatalError(rc) && bDestLocked
      modifies this, pDest, pSrc`backups
      ensures OthersSound() && SoundFor(pSrc.data) && Alone() && rc == code
      ensures isAttached == old(isAttached) ==> pSrc.backups == old(pSrc.backups)
      ensures isAttached != old(isAttached) ==> isAttached && pSrc.backups == [this] + old(pSrc.backups)
      ensures Stepped(nPage, old(State()), mid, old(pDest.calls), old(FirstFails(nPage)))
    {
      ghost var s := State();
      code := CopyPages(nPage);
      ghost var n := pDest.calls;
      CopiedInSync(s, code);
      mid := Progress(pDest.data, iNext, code);
      if code == OK {
        code := Conclude(header);
        ClosedIsCopy(mid.dst, n);
      } else {
        Stop(code);
      }
    }

    /** A step ends with an error while it copies pages. */
    method Stop(code: Rc)
      requires OthersSound() && Alone() && PageSize(pDest.pageSize) && iNext > 0
      requires Undoable() && bDestLocked && rc != DONE && code != DONE && (pDest.FatalOnly() ==> IsFatalError(code))
      modifies `rc
      ensures OthersSound() && SoundFor(pSrc.data) && Alone() && rc == code
    {
      rc := code;
    }

    /** Lines 430-569: nothing is left to copy, or the backup goes on the pager's list. */
    method Conclude(header: seq<Byte>) returns (code: Rc)
      requires OthersSound() && Alone() && !IsFatalError(rc) && PageSize(pDest.pageSize) && iNext > 0
      requires Undoable() && bDestLocked
      requires pDest.FatalOnly() ==> InSync(pSrc.data, pSrc.pageSize, pDest.data, pDest.pageSize, iNext)
      modifies this, pDest, pSrc`backups
      ensures OthersSound() && SoundFor(pSrc.data) && Alone() && rc == code && iNext == old(iNext)
      ensures isAttached == old(isAttached) ==> pSrc.backups == old(pSrc.backups)
      ensures isAttached != old(isAttached) ==> isAttached && pSrc.backups == [this] + old(pSrc.backups)
      ensures nPagecount == pSrc.nPage && nRemaining == pSrc.nPage + 1 - iNext
      ensures iNext <= pSrc.nPage ==> code == OK && isAttached && pDest.data == old(pDest.data)
      ensures iNext > pSrc.nPage ==> Closed(old(pDest.data), old(pDest.calls))
    {
      nPagecount := pSrc.nPage;
      nRemaining := pSrc.nPage + 1 - iNext;
      if iNext > pSrc.nPage {
        code := FinishNow(header);
      } else {
        code := OK;
        Continue();
      }
    }

    /** Lines 435-437 */
    method Continue()
      requires OthersSound() && Alone() && PageSize(pDest.pageSize) && iNext > 0
      requires Undoable() && bDestLocked && rc != DONE
      requires pDest.FatalOnly() ==> InSync(pSrc.data, pSrc.pageSize, pDest.data, pDest.pageSize, iNext)
      modifies `rc, `isAttached, pSrc`backups
      ensures OthersSound() && SoundFor(pSrc.data) && Alone() && isAttached && rc == OK
      ensures pSrc.backups == if old(isAttached) then old(pSrc.backups) else [this] + old(pSrc.backups)
    {
      rc := OK;
      if !isAttached { Attach(); }
    }

    /** The backup has ended, from destination content was and after n calls, or a call has failed. */
    ghost predicate Closed(was: seq<Byte>, n: nat)
      reads this`rc, pDest`data, pDest`calls, pSrc
    {
      if rc == DONE then
        pSrc.nPage > 0 ==>
          && Ended(pSrc.data, pSrc.pageSize, was, pDest.data, pDest.pageSize)
          && (44 <= |was| ==> HasCookie(pDest.data, Cookie(original) + 1))
      else pDest.Failed(pSrc.pageSize, n, rc)
    }

    /** Lines 440-569 */
    method FinishNow(header: seq<Byte>) returns (code: Rc)
      requires OthersSound() && Alone() && !IsFatalError(rc) && PageSize(pDest.pageSize)
      requires Undoable() && bDestLocked && iNext > pSrc.nPage
      modifies `rc, pDest
      ensures OthersSound() && SoundFor(pSrc.data) && Alone() && rc == code && Closed(old(pDest.data), old(pDest.calls))
    {
      code := FinishCopy(pDest, pSrc.data, pSrc.pageSize, pSrc.nPage, iDestSchema + 1, header);
      rc := code;
    }

    /** A backup that has ended has made a copy. */
    lemma ClosedIsCopy(was: seq<Byte>, n: nat)
      requires PageSize(pSrc.pageSize) && |pSrc.data| == pSrc.nPage * pSrc.pageSize
      requires rc == DONE ==> iNext > pSrc.nPage && Closed(was, n)
      requires pDest.FatalOnly() ==> InSync(pSrc.data, pSrc.pageSize, was, pDest.pageSize, iNext)
      ensures rc == DONE && pSrc.nPage > 0 && pDest.FatalOnly() ==>
        IsCopy(pSrc.data, pSrc.pageSize, pDest.data) && HasCookie(pDest.data, Cookie(original) + 1)
    {
      if rc == DONE && pSrc.nPage > 0 && pDest.FatalOnly() {
        AllInSync(pSrc.data, pSrc.pageSize, pSrc.nPage, was, pDest.pageSize, iNext);
        EndedIsCopy(pSrc.data, pSrc.pageSize, was, pDest.data, pDest.pageSize);
        PageInside(1, pSrc.nPage, pSrc.pageSize);
        assert At(was, 100, pSrc.data[100]);
      }
    }

    lemma CopiedInSync(s: Progress, code: Rc)
      requires Moved(pSrc.data, pSrc.pageSize, s.dst, pDest.data, pDest.pageSize, s.iNext, iNext, code)
      requires pDest.FatalOnly() ==> InSync(pSrc.data, pSrc.pageSize, s.dst, pDest.pageSize, s.iNext)
      ensures pDest.FatalOnly() && code == OK ==>
        InSync(pSrc.data, pSrc.pageSize, pDest.data, pDest.pageSize, iNext)
    {
      if pDest.FatalOnly() && code == OK {
        MovedKeepsSync(pSrc.data, pSrc.pageSize, s.dst, pDest.data, pDest.pageSize, s.iNext, iNext);
      }
    }

    /** The pager's list is in order and its other members are sound. */
    ghost predicate OthersSound()
      reads this, pSrc, pSrc.backups, pSrc.Dests()
    {
      pSrc.Listed() && forall b :: b in pSrc.backups && b != this ==> b.SoundFor(pSrc.data)
    }

    /** sqlite3_backup_finish: the backup leaves the pager's list, and unless it had ended the
        destination is as it was before. */
    method Finish() returns (code: Rc)
      requires pSrc.Valid() && Alone() && Undoable()
      modifies pSrc`backups, pSrc`nBackup, pDest`data
      ensures pSrc.Valid() && this !in pSrc.backups && pSrc.nBackup == old(pSrc.nBackup) - 1
      ensures forall b :: b in old(pSrc.backups) && b != this <==> b in pSrc.backups
      ensures code == if rc == DONE then OK else rc
      ensures pDest.data == pDest.committed == if rc == DONE then old(pDest.data) else original
    {
      pSrc.nBackup := pSrc.nBackup - 1;
      if isAttached {
        Detach();
      }
      // sqlite3BtreeRollback
      pDest.data := pDest.committed;
      code := if rc == DONE then OK else rc;
    }

    /** Lines 617-623 */
    method Detach()
      requires pSrc.Valid() && Alone() && isAttached
      modifies pSrc`backups
      ensures pSrc.Valid() && this !in pSrc.backups && forall b <- pSrc.backups :: b.pDest != pDest
      ensures forall b :: b in old(pSrc.backups) && b != this <==> b in pSrc.backups
    {
      var pp := 0;
      while pSrc.backups[pp] != this
        invariant pp < |pSrc.backups| && forall i :: 0 <= i < pp ==> pSrc.backups[i] != this
        decreases |pSrc.backups| - pp
      {
        pp := pp + 1;
      }
      pSrc.backups := pSrc.backups[..pp] + pSrc.backups[pp + 1..];
    }

    /** This backup is on the pager's list exactly when it is attached, and no other backup on
        the list has the same destination. */
    ghost predicate Alone()
      reads this, pSrc
    {
      && (isAttached <==> this in pSrc.backups)
      && forall i :: 0 <= i < |pSrc.backups| && pSrc.backups[i] != this ==> pSrc.backups[i].pDest != pDest
    }

    /** attachBackupObject */
    method Attach()
      requires OthersSound() && Alone() && !isAttached
      modifies `isAttached, pSrc`backups
      ensures OthersSound() && Alone() && isAttached && pSrc.backups == [this] + old(pSrc.backups)
    {
      pSrc.backups := [this] + pSrc.backups;
      isAttached := true;
    }
  }

  /** The source database with its pager's list of attached backups, most recent first. */
  class Source {
    const pageSize: nat
    var nPage: nat
    var data: seq<Byte>
    var backups: seq<Backup>
    /** How many backups there are of this database, attached or not. */
    var nBackup: int

    constructor (pageSize: nat, nPage: nat, data: seq<Byte>)
      requires PageSize(pageSize) && |data| == nPage * pageSize
      ensures Valid() && this.pageSize == pageSize && this.nPage == nPage && this.data == data
      ensures backups == [] && nBackup == 0
    {
      this.pageSize, this.nPage, this.data, backups, nBackup := pageSize, nPage, data, [], 0;
    }

    ghost predicate Listed()
      reads this, backups
    {
      && PageSize(pageSize) && |data| == nPage * pageSize
      && (forall i :: 0 <= i < |backups| ==> backups[i].pSrc == this && backups[i].isAttached)
      && (forall i, j :: 0 <= i < j < |backups| ==>
            backups[i] != backups[j] && backups[i].pDest != backups[j].pDest)
    }

    ghost function Dests(): set<object>
      reads this
    {
      set b | b in backups :: b.pDest
    }

    /** Every attached backup is sound for the current content. */
    ghost predicate Valid()
      reads this, backups, Dests()
    {
      Listed() && forall i :: 0 <= i < |backups| ==> backups[i].SoundFor(data)
    }

    /** backupUpdate: the content was has become the current one by writing page iPage. */
    method BackupUpdate(iPage: nat, aData: seq<Byte>, ghost was: seq<Byte>)
      requires Listed() && forall i :: 0 <= i < |backups| ==> backups[i].SoundFor(was)
      requires 0 < iPage <= nPage && iPage != PendingPage(pageSize) && |aData| == pageSize
      requires iPage * pageSize <= |data|
      requires data[(iPage - 1) * pageSize..iPage * pageSize] == aData
      requires SameBut(was, data, (iPage - 1) * pageSize, iPage * pageSize)
      modifies backups`rc, Dests()
      ensures Valid()
      ensures forall k :: 0 <= k < |backups| ==> Disturbed(backups[k], old(backups[k].rc), old(backups[k].pDest.calls))
    {
      ghost var codes := seq(|backups|, k requires 0 <= k < |backups| reads this, backups => backups[k].rc);
      ghost var calls := seq(|backups|, k requires 0 <= k < |backups| reads this, Dests() => backups[k].pDest.calls);
      for i := 0 to |backups|
        invariant Listed() && SoundUpTo(i, was) && DisturbedUpTo(i, codes, calls)
      {
        UpdateNext(backups[i], i, iPage, aData, was, codes, calls);
      }
    }

    /** Of the codes and numbers of calls before, the update may have changed those of the first i. */
    ghost predicate DisturbedUpTo(i: nat, codes: seq<Rc>, calls: seq<nat>)
      requires |codes| == |calls| == |backups|
      reads this, backups`rc, Dests()
    {
      forall k :: 0 <= k < |backups| ==>
        if k < i then Disturbed(backups[k], codes[k], calls[k])
        else backups[k].rc == codes[k] && backups[k].pDest.calls == calls[k]
    }

    /** The first i backups are sound for the current content, and the others for content was. */
    ghost predicate SoundUpTo(i: nat, was: seq<Byte>)
      reads this, backups, Dests()
    {
      && (forall k :: 0 <= k < i && k < |backups| ==> backups[k].SoundFor(data))
      && forall k :: i <= k < |backups| ==> backups[k].SoundFor(was)
    }

    method UpdateNext(b: Backup, i: nat, iPage: nat, aData: seq<Byte>, ghost was: seq<Byte>,
                      ghost codes: seq<Rc>, ghost calls: seq<nat>)
      requires i < |backups| == |codes| == |calls| && b == backups[i]
      requires Listed() && SoundUpTo(i, was) && DisturbedUpTo(i, codes, calls)
      requires 0 < iPage <= nPage && iPage != PendingPage(pageSize) && |aData| == pageSize
      requires iPage * pageSize <= |data|
      requires data[(iPage - 1) * pageSize..iPage * pageSize] == aData
      requires SameBut(was, data, (iPage - 1) * pageSize, iPage * pageSize)
      modifies b`rc, b.pDest`calls, b.pDest`data
      ensures Listed() && SoundUpTo(i + 1, was) && DisturbedUpTo(i + 1, codes, calls)
    {
      b.Update(iPage, aData, was, data);
    }

    /** Another connection's transaction rewrites a page. */
    method WritePage(iPage: nat, aData: seq<Byte>)
      requires Valid() && 0 < iPage <= nPage && iPage != PendingPage(pageSize) && |aData| == pageSize
      modifies `data, backups`rc, Dests()
      ensures Valid() && nPage == old(nPage) && backups == old(backups)
      ensures data == Splice(old(data), (iPage - 1) * pageSize, aData)
      ensures forall k :: 0 <= k < |backups| ==> Disturbed(backups[k], old(backups[k].rc), old(backups[k].pDest.calls))
    {
      PageInside(iPage, nPage, pageSize);
      ghost var was := data;
      data := Splice(data, (iPage - 1) * pageSize, aData);
      BackupUpdate(iPage, aData, was);
    }

    /** The database grows by one page. The pending page comes into being unwritten. */
    method AppendPage(aData: seq<Byte>)
      requires Valid() && |aData| == pageSize
      modifies `data, `nPage, backups`rc, Dests()
      ensures Valid() && nPage == old(nPage) + 1 && backups == old(backups)
      ensures data == old(data) + aData
      ensures forall k :: 0 <= k < |backups| ==> Disturbed(backups[k], old(backups[k].rc), old(backups[k].pDest.calls))
    {
      Distribute(nPage + 1, 1, pageSize);
      PendingBytes(0, pageSize);
      ghost var was := data;
      data, nPage := data + aData, nPage + 1;
      if nPage != PendingPage(pageSize) {
        BackupUpdate(nPage, aData, was);
      } else {
        PendingPageGrows(was);
      }
    }

    lemma PendingPageGrows(was: seq<Byte>)
      requires Listed() && forall i :: 0 <= i < |backups| ==> backups[i].SoundFor(was)
      requires was <= data && |was| == PENDING_BYTE && |data| == PENDING_BYTE + pageSize
      ensures Valid()
    {
    }

    /** The database shrinks. */
    method Truncate(n: nat)
      requires Valid() && n <= nPage
      modifies `data, `nPage
      ensures Valid() && nPage == n && backups == old(backups) && data == old(data)[..n * pageSize]
    {
      PageInside(n, nPage, pageSize);
      data, nPage := data[..n * pageSize], n;
      forall i | 0 <= i < |backups|
        ensures backups[i].SoundFor(data)
      {
        assert old(backups[i].SoundFor(data));
      }
    }

    /** sqlite3BackupRestart: the database was changed from outside, in any way. */
    method ChangedOutside(newData: seq<Byte>, n: nat)
      requires Valid() && |newData| == n * pageSize
      modifies `data, `nPage, backups`iNext
      ensures Valid() && nPage == n && backups == old(backups) && data == newData
      ensures forall b :: b in backups ==> b.iNext == 1
    {
      data, nPage := newData, n;
      for i := 0 to |backups|
        invariant Listed() && Restarted(i) && data == newData && nPage == n
      {
        RestartNext(backups[i], i);
      }
    }

    /** The first i backups start anew. */
    ghost predicate Restarted(i: nat)
      reads this, backups, Dests()
    {
      forall k :: 0 <= k < |backups| ==>
        PageSize(backups[k].pDest.pageSize) && backups[k].Undoable() && (k < i ==> backups[k].iNext == 1)
    }

    method RestartNext(b: Backup, i: nat)
      requires i < |backups| && b == backups[i] && Listed() && Restarted(i)
      modifies b`iNext
      ensures Listed() && Restarted(i + 1)
    {
      b.iNext := 1;
    }
  }

  /** A change of the source leaves the code of a backup alone, unless a call fails. */
  ghost predicate Disturbed(b: Backup, rc: Rc, n: nat)
    reads b`rc, b.pDest`calls
  {
    b.rc == rc || (!IsFatalError(rc) && b.pDest.Failed(b.pSrc.pageSize, n, b.rc))
  }

  /** sqlite3_backup_init: the two databases may not be found, may belong to one connection, memory
      may run out, also when the destination takes over the page size, and a transaction may be open
      on the destination. */
  method BackupInit(pSrc: Source?, pDest: Dest?, sameConnection: bool, memory: bool, setDestPgsz: Rc, inReadTrans: bool)
    returns (p: Backup?)
    requires pSrc != null ==> PageSize(pSrc.pageSize)
    requires pDest != null ==> PageSize(pDest.pageSize) && (!inReadTrans ==> pDest.committed == pDest.data)
    modifies (if pSrc == null then {} else {pSrc})`nBackup
    ensures p != null <==>
      !sameConnection && memory && pSrc != null && pDest != null && setDestPgsz != NOMEM && !inReadTrans
    ensures pSrc != null ==> pSrc.nBackup == old(pSrc.nBackup) + (if p == null then 0 else 1)
    ensures p != null ==>
      && fresh(p) && p.pSrc == pSrc && p.pDest == pDest && p.iNext == 1 && p.rc == OK && !p.isAttached
      && p.original == pDest.data && forall d :: p.SoundFor(d)
  {
    if sameConnection || !memory { return null; }
    if pSrc == null || pDest == null || setDestPgsz == NOMEM || inReadTrans { return null; }
    p := new Backup(pSrc, pDest);
    pSrc.nBackup := pSrc.nBackup + 1;
  }
}
