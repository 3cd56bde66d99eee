/** Whole runs of the online backup (backup.c): any number of backups of one source, begun, stepped
    and finished in any order while the source is written, grown, shrunk, and changed from outside. */
module BackupRun {
  import opened BackupPages
  import opened BackupFinish
  import opened BackupSync
  import opened Backup

  datatype Event =
    | Write(iPage: nat, aData: seq<Byte>)
    | Grow(aData: seq<Byte>)
    | Shrink(n: nat)
    | Outside(newData: seq<Byte>, n: nat)
    | Begin(d: nat, sameConnection: bool, memory: bool, setDestPgsz: Rc, inReadTrans: bool)
    | StepOne(k: nat, nPage: int, srcBusy: bool, destLock: Rc, srcLock: Rc, destWal: bool, header: seq<Byte>)
    | Finish(k: nat)

  /** No backup goes to this destination. */
  predicate Unused(bs: seq<Backup>, d: Dest) {
    forall i :: 0 <= i < |bs| ==> bs[i].pDest != d
  }

  /** The backups of a source, each with one of the destinations to itself. */
  ghost predicate Distinct(src: Source, bs: seq<Backup>, dests: seq<Dest>) {
    && (forall i :: 0 <= i < |bs| ==> bs[i].pSrc == src && bs[i].pDest in dests)
    && forall i, j :: 0 <= i < j < |bs| ==> bs[i] != bs[j] && bs[i].pDest != bs[j].pDest
  }

  /** Nothing is to be undone in the other destinations. */
  ghost predicate OthersIdle(bs: seq<Backup>, dests: seq<Dest>)
    reads dests
  {
    forall i :: 0 <= i < |dests| && Unused(bs, dests[i]) ==>
      PageSize(dests[i].pageSize) && dests[i].committed == dests[i].data
  }

  /** The backups in progress: each sound, and on the list exactly when attached. */
  ghost predicate RunOk(src: Source, bs: seq<Backup>, dests: seq<Dest>)
    reads src, bs, dests, src.backups, src.Dests()
  {
    && src.Valid() && src.nBackup == |bs| && Distinct(src, bs, dests) && OthersIdle(bs, dests)
    && (forall b :: b in src.backups ==> b in bs)
    && forall i :: 0 <= i < |bs| ==> bs[i].SoundFor(src.data) && (bs[i].isAttached <==> bs[i] in src.backups)
  }

  /** A backup that is not attached has copied nothing, so any content suits it. */
  lemma UnattachedIsSound(b: Backup, was: seq<Byte>, now: seq<Byte>)
    requires b.SoundFor(was) && !b.isAttached
    ensures b.SoundFor(now)
  {
  }

  /** What an event on the source leaves to be shown for the backups that are not attached. */
  lemma SourceEventKeeps(src: Source, bs: seq<Backup>, dests: seq<Dest>, was: seq<Byte>)
    requires src.Valid() && src.nBackup == |bs| && Distinct(src, bs, dests) && OthersIdle(bs, dests)
    requires forall b :: b in src.backups ==> b in bs
    requires forall i :: 0 <= i < |bs| ==>
      (bs[i].isAttached <==> bs[i] in src.backups) && (bs[i] !in src.backups ==> bs[i].SoundFor(was))
    ensures RunOk(src, bs, dests)
  {
    forall i | 0 <= i < |bs|
      ensures bs[i].SoundFor(src.data)
    {
      if bs[i] in src.backups {
        var k :| 0 <= k < |src.backups| && src.backups[k] == bs[i];
      } else {
        UnattachedIsSound(bs[i], was, src.data);
      }
    }
  }

  /** What is on the list is one of the backups, so the destination of another one is not its. */
  lemma OnTheList(src: Source, bs: seq<Backup>, dests: seq<Dest>)
    requires RunOk(src, bs, dests)
    ensures forall i :: 0 <= i < |src.backups| ==> src.backups[i] in bs && src.backups[i].pDest in dests
    ensures forall k :: 0 <= k < |bs| ==> bs[k].Alone()
  {
    forall i | 0 <= i < |src.backups| ensures src.backups[i] in bs && src.backups[i].pDest in dests {
      var b := src.backups[i];
      assert b in src.backups;
    }
  }

  /** An event on the source that is not possible in the current state is no event. */
  method SourceChange(src: Source, e: Event)
    requires src.Valid()
    modifies src`data, src`nPage, src.backups`rc, src.backups`iNext, src.Dests()
    ensures src.Valid()
    ensures forall k :: 0 <= k < |src.backups| && src.backups[k].rc == DONE ==> old(src.backups[k].rc) == DONE
  {
    if e.Write? && 0 < e.iPage <= src.nPage && e.iPage != PendingPage(src.pageSize) && |e.aData| == src.pageSize {
      src.WritePage(e.iPage, e.aData);
    } else if e.Grow? && |e.aData| == src.pageSize {
      src.AppendPage(e.aData);
    } else if e.Shrink? && e.n <= src.nPage {
      src.Truncate(e.n);
    } else if e.Outside? && |e.newData| == e.n * src.pageSize {
      src.ChangedOutside(e.newData, e.n);
    }
  }

  method SourceEvent(src: Source, bs: seq<Backup>, dests: seq<Dest>, e: Event)
    requires RunOk(src, bs, dests)
    modifies src`data, src`nPage, bs`rc, bs`iNext, dests
    ensures RunOk(src, bs, dests) && forall i :: 0 <= i < |bs| && bs[i].rc == DONE ==> old(bs[i].rc) == DONE
  {
    ghost var was := src.data;
    OnTheList(src, bs, dests);
    SourceChange(src, e);
    forall i | 0 <= i < |bs| && bs[i].rc == DONE ensures old(bs[i].rc) == DONE {
      if bs[i] in src.backups {
        var k :| 0 <= k < |src.backups| && src.backups[k] == bs[i];
      }
    }
    SourceEventKeeps(src, bs, dests, was);
  }

  /** A destination that another backup is using is not begun on. */
  method BeginEvent(src: Source, bs: seq<Backup>, dests: seq<Dest>, e: Event) returns (now: seq<Backup>)
    requires RunOk(src, bs, dests) && e.Begin?
    modifies src`nBackup
    ensures RunOk(src, now, dests) && bs <= now
    ensures forall i :: 0 <= i < |now| ==> now[i] in bs || (fresh(now[i]) && now[i].rc != DONE)
  {
    now := bs;
    if e.d < |dests| && Unused(bs, dests[e.d]) {
      var p := BackupInit(src, dests[e.d], e.sameConnection, e.memory, e.setDestPgsz, e.inReadTrans);
      if p != null {
        now := bs + [p];
        assert now[|bs|] == p;
        forall d: Dest | Unused(now, d) ensures Unused(bs, d) {
          assert forall i :: 0 <= i < |bs| ==> now[i] == bs[i];
        }
      }
    }
  }

  method StepEvent(src: Source, bs: seq<Backup>, dests: seq<Dest>, e: Event) returns (code: Rc)
    requires RunOk(src, bs, dests) && e.StepOne? && e.k < |bs| && e.destLock != DONE && e.srcLock != DONE
    modifies src`backups, bs[e.k], bs[e.k].pDest
    ensures RunOk(src, bs, dests) && code == bs[e.k].rc
    ensures code == DONE && old(bs[e.k].rc) != DONE && src.nPage > 0 && bs[e.k].pDest.FatalOnly() ==>
      IsCopy(src.data, src.pageSize, bs[e.k].pDest.data)
  {
    OnTheList(src, bs, dests);
    ghost var mid;
    code, mid := bs[e.k].Step(e.nPage, e.srcBusy, e.destLock, e.srcLock, e.destWal, e.header);
    StepKeeps(src, bs, dests, e.k);
  }

  /** A step leaves the other backups alone. */
  lemma StepKeeps(src: Source, bs: seq<Backup>, dests: seq<Dest>, k: nat)
    requires k < |bs| && src.Valid() && src.nBackup == |bs| && Distinct(src, bs, dests) && OthersIdle(bs, dests)
    requires forall b :: b in src.backups ==> b in bs
    requires bs[k].SoundFor(src.data) && bs[k].Alone()
    requires forall i :: 0 <= i < |bs| && i != k ==>
      bs[i].SoundFor(src.data) && (bs[i].isAttached <==> bs[i] in src.backups)
    ensures RunOk(src, bs, dests)
  {
  }

  lemma Removed(bs: seq<Backup>, k: nat, now: seq<Backup>)
    requires k < |bs| && now == bs[..k] + bs[k + 1..]
    ensures forall b :: b in bs ==> b == bs[k] || b in now
    ensures forall d: Dest :: Unused(now, d) ==> d == bs[k].pDest || Unused(bs, d)
    ensures forall i :: 0 <= i < |now| ==> now[i] == bs[if i < k then i else i + 1]
  {
    forall b | b in bs && b != bs[k] ensures b in now {
      var i :| 0 <= i < |bs| && bs[i] == b;
      assert now[if i < k then i else i - 1] == b;
    }
    forall d: Dest | Unused(now, d) && d != bs[k].pDest ensures Unused(bs, d) {
      forall i | 0 <= i < |bs| ensures bs[i].pDest != d {
        assert i != k ==> now[if i < k then i else i - 1] == bs[i];
      }
    }
  }

  /** Unless it has ended before, a backup that is finished leaves its destination as it was before
      the backup began. */
  method FinishEvent(src: Source, bs: seq<Backup>, dests: seq<Dest>, k: nat) returns (now: seq<Backup>, code: Rc)
    requires RunOk(src, bs, dests) && k < |bs|
    modifies src`backups, src`nBackup, bs[k].pDest`data
    ensures RunOk(src, now, dests) && now == bs[..k] + bs[k + 1..] && Unused(now, bs[k].pDest)
    ensures code == if bs[k].rc == DONE then OK else bs[k].rc
    ensures bs[k].pDest.data == bs[k].pDest.committed
      == if bs[k].rc == DONE then old(bs[k].pDest.data) else bs[k].original
  {
    OnTheList(src, bs, dests);
    code := bs[k].Finish();
    now := bs[..k] + bs[k + 1..];
    Removed(bs, k, now);
  }

  /** What a step of a backup reported. */
  datatype Report = Report(b: Backup, code: Rc)

  method OneEvent(src: Source, bs: seq<Backup>, dests: seq<Dest>, e: Event)
    returns (now: seq<Backup>, report: seq<Report>)
    requires RunOk(src, bs, dests)
    modifies src, bs, dests
    ensures RunOk(src, now, dests) && forall i :: 0 <= i < |now| ==> now[i] in bs || fresh(now[i])
    ensures forall i :: 0 <= i < |now| && now[i].rc == DONE ==>
      Report(now[i], DONE) in report || (now[i] in bs && old(allocated(now[i])) && old(now[i].rc) == DONE)
  {
    now, report := bs, [];
    if e.Begin? {
      now := BeginEvent(src, bs, dests, e);
    } else if e.Finish? {
      if e.k < |bs| {
        var code;
        now, code := FinishEvent(src, bs, dests, e.k);
      }
    } else if !e.StepOne? {
      SourceEvent(src, bs, dests, e);
    } else if e.k < |bs| && e.destLock != DONE && e.srcLock != DONE {
      var code := StepEvent(src, bs, dests, e);
      report := [Report(bs[e.k], code)];
    }
  }

  /** Whatever has happened before, a step that reports the end of a backup, the first to do so, leaves
      a copy of the source as it is then, if calls can only fail fatally. */
  method Run(src: Source, before: seq<Backup>, dests: seq<Dest>, events: seq<Event>, last: Event)
    returns (bs: seq<Backup>, reports: seq<Report>, code: Rc)
    requires RunOk(src, before, dests) && last.StepOne? && last.destLock != DONE && last.srcLock != DONE
    requires forall i :: 0 <= i < |before| ==> before[i].rc != DONE
    modifies src, before, dests
    ensures RunOk(src, bs, dests)
    ensures last.k < |bs| && code == DONE && Report(bs[last.k], DONE) !in reports && src.nPage > 0 ==>
      bs[last.k].pDest.FatalOnly() ==> IsCopy(src.data, src.pageSize, bs[last.k].pDest.data)
  {
    bs, reports := before, [];
    for i := 0 to |events|
      invariant RunOk(src, bs, dests) && forall i :: 0 <= i < |bs| ==> bs[i] in before || fresh(bs[i])
      invariant forall i :: 0 <= i < |bs| && bs[i].rc == DONE ==> Report(bs[i], DONE) in reports
    {
      var report;
      bs, report := OneEvent(src, bs, dests, events[i]);
      reports := reports + report;
    }
    code := OK;
    if last.k < |bs| {
      code := StepEvent(src, bs, dests, last);
    }
  }
}
