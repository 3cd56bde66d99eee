/** The end of a backup (backup.c, lines 440-569): truncation, the tail of the destination's
    pending page, and the commit. */
module BackupFinish {
  import opened Arithmetic
  import opened BackupPages

  /** Header bytes of the first page that the schema cookie, the version, the page count and
      the commit rewrite. */
  predicate InHeader(o: nat) {
    18 <= o < 20 || 24 <= o < 32 || 40 <= o < 44 || 92 <= o < 100
  }

  /** The destination is the source but for the source's pending page and those header bytes. */
  ghost predicate IsCopy(src: seq<Byte>, ps: nat, dst: seq<Byte>) {
    && |dst| <= |src|
    && forall o | 0 <= o < |src| && !(PENDING_BYTE <= o < PENDING_BYTE + ps) ::
         !(18 <= o < 20) && !(24 <= o < 32) && !(40 <= o < 44) && !(92 <= o < 100) ==> At(dst, o, src[o])
  }

  /** Everything but the destination's own pending page is in place. */
  ghost predicate IsCopyButPending(src: seq<Byte>, ps: nat, dst: seq<Byte>, pd: nat) {
    forall o :: 0 <= o < |src| && !Pending(o, ps) && !Pending(o, pd) && !InHeader(o) ==> At(dst, o, src[o])
  }

  /** What the destination held of the source's range is still there, but for its pending page. */
  ghost predicate Kept(src: seq<Byte>, was: seq<Byte>, dst: seq<Byte>, pd: nat) {
    forall o :: 0 <= o < |src| && o < |was| && !Pending(o, pd) ==> At(dst, o, was[o])
  }

  /** Besides, the source bytes on the destination's pending page are in place up to iOff. */
  ghost predicate TailDone(src: seq<Byte>, ps: nat, was: seq<Byte>, dst: seq<Byte>, pd: nat, iOff: nat) {
    && Kept(src, was, dst, pd)
    && forall o :: PENDING_BYTE + ps <= o < iOff && o < |src| ==> At(dst, o, src[o])
  }

  /** Besides, the destination is no longer than the source. */
  ghost predicate Finished(src: seq<Byte>, ps: nat, was: seq<Byte>, dst: seq<Byte>, pd: nat) {
    |dst| <= |src| && TailDone(src, ps, was, dst, pd, PENDING_BYTE + pd)
  }

  /** Whatever the destination held before, the end of the backup makes only these changes. */
  ghost predicate Ended(src: seq<Byte>, ps: nat, was: seq<Byte>, dst: seq<Byte>, pd: nat) {
    && |dst| <= |src|
    && (forall o :: PENDING_BYTE + ps <= o < PENDING_BYTE + pd && o < |src| ==> At(dst, o, src[o]))
    && forall o :: 0 <= o < |src| && o < |was| && !Pending(o, pd) && !InHeader(o) ==> At(dst, o, was[o])
  }

  lemma EndedIsCopy(src: seq<Byte>, ps: nat, was: seq<Byte>, dst: seq<Byte>, pd: nat)
    requires IsCopyButPending(src, ps, was, pd) && Ended(src, ps, was, dst, pd)
    ensures IsCopy(src, ps, dst)
  {
    forall o | 0 <= o < |src| && !Pending(o, ps) && !InHeader(o) ensures At(dst, o, src[o]) {
      var b := src[o];
      assert if Pending(o, pd) then PENDING_BYTE + ps <= o < PENDING_BYTE + pd else o < |was| && was[o] == b;
    }
  }

  /** The schema cookie, which the header holds at offset 40. */
  predicate HasCookie(d: seq<Byte>, cookie: nat) {
    44 <= |d| && d[40..44] == Put4byte(cookie)
  }

  lemma FinishedIsEnded(src: seq<Byte>, ps: nat, was: seq<Byte>, header: seq<Byte>, cookie: nat,
                        dst: seq<Byte>, pd: nat)
    requires Finished(src, ps, WithHeader(was, header, cookie), dst, pd) && ps > 0
    ensures Ended(src, ps, was, dst, pd) && (44 <= |was| && 44 <= |src| ==> HasCookie(dst, cookie))
  {
    var w := WithHeader(was, header, cookie);
    assert forall o :: 0 <= o < |was| ==> o < |w| && (!InHeader(o) ==> w[o] == was[o]);
    if 44 <= |was| && 44 <= |src| {
      forall o | 0 <= o < 44 ensures At(dst, o, w[o]) {
        assert !Pending(o, pd);
      }
      assert At(dst, 43, w[43]);
      assert dst[40..44] == w[40..44];
    }
  }

  /** Lines 477-485 */
  function DestTruncate(nSrcPage: nat, ps: nat, pd: nat): int
    requires ps > 0 && pd > 0
    requires ps < pd ==> pd / ps > 0
  {
    if ps < pd then
      var ratio := pd / ps;
      var n := (nSrcPage + ratio - 1) / ratio;
      if n == PendingPage(pd) then n - 1 else n
    else
      nSrcPage * (ps / pd)
  }

  /** The asserts of lines 486 and 506-510, for a larger destination page. */
  lemma TruncateIsEnough(nSrcPage: nat, ps: nat, pd: nat)
    requires PageSize(ps) && PageSize(pd) && nSrcPage > 0 && ps < pd
    ensures pd / ps > 0
    ensures var n, iSize := DestTruncate(nSrcPage, ps, pd), ps * nSrcPage;
      && n > 0
      && (n * pd >= iSize || (n == PendingPage(pd) - 1 && PENDING_BYTE <= iSize <= PENDING_BYTE + pd))
  {
    var r := Ratio(ps, pd);
    var q := RoundUp(nSrcPage, r);
    Scale(q, r, ps, pd, nSrcPage);
    if q == PendingPage(pd) { LargePendingPage(q, pd); }
  }

  /** Otherwise the truncated destination has exactly the size of the source. */
  lemma TruncateIsExact(nSrcPage: nat, ps: nat, pd: nat)
    requires PageSize(ps) && PageSize(pd) && nSrcPage > 0 && ps >= pd
    ensures DestTruncate(nSrcPage, ps, pd) > 0
    ensures DestTruncate(nSrcPage, ps, pd) * pd == nSrcPage * ps
  {
    var r := Ratio(pd, ps);
    Associate(nSrcPage, r, pd);
    Positive(nSrcPage, r);
  }

  lemma Scale(q: nat, r: nat, ps: nat, pd: nat, n: nat)
    requires n > 0 && r > 0 && ps > 0 && pd == r * ps && n <= q * r < n + r
    ensures q > 0 && ps * n <= q * pd < ps * n + pd
  {
    Associate(q, r, ps);
    Distribute(q * r, n, ps);
    NotNegative(q * r - n, ps);
    Distribute(n + r, q * r, ps);
    Distribute(n + r, n, ps);
    Positive(n + r - q * r, ps);
  }

  lemma LargePendingPage(q: nat, s: nat)
    requires PageSize(s) && q == PendingPage(s)
    ensures q > 2 && (q - 1) * s == PENDING_BYTE && q * s == PENDING_BYTE + s
  {
    PendingBytes(0, s);
    Distribute(q, 1, s);
  }

  /** The first 100 bytes once the schema cookie, the version and the commit have been written. */
  function WithHeader(d: seq<Byte>, header: seq<Byte>, cookie: nat): (r: seq<Byte>)
    ensures |r| == |d|
    ensures forall o :: 0 <= o < |d| && !InHeader(o) ==> r[o] == d[o]
    ensures 44 <= |d| ==> r[40..44] == Put4byte(cookie)
  {
    seq(|d|, o requires 0 <= o < |d| =>
      if 40 <= o < 44 then Put4byte(cookie)[o - 40] else if InHeader(o) && o < |header| then header[o] else d[o])
  }

  /** sqlite3OsWrite: the file is extended as needed. */
  function WriteAt(d: seq<Byte>, off: nat, b: seq<Byte>): (r: seq<Byte>)
    ensures |d| <= |r| && off + |b| <= |r| <= (if |d| < off + |b| then off + |b| else |d|)
    ensures forall o :: off <= o < off + |b| ==> r[o] == b[o - off]
    ensures forall o :: 0 <= o < |d| && !(off <= o < off + |b|) ==> r[o] == d[o]
  {
    var e := if |d| < off + |b| then d + seq(off + |b| - |d|, _ => 0) else d;
    Splice(e, off, b)
  }

  /** Lines 538-546: one source page, written past the pager. */
  method WriteTailPage(dest: Dest, iOff: nat, page: seq<Byte>) returns (rc: Rc)
    modifies dest`calls, dest`data
    ensures dest.Called(old(dest.calls), rc)
    ensures rc == OK ==> dest.data == WriteAt(old(dest.data), iOff, page)
  {
    rc := dest.Call();
    if rc == OK {
      rc := dest.Call();
      if rc == OK { dest.data := WriteAt(dest.data, iOff, page); }
    }
  }

  lemma TailStep(src: seq<Byte>, ps: nat, was: seq<Byte>, dst: seq<Byte>, pd: nat, iOff: nat)
    requires TailDone(src, ps, was, dst, pd, iOff)
    requires PENDING_BYTE <= iOff && iOff + ps <= |src| && iOff + ps <= PENDING_BYTE + pd
    ensures TailDone(src, ps, was, WriteAt(dst, iOff, src[iOff..iOff + ps]), pd, iOff + ps)
  {
    var page := src[iOff..iOff + ps];
    assert forall o :: iOff <= o < iOff + ps ==> page[o - iOff] == src[o];
  }

  /** Lines 533-548: the source pages that share the destination's pending page with the
      source's own pending page go straight to the file. */
  method WriteTail(dest: Dest, src: seq<Byte>, ps: nat, nSrcPage: nat) returns (rc: Rc)
    requires PageSize(ps) && PageSize(dest.pageSize) && ps < dest.pageSize && |src| == nSrcPage * ps
    modifies dest`calls, dest`data
    ensures dest.Called(old(dest.calls), rc)
    ensures rc == OK ==> TailDone(src, ps, old(dest.data), dest.data, dest.pageSize, PENDING_BYTE + dest.pageSize)
  {
    var pd := dest.pageSize;
    var iEnd := if PENDING_BYTE + pd < |src| then PENDING_BYTE + pd else |src|;
    ghost var last := TailPages(ps, pd);
    rc := WriteTailLoop(dest, src, ps, iEnd, PendingPage(ps), if PENDING_BYTE + pd < |src| then last else nSrcPage);
    if rc == OK {
      TailEnd(src, ps, old(dest.data), dest.data, pd, iEnd);
    }
  }

  lemma TailEnd(src: seq<Byte>, ps: nat, was: seq<Byte>, dst: seq<Byte>, pd: nat, iEnd: nat)
    requires TailDone(src, ps, was, dst, pd, iEnd) && (iEnd == |src| || iEnd == PENDING_BYTE + pd)
    ensures TailDone(src, ps, was, dst, pd, PENDING_BYTE + pd)
  {
    forall o | PENDING_BYTE + ps <= o < PENDING_BYTE + pd && o < |src| ensures At(dst, o, src[o]) {
      var b := src[o];
    }
  }

  lemma TailPages(ps: nat, pd: nat) returns (last: nat)
    requires PageSize(ps) && PageSize(pd) && ps < pd
    ensures PendingPage(ps) * ps == PENDING_BYTE + ps && last * ps == PENDING_BYTE + pd
  {
    PendingBytes(0, ps);
    var r := Ratio(ps, pd);
    last := PendingPage(ps) - 1 + r;
    Distribute(PendingPage(ps), 1, ps);
    Distribute(last, r, ps);
  }

  method WriteTailLoop(dest: Dest, src: seq<Byte>, ps: nat, iEnd: nat, ghost first: nat, ghost last: nat)
    returns (rc: Rc)
    requires ps > 0 && iEnd <= |src| && iEnd <= PENDING_BYTE + dest.pageSize
    requires first * ps == PENDING_BYTE + ps && last * ps == iEnd
    modifies dest`calls, dest`data
    ensures dest.Called(old(dest.calls), rc)
    ensures rc == OK ==> TailDone(src, ps, old(dest.data), dest.data, dest.pageSize, iEnd)
  {
    var iOff := PENDING_BYTE + ps;
    ghost var k: nat := first;
    rc := OK;
    while rc == OK && iOff < iEnd
      invariant dest.Called(old(dest.calls), rc)
      invariant iOff == k * ps
      invariant rc == OK ==> TailDone(src, ps, old(dest.data), dest.data, dest.pageSize, iOff)
      decreases iEnd - iOff
    {
      NextMultiple(k, last, ps);
      TailStep(src, ps, old(dest.data), dest.data, dest.pageSize, iOff);
      rc := WriteTailPage(dest, iOff, src[iOff..iOff + ps]);
      iOff, k := iOff + ps, k + 1;
    }
  }

  /** Lines 440-569, from the moment every source page has been copied: header is what the first
      100 bytes become in the commit, but for the schema cookie. */
  method FinishCopy(dest: Dest, src: seq<Byte>, ps: nat, nSrcPage: nat, cookie: nat, header: seq<Byte>) returns (rc: Rc)
    requires PageSize(ps) && PageSize(dest.pageSize) && |src| == nSrcPage * ps
    modifies dest
    ensures if rc == DONE then dest.calls >= old(dest.calls) else rc != OK && dest.Called(old(dest.calls), rc)
    ensures dest.committed == if rc == DONE then dest.data else old(dest.committed)
    ensures rc == DONE && nSrcPage > 0 ==>
      && Ended(src, ps, old(dest.data), dest.data, dest.pageSize)
      && (44 <= |old(dest.data)| ==> HasCookie(dest.data, cookie))
  {
    var nPage := nSrcPage;
    if nSrcPage == 0 {
      // sqlite3BtreeNewDb
      rc := dest.GetForWriting(1);
      if rc != OK { return; }
      nPage := 1;
    }
    // sqlite3BtreeUpdateMeta, sqlite3BtreeSetVersion, and what the commit writes
    rc := dest.Call();
    if rc != OK { return; }
    ghost var was := dest.data;
    dest.data := WithHeader(dest.data, header, cookie);
    if ps < dest.pageSize {
      rc := FinishLarger(dest, src, ps, nSrcPage, nPage);
    } else {
      rc := FinishSmaller(dest, src, ps, nSrcPage, nPage);
    }
    if rc == OK {
      if nSrcPage > 0 {
        Positive(nSrcPage, ps);
        FinishedIsEnded(src, ps, was, header, cookie, dest.data, dest.pageSize);
      }
      rc := Commit(dest);
    }
  }

  /** Lines 563-567 */
  method Commit(dest: Dest) returns (rc: Rc)
    modifies dest`calls, dest`committed
    ensures if rc == DONE then dest.calls >= old(dest.calls) else rc != OK && dest.Called(old(dest.calls), rc)
    ensures dest.committed == if rc == DONE then dest.data else old(dest.committed)
  {
    rc := dest.Call();
    if rc == OK {
      dest.committed := dest.data;
      rc := DONE;
    }
  }

  /** backupTruncateFile and sqlite3PagerTruncateImage */
  function Truncated(d: seq<Byte>, n: nat): seq<Byte> {
    if |d| > n then d[..n] else d
  }

  lemma TruncatedIsFinished(src: seq<Byte>, ps: nat, was: seq<Byte>, dst: seq<Byte>, pd: nat)
    requires TailDone(src, ps, was, dst, pd, PENDING_BYTE + pd)
    ensures Finished(src, ps, was, Truncated(dst, |src|), pd)
  {
  }

  /** Lines 498-556: the destination's pages are larger. */
  method FinishLarger(dest: Dest, src: seq<Byte>, ps: nat, nSrcPage: nat, nPage: nat) returns (rc: Rc)
    requires PageSize(ps) && PageSize(dest.pageSize) && ps < dest.pageSize && |src| == nSrcPage * ps
    requires nPage == (if nSrcPage == 0 then 1 else nSrcPage)
    modifies dest`calls, dest`data
    ensures dest.Called(old(dest.calls), rc)
    ensures rc == OK && nSrcPage > 0 ==> Finished(src, ps, old(dest.data), dest.data, dest.pageSize)
  {
    rc := JournalFrom(dest, ps, nPage);
    if rc == OK {
      rc := WriteAndTruncate(dest, src, ps, nSrcPage, ps * nPage, old(dest.data));
    }
  }

  /** Lines 533-556 */
  method WriteAndTruncate(dest: Dest, src: seq<Byte>, ps: nat, nSrcPage: nat, iSize: nat, ghost was: seq<Byte>)
    returns (rc: Rc)
    requires PageSize(ps) && PageSize(dest.pageSize) && ps < dest.pageSize && |src| == nSrcPage * ps
    requires was <= dest.data
    modifies dest`calls, dest`data
    ensures dest.Called(old(dest.calls), rc)
    ensures rc == OK && iSize == |src| ==> Finished(src, ps, was, dest.data, dest.pageSize)
  {
    rc := WriteTail(dest, src, ps, nSrcPage);
    if rc == OK {
      TailOfMore(src, ps, was, old(dest.data), dest.data, dest.pageSize);
      rc := TruncateAndSync(dest, iSize);
    }
  }

  /** Lines 549-556 */
  method TruncateAndSync(dest: Dest, iSize: nat) returns (rc: Rc)
    modifies dest`calls, dest`data
    ensures dest.Called(old(dest.calls), rc) && dest.data == Truncated(old(dest.data), iSize)
  {
    dest.data := Truncated(dest.data, iSize);
    rc := dest.Call();
  }

  /** Lines 477-531 */
  method JournalFrom(dest: Dest, ps: nat, nPage: nat) returns (rc: Rc)
    requires PageSize(ps) && PageSize(dest.pageSize) && ps < dest.pageSize && nPage > 0
    modifies dest`calls, dest`data
    ensures dest.Called(old(dest.calls), rc)
    ensures old(dest.data) <= dest.data
  {
    TruncateIsEnough(nPage, ps, dest.pageSize);
    rc := JournalRest(dest, DestTruncate(nPage, ps, dest.pageSize));
  }

  /** What began with more is finished too. */
  lemma TailOfMore(src: seq<Byte>, ps: nat, was: seq<Byte>, more: seq<Byte>, dst: seq<Byte>, pd: nat)
    requires was <= more && TailDone(src, ps, more, dst, pd, PENDING_BYTE + pd)
    ensures Finished(src, ps, was, Truncated(dst, |src|), pd)
  {
    TruncatedIsFinished(src, ps, more, dst, pd);
  }

  /** Lines 558-559: the destination's pages are the same or smaller. */
  method FinishSmaller(dest: Dest, src: seq<Byte>, ps: nat, nSrcPage: nat, nPage: nat) returns (rc: Rc)
    requires PageSize(ps) && PageSize(dest.pageSize) && ps >= dest.pageSize && |src| == nSrcPage * ps
    requires nPage == (if nSrcPage == 0 then 1 else nSrcPage)
    modifies dest`calls, dest`data
    ensures dest.Called(old(dest.calls), rc)
    ensures rc == OK && nSrcPage > 0 ==> Finished(src, ps, old(dest.data), dest.data, dest.pageSize)
  {
    TruncateIsExact(nPage, ps, dest.pageSize);
    TruncatedIsFinished(src, ps, dest.data, dest.data, dest.pageSize);
    dest.data := Truncated(dest.data, DestTruncate(nPage, ps, dest.pageSize) * dest.pageSize);
    rc := dest.Call();
  }

  /** Lines 518-531: every page from the truncation point on is journalled before it goes. */
  method JournalRest(dest: Dest, nDestTruncate: int) returns (rc: Rc)
    requires PageSize(dest.pageSize) && nDestTruncate > 0
    modifies dest`calls, dest`data
    ensures dest.Called(old(dest.calls), rc)
    ensures old(dest.data) <= dest.data
  {
    var nDstPage := |dest.data| / dest.pageSize;
    var iPg := nDestTruncate;
    rc := OK;
    while rc == OK && iPg <= nDstPage
      invariant iPg >= nDestTruncate && dest.Called(old(dest.calls), rc) && old(dest.data) <= dest.data
      decreases nDstPage - iPg
    {
      if iPg != PendingPage(dest.pageSize) { rc := dest.GetForWriting(iPg); }
      iPg := iPg + 1;
    }
    if rc == OK { rc := dest.Call(); }
  }
}
