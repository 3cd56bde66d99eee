/** Copying one source page into a destination whose pages may have another size
    (backup.c, backupOnePage). Both databases are flat byte sequences; a page is named by the
    offset of its first byte where that is simpler. */
module BackupPages {
  import opened Arithmetic

  newtype Byte = x: int | 0 <= x < 256

  const PENDING_BYTE: nat := 0x4000_0000

  datatype Rc = OK | DONE | BUSY | LOCKED | READONLY | NOMEM | IOERR

  predicate IsFatalError(rc: Rc) {
    rc != OK && rc != BUSY && rc != LOCKED
  }

  predicate PageSize(s: nat) {
    s == 512 || s == 1024 || s == 2048 || s == 4096 || s == 8192 || s == 16384 || s == 32768 || s == 65536
  }

  /** PENDING_BYTE_PAGE */
  function PendingPage(s: nat): nat
    requires s > 0
  {
    PENDING_BYTE / s + 1
  }

  /** Byte o lies on the page that is never used, for pages of s bytes. */
  predicate Pending(o: nat, s: nat) {
    PENDING_BYTE <= o < PENDING_BYTE + s
  }

  lemma PendingBytes(o: nat, s: nat)
    requires PageSize(s)
    ensures o / s + 1 == PendingPage(s) <==> Pending(o, s)
    ensures (PendingPage(s) - 1) * s == PENDING_BYTE
  {
    if s == 512 {
    } else if s == 1024 {
    } else if s == 2048 {
    } else if s == 4096 {
    } else if s == 8192 {
    } else if s == 16384 {
    } else if s == 32768 {
    }
  }

  lemma Ratio(small: nat, large: nat) returns (r: nat)
    requires PageSize(small) && PageSize(large) && small <= large
    ensures r >= 1 && large == r * small && large / small == r
  {
    r := large / small;
    if small == 512 {
    } else if small == 1024 {
    } else if small == 2048 {
    } else if small == 4096 {
    } else if small == 8192 {
    } else if small == 16384 {
    } else if small == 32768 {
    }
  }

  lemma Within(q: nat, m: nat, k: nat, r: nat, large: nat, small: nat)
    requires small > 0 && large == r * small && k * small == q * large + m && m < large
    ensures m + small <= large
  {
    Associate(q, r, small);
    var t := k - q * r;
    Distribute(k, q * r, small);
    Less(t, r, small);
    Distribute(r, t + 1, small);
    Distribute(t + 1, 1, small);
    NotNegative(r - (t + 1), small);
  }

  /** Of two page sizes one divides the other, so a small page never straddles large ones. */
  lemma Aligned(small: nat, large: nat, k: nat)
    requires PageSize(small) && PageSize(large) && small <= large
    ensures k * large % small == 0
    ensures k * small % large + small <= large
  {
    var r := Ratio(small, large);
    Associate(k, r, small);
    Multiple(k * r, small);
    Division(k * small, large);
    Within(k * small / large, k * small % large, k, r, large, small);
  }

  /** All bytes of a chunk inside one page are pending or none is. */
  lemma PendingChunk(off: nat, n: nat, s: nat, o: nat)
    requires PageSize(s) && off % s + n <= s && off <= o < off + n
    ensures Pending(o, s) <==> off / s + 1 == PendingPage(s)
  {
    Division(off, s);
    QuotRem(off / s, s, off % s + (o - off));
    PendingBytes(o, s);
  }

  /** The bytes that sqlite3Put4byte writes at offset 28 of a new first page. */
  predicate InPageCount(o: nat) {
    28 <= o < 32
  }

  /** What a call of a pager can return. */
  type PagerCode = rc: Rc | rc != DONE witness OK

  /** The destination through its pager. */
  class Dest {
    const pageSize: nat
    const isMemdb: bool
    /** What the n-th call comes to, of the pagers and the file system below them, during the backup. */
    const outcome: nat -> PagerCode
    var calls: nat
    var data: seq<Byte>
    /** What a rollback leads back to. */
    var committed: seq<Byte>

    constructor (pageSize: nat, isMemdb: bool, outcome: nat -> PagerCode, data: seq<Byte>)
      ensures this.pageSize == pageSize && this.isMemdb == isMemdb && this.outcome == outcome
      ensures this.data == committed == data && calls == 0
    {
      this.pageSize, this.isMemdb, this.outcome := pageSize, isMemdb, outcome;
      this.data, committed, calls := data, data, 0;
    }

    /** Since there had been from calls, rc is OK or what one of the calls came to. */
    ghost predicate Called(from: nat, rc: Rc)
      reads this`calls
    {
      from <= calls && (rc == OK || exists n: nat :: from <= n < calls && outcome(n) == rc)
    }

    /** Such a failure, or the refusal of a database in memory to take pages of another size. */
    ghost predicate Failed(ps: nat, from: nat, rc: Rc)
      reads this`calls
    {
      rc != OK && from <= calls && (Called(from, rc) || (isMemdb && ps != pageSize && rc == READONLY))
    }

    /** All the codes of these failures. */
    ghost function Codes(ps: nat): set<Rc> {
      set rc: Rc | CanFail(ps, rc)
    }

    ghost predicate CanFail(ps: nat, rc: Rc) {
      rc != OK && ((isMemdb && ps != pageSize && rc == READONLY) || exists n: nat :: outcome(n) == rc)
    }

    /** Whenever a call fails, it fails fatally. */
    ghost predicate FatalOnly() {
      forall n: nat :: outcome(n) != BUSY && outcome(n) != LOCKED
    }

    method Call() returns (rc: Rc)
      modifies `calls
      ensures rc == outcome(old(calls)) && calls == old(calls) + 1 && Called(old(calls), rc)
    {
      rc := outcome(calls);
      calls := calls + 1;
    }

    /** sqlite3PagerGet and sqlite3PagerWrite: a page beyond the end comes into being. */
    method GetForWriting(iDest: nat) returns (rc: Rc)
      requires iDest > 0
      modifies `calls, `data
      ensures Called(old(calls), rc)
      ensures old(data) <= data
      ensures rc == OK ==> iDest * pageSize <= |data|
    {
      rc := Call();
      if rc == OK {
        rc := Call();
        if rc == OK && |data| < iDest * pageSize {
          data := data + seq(iDest * pageSize - |data|, _ => 0);
        }
      }
    }
  }

  predicate At(d: seq<Byte>, o: nat, b: Byte) {
    o < |d| && d[o] == b
  }

  function Splice(d: seq<Byte>, off: nat, b: seq<Byte>): (r: seq<Byte>)
    requires off + |b| <= |d|
    ensures |r| == |d|
    ensures forall o :: 0 <= o < |d| ==> r[o] == if off <= o < off + |b| then b[o - off] else d[o]
  {
    d[..off] + b + d[off + |b|..]
  }

  /** Outside [lo, hi) the destination only grew. */
  ghost predicate Untouched(was: seq<Byte>, now: seq<Byte>, lo: nat, hi: nat) {
    |was| <= |now| && forall o :: 0 <= o < |was| && !(lo <= o < hi) ==> now[o] == was[o]
  }

  /** Bytes [lo, hi) of the destination are those of z, which starts at offset base, but for the
      destination's pending page and a freshly written page count. */
  ghost predicate Copied(now: seq<Byte>, pd: nat, z: seq<Byte>, base: nat, lo: nat, hi: nat, bUpdate: bool)
    requires base <= lo && hi <= base + |z|
  {
    forall o :: lo <= o < hi && !Pending(o, pd) && (bUpdate || !InPageCount(o)) ==> At(now, o, z[o - base])
  }

  /** One turn of the loop of lines 292-317. */
  method CopyChunk(dest: Dest, z: seq<Byte>, base: nat, iOff: nat, nCopy: nat, bUpdate: bool, nSrcPage: nat)
    returns (rc: Rc)
    requires PageSize(dest.pageSize) && base <= iOff && iOff + nCopy <= base + |z|
    requires nCopy >= 512 && iOff % dest.pageSize + nCopy <= dest.pageSize
    modifies dest`calls, dest`data
    ensures dest.Called(old(dest.calls), rc)
    ensures Untouched(old(dest.data), dest.data, iOff, iOff + nCopy)
    ensures rc == OK ==> Copied(dest.data, dest.pageSize, z, base, iOff, iOff + nCopy, bUpdate)
  {
    var iDest := iOff / dest.pageSize + 1;
    forall o | iOff <= o < iOff + nCopy
      ensures Pending(o, dest.pageSize) <==> iDest == PendingPage(dest.pageSize)
    {
      PendingChunk(iOff, nCopy, dest.pageSize, o);
    }
    if iDest == PendingPage(dest.pageSize) { return OK; }
    Division(iOff, dest.pageSize);
    Distribute(iDest, 1, dest.pageSize);
    rc := dest.GetForWriting(iDest);
    if rc == OK {
      dest.data := WithChunk(dest.data, z[iOff - base..iOff - base + nCopy], iOff, iOff == 0 && !bUpdate, nSrcPage);
    }
  }

  /** Lines 310-314 */
  function WithChunk(d: seq<Byte>, chunk: seq<Byte>, iOff: nat, count: bool, nSrcPage: nat): (r: seq<Byte>)
    requires iOff + |chunk| <= |d| && (count ==> iOff == 0 && 32 <= |chunk|)
    ensures |r| == |d|
    ensures forall o :: 0 <= o < |d| && !(count && InPageCount(o)) ==>
      r[o] == if iOff <= o < iOff + |chunk| then chunk[o - iOff] else d[o]
  {
    var copied := Splice(d, iOff, chunk);
    if count then Splice(copied, 28, Put4byte(nSrcPage)) else copied
  }

  function Put4byte(v: nat): (b: seq<Byte>)
    ensures |b| == 4
  {
    [(v / 0x100_0000 % 256) as Byte, (v / 0x1_0000 % 256) as Byte, (v / 0x100 % 256) as Byte, (v % 256) as Byte]
  }

  /** The loop of lines 292-317 for source pages that span several destination pages. */
  method CopyChunks(dest: Dest, nSrcPgsz: nat, z: seq<Byte>, lo: nat, bUpdate: bool, nSrcPage: nat, ghost iSrcPg: nat)
    returns (rc: Rc)
    requires PageSize(nSrcPgsz) && PageSize(dest.pageSize) && dest.pageSize < nSrcPgsz == |z|
    requires iSrcPg > 0 && lo == (iSrcPg - 1) * nSrcPgsz
    modifies dest`calls, dest`data
    ensures dest.Called(old(dest.calls), rc)
    ensures Untouched(old(dest.data), dest.data, lo, lo + nSrcPgsz)
    ensures rc == OK ==> Copied(dest.data, dest.pageSize, z, lo, lo, lo + nSrcPgsz, bUpdate)
  {
    var nDestPgsz, iEnd := dest.pageSize, lo + nSrcPgsz;
    ghost var k, kEnd := Chunks(nDestPgsz, nSrcPgsz, iSrcPg);
    var iOff := lo;
    rc := OK;
    while rc == OK && iOff < iEnd
      invariant dest.Called(old(dest.calls), rc)
      invariant lo <= iOff == k * nDestPgsz <= iEnd && iEnd == kEnd * nDestPgsz
      invariant Untouched(old(dest.data), dest.data, lo, iEnd)
      invariant rc == OK ==> Copied(dest.data, nDestPgsz, z, lo, lo, iOff, bUpdate)
      decreases iEnd - iOff
    {
      NextMultiple(k, kEnd, nDestPgsz);
      rc := CopyChunk(dest, z, lo, iOff, nDestPgsz, bUpdate, nSrcPage);
      iOff, k := iOff + nDestPgsz, k + 1;
    }
  }

  lemma Chunks(small: nat, large: nat, iPage: nat) returns (k: nat, kEnd: nat)
    requires PageSize(small) && PageSize(large) && small <= large && iPage > 0
    ensures (iPage - 1) * large == k * small && (iPage - 1) * large + large == kEnd * small
  {
    var r := Ratio(small, large);
    Associate(iPage - 1, r, small);
    Associate(iPage, r, small);
    Distribute(iPage, 1, large);
    k, kEnd := (iPage - 1) * r, iPage * r;
  }

  /** backupOnePage. A failure leaves the page half copied and everything else alone. */
  method BackupOnePage(dest: Dest, nSrcPgsz: nat, iSrcPg: nat, z: seq<Byte>, bUpdate: bool, nSrcPage: nat)
    returns (rc: Rc)
    requires PageSize(nSrcPgsz) && PageSize(dest.pageSize) && |z| == nSrcPgsz
    requires iSrcPg > 0 && iSrcPg != PendingPage(nSrcPgsz)
    modifies dest`calls, dest`data
    ensures if dest.isMemdb && nSrcPgsz != dest.pageSize then rc == READONLY && dest.calls == old(dest.calls)
      else dest.Called(old(dest.calls), rc)
    ensures Untouched(old(dest.data), dest.data, (iSrcPg - 1) * nSrcPgsz, iSrcPg * nSrcPgsz)
    ensures iSrcPg * nSrcPgsz == (iSrcPg - 1) * nSrcPgsz + nSrcPgsz
    ensures rc == OK ==>
      Copied(dest.data, dest.pageSize, z, (iSrcPg - 1) * nSrcPgsz, (iSrcPg - 1) * nSrcPgsz, iSrcPg * nSrcPgsz, bUpdate)
  {
    Distribute(iSrcPg, 1, nSrcPgsz);
    var lo := (iSrcPg - 1) * nSrcPgsz;
    if nSrcPgsz != dest.pageSize && dest.isMemdb {
      rc := READONLY;
    } else if nSrcPgsz <= dest.pageSize {
      Aligned(nSrcPgsz, dest.pageSize, iSrcPg - 1);
      rc := CopyChunk(dest, z, lo, lo, nSrcPgsz, bUpdate, nSrcPage);
    } else {
      rc := CopyChunks(dest, nSrcPgsz, z, lo, bUpdate, nSrcPage, iSrcPg);
    }
  }
}
