/** What one step of an online backup (backup.c) does to the destination, said of values: the source
    bytes that have arrived, whatever the calls of the pagers come to. */
module BackupSync {
  import opened Arithmetic
  import opened BackupPages
  import opened BackupFinish

  /** The source bytes of [lo, hi) are in the destination, but for the two pending pages and the
      page count of the header. */
  ghost predicate SyncedIn(src: seq<Byte>, ps: nat, dst: seq<Byte>, pd: nat, lo: nat, hi: nat) {
    forall o :: 0 <= o < |src| && lo <= o < hi && !Pending(o, ps) && !Pending(o, pd) && !InPageCount(o) ==>
      At(dst, o, src[o])
  }

  /** All source pages below iNext are. */
  ghost predicate InSync(src: seq<Byte>, ps: nat, dst: seq<Byte>, pd: nat, iNext: nat) {
    iNext > 0 && SyncedIn(src, ps, dst, pd, 0, (iNext - 1) * ps)
  }

  /** The source kept its bytes outside [lo, hi). */
  ghost predicate SameBut(was: seq<Byte>, now: seq<Byte>, lo: nat, hi: nat) {
    forall o :: 0 <= o < |now| && !(lo <= o < hi) ==> o < |was| && now[o] == was[o]
  }

  /** The pages from first up to next have been gone through. They have all been copied, unless
      copying the last of them failed with rc. */
  ghost predicate Moved(src: seq<Byte>, ps: nat, dst: seq<Byte>, dst': seq<Byte>, pd: nat,
                        first: nat, next: nat, rc: Rc)
  {
    && 0 < first <= next && (rc != OK ==> first < next)
    && Untouched(dst, dst', (first - 1) * ps, (next - 1) * ps)
    && SyncedIn(src, ps, dst', pd, (first - 1) * ps, ((if rc == OK then next else next - 1) - 1) * ps)
  }

  lemma PageInside(k: nat, n: nat, s: nat)
    requires k <= n
    ensures k * s <= n * s && (k > 0 ==> (k - 1) * s + s == k * s)
  {
    Distribute(n, k, s);
    NotNegative(n - k, s);
    Distribute(k, 1, s);
  }

  /** One page has been copied, or has failed to be. */
  lemma MovedOne(src: seq<Byte>, ps: nat, dst: seq<Byte>, dst': seq<Byte>, pd: nat, i: nat, rc: Rc)
    requires i > 0 && i * ps <= |src| && (i - 1) * ps + ps == i * ps
    requires Untouched(dst, dst', (i - 1) * ps, i * ps)
    requires rc == OK ==> Copied(dst', pd, src[(i - 1) * ps..i * ps], (i - 1) * ps, (i - 1) * ps, i * ps, false)
    ensures Moved(src, ps, dst, dst', pd, i, i + 1, rc)
  {
    var lo, hi := (i - 1) * ps, i * ps;
    forall o | rc == OK && lo <= o < hi && !Pending(o, ps) && !Pending(o, pd) && !InPageCount(o)
      ensures At(dst', o, src[o])
    {
      assert src[lo..hi][o - lo] == src[o];
    }
  }

  /** The pending page needs no copy. */
  lemma MovedPending(src: seq<Byte>, ps: nat, dst: seq<Byte>, pd: nat, i: nat)
    requires PageSize(ps) && i == PendingPage(ps)
    ensures Moved(src, ps, dst, dst, pd, i, i + 1, OK)
  {
    PendingBytes(0, ps);
    Distribute(i, 1, ps);
  }

  lemma MovedOn(src: seq<Byte>, ps: nat, dst: seq<Byte>, mid: seq<Byte>, dst': seq<Byte>, pd: nat,
                first: nat, next: nat, rc: Rc)
    requires Moved(src, ps, dst, mid, pd, first, next, OK) && Moved(src, ps, mid, dst', pd, next, next + 1, rc)
    ensures Moved(src, ps, dst, dst', pd, first, next + 1, rc)
  {
    PageInside(first - 1, next - 1, ps);
    PageInside(next - 1, next, ps);
    JoinSynced(src, ps, mid, dst', pd, (first - 1) * ps, (next - 1) * ps, next * ps, rc == OK);
  }

  lemma JoinSynced(src: seq<Byte>, ps: nat, mid: seq<Byte>, dst: seq<Byte>, pd: nat, a: nat, b: nat, c: nat, all: bool)
    requires a <= b <= c && SyncedIn(src, ps, mid, pd, a, b) && Untouched(mid, dst, b, c)
    requires all ==> SyncedIn(src, ps, dst, pd, b, c)
    ensures SyncedIn(src, ps, dst, pd, a, if all then c else b)
  {
  }

  /** Pages copied in turn extend what is in sync. */
  lemma MovedKeepsSync(src: seq<Byte>, ps: nat, dst: seq<Byte>, dst': seq<Byte>, pd: nat, first: nat, next: nat)
    requires InSync(src, ps, dst, pd, first) && Moved(src, ps, dst, dst', pd, first, next, OK)
    ensures InSync(src, ps, dst', pd, next)
  {
    PageInside(first - 1, next - 1, ps);
    NotNegative(first - 1, ps);
    JoinSynced(src, ps, dst, dst', pd, 0, (first - 1) * ps, (next - 1) * ps, true);
  }

  /** Past the last page everything is in place. */
  lemma AllInSync(src: seq<Byte>, ps: nat, nPage: nat, dst: seq<Byte>, pd: nat, iNext: nat)
    requires InSync(src, ps, dst, pd, iNext) && iNext > nPage && |src| == nPage * ps
    ensures IsCopyButPending(src, ps, dst, pd)
  {
    PageInside(nPage, iNext - 1, ps);
  }

  /** A source page that was copied already has changed and has been copied again. */
  lemma UpdateKeepsSync(src: seq<Byte>, src': seq<Byte>, ps: nat, dst: seq<Byte>, dst': seq<Byte>, pd: nat,
                        limit: nat, lo: nat, hi: nat)
    requires lo <= hi <= |src'| && SyncedIn(src, ps, dst, pd, 0, limit) && SameBut(src, src', lo, hi)
    requires Untouched(dst, dst', lo, hi) && Copied(dst', pd, src'[lo..hi], lo, lo, hi, true)
    ensures SyncedIn(src', ps, dst', pd, 0, limit)
  {
    forall o | 0 <= o < |src'| && o < limit && !Pending(o, ps) && !Pending(o, pd) && !InPageCount(o)
      ensures At(dst', o, src'[o])
    {
      var b := src'[o];
      if lo <= o < hi { assert src'[lo..hi][o - lo] == b; } else { assert o < |src| && b == src[o]; }
    }
  }

  /** A change of a page not copied yet needs no update. */
  lemma AheadKeepsSync(src: seq<Byte>, src': seq<Byte>, ps: nat, dst: seq<Byte>, pd: nat, limit: nat, lo: nat, hi: nat)
    requires limit <= lo && SyncedIn(src, ps, dst, pd, 0, limit) && SameBut(src, src', lo, hi)
    ensures SyncedIn(src', ps, dst, pd, 0, limit)
  {
    forall o | 0 <= o < |src'| && o < limit && !Pending(o, ps) && !Pending(o, pd) && !InPageCount(o)
      ensures At(dst, o, src'[o])
    {
      var b := src'[o];
      assert o < |src| && b == src[o];
    }
  }

  /* ---------- The schema cookie ---------- */

  /** BTREE_SCHEMA_VERSION: zero in a database without a page. */
  function Cookie(d: seq<Byte>): nat {
    if |d| < 44 then 0
    else d[40] as nat * 0x100_0000 + d[41] as nat * 0x1_0000 + d[42] as nat * 0x100 + d[43] as nat
  }

  /** The four bytes of a number, the largest part first. */
  lemma CookieIs(d: seq<Byte>, cookie: nat)
    requires HasCookie(d, cookie)
    ensures Cookie(d) == cookie % 0x1_0000_0000
  {
    assert d[40] == d[40..44][0] && d[41] == d[40..44][1] && d[42] == d[40..44][2] && d[43] == d[40..44][3];
    FourBytes(cookie);
  }

  lemma FourBytes(n: nat)
    ensures n / 0x100_0000 % 256 * 0x100_0000 + n / 0x1_0000 % 256 * 0x1_0000 + n / 0x100 % 256 * 0x100 + n % 256
      == n % 0x1_0000_0000
  {
    var q, a := n / 256, n % 256;
    var r, b := q / 256, q % 256;
    var t, c := r / 256, r % 256;
    var u, d := t / 256, t % 256;
    Digits(n, u, d, c, b, a);
  }

  lemma Digits(n: nat, u: nat, d: nat, c: nat, b: nat, a: nat)
    requires a < 256 && b < 256 && c < 256 && d < 256
    requires n == u * 0x1_0000_0000 + d * 0x100_0000 + c * 0x1_0000 + b * 0x100 + a
    ensures n / 0x100_0000 % 256 == d && n / 0x1_0000 % 256 == c && n / 0x100 % 256 == b && n % 256 == a
    ensures n % 0x1_0000_0000 == d * 0x100_0000 + c * 0x1_0000 + b * 0x100 + a
  {
    QuotRem(u, 0x1_0000_0000, d * 0x100_0000 + c * 0x1_0000 + b * 0x100 + a);
    QuotRem(u * 256 + d, 0x100_0000, c * 0x1_0000 + b * 0x100 + a);
    QuotRem((u * 256 + d) * 256 + c, 0x1_0000, b * 0x100 + a);
    QuotRem(((u * 256 + d) * 256 + c) * 256 + b, 0x100, a);
    QuotRem(u, 256, d);
    QuotRem(u * 256 + d, 256, c);
    QuotRem((u * 256 + d) * 256 + c, 256, b);
  }

  /** The schema version really does change: it goes up by one, on 32 bits. */
  lemma CookieChanges(was: seq<Byte>, now: seq<Byte>)
    requires HasCookie(now, Cookie(was) + 1)
    ensures Cookie(now) == (Cookie(was) + 1) % 0x1_0000_0000 && Cookie(now) != Cookie(was)
  {
    CookieIs(now, Cookie(was) + 1);
  }

  /* ---------- Steps ---------- */

  /** How far a backup has come. */
  datatype Progress = Progress(dst: seq<Byte>, iNext: nat, rc: Rc)

  /** A step over a source of nPage pages that got hold of the databases: it copies pages until
      mid, and ends the backup if none is left. Calls of the pagers can fail with the given codes. */
  ghost predicate Through(src: seq<Byte>, ps: nat, nPage: nat, pd: nat, codes: set<Rc>,
                          s: Progress, mid: Progress, s': Progress)
  {
    && Moved(src, ps, s.dst, mid.dst, pd, s.iNext, mid.iNext, mid.rc)
    && (mid.rc == OK || mid.rc in codes) && (mid.iNext == s.iNext || mid.iNext <= nPage + 1)
    && if mid.rc != OK || mid.iNext <= nPage then s' == mid
      else
        && s'.iNext == mid.iNext
        && (s'.rc in codes || (s'.rc == DONE && (nPage > 0 ==> Ended(src, ps, mid.dst, s'.dst, pd))))
  }
}
