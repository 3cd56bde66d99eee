/** What the sampler of analyze.c promises about the rows it does not keep: no periodic row is lost,
    and a group of equal prefixes that no sample stands for is no larger than those that the
    non-periodic samples were kept for. */
module Stat4Cover {
  import opened Stat4Groups
  import opened Stat4Samples
  import opened Stat4Steps

  /** The sample stands for the group of row x and column j. */
  ghost predicate Stands(sc: Scan, s: Sample, j: nat, x: nat)
    requires |s.anLt| > 0
  {
    SameGroup(sc, j, x, Row(s)) && (s.isPSample || s.iCol <= j)
  }

  /** The sample was kept for a group that ranks at least as high as one of n rows in column j:
      larger, or as large and in no later column. */
  ghost predicate AtLeast(s: Sample, n: nat, j: nat)
    requires s.iCol < |s.anEq|
  {
    n < s.anEq[s.iCol] || (n == s.anEq[s.iCol] && s.iCol <= j)
  }

  ghost predicate Outranked(nCol: nat, a: seq<Sample>, n: nat, j: nat)
    requires AllShaped(nCol, a)
  {
    forall k :: 0 <= k < |a| && !a[k].isPSample ==> AtLeast(a[k], n, j)
  }

  ghost predicate StoodFor(sc: Scan, a: seq<Sample>, j: nat, x: nat)
    requires AllShaped(sc.nCol, a)
  {
    exists k :: 0 <= k < |a| && Stands(sc, a[k], j, x)
  }

  /** The group of row x and column j is stood for, or the array is full of others that rank at
      least as high. */
  ghost predicate Covered(sc: Scan, a: seq<Sample>, mx: nat, j: nat, x: nat)
    requires AllShaped(sc.nCol, a) && x < |sc.ch|
  {
    StoodFor(sc, a, j, x) || (|a| == mx && Outranked(sc.nCol, a, Size(sc.ch, j, x), j))
  }

  /** Every group that cannot grow any more is covered, and so is that of the last row in each
      column above i. */
  ghost predicate AllCovered(sc: Scan, a: seq<Sample>, mx: nat, i: int)
    requires AllShaped(sc.nCol, a)
  {
    forall j, x :: 0 <= j < sc.nCol - 1 && 0 <= x < |sc.ch| && (i < j || !Open(sc.ch, j, x)) ==>
      Covered(sc, a, mx, j, x)
  }

  ghost predicate HasPeriodic(nCol: nat, a: seq<Sample>, x: nat)
    requires AllShaped(nCol, a)
  {
    exists k :: 0 <= k < |a| && a[k].isPSample && Row(a[k]) == x
  }

  /** Every nPSample-th of the first n rows is sampled. */
  ghost predicate AllPeriods(nCol: nat, a: seq<Sample>, nPSample: nat, n: nat)
    requires AllShaped(nCol, a) && nPSample > 0
  {
    forall x :: 0 <= x < n && (x + 1) % nPSample == 0 ==> HasPeriodic(nCol, a, x)
  }

  /** No preference, so no higher rank. */
  lemma AtLeastMoves(s: Sample, t: Sample, n: nat, j: nat)
    requires |s.anEq| == |t.anEq| && s.iCol < |s.anEq| && t.iCol < |t.anEq|
    requires !Better(s, t) && AtLeast(s, n, j)
    ensures AtLeast(t, n, j)
  {
  }

  lemma SameSize(sc: Scan, j: nat, x: nat, y: nat)
    requires SameGroup(sc, j, x, y)
    ensures Size(sc.ch, j, x) == Size(sc.ch, j, y) && (Open(sc.ch, j, x) <==> Open(sc.ch, j, y))
  {
    if y <= x {
      SizeShared(sc.ch, j, x, y);
      OpenInGroup(sc.ch, j, x, y);
    } else {
      SizeShared(sc.ch, j, y, x);
      OpenInGroup(sc.ch, j, y, x);
    }
  }

  lemma OpenInGroup(ch: seq<nat>, j: nat, x: nat, y: nat)
    requires y <= x < |ch| && Start(ch, j, x) == Start(ch, j, y)
    ensures Open(ch, j, x) <==> Open(ch, j, y)
  {
    if Open(ch, j, x) {
      StartShared(ch, j, |ch| - 1, x);
    }
  }

  lemma BothOpen(sc: Scan, j: nat, x: nat, y: nat)
    requires x < |sc.ch| && y < |sc.ch| && Open(sc.ch, j, x) && Open(sc.ch, j, y)
    ensures SameGroup(sc, j, x, y) && Size(sc.ch, j, x) == Size(sc.ch, j, y)
  {
    StartShared(sc.ch, j, |sc.ch| - 1, x);
    StartShared(sc.ch, j, |sc.ch| - 1, y);
    SameSize(sc, j, x, y);
  }

  /** A sample ranks at least as high as any group that it stands for. */
  lemma StandsAtLeast(sc: Scan, s: Sample, j: nat, x: nat)
    requires Good(sc, s) && !s.isPSample && j < sc.nCol && Stands(sc, s, j, x)
    ensures AtLeast(s, Size(sc.ch, j, x), j)
  {
    SameSize(sc, j, x, Row(s));
    SizeCoarser(sc.ch, s.iCol, j, Row(s));
    assert EqOk(sc, s, s.iCol);
  }

  /** Line 650: nothing is inserted for a group that ranks below all samples. */
  lemma SkipCovers(sc: Scan, a: seq<Sample>, mx: nat, nPSample: nat, i: nat, new': Sample, iMin: int)
    requires Samples(sc, a, nPSample, i) && AllCovered(sc, a, mx, i) && Candidate(sc, new', i) && |a| == mx
    requires IsWorst(sc.nCol, a, iMin) && !Better(new', a[iMin])
    ensures AllCovered(sc, a, mx, i - 1)
  {
    var n := new'.anEq[i];
    forall k | 0 <= k < |a| && !a[k].isPSample ensures AtLeast(a[k], n, i) {
      AtLeastMoves(new', a[iMin], n, i);
      AtLeastMoves(a[iMin], a[k], n, i);
    }
    forall x | 0 <= x < |sc.ch| ensures Covered(sc, a, mx, i, x) {
      if Open(sc.ch, i, x) {
        BothOpen(sc, i, x, Row(new'));
      }
    }
  }

  /** A sample in the current group of column i is enough. */
  lemma StandCovers(sc: Scan, a: seq<Sample>, mx: nat, i: nat, p: nat)
    requires AllDescribe(sc, a) && AllCovered(sc, a, mx, i) && p < |a| && i < sc.nCol - 1
    requires Open(sc.ch, i, Row(a[p])) && (a[p].isPSample || a[p].iCol <= i)
    ensures AllCovered(sc, a, mx, i - 1)
  {
    forall x | 0 <= x < |sc.ch| ensures Covered(sc, a, mx, i, x) {
      if Open(sc.ch, i, x) {
        BothOpen(sc, i, x, Row(a[p]));
        assert Stands(sc, a[p], i, x);
      }
    }
  }

  lemma UpgradeCoversOne(sc: Scan, a: seq<Sample>, mx: nat, u: nat, t: Sample, j: nat, x: nat)
    requires AllShaped(sc.nCol, a) && x < |sc.ch| && Covered(sc, a, mx, j, x) && u < |a| && Shaped(sc.nCol, t)
    requires !a[u].isPSample && !t.isPSample && Row(t) == Row(a[u]) && t.iCol < a[u].iCol
    requires a[u].anEq[a[u].iCol] <= t.anEq[t.iCol]
    ensures AllShaped(sc.nCol, a[u := t]) && Covered(sc, a[u := t], mx, j, x)
  {
    var b := a[u := t];
    if StoodFor(sc, a, j, x) {
      var k :| 0 <= k < |a| && Stands(sc, a[k], j, x);
      assert Stands(sc, b[k], j, x);
    } else {
      var n := Size(sc.ch, j, x);
      forall k | 0 <= k < |b| && !b[k].isPSample ensures AtLeast(b[k], n, j) {
        assert AtLeast(a[k], n, j);
      }
    }
  }

  /** A sample that takes over a coarser group stands for all that it stood for, and ranks higher. */
  lemma UpgradeCovers(sc: Scan, a: seq<Sample>, mx: nat, nPSample: nat, i: nat, new': Sample, u: nat)
    requires Samples(sc, a, nPSample, i) && AllCovered(sc, a, mx, i) && Candidate(sc, new', i) && u < |a|
    requires !a[u].isPSample && i < a[u].iCol && Open(sc.ch, i, Row(a[u]))
    ensures AllShaped(sc.nCol, a[u := Upgraded(a[u], i, new'.anEq[i])])
    ensures AllCovered(sc, a[u := Upgraded(a[u], i, new'.anEq[i])], mx, i - 1)
  {
    var s, t := a[u], Upgraded(a[u], i, new'.anEq[i]);
    var b := a[u := t];
    BothOpen(sc, i, Row(s), Row(new'));
    SizeCoarser(sc.ch, i, s.iCol, Row(s));
    assert EqOk(sc, s, s.iCol);
    assert Row(t) == Row(s);
    forall j, x | 0 <= j < sc.nCol - 1 && 0 <= x < |sc.ch| && (i < j || !Open(sc.ch, j, x))
      ensures Covered(sc, b, mx, j, x)
    {
      UpgradeCoversOne(sc, a, mx, u, t, j, x);
    }
    assert AllCovered(sc, b, mx, i);
    assert AllDescribe(sc, b);
    StandCovers(sc, b, mx, i, u);
  }

  /** A new sample in a free place takes nothing away. */
  lemma AddCovers(sc: Scan, a: seq<Sample>, mx: nat, i: int, z: Sample)
    requires AllShaped(sc.nCol, a) && Shaped(sc.nCol, z) && |a| < mx && AllCovered(sc, a, mx, i)
    ensures AllShaped(sc.nCol, a + [z]) && AllCovered(sc, a + [z], mx, i)
  {
    var b := a + [z];
    forall j, x | 0 <= j < sc.nCol - 1 && 0 <= x < |sc.ch| && (i < j || !Open(sc.ch, j, x))
      ensures Covered(sc, b, mx, j, x)
    {
      assert Covered(sc, a, mx, j, x);
      var k :| 0 <= k < |a| && Stands(sc, a[k], j, x);
      assert Stands(sc, b[k], j, x);
    }
  }

  /** What the worst sample stood for is outranked when a preferred one takes its place. */
  lemma ReplaceCovers(sc: Scan, a: seq<Sample>, mx: nat, nPSample: nat, i: int, m: nat, z: Sample)
    requires Samples(sc, a, nPSample, i) && |a| == mx && AllCovered(sc, a, mx, i)
    requires IsWorst(sc.nCol, a, m) && Shaped(sc.nCol, z) && (z.isPSample || !Better(a[m], z))
    ensures AllShaped(sc.nCol, Without(a, m) + [z]) && AllCovered(sc, Without(a, m) + [z], mx, i)
  {
    var b := Without(a, m) + [z];
    forall j, x | 0 <= j < sc.nCol - 1 && 0 <= x < |sc.ch| && (i < j || !Open(sc.ch, j, x))
      ensures Covered(sc, b, mx, j, x)
    {
      ReplaceCoversOne(sc, a, mx, nPSample, i, m, z, j, x);
    }
  }

  lemma ReplaceCoversOne(sc: Scan, a: seq<Sample>, mx: nat, nPSample: nat, i: int, m: nat, z: Sample, j: nat, x: nat)
    requires Samples(sc, a, nPSample, i) && |a| == mx && j < sc.nCol - 1 && x < |sc.ch| && Covered(sc, a, mx, j, x)
    requires IsWorst(sc.nCol, a, m) && Shaped(sc.nCol, z) && (z.isPSample || !Better(a[m], z))
    ensures AllShaped(sc.nCol, Without(a, m) + [z]) && Covered(sc, Without(a, m) + [z], mx, j, x)
  {
    var b := Without(a, m) + [z];
    if k :| 0 <= k < |a| && k != m && Stands(sc, a[k], j, x) {
      assert Stands(sc, b[if k < m then k else k - 1], j, x);
    } else {
      if StoodFor(sc, a, j, x) {
        StandsAtLeast(sc, a[m], j, x);
      }
      ReplaceOutranks(sc.nCol, a, m, z, Size(sc.ch, j, x), j);
    }
  }

  lemma ReplaceOutranks(nCol: nat, a: seq<Sample>, m: nat, z: Sample, n: nat, j: nat)
    requires AllShaped(nCol, a) && IsWorst(nCol, a, m) && Shaped(nCol, z) && (z.isPSample || !Better(a[m], z))
    requires AtLeast(a[m], n, j)
    ensures AllShaped(nCol, Without(a, m) + [z]) && Outranked(nCol, Without(a, m) + [z], n, j)
  {
    var b := Without(a, m) + [z];
    forall k | 0 <= k < |b| && !b[k].isPSample ensures AtLeast(b[k], n, j) {
      if k + 1 < |b| {
        assert b[k] == a[if k < m then k else k + 1];
      }
      AtLeastMoves(a[m], b[k], n, j);
    }
  }

  /** The next row closes groups; it changes nothing about the closed ones. */
  lemma FillCovers(sc: Scan, mid: seq<Sample>, a: seq<Sample>, mx: nat, nPSample: nat, cur: Sample, c: nat, id: Rowid)
    requires Samples(sc, mid, nPSample, c - 1) && AllCovered(sc, mid, mx, c - 1) && CurrentOk(sc, cur)
    requires c < sc.nCol && AreFilled(mid, a, cur, c)
    ensures AllShaped(sc.nCol, a) && AllCovered(Push(sc, c, id), a, mx, sc.nCol - 2)
  {
    var sc' := Push(sc, c, id);
    forall j, x | 0 <= j < sc.nCol - 1 && 0 <= x < |sc'.ch| && !Open(sc'.ch, j, x) ensures Covered(sc', a, mx, j, x) {
      assert Open(sc'.ch, j, |sc.ch|);
      OpenExtend(sc.ch, c, j, x);
      SizeExtend(sc.ch, c, j, x);
      StartExtend(sc.ch, c, j, x);
      FillCoversOne(sc, mid, a, mx, nPSample, cur, c, j, x);
      if StoodFor(sc, a, j, x) {
        var k :| 0 <= k < |a| && Stands(sc, a[k], j, x);
        StartExtend(sc.ch, c, j, Row(a[k]));
        assert Stands(sc', a[k], j, x);
      }
    }
  }

  /** Filling in counts changes no rank. */
  lemma FillCoversOne(sc: Scan, mid: seq<Sample>, a: seq<Sample>, mx: nat, nPSample: nat, cur: Sample, c: nat,
                      j: nat, x: nat)
    requires Samples(sc, mid, nPSample, c - 1) && CurrentOk(sc, cur) && AreFilled(mid, a, cur, c)
    requires j < sc.nCol - 1 && x < |sc.ch| && Covered(sc, mid, mx, j, x)
    ensures AllShaped(sc.nCol, a) && Covered(sc, a, mx, j, x)
  {
    assert AllShaped(sc.nCol, a);
    if StoodFor(sc, mid, j, x) {
      var k :| 0 <= k < |mid| && Stands(sc, mid[k], j, x);
      assert Stands(sc, a[k], j, x);
    } else {
      forall k | 0 <= k < |a| && !a[k].isPSample ensures AtLeast(a[k], Size(sc.ch, j, x), j) {
        assert AtLeast(mid[k], Size(sc.ch, j, x), j);
      }
    }
  }

  /* ---------- Periodic rows ---------- */

  /** Every periodic sample of a is in b. */
  ghost predicate KeepsPeriodic(a: seq<Sample>, b: seq<Sample>) {
    forall k :: 0 <= k < |a| && a[k].isPSample ==>
      exists l :: 0 <= l < |b| && b[l].isPSample && b[l].anLt == a[k].anLt
  }

  lemma PeriodsStay(nCol: nat, a: seq<Sample>, b: seq<Sample>, nPSample: nat, n: nat)
    requires AllShaped(nCol, a) && AllShaped(nCol, b) && nPSample > 0
    requires AllPeriods(nCol, a, nPSample, n) && KeepsPeriodic(a, b)
    ensures AllPeriods(nCol, b, nPSample, n)
  {
    forall x | 0 <= x < n && (x + 1) % nPSample == 0 ensures HasPeriodic(nCol, b, x) {
      assert HasPeriodic(nCol, a, x);
      var k :| 0 <= k < |a| && a[k].isPSample && Row(a[k]) == x;
      var l :| 0 <= l < |b| && b[l].isPSample && b[l].anLt == a[k].anLt;
      assert Row(b[l]) == x;
    }
  }

  lemma FillKeepsPeriodic(mid: seq<Sample>, a: seq<Sample>, cur: Sample, c: nat)
    requires AreFilled(mid, a, cur, c)
    ensures KeepsPeriodic(mid, a)
  {
    forall k | 0 <= k < |mid| && mid[k].isPSample
      ensures exists l :: 0 <= l < |a| && a[l].isPSample && a[l].anLt == mid[k].anLt
    {
      assert a[k].isPSample && a[k].anLt == mid[k].anLt;
    }
  }

  lemma ReplaceKeepsPeriodic(a: seq<Sample>, m: nat, z: Sample)
    requires m < |a| && !a[m].isPSample
    ensures KeepsPeriodic(a, Without(a, m) + [z])
  {
    var b := Without(a, m) + [z];
    forall k | 0 <= k < |a| && a[k].isPSample
      ensures exists l :: 0 <= l < |b| && b[l].isPSample && b[l].anLt == a[k].anLt
    {
      assert b[if k < m then k else k - 1] == a[k];
    }
  }

  lemma AddKeepsPeriodic(a: seq<Sample>, z: Sample)
    ensures KeepsPeriodic(a, a + [z])
  {
    var b := a + [z];
    forall k | 0 <= k < |a| && a[k].isPSample
      ensures exists l :: 0 <= l < |b| && b[l].isPSample && b[l].anLt == a[k].anLt
    {
      assert b[k] == a[k];
    }
  }

  lemma UpgradeKeepsPeriodic(a: seq<Sample>, u: nat, t: Sample)
    requires u < |a| && !a[u].isPSample
    ensures KeepsPeriodic(a, a[u := t])
  {
    var b := a[u := t];
    forall k | 0 <= k < |a| && a[k].isPSample
      ensures exists l :: 0 <= l < |b| && b[l].isPSample && b[l].anLt == a[k].anLt
    {
      assert b[k] == a[k];
    }
  }

  /* ---------- Both, branch by branch ---------- */

  /** Line 570: a periodic sample already stands for the prefix. */
  lemma PeriodicCovers(sc: Scan, a: seq<Sample>, mx: nat, nPSample: nat, i: nat, p: nat)
    requires Samples(sc, a, nPSample, i) && AllCovered(sc, a, mx, i) && p < |a| && i < sc.nCol - 1
    requires a[p].isPSample && a[p].anEq[i] == 0
    ensures AllCovered(sc, a, mx, i - 1)
  {
    assert EqOk(sc, a[p], i);
    StandCovers(sc, a, mx, i, p);
  }

  /** Lines 578-582 */
  lemma UpgradeKept(sc: Scan, a: seq<Sample>, mx: nat, nPSample: nat, i: nat, new': Sample, u: nat, n: nat)
    requires Between(sc, a, nPSample, i) && AllCovered(sc, a, mx, i) && AllPeriods(sc.nCol, a, nPSample, n)
    requires Candidate(sc, new', i) && u < |a| && a[u].anEq[i] == 0
    requires forall k :: 0 <= k < |a| && a[k].anEq[i] == 0 ==> !a[k].isPSample && !Better(a[k], a[u])
    ensures var b := a[u := Upgraded(a[u], i, new'.anEq[i])];
      AllShaped(sc.nCol, b) && AllCovered(sc, b, mx, i - 1) && AllPeriods(sc.nCol, b, nPSample, n)
  {
    var t := Upgraded(a[u], i, new'.anEq[i]);
    UpgradeSamples(sc, a, nPSample, i, new', u);
    UpgradeCovers(sc, a, mx, nPSample, i, new', u);
    UpgradeKeepsPeriodic(a, u, t);
    PeriodsStay(sc.nCol, a, a[u := t], nPSample, n);
  }

  /** The array once z has been put at its end, in place of sample m if it was full. */
  function Placed(a: seq<Sample>, mx: nat, m: int, z: Sample): seq<Sample> {
    if |a| < mx || !(0 <= m < |a|) then a + [z] else Without(a, m) + [z]
  }

  /* ---------- What sampleInsert does, step by step ---------- */

  /** Sample u, most preferred of those that await column c, none of which is periodic, takes it over. */
  ghost predicate TakesOver(nCol: nat, was: seq<Sample>, c: nat, count: nat, now: seq<Sample>, u: nat)
    requires AllShaped(nCol, was) && c < nCol
  {
    && u < |was| && was[u].anEq[c] == 0 && now == was[u := Upgraded(was[u], c, count)]
    && forall k :: 0 <= k < |was| && was[k].anEq[c] == 0 ==> !was[k].isPSample && !Better(was[k], was[u])
  }

  /** What becomes of the array when a candidate is inserted: nothing if a periodic sample awaits its
      column; else a most preferred sample that does takes it over; else the candidate goes to the end,
      in place of the worst sample if the array is full. */
  ghost predicate Inserted(nCol: nat, mx: nat, was: seq<Sample>, iMin: int, z: Sample, now: seq<Sample>)
    requires AllShaped(nCol, was) && Shaped(nCol, z)
  {
    var c := z.iCol;
    if exists k :: 0 <= k < |was| && was[k].isPSample && was[k].anEq[c] == 0 then now == was
    else if exists k :: 0 <= k < |was| && was[k].anEq[c] == 0 then
      exists u: nat :: TakesOver(nCol, was, c, z.anEq[c], now, u)
    else now == Placed(was, mx, iMin, Zeroed(z, c))
  }

  lemma PlacedCovers(sc: Scan, a: seq<Sample>, mx: nat, nPSample: nat, i: int, m: int, z: Sample, n: nat)
    requires Samples(sc, a, nPSample, i) && AllCovered(sc, a, mx, i) && AllPeriods(sc.nCol, a, nPSample, n)
    requires |a| <= mx && Shaped(sc.nCol, z)
    requires |a| == mx ==> IsWorst(sc.nCol, a, m) && (z.isPSample || !Better(a[m], z))
    ensures var b := Placed(a, mx, m, z);
      AllShaped(sc.nCol, b) && AllCovered(sc, b, mx, i) && AllPeriods(sc.nCol, b, nPSample, n)
  {
    if |a| < mx {
      AddCovers(sc, a, mx, i, z);
      AddKeepsPeriodic(a, z);
    } else {
      ReplaceCovers(sc, a, mx, nPSample, i, m, z);
      ReplaceKeepsPeriodic(a, m, z);
    }
    PeriodsStay(sc.nCol, a, Placed(a, mx, m, z), nPSample, n);
  }

  /** Lines 606-616, for a candidate of column i. */
  lemma AppendKept(sc: Scan, a: seq<Sample>, mx: nat, nPSample: nat, i: nat, new': Sample, m: int, n: nat)
    requires Samples(sc, a, nPSample, i) && AllCovered(sc, a, mx, i) && AllPeriods(sc.nCol, a, nPSample, n)
    requires Candidate(sc, new', i) && |a| <= mx
    requires |a| == mx ==> IsWorst(sc.nCol, a, m) && Better(new', a[m])
    ensures var b := Placed(a, mx, m, Zeroed(new', i));
      AllShaped(sc.nCol, b) && AllCovered(sc, b, mx, i - 1) && AllPeriods(sc.nCol, b, nPSample, n)
  {
    var z := Zeroed(new', i);
    ZeroedIsGood(sc, new', i);
    if |a| == mx {
      BetterWeak(new', a[m], new');
      ZeroedRank(new', i, a[m]);
    }
    PlacedCovers(sc, a, mx, nPSample, i, m, z, n);
    var b := Placed(a, mx, m, z);
    assert b[|b| - 1] == z;
    PlacedDescribed(sc, a, mx, nPSample, i, m, z);
    StandCovers(sc, b, mx, i, |b| - 1);
  }

  lemma PlacedDescribed(sc: Scan, a: seq<Sample>, mx: nat, nPSample: nat, i: int, m: int, z: Sample)
    requires Samples(sc, a, nPSample, i) && Describes(sc, z)
    ensures AllDescribe(sc, Placed(a, mx, m, z))
  {
  }

  lemma ZeroedRank(new': Sample, i: nat, s: Sample)
    requires i == new'.iCol < |new'.anEq| == |s.anEq| && s.iCol < |s.anEq|
    ensures Better(s, Zeroed(new', i)) == Better(s, new')
  {
    var z := Zeroed(new', i);
    assert z.anEq[i] == new'.anEq[i];
    if s.iCol == i {
      BetterPostDependsOn(s, new', s, z, i + 1);
    }
  }

  /** Lines 606-616, for the periodic sample of the newest row. */
  lemma PeriodicKept(sc: Scan, a: seq<Sample>, mx: nat, nPSample: nat, new': Sample, m: int)
    requires Samples(sc, a, nPSample, sc.nCol - 2) && AllCovered(sc, a, mx, sc.nCol - 2)
    requires Describes(sc, new') && new'.isPSample && AllPeriods(sc.nCol, a, nPSample, Row(new')) && |a| <= mx
    requires |a| == mx ==> IsWorst(sc.nCol, a, m)
    ensures var b := Placed(a, mx, m, Zeroed(new', sc.nCol - 1));
      && AllShaped(sc.nCol, b) && AllCovered(sc, b, mx, sc.nCol - 2)
      && AllPeriods(sc.nCol, b, nPSample, Row(new') + 1)
  {
    var z := Zeroed(new', sc.nCol - 1);
    assert z.isPSample && z.anLt == new'.anLt;
    PlacedCovers(sc, a, mx, nPSample, sc.nCol - 2, m, z, Row(new'));
    var b := Placed(a, mx, m, z);
    assert b[|b| - 1] == z;
    assert HasPeriodic(sc.nCol, b, Row(new'));
  }

  /** Lines 586-616 keep the invariant of the loop over columns, for a candidate whose prefix nobody
      shares. */
  lemma PlacedKeeps(sc: Scan, a: seq<Sample>, mx: nat, nPSample: nat, i: nat, new': Sample, m: int)
    requires Samples(sc, a, nPSample, i) && Candidate(sc, new', i) && forall k :: 0 <= k < |a| ==> a[k].anEq[i] != 0
    ensures Between(sc, Placed(a, mx, m, Zeroed(new', i)), nPSample, i - 1)
  {
    if mx <= |a| && 0 <= m < |a| {
      RemoveKeeps(sc, a, nPSample, i, m);
      AppendKeeps(sc, Without(a, m), nPSample, i, new');
    } else {
      AppendKeeps(sc, a, nPSample, i, new');
    }
  }

  lemma AllBefore(sc: Scan, a: seq<Sample>, nPSample: nat, i: nat, new': Sample)
    requires Samples(sc, a, nPSample, i) && Candidate(sc, new', i) && forall k :: 0 <= k < |a| ==> a[k].anEq[i] != 0
    ensures forall k :: 0 <= k < |a| ==> Row(a[k]) < Row(new')
  {
    AppendKeeps(sc, a, nPSample, i, new');
  }

  /** All that they keep. */
  lemma CandidatePlaced(sc: Scan, a: seq<Sample>, mx: nat, nPSample: nat, i: nat, new': Sample, m: int, n: nat)
    requires Samples(sc, a, nPSample, i) && AllCovered(sc, a, mx, i) && AllPeriods(sc.nCol, a, nPSample, n)
    requires Candidate(sc, new', i) && |a| <= mx && forall k :: 0 <= k < |a| ==> a[k].anEq[i] != 0
    requires |a| == mx ==> IsWorst(sc.nCol, a, m) && Better(new', a[m])
    ensures var b := Placed(a, mx, m, Zeroed(new', i));
      && Between(sc, b, nPSample, i - 1) && AllCovered(sc, b, mx, i - 1) && AllPeriods(sc.nCol, b, nPSample, n)
    ensures forall k :: 0 <= k < |a| ==> Row(a[k]) < Row(new')
  {
    AppendKept(sc, a, mx, nPSample, i, new', m, n);
    PlacedKeeps(sc, a, mx, nPSample, i, new', m);
    AllBefore(sc, a, nPSample, i, new');
  }

  /** And for the periodic sample of the newest row. */
  lemma PeriodicPlaced(sc: Scan, a: seq<Sample>, mx: nat, nPSample: nat, new': Sample, m: int)
    requires Samples(sc, a, nPSample, sc.nCol - 2) && AllCovered(sc, a, mx, sc.nCol - 2)
    requires Describes(sc, new') && new'.isPSample && Row(new') == |sc.ch| - 1 && new'.anEq[sc.nCol - 1] == 1
    requires (Row(new') + 1) % nPSample == 0 && forall k :: 0 <= k < |a| ==> Row(a[k]) < Row(new')
    requires AllPeriods(sc.nCol, a, nPSample, Row(new')) && |a| <= mx && (|a| == mx ==> IsWorst(sc.nCol, a, m))
    ensures var b := Placed(a, mx, m, Zeroed(new', sc.nCol - 1));
      && Samples(sc, b, nPSample, sc.nCol - 2) && AllCovered(sc, b, mx, sc.nCol - 2)
      && AllPeriods(sc.nCol, b, nPSample, Row(new') + 1)
  {
    PeriodicKept(sc, a, mx, nPSample, new', m);
    if |a| < mx {
      PeriodicAppend(sc, a, nPSample, new');
    } else {
      RemoveKeeps(sc, a, nPSample, sc.nCol - 2, m);
      PeriodicAppend(sc, Without(a, m), nPSample, new');
    }
  }

  /** After the last row every group has been offered. */
  lemma FinalCovers(sc: Scan, mid: seq<Sample>, a: seq<Sample>, mx: nat, nPSample: nat, cur: Sample)
    requires Samples(sc, mid, nPSample, -1) && AllCovered(sc, mid, mx, -1) && CurrentOk(sc, cur)
    requires AreFilled(mid, a, cur, 0)
    ensures AllShaped(sc.nCol, a) && AllCovered(sc, a, mx, -1)
  {
    assert AllShaped(sc.nCol, a);
    forall j, x | 0 <= j < sc.nCol - 1 && 0 <= x < |sc.ch| ensures Covered(sc, a, mx, j, x) {
      FillCoversOne(sc, mid, a, mx, nPSample, cur, 0, j, x);
    }
  }
}
