/** What each branch of sampleInsert and samplePushPrevious (analyze.c) keeps. */
module Stat4Steps {
  import opened Stat4Groups
  import opened Stat4Samples

  /** The state between two columns of samplePushPrevious. */
  ghost predicate Between(sc: Scan, a: seq<Sample>, nPSample: nat, i: int) {
    Samples(sc, a, nPSample, i) && Awaiting(sc, a, i)
  }

  /** What was chosen stays so in a copy that has taken over an earlier column. */
  lemma ChosenMoves(sc: Scan, s: Sample, t: Sample)
    requires |s.anLt| > 0 && |t.anLt| > 0 && Row(s) == Row(t) && s.isPSample == t.isPSample && t.iCol <= s.iCol
    requires Chosen(sc, s)
    ensures Chosen(sc, t)
  {
    if !s.isPSample {
      var i: nat :| ChosenFor(sc, s, i);
      assert ChosenFor(sc, t, i);
    }
  }

  lemma CountsExtend(sc: Scan, c: nat, id: Rowid, x: nat)
    requires x < |sc.ch|
    ensures Counts(Push(sc, c, id), x) == Counts(sc, x)
  {
    forall j | 0 <= j < sc.nCol { StartExtend(sc.ch, c, j, x); }
  }

  /** The next row closes the group, or it is closed already. */
  lemma BestRowExtend(sc: Scan, i: nat, x: nat, c: nat, id: Rowid)
    requires BestRow(sc, i, x) && (c <= i || !Open(sc.ch, i, x))
    ensures BestRow(Push(sc, c, id), i, x) && !Open(sc.ch + [c], i, x)
  {
    var sc' := Push(sc, c, id);
    OpenExtend(sc.ch, c, i, x);
    CountsExtend(sc, c, id, x);
    forall y | 0 <= y < |sc'.ch| && SameGroup(sc', i, x, y)
      ensures !LexGreater(Counts(sc', y), Counts(sc', x), i + 1)
    {
      if y < |sc.ch| {
        CountsExtend(sc, c, id, y);
        StartExtend(sc.ch, c, i, x);
        StartExtend(sc.ch, c, i, y);
        assert SameGroup(sc, i, x, y);
      }
    }
  }

  /** The group that a sample was chosen for has just been closed, or was closed before. */
  lemma ChosenExtend(sc: Scan, s: Sample, c: nat, id: Rowid)
    requires Good(sc, s) && Pending(sc, s, c - 1) && Chosen(sc, s)
    ensures Chosen(Push(sc, c, id), s)
  {
    if !s.isPSample {
      var i: nat :| ChosenFor(sc, s, i);
      BestRowExtend(sc, i, Row(s), c, id);
      assert ChosenFor(Push(sc, c, id), s, i);
    }
  }

  /** Column i is done as soon as its prefix, if some sample awaits it, is represented. */
  lemma ColumnDone(sc: Scan, a: seq<Sample>, nPSample: nat, i: nat)
    requires Between(sc, a, nPSample, i)
    requires forall k :: 0 <= k < |a| && i < sc.nCol && a[k].anEq[i] == 0 ==> Represented(sc, a, i)
    ensures Between(sc, a, nPSample, i - 1)
  {
  }

  /** Line 570: a periodic sample already stands for the prefix. */
  lemma PeriodicRepresents(sc: Scan, a: seq<Sample>, nPSample: nat, i: nat, p: nat)
    requires Between(sc, a, nPSample, i) && p < |a| && i < sc.nCol - 1
    requires a[p].isPSample && a[p].anEq[i] == 0
    ensures Between(sc, a, nPSample, i - 1)
  {
    assert EqOk(sc, a[p], i);
    ColumnDone(sc, a, nPSample, i);
  }

  /** Line 650: a candidate not preferred to the worst sample of a full array adds nothing. */
  lemma SkipKeeps(sc: Scan, a: seq<Sample>, nPSample: nat, i: nat, new': Sample, iMin: int)
    requires Between(sc, a, nPSample, i) && Candidate(sc, new', i)
    requires IsWorst(sc.nCol, a, iMin) && !Better(new', a[iMin])
    ensures Between(sc, a, nPSample, i - 1)
  {
    forall k | 0 <= k < |a| && a[k].anEq[i] == 0
      ensures a[k].isPSample && Represented(sc, a, i)
    {
      assert EqOk(sc, a[k], i);
      if !a[k].isPSample {
        BetterWeak(new', a[k], a[iMin]);
        CandidateWins(sc, new', i, a[k]);
      }
    }
    ColumnDone(sc, a, nPSample, i);
  }

  /** A sample that awaits a finer column j is beaten by another one that awaits column i. */
  lemma AwaitingIsBeaten(sc: Scan, a: seq<Sample>, nPSample: nat, i: nat, u: nat, j: nat) returns (k: nat)
    requires Between(sc, a, nPSample, i) && u < |a| && !a[u].isPSample
    requires i < j < a[u].iCol && j < sc.nCol - 1 && a[u].anEq[j] == 0
    ensures k < |a| && a[k].anEq[i] == 0 && (a[k].isPSample || Better(a[k], a[u]))
  {
    assert EqOk(sc, a[u], j);
    assert Represented(sc, a, j);
    k :| 0 <= k < |a| && Open(sc.ch, j, Row(a[k])) && (a[k].isPSample || a[k].iCol <= j);
    OpenCoarser(sc.ch, i, j, Row(a[k]));
    if !a[k].isPSample { RepresentativeWins(sc, a[k], a[u], j); }
  }

  function Upgraded(s: Sample, i: nat, count: nat): Sample
    requires i < |s.anEq|
  {
    s.(iCol := i, anEq := s.anEq[i := count])
  }

  /** The chosen sample has all the counts that its new priority makes relevant. */
  lemma UpgradeIsFilled(sc: Scan, a: seq<Sample>, nPSample: nat, i: nat, u: nat)
    requires Between(sc, a, nPSample, i) && u < |a| && i < sc.nCol - 1
    requires forall k :: 0 <= k < |a| && a[k].anEq[i] == 0 ==> !a[k].isPSample && !Better(a[k], a[u])
    requires a[u].anEq[i] == 0
    ensures forall j :: i < j < sc.nCol ==> a[u].anEq[j] > 0
  {
    forall j | i < j < a[u].iCol
      ensures a[u].anEq[j] > 0
    {
      if a[u].anEq[j] == 0 {
        var k := AwaitingIsBeaten(sc, a, nPSample, i, u, j);
      }
    }
  }

  lemma UpgradedIsGood(sc: Scan, s: Sample, i: nat, new': Sample)
    requires Candidate(sc, new', i) && Good(sc, s) && Pending(sc, s, i) && !s.isPSample && s.anEq[i] == 0
    requires forall j :: i < j < sc.nCol ==> s.anEq[j] > 0
    ensures var s' := Upgraded(s, i, new'.anEq[i]);
      Good(sc, s') && Pending(sc, s', i - 1) && Row(s') == Row(s) && Open(sc.ch, i, Row(s'))
  {
    var s' := Upgraded(s, i, new'.anEq[i]);
    assert EqOk(sc, s, i);
    OpenSize(sc.ch, i, Row(s));
    OpenSize(sc.ch, i, Row(new'));
    SizeCoarser(sc.ch, i, i, Row(s));
    forall j | 0 <= j < sc.nCol
      ensures EqOk(sc, s', j)
    {
      assert EqOk(sc, s, j);
    }
  }

  lemma UpgradeSamples(sc: Scan, a: seq<Sample>, nPSample: nat, i: nat, new': Sample, u: nat)
    requires Between(sc, a, nPSample, i) && Candidate(sc, new', i) && u < |a|
    requires a[u].anEq[i] == 0
    requires forall k :: 0 <= k < |a| && a[k].anEq[i] == 0 ==> !a[k].isPSample && !Better(a[k], a[u])
    ensures i < a[u].iCol && Open(sc.ch, i, Row(a[u]))
    ensures Samples(sc, a[u := Upgraded(a[u], i, new'.anEq[i])], nPSample, i - 1)
  {
    UpgradeIsFilled(sc, a, nPSample, i, u);
    UpgradedIsGood(sc, a[u], i, new');
    CandidateWins(sc, new', i, a[u]);
    var b := a[u := Upgraded(a[u], i, new'.anEq[i])];
    ChosenMoves(sc, a[u], b[u]);
  }

  /** Lines 578-582: the most preferred sample that shares the prefix takes it over. */
  lemma UpgradeKeeps(sc: Scan, a: seq<Sample>, nPSample: nat, i: nat, new': Sample, u: nat)
    requires Between(sc, a, nPSample, i) && Candidate(sc, new', i) && u < |a|
    requires a[u].anEq[i] == 0
    requires forall k :: 0 <= k < |a| && a[k].anEq[i] == 0 ==> !a[k].isPSample && !Better(a[k], a[u])
    ensures Between(sc, a[u := Upgraded(a[u], i, new'.anEq[i])], nPSample, i - 1)
  {
    UpgradeSamples(sc, a, nPSample, i, new', u);
    var b := a[u := Upgraded(a[u], i, new'.anEq[i])];
    assert b[u].iCol == i && Row(b[u]) == Row(a[u]);
    assert Represented(sc, b, i) by { assert Open(sc.ch, i, Row(b[u])); }
    forall j, k | i < j < sc.nCol - 1 && 0 <= k < |b| && b[k].anEq[j] == 0
      ensures Represented(sc, b, j)
    {
      assert a[k].anEq[j] == 0;
      StillRepresented(sc, a, b, j);
    }
  }

  lemma StillRepresented(sc: Scan, a: seq<Sample>, b: seq<Sample>, j: nat)
    requires AllDescribe(sc, a) && AllDescribe(sc, b) && |a| == |b| && Represented(sc, a, j)
    requires forall k {:trigger b[k]} :: 0 <= k < |a| ==>
      Row(b[k]) == Row(a[k]) && b[k].isPSample == a[k].isPSample && b[k].iCol <= a[k].iCol
    ensures Represented(sc, b, j)
  {
    var z :| 0 <= z < |a| && Open(sc.ch, j, Row(a[z])) && (a[z].isPSample || a[z].iCol <= j);
    assert Open(sc.ch, j, Row(b[z]));
  }

  /** If nothing awaits column i then nothing shares its prefix or any finer one. */
  lemma NoneShares(sc: Scan, a: seq<Sample>, nPSample: nat, i: nat)
    requires Samples(sc, a, nPSample, i) && i < sc.nCol - 1
    requires forall k :: 0 <= k < |a| ==> a[k].anEq[i] != 0
    ensures forall j, k :: i <= j < sc.nCol && 0 <= k < |a| ==> a[k].anEq[j] > 0
    ensures forall k :: 0 <= k < |a| ==> !Open(sc.ch, i, Row(a[k]))
  {
    forall j, k | i <= j < sc.nCol && 0 <= k < |a|
      ensures a[k].anEq[j] > 0
    {
      assert EqOk(sc, a[k], j);
      if a[k].anEq[j] == 0 { OpenCoarser(sc.ch, i, j, Row(a[k])); }
    }
  }

  function Without(a: seq<Sample>, m: nat): (b: seq<Sample>)
    requires m < |a|
    ensures |b| == |a| - 1 && forall k :: 0 <= k < |b| ==> b[k] == a[if k < m then k else k + 1]
  {
    a[..m] + a[m + 1..]
  }

  /** Lines 587-600: dropping a sample. */
  lemma RemoveKeeps(sc: Scan, a: seq<Sample>, nPSample: nat, i: int, m: nat)
    requires Samples(sc, a, nPSample, i) && m < |a|
    ensures Samples(sc, Without(a, m), nPSample, i)
  {
  }

  function Zeroed(s: Sample, n: nat): Sample
    requires n <= |s.anEq|
  {
    s.(anEq := seq(n, _ => 0) + s.anEq[n..])
  }

  lemma ZeroedIsGood(sc: Scan, new': Sample, i: nat)
    requires Candidate(sc, new', i)
    ensures Good(sc, Zeroed(new', i)) && Pending(sc, Zeroed(new', i), i - 1)
    ensures Row(Zeroed(new', i)) == Row(new')
  {
    var s := Zeroed(new', i);
    forall j | 0 <= j < sc.nCol
      ensures EqOk(sc, s, j)
    {
      if j < i {
        OpenCoarser(sc.ch, j, i, Row(s));
      } else {
        SizeCoarser(sc.ch, j, j, Row(s));
      }
    }
  }

  lemma AppendSamples(sc: Scan, a: seq<Sample>, nPSample: nat, i: nat, new': Sample)
    requires Samples(sc, a, nPSample, i) && Candidate(sc, new', i)
    requires forall k :: 0 <= k < |a| ==> !Open(sc.ch, i, Row(a[k]))
    ensures a != [] ==> Row(a[|a| - 1]) < Row(new')
    ensures Samples(sc, a + [Zeroed(new', i)], nPSample, i - 1)
  {
    ZeroedIsGood(sc, new', i);
    var z := Zeroed(new', i);
    assert z.iCol == i && ChosenFor(sc, z, i);
  }

  /** Lines 606-616: a candidate whose prefix nobody shares goes to the end. */
  lemma AppendKeeps(sc: Scan, a: seq<Sample>, nPSample: nat, i: nat, new': Sample)
    requires Samples(sc, a, nPSample, i) && Candidate(sc, new', i)
    requires forall k :: 0 <= k < |a| ==> a[k].anEq[i] != 0
    ensures a != [] ==> Row(a[|a| - 1]) < Row(new')
    ensures Between(sc, a + [Zeroed(new', i)], nPSample, i - 1)
  {
    NoneShares(sc, a, nPSample, i);
    AppendSamples(sc, a, nPSample, i, new');
    ZeroedIsGood(sc, new', i);
    var b := a + [Zeroed(new', i)];
    assert forall j, k :: i <= j < sc.nCol && 0 <= k < |b| ==> b[k].anEq[j] > 0;
  }

  /** Lines 761-762: a periodic sample of the newest row goes to the end. */
  lemma PeriodicAppend(sc: Scan, a: seq<Sample>, nPSample: nat, new': Sample)
    requires Samples(sc, a, nPSample, sc.nCol - 2)
    requires Describes(sc, new') && new'.isPSample && Row(new') == |sc.ch| - 1
    requires new'.anEq[sc.nCol - 1] == 1 && (Row(new') + 1) % nPSample == 0
    requires forall k :: 0 <= k < |a| ==> Row(a[k]) < Row(new')
    ensures Samples(sc, a + [Zeroed(new', sc.nCol - 1)], nPSample, sc.nCol - 2)
  {
    var s := Zeroed(new', sc.nCol - 1);
    forall j | 0 <= j < sc.nCol
      ensures EqOk(sc, s, j)
    {
    }
    assert Row(s) == Row(new');
  }

  // ---- from one row to the next

  /** The current row: its counts are those of the open groups. */
  ghost predicate CurrentOk(sc: Scan, s: Sample) {
    && Describes(sc, s) && Row(s) == |sc.ch| - 1 && !s.isPSample
    && forall j :: 0 <= j < sc.nCol ==> s.anEq[j] == Size(sc.ch, j, Row(s))
  }

  /** No row of the current group of column i has more rows like it in column i + 1. */
  ghost predicate LargestNext(sc: Scan, i: nat, x: nat)
    requires x < |sc.ch|
  {
    forall y :: 0 <= y < |sc.ch| && Open(sc.ch, i, y) ==> Size(sc.ch, i + 1, y) <= Size(sc.ch, i + 1, x)
  }

  /** aBest[i]: a row of the current group of column i whose finer counts are final, in a largest
      group of the next column. */
  ghost predicate BestOk(sc: Scan, s: Sample, i: nat) {
    && Describes(sc, s) && i < sc.nCol - 1 && s.iCol == i && !s.isPSample
    && Open(sc.ch, i, Row(s))
    && BestRow(sc, i, Row(s)) && LargestNext(sc, i, Row(s))
    && forall j :: i < j < sc.nCol ==> s.anEq[j] == Size(sc.ch, j, Row(s))
  }

  /** aBest[i] when a row with left-most changed column c arrives. */
  ghost predicate BestBefore(prev: Scan, s: Sample, i: nat, c: nat) {
    if prev.ch == [] then
      Shaped(prev.nCol, s) && s.iCol == i && forall j :: 0 <= j < prev.nCol ==> s.anEq[j] == 0
    else
      i < c ==> BestOk(prev, s, i)
  }

  /** Line 649 turns aBest[i] into a candidate. */
  lemma BestIsCandidate(sc: Scan, s: Sample, i: nat, cur: Sample)
    requires BestOk(sc, s, i) && CurrentOk(sc, cur)
    ensures Candidate(sc, s.(anEq := s.anEq[i := cur.anEq[i]]), i)
  {
    OpenSize(sc.ch, i, Row(s));
    var t := s.(anEq := s.anEq[i := cur.anEq[i]]);
    assert Row(t) == Row(s);
  }

  /** Lines 658-660. */
  function Filled(s: Sample, cur: Sample, c: nat): Sample
    requires |s.anEq| == |cur.anEq|
  {
    s.(anEq := seq(|s.anEq|, j requires 0 <= j < |s.anEq| =>
      if j >= c && s.anEq[j] == 0 then cur.anEq[j] else s.anEq[j]))
  }

  lemma DescribesExtend(sc: Scan, s: Sample, c: nat, id: Rowid)
    requires Describes(sc, s) && c < sc.nCol
    ensures Describes(Push(sc, c, id), s)
  {
    forall j | 0 <= j < sc.nCol { StartExtend(sc.ch, c, j, Row(s)); }
  }

  lemma FilledEq(sc: Scan, s: Sample, cur: Sample, c: nat, id: Rowid, j: nat)
    requires Good(sc, s) && Pending(sc, s, c - 1) && CurrentOk(sc, cur) && c < sc.nCol && j < sc.nCol
    requires Describes(Push(sc, c, id), Filled(s, cur, c)) && Row(Filled(s, cur, c)) == Row(s)
    ensures EqOk(Push(sc, c, id), Filled(s, cur, c), j)
    ensures j < sc.nCol - 1 && Open(sc.ch + [c], j, Row(s)) ==> Filled(s, cur, c).anEq[j] == 0
  {
    assert EqOk(sc, s, j);
    OpenExtend(sc.ch, c, j, Row(s));
    SizeExtend(sc.ch, c, j, Row(s));
    SizeCoarser(sc.ch, j, j, Row(s));
    if Open(sc.ch, j, Row(s)) { OpenSize(sc.ch, j, Row(s)); }
  }

  /** After column c - 1 and the fill, the sample is as it should be for the next row. */
  lemma FilledIsGood(sc: Scan, s: Sample, cur: Sample, c: nat, id: Rowid)
    requires Good(sc, s) && Pending(sc, s, c - 1) && CurrentOk(sc, cur) && c < sc.nCol
    ensures var sc', s' := Push(sc, c, id), Filled(s, cur, c);
      Good(sc', s') && Pending(sc', s', sc.nCol - 2) && Row(s') == Row(s)
  {
    var sc', s' := Push(sc, c, id), Filled(s, cur, c);
    DescribesExtend(sc, s, c, id);
    assert Row(s') == Row(s);
    assert Describes(sc', s');
    forall j | 0 <= j < sc.nCol
      ensures EqOk(sc', s', j)
      ensures j < sc.nCol - 1 && Open(sc'.ch, j, Row(s')) ==> s'.anEq[j] == 0
    {
      FilledEq(sc, s, cur, c, id, j);
    }
  }

  /** The fill does not change any preference between non-periodic samples. */
  lemma FilledPreference(sc: Scan, s: Sample, t: Sample, cur: Sample, c: nat)
    requires Good(sc, s) && Good(sc, t) && !s.isPSample && !t.isPSample && CurrentOk(sc, cur)
    ensures Better(s, t) == Better(Filled(s, cur, c), Filled(t, cur, c))
  {
    if s.iCol == t.iCol {
      BetterPostDependsOn(s, t, Filled(s, cur, c), Filled(t, cur, c), s.iCol + 1);
    }
  }

  /** Lines 732-741: the counters of the current row, given the left-most changed column. */
  function Advance(s: Sample, c: nat): Sample
    requires |s.anEq| == |s.anLt| == |s.anDLt|
  {
    var n := |s.anEq|;
    s.(anEq := seq(n, i requires 0 <= i < n => if i < c then s.anEq[i] + 1 else 1),
       anLt := seq(n, i requires 0 <= i < n => if i < c then s.anLt[i] else s.anLt[i] + s.anEq[i]),
       anDLt := seq(n, i requires 0 <= i < n => if i < c then s.anDLt[i] else s.anDLt[i] + 1))
  }

  lemma AdvanceColumn(sc: Scan, s: Sample, c: nat, id: Rowid, j: nat)
    requires CurrentOk(sc, s) && c < sc.nCol && j < sc.nCol
    ensures var ch', n, s' := sc.ch + [c], |sc.ch|, Advance(s, c);
      && s'.anLt[j] == Start(ch', j, n) && s'.anDLt[j] == Breaks(ch', j, n)
      && s'.anEq[j] == Size(ch', j, n)
  {
    StartExtend(sc.ch, c, j, |sc.ch| - 1);
  }

  lemma AdvanceKeeps(sc: Scan, s: Sample, c: nat, id: Rowid, s': Sample)
    requires CurrentOk(sc, s) && c < sc.nCol && s'.iCol < sc.nCol && !s'.isPSample && s'.rowid == id
    requires s' == Advance(s, c).(rowid := id, iCol := s'.iCol, iHash := s'.iHash)
    ensures CurrentOk(Push(sc, c, id), s')
  {
    forall j | 0 <= j < sc.nCol { AdvanceColumn(sc, s, c, id, j); }
    var ch' := sc.ch + [c];
    assert Row(s') == Start(ch', sc.nCol - 1, |sc.ch|) == |sc.ch|;
  }

  /** If the newest row does not replace aBest[i] then its finer counts are final. */
  lemma BestKeptIsFinal(sc: Scan, s: Sample, i: nat, cur: Sample, c: nat, id: Rowid)
    requires BestOk(sc, s, i) && i < c < sc.nCol && CurrentOk(Push(sc, c, id), cur)
    requires !BetterPost(cur, s, i + 1)
    ensures (sc.ch + [c])[Row(s) + 1] <= i + 1
  {
    var n := |sc.ch|;
    if Row(s) == n - 1 {
      StartExtend(sc.ch, c, i + 1, n - 1);
      assert cur.anEq[i + 1] == Size(sc.ch + [c], i + 1, n);
    }
  }

  /** What the newest row, of group size n in column i + 1, leaves of the other sizes. */
  lemma OtherSizes(sc: Scan, i: nat, c: nat, id: Rowid, y: nat)
    requires ScanOk(sc) && |sc.ch| > 0 && i < c < sc.nCol && y <= |sc.ch| && Open(sc.ch + [c], i, y)
    ensures var ch' := sc.ch + [c];
      || Size(ch', i + 1, y) <= Size(ch', i + 1, |sc.ch|)
      || (y < |sc.ch| && Open(sc.ch, i, y) && Size(ch', i + 1, y) == Size(sc.ch, i + 1, y))
  {
    var ch', n := sc.ch + [c], |sc.ch|;
    if y < n {
      OpenExtend(sc.ch, c, i, y);
      SizeExtend(sc.ch, c, i + 1, y);
      OpenExtend(sc.ch, c, i + 1, y);
      if Open(ch', i + 1, y) {
        OpenSize(ch', i + 1, y);
      }
    }
  }

  lemma LargestKept(sc: Scan, s: Sample, i: nat, cur: Sample, c: nat, id: Rowid)
    requires BestOk(sc, s, i) && i < c < sc.nCol && CurrentOk(Push(sc, c, id), cur)
    requires Size(sc.ch + [c], i + 1, Row(s)) == s.anEq[i + 1] >= cur.anEq[i + 1]
    ensures LargestNext(Push(sc, c, id), i, Row(s))
  {
    var ch' := sc.ch + [c];
    forall y | 0 <= y < |ch'| && Open(ch', i, y)
      ensures Size(ch', i + 1, y) <= s.anEq[i + 1]
    {
      OtherSizes(sc, i, c, id, y);
    }
  }

  lemma SizesKept(sc: Scan, s: Sample, i: nat, c: nat)
    requires BestOk(sc, s, i) && i < c < sc.nCol && (sc.ch + [c])[Row(s) + 1] <= i + 1
    ensures forall j :: i < j < sc.nCol ==> Size(sc.ch + [c], j, Row(s)) == Size(sc.ch, j, Row(s))
  {
    forall j | i < j < sc.nCol
      ensures Size(sc.ch + [c], j, Row(s)) == Size(sc.ch, j, Row(s))
    {
      SizeExtend(sc.ch, c, j, Row(s));
      if Row(s) + 1 < |sc.ch| { StartNotBefore(sc.ch, j, Row(s) + 1, |sc.ch| - 1); }
    }
  }

  /** The last row of a group has its sizes from that column on as its counts. */
  lemma CountsAreSizes(sc: Scan, s: Sample, i: nat)
    requires 0 < |s.anLt| && Row(s) < |sc.ch| && EndsGroup(sc, i, Row(s)) && |s.anEq| == sc.nCol
    requires forall j :: i <= j < sc.nCol ==> s.anEq[j] == Size(sc.ch, j, Row(s))
    ensures i <= sc.nCol ==> SameTo(s.anEq, Counts(sc, Row(s)), i, sc.nCol)
  {
  }

  /** The newest row against the best one so far. */
  lemma BestAgainstNewest(sc: Scan, s: Sample, i: nat, cur: Sample, c: nat, id: Rowid)
    requires BestOk(sc, s, i) && c < sc.nCol && CurrentOk(Push(sc, c, id), cur)
    ensures var sc' := Push(sc, c, id); var p, q := Counts(sc', |sc.ch|), Counts(sc', Row(s));
      && (LexGreater(p, q, i + 1) ==> BetterPost(cur, s, i + 1))
      && (BetterPost(cur, s, i + 1) ==> !LexGreater(q, p, i + 1))
  {
    var sc' := Push(sc, c, id);
    var p, q := Counts(sc', |sc.ch|), Counts(sc', Row(s));
    CountsExtend(sc, c, id, Row(s));
    CountsAreSizes(sc, s, i + 1);
    CountsAreSizes(sc', cur, i + 1);
    PreferredCounts(cur, s, p, q, i + 1);
  }

  lemma PreferredCounts(s: Sample, t: Sample, p: seq<nat>, q: seq<nat>, i: nat)
    requires |s.anEq| == |t.anEq| == |p| == |q| && i <= |p| && SameTo(s.anEq, p, i, |p|) && SameTo(t.anEq, q, i, |p|)
    ensures LexGreater(p, q, i) ==> BetterPost(s, t, i)
    ensures BetterPost(s, t, i) ==> !LexGreater(q, p, i)
  {
    BetterPostMeans(s, t, i);
    LexSame(s.anEq, t.anEq, p, q, i);
    LexSame(t.anEq, s.anEq, q, p, i);
    LexWeak(s.anEq, t.anEq, t.anEq, i);
  }

  lemma GroupExtend(sc: Scan, i: nat, x: nat, y: nat, c: nat, id: Rowid)
    requires x < |sc.ch| && y < |sc.ch|
    ensures SameGroup(Push(sc, c, id), i, x, y) <==> SameGroup(sc, i, x, y)
  {
    StartExtend(sc.ch, c, i, x);
    StartExtend(sc.ch, c, i, y);
  }

  lemma BestRowKept(sc: Scan, s: Sample, i: nat, cur: Sample, c: nat, id: Rowid)
    requires BestOk(sc, s, i) && i < c < sc.nCol && CurrentOk(Push(sc, c, id), cur)
    requires !BetterPost(cur, s, i + 1) && (sc.ch + [c])[Row(s) + 1] <= i + 1
    ensures BestRow(Push(sc, c, id), i, Row(s))
  {
    var sc' := Push(sc, c, id);
    BestAgainstNewest(sc, s, i, cur, c, id);
    forall y | 0 <= y < |sc'.ch| && SameGroup(sc', i, Row(s), y)
      ensures !LexGreater(Counts(sc', y), Counts(sc', Row(s)), i + 1)
    {
      if y < |sc.ch| {
        GroupExtend(sc, i, Row(s), y, c, id);
        CountsExtend(sc, c, id, y);
        CountsExtend(sc, c, id, Row(s));
      }
    }
  }

  lemma BestRowReplaced(sc: Scan, s: Sample, i: nat, cur: Sample, c: nat, id: Rowid)
    requires BestOk(sc, s, i) && i < c < sc.nCol && CurrentOk(Push(sc, c, id), cur)
    requires BetterPost(cur, s, i + 1)
    ensures BestRow(Push(sc, c, id), i, |sc.ch|)
  {
    var sc', n := Push(sc, c, id), |sc.ch|;
    BestAgainstNewest(sc, s, i, cur, c, id);
    forall y | 0 <= y < |sc'.ch| && SameGroup(sc', i, n, y)
      ensures !LexGreater(Counts(sc', y), Counts(sc', n), i + 1)
    {
      LexWeak(Counts(sc', y), Counts(sc', n), Counts(sc', Row(s)), i + 1);
      if y < n {
        OpenExtend(sc.ch, c, i, Row(s));
        StartShared(sc'.ch, i, n, Row(s));
        GroupExtend(sc, i, Row(s), y, c, id);
        CountsExtend(sc, c, id, y);
        CountsExtend(sc, c, id, Row(s));
      }
    }
  }

  lemma FirstOfGroup(sc: Scan, i: nat, c: nat, id: Rowid)
    requires c <= i || |sc.ch| == 0
    requires i + 1 < sc.nCol
    ensures BestRow(Push(sc, c, id), i, |sc.ch|)
  {
    var sc', n := Push(sc, c, id), |sc.ch|;
    forall y | 0 <= y < |sc'.ch| && SameGroup(sc', i, n, y)
      ensures !LexGreater(Counts(sc', y), Counts(sc', n), i + 1)
    {
      assert y == n;
      LexWeak(Counts(sc', n), Counts(sc', n), Counts(sc', n), i + 1);
    }
  }

  lemma BestKept(sc: Scan, s: Sample, i: nat, cur: Sample, c: nat, id: Rowid)
    requires BestOk(sc, s, i) && i < c < sc.nCol && CurrentOk(Push(sc, c, id), cur)
    requires !BetterPost(cur, s, i + 1)
    ensures BestOk(Push(sc, c, id), s, i)
  {
    BestKeptIsFinal(sc, s, i, cur, c, id);
    DescribesExtend(sc, s, c, id);
    OpenExtend(sc.ch, c, i, Row(s));
    SizesKept(sc, s, i, c);
    BestRowKept(sc, s, i, cur, c, id);
    LargestKept(sc, s, i, cur, c, id);
  }

  /** The newest row, when it is preferred to the best one so far or starts a group. */
  lemma BestReplaced(prev: Scan, s: Sample, i: nat, cur: Sample, c: nat, id: Rowid)
    requires BestBefore(prev, s, i, c) && i < prev.nCol - 1 && c < prev.nCol
    requires CurrentOk(Push(prev, c, id), cur) && cur.iCol == i
    requires i < c && |prev.ch| > 0 ==> BetterPost(cur, s, i + 1)
    ensures BestOk(Push(prev, c, id), cur, i)
  {
    var sc := Push(prev, c, id);
    var n := |prev.ch|;
    if i < c && n > 0 {
      LargestReplaced(prev, s, i, cur, c, id);
      BestRowReplaced(prev, s, i, cur, c, id);
    } else {
      FirstOfGroup(prev, i, c, id);
      forall y | 0 <= y < |sc.ch| && Open(sc.ch, i, y) ensures y == n {
      }
    }
  }

  lemma LargestReplaced(sc: Scan, s: Sample, i: nat, cur: Sample, c: nat, id: Rowid)
    requires BestOk(sc, s, i) && i < c < sc.nCol && CurrentOk(Push(sc, c, id), cur)
    requires s.anEq[i + 1] <= cur.anEq[i + 1]
    ensures LargestNext(Push(sc, c, id), i, Row(cur))
  {
    var ch' := sc.ch + [c];
    forall y | 0 <= y < |ch'| && Open(ch', i, y)
      ensures Size(ch', i + 1, y) <= cur.anEq[i + 1]
    {
      OtherSizes(sc, i, c, id, y);
    }
  }

  /** Lines 769-771: whichever of the two is kept is right for the next row. */
  lemma BestNext(prev: Scan, s: Sample, i: nat, cur: Sample, c: nat, id: Rowid)
    requires BestBefore(prev, s, i, c) && i < prev.nCol - 1 && c < prev.nCol
    requires CurrentOk(Push(prev, c, id), cur) && cur.iCol == i
    ensures i < c ==> Shaped(prev.nCol, s) && s.iCol == i
    ensures c <= i || BetterPost(cur, s, i + 1) ==> BestOk(Push(prev, c, id), cur, i)
    ensures i < c && !BetterPost(cur, s, i + 1) ==> BestOk(Push(prev, c, id), s, i)
  {
    if i < c {
      if |prev.ch| == 0 {
        assert s.anEq[i + 1] == 0 < cur.anEq[i + 1];
      }
      if BetterPost(cur, s, i + 1) {
        BestReplaced(prev, s, i, cur, c, id);
      } else {
        BestKept(prev, s, i, cur, c, id);
      }
    } else {
      BestReplaced(prev, s, i, cur, c, id);
    }
  }

  ghost predicate AreFilled(mid: seq<Sample>, a: seq<Sample>, cur: Sample, c: nat) {
    && |a| == |mid|
    && forall k {:trigger a[k]} :: 0 <= k < |a| ==> |mid[k].anEq| == |cur.anEq| && a[k] == Filled(mid[k], cur, c)
  }

  lemma FilledSamples(sc: Scan, mid: seq<Sample>, a: seq<Sample>, nPSample: nat, cur: Sample, c: nat, id: Rowid)
    requires Samples(sc, mid, nPSample, c - 1) && CurrentOk(sc, cur) && c < sc.nCol && AreFilled(mid, a, cur, c)
    ensures Samples(Push(sc, c, id), a, nPSample, sc.nCol - 2)
    ensures forall k :: 0 <= k < |a| ==> Row(a[k]) < |sc.ch|
  {
    forall k | 0 <= k < |a|
      ensures Good(Push(sc, c, id), a[k]) && Pending(Push(sc, c, id), a[k], sc.nCol - 2)
      ensures Chosen(Push(sc, c, id), a[k])
      ensures Row(a[k]) == Row(mid[k]) < |sc.ch|
    {
      FilledIsGood(sc, mid[k], cur, c, id);
      ChosenExtend(sc, mid[k], c, id);
      ChosenMoves(Push(sc, c, id), mid[k], a[k]);
    }
  }

  lemma FilledWorst(sc: Scan, mid: seq<Sample>, a: seq<Sample>, nPSample: nat, cur: Sample, c: nat, iMin: int)
    requires Samples(sc, mid, nPSample, c - 1) && CurrentOk(sc, cur) && AreFilled(mid, a, cur, c)
    requires IsWorst(sc.nCol, mid, iMin)
    ensures AllShaped(sc.nCol, a) && IsWorst(sc.nCol, a, iMin)
  {
    forall k | 0 <= k < |a| && !a[k].isPSample
      ensures !Better(a[iMin], a[k])
    {
      FilledPreference(sc, mid[iMin], mid[k], cur, c);
    }
  }

  /** The counts of a finished sample are exact in every column. */
  ghost predicate Exact(sc: Scan, s: Sample) {
    && Describes(sc, s)
    && forall j :: 0 <= j < sc.nCol ==> s.anEq[j] == Size(sc.ch, j, Row(s))
  }

  /** After the last row, column 0 and the fill, every count is final. */
  lemma FilledFinally(sc: Scan, s: Sample, cur: Sample)
    requires Good(sc, s) && CurrentOk(sc, cur)
    ensures Exact(sc, Filled(s, cur, 0)) && Row(Filled(s, cur, 0)) == Row(s)
  {
    var s' := Filled(s, cur, 0);
    assert Row(s') == Row(s);
    forall j | 0 <= j < sc.nCol
      ensures s'.anEq[j] == Size(sc.ch, j, Row(s))
    {
      assert EqOk(sc, s, j);
      if Open(sc.ch, j, Row(s)) { OpenSize(sc.ch, j, Row(s)); }
    }
  }
}
