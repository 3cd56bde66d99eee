/** The accumulator behind stat_init(), stat_push() and stat_get() (analyze.c, built with
    SQLITE_ENABLE_STAT4). The ghost field sc holds the rows pushed so far. */
module Stat4 {
  import Arithmetic
  import opened Stat4Groups
  import opened Stat4Samples
  import opened Stat4Steps
  import opened Stat4Cover
  import Stat1Text

  const SQLITE_STAT4_SAMPLES: nat := 24

  class Stat4Accum {
    const nCol: nat
    const nKeyCol: nat
    const mxSample: nat
    const nPSample: nat
    var nRow: nat
    var current: Sample
    var aBest: seq<Sample>
    var a: seq<Sample>
    var iMin: int
    var iGet: int
    ghost const nRowEst: nat
    ghost var sc: Scan

    /** The configuration that statInit sets up. */
    ghost predicate Configured()
      reads this
    {
      && 0 < nKeyCol <= nCol == sc.nCol && mxSample == SQLITE_STAT4_SAMPLES
      && nPSample == nRowEst / (mxSample / 3 + 1) + 1
      && ScanOk(sc) && nRow == |sc.ch| <= nRowEst
      && |aBest| == nCol
    }

    /** The array is never over-full, and once full iMin is right. */
    ghost predicate MinOk()
      reads this
    {
      |a| <= mxSample && AllShaped(nCol, a) && (|a| == mxSample ==> IsWorst(nCol, a, iMin))
    }

    ghost predicate NoRowsYet()
      requires |aBest| == nCol
      reads this
    {
      && a == [] && !current.isPSample
      && (forall j :: 0 <= j < |current.anLt| ==> current.anLt[j] == 0)
      && (forall j :: 0 <= j < |current.anDLt| ==> current.anDLt[j] == 0)
      && (forall i :: 0 <= i < nCol ==> Shaped(nCol, aBest[i]) && aBest[i].iCol == i)
      && (forall i, j :: 0 <= i < nCol && 0 <= j < nCol ==> aBest[i].anEq[j] == 0)
    }

    ghost predicate BestsOk()
      requires |aBest| == nCol
      reads this
    {
      forall i :: 0 <= i < nCol - 1 ==> BestOk(sc, aBest[i], i)
    }

    /** What has been sampled covers the groups that are closed or above column i, and the periodic
        ones of the first n rows. */
    ghost predicate Kept(i: int, n: nat)
      requires Configured() && AllShaped(nCol, a)
      reads this
    {
      AllCovered(sc, a, mxSample, i) && AllPeriods(nCol, a, nPSample, n)
    }

    /** Between two calls of stat_push(). */
    ghost predicate Valid()
      reads this
    {
      && Configured() && MinOk() && Shaped(nCol, current) && iGet < 0
      && Samples(sc, a, nPSample, nCol - 2) && Kept(nCol - 2, nRow)
      && (nRow == 0 ==> NoRowsYet())
      && (nRow > 0 ==> CurrentOk(sc, current) && BestsOk())
    }

    /** statInit */
    constructor (nCol: nat, nKeyCol: nat, nRowEst: nat)
      requires 0 < nKeyCol <= nCol
      ensures Valid() && sc == Scan(nCol, [], [])
      ensures this.nCol == nCol && this.nKeyCol == nKeyCol && this.nRowEst == nRowEst
    {
      this.nCol, this.nKeyCol, this.nRowEst := nCol, nKeyCol, nRowEst;
      mxSample := SQLITE_STAT4_SAMPLES;
      nPSample := nRowEst / (SQLITE_STAT4_SAMPLES / 3 + 1) + 1;
      nRow := 0;
      var zeros := seq(nCol, _ => 0);
      var blank := Sample(zeros, zeros, zeros, Integer(0), false, 0, 0);
      current := blank;
      aBest := seq(nCol, i requires 0 <= i => blank.(iCol := i));
      a := [];
      iMin := 0;
      iGet := -1;
      sc := Scan(nCol, [], []);
    }

    method SampleIsBetterPost(new': Sample, old': Sample) returns (r: bool)
      requires Shaped(nCol, new') && Shaped(nCol, old') && new'.iCol == old'.iCol
      ensures r == BetterPost(new', old', new'.iCol + 1)
      ensures r <==>
        || LexGreater(new'.anEq, old'.anEq, new'.iCol + 1)
        || (SameTo(new'.anEq, old'.anEq, new'.iCol + 1, nCol) && new'.iHash > old'.iHash)
    {
      BetterPostMeans(new', old', new'.iCol + 1);
      for i := new'.iCol + 1 to nCol
        invariant BetterPost(new', old', new'.iCol + 1) == BetterPost(new', old', i)
      {
        if new'.anEq[i] > old'.anEq[i] { return true; }
        if new'.anEq[i] < old'.anEq[i] { return false; }
      }
      r := new'.iHash > old'.iHash;
    }

    method SampleIsBetter(new': Sample, old': Sample) returns (r: bool)
      requires Shaped(nCol, new') && Shaped(nCol, old') && !new'.isPSample && !old'.isPSample
      ensures r == Better(new', old')
    {
      var nEqNew, nEqOld := new'.anEq[new'.iCol], old'.anEq[old'.iCol];
      if nEqNew > nEqOld { return true; }
      if nEqNew == nEqOld {
        if new'.iCol < old'.iCol { return true; }
        if new'.iCol == old'.iCol { r := SampleIsBetterPost(new', old'); return; }
      }
      r := false;
    }

    /** Lines 567-577: the most preferred sample that awaits column iCol, unless a periodic
        sample awaits it too. */
    method FindUpgrade(new': Sample) returns (periodic: bool, iUpgrade: int)
      requires Configured() && Candidate(sc, new', new'.iCol)
      requires AllShaped(sc.nCol, a) && forall k {:trigger a[k]} :: 0 <= k < |a| ==> Good(sc, a[k])
      ensures periodic ==> exists k :: 0 <= k < |a| && a[k].isPSample && a[k].anEq[new'.iCol] == 0
      ensures !periodic && iUpgrade < 0 ==> forall k :: 0 <= k < |a| ==> a[k].anEq[new'.iCol] != 0
      ensures !periodic && iUpgrade >= 0 ==>
        && iUpgrade < |a| && a[iUpgrade].anEq[new'.iCol] == 0
        && forall k :: 0 <= k < |a| && a[k].anEq[new'.iCol] == 0 ==>
             !a[k].isPSample && !Better(a[k], a[iUpgrade])
    {
      var c := new'.iCol;
      iUpgrade := -1;
      var i := |a| - 1;
      while i >= 0
        invariant -1 <= i < |a| && -1 <= iUpgrade < |a|
        invariant iUpgrade < 0 ==> forall k :: i < k < |a| ==> a[k].anEq[c] != 0
        invariant iUpgrade >= 0 ==> !a[iUpgrade].isPSample && a[iUpgrade].anEq[c] == 0
        invariant iUpgrade >= 0 ==> forall k :: i < k < |a| && a[k].anEq[c] == 0 ==>
          !a[k].isPSample && !Better(a[k], a[iUpgrade])
      {
        if a[i].anEq[c] == 0 {
          if a[i].isPSample { return true, -1; }
          CandidateWins(sc, new', c, a[i]);
          assert a[i].iCol > c && Better(new', a[i]);
          var better := iUpgrade < 0;
          if iUpgrade >= 0 { better := SampleIsBetter(a[i], a[iUpgrade]); }
          if better {
            forall k | i <= k < |a| && a[k].anEq[c] == 0
              ensures !a[k].isPSample && !Better(a[k], a[i])
            {
              MostPreferredMoves(a[k], a[if iUpgrade >= 0 then iUpgrade else i], a[i]);
            }
            iUpgrade := i;
          }
        }
        i := i - 1;
      }
      periodic := false;
    }

    /** Lines 619-631 */
    method FindNewMin()
      requires Configured() && |a| <= mxSample && AllShaped(nCol, a)
      requires |a| == mxSample ==> exists k :: 0 <= k < |a| && !a[k].isPSample
      modifies `iMin
      ensures MinOk()
    {
      if |a| >= mxSample {
        var m := -1;
        for i := 0 to mxSample
          invariant -1 <= m < i && (m >= 0 ==> !a[m].isPSample)
          invariant m < 0 ==> forall k :: 0 <= k < i ==> a[k].isPSample
          invariant m >= 0 ==> forall k :: 0 <= k < i && !a[k].isPSample ==> !Better(a[m], a[k])
        {
          if !a[i].isPSample {
            var better := m < 0;
            if m >= 0 { better := SampleIsBetter(a[m], a[i]); }
            if better {
              forall k | 0 <= k <= i && !a[k].isPSample
                ensures !Better(a[i], a[k])
              {
                MostPreferredMoves(a[k], a[if m >= 0 then m else i], a[i]);
              }
              m := i;
            }
          }
        }
        assert m >= 0;
        iMin := m;
      }
    }

    /** sampleInsert, for a candidate of column nEqZero or for a periodic sample. A full array takes
        a candidate only if it is preferred to the worst sample. */
    method SampleInsert(new': Sample, nEqZero: nat, ghost n: nat)
      requires Configured() && MinOk()
      requires if new'.isPSample then PeriodicDue(new') && nEqZero == nCol - 1 && n == Row(new') && Kept(nCol - 2, n)
               else Candidate(sc, new', nEqZero) && Between(sc, a, nPSample, nEqZero) && Kept(nEqZero, n)
      requires |a| == mxSample && !new'.isPSample ==> Better(new', a[iMin])
      modifies `a, `iMin
      ensures MinOk()
      ensures if new'.isPSample then Samples(sc, a, nPSample, nCol - 2) && Kept(nCol - 2, n + 1)
              else Between(sc, a, nPSample, nEqZero - 1) && Kept(nEqZero - 1, n)
      ensures if new'.isPSample then a == Placed(old(a), mxSample, old(iMin), Zeroed(new', nEqZero))
              else Inserted(nCol, mxSample, old(a), old(iMin), new', a)
    {
      if new'.isPSample {
        AppendPeriodic(new', nEqZero);
      } else {
        InsertCandidate(new', nEqZero, n);
      }
    }

    method InsertCandidate(new': Sample, i: nat, ghost n: nat)
      requires Configured() && MinOk() && Candidate(sc, new', i) && Between(sc, a, nPSample, i) && Kept(i, n)
      requires |a| == mxSample ==> Better(new', a[iMin])
      modifies `a, `iMin
      ensures MinOk() && Between(sc, a, nPSample, i - 1) && Kept(i - 1, n)
      ensures Inserted(nCol, mxSample, old(a), old(iMin), new', a)
    {
      var done := UpgradeOld(new', n);
      if !done {
        AppendCandidate(new', i, n);
      }
    }

    /** Lines 558-583 */
    method UpgradeOld(new': Sample, ghost n: nat) returns (done: bool)
      requires Configured() && MinOk() && Candidate(sc, new', new'.iCol) && Between(sc, a, nPSample, new'.iCol)
      requires Kept(new'.iCol, n)
      modifies `a, `iMin
      ensures MinOk()
      ensures done ==> Between(sc, a, nPSample, new'.iCol - 1) && Kept(new'.iCol - 1, n)
      ensures done ==> Inserted(nCol, mxSample, old(a), old(iMin), new', a)
      ensures !done ==> a == old(a) && iMin == old(iMin) && forall k :: 0 <= k < |a| ==> a[k].anEq[new'.iCol] != 0
    {
      var c: int := new'.iCol;
      assert new'.anEq[c] > 0 by { SizeCoarser(sc.ch, c, c, Row(new')); }
      var periodic, iUpgrade := FindUpgrade(new');
      if periodic {
        ghost var p :| 0 <= p < |a| && a[p].isPSample && a[p].anEq[c] == 0;
        PeriodicRepresents(sc, a, nPSample, c, p);
        PeriodicCovers(sc, a, mxSample, nPSample, c, p);
        return true;
      }
      if iUpgrade >= 0 {
        Upgrade(new', iUpgrade, n);
        assert TakesOver(nCol, old(a), new'.iCol, new'.anEq[c], a, iUpgrade);
      }
      done := iUpgrade >= 0;
    }

    /** Lines 578-582 */
    method Upgrade(new': Sample, iUpgrade: nat, ghost n: nat)
      requires Configured() && MinOk() && Candidate(sc, new', new'.iCol) && Between(sc, a, nPSample, new'.iCol)
      requires Kept(new'.iCol, n) && iUpgrade < |a| && a[iUpgrade].anEq[new'.iCol] == 0
      requires forall k :: 0 <= k < |a| && a[k].anEq[new'.iCol] == 0 ==> !a[k].isPSample && !Better(a[k], a[iUpgrade])
      modifies `a, `iMin
      ensures a == old(a)[iUpgrade := Upgraded(old(a)[iUpgrade], new'.iCol, new'.anEq[new'.iCol])]
      ensures MinOk() && Between(sc, a, nPSample, new'.iCol - 1) && Kept(new'.iCol - 1, n)
    {
      UpgradeKeeps(sc, a, nPSample, new'.iCol, new', iUpgrade);
      UpgradeKept(sc, a, mxSample, nPSample, new'.iCol, new', iUpgrade, n);
      a := a[iUpgrade := Upgraded(a[iUpgrade], new'.iCol, new'.anEq[new'.iCol])];
      RoomForMin(new'.iCol - 1);
      FindNewMin();
    }

    /** Lines 587-600 */
    method MakeRoom()
      requires |a| <= mxSample && (|a| == mxSample ==> 0 <= iMin < |a|)
      modifies `a
      ensures a == if |old(a)| < mxSample then old(a) else Without(old(a), iMin)
    {
      if |a| >= mxSample {
        a := Without(a, iMin);
      }
    }

    /** Lines 586-616, with the assert of line 606 */
    method Place(new': Sample, nEqZero: nat)
      requires |a| <= mxSample && (|a| == mxSample ==> 0 <= iMin < |a|)
      requires AllShaped(nCol, a) && Shaped(nCol, new') && nEqZero <= nCol
      requires forall k :: 0 <= k < |a| ==> Row(a[k]) < Row(new')
      modifies `a
      ensures a == Placed(old(a), mxSample, iMin, Zeroed(new', nEqZero))
    {
      MakeRoom();
      assert a == [] || new'.anLt[nCol - 1] > a[|a| - 1].anLt[nCol - 1];
      a := a + [Zeroed(new', nEqZero)];
    }

    /** Lines 586-631 for a candidate */
    method AppendCandidate(new': Sample, i: nat, ghost n: nat)
      requires Configured() && MinOk() && Candidate(sc, new', i) && Samples(sc, a, nPSample, i) && Kept(i, n)
      requires |a| == mxSample ==> Better(new', a[iMin])
      requires forall k :: 0 <= k < |a| ==> a[k].anEq[i] != 0
      modifies `a, `iMin
      ensures MinOk() && Between(sc, a, nPSample, i - 1) && Kept(i - 1, n)
      ensures a == Placed(old(a), mxSample, old(iMin), Zeroed(new', i))
    {
      CandidatePlaced(sc, a, mxSample, nPSample, i, new', iMin, n);
      Place(new', i);
      RoomForMin(i - 1);
      FindNewMin();
    }

    /** Lines 586-631 for a periodic sample */
    method AppendPeriodic(new': Sample, nEqZero: nat)
      requires Configured() && MinOk() && new'.isPSample && PeriodicDue(new') && nEqZero == nCol - 1
      requires Kept(nCol - 2, Row(new'))
      modifies `a, `iMin
      ensures MinOk() && Samples(sc, a, nPSample, nCol - 2) && Kept(nCol - 2, Row(new') + 1)
      ensures a == Placed(old(a), mxSample, old(iMin), Zeroed(new', nEqZero))
    {
      PlacePeriodic(new', nEqZero);
      RoomForMin(nCol - 2);
      FindNewMin();
    }

    method PlacePeriodic(new': Sample, nEqZero: nat)
      requires Configured() && MinOk() && new'.isPSample && PeriodicDue(new') && nEqZero == nCol - 1
      requires Kept(nCol - 2, Row(new'))
      modifies `a
      ensures |a| <= mxSample && Samples(sc, a, nPSample, nCol - 2) && Kept(nCol - 2, Row(new') + 1)
      ensures a == Placed(old(a), mxSample, iMin, Zeroed(new', nEqZero))
    {
      PeriodicPlaced(sc, a, mxSample, nPSample, new', iMin);
      Place(new', nEqZero);
    }

    /** The newest row is one of the periodic ones and not sampled yet. */
    ghost predicate PeriodicDue(s: Sample)
      requires Configured()
      reads this
    {
      && Samples(sc, a, nPSample, nCol - 2)
      && Describes(sc, s) && Row(s) == |sc.ch| - 1 && s.anEq[nCol - 1] == 1
      && (Row(s) + 1) % nPSample == 0
      && forall k :: 0 <= k < |a| ==> Row(a[k]) < Row(s)
    }

    lemma RoomForMin(i: int)
      requires Configured() && Samples(sc, a, nPSample, i)
      ensures |a| == mxSample ==> exists k :: 0 <= k < |a| && !a[k].isPSample
    {
      if |a| == mxSample { SomeNonPeriodic(sc, a, mxSample, nRowEst, i); }
    }

    /** One turn of the first loop of samplePushPrevious. */
    method OfferBest(i: nat)
      requires Configured() && MinOk() && i < nCol - 1 && Between(sc, a, nPSample, i) && Kept(i, nRow)
      requires CurrentOk(sc, current) && BestOk(sc, aBest[i], i)
      modifies `a, `iMin, `aBest
      ensures Configured() && MinOk() && Between(sc, a, nPSample, i - 1) && Kept(i - 1, nRow)
      ensures forall k :: 0 <= k < nCol && k != i ==> aBest[k] == old(aBest[k])
      ensures Candidate(sc, aBest[i], i)
      ensures if |old(a)| < mxSample || Better(aBest[i], old(a)[old(iMin)])
        then Inserted(nCol, mxSample, old(a), old(iMin), aBest[i], a) else a == old(a)
    {
      BestIsCandidate(sc, aBest[i], i, current);
      var best := aBest[i].(anEq := aBest[i].anEq[i := current.anEq[i]]);
      aBest := aBest[i := best];
      InsertIfBetter(best, i, nRow);
    }

    /** Lines 650-652 */
    method InsertIfBetter(best: Sample, i: nat, ghost n: nat)
      requires Configured() && MinOk() && Candidate(sc, best, i) && Between(sc, a, nPSample, i) && Kept(i, n)
      modifies `a, `iMin
      ensures MinOk() && Between(sc, a, nPSample, i - 1) && Kept(i - 1, n)
      ensures if |old(a)| < mxSample || Better(best, old(a)[old(iMin)])
        then Inserted(nCol, mxSample, old(a), old(iMin), best, a) else a == old(a)
    {
      var insert := |a| < mxSample;
      if !insert { insert := SampleIsBetter(best, a[iMin]); }
      if insert {
        SampleInsert(best, i, n);
      } else {
        SkipKeeps(sc, a, nPSample, i, best, iMin);
        SkipCovers(sc, a, mxSample, nPSample, i, best, iMin);
      }
    }

    /** The first loop of samplePushPrevious. */
    method OfferBests(iChng: nat)
      requires Valid() && nRow > 0 && iChng < nCol
      modifies `a, `iMin, `aBest
      ensures Configured() && MinOk() && Samples(sc, a, nPSample, iChng - 1) && Kept(iChng - 1, nRow)
      ensures forall i :: 0 <= i < iChng && i < nCol - 1 ==> aBest[i] == old(aBest[i])
    {
      var i := nCol - 2;
      while i >= iChng
        invariant iChng - 1 <= i <= nCol - 2 || i == nCol - 2
        invariant Configured() && MinOk() && Between(sc, a, nPSample, i) && Kept(i, nRow)
        invariant forall k :: 0 <= k <= i ==> aBest[k] == old(aBest[k])
      {
        assert BestOk(sc, aBest[i], i);
        OfferBest(i);
        i := i - 1;
      }
    }

    /** The second loop of samplePushPrevious. */
    method FillCounts(iChng: nat)
      requires AllShaped(nCol, a) && Shaped(nCol, current) && iChng <= nCol
      modifies `a
      ensures AreFilled(old(a), a, current, iChng)
    {
      var i := |a| - 1;
      while i >= 0
        invariant -1 <= i < |a| == |old(a)|
        invariant forall k :: 0 <= k <= i ==> a[k] == old(a)[k]
        invariant forall k :: i < k < |a| ==> a[k] == Filled(old(a)[k], current, iChng)
      {
        var anEq := a[i].anEq;
        for j := iChng to nCol
          invariant |anEq| == nCol
          invariant forall m :: 0 <= m < nCol ==>
            anEq[m] == (if iChng <= m < j && a[i].anEq[m] == 0 then current.anEq[m] else a[i].anEq[m])
        {
          if anEq[j] == 0 { anEq := anEq[j := current.anEq[j]]; }
        }
        assert anEq == Filled(a[i], current, iChng).anEq;
        a := a[i := a[i].(anEq := anEq)];
        i := i - 1;
      }
    }

    /** samplePushPrevious: the samples of the rows so far, brought up to date for a change of
        column iChng. */
    method SamplePushPrevious(iChng: nat) returns (ghost mid: seq<Sample>)
      requires Valid() && nRow > 0 && iChng < nCol
      modifies `a, `iMin, `aBest
      ensures Configured() && MinOk()
      ensures Samples(sc, mid, nPSample, iChng - 1) && AreFilled(mid, a, current, iChng)
      ensures AllCovered(sc, mid, mxSample, iChng - 1) && AllPeriods(nCol, a, nPSample, nRow)
      ensures forall i :: 0 <= i < iChng && i < nCol - 1 ==> aBest[i] == old(aBest[i])
    {
      OfferBests(iChng);
      mid := a;
      FillCounts(iChng);
      FillKeepsPeriodic(mid, a, current, iChng);
      PeriodsStay(nCol, mid, a, nPSample, nRow);
      if |a| == mxSample { FilledWorst(sc, mid, a, nPSample, current, iChng, iMin); }
    }

    /** Lines 732-741 */
    method AdvanceCounters(iChng: nat)
      requires Shaped(nCol, current) && iChng < nCol
      modifies `current
      ensures current == Stat4Steps.Advance(old(current), iChng)
    {
      for i := 0 to iChng
        invariant Shaped(nCol, current) && current == old(current).(anEq := current.anEq)
        invariant forall j :: 0 <= j < nCol ==>
          current.anEq[j] == old(current).anEq[j] + (if j < i then 1 else 0)
      {
        current := current.(anEq := current.anEq[i := current.anEq[i] + 1]);
      }
      ghost var was := old(current);
      for i := iChng to nCol
        invariant Shaped(nCol, current)
        invariant current == was.(anEq := current.anEq, anLt := current.anLt, anDLt := current.anDLt)
        invariant forall j :: 0 <= j < i ==> current.anEq[j] == Stat4Steps.Advance(was, iChng).anEq[j]
        invariant forall j :: i <= j < nCol ==> current.anEq[j] == was.anEq[j]
        invariant forall j :: 0 <= j < nCol ==>
          current.anLt[j] == (if j < i then Stat4Steps.Advance(was, iChng).anLt[j] else was.anLt[j])
        invariant forall j :: 0 <= j < nCol ==>
          current.anDLt[j] == (if j < i then Stat4Steps.Advance(was, iChng).anDLt[j] else was.anDLt[j])
      {
        current := current.(anDLt := current.anDLt[i := current.anDLt[i] + 1]);
        current := current.(anLt := current.anLt[i := current.anLt[i] + current.anEq[i]]);
        current := current.(anEq := current.anEq[i := 1]);
      }
      assert current.anEq == Stat4Steps.Advance(was, iChng).anEq;
      assert current.anLt == Stat4Steps.Advance(was, iChng).anLt;
      assert current.anDLt == Stat4Steps.Advance(was, iChng).anDLt;
    }

    /** statPush. The row count given to statInit bounds the number of calls. */
    method StatPush(iChng: nat, rowid: Rowid, iHash: nat)
      requires Valid() && iChng < nCol && nRow < nRowEst
      modifies this
      ensures Valid() && sc == Push(old(sc), iChng, rowid)
    {
      ghost var prev := sc;
      NextRow(iChng, rowid, iHash);
      PeriodicSample();
      UpdateBests(iChng, prev, rowid);
    }

    /** Lines 723-752 */
    method NextRow(iChng: nat, rowid: Rowid, iHash: nat)
      requires Valid() && iChng < nCol && nRow < nRowEst
      modifies this
      ensures Configured() && MinOk() && sc == Push(old(sc), iChng, rowid) && iGet == old(iGet)
      ensures CurrentOk(sc, current) && Samples(sc, a, nPSample, nCol - 2) && Kept(nCol - 2, nRow - 1)
      ensures forall k :: 0 <= k < |a| ==> Row(a[k]) < nRow - 1
      ensures forall i :: 0 <= i < nCol - 1 ==> BestBefore(old(sc), aBest[i], i, iChng)
    {
      if nRow == 0 {
        FirstRow();
      } else {
        Advance(iChng, rowid);
      }
      nRow := nRow + 1;
      current := current.(rowid := rowid, iHash := iHash);
      if nRow > 1 { AdvanceKeeps(sc, old(current), iChng, rowid, current); }
      sc := Push(sc, iChng, rowid);
      if nRow == 1 { assert Row(current) == 0; }
    }

    /** Lines 728-741: the samples and the counters, made ready for the next row. */
    method Advance(iChng: nat, ghost rowid: Rowid)
      requires Valid() && nRow > 0 && iChng < nCol
      modifies `a, `iMin, `aBest, `current
      ensures Configured() && MinOk() && current == Stat4Steps.Advance(old(current), iChng)
      ensures Samples(Push(sc, iChng, rowid), a, nPSample, nCol - 2)
      ensures AllCovered(Push(sc, iChng, rowid), a, mxSample, nCol - 2) && AllPeriods(nCol, a, nPSample, nRow)
      ensures forall k :: 0 <= k < |a| ==> Row(a[k]) < nRow
      ensures forall i :: 0 <= i < iChng && i < nCol - 1 ==> aBest[i] == old(aBest[i])
    {
      ghost var mid := SamplePushPrevious(iChng);
      FilledSamples(sc, mid, a, nPSample, current, iChng, rowid);
      FillCovers(sc, mid, a, mxSample, nPSample, current, iChng, rowid);
      AdvanceCounters(iChng);
    }

    method FirstRow()
      requires Valid() && nRow == 0
      modifies `current
      ensures current == old(current).(anEq := current.anEq) && |current.anEq| == nCol
      ensures forall j :: 0 <= j < nCol ==> current.anEq[j] == 1
    {
      for i := 0 to nCol
        invariant |current.anEq| == nCol && current == old(current).(anEq := current.anEq)
        invariant forall j :: 0 <= j < i ==> current.anEq[j] == 1
      {
        current := current.(anEq := current.anEq[i := 1]);
      }
    }

    /** Lines 756-764 */
    method PeriodicSample()
      requires Configured() && MinOk() && CurrentOk(sc, current) && Samples(sc, a, nPSample, nCol - 2)
      requires Kept(nCol - 2, nRow - 1) && forall k :: 0 <= k < |a| ==> Row(a[k]) < nRow - 1
      modifies `a, `iMin, `current
      ensures MinOk() && CurrentOk(sc, current) && Samples(sc, a, nPSample, nCol - 2) && Kept(nCol - 2, nRow)
      ensures current == old(current).(iCol := current.iCol)
    {
      var nLt := current.anLt[nCol - 1];
      assert nLt == Row(current) == nRow - 1;
      Arithmetic.NextQuotient(nLt, nPSample);
      if nLt / nPSample != (nLt + 1) / nPSample {
        current := current.(isPSample := true, iCol := 0);
        assert Row(current) == nLt;
        SampleInsert(current, nCol - 1, nLt);
        current := current.(isPSample := false);
        assert Row(current) == nLt;
      }
    }

    /** Lines 766-772 */
    method UpdateBests(iChng: nat, ghost prev: Scan, ghost id: Rowid)
      requires Configured() && iChng < nCol && CurrentOk(sc, current) && sc == Push(prev, iChng, id)
      requires forall i :: 0 <= i < nCol - 1 ==> BestBefore(prev, aBest[i], i, iChng)
      modifies `aBest, `current
      ensures |aBest| == nCol && BestsOk() && CurrentOk(sc, current)
    {
      for i := 0 to nCol - 1
        invariant |aBest| == nCol && CurrentOk(sc, current)
        invariant forall k :: i <= k < nCol ==> aBest[k] == old(aBest)[k]
        invariant forall k :: 0 <= k < i ==> BestOk(sc, aBest[k], k)
      {
        UpdateBest(i, iChng, prev, id);
      }
    }

    /** Lines 768-771 */
    method UpdateBest(i: nat, iChng: nat, ghost prev: Scan, ghost id: Rowid)
      requires sc.nCol == nCol && i < nCol - 1 && iChng < nCol && |aBest| == nCol
      requires CurrentOk(sc, current) && sc == Push(prev, iChng, id) && BestBefore(prev, aBest[i], i, iChng)
      modifies `aBest, `current
      ensures current == old(current).(iCol := i) && CurrentOk(sc, current)
      ensures |aBest| == nCol && BestOk(sc, aBest[i], i)
      ensures forall k :: 0 <= k < nCol && k != i ==> aBest[k] == old(aBest[k])
    {
      current := current.(iCol := i);
      assert Row(current) == old(Row(current));
      BestNext(prev, aBest[i], i, current, iChng, id);
      var copy := i >= iChng;
      if !copy {
        copy := SampleIsBetterPost(current, aBest[i]);
      }
      if copy { aBest := aBest[i := current]; }
    }

    /** statGet with STAT_GET_STAT1: the row count, then an estimate for each key column. */
    method StatGetStat1() returns (zRet: string, ghost ints: seq<nat>)
      requires Valid() && nRow > 0
      ensures |ints| == nKeyCol + 1 && ints[0] == nRow && zRet == Stat1Text.Join(ints)
      ensures forall i :: 0 <= i < nKeyCol ==> ints[i + 1] == Stat1Text.Estimate(nRow, current.anDLt[i] + 1)
    {
      zRet, ints := Stat1Text.Decimal(nRow), [nRow];
      for i := 0 to nKeyCol
        invariant |ints| == i + 1 && ints[0] == nRow && zRet == Stat1Text.Join(ints)
        invariant forall k :: 0 <= k < i ==> ints[k + 1] == Stat1Text.Estimate(nRow, current.anDLt[k] + 1)
      {
        assert current.anEq[i] > 0 by { SizeCoarser(sc.ch, i, i, nRow - 1); }
        var nDistinct := current.anDLt[i] + 1;
        var iVal := (nRow + nDistinct - 1) / nDistinct;
        Stat1Text.JoinSnoc(ints, iVal, 0);
        zRet := zRet + " " + Stat1Text.Decimal(iVal);
        ints := ints + [iVal];
      }
    }

    /** After the first STAT_GET_ROWID call. */
    ghost predicate Finished()
      reads this
    {
      && ScanOk(sc) && sc.nCol == nCol && iGet >= 0 && |a| <= mxSample == SQLITE_STAT4_SAMPLES
      && (forall k {:trigger a[k]} :: 0 <= k < |a| ==> Exact(sc, a[k]) && Chosen(sc, a[k]))
      && nPSample > 0 && AllCovered(sc, a, mxSample, -1) && AllPeriods(nCol, a, nPSample, |sc.ch|)
      && forall k, l :: 0 <= k < l < |a| ==> Row(a[k]) < Row(a[l])
    }

    /** statGet with STAT_GET_ROWID: the rowid of the next sample, if there is one left. */
    method StatGetRowid() returns (found: bool, rowid: Rowid)
      requires (Valid() && nRow > 0) || Finished()
      modifies `a, `iMin, `aBest, `iGet
      ensures Finished() && iGet == (if old(iGet) < 0 then 0 else old(iGet))
      ensures found == (iGet < |a|)
      ensures found ==> rowid == a[iGet].rowid
      ensures old(iGet) >= 0 ==> a == old(a)
    {
      if iGet < 0 {
        ghost var mid := SamplePushPrevious(0);
        forall k | 0 <= k < |a|
          ensures Exact(sc, a[k]) && Chosen(sc, a[k]) && Row(a[k]) == Row(mid[k])
        {
          FilledFinally(sc, mid[k], current);
          ChosenMoves(sc, mid[k], a[k]);
        }
        FinalCovers(sc, mid, a, mxSample, nPSample, current);
        iGet := 0;
      }
      found := iGet < |a|;
      rowid := if found then a[iGet].rowid else Integer(0);
    }
  }
}
