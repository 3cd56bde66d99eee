/** Samples of the STAT4 accumulator (analyze.c), their preference order, and the invariant
    that the sample array keeps while a column is being processed. */
module Stat4Samples {
  import opened Arithmetic
  import opened Stat4Groups

  datatype Rowid = Integer(rowid: int) | Key(record: seq<bv8>)

  datatype Sample = Sample(anEq: seq<nat>, anLt: seq<nat>, anDLt: seq<nat>,
                           rowid: Rowid, isPSample: bool, iCol: nat, iHash: nat)

  /** The rows pushed so far: number of columns, left-most changed columns, rowids. */
  datatype Scan = Scan(nCol: nat, ch: seq<nat>, ids: seq<Rowid>)

  ghost predicate ScanOk(sc: Scan) {
    && sc.nCol > 0 && |sc.ids| == |sc.ch|
    && forall k :: 0 <= k < |sc.ch| ==> sc.ch[k] < sc.nCol
  }

  function Push(sc: Scan, c: nat, id: Rowid): Scan {
    sc.(ch := sc.ch + [c], ids := sc.ids + [id])
  }

  predicate Shaped(nCol: nat, s: Sample) {
    nCol > 0 && |s.anEq| == |s.anLt| == |s.anDLt| == nCol && s.iCol < nCol
  }

  /** The number of rows before the sampled one. */
  function Row(s: Sample): nat
    requires |s.anLt| > 0
  {
    s.anLt[|s.anLt| - 1]
  }

  // ---- sampleIsBetterPost and sampleIsBetter

  predicate BetterPost(p: Sample, q: Sample, i: nat)
    requires |p.anEq| == |q.anEq| && i <= |p.anEq|
    decreases |p.anEq| - i
  {
    if i == |p.anEq| then p.iHash > q.iHash
    else p.anEq[i] > q.anEq[i] || (p.anEq[i] == q.anEq[i] && BetterPost(p, q, i + 1))
  }

  predicate Better(p: Sample, q: Sample)
    requires |p.anEq| == |q.anEq| && p.iCol < |p.anEq| && q.iCol < |q.anEq|
  {
    var eqP, eqQ := p.anEq[p.iCol], q.anEq[q.iCol];
    || eqP > eqQ
    || (eqP == eqQ && (p.iCol < q.iCol || (p.iCol == q.iCol && BetterPost(p, q, p.iCol + 1))))
  }

  /** In the left-most of the columns from i on in which the two differ, a is larger. */
  ghost predicate LexGreater(a: seq<nat>, b: seq<nat>, i: nat)
    requires |a| == |b|
  {
    exists m :: i <= m < |a| && a[m] > b[m] && SameTo(a, b, i, m)
  }

  predicate SameTo(a: seq<nat>, b: seq<nat>, i: nat, m: nat)
    requires m <= |a| == |b|
  {
    forall j :: i <= j < m ==> a[j] == b[j]
  }

  lemma LexStep(a: seq<nat>, b: seq<nat>, i: nat)
    requires i < |a| == |b|
    ensures LexGreater(a, b, i) <==> a[i] > b[i] || (a[i] == b[i] && LexGreater(a, b, i + 1))
  {
    if a[i] > b[i] {
      assert SameTo(a, b, i, i);
    }
    if a[i] == b[i] && LexGreater(a, b, i + 1) {
      var m :| i + 1 <= m < |a| && a[m] > b[m] && SameTo(a, b, i + 1, m);
      assert SameTo(a, b, i, m);
    }
    if LexGreater(a, b, i) {
      var m :| i <= m < |a| && a[m] > b[m] && SameTo(a, b, i, m);
      assert m > i ==> a[i] == b[i] && SameTo(a, b, i + 1, m);
    }
  }

  lemma {:induction false} LexWeak(a: seq<nat>, b: seq<nat>, c: seq<nat>, i: nat)
    requires |a| == |b| == |c|
    ensures LexGreater(a, b, i) ==> LexGreater(a, c, i) || LexGreater(c, b, i)
    ensures !(LexGreater(a, b, i) && LexGreater(b, a, i))
    decreases |a| - i
  {
    if i < |a| {
      LexStep(a, b, i);
      LexStep(a, c, i);
      LexStep(c, b, i);
      LexStep(b, a, i);
      LexWeak(a, b, c, i + 1);
    }
  }

  lemma {:induction false} LexSame(a: seq<nat>, b: seq<nat>, a': seq<nat>, b': seq<nat>, i: nat)
    requires |a| == |b| == |a'| == |b'| && SameTo(a, a', i, |a|) && SameTo(b, b', i, |a|)
    ensures LexGreater(a, b, i) == LexGreater(a', b', i)
    decreases |a| - i
  {
    if i < |a| {
      LexStep(a, b, i);
      LexStep(a', b', i);
      LexSame(a, b, a', b', i + 1);
    }
  }

  /** Of the counts from column i on the left-most different ones decide, and else the hashes. */
  lemma {:induction false} BetterPostMeans(p: Sample, q: Sample, i: nat)
    requires |p.anEq| == |q.anEq| && i <= |p.anEq|
    ensures BetterPost(p, q, i) <==>
      LexGreater(p.anEq, q.anEq, i) || (SameTo(p.anEq, q.anEq, i, |p.anEq|) && p.iHash > q.iHash)
    decreases |p.anEq| - i
  {
    if i < |p.anEq| {
      LexStep(p.anEq, q.anEq, i);
      BetterPostMeans(p, q, i + 1);
    }
  }

  /** A larger group is preferred; of equal ones that of the earlier column; then BetterPostMeans. */
  lemma BetterMeans(p: Sample, q: Sample)
    requires |p.anEq| == |q.anEq| && p.iCol < |p.anEq| && q.iCol < |q.anEq|
    ensures p.anEq[p.iCol] != q.anEq[q.iCol] ==> (Better(p, q) <==> p.anEq[p.iCol] > q.anEq[q.iCol])
    ensures p.anEq[p.iCol] == q.anEq[q.iCol] && p.iCol != q.iCol ==> (Better(p, q) <==> p.iCol < q.iCol)
    ensures p.anEq[p.iCol] == q.anEq[q.iCol] && p.iCol == q.iCol ==>
      (Better(p, q) <==>
        || LexGreater(p.anEq, q.anEq, p.iCol + 1)
        || (SameTo(p.anEq, q.anEq, p.iCol + 1, |p.anEq|) && p.iHash > q.iHash))
  {
    BetterPostMeans(p, q, p.iCol + 1);
  }

  lemma {:induction false} BetterPostWeak(p: Sample, q: Sample, r: Sample, i: nat)
    requires |p.anEq| == |q.anEq| == |r.anEq| && i <= |p.anEq|
    ensures BetterPost(p, q, i) ==> BetterPost(p, r, i) || BetterPost(r, q, i)
    ensures !(BetterPost(p, q, i) && BetterPost(q, p, i))
    decreases |p.anEq| - i
  {
    if i < |p.anEq| { BetterPostWeak(p, q, r, i + 1); }
  }

  /** The preference is a strict weak order: asymmetric, and a third sample can always be
      placed on one side of a strict preference. */
  lemma BetterWeak(p: Sample, q: Sample, r: Sample)
    requires |p.anEq| == |q.anEq| == |r.anEq|
    requires p.iCol < |p.anEq| && q.iCol < |p.anEq| && r.iCol < |p.anEq|
    ensures Better(p, q) ==> Better(p, r) || Better(r, q)
    ensures !(Better(p, q) && Better(q, p))
  {
    BetterPostWeak(p, q, r, p.iCol + 1);
  }

  lemma MostPreferredMoves(p: Sample, u: Sample, x: Sample)
    requires |p.anEq| == |u.anEq| == |x.anEq|
    requires p.iCol < |p.anEq| && u.iCol < |p.anEq| && x.iCol < |p.anEq|
    ensures Better(x, u) && !Better(p, u) ==> !Better(p, x)
    ensures Better(u, x) && !Better(u, p) ==> !Better(x, p)
    ensures !Better(p, p)
  {
    BetterWeak(p, x, u);
    BetterWeak(u, x, x);
    BetterWeak(x, p, u);
    BetterWeak(p, p, p);
  }

  /** Only anEq[iCol..] and iHash matter. */
  lemma {:induction false} BetterPostDependsOn(p: Sample, q: Sample, p': Sample, q': Sample, i: nat)
    requires |p.anEq| == |q.anEq| == |p'.anEq| == |q'.anEq| && i <= |p.anEq|
    requires p.iHash == p'.iHash && q.iHash == q'.iHash
    requires forall j :: i <= j < |p.anEq| ==> p.anEq[j] == p'.anEq[j] && q.anEq[j] == q'.anEq[j]
    ensures BetterPost(p, q, i) == BetterPost(p', q', i)
    decreases |p.anEq| - i
  {
    if i < |p.anEq| { BetterPostDependsOn(p, q, p', q', i + 1); }
  }

  // ---- what a sample says about the scan

  /** The sample was taken at row Row(s), and its less-than counts are those of that row. */
  ghost predicate Describes(sc: Scan, s: Sample) {
    && ScanOk(sc) && Shaped(sc.nCol, s)
    && Row(s) < |sc.ch| && s.rowid == sc.ids[Row(s)]
    && forall j :: 0 <= j < sc.nCol ==>
         s.anLt[j] == Start(sc.ch, j, Row(s)) && s.anDLt[j] == Breaks(sc.ch, j, Row(s))
  }

  /** anEq[j] is the exact number of equal rows, or 0 while that number can still grow. */
  ghost predicate EqOk(sc: Scan, s: Sample, j: nat)
    requires Describes(sc, s) && j < sc.nCol
  {
    if s.anEq[j] == 0 then j < sc.nCol - 1 && Open(sc.ch, j, Row(s))
    else s.anEq[j] == Size(sc.ch, j, Row(s))
  }

  ghost predicate Good(sc: Scan, s: Sample) {
    && Describes(sc, s)
    && (forall j :: 0 <= j < sc.nCol ==> EqOk(sc, s, j))
    && (!s.isPSample ==> s.iCol < sc.nCol - 1 && forall j :: s.iCol <= j < sc.nCol ==> s.anEq[j] > 0)
  }

  /** Up to column i every count of a prefix that is still current is 0. */
  ghost predicate Pending(sc: Scan, s: Sample, i: int)
    requires Describes(sc, s)
  {
    forall j :: 0 <= j <= i && j < sc.nCol - 1 && Open(sc.ch, j, Row(s)) ==> s.anEq[j] == 0
  }

  ghost predicate AllShaped(nCol: nat, a: seq<Sample>) {
    forall k {:trigger a[k]} :: 0 <= k < |a| ==> Shaped(nCol, a[k])
  }

  ghost predicate AllDescribe(sc: Scan, a: seq<Sample>) {
    forall k {:trigger a[k]} :: 0 <= k < |a| ==> Describes(sc, a[k])
  }

  ghost predicate Ordered(nCol: nat, a: seq<Sample>)
    requires AllShaped(nCol, a)
  {
    forall k, l :: 0 <= k < l < |a| ==> Row(a[k]) < Row(a[l])
  }

  /** Rows x and y have the same prefix up to column j. */
  ghost predicate SameGroup(sc: Scan, j: nat, x: nat, y: nat) {
    x < |sc.ch| && y < |sc.ch| && Start(sc.ch, j, x) == Start(sc.ch, j, y)
  }

  /** How many rows up to x, x included, agree with it in each of the columns. */
  function Counts(sc: Scan, x: nat): (s: seq<nat>)
    requires x < |sc.ch|
    ensures |s| == sc.nCol
  {
    seq(sc.nCol, j requires 0 <= j < sc.nCol => x + 1 - Start(sc.ch, j, x))
  }

  ghost predicate EndsGroup(sc: Scan, j: nat, x: nat)
    requires x < |sc.ch|
  {
    x + 1 == |sc.ch| || sc.ch[x + 1] <= j
  }

  /** The row ends a group of the next column, and no row of its group of column i had more rows like
      it, in the left-most of the later columns that makes a difference, when it was the last. */
  ghost predicate BestRow(sc: Scan, i: nat, x: nat) {
    && x < |sc.ch| && EndsGroup(sc, i + 1, x)
    && forall y {:trigger Counts(sc, y)} :: 0 <= y < |sc.ch| && SameGroup(sc, i, x, y) ==>
         !LexGreater(Counts(sc, y), Counts(sc, x), i + 1)
  }

  /** A non-periodic sample is a best row for its column or a later one. */
  ghost predicate Chosen(sc: Scan, s: Sample)
    requires |s.anLt| > 0
  {
    !s.isPSample ==> exists i: nat :: ChosenFor(sc, s, i)
  }

  ghost predicate ChosenFor(sc: Scan, s: Sample, i: nat)
    requires |s.anLt| > 0
  {
    s.iCol <= i < sc.nCol - 1 && BestRow(sc, i, Row(s))
  }

  /** The sample array with columns above i processed for the last row of the scan. */
  ghost predicate Samples(sc: Scan, a: seq<Sample>, nPSample: nat, i: int) {
    && nPSample > 0
    && (forall k {:trigger a[k]} :: 0 <= k < |a| ==> Good(sc, a[k]) && Pending(sc, a[k], i) && Chosen(sc, a[k]))
    && (forall k :: 0 <= k < |a| && a[k].isPSample ==> (Row(a[k]) + 1) % nPSample == 0)
    && Ordered(sc.nCol, a)
  }

  /** Some sample stands for the current prefix ending in column j. */
  ghost predicate Represented(sc: Scan, a: seq<Sample>, j: nat)
    requires AllDescribe(sc, a)
  {
    exists k :: 0 <= k < |a| && Open(sc.ch, j, Row(a[k])) && (a[k].isPSample || a[k].iCol <= j)
  }

  /** Among the columns already processed, a prefix that still awaits its count is represented. */
  ghost predicate Awaiting(sc: Scan, a: seq<Sample>, i: int)
    requires AllDescribe(sc, a)
  {
    forall j, k :: i < j < sc.nCol - 1 && 0 <= j && 0 <= k < |a| && a[k].anEq[j] == 0 ==> Represented(sc, a, j)
  }

  /** Once the array is full, iMin is a least preferred non-periodic sample. */
  ghost predicate IsWorst(nCol: nat, a: seq<Sample>, iMin: int)
    requires AllShaped(nCol, a)
  {
    && 0 <= iMin < |a| && !a[iMin].isPSample
    && forall k :: 0 <= k < |a| && !a[k].isPSample ==> !Better(a[iMin], a[k])
  }

  /** A candidate for column i: exact from column i on, taken in the current group of column i. */
  ghost predicate Candidate(sc: Scan, s: Sample, i: nat) {
    && Describes(sc, s) && i < sc.nCol - 1 && s.iCol == i && !s.isPSample
    && Open(sc.ch, i, Row(s)) && BestRow(sc, i, Row(s))
    && forall j :: i <= j < sc.nCol ==> s.anEq[j] == Size(sc.ch, j, Row(s))
  }

  // ---- the asserts at lines 571-572

  lemma CandidateWins(sc: Scan, new': Sample, i: nat, s: Sample)
    requires Candidate(sc, new', i) && Good(sc, s) && !s.isPSample && s.anEq[i] == 0
    ensures s.iCol > i && Better(new', s)
  {
    assert EqOk(sc, s, i) && EqOk(sc, s, s.iCol);
    SizeCoarser(sc.ch, i, s.iCol, Row(s));
    OpenSize(sc.ch, i, Row(s));
    OpenSize(sc.ch, i, Row(new'));
  }

  /** A sample that represents column j is preferred to one that still awaits it. */
  lemma RepresentativeWins(sc: Scan, z: Sample, y: Sample, j: nat)
    requires Good(sc, z) && Good(sc, y) && !z.isPSample && !y.isPSample
    requires j < sc.nCol && Open(sc.ch, j, Row(z)) && Open(sc.ch, j, Row(y))
    requires z.iCol <= j < y.iCol
    ensures Better(z, y)
  {
    assert EqOk(sc, z, z.iCol) && EqOk(sc, y, y.iCol);
    SizeCoarser(sc.ch, z.iCol, j, Row(z));
    SizeCoarser(sc.ch, j, y.iCol, Row(y));
    OpenSize(sc.ch, j, Row(z));
    OpenSize(sc.ch, j, Row(y));
  }

  // ---- at most mxSample/3 samples are periodic

  ghost function Periodic(a: seq<Sample>): nat {
    if a == [] then 0 else Periodic(a[..|a| - 1]) + (if a[|a| - 1].isPSample then 1 else 0)
  }

  lemma SomeFirst(sc: Scan, a: seq<Sample>, nPSample: nat, i: int, m: nat)
    requires Samples(sc, a, nPSample, i) && m <= |a|
    ensures Samples(sc, a[..m], nPSample, i)
  {
    assert forall k :: 0 <= k < m ==> a[..m][k] == a[k];
  }

  lemma {:induction false} PeriodicSpacing(sc: Scan, a: seq<Sample>, nPSample: nat, i: int)
    requires Samples(sc, a, nPSample, i) && a != []
    ensures Periodic(a) * nPSample <= Row(a[|a| - 1]) + 1
  {
    var m := |a| - 1;
    assert Good(sc, a[m]);
    if m > 0 {
      var b := a[..m];
      SomeFirst(sc, a, nPSample, i, m);
      PeriodicSpacing(sc, b, nPSample, i);
      assert Row(b[m - 1]) < Row(a[m]);
      if a[m].isPSample { AfterMultiple(Periodic(b), nPSample, Row(a[m]) + 1); }
    } else if a[m].isPSample {
      AfterMultiple(0, nPSample, Row(a[m]) + 1);
      assert a[..m] == [];
    }
  }

  /** A multiple of d above p * d is at least the next one. */
  lemma AfterMultiple(p: nat, d: nat, m: nat)
    requires d > 0 && m % d == 0 && p * d < m
    ensures (p + 1) * d <= m
  {
    Division(m, d);
    NextMultiple(p, m / d, d);
  }

  lemma {:induction false} AllPeriodic(a: seq<Sample>)
    requires forall k :: 0 <= k < |a| ==> a[k].isPSample
    ensures Periodic(a) == |a|
  {
    if a != [] { AllPeriodic(a[..|a| - 1]); }
  }

  /** The period that statInit chooses leaves room for a non-periodic sample. */
  lemma SomeNonPeriodic(sc: Scan, a: seq<Sample>, mxSample: nat, nRowEst: nat, i: int)
    requires mxSample > 0 && |a| == mxSample && |sc.ch| <= nRowEst
    requires Samples(sc, a, nRowEst / (mxSample / 3 + 1) + 1, i)
    ensures exists k :: 0 <= k < |a| && !a[k].isPSample
  {
    var nP := nRowEst / (mxSample / 3 + 1) + 1;
    assert Good(sc, a[|a| - 1]);
    PeriodicSpacing(sc, a, nP, i);
    if forall k :: 0 <= k < |a| ==> a[k].isPSample {
      AllPeriodic(a);
      TooManyPeriods(mxSample, nRowEst);
    }
  }

  lemma TooManyPeriods(mx: nat, n: nat)
    requires mx > 0
    ensures mx * (n / (mx / 3 + 1) + 1) > n
  {
    var d := mx / 3 + 1;
    Division(n, d);
    Monotone(d, mx, n / d + 1);
    Distribute(n / d + 1, 1, d);
  }
}
