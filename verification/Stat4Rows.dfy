/** ANALYZE of one index (analyze.c): from the sorted rows of the index to exact statistics. */
module Stat4Rows {
  import opened Stat4Groups
  import opened Stat4Samples
  import opened Stat4Steps
  import opened Stat4Cover
  import opened Stat4
  import Stat1Text

  /** Index rows are compared column by column. */
  predicate LexLess(r: seq<int>, s: seq<int>)
    requires |r| == |s|
  {
    r != [] && (r[0] < s[0] || (r[0] == s[0] && LexLess(r[1..], s[1..])))
  }

  function FirstDiff(r: seq<int>, s: seq<int>): (d: nat)
    requires |r| == |s|
    ensures d <= |r|
  {
    if r == [] || r[0] != s[0] then 0 else 1 + FirstDiff(r[1..], s[1..])
  }

  ghost predicate IndexRows(nCol: nat, rows: seq<seq<int>>) {
    && nCol > 0
    && (forall k :: 0 <= k < |rows| ==> |rows[k]| == nCol)
    && (forall k :: 0 < k < |rows| ==> LexLess(rows[k - 1], rows[k]))
  }

  /** Columns 0..j of row x. */
  function Prefix(rows: seq<seq<int>>, j: nat, x: nat): seq<int>
    requires x < |rows| && j < |rows[x]|
  {
    rows[x][..j + 1]
  }

  /** The left-most changed columns that the generated program computes. */
  ghost predicate Changes(nCol: nat, rows: seq<seq<int>>, ch: seq<nat>)
    requires IndexRows(nCol, rows)
  {
    && |ch| <= |rows|
    && forall k :: 0 < k < |ch| ==> ch[k] == FirstDiff(rows[k - 1], rows[k])
  }

  lemma {:induction false} PrefixChange(r: seq<int>, s: seq<int>, j: nat)
    requires j < |r| == |s| && LexLess(r, s)
    ensures FirstDiff(r, s) < |r|
    ensures FirstDiff(r, s) > j <==> r[..j + 1] == s[..j + 1]
    ensures FirstDiff(r, s) <= j ==> LexLess(r[..j + 1], s[..j + 1])
  {
    var p, q := r[..j + 1], s[..j + 1];
    assert p == [r[0]] + p[1..] && q == [s[0]] + q[1..];
    if r[0] == s[0] {
      if j > 0 {
        PrefixChange(r[1..], s[1..], j - 1);
        assert p[1..] == r[1..][..j] && q[1..] == s[1..][..j];
      } else {
        PrefixChange(r[1..], s[1..], 0);
      }
    }
  }

  lemma {:induction false} LexTransitive(r: seq<int>, s: seq<int>, t: seq<int>)
    requires |r| == |s| == |t| && LexLess(r, s) && LexLess(s, t)
    ensures LexLess(r, t)
  {
    if r[0] == s[0] == t[0] { LexTransitive(r[1..], s[1..], t[1..]); }
  }

  lemma {:induction false} LexIrreflexive(r: seq<int>)
    ensures !LexLess(r, r)
  {
    if r != [] { LexIrreflexive(r[1..]); }
  }

  /** The group of row x and column j is a run of equal prefixes, and everything before the
      run has a smaller prefix. */
  lemma {:induction false} GroupBefore(nCol: nat, rows: seq<seq<int>>, ch: seq<nat>, j: nat, x: nat, y: nat)
    requires IndexRows(nCol, rows) && Changes(nCol, rows, ch) && j < nCol && y <= x < |ch|
    ensures Start(ch, j, x) <= y <==> Prefix(rows, j, y) == Prefix(rows, j, x)
    ensures y < Start(ch, j, x) <==> LexLess(Prefix(rows, j, y), Prefix(rows, j, x))
  {
    LexIrreflexive(Prefix(rows, j, x));
    if y < x {
      GroupBefore(nCol, rows, ch, j, x - 1, y);
      PrefixChange(rows[x - 1], rows[x], j);
      if ch[x] <= j && y < Start(ch, j, x - 1) {
        LexTransitive(Prefix(rows, j, y), Prefix(rows, j, x - 1), Prefix(rows, j, x));
      }
    }
  }

  lemma {:induction false} StartOrEnd(ch: seq<nat>, j: nat, x: nat, y: nat)
    requires x <= y < |ch|
    ensures y < End(ch, j, x) <==> Start(ch, j, y) <= x
    decreases |ch| - x
  {
    if x == y {
    } else if ch[x + 1] <= j {
      StartNotBefore(ch, j, x + 1, y);
    } else {
      StartOrEnd(ch, j, x + 1, y);
      if Start(ch, j, y) <= x + 1 { StartShared(ch, j, y, x + 1); }
    }
  }

  ghost function EqualRows(rows: seq<seq<int>>, j: nat, x: nat): set<nat>
    requires x < |rows| && forall k :: 0 <= k < |rows| ==> j < |rows[k]|
  {
    set y: nat | y < |rows| && Prefix(rows, j, y) == Prefix(rows, j, x)
  }

  ghost function SmallerRows(rows: seq<seq<int>>, j: nat, x: nat): set<nat>
    requires x < |rows| && forall k :: 0 <= k < |rows| ==> j < |rows[k]|
  {
    set y: nat | y < |rows| && LexLess(Prefix(rows, j, y), Prefix(rows, j, x))
  }

  ghost function SmallerPrefixes(rows: seq<seq<int>>, j: nat, x: nat): set<seq<int>>
    requires x < |rows| && forall k :: 0 <= k < |rows| ==> j < |rows[k]|
  {
    set y: nat | y in SmallerRows(rows, j, x) :: Prefix(rows, j, y)
  }

  function Interval(lo: nat, hi: nat): (s: set<nat>)
    ensures forall y :: y in s <==> lo <= y < hi
    ensures lo <= hi ==> |s| == hi - lo
  {
    if hi <= lo then {} else Interval(lo, hi - 1) + {hi - 1}
  }

  lemma EqualRowsAreTheGroup(nCol: nat, rows: seq<seq<int>>, ch: seq<nat>, j: nat, x: nat)
    requires IndexRows(nCol, rows) && Changes(nCol, rows, ch) && |ch| == |rows| && j < nCol && x < |rows|
    ensures EqualRows(rows, j, x) == Interval(Start(ch, j, x), End(ch, j, x))
    ensures |EqualRows(rows, j, x)| == Size(ch, j, x)
  {
    forall y: nat | y < |rows|
      ensures Prefix(rows, j, y) == Prefix(rows, j, x) <==> Start(ch, j, x) <= y < End(ch, j, x)
    {
      if y <= x {
        GroupBefore(nCol, rows, ch, j, x, y);
      } else {
        GroupBefore(nCol, rows, ch, j, y, x);
        StartOrEnd(ch, j, x, y);
      }
    }
  }

  lemma SmallerRowsComeBefore(nCol: nat, rows: seq<seq<int>>, ch: seq<nat>, j: nat, x: nat)
    requires IndexRows(nCol, rows) && Changes(nCol, rows, ch) && |ch| == |rows| && j < nCol && x < |rows|
    ensures SmallerRows(rows, j, x) == Interval(0, Start(ch, j, x))
    ensures |SmallerRows(rows, j, x)| == Start(ch, j, x)
  {
    forall y: nat | y < |rows|
      ensures LexLess(Prefix(rows, j, y), Prefix(rows, j, x)) <==> y < Start(ch, j, x)
    {
      if y <= x {
        GroupBefore(nCol, rows, ch, j, x, y);
      } else {
        GroupBefore(nCol, rows, ch, j, y, x);
        LexIrreflexive(Prefix(rows, j, x));
        if LexLess(Prefix(rows, j, y), Prefix(rows, j, x)) && LexLess(Prefix(rows, j, x), Prefix(rows, j, y)) {
          LexTransitive(Prefix(rows, j, x), Prefix(rows, j, y), Prefix(rows, j, x));
        }
      }
    }
  }

  ghost function FirstPrefixes(rows: seq<seq<int>>, j: nat, m: nat): (s: set<seq<int>>)
    requires m <= |rows| && forall k :: 0 <= k < |rows| ==> j < |rows[k]|
    ensures forall y :: 0 <= y < m ==> Prefix(rows, j, y) in s
  {
    if m == 0 then {} else FirstPrefixes(rows, j, m - 1) + {Prefix(rows, j, m - 1)}
  }

  lemma {:induction false} FirstPrefixOf(rows: seq<seq<int>>, j: nat, m: nat, p: seq<int>) returns (y: nat)
    requires m <= |rows| && forall k :: 0 <= k < |rows| ==> j < |rows[k]|
    requires p in FirstPrefixes(rows, j, m)
    ensures y < m && Prefix(rows, j, y) == p
  {
    if p == Prefix(rows, j, m - 1) { y := m - 1; } else { y := FirstPrefixOf(rows, j, m - 1, p); }
  }

  /** A run of equal prefixes adds one. */
  lemma {:induction false} RunAddsOne(rows: seq<seq<int>>, j: nat, lo: nat, hi: nat)
    requires lo < hi <= |rows| && forall k :: 0 <= k < |rows| ==> j < |rows[k]|
    requires forall y :: lo <= y < hi ==> Prefix(rows, j, y) == Prefix(rows, j, hi - 1)
    ensures FirstPrefixes(rows, j, hi) == FirstPrefixes(rows, j, lo) + {Prefix(rows, j, hi - 1)}
  {
    if lo < hi - 1 {
      assert Prefix(rows, j, hi - 2) == Prefix(rows, j, hi - 1);
      RunAddsOne(rows, j, lo, hi - 1);
    }
  }

  /** The group that row x ends has the only prefix that is not among the earlier ones. */
  lemma GroupAddsOne(nCol: nat, rows: seq<seq<int>>, ch: seq<nat>, j: nat, x: nat)
    requires IndexRows(nCol, rows) && Changes(nCol, rows, ch) && |ch| == |rows| && j < nCol && x < |rows|
    ensures |FirstPrefixes(rows, j, x + 1)| == |FirstPrefixes(rows, j, Start(ch, j, x))| + 1
  {
    var lo, p := Start(ch, j, x), Prefix(rows, j, x);
    forall y | 0 <= y <= x
      ensures lo <= y <==> Prefix(rows, j, y) == p
    {
      GroupBefore(nCol, rows, ch, j, x, y);
    }
    RunAddsOne(rows, j, lo, x + 1);
    if p in FirstPrefixes(rows, j, lo) { var y := FirstPrefixOf(rows, j, lo, p); }
  }

  lemma {:induction false} BreaksCountPrefixes(nCol: nat, rows: seq<seq<int>>, ch: seq<nat>, j: nat, x: nat)
    requires IndexRows(nCol, rows) && Changes(nCol, rows, ch) && |ch| == |rows| && j < nCol && x < |rows|
    ensures |FirstPrefixes(rows, j, Start(ch, j, x))| == Breaks(ch, j, x)
  {
    if x > 0 {
      BreaksCountPrefixes(nCol, rows, ch, j, x - 1);
      if ch[x] <= j {
        GroupAddsOne(nCol, rows, ch, j, x - 1);
      }
    }
  }

  lemma SmallerPrefixCount(nCol: nat, rows: seq<seq<int>>, ch: seq<nat>, j: nat, x: nat)
    requires IndexRows(nCol, rows) && Changes(nCol, rows, ch) && |ch| == |rows| && j < nCol && x < |rows|
    ensures |SmallerPrefixes(rows, j, x)| == Breaks(ch, j, x)
  {
    var lo := Start(ch, j, x);
    BreaksCountPrefixes(nCol, rows, ch, j, x);
    SmallerRowsComeBefore(nCol, rows, ch, j, x);
    forall p | p in FirstPrefixes(rows, j, lo)
      ensures p in SmallerPrefixes(rows, j, x)
    {
      var y := FirstPrefixOf(rows, j, lo, p);
      assert y in SmallerRows(rows, j, x);
    }
    assert SmallerPrefixes(rows, j, x) == FirstPrefixes(rows, j, lo);
  }

  // ---- the program that analyzeOneTable generates, lines 1102-1248

  /** One entry of sqlite_stat4. */
  datatype Entry = Entry(rowid: Rowid, nEq: seq<nat>, nLt: seq<nat>, nDLt: seq<nat>)

  /** The documented meaning of an entry, exact in every column. */
  ghost predicate EntryOf(nCol: nat, rows: seq<seq<int>>, ids: seq<Rowid>, e: Entry, x: nat)
    requires IndexRows(nCol, rows)
  {
    && x < |rows| == |ids| && e.rowid == ids[x]
    && |e.nEq| == |e.nLt| == |e.nDLt| == nCol
    && forall j :: 0 <= j < nCol ==>
         && e.nEq[j] == |EqualRows(rows, j, x)|
         && e.nLt[j] == |SmallerRows(rows, j, x)|
         && e.nDLt[j] == |SmallerPrefixes(rows, j, x)|
  }

  lemma ExactEntry(nCol: nat, rows: seq<seq<int>>, sc: Scan, s: Sample)
    requires IndexRows(nCol, rows) && Changes(nCol, rows, sc.ch) && |sc.ch| == |rows| && sc.nCol == nCol
    requires Exact(sc, s)
    ensures EntryOf(nCol, rows, sc.ids, Entry(s.rowid, s.anEq, s.anLt, s.anDLt), Row(s))
  {
    forall j | 0 <= j < nCol
      ensures s.anEq[j] == |EqualRows(rows, j, Row(s))|
      ensures s.anLt[j] == |SmallerRows(rows, j, Row(s))|
      ensures s.anDLt[j] == |SmallerPrefixes(rows, j, Row(s))|
    {
      EqualRowsAreTheGroup(nCol, rows, sc.ch, j, Row(s));
      SmallerRowsComeBefore(nCol, rows, sc.ch, j, Row(s));
      SmallerPrefixCount(nCol, rows, sc.ch, j, Row(s));
    }
  }

  /** How many distinct values the left-most j + 1 columns take. */
  ghost function DistinctCount(rows: seq<seq<int>>, j: nat): nat
    requires forall k :: 0 <= k < |rows| ==> j < |rows[k]|
  {
    |FirstPrefixes(rows, j, |rows|)|
  }

  lemma BreaksGiveDistinct(nCol: nat, rows: seq<seq<int>>, ch: seq<nat>, j: nat)
    requires IndexRows(nCol, rows) && Changes(nCol, rows, ch) && |ch| == |rows| > 0 && j < nCol
    ensures Breaks(ch, j, |rows| - 1) + 1 == DistinctCount(rows, j)
  {
    BreaksCountPrefixes(nCol, rows, ch, j, |rows| - 1);
    GroupAddsOne(nCol, rows, ch, j, |rows| - 1);
  }

  // ---- the tests for a changed column that it generates, lines 1110-1166

  /** The values in a column are given by their ranks, and NULL comes first. */
  const NULL: int := 0

  /** What the schema says of the rows: a key that is UNIQUE and NOT NULL tells all of them apart, and
      one that is UNIQUE those that have no NULL in it. */
  ghost predicate Promised(nCol: nat, nKeyCol: nat, uniqNotNull: bool, unique: bool, rows: seq<seq<int>>)
    requires IndexRows(nCol, rows)
  {
    && (forall k, i :: 0 <= k < |rows| && 0 <= i < nCol ==> NULL <= rows[k][i])
    && forall k :: 1 <= k < |rows| ==>
         nKeyCol <= FirstDiff(rows[k - 1], rows[k]) ==> !uniqNotNull && (unique ==> HasNull(rows[k], nKeyCol))
  }

  predicate HasNull(row: seq<int>, n: nat) {
    exists i :: 0 <= i < n && i < |row| && row[i] == NULL
  }

  /** nColTest */
  function ColTest(nCol: nat, nKeyCol: nat, uniqNotNull: bool): (n: nat)
    requires 0 < nKeyCol <= nCol
    ensures n < nCol
  {
    if uniqNotNull then nKeyCol - 1 else nCol - 1
  }

  lemma {:induction false} FirstDiffMeans(r: seq<int>, s: seq<int>)
    requires |r| == |s|
    ensures forall i :: 0 <= i < FirstDiff(r, s) ==> r[i] == s[i]
    ensures FirstDiff(r, s) < |r| ==> r[FirstDiff(r, s)] != s[FirstDiff(r, s)]
  {
    if r != [] && r[0] == s[0] {
      FirstDiffMeans(r[1..], s[1..]);
      forall i | 0 <= i < FirstDiff(r, s) ensures r[i] == s[i] {
        assert i > 0 ==> r[1..][i - 1] == r[i] && s[1..][i - 1] == s[i];
      }
    }
  }

  lemma TestsFindFirstDiff(r: seq<int>, s: seq<int>, n: nat, d: nat)
    requires d <= n < |r| == |s| && FirstDiff(r, s) <= n
    requires forall j :: 0 <= j < d ==> r[j] == s[j]
    requires d < n ==> r[d] != s[d]
    ensures d == FirstDiff(r, s)
  {
    FirstDiffMeans(r, s);
  }

  /** regPrev holds the tested columns of the row before; or, when a single UNIQUE column has had a
      value, some value, and no test is made any more. */
  ghost predicate Loaded(regPrev: array<int>, n: nat, skip: bool, row: seq<int>, chng: nat)
    reads regPrev
  {
    && n <= regPrev.Length && n < |row| && (skip ==> n == 1) && (n == 0 ==> chng == 0)
    && if skip && regPrev[0] != NULL then chng == 0 && row[0] != NULL
       else forall j :: 0 <= j < n ==> regPrev[j] == row[j]
  }

  /** next_row: the tests of the first n columns, or none. */
  method TestColumns(regPrev: array<int>, n: nat, skip: bool, row: seq<int>, regChng: nat) returns (chng: nat)
    requires n <= regPrev.Length && n < |row| && (skip ==> n == 1)
    modifies regPrev
    ensures n == 0 || (skip && old(regPrev[0]) != NULL) ==> chng == regChng && regPrev[..] == old(regPrev[..])
    ensures n > 0 && !(skip && old(regPrev[0]) != NULL) ==>
      && chng <= n && (forall j :: 0 <= j < chng ==> row[j] == old(regPrev[j]))
      && (chng < n ==> row[chng] != old(regPrev[chng]))
      && forall j :: 0 <= j < n ==> regPrev[j] == row[j]
  {
    chng := regChng;
    if n > 0 && !(skip && regPrev[0] != NULL) {
      chng := 0;
      while chng < n && row[chng] == regPrev[chng]
        invariant chng <= n && forall j :: 0 <= j < chng ==> row[j] == regPrev[j]
      {
        chng := chng + 1;
      }
      Load(regPrev, n, row, chng);
    }
  }

  /** chng_addr_chng */
  method Load(regPrev: array<int>, n: nat, row: seq<int>, chng: nat)
    requires chng <= n <= regPrev.Length && n < |row|
    modifies regPrev
    ensures forall j :: 0 <= j < chng ==> regPrev[j] == old(regPrev[j])
    ensures forall j :: chng <= j < n ==> regPrev[j] == row[j]
  {
    for j := chng to n
      invariant forall i :: 0 <= i < chng ==> regPrev[i] == old(regPrev[i])
      invariant forall i :: chng <= i < j ==> regPrev[i] == row[i]
    {
      regPrev[j] := row[j];
    }
  }

  /** The tests find the left-most changed column of the whole row, though they look at fewer columns
      and, on a single UNIQUE column, stop looking. */
  method NextChange(regPrev: array<int>, nKeyCol: nat, uniqNotNull: bool, unique: bool, rows: seq<seq<int>>, k: nat,
                    regChng: nat, ghost nCol: nat)
    returns (chng: nat)
    requires IndexRows(nCol, rows) && 0 < nKeyCol <= nCol && 0 < k < |rows|
    requires Promised(nCol, nKeyCol, uniqNotNull, unique, rows)
    requires LoadedUpTo(regPrev, nCol, nKeyCol, uniqNotNull, unique, rows, k, regChng)
    modifies regPrev
    ensures chng == FirstDiff(rows[k - 1], rows[k])
    ensures LoadedUpTo(regPrev, nCol, nKeyCol, uniqNotNull, unique, rows, k + 1, chng)
  {
    var r, s := rows[k - 1], rows[k];
    var n, skip := ColTest(|r|, nKeyCol, uniqNotNull), Skips(|r|, nKeyCol, uniqNotNull, unique);
    PrefixChange(r, s, 0);
    FirstDiffMeans(r, s);
    assert FirstDiff(r, s) <= n;
    chng := TestColumns(regPrev, n, skip, s, regChng);
    if n > 0 && !(skip && old(regPrev[0]) != NULL) {
      TestsFindFirstDiff(r, s, n, chng);
    }
  }

  /** The condition of line 1133 */
  predicate Skips(nCol: nat, nKeyCol: nat, uniqNotNull: bool, unique: bool)
    requires 0 < nKeyCol <= nCol
  {
    ColTest(nCol, nKeyCol, uniqNotNull) == 1 && nKeyCol == 1 && unique
  }

  /** The first k rows have been pushed. */
  ghost predicate Pushed(p: Stat4Accum, nCol: nat, rows: seq<seq<int>>, ids: seq<Rowid>, k: nat)
    requires IndexRows(nCol, rows)
    reads p
  {
    && p.Valid() && p.nCol == nCol && p.nRowEst == |rows| == |ids| && k <= |rows|
    && p.sc.ids == ids[..k] && |p.sc.ch| == k && Changes(nCol, rows, p.sc.ch)
  }

  method PushRow(p: Stat4Accum, regChng: nat, nCol: nat, rows: seq<seq<int>>, ids: seq<Rowid>, k: nat, hash: nat)
    requires IndexRows(nCol, rows) && k < |rows| && Pushed(p, nCol, rows, ids, k)
    requires if k == 0 then regChng == 0 else regChng == FirstDiff(rows[k - 1], rows[k])
    modifies p
    ensures Pushed(p, nCol, rows, ids, k + 1)
  {
    if k > 0 {
      PrefixChange(rows[k - 1], rows[k], 0);
    }
    p.StatPush(regChng, ids[k], hash);
  }

  /** Push every row of the index. */
  method PushAll(nCol: nat, nKeyCol: nat, uniqNotNull: bool, unique: bool,
                 rows: seq<seq<int>>, ids: seq<Rowid>, hashes: seq<nat>)
    returns (p: Stat4Accum)
    requires IndexRows(nCol, rows) && 0 < nKeyCol <= nCol && |ids| == |hashes| == |rows|
    requires Promised(nCol, nKeyCol, uniqNotNull, unique, rows)
    ensures fresh(p) && Pushed(p, nCol, rows, ids, |rows|) && p.nKeyCol == nKeyCol
    ensures |rows| > 0 ==> EntryOf(nCol, rows, ids, EntryFor(p.current), |rows| - 1)
  {
    p := new Stat4Accum(nCol, nKeyCol, |rows|);
    var regPrev := new int[ColTest(nCol, nKeyCol, uniqNotNull)];
    var regChng := 0;
    for k := 0 to |rows|
      invariant fresh(p) && fresh(regPrev) && Pushed(p, nCol, rows, ids, k) && p.nKeyCol == nKeyCol
      invariant LoadedUpTo(regPrev, nCol, nKeyCol, uniqNotNull, unique, rows, k, regChng)
    {
      regChng := PushNext(p, regPrev, regChng, nCol, nKeyCol, uniqNotNull, unique, rows, ids, k, hashes[k]);
    }
    AllPushed(p, nCol, rows, ids);
  }

  ghost predicate LoadedUpTo(regPrev: array<int>, nCol: nat, nKeyCol: nat, uniqNotNull: bool, unique: bool,
                             rows: seq<seq<int>>, k: nat, chng: nat)
    requires 0 < nKeyCol <= nCol
    reads regPrev
  {
    var n := ColTest(nCol, nKeyCol, uniqNotNull);
    && n <= regPrev.Length && k <= |rows|
    && if k == 0 then chng == 0 else Loaded(regPrev, n, Skips(nCol, nKeyCol, uniqNotNull, unique), rows[k - 1], chng)
  }

  /** One turn of the loop. */
  method PushNext(p: Stat4Accum, regPrev: array<int>, regChng: nat, nCol: nat, nKeyCol: nat,
                  uniqNotNull: bool, unique: bool, rows: seq<seq<int>>, ids: seq<Rowid>, k: nat, hash: nat)
    returns (chng: nat)
    requires IndexRows(nCol, rows) && 0 < nKeyCol <= nCol && Promised(nCol, nKeyCol, uniqNotNull, unique, rows)
    requires k < |rows| && Pushed(p, nCol, rows, ids, k)
    requires LoadedUpTo(regPrev, nCol, nKeyCol, uniqNotNull, unique, rows, k, regChng)
    modifies p, regPrev
    ensures Pushed(p, nCol, rows, ids, k + 1)
    ensures LoadedUpTo(regPrev, nCol, nKeyCol, uniqNotNull, unique, rows, k + 1, chng)
  {
    chng := regChng;
    if k > 0 {
      chng := NextChange(regPrev, nKeyCol, uniqNotNull, unique, rows, k, regChng, nCol);
    } else {
      Load(regPrev, ColTest(nCol, nKeyCol, uniqNotNull), rows[k], 0);
    }
    PushRow(p, chng, nCol, rows, ids, k, hash);
  }

  /** The counters of the last row are exact as well. */
  lemma AllPushed(p: Stat4Accum, nCol: nat, rows: seq<seq<int>>, ids: seq<Rowid>)
    requires IndexRows(nCol, rows) && Pushed(p, nCol, rows, ids, |rows|)
    ensures |rows| > 0 ==> EntryOf(nCol, rows, ids, EntryFor(p.current), |rows| - 1)
  {
    assert ids[..|rows|] == ids;
    if |rows| > 0 {
      ExactEntry(nCol, rows, p.sc, p.current);
    }
  }

  /** The stat column of sqlite_stat1: the number of rows and, for each key column, the rows
      per distinct value of the columns up to it, rounded up. */
  ghost predicate Stat1Of(nKeyCol: nat, nCol: nat, rows: seq<seq<int>>, ints: seq<nat>)
    requires IndexRows(nCol, rows) && nKeyCol <= nCol
  {
    && |ints| == nKeyCol + 1 && ints[0] == |rows|
    && forall i :: 0 <= i < nKeyCol ==>
         DistinctCount(rows, i) > 0 && ints[i + 1] == Stat1Text.Estimate(|rows|, DistinctCount(rows, i))
  }

  lemma {:induction false} BreaksCoarser(ch: seq<nat>, i: nat, j: nat, x: nat)
    requires x < |ch| && i <= j
    ensures Breaks(ch, i, x) <= Breaks(ch, j, x) <= x
  {
    if x > 0 { BreaksCoarser(ch, i, j, x - 1); }
  }

  /** The estimates lie in 1..nRow, never increase along the columns, and end in 1 when the key
      columns alone tell the rows apart. */
  lemma Stat1Bounds(nKeyCol: nat, nCol: nat, rows: seq<seq<int>>, ch: seq<nat>, ints: seq<nat>, i: nat, j: nat)
    requires IndexRows(nCol, rows) && Changes(nCol, rows, ch) && |ch| == |rows| > 0
    requires nKeyCol <= nCol && Stat1Of(nKeyCol, nCol, rows, ints) && i <= j < nKeyCol
    ensures 1 <= ints[j + 1] <= ints[i + 1] <= |rows|
    ensures (ints[j + 1] - 1) * DistinctCount(rows, j) < |rows| <= ints[j + 1] * DistinctCount(rows, j)
    ensures DistinctCount(rows, j) == |rows| ==> ints[j + 1] == 1
  {
    BreaksGiveDistinct(nCol, rows, ch, i);
    BreaksGiveDistinct(nCol, rows, ch, j);
    BreaksCoarser(ch, i, j, |rows| - 1);
    Stat1Text.EstimateIsCeiling(|rows|, DistinctCount(rows, i));
    Stat1Text.EstimateIsCeiling(|rows|, DistinctCount(rows, j));
    Stat1Text.EstimateDecreases(|rows|, DistinctCount(rows, i), DistinctCount(rows, j));
  }

  method AnalyzeStat1(p: Stat4Accum, ghost rows: seq<seq<int>>) returns (zRet: string, ghost ints: seq<nat>)
    requires p.Valid() && IndexRows(p.nCol, rows) && Changes(p.nCol, rows, p.sc.ch) && |p.sc.ch| == |rows| > 0
    ensures Stat1Of(p.nKeyCol, p.nCol, rows, ints) && zRet == Stat1Text.Join(ints)
  {
    zRet, ints := p.StatGetStat1();
    forall i | 0 <= i < p.nKeyCol
      ensures p.current.anDLt[i] + 1 == DistinctCount(rows, i)
    {
      BreaksGiveDistinct(p.nCol, rows, p.sc.ch, i);
    }
  }

  function EntryFor(s: Sample): Entry {
    Entry(s.rowid, s.anEq, s.anLt, s.anDLt)
  }

  /** One in so many rows is sampled regardless of its contents. */
  function Period(nRow: nat): (p: nat)
    ensures p > 0 && 9 * (p - 1) <= nRow < 9 * p
  {
    nRow / (SQLITE_STAT4_SAMPLES / 3 + 1) + 1
  }

  /** The rows that agree with row x on columns 0..j have a sample among them that was kept for
      column j, for a column before it, or for its position; or else all places are taken by samples
      that were kept for as many rows at least. */
  ghost predicate GroupKept(nCol: nat, rows: seq<seq<int>>, kept: seq<Sample>, j: nat, x: nat)
    requires IndexRows(nCol, rows) && AllShaped(nCol, kept) && j < nCol && x < |rows|
  {
    || (exists k :: 0 <= k < |kept| && AgreesWith(nCol, rows, kept[k], j, x))
    || (|kept| == SQLITE_STAT4_SAMPLES && Outranked(nCol, kept, |EqualRows(rows, j, x)|, j))
  }

  ghost predicate AgreesWith(nCol: nat, rows: seq<seq<int>>, s: Sample, j: nat, x: nat)
    requires IndexRows(nCol, rows) && Shaped(nCol, s) && j < nCol && x < |rows|
  {
    Row(s) < |rows| && Prefix(rows, j, Row(s)) == Prefix(rows, j, x) && (s.isPSample || s.iCol <= j)
  }

  /** The row is the last with its columns 0..j. */
  ghost predicate LastOf(rows: seq<seq<int>>, j: nat, x: nat)
    requires x < |rows| && forall k :: 0 <= k < |rows| ==> j < |rows[k]|
  {
    x + 1 == |rows| || Prefix(rows, j, x + 1) != Prefix(rows, j, x)
  }

  /** For each column, how many rows are equal to row x up to it. */
  ghost function Sizes(nCol: nat, rows: seq<seq<int>>, x: nat): (s: seq<nat>)
    requires IndexRows(nCol, rows) && x < |rows|
    ensures |s| == nCol
  {
    seq(nCol, j requires 0 <= j < nCol => |EqualRows(rows, j, x)|)
  }

  /** Of the rows that agree with row x on columns 0..i, and are the last of those that agree with
      them on column i + 1 too, none has more rows like it in the left-most of the columns from i + 1
      on in which the numbers differ. */
  ghost predicate BestOfGroup(nCol: nat, rows: seq<seq<int>>, i: nat, x: nat)
    requires IndexRows(nCol, rows)
  {
    && i + 1 < nCol && x < |rows| && LastOf(rows, i + 1, x)
    && forall y :: 0 <= y < |rows| && Prefix(rows, i, y) == Prefix(rows, i, x) && LastOf(rows, i + 1, y) ==>
         !LexGreater(Sizes(nCol, rows, y), Sizes(nCol, rows, x), i + 1)
  }

  /** The sample is the best row of its group for the column that it was taken for, which is the one it
      is kept for now or a later one. */
  ghost predicate WellChosen(nCol: nat, rows: seq<seq<int>>, s: Sample)
    requires IndexRows(nCol, rows) && Shaped(nCol, s)
  {
    s.isPSample || exists i: nat :: s.iCol <= i && BestOfGroup(nCol, rows, i, Row(s))
  }

  lemma EndsGroupIsLast(nCol: nat, rows: seq<seq<int>>, sc: Scan, j: nat, x: nat)
    requires IndexRows(nCol, rows) && Changes(nCol, rows, sc.ch) && |sc.ch| == |rows| && j < nCol && x < |rows|
    ensures EndsGroup(sc, j, x) <==> LastOf(rows, j, x)
  {
    if x + 1 < |rows| {
      PrefixChange(rows[x], rows[x + 1], j);
    }
  }

  /** At the end of a group the counts are the numbers of equal rows. */
  lemma CountsAtEnd(nCol: nat, rows: seq<seq<int>>, sc: Scan, i: nat, x: nat)
    requires IndexRows(nCol, rows) && Changes(nCol, rows, sc.ch) && |sc.ch| == |rows| && sc.nCol == nCol
    requires i < nCol && x < |rows| && EndsGroup(sc, i, x)
    ensures SameTo(Sizes(nCol, rows, x), Counts(sc, x), i, nCol)
  {
    forall j | i <= j < nCol ensures Sizes(nCol, rows, x)[j] == Counts(sc, x)[j] {
      EqualRowsAreTheGroup(nCol, rows, sc.ch, j, x);
    }
  }

  lemma SamePrefixSameGroup(nCol: nat, rows: seq<seq<int>>, sc: Scan, j: nat, x: nat, y: nat)
    requires IndexRows(nCol, rows) && Changes(nCol, rows, sc.ch) && |sc.ch| == |rows| && j < nCol
    requires x < |rows| && y < |rows| && Prefix(rows, j, x) == Prefix(rows, j, y)
    ensures SameGroup(sc, j, x, y)
  {
    if y <= x {
      GroupBefore(nCol, rows, sc.ch, j, x, y);
      StartShared(sc.ch, j, x, y);
    } else {
      GroupBefore(nCol, rows, sc.ch, j, y, x);
      StartShared(sc.ch, j, y, x);
    }
  }

  lemma BestRowIsBest(nCol: nat, rows: seq<seq<int>>, sc: Scan, i: nat, x: nat)
    requires IndexRows(nCol, rows) && Changes(nCol, rows, sc.ch) && |sc.ch| == |rows| && sc.nCol == nCol
    requires i + 1 < nCol && BestRow(sc, i, x)
    ensures BestOfGroup(nCol, rows, i, x)
  {
    EndsGroupIsLast(nCol, rows, sc, i + 1, x);
    CountsAtEnd(nCol, rows, sc, i + 1, x);
    forall y | 0 <= y < |rows| && Prefix(rows, i, y) == Prefix(rows, i, x) && LastOf(rows, i + 1, y)
      ensures !LexGreater(Sizes(nCol, rows, y), Sizes(nCol, rows, x), i + 1)
    {
      SamePrefixSameGroup(nCol, rows, sc, i, x, y);
      EndsGroupIsLast(nCol, rows, sc, i + 1, y);
      CountsAtEnd(nCol, rows, sc, i + 1, y);
      LexSame(Sizes(nCol, rows, y), Sizes(nCol, rows, x), Counts(sc, y), Counts(sc, x), i + 1);
    }
  }

  lemma ChosenIsWellChosen(nCol: nat, rows: seq<seq<int>>, sc: Scan, s: Sample)
    requires IndexRows(nCol, rows) && Changes(nCol, rows, sc.ch) && |sc.ch| == |rows| && sc.nCol == nCol
    requires Shaped(nCol, s) && Chosen(sc, s)
    ensures WellChosen(nCol, rows, s)
  {
    if !s.isPSample {
      var i: nat :| ChosenFor(sc, s, i);
      BestRowIsBest(nCol, rows, sc, i, Row(s));
    }
  }

  /** The samples are exact, in index order, and the right ones. */
  ghost predicate WellSampled(nCol: nat, rows: seq<seq<int>>, ids: seq<Rowid>, kept: seq<Sample>)
    requires IndexRows(nCol, rows)
  {
    && |kept| <= SQLITE_STAT4_SAMPLES && AllShaped(nCol, kept)
    && (forall k :: 0 <= k < |kept| ==> EntryOf(nCol, rows, ids, EntryFor(kept[k]), Row(kept[k])))
    && (forall k :: 0 <= k < |kept| ==> WellChosen(nCol, rows, kept[k]))
    && (forall k, l :: 0 <= k < l < |kept| ==> Row(kept[k]) < Row(kept[l]))
    && (forall x :: 0 <= x < |rows| && (x + 1) % Period(|rows|) == 0 ==> HasPeriodic(nCol, kept, x))
    && forall j, x :: 0 <= j < nCol - 1 && 0 <= x < |rows| ==> GroupKept(nCol, rows, kept, j, x)
  }

  lemma FinishedIsWellSampled(p: Stat4Accum, rows: seq<seq<int>>)
    requires IndexRows(p.nCol, rows) && Changes(p.nCol, rows, p.sc.ch) && |p.sc.ch| == |rows|
    requires p.Finished() && p.nPSample == Period(|rows|)
    ensures WellSampled(p.nCol, rows, p.sc.ids, p.a)
  {
    forall k | 0 <= k < |p.a|
      ensures EntryOf(p.nCol, rows, p.sc.ids, EntryFor(p.a[k]), Row(p.a[k])) && WellChosen(p.nCol, rows, p.a[k])
    {
      ExactEntry(p.nCol, rows, p.sc, p.a[k]);
      ChosenIsWellChosen(p.nCol, rows, p.sc, p.a[k]);
    }
    forall j, x | 0 <= j < p.nCol - 1 && 0 <= x < |rows| ensures GroupKept(p.nCol, rows, p.a, j, x) {
      CoveredIsKept(p.nCol, rows, p.sc, p.a, j, x);
    }
  }

  lemma CoveredIsKept(nCol: nat, rows: seq<seq<int>>, sc: Scan, a: seq<Sample>, j: nat, x: nat)
    requires IndexRows(nCol, rows) && Changes(nCol, rows, sc.ch) && |sc.ch| == |rows| && sc.nCol == nCol
    requires AllShaped(nCol, a) && AllCovered(sc, a, SQLITE_STAT4_SAMPLES, -1) && j < nCol - 1 && x < |rows|
    ensures GroupKept(nCol, rows, a, j, x)
  {
    assert Covered(sc, a, SQLITE_STAT4_SAMPLES, j, x);
    if StoodFor(sc, a, j, x) {
      var k :| 0 <= k < |a| && Stands(sc, a[k], j, x);
      SameGroupSamePrefix(nCol, rows, sc, j, x, Row(a[k]));
      assert AgreesWith(nCol, rows, a[k], j, x);
    } else {
      EqualRowsAreTheGroup(nCol, rows, sc.ch, j, x);
    }
  }

  lemma SameGroupSamePrefix(nCol: nat, rows: seq<seq<int>>, sc: Scan, j: nat, x: nat, y: nat)
    requires IndexRows(nCol, rows) && Changes(nCol, rows, sc.ch) && |sc.ch| == |rows| && j < nCol
    requires SameGroup(sc, j, x, y)
    ensures Prefix(rows, j, x) == Prefix(rows, j, y)
  {
    if y <= x {
      GroupBefore(nCol, rows, sc.ch, j, x, y);
    } else {
      GroupBefore(nCol, rows, sc.ch, j, y, x);
    }
  }

  /** What ANALYZE stores for an index: the text of its sqlite_stat1 entry, and at most 24
      sqlite_stat4 entries. */
  method Analyze(nCol: nat, nKeyCol: nat, uniqNotNull: bool, unique: bool,
                 rows: seq<seq<int>>, ids: seq<Rowid>, hashes: seq<nat>)
    returns (stat1: string, entries: seq<Entry>, ghost ints: seq<nat>, ghost kept: seq<Sample>)
    requires IndexRows(nCol, rows) && 0 < nKeyCol <= nCol && |ids| == |hashes| == |rows|
    requires Promised(nCol, nKeyCol, uniqNotNull, unique, rows)
    ensures |rows| != 0 ==> Stat1Of(nKeyCol, nCol, rows, ints) && stat1 == Stat1Text.Join(ints)
    ensures |entries| == |kept| && forall k :: 0 <= k < |kept| ==> entries[k] == EntryFor(kept[k])
    ensures WellSampled(nCol, rows, ids, kept)
  {
    stat1, entries, ints, kept := "", [], [], [];
    if |rows| == 0 { return; }
    var p := PushAll(nCol, nKeyCol, uniqNotNull, unique, rows, ids, hashes);
    stat1, ints := AnalyzeStat1(p, rows);
    entries, kept := ReadSamples(p, rows);
  }

  /** Lines 1210-1248 */
  method ReadSamples(p: Stat4Accum, ghost rows: seq<seq<int>>) returns (entries: seq<Entry>, ghost kept: seq<Sample>)
    requires p.Valid() && p.nRow > 0 && p.nRowEst == |rows|
    requires IndexRows(p.nCol, rows) && Changes(p.nCol, rows, p.sc.ch) && |p.sc.ch| == |rows|
    modifies p
    ensures |entries| == |kept| && forall k :: 0 <= k < |kept| ==> entries[k] == EntryFor(kept[k])
    ensures WellSampled(p.nCol, rows, old(p.sc.ids), kept)
  {
    var found, rowid := p.StatGetRowid();
    kept := p.a;
    FinishedIsWellSampled(p, rows);
    entries := ReadOut(p, found, rowid);
  }

  /** The loop of lines 1223-1247. */
  method ReadOut(p: Stat4Accum, found: bool, rowid: Rowid) returns (entries: seq<Entry>)
    requires p.Finished() && p.iGet == 0 && found == (0 < |p.a|) && (found ==> rowid == p.a[0].rowid)
    modifies p
    ensures |entries| == |old(p.a)| && forall k :: 0 <= k < |entries| ==> entries[k] == EntryFor(old(p.a)[k])
  {
    entries := [];
    var more, id := found, rowid;
    while more
      invariant p.Finished() && 0 <= p.iGet <= |p.a| && more == (p.iGet < |p.a|) && p.a == old(p.a)
      invariant more ==> id == p.a[p.iGet].rowid
      invariant |entries| == p.iGet && forall k :: 0 <= k < |entries| ==> entries[k] == EntryFor(p.a[k])
      decreases |p.a| - p.iGet
    {
      var s := p.a[p.iGet];
      entries := entries + [Entry(id, s.anEq, s.anLt, s.anDLt)];
      p.iGet := p.iGet + 1;
      more, id := p.StatGetRowid();
    }
  }
}
