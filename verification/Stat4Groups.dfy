/** Groups of equal prefixes in an index scan (analyze.c). A scan of n rows is given by
    ch[0..n): ch[k] is the left-most column in which row k differs from row k - 1. Row x
    shares columns 0..j with the rows Start(ch, j, x) .. End(ch, j, x) - 1 and no others. */
module Stat4Groups {

  function Start(ch: seq<nat>, j: nat, x: nat): (s: nat)
    requires x < |ch|
    ensures s <= x
  {
    if x == 0 || ch[x] <= j then x else Start(ch, j, x - 1)
  }

  function End(ch: seq<nat>, j: nat, x: nat): (e: nat)
    requires x < |ch|
    ensures x < e <= |ch|
    decreases |ch| - x
  {
    if x + 1 == |ch| || ch[x + 1] <= j then x + 1 else End(ch, j, x + 1)
  }

  function Size(ch: seq<nat>, j: nat, x: nat): nat
    requires x < |ch|
  {
    End(ch, j, x) - Start(ch, j, x)
  }

  /** How many groups begin in rows 1..x: the number of distinct smaller prefixes. */
  function Breaks(ch: seq<nat>, j: nat, x: nat): nat
    requires x < |ch|
  {
    if x == 0 then 0 else Breaks(ch, j, x - 1) + (if ch[x] <= j then 1 else 0)
  }

  /** Row x is in the same group as the last row scanned. */
  predicate Open(ch: seq<nat>, j: nat, x: nat)
    requires x < |ch|
  {
    Start(ch, j, |ch| - 1) <= x
  }

  lemma {:induction false} StartCoarser(ch: seq<nat>, i: nat, j: nat, x: nat)
    requires x < |ch| && i <= j
    ensures Start(ch, i, x) <= Start(ch, j, x)
  {
    if !(x == 0 || ch[x] <= j) { StartCoarser(ch, i, j, x - 1); }
  }

  lemma {:induction false} EndCoarser(ch: seq<nat>, i: nat, j: nat, x: nat)
    requires x < |ch| && i <= j
    ensures End(ch, j, x) <= End(ch, i, x)
    decreases |ch| - x
  {
    if !(x + 1 == |ch| || ch[x + 1] <= j) { EndCoarser(ch, i, j, x + 1); }
  }

  lemma {:induction false} StartShared(ch: seq<nat>, j: nat, x: nat, y: nat)
    requires y <= x < |ch| && Start(ch, j, x) <= y
    ensures Start(ch, j, y) == Start(ch, j, x)
  {
    if y < x { StartShared(ch, j, x - 1, y); }
  }

  lemma {:induction false} EndShared(ch: seq<nat>, j: nat, x: nat, y: nat)
    requires y <= x < |ch| && Start(ch, j, x) <= y
    ensures End(ch, j, y) == End(ch, j, x)
  {
    if y < x { EndShared(ch, j, x - 1, y); }
  }

  /** A finer group is no larger than a coarser one that shares a row of it. */
  lemma SizeCoarser(ch: seq<nat>, i: nat, j: nat, x: nat)
    requires x < |ch| && i <= j
    ensures 0 < Size(ch, j, x) <= Size(ch, i, x)
  {
    StartCoarser(ch, i, j, x);
    EndCoarser(ch, i, j, x);
  }

  lemma SizeShared(ch: seq<nat>, j: nat, x: nat, y: nat)
    requires y <= x < |ch| && Start(ch, j, x) <= y
    ensures Size(ch, j, y) == Size(ch, j, x)
  {
    StartShared(ch, j, x, y);
    EndShared(ch, j, x, y);
  }

  /** An open group has the size of the last row's group and reaches up to it. */
  lemma OpenSize(ch: seq<nat>, j: nat, x: nat)
    requires x < |ch| && Open(ch, j, x)
    ensures Size(ch, j, x) == Size(ch, j, |ch| - 1)
    ensures forall y :: x <= y < |ch| ==> Open(ch, j, y)
  {
    SizeShared(ch, j, |ch| - 1, x);
  }

  lemma OpenCoarser(ch: seq<nat>, i: nat, j: nat, x: nat)
    requires x < |ch| && i <= j && Open(ch, j, x)
    ensures Open(ch, i, x)
  {
    StartCoarser(ch, i, j, |ch| - 1);
  }

  lemma {:induction false} StartExtend(ch: seq<nat>, c: nat, j: nat, x: nat)
    requires x < |ch|
    ensures Start(ch + [c], j, x) == Start(ch, j, x)
    ensures Breaks(ch + [c], j, x) == Breaks(ch, j, x)
  {
    if x > 0 { StartExtend(ch, c, j, x - 1); }
  }

  /** The next row leaves a closed group alone; it closes or extends an open one. */
  lemma {:induction false} EndExtend(ch: seq<nat>, c: nat, j: nat, x: nat)
    requires x < |ch|
    ensures End(ch + [c], j, x) == if c <= j || !Open(ch, j, x) then End(ch, j, x) else End(ch, j, x) + 1
    decreases |ch| - x
  {
    var n := |ch|;
    if x + 1 < n {
      if ch[x + 1] <= j {
        StartNotBefore(ch, j, x + 1, n - 1);
      } else {
        EndExtend(ch, c, j, x + 1);
        OpenNeighbour(ch, j, x);
      }
    }
  }

  lemma {:induction false} StartNotBefore(ch: seq<nat>, j: nat, x: nat, y: nat)
    requires x <= y < |ch| && (x == 0 || ch[x] <= j)
    ensures x <= Start(ch, j, y)
  {
    if x < y { StartNotBefore(ch, j, x, y - 1); }
  }

  lemma OpenNeighbour(ch: seq<nat>, j: nat, x: nat)
    requires x + 1 < |ch| && ch[x + 1] > j
    ensures Open(ch, j, x + 1) <==> Open(ch, j, x)
  {
    if Open(ch, j, x + 1) { StartShared(ch, j, |ch| - 1, x + 1); }
  }

  lemma OpenExtend(ch: seq<nat>, c: nat, j: nat, x: nat)
    requires x < |ch|
    ensures Open(ch + [c], j, x) <==> j < c && Open(ch, j, x)
  {
    StartExtend(ch, c, j, |ch| - 1);
  }

  /** The next row changes the size of open groups it belongs to, and only of those. */
  lemma SizeExtend(ch: seq<nat>, c: nat, j: nat, x: nat)
    requires x < |ch|
    ensures Size(ch + [c], j, x) == if c <= j || !Open(ch, j, x) then Size(ch, j, x) else Size(ch, j, x) + 1
  {
    StartExtend(ch, c, j, x);
    EndExtend(ch, c, j, x);
  }
}
