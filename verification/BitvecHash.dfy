/** The open-addressed hash representation of a Bitvec (bitvec.c): 124 slots of which at
    least one is always empty, linear probing, and a full rebuild on removal. */
module BitvecHash {

  const NINT: nat := 124

  function Home(v: nat): (h: nat)
    requires v > 0
    ensures h < NINT
  {
    (v - 1) % NINT
  }

  function Next(h: nat): nat
    requires h < NINT
  {
    if h + 1 >= NINT then 0 else h + 1
  }

  /** How many times Next leads from slot h to slot k. */
  function Steps(h: nat, k: nat): nat
    requires h < NINT && k < NINT
  {
    if h <= k then k - h else k + NINT - h
  }

  /** Every slot that linear probing for v visits before h is occupied. */
  ghost predicate Chain(a: seq<nat>, v: nat, h: nat)
    requires |a| == NINT && v > 0 && h < NINT
  {
    forall k :: 0 <= k < NINT && Steps(Home(v), k) < Steps(Home(v), h) ==> a[k] != 0
  }

  ghost predicate Distinct(a: seq<nat>) {
    forall s, t :: 0 <= s < t < |a| && a[s] != 0 ==> a[s] != a[t]
  }

  function Used(a: seq<nat>): (n: nat)
    ensures n <= |a|
  {
    if a == [] then 0 else Used(a[..|a| - 1]) + (if a[|a| - 1] != 0 then 1 else 0)
  }

  function Members(a: seq<nat>): set<nat> {
    set v | v in a && v != 0
  }

  /** The hash invariant: nSet counts the occupied slots and leaves one free, entries are
      distinct, and each entry is reachable from its home slot. */
  ghost predicate Table(a: seq<nat>, nSet: nat) {
    && |a| == NINT
    && nSet == Used(a) < NINT
    && Distinct(a)
    && forall s :: 0 <= s < NINT && a[s] != 0 ==> Chain(a, a[s], s)
  }

  lemma {:induction false} UsedUpdate(a: seq<nat>, h: nat, v: nat)
    requires h < |a| && a[h] == 0 && v != 0
    ensures Used(a[h := v]) == Used(a) + 1
  {
    var b := a[h := v];
    var n := |a| - 1;
    if h == n {
      assert b[..n] == a[..n];
    } else {
      UsedUpdate(a[..n], h, v);
      assert b[..n] == a[..n][h := v];
    }
  }

  lemma {:induction false} FreeSlot(a: seq<nat>) returns (e: nat)
    requires Used(a) < |a|
    ensures e < |a| && a[e] == 0
  {
    var n := |a| - 1;
    if a[n] == 0 {
      e := n;
    } else {
      e := FreeSlot(a[..n]);
    }
  }

  lemma {:induction false} UsedZero(a: seq<nat>)
    requires forall k :: 0 <= k < |a| ==> a[k] == 0
    ensures Used(a) == 0
  {
    if a != [] { UsedZero(a[..|a| - 1]); }
  }

  lemma {:induction false} UsedPrefix(a: seq<nat>, j: nat)
    requires j < |a|
    ensures Used(a[..j]) + (if a[j] != 0 then 1 else 0) <= Used(a)
    decreases |a|
  {
    var n := |a| - 1;
    if j < n {
      UsedPrefix(a[..n], j);
      assert a[..n][..j] == a[..j];
    }
  }

  /** A probe that meets an empty slot proves absence. */
  lemma AbsentAfterMiss(a: seq<nat>, nSet: nat, v: nat, h: nat)
    requires Table(a, nSet) && v > 0 && h < NINT && a[h] == 0
    requires forall k :: 0 <= k < NINT && Steps(Home(v), k) < Steps(Home(v), h) ==> a[k] != v
    ensures v !in a
  {
    forall s | 0 <= s < NINT
      ensures a[s] != v
    {
      assert a[s] != 0 ==> Chain(a, a[s], s);
    }
  }

  /** Filling the free slot at the end of a probe keeps the invariant and adds one member. */
  lemma InsertKeepsTable(a: seq<nat>, nSet: nat, v: nat, h: nat)
    requires Table(a, nSet) && v > 0 && v !in a && h < NINT && a[h] == 0 && Chain(a, v, h)
    requires nSet + 1 < NINT
    ensures Table(a[h := v], nSet + 1)
    ensures Members(a[h := v]) == Members(a) + {v}
  {
    var b := a[h := v];
    UsedUpdate(a, h, v);
    forall s | 0 <= s < NINT && b[s] != 0
      ensures Chain(b, b[s], s)
    {
      assert Chain(a, b[s], s);
    }
    assert b[h] == v;
    forall x | x in Members(a)
      ensures x in b
    {
      var s :| 0 <= s < NINT && a[s] == x;
      assert b[s] == x;
    }
  }

  lemma EmptyTable(a: seq<nat>)
    requires |a| == NINT && forall k :: 0 <= k < NINT ==> a[k] == 0
    ensures Table(a, 0) && Members(a) == {}
  {
    UsedZero(a);
  }

  /** Linear probing for v: either its slot or the free slot where it belongs. */
  method Probe(a: array<nat>, v: nat, ghost nSet: nat) returns (found: bool, h: nat)
    requires Table(a[..], nSet) && v > 0
    ensures found == (v in a[..])
    ensures h < NINT && (found ==> a[h] == v) && (!found ==> a[h] == 0 && Chain(a[..], v, h))
  {
    ghost var e := FreeSlot(a[..]);
    h := Home(v);
    while a[h] != 0
      invariant h < NINT
      invariant forall k :: 0 <= k < NINT && Steps(Home(v), k) < Steps(Home(v), h) ==> a[k] != 0 && a[k] != v
      decreases Steps(h, e)
    {
      if a[h] == v { return true, h; }
      assert Steps(Home(v), e) >= Steps(Home(v), h);
      h := Next(h);
    }
    AbsentAfterMiss(a[..], nSet, v, h);
    found := false;
  }

  /** Lines 256-270: copy the slots out, zero them, and re-insert all values but one. */
  method Rebuild(a: array<nat>, skip: nat, ghost nSet: nat) returns (n: nat)
    requires Table(a[..], nSet)
    modifies a
    ensures Table(a[..], n)
    ensures Members(a[..]) == Members(old(a[..])) - {skip}
  {
    var vals := a[..];
    n := 0;
    Empty(a);
    for j := 0 to NINT
      invariant Table(a[..], n)
      invariant n <= Used(vals[..j])
      invariant Members(a[..]) == Members(vals[..j]) - {skip}
    {
      UsedPrefix(vals, j);
      MembersStep(vals, j);
      if vals[j] != 0 && vals[j] != skip {
        NotYetIn(vals, j, a[..], skip);
        n := InsertNew(a, vals[j], n);
      }
    }
    assert vals[..NINT] == vals;
  }

  method Empty(a: array<nat>)
    requires a.Length == NINT
    modifies a
    ensures Table(a[..], 0) && Members(a[..]) == {}
  {
    for k := 0 to NINT
      invariant forall m :: 0 <= m < k ==> a[m] == 0
    {
      a[k] := 0;
    }
    EmptyTable(a[..]);
  }

  /** Lines 262-268: a value that is not in the table goes to the end of its probe. */
  method InsertNew(a: array<nat>, v: nat, nSet: nat) returns (n: nat)
    requires Table(a[..], nSet) && v > 0 && v !in a[..] && nSet + 1 < NINT
    modifies a
    ensures Table(a[..], n) && n == nSet + 1
    ensures Members(a[..]) == Members(old(a[..])) + {v}
  {
    var found, h := Probe(a, v, nSet);
    InsertKeepsTable(a[..], nSet, v, h);
    a[h] := v;
    assert a[..] == old(a[..])[h := v];
    n := nSet + 1;
  }

  lemma MembersStep(vals: seq<nat>, j: nat)
    requires j < |vals|
    ensures Members(vals[..j + 1]) == Members(vals[..j]) + (if vals[j] != 0 then {vals[j]} else {})
    ensures Used(vals[..j + 1]) == Used(vals[..j]) + (if vals[j] != 0 then 1 else 0)
  {
    assert vals[..j + 1] == vals[..j] + [vals[j]];
    assert vals[..j + 1][..j] == vals[..j];
  }

  lemma NotYetIn(vals: seq<nat>, j: nat, a: seq<nat>, skip: nat)
    requires j < |vals| && Distinct(vals) && vals[j] != 0
    requires Members(a) == Members(vals[..j]) - {skip}
    ensures vals[j] !in a
  {
    assert vals[j] !in vals[..j];
    assert vals[j] !in Members(a);
  }
}
