/** destroyTable (build.c): the order in which the root pages of a dropped table and of its indices
    are destroyed, when destroying a root moves the largest root of the file into its place. */
module DestroyTable {

  /** Which b-tree has its root on which page. */
  type Disk = map<nat, nat>

  ghost function MaxPage(pages: set<nat>): (m: nat)
    requires pages != {}
    ensures m in pages && forall p <- pages :: p <= m
  {
    var p :| p in pages;
    if pages == {p} then p
    else
      var q := MaxPage(pages - {p});
      assert forall x <- pages :: x == p || x in pages - {p};
      if p < q then q else p
  }

  /** OP_Destroy r: the b-tree at r goes, and the one with the largest root takes over its page. */
  ghost function Destroy(d: Disk, r: nat): Disk
    requires r in d
  {
    var m := MaxPage(d.Keys);
    if m == r then d - {r} else (d - {m})[r := d[m]]
  }

  /** The number OP_Destroy leaves in its register: the root that moved, or 0. */
  ghost function Moved(d: Disk, r: nat): nat
    requires r in d
  {
    var m := MaxPage(d.Keys);
    if m == r then 0 else m
  }

  /** The update coded after each OP_Destroy: every entry with the moved root is given the new one. */
  ghost function Renumber(schema: map<nat, nat>, moved: nat, r: nat): (s: map<nat, nat>)
    ensures s.Keys == schema.Keys
  {
    map b | b in schema :: if moved != 0 && schema[b] == moved then r else schema[b]
  }

  /** From the i-th instruction on, each finds on its page the b-tree that was there at first. */
  ghost predicate Safe(d: Disk, ops: seq<nat>, i: nat, first: Disk)
    requires i <= |ops|
    decreases |ops| - i
  {
    i == |ops| || (
      && ops[i] in d && ops[i] in first && d[ops[i]] == first[ops[i]]
      && Safe(Destroy(d, ops[i]), ops, i + 1, first))
  }

  ghost function After(d: Disk, ops: seq<nat>, i: nat): Disk
    requires i <= |ops|
    decreases |ops| - i
  {
    if i == |ops| then d
    else if ops[i] in d then After(Destroy(d, ops[i]), ops, i + 1)
    else d
  }

  ghost function SchemaAfter(d: Disk, schema: map<nat, nat>, ops: seq<nat>, i: nat): (s: map<nat, nat>)
    requires i <= |ops|
    ensures s.Keys == schema.Keys
    decreases |ops| - i
  {
    if i == |ops| then schema
    else if ops[i] in d then
      SchemaAfter(Destroy(d, ops[i]), Renumber(schema, Moved(d, ops[i]), ops[i]), ops, i + 1)
    else schema
  }

  predicate Decreasing(ops: seq<nat>) {
    forall i, j :: 0 <= i < j < |ops| ==> ops[j] < ops[i]
  }

  predicate Injective(d: Disk) {
    forall p, q :: p in d && q in d && d[p] == d[q] ==> p == q
  }

  /** The pages still to be destroyed are as they were at first. */
  predicate Pending(d: Disk, ops: seq<nat>, i: nat, first: Disk) {
    forall j :: i <= j < |ops| ==> ops[j] in d && ops[j] in first && d[ops[j]] == first[ops[j]]
  }

  /** The schema has every b-tree that it lists and that is in the file on its page. It may still
      list ones that are gone, or have dropped ones that are still there. */
  predicate Located(d: Disk, schema: map<nat, nat>) {
    forall p :: p in d ==> p != 0 && (d[p] in schema ==> schema[d[p]] == p)
  }

  /** One destruction keeps every other b-tree, moving at most one of them. */
  lemma DestroyKeeps(d: Disk, r: nat)
    requires r in d && Injective(d)
    ensures var e := Destroy(d, r);
      Injective(e) && (forall b :: b in e.Values <==> b in d.Values && b != d[r])
  {
    var m, e := MaxPage(d.Keys), Destroy(d, r);
    forall b ensures b in e.Values <==> b in d.Values && b != d[r] {
      if b in e.Values {
        var p :| p in e && e[p] == b;
        assert b == d[if p == r then m else p];
      }
      if b in d.Values && b != d[r] {
        var p :| p in d && d[p] == b;
        var q := if p == m then r else p;
        assert q in e && e[q] == b;
      }
    }
  }

  lemma RenumberKeeps(d: Disk, schema: map<nat, nat>, r: nat)
    requires r in d && Located(d, schema)
    ensures Located(Destroy(d, r), Renumber(schema, Moved(d, r), r))
  {
  }

  lemma DestroyKeepsPending(d: Disk, ops: seq<nat>, i: nat, first: Disk)
    requires i < |ops| && Decreasing(ops) && Pending(d, ops, i, first)
    ensures Pending(Destroy(d, ops[i]), ops, i + 1, first)
  {
    var m := MaxPage(d.Keys);
    assert ops[i] <= m;
  }

  /** In decreasing order no pending root is ever moved. */
  lemma {:induction false} DecreasingIsSafe(d: Disk, ops: seq<nat>, i: nat, first: Disk)
    requires i <= |ops| && Decreasing(ops) && Pending(d, ops, i, first)
    ensures Safe(d, ops, i, first)
    decreases |ops| - i
  {
    if i < |ops| {
      DestroyKeepsPending(d, ops, i, first);
      DecreasingIsSafe(Destroy(d, ops[i]), ops, i + 1, first);
    }
  }

  /** A safe run destroys exactly the b-trees named by the list, and leaves every other one on the
      page where the renumbered schema has it. */
  lemma {:induction false} OthersSurvive(d: Disk, schema: map<nat, nat>, ops: seq<nat>, i: nat, first: Disk)
    requires i <= |ops| && Safe(d, ops, i, first) && Injective(d) && Located(d, schema)
    ensures Injective(After(d, ops, i)) && Located(After(d, ops, i), SchemaAfter(d, schema, ops, i))
    ensures forall b :: b in After(d, ops, i).Values <==> b in d.Values && !IsTarget(b, ops, i, first)
    decreases |ops| - i
  {
    if i < |ops| {
      DestroyKeeps(d, ops[i]);
      RenumberKeeps(d, schema, ops[i]);
      OthersSurvive(Destroy(d, ops[i]), Renumber(schema, Moved(d, ops[i]), ops[i]), ops, i + 1, first);
      TargetStep(ops, i, first);
    }
  }

  predicate IsTarget(b: nat, ops: seq<nat>, i: nat, first: Disk) {
    exists j :: i <= j < |ops| && ops[j] in first && first[ops[j]] == b
  }

  lemma TargetStep(ops: seq<nat>, i: nat, first: Disk)
    requires i < |ops| && ops[i] in first
    ensures forall b :: IsTarget(b, ops, i, first) <==> b == first[ops[i]] || IsTarget(b, ops, i + 1, first)
  {
    forall b ensures IsTarget(b, ops, i, first) <==> b == first[ops[i]] || IsTarget(b, ops, i + 1, first) {
      if b == first[ops[i]] {
        assert ops[i] in first;
      }
    }
  }

  /* ---------- No other order will do ---------- */

  ghost predicate SafeOnEveryDisk(ops: seq<nat>) {
    forall d: Disk :: (forall r <- ops :: r in d) ==> Safe(d, ops, 0, d)
  }

  /** Nothing ever comes back: a safe list finds all its roots in the file at the start. */
  lemma {:induction false} SafeHasAll(d: Disk, ops: seq<nat>, i: nat, first: Disk, j: nat)
    requires i <= j < |ops| && Safe(d, ops, i, first)
    ensures ops[j] in d
    decreases j - i
  {
    if i < j {
      SafeHasAll(Destroy(d, ops[i]), ops, i + 1, first, j);
    }
  }

  /** The file holds nothing but the pending roots. */
  predicate Exactly(d: Disk, ops: seq<nat>, i: nat) {
    && (forall j :: i <= j < |ops| ==> ops[j] in d)
    && (forall p :: p in d ==> exists j :: i <= j < |ops| && ops[j] == p)
  }

  /** The first root destroyed must be the largest: the page of the largest is gone afterwards. */
  lemma FirstIsLargest(d: Disk, ops: seq<nat>, i: nat, first: Disk)
    requires i < |ops| && Exactly(d, ops, i) && Safe(d, ops, i, first)
    ensures Destroy(d, ops[i]) == d - {ops[i]}
    ensures forall j :: i < j < |ops| ==> ops[j] in d - {ops[i]} && ops[j] < ops[i]
  {
    var m := MaxPage(d.Keys);
    assert m in d;
    var k :| i <= k < |ops| && ops[k] == m;
    assert m != ops[i] ==> m !in Destroy(d, ops[i]);
    forall j | i < j < |ops| ensures ops[j] in Destroy(d, ops[i]) {
      SafeHasAll(Destroy(d, ops[i]), ops, i + 1, first, j);
    }
  }

  lemma ExactlyTheRest(d: Disk, ops: seq<nat>, i: nat)
    requires i < |ops| && Exactly(d, ops, i)
    requires forall j :: i < j < |ops| ==> ops[j] in d - {ops[i]}
    ensures Exactly(d - {ops[i]}, ops, i + 1)
  {
  }

  predicate DecreasingFrom(ops: seq<nat>, i: nat) {
    forall j, k :: i <= j < k < |ops| ==> ops[k] < ops[j]
  }

  lemma {:induction false} SafeIsDecreasing(d: Disk, ops: seq<nat>, i: nat, first: Disk)
    requires i <= |ops| && Exactly(d, ops, i) && Safe(d, ops, i, first)
    ensures DecreasingFrom(ops, i)
    decreases |ops| - i
  {
    if i < |ops| {
      FirstIsLargest(d, ops, i, first);
      ExactlyTheRest(d, ops, i);
      SafeIsDecreasing(d - {ops[i]}, ops, i + 1, first);
      DecreasingStep(ops, i);
    }
  }

  lemma DecreasingStep(ops: seq<nat>, i: nat)
    requires i < |ops| && DecreasingFrom(ops, i + 1) && forall j :: i < j < |ops| ==> ops[j] < ops[i]
    ensures DecreasingFrom(ops, i)
  {
  }

  /** Largest first is not only enough, it is the only order that is safe in every file. */
  lemma SafeExactlyWhenDecreasing(ops: seq<nat>)
    ensures SafeOnEveryDisk(ops) <==> Decreasing(ops)
  {
    if Decreasing(ops) {
      forall d: Disk | forall r <- ops :: r in d ensures Safe(d, ops, 0, d) {
        DecreasingIsSafe(d, ops, 0, d);
      }
    }
    if SafeOnEveryDisk(ops) {
      var d := map r | r in ops :: r;
      SafeIsDecreasing(d, ops, 0, d);
    }
  }

  /* ---------- The instructions emitted ---------- */

  predicate IsRoot(r: nat, tab: nat, indices: seq<nat>) {
    r != 0 && (r == tab || r in indices)
  }

  /** destroyTable: each turn of the outer loop finds the largest root below the last one destroyed. */
  method DestroyTable(tab: nat, indices: seq<nat>) returns (ops: seq<nat>)
    ensures Decreasing(ops)
    ensures forall r :: r in ops <==> r != 0 && (r == tab || r in indices)
  {
    var destroyed: nat := 0;
    ops := [];
    while true
      invariant Decreasing(ops)
      invariant forall r :: r in ops <==> IsRoot(r, tab, indices) && 0 != destroyed <= r
      invariant destroyed == 0 <==> ops == []
      invariant ops != [] ==> ops[|ops| - 1] == destroyed
      decreases destroyed == 0, destroyed
    {
      var largest: nat := 0;
      if destroyed == 0 || tab < destroyed {
        largest := tab;
      }
      for i := 0 to |indices|
        invariant largest != 0 ==> IsRoot(largest, tab, indices) && (destroyed == 0 || largest < destroyed)
        invariant tab <= largest || !(destroyed == 0 || tab < destroyed)
        invariant forall j :: 0 <= j < i && (destroyed == 0 || indices[j] < destroyed) ==> indices[j] <= largest
      {
        if (destroyed == 0 || indices[i] < destroyed) && largest < indices[i] {
          largest := indices[i];
        }
      }
      if largest == 0 {
        return;
      }
      ops := ops + [largest];
      destroyed := largest;
    }
  }

  /** Dropping a table from a file: the instructions emitted hit only its own roots, and all of them,
      whatever else is in the file and wherever the roots are. */
  method DropTable(ghost d: Disk, ghost schema: map<nat, nat>, tab: nat, indices: seq<nat>) returns (ops: seq<nat>)
    requires Injective(d) && Located(d, schema)
    requires forall r :: r != 0 && (r == tab || r in indices) ==> r in d
    ensures Safe(d, ops, 0, d)
    ensures var e := After(d, ops, 0); Injective(e) && Located(e, SchemaAfter(d, schema, ops, 0))
    ensures forall b :: b in After(d, ops, 0).Values <==>
      exists p :: p in d && d[p] == b && !(p != 0 && (p == tab || p in indices))
  {
    ops := DestroyTable(tab, indices);
    DecreasingIsSafe(d, ops, 0, d);
    OthersSurvive(d, schema, ops, 0, d);
  }
}
