/** The hash table of SQL functions (callback.c): buckets of definitions with different names, each
    the head of a chain of definitions that overload one name. */
module FuncTable {
  import opened Ascii
  import opened Sequences

  /** SQLITE_UTF8, SQLITE_UTF16LE or SQLITE_UTF16BE */
  type Encoding = e: int | 1 <= e <= 3 witness 1

  class FuncDef {
    const zName: string
    const nArg: int
    const enc: Encoding
    var xSFunc: bool
    var pNext: FuncDef?
    var pHash: FuncDef?

    /** A blank definition, as zeroed memory gives it. */
    constructor (zName: string, nArg: int, enc: Encoding)
      ensures this.zName == zName && this.nArg == nArg && this.enc == enc && !xSFunc
    {
      this.zName := zName;
      this.nArg := nArg;
      this.enc := enc;
      xSFunc := false;
      pNext := null;
      pHash := null;
    }

    predicate Named(name: string) {
      Lowered(zName) == name
    }
  }

  const BUCKETS: nat := 23

  /** The bucket of a name: its first letter, in lower case, plus its length. */
  function Hash(name: string): (h: nat)
    ensures h < BUCKETS
  {
    ((if |name| == 0 then 0 else Lower(name[0]) as int) + |name|) % BUCKETS
  }

  lemma HashIgnoresCase(name: string)
    ensures Hash(Lowered(name)) == Hash(name) && Lowered(Lowered(name)) == Lowered(name)
  {
  }

  /** What follows the k-th definition of a list. */
  function Succ(c: seq<FuncDef>, k: nat): FuncDef? {
    if k + 1 < |c| then c[k + 1] else null
  }

  /** The definitions of c are linked by pNext, in order, and overload the given name. */
  predicate Linked(c: seq<FuncDef>, name: string)
    reads c`pNext
  {
    && 0 < |c| && NoRepeats(c)
    && (forall k :: 0 <= k < |c| ==> c[k].Named(name))
    && forall k :: 0 <= k < |c| ==> c[k].pNext == Succ(c, k)
  }

  /** The chain of a name with one more definition: it comes second, or is the first of its name. */
  function Extended(c: seq<FuncDef>, def: FuncDef): (e: seq<FuncDef>)
    ensures |e| == |c| + 1 && e[if |c| == 0 then 0 else 1] == def && (|c| > 0 ==> e[0] == c[0])
    ensures forall k :: 2 <= k < |e| ==> e[k] == c[k - 1]
  {
    if |c| == 0 then [def] else [c[0], def] + c[1..]
  }

  lemma ExtendedMembers(c: seq<FuncDef>, def: FuncDef)
    ensures forall d: FuncDef :: d in Extended(c, def) <==> d in c || d == def
  {
    forall d: FuncDef ensures d in Extended(c, def) <==> d in c || d == def {
      if 0 < |c| {
        assert c == [c[0]] + c[1..];
      }
    }
  }

  lemma ExtendedShape(c: seq<FuncDef>, def: FuncDef)
    requires 0 < |c| && NoRepeats(c) && def !in c
    ensures var e := Extended(c, def);
      && NoRepeats(e) && Succ(e, 0) == def && Succ(e, 1) == Succ(c, 0)
      && (forall k :: 2 <= k < |e| ==> e[k] == c[k - 1] && Succ(e, k) == Succ(c, k - 1) && e[k] != c[0] && e[k] != def)
  {
    var e := Extended(c, def);
    assert forall k :: 2 <= k < |e| ==> e[k] == c[k - 1] && c[k - 1] in c;
  }

  method LinkSecond(def: FuncDef, other: FuncDef, ghost c: seq<FuncDef>, ghost name: string)
    requires Linked(c, name) && other == c[0] && def !in c && def.Named(name)
    modifies def`pNext, other`pNext
    ensures Linked(Extended(c, def), name)
  {
    ghost var e := Extended(c, def);
    ExtendedShape(c, def);
    assert other.pNext == Succ(c, 0);
    def.pNext := other.pNext;
    other.pNext := def;
    forall k | 2 <= k < |e| ensures e[k].Named(name) && e[k].pNext == Succ(e, k) {
      assert c[k - 1].Named(name) && old(c[k - 1].pNext) == Succ(c, k - 1);
    }
  }

  /** The heads of a bucket are linked by pHash, from first on. */
  predicate BucketLinked(list: seq<FuncDef>, first: FuncDef?)
    reads list`pHash
  {
    && NoRepeats(list)
    && first == (if 0 < |list| then list[0] else null)
    && forall b :: 0 <= b < |list| ==> list[b].pHash == Succ(list, b)
  }

  method LinkFirst(def: FuncDef, first: FuncDef?, ghost list: seq<FuncDef>)
    requires BucketLinked(list, first) && def !in list
    modifies def`pHash, def`pNext
    ensures BucketLinked([def] + list, def) && def.pNext == null
  {
    ghost var l := [def] + list;
    assert forall b :: 1 <= b < |l| ==> l[b] == list[b - 1] && list[b - 1] in list && l[b] != def;
    assert forall b :: 0 <= b < |list| ==> list[b] == l[b + 1];
    def.pNext := null;
    def.pHash := first;
  }

  /** The heads of the chains are filed in the bucket of their name, and nothing else is. */
  ghost predicate Filed(chains: map<string, seq<FuncDef>>, heads: seq<seq<FuncDef>>) {
    && |heads| == BUCKETS
    && (forall n :: n in chains ==> 0 < |chains[n]| && chains[n][0].Named(n) && chains[n][0] in heads[Hash(n)])
    && forall h, d :: 0 <= h < BUCKETS && d in heads[h] ==>
         var n := Lowered(d.zName);
         n in chains && Hash(n) == h && 0 < |chains[n]| && chains[n][0] == d
  }

  lemma FileFirst(chains: map<string, seq<FuncDef>>, heads: seq<seq<FuncDef>>, def: FuncDef)
    requires Filed(chains, heads) && Lowered(def.zName) !in chains
    ensures var n := Lowered(def.zName); Filed(chains[n := [def]], heads[Hash(n) := [def] + heads[Hash(n)]])
  {
  }

  lemma FileSecond(chains: map<string, seq<FuncDef>>, heads: seq<seq<FuncDef>>, n: string, c: seq<FuncDef>)
    requires Filed(chains, heads) && n in chains && 0 < |c| && c[0] == chains[n][0]
    ensures Filed(chains[n := c], heads)
  {
  }

  ghost predicate ChainsLinked(chains: map<string, seq<FuncDef>>, repr: set<FuncDef>)
    reads repr`pNext
  {
    forall n :: n in chains ==> (forall d <- chains[n] :: d in repr) && Linked(chains[n], n)
  }

  ghost predicate BucketsLinked(heads: seq<seq<FuncDef>>, slots: seq<FuncDef?>, repr: set<FuncDef>)
    reads repr`pHash
  {
    && |heads| == |slots|
    && forall h :: 0 <= h < |heads| ==> (forall d <- heads[h] :: d in repr) && BucketLinked(heads[h], slots[h])
  }

  /** functionSearch */
  method SearchBucket(first: FuncDef?, name: string, ghost list: seq<FuncDef>) returns (p: FuncDef?)
    requires BucketLinked(list, first)
    ensures p == null ==> forall d <- list :: !d.Named(Lowered(name))
    ensures p != null ==> p in list && p.Named(Lowered(name))
  {
    p := first;
    ghost var b: nat := 0;
    while p != null
      invariant b <= |list|
      invariant b < |list| ==> p == list[b]
      invariant b == |list| ==> p == null
      invariant forall i :: 0 <= i < b ==> !list[i].Named(Lowered(name))
      decreases |list| - b
    {
      if Lowered(p.zName) == Lowered(name) {
        return;
      }
      assert list[b].pHash == Succ(list, b);
      b := b + 1;
      p := p.pHash;
    }
  }

  ghost function ChainIn(chains: map<string, seq<FuncDef>>, name: string): seq<FuncDef> {
    if name in chains then chains[name] else []
  }

  /** The chains once a definition has been inserted. */
  ghost function Put(chains: map<string, seq<FuncDef>>, def: FuncDef): map<string, seq<FuncDef>> {
    var name := Lowered(def.zName);
    chains[name := Extended(ChainIn(chains, name), def)]
  }

  /** The whole table: what is on each chain, and on which bucket. */
  ghost predicate Table(chains: map<string, seq<FuncDef>>, heads: seq<seq<FuncDef>>, slots: seq<FuncDef?>,
                        repr: set<FuncDef>)
    reads repr`pNext, repr`pHash
  {
    Filed(chains, heads) && ChainsLinked(chains, repr) && BucketsLinked(heads, slots, repr)
  }

  /** One chain has changed. */
  lemma ChainReplaced(chains: map<string, seq<FuncDef>>, n: string, c: seq<FuncDef>, repr: set<FuncDef>)
    requires forall m :: m in chains && m != n ==> (forall d <- chains[m] :: d in repr) && Linked(chains[m], m)
    requires Linked(c, n) && forall d <- c :: d in repr
    ensures ChainsLinked(chains[n := c], repr)
  {
  }

  /** One bucket has changed. */
  lemma BucketReplaced(heads: seq<seq<FuncDef>>, slots: seq<FuncDef?>, h: nat, list: seq<FuncDef>, first: FuncDef,
                       repr: set<FuncDef>)
    requires h < |heads| == |slots|
    requires forall g :: 0 <= g < |heads| && g != h ==>
      (forall d <- heads[g] :: d in repr) && BucketLinked(heads[g], slots[g])
    requires BucketLinked(list, first) && forall d <- list :: d in repr
    ensures BucketsLinked(heads[h := list], slots[h := first], repr)
  {
  }

  /** A definition put second on the chain of its name. */
  method AddSecond(def: FuncDef, other: FuncDef, ghost chains: map<string, seq<FuncDef>>,
                   ghost heads: seq<seq<FuncDef>>, ghost slots: seq<FuncDef?>, ghost repr: set<FuncDef>)
    requires Table(chains, heads, slots, repr) && def !in repr
    requires Lowered(def.zName) in chains && other == chains[Lowered(def.zName)][0]
    modifies def`pNext, other`pNext
    ensures Table(chains[Lowered(def.zName) := Extended(chains[Lowered(def.zName)], def)], heads, slots, repr + {def})
  {
    ghost var n := Lowered(def.zName);
    ghost var c := chains[n];
    assert Linked(c, n) && other in c;
    LinkSecond(def, other, c, n);
    ExtendedMembers(c, def);
    forall m | m in chains && m != n ensures Linked(chains[m], m) {
      assert old(Linked(chains[m], m));
      assert forall k :: 0 <= k < |chains[m]| ==> chains[m][k].Named(m) && chains[m][k] in repr;
    }
    ChainReplaced(chains, n, Extended(c, def), repr + {def});
    assert BucketsLinked(heads, slots, repr);
    FileSecond(chains, heads, n, Extended(c, def));
  }

  /** A definition made the first of its bucket, alone on its chain. */
  method AddFirst(def: FuncDef, h: nat, a: array<FuncDef?>, ghost chains: map<string, seq<FuncDef>>,
                  ghost heads: seq<seq<FuncDef>>, ghost repr: set<FuncDef>)
    requires Table(chains, heads, a[..], repr) && def !in repr
    requires h == Hash(Lowered(def.zName)) && Lowered(def.zName) !in chains
    modifies def`pNext, def`pHash, a
    ensures Table(chains[Lowered(def.zName) := [def]], heads[h := [def] + heads[h]], a[..], repr + {def})
  {
    assert BucketLinked(heads[h], a[h]);
    LinkFirst(def, a[h], heads[h]);
    BucketReplaced(heads, a[..], h, [def] + heads[h], def, repr + {def});
    assert ChainsLinked(chains, repr) && Linked([def], Lowered(def.zName));
    ChainReplaced(chains, Lowered(def.zName), [def], repr + {def});
    a[h] := def;
    assert a[..] == old(a[..])[h := def];
    FileFirst(chains, heads, def);
  }

  class FuncDefHash {
    const a: array<FuncDef?>
    /** The overload chain of each name, in lower case. */
    ghost var chains: map<string, seq<FuncDef>>
    /** The heads of the chains in each bucket. */
    ghost var heads: seq<seq<FuncDef>>
    ghost var Repr: set<FuncDef>

    ghost predicate Valid()
      reads this, a, Repr
    {
      a.Length == BUCKETS && Table(chains, heads, a[..], Repr)
    }

    /** The definitions that overload a name. */
    ghost function Chain(name: string): seq<FuncDef>
      reads this
    {
      ChainIn(chains, Lowered(name))
    }

    constructor ()
      ensures Valid() && fresh(a) && Repr == {} && chains == map[]
    {
      a := new FuncDef?[BUCKETS](_ => null);
      chains := map[];
      heads := seq(BUCKETS, _ => []);
      Repr := {};
    }

    method Search(h: nat, name: string) returns (p: FuncDef?)
      requires Valid() && h == Hash(Lowered(name))
      ensures p == if Lowered(name) in chains then chains[Lowered(name)][0] else null
    {
      assert BucketLinked(heads[h], a[h]);
      p := SearchBucket(a[h], name, heads[h]);
    }

    /** sqlite3FuncDefInsert */
    method Insert(def: FuncDef)
      requires Valid() && def !in Repr
      modifies this, a, Repr`pNext, def`pNext, def`pHash
      ensures Valid() && Repr == old(Repr) + {def}
      ensures chains == Put(old(chains), def)
    {
      HashIgnoresCase(def.zName);
      var h := Hash(def.zName);
      var other := Search(h, def.zName);
      if other != null {
        InsertSecond(def, other);
      } else {
        InsertFirst(def, h);
      }
    }

    method InsertSecond(def: FuncDef, other: FuncDef)
      requires Valid() && def !in Repr && Lowered(def.zName) in chains && other == chains[Lowered(def.zName)][0]
      modifies this`chains, this`Repr, def`pNext, other`pNext
      ensures Valid() && Repr == old(Repr) + {def}
      ensures chains == old(chains)[Lowered(def.zName) := Extended(old(chains[Lowered(def.zName)]), def)]
    {
      ghost var n := Lowered(def.zName);
      chains := chains[n := Extended(chains[n], def)];
      Repr := Repr + {def};
      AddSecond(def, other, old(chains), heads, a[..], old(Repr));
    }

    method InsertFirst(def: FuncDef, h: nat)
      requires Valid() && def !in Repr && h == Hash(Lowered(def.zName)) && Lowered(def.zName) !in chains
      modifies this`chains, this`heads, this`Repr, a, def`pNext, def`pHash
      ensures Valid() && Repr == old(Repr) + {def}
      ensures chains == old(chains)[Lowered(def.zName) := [def]]
    {
      chains := chains[Lowered(def.zName) := [def]];
      heads := heads[h := [def] + heads[h]];
      Repr := Repr + {def};
      AddFirst(def, h, a, old(chains), old(heads), old(Repr));
    }
  }

  /** The chain of a name when a definition, of that or of another name, has been inserted. */
  function Grown(c: seq<FuncDef>, def: FuncDef, name: string): seq<FuncDef> {
    if def.Named(name) then Extended(c, def) else c
  }

  /** A chain after the first n of the definitions have been inserted. */
  function ChainAfter(c: seq<FuncDef>, defs: seq<FuncDef>, n: nat, name: string): seq<FuncDef>
    requires n <= |defs|
    decreases n
  {
    if n == 0 then c
    else Grown(ChainAfter(c, defs, n - 1, name), defs[n - 1], name)
  }

  lemma PutChain(chains: map<string, seq<FuncDef>>, def: FuncDef, name: string)
    ensures ChainIn(Put(chains, def), name) == Grown(ChainIn(chains, name), def, name)
  {
  }

  predicate AmongFirst(d: FuncDef, defs: seq<FuncDef>, n: nat) {
    exists k :: 0 <= k < n && k < |defs| && defs[k] == d
  }

  /** All definitions of one name, however it is spelt, are on one chain, behind the first one. */
  lemma {:induction false} OneChain(c: seq<FuncDef>, defs: seq<FuncDef>, n: nat, name: string)
    requires n <= |defs|
    ensures forall d: FuncDef ::
      d in ChainAfter(c, defs, n, name) <==> d in c || (AmongFirst(d, defs, n) && d.Named(name))
    ensures 0 < |c| ==> 0 < |ChainAfter(c, defs, n, name)| && ChainAfter(c, defs, n, name)[0] == c[0]
  {
    if 0 < n {
      OneChain(c, defs, n - 1, name);
      ExtendedMembers(ChainAfter(c, defs, n - 1, name), defs[n - 1]);
      assert forall d: FuncDef :: AmongFirst(d, defs, n) <==> AmongFirst(d, defs, n - 1) || d == defs[n - 1];
    }
  }

  /** The definitions from the n-th on are still to be inserted. */
  ghost predicate Waiting(table: FuncDefHash, defs: seq<FuncDef>, n: nat, all: set<FuncDef>)
    reads table
  {
    table.Repr <= all && forall k :: n <= k < |defs| ==> defs[k] in all && defs[k] !in table.Repr
  }

  ghost predicate HasChain(table: FuncDefHash, name: string, c: seq<FuncDef>, defs: seq<FuncDef>, n: nat)
    reads table
  {
    n <= |defs| && ChainIn(table.chains, name) == ChainAfter(c, defs, n, name)
  }

  method InsertNext(table: FuncDefHash, defs: seq<FuncDef>, n: nat, ghost all: set<FuncDef>, ghost name: string,
                    ghost c: seq<FuncDef>)
    requires table.Valid() && n < |defs| && NoRepeats(defs)
    requires Waiting(table, defs, n, all) && HasChain(table, name, c, defs, n)
    modifies table, table.a, all`pNext, all`pHash
    ensures table.Valid()
    ensures Waiting(table, defs, n + 1, all) && HasChain(table, name, c, defs, n + 1)
  {
    PutChain(table.chains, defs[n], name);
    table.Insert(defs[n]);
  }

  /** Any run of insertions leaves a well formed table in which any given name has the chain that it
      should have. */
  method InsertAll(table: FuncDefHash, defs: seq<FuncDef>, ghost all: set<FuncDef>, ghost name: string)
    requires table.Valid() && NoRepeats(defs) && Waiting(table, defs, 0, all)
    modifies table, table.a, all`pNext, all`pHash
    ensures table.Valid() && HasChain(table, name, old(ChainIn(table.chains, name)), defs, |defs|)
  {
    ghost var c := ChainIn(table.chains, name);
    var n: nat := 0;
    while n < |defs|
      invariant table.Valid()
      invariant Waiting(table, defs, n, all) && HasChain(table, name, c, defs, n)
    {
      InsertNext(table, defs, n, all, name, c);
      n := n + 1;
    }
  }
}
