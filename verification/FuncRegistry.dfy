/** Looking up, and creating, the definition of an SQL function (callback.c). */
module FuncRegistry {
  import opened Ascii
  import opened FuncTable

  const PERFECT: nat := 6

  /** matchQuality */
  function MatchQuality(p: FuncDef, nArg: int, enc: Encoding): (q: nat)
    reads p`xSFunc
  {
    if nArg == -2 then (if p.xSFunc then PERFECT else 0)
    else if p.nArg != nArg && p.nArg >= 0 then 0
    else (if p.nArg == nArg then 4 else 1) + (if enc == p.enc then 2 else if enc >= 2 && p.enc >= 2 then 1 else 0)
  }

  predicate Perfect(p: FuncDef, nArg: int, enc: Encoding) {
    p.nArg == nArg && p.enc == enc
  }

  /** The meaning of the scores: they rank the exact number of arguments above any number, then the
      same encoding above the other byte order above another width. */
  lemma QualityRanks(p: FuncDef, q: FuncDef, nArg: int, enc: Encoding)
    requires -1 <= nArg
    ensures MatchQuality(p, nArg, enc) <= PERFECT
    ensures MatchQuality(p, nArg, enc) == 0 <==> p.nArg != nArg && p.nArg >= 0
    ensures MatchQuality(p, nArg, enc) == PERFECT <==> Perfect(p, nArg, enc)
    ensures p.nArg == nArg && q.nArg != nArg ==> MatchQuality(q, nArg, enc) < MatchQuality(p, nArg, enc)
    ensures p.nArg == q.nArg && MatchQuality(q, nArg, enc) != 0 ==>
      (MatchQuality(q, nArg, enc) < MatchQuality(p, nArg, enc) <==>
        if p.enc == enc then q.enc != enc else q.enc == 1 && p.enc != 1 && enc != 1)
  {
  }

  /** With -2 for the number of arguments just the definitions that are implemented match. */
  lemma AnyArguments(p: FuncDef, enc: Encoding)
    ensures MatchQuality(p, -2, enc) == PERFECT <==> p.xSFunc
    ensures MatchQuality(p, -2, enc) == 0 <==> !p.xSFunc
  {
  }

  /** r is the first of the best matches on the chain, or null if nothing matches. */
  predicate IsBest(c: seq<FuncDef>, nArg: int, enc: Encoding, r: FuncDef?)
    reads c`xSFunc
  {
    if r == null then forall d <- c :: MatchQuality(d, nArg, enc) == 0
    else exists k :: 0 <= k < |c| && c[k] == r && FirstBest(c, nArg, enc, k)
  }

  predicate FirstBest(c: seq<FuncDef>, nArg: int, enc: Encoding, k: nat)
    requires k < |c|
    reads c`xSFunc
  {
    && 0 < MatchQuality(c[k], nArg, enc)
    && (forall j :: 0 <= j < k ==> MatchQuality(c[j], nArg, enc) < MatchQuality(c[k], nArg, enc))
    && forall j :: k <= j < |c| ==> MatchQuality(c[j], nArg, enc) <= MatchQuality(c[k], nArg, enc)
  }

  lemma BestIsUnique(c: seq<FuncDef>, nArg: int, enc: Encoding, r: FuncDef?, s: FuncDef?)
    requires IsBest(c, nArg, enc, r) && IsBest(c, nArg, enc, s)
    ensures r == s
  {
    if r != null && s != null {
      var k :| 0 <= k < |c| && c[k] == r && FirstBest(c, nArg, enc, k);
      var l :| 0 <= l < |c| && c[l] == s && FirstBest(c, nArg, enc, l);
      assert k == l;
    }
  }

  /** There always is a best match, or none matches. */
  lemma BestExists(c: seq<FuncDef>, nArg: int, enc: Encoding) returns (r: FuncDef?)
    ensures IsBest(c, nArg, enc, r)
  {
    var k, score: nat := 0, 0;
    for i := 0 to |c|
      invariant BestSoFar(c, nArg, enc, i, k, score)
    {
      BestStep(c, nArg, enc, i, k, score);
      var q := MatchQuality(c[i], nArg, enc);
      if q > score { k, score := i, q; }
    }
    BestAtEnd(c, nArg, enc, k, score);
    r := if score == 0 then null else c[k];
  }

  predicate Implemented(c: seq<FuncDef>)
    reads c`xSFunc
  {
    exists d <- c :: d.xSFunc
  }

  /** Asked for any number of arguments, the best match is an implemented one if there is one. */
  lemma BestIsImplemented(c: seq<FuncDef>, enc: Encoding, r: FuncDef?)
    requires IsBest(c, -2, enc, r)
    ensures (r != null && r.xSFunc) <==> Implemented(c)
    ensures r == null <==> !Implemented(c)
  {
    forall d <- c ensures MatchQuality(d, -2, enc) == 0 <==> !d.xSFunc {
      AnyArguments(d, enc);
    }
    if r != null {
      var k :| 0 <= k < |c| && c[k] == r && FirstBest(c, -2, enc, k);
      assert c[k] in c;
    }
  }

  predicate FirstPerfect(c: seq<FuncDef>, nArg: int, enc: Encoding, r: FuncDef) {
    exists k :: 0 <= k < |c| && c[k] == r && FirstPerfectAt(c, nArg, enc, k)
  }

  predicate FirstPerfectAt(c: seq<FuncDef>, nArg: int, enc: Encoding, k: nat)
    requires k < |c|
  {
    Perfect(c[k], nArg, enc) && forall j :: 0 <= j < k ==> !Perfect(c[j], nArg, enc)
  }

  lemma PerfectIsBest(c: seq<FuncDef>, nArg: int, enc: Encoding, r: FuncDef?)
    requires IsBest(c, nArg, enc, r) && -1 <= nArg
    ensures r != null && MatchQuality(r, nArg, enc) == PERFECT ==> FirstPerfect(c, nArg, enc, r)
    ensures r == null || MatchQuality(r, nArg, enc) != PERFECT ==> forall d <- c :: !Perfect(d, nArg, enc)
  {
    forall d <- c ensures MatchQuality(d, nArg, enc) == PERFECT <==> Perfect(d, nArg, enc) {
      QualityRanks(d, d, nArg, enc);
    }
    if r != null {
      var k :| 0 <= k < |c| && c[k] == r && FirstBest(c, nArg, enc, k);
      assert forall j :: 0 <= j < |c| ==> c[j] in c;
      QualityRanks(r, r, nArg, enc);
      assert Perfect(r, nArg, enc) ==> FirstPerfectAt(c, nArg, enc, k);
    }
  }

  /** Among the first i definitions, the k-th is the first with the best score, or none matches. */
  predicate BestSoFar(c: seq<FuncDef>, nArg: int, enc: Encoding, i: nat, k: nat, score: nat)
    reads c`xSFunc
  {
    && i <= |c| && (score != 0 ==> k < i && score == MatchQuality(c[k], nArg, enc))
    && (score != 0 ==> forall j :: 0 <= j < k ==> MatchQuality(c[j], nArg, enc) < score)
    && forall j :: 0 <= j < i ==> MatchQuality(c[j], nArg, enc) <= score
  }

  lemma BestStep(c: seq<FuncDef>, nArg: int, enc: Encoding, i: nat, k: nat, score: nat)
    requires i < |c| && BestSoFar(c, nArg, enc, i, k, score)
    ensures var q := MatchQuality(c[i], nArg, enc);
      BestSoFar(c, nArg, enc, i + 1, if q > score then i else k, if q > score then q else score)
  {
  }

  lemma BestAtEnd(c: seq<FuncDef>, nArg: int, enc: Encoding, k: nat, score: nat)
    requires BestSoFar(c, nArg, enc, |c|, k, score)
    ensures score == 0 ==> IsBest(c, nArg, enc, null)
    ensures score != 0 ==> IsBest(c, nArg, enc, c[k])
  {
    assert score != 0 ==> FirstBest(c, nArg, enc, k);
  }

  /** The search of one chain, keeping the best definition so far. */
  method SearchChain(first: FuncDef?, ghost c: seq<FuncDef>, ghost name: string, nArg: int, enc: Encoding,
                     before: FuncDef?)
    returns (best: FuncDef?, score: nat)
    requires if first == null then |c| == 0 else Linked(c, name) && first == c[0]
    ensures score == 0 ==> best == before && IsBest(c, nArg, enc, null)
    ensures score != 0 ==> best != null && score == MatchQuality(best, nArg, enc) && IsBest(c, nArg, enc, best)
  {
    best, score := before, 0;
    var p := first;
    ghost var i: nat, k: nat := 0, 0;
    while p != null
      invariant i <= |c| && p == if i < |c| then c[i] else null
      invariant BestSoFar(c, nArg, enc, i, k, score)
      invariant best == if score == 0 then before else c[k]
      decreases |c| - i
    {
      BestStep(c, nArg, enc, i, k, score);
      var q := MatchQuality(p, nArg, enc);
      if q > score {
        best, score, k := p, q, i;
      }
      assert c[i].pNext == Succ(c, i);
      p := p.pNext;
      i := i + 1;
    }
    BestAtEnd(c, nArg, enc, k, score);
  }

  lemma NewIsFirstPerfect(c: seq<FuncDef>, nArg: int, enc: Encoding, r: FuncDef)
    requires Perfect(r, nArg, enc) && forall d <- c :: !Perfect(d, nArg, enc)
    ensures FirstPerfect(Extended(c, r), nArg, enc, r)
  {
    var k := if |c| == 0 then 0 else 1;
    assert Extended(c, r)[k] == r && FirstPerfectAt(Extended(c, r), nArg, enc, k);
  }

  lemma FirstPerfectIsUnique(c: seq<FuncDef>, nArg: int, enc: Encoding, r: FuncDef, s: FuncDef)
    requires FirstPerfect(c, nArg, enc, r) && FirstPerfect(c, nArg, enc, s)
    ensures r == s
  {
    var k :| 0 <= k < |c| && c[k] == r && FirstPerfectAt(c, nArg, enc, k);
    var l :| 0 <= l < |c| && c[l] == s && FirstPerfectAt(c, nArg, enc, l);
    assert k == l;
  }

  predicate HasPerfect(c: seq<FuncDef>, nArg: int, enc: Encoding) {
    exists d <- c :: Perfect(d, nArg, enc)
  }

  /** The best match among the overloads of a name in one table. */
  method BestOf(table: FuncDefHash, name: string, nArg: int, enc: Encoding, before: FuncDef?)
    returns (best: FuncDef?, score: nat)
    requires table.Valid()
    ensures score == 0 ==> best == before && IsBest(table.Chain(name), nArg, enc, null)
    ensures score != 0 ==>
      best != null && score == MatchQuality(best, nArg, enc) && IsBest(table.Chain(name), nArg, enc, best)
  {
    HashIgnoresCase(name);
    var p := table.Search(Hash(name), name);
    best, score := SearchChain(p, table.Chain(name), Lowered(name), nArg, enc, before);
  }

  /** The chain after a search that created a definition only if there was no perfect match. */
  predicate FoundOrCreated(before: seq<FuncDef>, after: seq<FuncDef>, nArg: int, enc: Encoding, r: FuncDef) {
    && FirstPerfect(after, nArg, enc, r)
    && after == if HasPerfect(before, nArg, enc) then before else Extended(before, r)
  }

  /** A blank definition for the name, put into the table, which has no perfect match for it. */
  method Create(table: FuncDefHash, name: string, nArg: int, enc: Encoding) returns (r: FuncDef)
    requires table.Valid() && !HasPerfect(table.Chain(name), nArg, enc)
    modifies table, table.a, table.Repr`pNext
    ensures table.Valid() && fresh(r) && table.Repr == old(table.Repr) + {r}
    ensures r.zName == name && !r.xSFunc && FoundOrCreated(old(table.Chain(name)), table.Chain(name), nArg, enc, r)
    ensures table.chains == old(table.chains)[Lowered(name) := table.Chain(name)]
  {
    ghost var c := table.Chain(name);
    r := new FuncDef(name, nArg, enc);
    table.Insert(r);
    NewIsFirstPerfect(c, nArg, enc, r);
  }

  /** The first perfect match for a name in one table, if there is one. */
  method FindPerfect(table: FuncDefHash, name: string, nArg: int, enc: Encoding) returns (r: FuncDef?)
    requires table.Valid() && -1 <= nArg
    ensures r != null <==> HasPerfect(table.Chain(name), nArg, enc)
    ensures r != null ==> FirstPerfect(table.Chain(name), nArg, enc, r)
  {
    var best, bestScore := BestOf(table, name, nArg, enc, null);
    PerfectIsBest(table.Chain(name), nArg, enc, best);
    r := if PERFECT <= bestScore then best else null;
    if best != null {
      QualityRanks(best, best, nArg, enc);
    }
  }

  /** sqlite3FindFunction with createFlag, on the table of the application's own functions, the only
      one it searches then: only a perfect match will do, and a new definition needs memory. */
  method FindOrCreate(table: FuncDefHash, name: string, nArg: int, enc: Encoding, memory: bool) returns (r: FuncDef?)
    requires table.Valid() && -1 <= nArg
    modifies table, table.a, table.Repr`pNext
    ensures table.Valid() && fresh(table.Repr - old(table.Repr))
    ensures r != null <==> HasPerfect(old(table.Chain(name)), nArg, enc) || memory
    ensures r != null ==> FoundOrCreated(old(table.Chain(name)), table.Chain(name), nArg, enc, r)
    ensures if r == null || HasPerfect(old(table.Chain(name)), nArg, enc) then table.chains == old(table.chains)
      else
        && fresh(r) && r.zName == name && !r.xSFunc
        && table.chains == old(table.chains)[Lowered(name) := table.Chain(name)]
  {
    r := FindPerfect(table, name, nArg, enc);
    if r == null && memory {
      r := Create(table, name, nArg, enc);
    }
  }

  /** Asking again for a definition that was found or created, in whatever case the name is spelt,
      gives the same one and changes nothing. */
  method FindTwice(table: FuncDefHash, name: string, again: string, nArg: int, enc: Encoding, memory: bool)
    returns (r: FuncDef?, s: FuncDef?, ghost between: map<string, seq<FuncDef>>)
    requires table.Valid() && -1 <= nArg && Lowered(name) == Lowered(again)
    modifies table, table.a, table.Repr`pNext
    ensures table.Valid()
    ensures r != null ==> s == r && table.chains == between
    ensures r != null <==> HasPerfect(old(table.Chain(name)), nArg, enc) || memory
  {
    r := FindOrCreate(table, name, nArg, enc, memory);
    s, between := null, table.chains;
    if r != null {
      ghost var c := table.Chain(again);
      assert FirstPerfect(c, nArg, enc, r) && HasPerfect(c, nArg, enc);
      s := FindOrCreate(table, again, nArg, enc, false);
      FirstPerfectIsUnique(c, nArg, enc, r, s);
    }
  }

  class Database {
    const aFunc: FuncDefHash
    const builtins: FuncDefHash
    var preferBuiltin: bool

    ghost predicate Valid()
      reads this, aFunc, aFunc.a, aFunc.Repr, builtins, builtins.a, builtins.Repr
    {
      && aFunc != builtins && aFunc.a != builtins.a && aFunc.Repr !! builtins.Repr
      && aFunc.Valid() && builtins.Valid()
    }

    /** A new connection has no functions of its own and shares the built-in ones. */
    constructor (builtins: FuncDefHash)
      requires builtins.Valid()
      ensures Valid() && this.builtins == builtins && aFunc.chains == map[] && !preferBuiltin
    {
      this.builtins := builtins;
      aFunc := new FuncDefHash();
      preferBuiltin := false;
    }

    /** sqlite3FindFunction without createFlag: the application's functions come first, unless the
        built-in ones are preferred, and a definition without implementation is no result. */
    method Lookup(name: string, nArg: int, enc: Encoding) returns (r: FuncDef?)
      requires Valid() && -2 <= nArg
      ensures forall app, builtin ::
        IsBest(aFunc.Chain(name), nArg, enc, app) && IsBest(builtins.Chain(name), nArg, enc, builtin) ==>
          && (app != null && !preferBuiltin ==> r == if app.xSFunc then app else null)
          && (app == null && builtin == null ==> r == null)
          && (app == null && builtin != null ==> r == if builtin.xSFunc then builtin else null)
          && (preferBuiltin && builtin != null ==> r == if builtin.xSFunc then builtin else null)
          && (preferBuiltin && builtin == null && app != null ==> r == if app.xSFunc then app else null)
      ensures nArg == -2 ==> (r != null <==> Implemented(aFunc.Chain(name)) || Implemented(builtins.Chain(name)))
      ensures r != null ==> r.xSFunc
    {
      var best, bestScore := BestOf(aFunc, name, nArg, enc, null);
      ghost var app, c, b := best, aFunc.Chain(name), builtins.Chain(name);
      ghost var builtin := BestExists(b, nArg, enc);
      if best == null || preferBuiltin {
        best, bestScore := BestOf(builtins, name, nArg, enc, best);
        BestIsUnique(b, nArg, enc, builtin, if bestScore == 0 then null else best);
      }
      forall x, y | IsBest(c, nArg, enc, x) && IsBest(b, nArg, enc, y) ensures x == app && y == builtin {
        BestIsUnique(c, nArg, enc, x, app);
        BestIsUnique(b, nArg, enc, y, builtin);
      }
      if nArg == -2 {
        BestIsImplemented(c, enc, app);
        BestIsImplemented(b, enc, builtin);
      }
      r := if best != null && best.xSFunc then best else null;
    }

    /** sqlite3FindFunction with createFlag: the built-in functions are never touched. */
    method CreateFunction(name: string, nArg: int, enc: Encoding, memory: bool) returns (r: FuncDef?)
      requires Valid() && -1 <= nArg
      modifies aFunc, aFunc.a, aFunc.Repr`pNext
      ensures Valid() && builtins.chains == old(builtins.chains) && builtins.Repr == old(builtins.Repr)
      ensures r != null <==> HasPerfect(old(aFunc.Chain(name)), nArg, enc) || memory
      ensures r != null ==> r !in builtins.Repr && FirstPerfect(aFunc.Chain(name), nArg, enc, r)
    {
      r := FindOrCreate(aFunc, name, nArg, enc, memory);
      if r != null {
        assert r in aFunc.Chain(name);
      }
    }
  }
}
