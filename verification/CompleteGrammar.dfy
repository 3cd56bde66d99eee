/** What a complete text is, as a grammar over its tokens: a sequence of statements, each ended by
    its first semicolon, except that a trigger definition is ended by the first ";END;" of its body. */
module CompleteGrammar {
  import opened Complete

  datatype Option<T> = None | Some(value: T)

  type Word = t: Token | t != WS witness SEMI

  /** The tokens of the text from i on that are not white space, and whether the text ends inside
      an unclosed comment, bracket or quote. */
  datatype Lexed = Lexed(tokens: seq<Word>, unclosed: bool)

  function Tokens(z: string, i: nat): Lexed
    requires i <= |z|
    decreases |z| - i
  {
    if i == |z| then Lexed(seq(0, _ => SEMI), false)
    else
      match Next(z, i)
      case Unclosed => Lexed(seq(0, _ => SEMI), true)
      case LineComment => Lexed(seq(0, _ => SEMI), false)
      case Tok(token, next) =>
        var rest := Tokens(z, next);
        if token == WS then rest else Lexed([token] + rest.tokens, rest.unclosed)
  }

  function Run(ts: seq<Word>, i: nat, state: State): State
    requires i <= |ts|
    decreases |ts| - i
  {
    if i == |ts| then state else Run(ts, i + 1, Trans(state, ts[i]))
  }

  lemma {:induction false} RunTail(t: Word, ts: seq<Word>, i: nat, state: State)
    requires i <= |ts|
    ensures Run([t] + ts, i + 1, state) == Run(ts, i, state)
    decreases |ts| - i
  {
    if i < |ts| {
      RunTail(t, ts, i + 1, Trans(state, ts[i]));
    }
  }

  /** White space never changes the state: the scanner only depends on the other tokens. */
  lemma {:induction false} ScanIsRun(z: string, i: nat, state: State)
    requires i <= |z|
    ensures var l := Tokens(z, i); Scan(z, i, state) <==> !l.unclosed && Run(l.tokens, 0, state) == 1
    decreases |z| - i
  {
    if i < |z| && Next(z, i).Tok? {
      var Tok(token, next) := Next(z, i);
      ScanIsRun(z, next, Trans(state, token));
      if token != WS {
        RunTail(token, Tokens(z, next).tokens, 0, Trans(state, token));
      }
    }
  }

  /* ---------- The grammar ---------- */

  function Skip(ts: seq<Word>, i: nat, t: Word): (k: nat)
    requires i <= |ts|
    ensures i <= k <= |ts| && (k < |ts| ==> ts[k] != t) && forall j :: i <= j < k ==> ts[j] == t
    decreases |ts| - i
  {
    if i < |ts| && ts[i] == t then Skip(ts, i + 1, t) else i
  }

  /** Where CREATE TEMP* TRIGGER, possibly after EXPLAIN OTHER*, ends. */
  function HeadEnd(ts: seq<Word>, i: nat): (e: Option<nat>)
    requires i <= |ts|
    ensures e.Some? ==> i < e.value <= |ts|
  {
    if i == |ts| then None
    else if ts[i] == EXPLAIN then ExplainEnd(ts, i + 1)
    else if ts[i] == CREATE then CreateEnd(ts, i + 1)
    else None
  }

  function ExplainEnd(ts: seq<Word>, i: nat): (e: Option<nat>)
    requires i <= |ts|
    ensures e.Some? ==> i < e.value <= |ts|
  {
    var c := Skip(ts, i, OTHER);
    if c < |ts| && ts[c] == CREATE then CreateEnd(ts, c + 1) else None
  }

  function CreateEnd(ts: seq<Word>, i: nat): (e: Option<nat>)
    requires i <= |ts|
    ensures e.Some? ==> i < e.value <= |ts|
  {
    var k := Skip(ts, i, TEMP);
    if k < |ts| && ts[k] == TRIGGER then Some(k + 1) else None
  }

  /** Just after the first semicolon at or after i. */
  function PlainEnd(ts: seq<Word>, i: nat): (e: Option<nat>)
    requires i <= |ts|
    ensures e.Some? ==> i < e.value <= |ts|
    decreases |ts| - i
  {
    if i == |ts| then None
    else if ts[i] == SEMI then Some(i + 1)
    else PlainEnd(ts, i + 1)
  }

  lemma {:induction false} PlainEndIsFirst(ts: seq<Word>, i: nat)
    requires i <= |ts|
    ensures match PlainEnd(ts, i)
      case Some(e) => ts[e - 1] == SEMI && forall j :: i <= j < e - 1 ==> ts[j] != SEMI
      case None => forall j :: i <= j < |ts| ==> ts[j] != SEMI
    decreases |ts| - i
  {
    if i < |ts| && ts[i] != SEMI {
      PlainEndIsFirst(ts, i + 1);
    }
  }

  predicate EndsBodyAt(ts: seq<Word>, k: nat) {
    k + 2 < |ts| && ts[k] == SEMI && ts[k + 1] == END && ts[k + 2] == SEMI
  }

  /** Just after the first ; END ; at or after i. */
  function BodyEnd(ts: seq<Word>, i: nat): (e: Option<nat>)
    requires i <= |ts|
    ensures e.Some? ==> i + 3 <= e.value <= |ts|
    decreases |ts| - i
  {
    if i == |ts| then None
    else if EndsBodyAt(ts, i) then Some(i + 3)
    else BodyEnd(ts, i + 1)
  }

  lemma {:induction false} BodyEndIsFirst(ts: seq<Word>, i: nat)
    requires i <= |ts|
    ensures match BodyEnd(ts, i)
      case Some(e) => EndsBodyAt(ts, e - 3) && forall j :: i <= j < e - 3 ==> !EndsBodyAt(ts, j)
      case None => forall j :: i <= j < |ts| ==> !EndsBodyAt(ts, j)
    decreases |ts| - i
  {
    if i < |ts| && !EndsBodyAt(ts, i) {
      BodyEndIsFirst(ts, i + 1);
    }
  }

  function StatementEnd(ts: seq<Word>, i: nat): (e: Option<nat>)
    requires i <= |ts|
    ensures e.Some? ==> i < e.value <= |ts|
  {
    match HeadEnd(ts, i)
    case Some(h) => BodyEnd(ts, h)
    case None => PlainEnd(ts, i)
  }

  predicate Statements(ts: seq<Word>, i: nat)
    requires i <= |ts|
    decreases |ts| - i
  {
    i == |ts| || (var e := StatementEnd(ts, i); e.Some? && Statements(ts, e.value))
  }

  /* ---------- The table recognises the grammar ---------- */

  /** The text goes on as a fresh statement at e, or never gets back to START. */
  predicate LeadsTo(ts: seq<Word>, e: Option<nat>, end: State)
    requires e.Some? ==> e.value <= |ts|
  {
    if e.Some? then end == Run(ts, e.value, 1) else end != 1
  }

  lemma {:induction false} NormalRun(ts: seq<Word>, i: nat)
    requires i <= |ts|
    ensures LeadsTo(ts, PlainEnd(ts, i), Run(ts, i, 2))
    decreases |ts| - i
  {
    if i < |ts| && ts[i] != SEMI {
      NormalRun(ts, i + 1);
    }
  }

  /** The scanner leaves the body of a trigger exactly after the first ; END ;. */
  lemma {:induction false} BodyRun(ts: seq<Word>, i: nat, state: State)
    requires i <= |ts| && 5 <= state
    requires state == 6 ==> 1 <= i && ts[i - 1] == SEMI
    requires state == 7 ==> 2 <= i && ts[i - 2] == SEMI && ts[i - 1] == END
    ensures LeadsTo(ts, BodyEnd(ts, i - (state - 5)), Run(ts, i, state))
    decreases |ts| - i
  {
    var from := i - (state - 5);
    if i < |ts| {
      var next := Trans(state, ts[i]);
      if next != 1 {
        BodyRun(ts, i + 1, next);
        NoBodyEnd(ts, from, i + 1 - (next - 5));
      }
    } else {
      NoBodyEnd(ts, from, i);
    }
  }

  lemma {:induction false} NoBodyEnd(ts: seq<Word>, i: nat, k: nat)
    requires i <= k <= |ts| && forall j :: i <= j < k ==> !EndsBodyAt(ts, j)
    ensures BodyEnd(ts, i) == BodyEnd(ts, k)
    decreases k - i
  {
    if i < k {
      NoBodyEnd(ts, i + 1, k);
    }
  }

  /** Inside the body of a trigger that began at h, the state tells what the tokens end in. */
  lemma {:induction false} BodyState(ts: seq<Word>, h: nat, n: nat)
    requires h <= n <= |ts|
    requires forall j :: h <= j && j + 3 <= n ==> !EndsBodyAt(ts, j)
    ensures 5 <= Run(ts[..n], h, 5)
    ensures Run(ts[..n], h, 5) == 6 <==> h < n && ts[n - 1] == SEMI
    ensures Run(ts[..n], h, 5) == 7 <==> h + 1 < n && ts[n - 2] == SEMI && ts[n - 1] == END
    decreases n
  {
    if h < n {
      BodyState(ts, h, n - 1);
      RunSnoc(ts[..n - 1], h, 5, ts[n - 1]);
      assert ts[..n] == ts[..n - 1] + [ts[n - 1]];
      assert h + 2 < n ==> !EndsBodyAt(ts, n - 3);
    }
  }

  lemma {:induction false} RunSnoc(ts: seq<Word>, i: nat, state: State, t: Word)
    requires i <= |ts|
    ensures Run(ts + [t], i, state) == Trans(Run(ts, i, state), t)
    decreases |ts| - i
  {
    if i < |ts| {
      RunSnoc(ts, i + 1, Trans(state, ts[i]), t);
    }
  }

  lemma {:induction false} CreateRun(ts: seq<Word>, i: nat)
    requires i <= |ts|
    ensures var h := CreateEnd(ts, i);
      LeadsTo(ts, if h.Some? then BodyEnd(ts, h.value) else PlainEnd(ts, i), Run(ts, i, 4))
    decreases |ts| - i
  {
    if i < |ts| {
      if ts[i] == TEMP {
        CreateRun(ts, i + 1);
      } else if ts[i] == TRIGGER {
        BodyRun(ts, i + 1, 5);
      } else {
        NormalRun(ts, i + 1);
      }
    }
  }

  lemma {:induction false} ExplainRun(ts: seq<Word>, i: nat)
    requires i <= |ts|
    ensures var h := ExplainEnd(ts, i);
      LeadsTo(ts, if h.Some? then BodyEnd(ts, h.value) else PlainEnd(ts, i), Run(ts, i, 3))
    decreases |ts| - i
  {
    if i < |ts| {
      if ts[i] == OTHER {
        ExplainRun(ts, i + 1);
      } else if ts[i] == CREATE {
        CreateRun(ts, i + 1);
      } else {
        NormalRun(ts, i + 1);
      }
    }
  }

  lemma {:induction false} StatementRun(ts: seq<Word>, i: nat)
    requires i < |ts|
    ensures LeadsTo(ts, StatementEnd(ts, i), Run(ts, i, 1))
  {
    if ts[i] == EXPLAIN {
      ExplainRun(ts, i + 1);
    } else if ts[i] == CREATE {
      CreateRun(ts, i + 1);
    } else {
      NormalRun(ts, i + 1);
    }
  }

  lemma {:induction false} RunIsStatements(ts: seq<Word>, i: nat)
    requires i <= |ts|
    ensures Run(ts, i, 1) == 1 <==> Statements(ts, i)
    decreases |ts| - i
  {
    if i < |ts| {
      StatementRun(ts, i);
      var e := StatementEnd(ts, i);
      if e.Some? {
        RunIsStatements(ts, e.value);
      }
    }
  }

  /** A text is complete exactly when nothing is left open, it has something besides white space,
      and its tokens are whole statements. */
  lemma CompleteIsStatements(z: string)
    ensures var l := Tokens(z, 0); Scan(z, 0, 0) <==> !l.unclosed && 0 < |l.tokens| && Statements(l.tokens, 0)
  {
    ScanIsRun(z, 0, 0);
    var ts := Tokens(z, 0).tokens;
    if 0 < |ts| {
      assert Run(ts, 0, 0) == Run(ts, 0, 1);
    }
    RunIsStatements(ts, 0);
  }
}
