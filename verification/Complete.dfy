/** sqlite3_complete (complete.c): a scanner that drives a table of eight states. */
module Complete {
  import opened Ascii

  datatype Token = SEMI | WS | OTHER | EXPLAIN | CREATE | TEMP | TRIGGER | END

  /** States: 0 INVALID, 1 START, 2 NORMAL, 3 EXPLAIN, 4 CREATE, 5 TRIGGER, 6 SEMI, 7 END. */
  type State = s: nat | s < 8

  function Trans(state: State, token: Token): State {
    match token
    case SEMI => if state == 5 || state == 6 then 6 else 1
    case WS => state
    case OTHER => if state == 3 then 3 else if state < 5 then 2 else 5
    case EXPLAIN => if state < 2 then 3 else if state < 5 then 2 else 5
    case CREATE => if state < 2 || state == 3 then 4 else if state < 5 then 2 else 5
    case TEMP => if state == 4 then 4 else if state < 5 then 2 else 5
    case TRIGGER => if state < 4 then 2 else 5
    case END => if state < 5 then 2 else if state == 6 then 7 else 5
  }

  /** The first c at or after i, or the end. */
  function Find(z: string, i: nat, c: char): (k: nat)
    requires i <= |z|
    ensures i <= k <= |z| && (k < |z| ==> z[k] == c) && forall j :: i <= j < k ==> z[j] != c
    decreases |z| - i
  {
    if i < |z| && z[i] != c then Find(z, i + 1, c) else i
  }

  predicate ClosesAt(z: string, k: nat) {
    k + 1 < |z| && z[k] == '*' && z[k + 1] == '/'
  }

  /** Where the block comment that is open at i is closed, or the end. */
  function FindClose(z: string, i: nat): (k: nat)
    requires i <= |z|
    ensures i <= k <= |z| && (k < |z| ==> ClosesAt(z, k)) && forall j :: i <= j < k ==> !ClosesAt(z, j)
    decreases |z| - i
  {
    if i < |z| && !ClosesAt(z, i) then FindClose(z, i + 1) else i
  }

  function IdEnd(z: string, i: nat): (k: nat)
    requires i <= |z|
    ensures i <= k <= |z| && (k < |z| ==> !IdChar(z[k])) && forall j :: i <= j < k ==> IdChar(z[j])
    decreases |z| - i
  {
    if i < |z| && IdChar(z[i]) then IdEnd(z, i + 1) else i
  }

  function Keyword(word: string): Token {
    var w := Lowered(word);
    if w == "create" then CREATE
    else if w == "trigger" then TRIGGER
    else if w == "temp" || w == "temporary" then TEMP
    else if w == "end" then END
    else if w == "explain" then EXPLAIN
    else OTHER
  }

  /** One turn of the scanner: a token and where the next one starts, or the end of the text
      inside something unclosed, or inside a comment to the end of the line. */
  datatype Lex = Tok(token: Token, next: nat) | Unclosed | LineComment

  predicate IsSpace(c: char) {
    c == ' ' || c == '\r' || c == '\t' || c == '\n' || c as int == 12
  }

  function Quoted(z: string, i: nat, close: char): Lex
    requires i < |z|
  {
    var k := Find(z, i + 1, close);
    if k == |z| then Unclosed else Tok(OTHER, k + 1)
  }

  function BlockComment(z: string, i: nat): Lex
    requires i + 2 <= |z|
  {
    var k := FindClose(z, i + 2);
    if k == |z| then Unclosed else Tok(WS, k + 2)
  }

  function DashComment(z: string, i: nat): Lex
    requires i < |z|
  {
    var k := Find(z, i, '\n');
    if k == |z| then LineComment else Tok(WS, k + 1)
  }

  function Word(z: string, i: nat): Lex
    requires i < |z|
  {
    var e := IdEnd(z, i + 1);
    Tok(Keyword(z[i..e]), e)
  }

  predicate Follows(z: string, i: nat, c: char) {
    i + 1 < |z| && z[i + 1] == c
  }

  function Next(z: string, i: nat): (l: Lex)
    requires i < |z|
    ensures l.Tok? ==> i < l.next <= |z|
  {
    var c := z[i];
    if c == ';' then Tok(SEMI, i + 1)
    else if IsSpace(c) then Tok(WS, i + 1)
    else if c == '/' && Follows(z, i, '*') then BlockComment(z, i)
    else if c == '-' && Follows(z, i, '-') then DashComment(z, i)
    else if c == '[' then Quoted(z, i, ']')
    else if c == '`' || c == '"' || c == '\'' then Quoted(z, i, c)
    else if IdChar(c) then Word(z, i)
    else Tok(OTHER, i + 1)
  }

  /** Whether the text is complete, scanning from i in the given state. */
  function Scan(z: string, i: nat, state: State): bool
    requires i <= |z|
    decreases |z| - i
  {
    if i == |z| then state == 1
    else
      match Next(z, i)
      case Tok(token, next) => Scan(z, next, Trans(state, token))
      case Unclosed => false
      case LineComment => state == 1
  }

  /** The table of lines 112-123, row by row, against Trans. */
  const TRANS: seq<seq<State>> := [
    [1, 0, 2, 3, 4, 2, 2, 2],
    [1, 1, 2, 3, 4, 2, 2, 2],
    [1, 2, 2, 2, 2, 2, 2, 2],
    [1, 3, 3, 2, 4, 2, 2, 2],
    [1, 4, 2, 2, 2, 4, 5, 2],
    [6, 5, 5, 5, 5, 5, 5, 5],
    [6, 6, 5, 5, 5, 5, 5, 7],
    [1, 7, 5, 5, 5, 5, 5, 5]
  ]

  function Number(token: Token): nat {
    match token
    case SEMI => 0 case WS => 1 case OTHER => 2 case EXPLAIN => 3
    case CREATE => 4 case TEMP => 5 case TRIGGER => 6 case END => 7
  }

  lemma TransIsTheTable(state: State, token: Token)
    ensures Trans(state, token) == TRANS[state][Number(token)]
  {
  }

  /** The n characters from i on are the letters of the word, in either case. */
  predicate Spells(z: string, i: nat, n: nat, word: string) {
    n == |word| && i + n <= |z| && forall k :: 0 <= k < n ==> Lower(z[i + k]) == word[k]
  }

  /** Which words are which tokens. */
  ghost predicate MeansWord(token: Token, z: string, i: nat, n: nat) {
    && (token == CREATE <==> Spells(z, i, n, "create"))
    && (token == TRIGGER <==> Spells(z, i, n, "trigger"))
    && (token == TEMP <==> Spells(z, i, n, "temp") || Spells(z, i, n, "temporary"))
    && (token == END <==> Spells(z, i, n, "end"))
    && (token == EXPLAIN <==> Spells(z, i, n, "explain"))
    && token != SEMI && token != WS
  }

  /** The n characters from i on are a whole run of identifier characters. */
  predicate WordRun(z: string, i: nat, n: nat) {
    && 0 < n && i + n <= |z| && (forall k :: i <= k < i + n ==> IdChar(z[k]))
    && (i + n < |z| ==> !IdChar(z[i + n]))
  }

  /** Where a word begins the next token is that of the whole word. */
  lemma NextWord(z: string, i: nat, n: nat)
    requires WordRun(z, i, n)
    ensures var l := Next(z, i); l.Tok? && l.next == i + n && MeansWord(l.token, z, i, n)
  {
    IdEndIs(z, i + 1, i + n);
    KeywordMeans(z, i, n);
  }

  lemma {:induction false} IdEndIs(z: string, i: nat, e: nat)
    requires i <= e <= |z| && (forall k :: i <= k < e ==> IdChar(z[k])) && (e < |z| ==> !IdChar(z[e]))
    ensures IdEnd(z, i) == e
    decreases e - i
  {
    if i < e {
      IdEndIs(z, i + 1, e);
    }
  }

  lemma SpellsIsLowered(z: string, i: nat, n: nat, word: string)
    requires i + n <= |z|
    ensures Spells(z, i, n, word) <==> Lowered(z[i..i + n]) == word
  {
  }

  lemma KeywordMeans(z: string, i: nat, n: nat)
    requires i + n <= |z|
    ensures MeansWord(Keyword(z[i..i + n]), z, i, n)
  {
    SpellsIsLowered(z, i, n, "create");
    SpellsIsLowered(z, i, n, "trigger");
    SpellsIsLowered(z, i, n, "temp");
    SpellsIsLowered(z, i, n, "temporary");
    SpellsIsLowered(z, i, n, "end");
    SpellsIsLowered(z, i, n, "explain");
  }

  /** The run of identifier characters at i, and the token that it is. */
  method ReadWord(z: string, i: nat) returns (token: Token, n: nat)
    requires i < |z| && IdChar(z[i])
    ensures i + n == IdEnd(z, i + 1) && token == Keyword(z[i..i + n])
    ensures WordRun(z, i, n) && MeansWord(token, z, i, n)
  {
    n := 1;
    while i + n < |z| && IdChar(z[i + n])
      invariant 0 < n && i + n <= |z| && IdEnd(z, i + n) == IdEnd(z, i + 1)
      invariant forall k :: i <= k < i + n ==> IdChar(z[k])
    {
      n := n + 1;
    }
    token := ReadKeyword(z, i, n);
    KeywordMeans(z, i, n);
  }

  /** The switch on the first letter, then on the length and the letters. */
  method ReadKeyword(z: string, i: nat, n: nat) returns (token: Token)
    requires 0 < n && i + n <= |z|
    ensures token == Keyword(z[i..i + n])
  {
    var word := Lowered(z[i..i + n]);
    token := OTHER;
    if z[i] == 'c' || z[i] == 'C' {
      if n == 6 && word == "create" {
        token := CREATE;
      }
    } else if z[i] == 't' || z[i] == 'T' {
      if n == 7 && word == "trigger" {
        token := TRIGGER;
      } else if n == 4 && word == "temp" {
        token := TEMP;
      } else if n == 9 && word == "temporary" {
        token := TEMP;
      }
    } else if z[i] == 'e' || z[i] == 'E' {
      if n == 3 && word == "end" {
        token := END;
      } else if n == 7 && word == "explain" {
        token := EXPLAIN;
      }
    }
  }

  /** Advances to the next c, or to the end. */
  method SkipTo(z: string, i: nat, c: char) returns (k: nat)
    requires i <= |z|
    ensures k == Find(z, i, c)
  {
    k := i;
    while k < |z| && z[k] != c
      invariant i <= k <= |z| && Find(z, k, c) == Find(z, i, c)
    {
      k := k + 1;
    }
  }

  method SkipComment(z: string, i: nat) returns (k: nat)
    requires i <= |z|
    ensures k == FindClose(z, i)
  {
    k := i;
    while k < |z| && (z[k] != '*' || k + 1 == |z| || z[k + 1] != '/')
      invariant i <= k <= |z| && FindClose(z, k) == FindClose(z, i)
    {
      k := k + 1;
    }
  }

  method ReadQuoted(z: string, i: nat, close: char) returns (l: Lex)
    requires i < |z|
    ensures l == Quoted(z, i, close)
  {
    var k := SkipTo(z, i + 1, close);
    l := if k == |z| then Unclosed else Tok(OTHER, k + 1);
  }

  /** The switch on the character at i. */
  method ReadToken(z: string, i: nat) returns (l: Lex)
    requires i < |z|
    ensures l == Next(z, i)
  {
    var k: nat := i;
    if z[i] == ';' {
      l := Tok(SEMI, i + 1);
    } else if z[i] == ' ' || z[i] == '\r' || z[i] == '\t' || z[i] == '\n' || z[i] as int == 12 {
      l := Tok(WS, i + 1);
    } else if z[i] == '/' {
      if !Follows(z, i, '*') {
        return Tok(OTHER, i + 1);
      }
      k := SkipComment(z, i + 2);
      l := if k == |z| then Unclosed else Tok(WS, k + 2);
    } else if z[i] == '-' {
      if !Follows(z, i, '-') {
        return Tok(OTHER, i + 1);
      }
      k := SkipTo(z, i, '\n');
      l := if k == |z| then LineComment else Tok(WS, k + 1);
    } else if z[i] == '[' {
      l := ReadQuoted(z, i, ']');
    } else if z[i] == '`' || z[i] == '"' || z[i] == '\'' {
      l := ReadQuoted(z, i, z[i]);
    } else if IdChar(z[i]) {
      var token, n := ReadWord(z, i);
      l := Tok(token, i + n);
    } else {
      l := Tok(OTHER, i + 1);
    }
  }

  /** sqlite3_complete: each turn of the loop takes one token and one step through the table. */
  method IsComplete(z: string) returns (r: bool)
    ensures r <==> Scan(z, 0, 0)
  {
    var state: State := 0;
    var i: nat := 0;
    while i < |z|
      invariant i <= |z| && (Scan(z, i, state) <==> Scan(z, 0, 0))
    {
      var l := ReadToken(z, i);
      if l.Unclosed? {
        return false;
      }
      if l.LineComment? {
        return state == 1;
      }
      TransIsTheTable(state, l.token);
      state := TRANS[state][Number(l.token)];
      i := l.next;
    }
    r := state == 1;
  }
}
