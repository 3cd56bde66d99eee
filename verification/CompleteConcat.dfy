/** Joining two complete texts (complete.c). */
module CompleteConcat {
  import opened Ascii
  import opened Complete

  /** Whether scanning from i stops inside a comment that runs to the end of the text. */
  predicate EndsInLineComment(z: string, i: nat)
    requires i <= |z|
    decreases |z| - i
  {
    i < |z| &&
    match Next(z, i)
    case Tok(_, next) => EndsInLineComment(z, next)
    case Unclosed => false
    case LineComment => true
  }

  /* ---------- Text before the cursor does not matter ---------- */

  lemma {:induction false} FindShifts(s: string, t: string, i: nat, c: char)
    requires i <= |t|
    ensures Find(s + t, |s| + i, c) == |s| + Find(t, i, c)
    decreases |t| - i
  {
    if i < |t| && t[i] != c {
      FindShifts(s, t, i + 1, c);
    }
  }

  lemma {:induction false} FindCloseShifts(s: string, t: string, i: nat)
    requires i <= |t|
    ensures FindClose(s + t, |s| + i) == |s| + FindClose(t, i)
    decreases |t| - i
  {
    if i < |t| && !ClosesAt(t, i) {
      FindCloseShifts(s, t, i + 1);
    }
  }

  lemma {:induction false} IdEndShifts(s: string, t: string, i: nat)
    requires i <= |t|
    ensures IdEnd(s + t, |s| + i) == |s| + IdEnd(t, i)
    decreases |t| - i
  {
    if i < |t| && IdChar(t[i]) {
      IdEndShifts(s, t, i + 1);
    }
  }

  function Shifted(l: Lex, n: nat): Lex {
    if l.Tok? then Tok(l.token, n + l.next) else l
  }

  lemma QuotedShifts(s: string, t: string, i: nat, close: char)
    requires i < |t|
    ensures Quoted(s + t, |s| + i, close) == Shifted(Quoted(t, i, close), |s|)
  {
    FindShifts(s, t, i + 1, close);
  }

  lemma WordShifts(s: string, t: string, i: nat)
    requires i < |t|
    ensures Word(s + t, |s| + i) == Shifted(Word(t, i), |s|)
  {
    IdEndShifts(s, t, i + 1);
    SliceShifts(s, t, i, IdEnd(t, i + 1));
    SameWord(s + t, |s| + i, t, i);
  }

  lemma SameWord(z: string, i: nat, z': string, i': nat)
    requires i < |z| && i' < |z'| && z[i..IdEnd(z, i + 1)] == z'[i'..IdEnd(z', i' + 1)]
    ensures Word(z, i).token == Word(z', i').token
  {
  }

  lemma SliceShifts(s: string, t: string, i: nat, e: nat)
    requires i <= e <= |t|
    ensures (s + t)[|s| + i..|s| + e] == t[i..e]
  {
  }

  lemma NextShifts(s: string, t: string, i: nat)
    requires i < |t|
    ensures Next(s + t, |s| + i) == Shifted(Next(t, i), |s|)
  {
    var c := t[i];
    assert (s + t)[|s| + i] == c;
    assert Follows(s + t, |s| + i, '*') == Follows(t, i, '*');
    assert Follows(s + t, |s| + i, '-') == Follows(t, i, '-');
    if c == '/' && Follows(t, i, '*') {
      FindCloseShifts(s, t, i + 2);
    } else if c == '-' && Follows(t, i, '-') {
      FindShifts(s, t, i, '\n');
    } else if c == '[' {
      QuotedShifts(s, t, i, ']');
    } else if c == '`' || c == '"' || c == '\'' {
      QuotedShifts(s, t, i, c);
    } else if IdChar(c) {
      WordShifts(s, t, i);
    }
  }

  lemma {:induction false} ScanShifts(s: string, t: string, i: nat, state: State)
    requires i <= |t|
    ensures Scan(s + t, |s| + i, state) == Scan(t, i, state)
    decreases |t| - i
  {
    if i < |t| {
      NextShifts(s, t, i);
      if Next(t, i).Tok? {
        ScanShifts(s, t, Next(t, i).next, Trans(state, Next(t, i).token));
      }
    }
  }

  /* ---------- Text after a finished token does not matter ---------- */

  lemma {:induction false} FindStays(s: string, t: string, i: nat, c: char)
    requires i <= |s|
    ensures Find(s + t, i, c) == if Find(s, i, c) < |s| then Find(s, i, c) else |s| + Find(t, 0, c)
    decreases |s| - i
  {
    if i == |s| {
      FindShifts(s, t, 0, c);
    } else if s[i] != c {
      FindStays(s, t, i + 1, c);
    }
  }

  lemma {:induction false} FindCloseStays(s: string, t: string, i: nat)
    requires i <= |s| && FindClose(s, i) < |s|
    ensures FindClose(s + t, i) == FindClose(s, i)
    decreases |s| - i
  {
    if i < |s| && !ClosesAt(s, i) {
      FindCloseStays(s, t, i + 1);
    }
  }

  lemma {:induction false} IdEndStays(s: string, t: string, i: nat)
    requires i <= |s| && IdEnd(s, i) < |s|
    ensures IdEnd(s + t, i) == IdEnd(s, i)
    decreases |s| - i
  {
    if i < |s| && IdChar(s[i]) {
      IdEndStays(s, t, i + 1);
    }
  }

  lemma QuotedStays(s: string, t: string, i: nat, close: char)
    requires i < |s| && Quoted(s, i, close).Tok?
    ensures Quoted(s + t, i, close) == Quoted(s, i, close)
  {
    FindStays(s, t, i + 1, close);
  }

  lemma WordStays(s: string, t: string, i: nat)
    requires i < |s| && Word(s, i).next < |s|
    ensures Word(s + t, i) == Word(s, i)
  {
    IdEndStays(s, t, i + 1);
    var e := IdEnd(s, i + 1);
    assert (s + t)[i..e] == s[i..e];
  }

  lemma KeywordIsNot(z: string, i: nat)
    requires i < |z|
    ensures Word(z, i).token != SEMI && Word(z, i).token != WS
  {
  }

  lemma NextStays(s: string, t: string, i: nat)
    requires i < |s| && Next(s, i).Tok?
    requires Next(s, i).next < |s| || Next(s, i).token == SEMI || Next(s, i).token == WS
    ensures Next(s + t, i) == Next(s, i)
  {
    var c := s[i];
    assert (s + t)[i] == c;
    assert i + 1 < |s| ==> (s + t)[i + 1] == s[i + 1];
    if c == '/' && Follows(s, i, '*') {
      FindCloseStays(s, t, i + 2);
    } else if c == '-' && Follows(s, i, '-') {
      FindStays(s, t, i, '\n');
    } else if c == '[' {
      QuotedStays(s, t, i, ']');
    } else if c == '`' || c == '"' || c == '\'' {
      QuotedStays(s, t, i, c);
    } else if IdChar(c) {
      KeywordIsNot(s, i);
      WordStays(s, t, i);
    }
  }

  /* ---------- Joining ---------- */

  /** After a complete s, t is scanned as the start of a statement; or, when s ends inside a
      comment, the first line of t is lost to the comment. */
  function Resume(s: string, t: string): nat {
    if EndsInLineComment(s, 0) then Find(t, 0, '\n') else 0
  }

  lemma LineCommentStarts(s: string, i: nat)
    requires i < |s| && Next(s, i).LineComment?
    ensures i + 1 < |s| && s[i] == s[i + 1] == '-' && Find(s, i, '\n') == |s|
  {
  }

  lemma DashedLine(z: string, i: nat, k: nat)
    requires i + 1 < |z| && z[i] == z[i + 1] == '-' && k == Find(z, i, '\n')
    ensures Scan(z, i, 1) == if k < |z| then Scan(z, k + 1, 1) else true
  {
    assert Next(z, i) == DashComment(z, i);
  }

  lemma NewLine(z: string, k: nat)
    requires k <= |z| && (k < |z| ==> z[k] == '\n')
    ensures Scan(z, k, 1) == if k < |z| then Scan(z, k + 1, 1) else true
  {
  }

  lemma SameRest(z: string, i: nat, k: nat, t: string, l: nat)
    requires i + 1 < |z| && z[i] == z[i + 1] == '-' && k == Find(z, i, '\n') && l == Find(t, 0, '\n')
    requires k < |z| <==> l < |t|
    requires k < |z| && l < |t| ==> Scan(z, k + 1, 1) == Scan(t, l + 1, 1)
    ensures Scan(z, i, 1) == Scan(t, l, 1)
  {
    DashedLine(z, i, k);
    NewLine(t, l);
  }

  lemma JoinInComment(s: string, t: string, i: nat)
    requires i + 1 < |s| && s[i] == s[i + 1] == '-' && Find(s, i, '\n') == |s|
    ensures Scan(s + t, i, 1) <==> Scan(t, Find(t, 0, '\n'), 1)
  {
    var k := Find(t, 0, '\n');
    FindStays(s, t, i, '\n');
    NextLineShifts(s, t, k);
    SameRest(s + t, i, |s| + k, t, k);
  }

  lemma NextLineShifts(s: string, t: string, k: nat)
    ensures k < |t| ==> Scan(s + t, |s| + k + 1, 1) == Scan(t, k + 1, 1)
  {
    if k < |t| {
      ScanShifts(s, t, k + 1, 1);
    }
  }

  /** A scan that ends in START cannot have its last token cut short. */
  lemma LastToken(state: State, token: Token)
    ensures Trans(state, token) == 1 ==> token == SEMI || token == WS
  {
  }

  lemma {:induction false} JoinFrom(s: string, t: string, i: nat, state: State)
    requires i <= |s| && Scan(s, i, state)
    ensures Scan(s + t, i, state) <==> Scan(t, if EndsInLineComment(s, i) then Find(t, 0, '\n') else 0, 1)
    decreases |s| - i
  {
    if i == |s| {
      ScanShifts(s, t, 0, 1);
    } else {
      match Next(s, i)
      case Tok(token, next) =>
        LastToken(state, token);
        NextStays(s, t, i);
        JoinFrom(s, t, next, Trans(state, token));
      case LineComment =>
        LineCommentStarts(s, i);
        JoinInComment(s, t, i);
    }
  }

  /** Being at the start of the text or between two statements differs only in whether nothing but
      white space is complete. */
  lemma {:induction false} StartSimulatesInvalid(z: string, i: nat)
    requires i <= |z|
    ensures Scan(z, i, 0) ==> Scan(z, i, 1)
    decreases |z| - i
  {
    if i < |z| && Next(z, i).Tok? && Next(z, i).token == WS {
      StartSimulatesInvalid(z, Next(z, i).next);
    }
  }

  lemma JoinComplete(s: string, t: string)
    requires Scan(s, 0, 0)
    ensures Scan(s + t, 0, 0) <==> Scan(t, Resume(s, t), 1)
    ensures Scan(t, 0, 0) && !EndsInLineComment(s, 0) ==> Scan(s + t, 0, 0)
  {
    JoinFrom(s, t, 0, 0);
    StartSimulatesInvalid(t, 0);
  }

  /** The condition is needed: ";--" and "'\n;';" are complete, and their join is not. */
  lemma CommentBreaksJoin()
    ensures var s, t := ";--", "'\n;';"; Scan(s, 0, 0) && Scan(t, 0, 0) && !Scan(s + t, 0, 0)
  {
    var s, t := ";--", "'\n;';";
    assert Next(s, 0) == Tok(SEMI, 1);
    assert Find(s, 1, '\n') == 3;
    assert Find(t, 1, '\'') == 3;
    assert Next(t, 0) == Tok(OTHER, 4);
    assert Next(t, 4) == Tok(SEMI, 5);
    JoinFrom(s, t, 0, 0);
    assert Next(t, 1) == Tok(WS, 2);
    assert Next(t, 2) == Tok(SEMI, 3);
    assert Find(t, 4, '\'') == 5;
  }
}
