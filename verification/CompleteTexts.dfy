/** What complete.c makes of whole texts, letter by letter. */
module CompleteTexts {
  import opened Ascii
  import opened Complete
  import opened CompleteConcat

  /* ---------- One token, whatever follows it ---------- */

  /** A first token that ends where rest begins. */
  lemma FirstToken(t: string, rest: string, token: Token, state: State)
    requires 0 < |t| && Next(t + rest, 0) == Tok(token, |t|)
    ensures Scan(t + rest, 0, state) == Scan(rest, 0, Trans(state, token))
  {
    FirstTokenOf(t + rest, |t|, rest, token, state);
  }

  lemma FirstTokenOf(z: string, n: nat, rest: string, token: Token, state: State)
    requires 0 < n <= |z| && z[n..] == rest && Next(z, 0) == Tok(token, n)
    ensures Scan(z, 0, state) == Scan(rest, 0, Trans(state, token))
  {
    ScanSuffix(z, n, rest, Trans(state, token));
  }

  lemma ScanSuffix(z: string, n: nat, rest: string, state: State)
    requires n <= |z| && z[n..] == rest
    ensures Scan(z, n, state) == Scan(rest, 0, state)
  {
    assert z == z[..n] + rest;
    ScanShifts(z[..n], rest, 0, state);
  }

  /** Blanks, tabs, line ends and form feeds are white space. */
  lemma SpaceIsWhite(c: char, rest: string, state: State)
    requires c == ' ' || c == '\t' || c == '\r' || c == '\n' || c as int == 12
    ensures Scan([c] + rest, 0, state) == Scan(rest, 0, state)
  {
    FirstToken([c], rest, WS, state);
  }

  lemma SemicolonIsSemi(rest: string, state: State)
    ensures Scan(";" + rest, 0, state) == Scan(rest, 0, Trans(state, SEMI))
  {
    FirstToken(";", rest, SEMI, state);
  }

  /** Nothing between quotes or brackets matters. */
  lemma QuotedIsOther(open: char, close: char, t: string, rest: string, state: State)
    requires (open == close && (open == '\'' || open == '"' || open == '`')) || (open == '[' && close == ']')
    requires close !in t
    ensures Scan([open] + t + [close] + rest, 0, state) == Scan(rest, 0, Trans(state, OTHER))
  {
    var q := [open] + t + [close];
    FindIs(q + rest, 1, |t| + 1, close);
    FirstToken(q, rest, OTHER, state);
  }

  lemma {:induction false} FindIs(z: string, i: nat, k: nat, c: char)
    requires i <= k < |z| && z[k] == c && forall j :: i <= j < k ==> z[j] != c
    ensures Find(z, i, c) == k
    decreases k - i
  {
    if i < k {
      FindIs(z, i + 1, k, c);
    }
  }

  /** A comment is white space, whatever is in it. */
  lemma BlockCommentIsWhite(t: string, rest: string, state: State)
    requires forall k :: 0 <= k < |t| - 1 ==> !(t[k] == '*' && t[k + 1] == '/')
    ensures Scan("/*" + t + "*/" + rest, 0, state) == Scan(rest, 0, state)
  {
    var q := "/*" + t + "*/";
    FindCloseIs(q + rest, 2, |t| + 2);
    FirstToken(q, rest, WS, state);
  }

  lemma {:induction false} FindCloseIs(z: string, i: nat, k: nat)
    requires i <= k && ClosesAt(z, k) && forall j :: i <= j < k ==> !ClosesAt(z, j)
    ensures FindClose(z, i) == k
    decreases k - i
  {
    if i < k {
      FindCloseIs(z, i + 1, k);
    }
  }

  lemma LineCommentIsWhite(t: string, rest: string, state: State)
    requires '\n' !in t
    ensures Scan("--" + t + "\n" + rest, 0, state) == Scan(rest, 0, state)
  {
    var q := "--" + t + "\n";
    FindIs(q + rest, 0, |t| + 2, '\n');
    FirstToken(q, rest, WS, state);
  }

  /* ---------- Statements ---------- */

  /** Neither quotes nor comments can begin here, nor a statement end. */
  predicate PlainChar(c: char) {
    c != ';' && c != '/' && c != '-' && c != '[' && c != '\'' && c != '"' && c != '`'
  }

  predicate Plain(t: string) {
    forall k :: 0 <= k < |t| ==> PlainChar(t[k])
  }

  lemma {:induction false} IdEndStops(z: string, i: nat, n: nat)
    requires i <= n < |z| && !IdChar(z[n])
    ensures IdEnd(z, i) <= n
    decreases n - i
  {
    if i < n {
      IdEndStops(z, i + 1, n);
    }
  }

  /** Inside an ordinary statement and inside the body of a trigger, plain text changes nothing. */
  lemma {:induction false} PlainStays(z: string, i: nat, n: nat, state: State)
    requires i <= n < |z| && z[n] == ';' && (state == 2 || state == 5) && forall k :: i <= k < n ==> PlainChar(z[k])
    ensures Scan(z, i, state) == Scan(z, n, state)
    decreases n - i
  {
    if i < n {
      PlainNext(z, i, n);
      var Tok(token, next) := Next(z, i);
      PlainStays(z, next, n, state);
    }
  }

  lemma PlainNext(z: string, i: nat, n: nat)
    requires i < n < |z| && z[n] == ';' && PlainChar(z[i])
    ensures var l := Next(z, i); l.Tok? && l.token != SEMI && i < l.next <= n
  {
    if IdChar(z[i]) {
      IdEndStops(z, i + 1, n);
      KeywordIsNot(z, i);
    }
  }

  lemma PlainBody(body: string, rest: string, state: State)
    requires Plain(body) && (state == 2 || state == 5)
    ensures Scan(body + ";" + rest, 0, state) == Scan(rest, 0, Trans(state, SEMI))
  {
    var z := body + ";" + rest;
    PlainStays(z, 0, |body|, state);
    assert z == body + (";" + rest);
    ScanShifts(body, ";" + rest, 0, state);
    SemicolonIsSemi(rest, state);
  }

  /** The letters of w are those of the word, in either case. */
  predicate SameLetters(w: string, word: string) {
    |w| == |word| && forall k :: 0 <= k < |w| ==> Lower(w[k]) == word[k]
  }

  predicate Letters(word: string) {
    forall k :: 0 <= k < |word| ==> 'a' <= word[k] <= 'z'
  }

  lemma FirstWord(w: string, rest: string, word: string)
    requires SameLetters(w, word) && Letters(word) && 0 < |w| && 0 < |rest| && !IdChar(rest[0])
    ensures var z := w + rest; var l := Next(z, 0);
      l.Tok? && l.next == |w| && MeansWord(l.token, z, 0, |w|) && Spells(z, 0, |w|, word)
  {
    var z := w + rest;
    assert forall k :: 0 <= k < |w| ==> z[k] == w[k];
    NextWord(z, 0, |w|);
  }

  lemma CreateWord(w: string, rest: string, state: State)
    requires SameLetters(w, "create") && 0 < |rest| && !IdChar(rest[0])
    ensures Scan(w + rest, 0, state) == Scan(rest, 0, Trans(state, CREATE))
  {
    FirstWord(w, rest, "create");
    FirstToken(w, rest, CREATE, state);
  }

  lemma TriggerWord(w: string, rest: string, state: State)
    requires SameLetters(w, "trigger") && 0 < |rest| && !IdChar(rest[0])
    ensures Scan(w + rest, 0, state) == Scan(rest, 0, Trans(state, TRIGGER))
  {
    FirstWord(w, rest, "trigger");
    FirstToken(w, rest, TRIGGER, state);
  }

  lemma EndWord(w: string, rest: string, state: State)
    requires SameLetters(w, "end") && 0 < |rest| && !IdChar(rest[0])
    ensures Scan(w + rest, 0, state) == Scan(rest, 0, Trans(state, END))
  {
    FirstWord(w, rest, "end");
    FirstToken(w, rest, END, state);
  }

  function TriggerText(create: string, trigger: string, body: string, rest: string): string {
    create + (" " + (trigger + (" " + (body + ";" + rest))))
  }

  /** CREATE TRIGGER and any plain text open the body of a trigger at the first semicolon. */
  lemma TriggerHead(create: string, trigger: string, body: string, rest: string)
    requires SameLetters(create, "create") && SameLetters(trigger, "trigger") && Plain(body)
    ensures Scan(TriggerText(create, trigger, body, rest), 0, 0) == Scan(rest, 0, 6)
  {
    var inBody := body + ";" + rest;
    var afterTrigger := " " + inBody;
    var afterCreate := " " + (trigger + afterTrigger);
    CreateWord(create, afterCreate, 0);
    SpaceIsWhite(' ', trigger + afterTrigger, 4);
    TriggerWord(trigger, afterTrigger, 4);
    SpaceIsWhite(' ', inBody, 5);
    PlainBody(body, rest, 5);
  }

  /** The definition of a trigger is complete with its END, and not before. */
  lemma TriggerIsComplete(create: string, trigger: string, body: string, end: string)
    requires SameLetters(create, "create") && SameLetters(trigger, "trigger") && SameLetters(end, "end") && Plain(body)
    ensures Scan(TriggerText(create, trigger, body, end + ";"), 0, 0)
    ensures !Scan(TriggerText(create, trigger, body, ""), 0, 0)
  {
    TriggerHead(create, trigger, body, end + ";");
    EndWord(end, ";", 6);
    SemicolonIsSemi("", 7);
    assert ";" + "" == ";";
    TriggerHead(create, trigger, body, "");
  }

  lemma TempWord(w: string, rest: string, state: State)
    requires (SameLetters(w, "temp") || SameLetters(w, "temporary")) && 0 < |rest| && !IdChar(rest[0])
    ensures Scan(w + rest, 0, state) == Scan(rest, 0, Trans(state, TEMP))
  {
    FirstWord(w, rest, if |w| == 4 then "temp" else "temporary");
    FirstToken(w, rest, TEMP, state);
  }

  lemma ExplainWord(w: string, rest: string, state: State)
    requires SameLetters(w, "explain") && 0 < |rest| && !IdChar(rest[0])
    ensures Scan(w + rest, 0, state) == Scan(rest, 0, Trans(state, EXPLAIN))
  {
    FirstWord(w, rest, "explain");
    FirstToken(w, rest, EXPLAIN, state);
  }

  /** So is one of a temporary trigger, and one that is to be explained. */
  lemma ExplainedIsComplete(explain: string, create: string, temp: string, trigger: string, body: string, end: string)
    requires SameLetters(explain, "explain") && SameLetters(create, "create") && SameLetters(trigger, "trigger")
    requires (SameLetters(temp, "temp") || SameLetters(temp, "temporary")) && SameLetters(end, "end") && Plain(body)
    ensures Scan(explain + (" " + TriggerText(create, temp + " " + trigger, body, end + ";")), 0, 0)
  {
    var inBody := body + ";" + (end + ";");
    var afterTrigger := " " + inBody;
    var afterTemp := " " + (trigger + afterTrigger);
    var afterCreate := " " + (temp + afterTemp);
    assert temp + " " + trigger + afterTrigger == temp + afterTemp;
    ExplainWord(explain, " " + (create + afterCreate), 0);
    SpaceIsWhite(' ', create + afterCreate, 3);
    CreateWord(create, afterCreate, 3);
    SpaceIsWhite(' ', temp + afterTemp, 4);
    TempWord(temp, afterTemp, 4);
    SpaceIsWhite(' ', trigger + afterTrigger, 4);
    TriggerWord(trigger, afterTrigger, 4);
    SpaceIsWhite(' ', inBody, 5);
    PlainBody(body, end + ";", 5);
    EndWord(end, ";", 6);
    SemicolonIsSemi("", 7);
    assert ";" + "" == ";";
  }

  /** Letters, digits, underscores, dollar signs and all that is not ASCII. */
  predicate WordChar(c: char) {
    'a' <= c <= 'z' || 'A' <= c <= 'Z' || '0' <= c <= '9' || c == '_' || c == '$' || 0x80 <= c as int
  }

  /** END is no END when any of these follows at once. */
  lemma LongerThanEnd(create: string, trigger: string, body: string, end: string, more: string)
    requires SameLetters(create, "create") && SameLetters(trigger, "trigger") && SameLetters(end, "end") && Plain(body)
    requires 0 < |more| && forall k :: 0 <= k < |more| ==> WordChar(more[k])
    ensures !Scan(TriggerText(create, trigger, body, end + more + ";"), 0, 0)
  {
    var w := end + more;
    TriggerHead(create, trigger, body, w + ";");
    assert forall k :: 0 <= k < |w| ==> IdChar(w[k]);
    assert forall k :: 0 <= k < |w| ==> (w + ";")[k] == w[k];
    NextWord(w + ";", 0, |w|);
    FirstToken(w, ";", Next(w + ";", 0).token, 6);
    SemicolonIsSemi("", 5);
    assert ";" + "" == ";";
  }

  /** Any other first word makes an ordinary statement, which the first semicolon ends. */
  lemma OrdinaryIsComplete(w: string, body: string)
    requires 0 < |w| && Plain(body) && forall k :: 0 <= k < |w| ==> WordChar(w[k])
    requires !SameLetters(w, "create") && !SameLetters(w, "explain") && !SameLetters(w, "trigger")
    requires !SameLetters(w, "temp") && !SameLetters(w, "temporary") && !SameLetters(w, "end")
    ensures Scan(w + (" " + (body + ";" + "")), 0, 0)
    ensures !Scan(w, 0, 0)
  {
    var rest := " " + (body + ";" + "");
    OtherWord(w, rest);
    FirstToken(w, rest, OTHER, 0);
    SpaceIsWhite(' ', body + ";" + "", 2);
    PlainBody(body, "", 2);
    OtherWord(w, "");
    FirstToken(w, "", OTHER, 0);
    assert w + "" == w;
  }

  lemma OtherWord(w: string, rest: string)
    requires 0 < |w| && (forall k :: 0 <= k < |w| ==> WordChar(w[k])) && (0 < |rest| ==> !IdChar(rest[0]))
    requires !SameLetters(w, "create") && !SameLetters(w, "explain") && !SameLetters(w, "trigger")
    requires !SameLetters(w, "temp") && !SameLetters(w, "temporary") && !SameLetters(w, "end")
    ensures Next(w + rest, 0) == Tok(OTHER, |w|)
  {
    var z := w + rest;
    NextWord(z, 0, |w|);
    SpellsHere(w, rest, "create");
    SpellsHere(w, rest, "explain");
    SpellsHere(w, rest, "trigger");
    SpellsHere(w, rest, "temp");
    SpellsHere(w, rest, "temporary");
    SpellsHere(w, rest, "end");
  }

  lemma SpellsHere(w: string, rest: string, word: string)
    ensures Spells(w + rest, 0, |w|, word) <==> SameLetters(w, word)
  {
    assert forall k :: 0 <= k < |w| ==> (w + rest)[k] == w[k];
    assert Spells(w + rest, 0, |w|, word) ==> forall k :: 0 <= k < |w| ==> Lower((w + rest)[0 + k]) == word[k];
  }
}
