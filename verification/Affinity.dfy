/** sqlite3AffinityType (build.c): the affinity of a column from its declared type, found by one
    pass with a rolling hash of the last four letters. */
module Affinity {
  import opened Arithmetic
  import opened Ascii

  type Byte = c: char | 0 < c as int < 0x100 witness 'a'
  datatype Aff = BLOB | TEXT | NUMERIC | INTEGER | REAL

  /** The word, in lower case, ends just before position k of the type name. */
  predicate EndsAt(z: seq<Byte>, k: nat, word: string) {
    |word| <= k <= |z| && forall j :: 0 <= j < |word| ==> Lower(z[k - |word| + j]) == word[j]
  }

  predicate Seen(z: seq<Byte>, i: nat, word: string) {
    exists k :: 0 <= k <= i && EndsAt(z, k, word)
  }

  predicate Contains(z: seq<Byte>, word: string) {
    Seen(z, |z|, word)
  }

  /** The table in the comment: the first row whose word occurs anywhere decides. */
  function FromTable(z: seq<Byte>): Aff {
    if Contains(z, "int") then INTEGER else Best(z, |z|)
  }

  function Best(z: seq<Byte>, i: nat): Aff {
    if Seen(z, i, "char") || Seen(z, i, "clob") || Seen(z, i, "text") then TEXT
    else if Seen(z, i, "blob") then BLOB
    else if Seen(z, i, "real") || Seen(z, i, "floa") || Seen(z, i, "doub") then REAL
    else NUMERIC
  }

  /* ---------- The hash is a window on the last four letters ---------- */

  function At(z: seq<Byte>, k: int): (b: nat)
    requires k < |z|
    ensures b < 0x100 && (b == 0 <==> k < 0)
  {
    if k < 0 then 0 else Lower(z[k]) as int
  }

  function Packed(a: nat, b: nat, c: nat, d: nat): nat {
    a * 0x1000000 + b * 0x10000 + c * 0x100 + d
  }

  function Window(z: seq<Byte>, i: nat): nat
    requires i <= |z|
  {
    Packed(At(z, i - 4), At(z, i - 3), At(z, i - 2), At(z, i - 1))
  }

  /** h = (h<<8) + sqlite3UpperToLower[c], on 32 bits. */
  function Roll(h: nat, c: Byte): nat {
    (h * 0x100 + Lower(c) as int) % 0x1_0000_0000
  }

  function Hash(z: seq<Byte>, i: nat): nat
    requires i <= |z|
  {
    if i == 0 then 0 else Roll(Hash(z, i - 1), z[i - 1])
  }

  lemma PackedRolls(a: nat, b: nat, c: nat, d: nat, e: nat)
    requires b < 0x100 && c < 0x100 && d < 0x100 && e < 0x100
    ensures (Packed(a, b, c, d) * 0x100 + e) % 0x1_0000_0000 == Packed(b, c, d, e)
  {
    assert Packed(a, b, c, d) * 0x100 + e == a * 0x1_0000_0000 + Packed(b, c, d, e);
    QuotRem(a, 0x1_0000_0000, Packed(b, c, d, e));
  }

  lemma RollPacked(a: nat, b: nat, c: nat, d: nat, x: Byte)
    requires b < 0x100 && c < 0x100 && d < 0x100
    ensures Roll(Packed(a, b, c, d), x) == Packed(b, c, d, Lower(x) as int)
  {
    PackedRolls(a, b, c, d, Lower(x) as int);
  }

  /** The hash remembers exactly the last four letters. */
  lemma {:induction false} HashIsWindow(z: seq<Byte>, i: nat)
    requires i <= |z|
    ensures Hash(z, i) == Window(z, i)
  {
    if 0 < i {
      HashIsWindow(z, i - 1);
      RollPacked(At(z, i - 5), At(z, i - 4), At(z, i - 3), At(z, i - 2), z[i - 1]);
    }
  }

  function Code(word: string): nat
    requires |word| == 4
  {
    Packed(word[0] as int, word[1] as int, word[2] as int, word[3] as int)
  }

  lemma DigitIsOneToOne(q: nat, d: nat, q': nat, d': nat)
    requires d < 0x100 && d' < 0x100
    ensures q * 0x100 + d == q' * 0x100 + d' ==> q == q' && d == d'
  {
  }

  lemma PackedIsOneToOne(a: nat, b: nat, c: nat, d: nat, a': nat, b': nat, c': nat, d': nat)
    requires b < 0x100 && c < 0x100 && d < 0x100 && b' < 0x100 && c' < 0x100 && d' < 0x100
    ensures Packed(a, b, c, d) == Packed(a', b', c', d') ==> a == a' && b == b' && c == c' && d == d'
  {
    var p, p' := a * 0x100 + b, a' * 0x100 + b';
    var q, q' := p * 0x100 + c, p' * 0x100 + c';
    DigitIsOneToOne(q, d, q', d');
    DigitIsOneToOne(p, c, p', c');
    DigitIsOneToOne(a, b, a', b');
  }

  lemma LowDigits(a: nat, b: nat, c: nat, d: nat)
    requires b < 0x100 && c < 0x100 && d < 0x100
    ensures Packed(a, b, c, d) % 0x1000000 == Packed(0, b, c, d)
  {
    QuotRem(a, 0x1000000, Packed(0, b, c, d));
  }

  predicate Letters(word: string) {
    forall j :: 0 <= j < |word| ==> 0 < word[j] as int < 0x100
  }

  /** Comparing hashes compares the last four letters. */
  lemma WindowIsWord(z: seq<Byte>, i: nat, word: string)
    requires i <= |z| && |word| == 4 && Letters(word)
    ensures Window(z, i) == Code(word) <==> EndsAt(z, i, word)
  {
    var a, b, c, d := word[0] as int, word[1] as int, word[2] as int, word[3] as int;
    PackedIsOneToOne(At(z, i - 4), At(z, i - 3), At(z, i - 2), At(z, i - 1), a, b, c, d);
    assert Window(z, i) == Code(word) ==> 4 <= i;
  }

  lemma WindowIsShortWord(z: seq<Byte>, i: nat, word: string)
    requires i <= |z| && |word| == 3 && Letters(word)
    ensures Window(z, i) % 0x1000000 == Packed(0, word[0] as int, word[1] as int, word[2] as int)
      <==> EndsAt(z, i, word)
  {
    var b, c, d := word[0] as int, word[1] as int, word[2] as int;
    LowDigits(At(z, i - 4), At(z, i - 3), At(z, i - 2), At(z, i - 1));
    PackedIsOneToOne(0, At(z, i - 3), At(z, i - 2), At(z, i - 1), 0, b, c, d);
  }

  lemma SeenStep(z: seq<Byte>, i: nat, word: string)
    requires 0 < |word|
    ensures !Seen(z, 0, word)
    ensures Seen(z, i + 1, word) <==> Seen(z, i, word) || EndsAt(z, i + 1, word)
  {
  }

  lemma WordStep(z: seq<Byte>, i: nat, word: string)
    requires i < |z| && |word| == 4 && Letters(word)
    ensures Seen(z, i + 1, word) <==> Seen(z, i, word) || Hash(z, i + 1) == Code(word)
  {
    SeenStep(z, i, word);
    HashIsWindow(z, i + 1);
    WindowIsWord(z, i + 1, word);
  }

  const CHAR: nat := Packed('c' as int, 'h' as int, 'a' as int, 'r' as int)
  const CLOB: nat := Packed('c' as int, 'l' as int, 'o' as int, 'b' as int)
  const TEXT_NAME: nat := Packed('t' as int, 'e' as int, 'x' as int, 't' as int)
  const BLOB_NAME: nat := Packed('b' as int, 'l' as int, 'o' as int, 'b' as int)
  const REAL_NAME: nat := Packed('r' as int, 'e' as int, 'a' as int, 'l' as int)
  const FLOA: nat := Packed('f' as int, 'l' as int, 'o' as int, 'a' as int)
  const DOUB: nat := Packed('d' as int, 'o' as int, 'u' as int, 'b' as int)
  const INT: nat := Packed(0, 'i' as int, 'n' as int, 't' as int)

  lemma IntStep(z: seq<Byte>, i: nat)
    requires i < |z|
    ensures Seen(z, i + 1, "int") <==> Seen(z, i, "int") || Hash(z, i + 1) % 0x1000000 == INT
  {
    SeenStep(z, i, "int");
    HashIsWindow(z, i + 1);
    WindowIsShortWord(z, i + 1, "int");
  }

  /** What a window without "int" does to the affinity so far. */
  function Step(h: nat, aff: Aff): Aff {
    if h == CHAR || h == CLOB || h == TEXT_NAME then TEXT
    else if h == BLOB_NAME && (aff == NUMERIC || aff == REAL) then BLOB
    else if (h == REAL_NAME || h == FLOA || h == DOUB) && aff == NUMERIC then REAL
    else aff
  }

  lemma BestStep(z: seq<Byte>, i: nat)
    requires i < |z|
    ensures Best(z, i + 1) == Step(Hash(z, i + 1), Best(z, i))
  {
    assert Code("char") == CHAR && Code("clob") == CLOB && Code("text") == TEXT_NAME && Code("blob") == BLOB_NAME;
    assert Code("real") == REAL_NAME && Code("floa") == FLOA && Code("doub") == DOUB;
    WordStep(z, i, "char");
    WordStep(z, i, "clob");
    WordStep(z, i, "text");
    WordStep(z, i, "blob");
    WordStep(z, i, "real");
    WordStep(z, i, "floa");
    WordStep(z, i, "doub");
  }

  /** What the loop keeps: no "int" among the first i letters, and the rest of the table. */
  predicate SoFar(z: seq<Byte>, i: nat, h: nat, aff: Aff) {
    i <= |z| && h == Hash(z, i) && aff == Best(z, i) && !Seen(z, i, "int")
  }

  lemma NothingSeen(z: seq<Byte>, i: nat, h: nat)
    requires i == 0 == h
    ensures SoFar(z, i, h, NUMERIC)
  {
  }

  lemma LetterKeeps(z: seq<Byte>, i: nat, h: nat, aff: Aff)
    requires i < |z| && SoFar(z, i, h, aff)
    ensures Roll(h, z[i]) % 0x1000000 != INT ==> SoFar(z, i + 1, Roll(h, z[i]), Step(Roll(h, z[i]), aff))
    ensures Roll(h, z[i]) % 0x1000000 == INT ==> FromTable(z) == INTEGER
  {
    BestStep(z, i);
    IntStep(z, i);
  }

  lemma AllSeen(z: seq<Byte>, h: nat, aff: Aff)
    requires SoFar(z, |z|, h, aff)
    ensures aff == FromTable(z)
  {
  }

  /** The tests of the loop body on the current hash. */
  method Classify(h: nat, aff: Aff) returns (next: Aff, found: bool)
    ensures found <==> h % 0x1000000 == INT
    ensures next == if found then INTEGER else Step(h, aff)
  {
    next, found := aff, false;
    if h == CHAR {
      next := TEXT;
    } else if h == CLOB {
      next := TEXT;
    } else if h == TEXT_NAME {
      next := TEXT;
    } else if h == BLOB_NAME && (aff == NUMERIC || aff == REAL) {
      next := BLOB;
    } else if h == REAL_NAME && aff == NUMERIC {
      next := REAL;
    } else if h == FLOA && aff == NUMERIC {
      next := REAL;
    } else if h == DOUB && aff == NUMERIC {
      next := REAL;
    } else if h % 0x1000000 == INT {
      next := INTEGER;
      found := true;
    }
  }

  /** sqlite3AffinityType: the first row of the documented table whose word occurs anywhere decides. */
  method AffinityType(z: seq<Byte>) returns (aff: Aff)
    ensures aff == INTEGER <==> Contains(z, "int")
    ensures aff == TEXT <==>
      !Contains(z, "int") && (Contains(z, "char") || Contains(z, "clob") || Contains(z, "text"))
    ensures aff == BLOB <==>
      && !Contains(z, "int") && !Contains(z, "char") && !Contains(z, "clob") && !Contains(z, "text")
      && Contains(z, "blob")
    ensures aff == REAL <==>
      && !Contains(z, "int") && !Contains(z, "char") && !Contains(z, "clob") && !Contains(z, "text")
      && !Contains(z, "blob") && (Contains(z, "real") || Contains(z, "floa") || Contains(z, "doub"))
  {
    aff := FindAffinity(z);
    TableMeans(z);
  }

  lemma TableMeans(z: seq<Byte>)
    ensures FromTable(z) == INTEGER <==> Contains(z, "int")
    ensures FromTable(z) == TEXT <==>
      !Contains(z, "int") && (Contains(z, "char") || Contains(z, "clob") || Contains(z, "text"))
    ensures FromTable(z) == BLOB <==>
      && !Contains(z, "int") && !Contains(z, "char") && !Contains(z, "clob") && !Contains(z, "text")
      && Contains(z, "blob")
    ensures FromTable(z) == REAL <==>
      && !Contains(z, "int") && !Contains(z, "char") && !Contains(z, "clob") && !Contains(z, "text")
      && !Contains(z, "blob") && (Contains(z, "real") || Contains(z, "floa") || Contains(z, "doub"))
  {
  }

  /** The 32-bit hash loop, which stops at the first "int". */
  method FindAffinity(z: seq<Byte>) returns (aff: Aff)
    ensures aff == FromTable(z)
  {
    var h: nat := 0;
    aff := NUMERIC;
    var i: nat := 0;
    NothingSeen(z, i, h);
    while i < |z|
      invariant SoFar(z, i, h, aff)
    {
      LetterKeeps(z, i, h, aff);
      h := Roll(h, z[i]);
      var found: bool;
      aff, found := Classify(h, aff);
      i := i + 1;
      if found {
        return;
      }
    }
    AllSeen(z, h, aff);
  }
}
