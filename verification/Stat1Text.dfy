/** The lists of integers stored in the statistics tables (analyze.c): printing them with
    "%llu" and a space between, and decodeIntArray, which reads them back. */
module Stat1Text {
  import opened Arithmetic

  /** tRowcnt is a 32-bit unsigned integer unless SQLITE_64BIT_STATS is defined. */
  const ROWCNT: nat := 0x1_0000_0000

  function Digit(d: nat): char
    requires d < 10
  {
    ('0' as int + d) as char
  }

  predicate IsDigit(c: char) {
    '0' <= c <= '9'
  }

  function Decimal(n: nat): (s: string)
    ensures |s| > 0 && forall k :: 0 <= k < |s| ==> IsDigit(s[k])
  {
    if n < 10 then [Digit(n)] else Decimal(n / 10) + [Digit(n % 10)]
  }

  /** The numbers from index i on, separated by single spaces. */
  function Join(xs: seq<nat>, i: nat := 0): string
    requires i < |xs|
    decreases |xs| - i
  {
    if i + 1 == |xs| then Decimal(xs[i]) else Decimal(xs[i]) + " " + Join(xs, i + 1)
  }

  lemma {:induction false} JoinSnoc(xs: seq<nat>, x: nat, i: nat)
    requires i < |xs|
    ensures Join(xs + [x], i) == Join(xs, i) + " " + Decimal(x)
    decreases |xs| - i
  {
    if i + 1 < |xs| { JoinSnoc(xs, x, i + 1); }
  }

  /** Where the digits that start at pos end. */
  function DigitEnd(z: string, pos: nat): (e: nat)
    requires pos <= |z|
    ensures pos <= e <= |z|
    decreases |z| - pos
  {
    if pos < |z| && IsDigit(z[pos]) then DigitEnd(z, pos + 1) else pos
  }

  /** The number written in z[lo..hi]. */
  function Value(z: string, lo: nat, hi: nat): int
    requires lo <= hi <= |z|
    decreases |z|, lo, hi
  {
    if lo == hi then 0 else Value(z, lo, hi - 1) * 10 + (z[hi - 1] as int - '0' as int)
  }

  /** Behind the digits at pos and one space. */
  function After(z: string, pos: nat): (e: nat)
    requires pos <= |z|
    ensures pos <= e <= |z|
  {
    var e := DigitEnd(z, pos);
    if e < |z| && z[e] == ' ' then e + 1 else e
  }

  /** The first n numbers of z[pos..]. */
  function Numbers(z: string, pos: nat, n: nat): seq<int>
    requires pos <= |z|
    decreases |z| - pos, n
  {
    if pos == |z| || n == 0 then []
    else [Value(z, pos, DigitEnd(z, pos))] + Numbers(z, After(z, pos), n - 1)
  }

  /** What a list of numbers becomes in tRowcnt. */
  ghost predicate Wrapped(xs: seq<int>, ys: seq<nat>) {
    |ys| == |xs| && forall k :: 0 <= k < |xs| ==> ys[k] == xs[k] % ROWCNT
  }

  lemma {:induction false} DigitsEnd(z: string, pos: nat, e: nat)
    requires pos <= e <= |z| && (forall k :: pos <= k < e ==> IsDigit(z[k])) && (e < |z| ==> !IsDigit(z[e]))
    ensures DigitEnd(z, pos) == e
    decreases e - pos
  {
    if pos < e { DigitsEnd(z, pos + 1, e); }
  }

  lemma {:induction false} DecimalValue(z: string, pos: nat, n: nat)
    requires pos + |Decimal(n)| <= |z| && z[pos..pos + |Decimal(n)|] == Decimal(n)
    ensures Value(z, pos, pos + |Decimal(n)|) == n
  {
    var d := Decimal(n);
    var m := |d| - 1;
    assert z[pos + m] == z[pos..pos + |d|][m] == Digit(n % 10);
    if n >= 10 {
      assert z[pos..pos + m] == z[pos..pos + |d|][..m] == Decimal(n / 10);
      DecimalValue(z, pos, n / 10);
    }
  }

  /** One printed number at pos, at the end of z or followed by a space. */
  lemma ReadDecimal(z: string, pos: nat, n: nat, e: nat)
    requires e == pos + |Decimal(n)| <= |z| && z[pos..e] == Decimal(n) && (e < |z| ==> z[e] == ' ')
    ensures Value(z, pos, DigitEnd(z, pos)) == n
    ensures After(z, pos) == if e < |z| then e + 1 else e
  {
    forall k | pos <= k < e
      ensures IsDigit(z[k])
    {
      assert z[k] == z[pos..e][k - pos];
    }
    DigitsEnd(z, pos, e);
    DecimalValue(z, pos, n);
  }

  /** The text at pos starts with the i-th number, and the text of the others follows. */
  lemma JoinAt(z: string, pos: nat, xs: seq<nat>, i: nat)
    requires pos <= |z| && i < |xs| && z[pos..] == Join(xs, i)
    ensures var e := pos + |Decimal(xs[i])|;
      && e <= |z| && z[pos..e] == Decimal(xs[i])
      && (i + 1 == |xs| ==> e == |z|)
      && (i + 1 < |xs| ==> e < |z| && z[e] == ' ' && z[e + 1..] == Join(xs, i + 1))
  {
    var d, t := Decimal(xs[i]), z[pos..];
    assert z[pos..pos + |d|] == t[..|d|];
    if i + 1 < |xs| {
      assert t[|d|] == ' ';
      assert z[pos + |d| + 1..] == t[|d| + 1..];
    }
  }

  lemma FirstNumber(z: string, pos: nat, xs: seq<nat>, i: nat)
    requires pos <= |z| && i < |xs| && z[pos..] == Join(xs, i)
    ensures pos < |z| && Value(z, pos, DigitEnd(z, pos)) == xs[i]
    ensures i + 1 == |xs| ==> After(z, pos) == |z|
    ensures i + 1 < |xs| ==> z[After(z, pos)..] == Join(xs, i + 1)
  {
    JoinAt(z, pos, xs, i);
    ReadDecimal(z, pos, xs[i], pos + |Decimal(xs[i])|);
  }

  /** Reading what was printed gives the printed numbers. */
  lemma {:induction false} NumbersJoin(z: string, pos: nat, xs: seq<nat>, i: nat, n: nat)
    requires pos <= |z| && i < |xs| && n == |xs| - i && z[pos..] == Join(xs, i)
    ensures Numbers(z, pos, n) == xs[i..]
    decreases n
  {
    FirstNumber(z, pos, xs, i);
    if n > 1 { NumbersJoin(z, After(z, pos), xs, i + 1, n - 1); }
    assert xs[i..] == [xs[i]] + xs[i + 1..];
  }

  /** Round trip: exactly the lists whose members all fit tRowcnt come back unchanged. */
  lemma RoundTrip(xs: seq<nat>, ys: seq<nat>)
    requires |xs| > 0 && Wrapped(Numbers(Join(xs), 0, |xs|), ys)
    ensures ys == xs <==> forall k :: 0 <= k < |xs| ==> xs[k] < ROWCNT
  {
    var z := Join(xs);
    assert z[0..] == z && xs[0..] == xs;
    NumbersJoin(z, 0, xs, 0, |xs|);
    WrappedFits(xs, ys);
  }

  lemma WrappedFits(xs: seq<nat>, ys: seq<nat>)
    requires Wrapped(xs, ys)
    ensures ys == xs <==> forall k :: 0 <= k < |xs| ==> xs[k] < ROWCNT
  {
    assert forall k :: 0 <= k < |xs| ==> (ys[k] == xs[k] <==> xs[k] < ROWCNT);
  }

  lemma WrapStep(v: nat, value: int, c: int)
    requires v == value % ROWCNT
    ensures (v * 10 + c) % ROWCNT == (value * 10 + c) % ROWCNT
  {
  }

  /** Lines 1439-1443 */
  method ReadNumber(z: string, start: nat) returns (v: nat, pos: nat)
    requires start <= |z|
    ensures pos == DigitEnd(z, start) && v == Value(z, start, pos) % ROWCNT
    ensures start <= pos && (forall k :: start <= k < pos ==> IsDigit(z[k])) && (pos < |z| ==> !IsDigit(z[pos]))
  {
    v, pos := 0, start;
    while pos < |z| && IsDigit(z[pos])
      invariant start <= pos <= |z|
      invariant forall k :: start <= k < pos ==> IsDigit(z[k])
      invariant v == Value(z, start, pos) % ROWCNT
    {
      var c := z[pos] as int - '0' as int;
      WrapStep(v, Value(z, start, pos), c);
      v := (v * 10 + c) % ROWCNT;
      pos := pos + 1;
    }
    DigitsEnd(z, start, pos);
  }

  /** A number is read at start: it takes all the digits there, none if there are none, and one space
      behind them goes with it. */
  ghost predicate ReadAt(z: string, start: nat, end: nat, next: nat, v: nat) {
    && start <= end <= |z| && (forall k :: start <= k < end ==> IsDigit(z[k])) && (end < |z| ==> !IsDigit(z[end]))
    && v == Value(z, start, end) % ROWCNT
    && next == if end < |z| && z[end] == ' ' then end + 1 else end
  }

  /** decodeIntArray: the first nOut numbers, each in 32 bits. They are read one behind the other, until
      there are enough or the text ends. */
  method DecodeIntArray(zIntArray: string, nOut: nat)
    returns (aOut: seq<nat>, ghost starts: seq<nat>, ghost ends: seq<nat>)
    ensures Wrapped(Numbers(zIntArray, 0, nOut), aOut)
    ensures |starts| == |aOut| + 1 && |ends| == |aOut| <= nOut && starts[0] == 0
    ensures forall k :: 0 <= k < |aOut| ==>
      starts[k] < |zIntArray| && ReadAt(zIntArray, starts[k], ends[k], starts[k + 1], aOut[k])
    ensures |aOut| == nOut || starts[|aOut|] == |zIntArray|
  {
    aOut := [];
    var pos: nat, i: nat := 0, 0;
    starts, ends := [pos], [];
    ghost var all, acc: seq<int> := Numbers(zIntArray, 0, nOut), [];
    assert all == acc + Numbers(zIntArray, pos, nOut - i);
    while pos < |zIntArray| && i < nOut
      invariant pos <= |zIntArray| && i == |aOut| <= nOut
      invariant all == acc + Numbers(zIntArray, pos, nOut - i) && Wrapped(acc, aOut)
      invariant |starts| == i + 1 && |ends| == i && starts[0] == 0 && starts[i] == pos
      invariant forall k :: 0 <= k < i ==>
        starts[k] < |zIntArray| && ReadAt(zIntArray, starts[k], ends[k], starts[k + 1], aOut[k])
      decreases nOut - i
    {
      ghost var x, rest := NumbersNext(zIntArray, pos, nOut - i);
      var v, end := ReadNumber(zIntArray, pos);
      pos := end;
      if pos < |zIntArray| && zIntArray[pos] == ' ' {
        pos := pos + 1;
      }
      assert acc + ([x] + rest) == (acc + [x]) + rest;
      acc := acc + [x];
      aOut := aOut + [v];
      starts, ends := starts + [pos], ends + [end];
      i := i + 1;
    }
    assert acc + Numbers(zIntArray, pos, nOut - i) == acc;
  }

  lemma NumbersNext(z: string, pos: nat, n: nat) returns (x: int, rest: seq<int>)
    requires pos < |z| && n > 0
    ensures x == Value(z, pos, DigitEnd(z, pos)) && rest == Numbers(z, After(z, pos), n - 1)
    ensures Numbers(z, pos, n) == [x] + rest
  {
    x, rest := Value(z, pos, DigitEnd(z, pos)), Numbers(z, After(z, pos), n - 1);
  }

  // ---- the estimates of sqlite_stat1

  /** I = (K+D-1)/D */
  function Estimate(k: nat, d: nat): nat
    requires d > 0
  {
    (k + d - 1) / d
  }

  /** The estimate is the quotient rounded up, so it lies in 1..k and is 1 when all are distinct. */
  lemma EstimateIsCeiling(k: nat, d: nat)
    requires 0 < d <= k
    ensures var e := Estimate(k, d);
      && (e - 1) * d < k <= e * d
      && 1 <= e <= k
      && (d == k ==> e == 1)
  {
    var e := Estimate(k, d);
    var q := RoundUp(k, d);
    Distribute(e, 1, d);
    Less(0, e, d);
    Monotone(1, d, k);
    Less(e - 1, k, d);
    if d == k { Less(e - 1, 1, d); }
  }

  lemma EstimateDecreases(k: nat, d: nat, d': nat)
    requires 0 < d <= d' <= k
    ensures Estimate(k, d') <= Estimate(k, d)
  {
    EstimateIsCeiling(k, d);
    EstimateIsCeiling(k, d');
    var e, e' := Estimate(k, d), Estimate(k, d');
    Monotone(d, d', e);
    Less(e' - 1, e, d');
  }
}
