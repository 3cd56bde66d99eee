/** The Bitvec object of bitvec.c for a 64-bit build: a set of integers 1..iSize held as a
    flat bitmap, as a small hash table, or as 62 sub-bitvecs, whichever its size and history
    call for. The union of the C struct is modelled as three buffers of which one is live. */
module Bitvecs {
  import opened Arithmetic
  import opened BitvecHash
  import opened Memory

  const U32: nat := 0x1_0000_0000
  const NELEM: nat := 496
  const NBIT: nat := 3968
  const MXHASH: nat := 62
  const NPTR: nat := 62

  /** Line 219, in 32-bit unsigned arithmetic. */
  function Divisor(iSize: nat): (d: nat)
    requires iSize < U32
  {
    (iSize + NPTR - 1) % U32 / NPTR
  }

  /** The 62 bins cover 1..iSize exactly when the sum in line 219 does not wrap. */
  lemma DivisorCovers(iSize: nat)
    requires NBIT < iSize < U32
    ensures iSize <= NPTR * Divisor(iSize) <==> iSize + NPTR - 1 < U32
    ensures iSize + NPTR - 1 < U32 ==> 0 < Divisor(iSize) < iSize
  {
    if iSize + NPTR - 1 >= U32 {
      assert (iSize + NPTR - 1) % U32 == iSize + NPTR - 1 - U32;
    }
  }

  /** How often a bitvec of this size can be subdivided. */
  ghost function Depth(iSize: nat): nat
    requires iSize + NPTR - 1 < U32
  {
    if iSize <= NBIT then 0
    else
      DivisorCovers(iSize);
      1 + Depth(Divisor(iSize))
  }

  /** The largest bitvec that n subdivisions bring down to flat bitmaps. */
  ghost function Reach(n: nat): nat {
    if n == 0 then NBIT else NPTR * Reach(n - 1)
  }

  lemma {:induction false} DepthWithin(iSize: nat, n: nat)
    requires iSize + NPTR - 1 < U32 && iSize <= Reach(n)
    ensures Depth(iSize) <= n
  {
    if iSize > NBIT {
      DivisorCovers(iSize);
      assert Divisor(iSize) <= Reach(n - 1);
      DepthWithin(Divisor(iSize), n - 1);
    }
  }

  lemma DepthBound(iSize: nat)
    requires iSize + NPTR - 1 < U32
    ensures Depth(iSize) <= 4
  {
    assert Reach(2) == NPTR * (NPTR * NBIT);
    DepthWithin(iSize, 4);
  }

  /** 1 << b */
  function Mask(b: nat): bv8
    requires b < 8
  {
    if b == 0 then 1 else if b == 1 then 2 else if b == 2 then 4 else if b == 3 then 8
    else if b == 4 then 16 else if b == 5 then 32 else if b == 6 then 64 else 128
  }

  predicate Bit(x: bv8, b: nat)
    requires b < 8
  {
    x & Mask(b) != 0
  }

  lemma OrBit(x: bv8, b: nat, c: nat)
    requires b < 8 && c < 8
    ensures Bit(x | Mask(b), c) <==> b == c || Bit(x, c)
  {
    assert Mask(b) != 0 && (b != c ==> Mask(b) & Mask(c) == 0);
  }

  lemma AndNotBit(x: bv8, b: nat, c: nat)
    requires b < 8 && c < 8
    ensures Bit(x & !Mask(b), c) <==> b != c && Bit(x, c)
  {
    assert Mask(b) != 0 && (b != c ==> Mask(b) & Mask(c) == 0);
  }

  /** Bit number j (counted from 1) of a bitmap. */
  predicate BitAt(m: seq<bv8>, j: nat)
    requires |m| == NELEM && 1 <= j <= NBIT
  {
    Bit(m[(j - 1) / 8], (j - 1) % 8)
  }

  ghost function Bits(m: seq<bv8>, iSize: nat): set<nat>
    requires |m| == NELEM && iSize <= NBIT
  {
    set j: nat | 1 <= j <= iSize && BitAt(m, j)
  }

  lemma SetBitAt(m: seq<bv8>, i: nat, j: nat)
    requires |m| == NELEM && 1 <= i <= NBIT && 1 <= j <= NBIT
    ensures var k := (i - 1) / 8;
      BitAt(m[k := m[k] | Mask((i - 1) % 8)], j) <==> j == i || BitAt(m, j)
  {
    OrBit(m[(i - 1) / 8], (i - 1) % 8, (j - 1) % 8);
  }

  lemma ClearBitAt(m: seq<bv8>, i: nat, j: nat)
    requires |m| == NELEM && 1 <= i <= NBIT && 1 <= j <= NBIT
    ensures var k := (i - 1) / 8;
      BitAt(m[k := m[k] & !Mask((i - 1) % 8)], j) <==> j != i && BitAt(m, j)
  {
    AndNotBit(m[(i - 1) / 8], (i - 1) % 8, (j - 1) % 8);
  }

  lemma SetBit(m: seq<bv8>, iSize: nat, i: nat)
    requires |m| == NELEM && 1 <= i <= iSize <= NBIT
    ensures var k := (i - 1) / 8;
      Bits(m[k := m[k] | Mask((i - 1) % 8)], iSize) == Bits(m, iSize) + {i}
  {
    forall j: nat | 1 <= j <= iSize { SetBitAt(m, i, j); }
  }

  lemma ClearBit(m: seq<bv8>, iSize: nat, i: nat)
    requires |m| == NELEM && 1 <= i <= iSize <= NBIT
    ensures var k := (i - 1) / 8;
      Bits(m[k := m[k] & !Mask((i - 1) % 8)], iSize) == Bits(m, iSize) - {i}
  {
    forall j: nat | 1 <= j <= iSize { ClearBitAt(m, i, j); }
  }

  /** Line 185. */
  method BitOn(m: array<bv8>, ghost iSize: nat, i: nat)
    requires m.Length == NELEM && 1 <= i <= iSize <= NBIT
    modifies m
    ensures Bits(m[..], iSize) == Bits(old(m[..]), iSize) + {i}
  {
    SetBit(m[..], iSize, i);
    var k := (i - 1) / 8;
    m[k] := m[k] | Mask((i - 1) % 8);
    assert m[..] == old(m[..])[k := m[k]];
  }

  /** Line 253. */
  method BitOff(m: array<bv8>, ghost iSize: nat, i: nat)
    requires m.Length == NELEM && 1 <= i <= iSize <= NBIT
    modifies m
    ensures Bits(m[..], iSize) == Bits(old(m[..]), iSize) - {i}
  {
    ClearBit(m[..], iSize, i);
    var k := (i - 1) / 8;
    m[k] := m[k] & !Mask((i - 1) % 8);
    assert m[..] == old(m[..])[k := m[k]];
  }

  function Bin(d: nat, i: nat): nat
    requires d > 0 && i > 0
  {
    (i - 1) / d
  }

  function Off(d: nat, i: nat): nat
    requires d > 0 && i > 0
  {
    (i - 1) % d + 1
  }

  lemma BinRange(iSize: nat, i: nat)
    requires NBIT < iSize && iSize + NPTR - 1 < U32 && 1 <= i <= iSize
    ensures var d := Divisor(iSize); 0 < d < iSize && Bin(d, i) < NPTR && 1 <= Off(d, i) <= d
  {
    DivisorCovers(iSize);
    var d := Divisor(iSize);
    var q := (i - 1) / d;
    assert i - 1 == q * d + (i - 1) % d;
    if NPTR <= q {
      Monotone(NPTR, q, d);
    }
  }

  /** The set that 62 bins of d values each stand for. */
  ghost function Gather(parts: seq<set<nat>>, d: nat, iSize: nat): set<nat>
    requires |parts| == NPTR && d > 0
  {
    set j: nat | 1 <= j <= iSize && Bin(d, j) < NPTR && Off(d, j) in parts[Bin(d, j)]
  }

  lemma GatherMember(parts: seq<set<nat>>, iSize: nat, j: nat)
    requires |parts| == NPTR && NBIT < iSize && iSize + NPTR - 1 < U32 && 1 <= j <= iSize
    ensures var d := Divisor(iSize);
      && 0 < d < iSize && Bin(d, j) < NPTR && 1 <= Off(d, j) <= d
      && (j in Gather(parts, d, iSize) <==> Off(d, j) in parts[Bin(d, j)])
  {
    BinRange(iSize, j);
  }

  lemma BinOffInjective(d: nat, i: nat, j: nat)
    requires d > 0 && i > 0 && j > 0 && Bin(d, i) == Bin(d, j) && Off(d, i) == Off(d, j)
    ensures i == j
  {
    assert i - 1 == (i - 1) / d * d + (i - 1) % d;
    assert j - 1 == (j - 1) / d * d + (j - 1) % d;
  }

  lemma GatherEmpty(parts: seq<set<nat>>, d: nat, iSize: nat)
    requires |parts| == NPTR && d > 0 && forall k :: 0 <= k < NPTR ==> parts[k] == {}
    ensures Gather(parts, d, iSize) == {}
  {
  }

  /** Changing one bin by at most one value changes the whole set by at most the matching one. */
  lemma GatherUpdate(parts: seq<set<nat>>, iSize: nat, i: nat, part: set<nat>)
    requires |parts| == NPTR && NBIT < iSize && iSize + NPTR - 1 < U32 && 1 <= i <= iSize
    ensures var d := Divisor(iSize);
      && 0 < d && Bin(d, i) < NPTR
      && var k, off := Bin(d, i), Off(d, i);
      && var old', new' := Gather(parts, d, iSize), Gather(parts[k := part], d, iSize);
      && (part == parts[k] ==> new' == old')
      && (part == parts[k] + {off} ==> new' == old' + {i})
      && (part <= parts[k] + {off} ==> new' <= old' + {i})
      && (part == parts[k] - {off} ==> new' == old' - {i})
  {
    var d := Divisor(iSize);
    BinRange(iSize, i);
    var parts' := parts[Bin(d, i) := part];
    forall j: nat | 1 <= j <= iSize
      ensures Bin(d, j) < NPTR
      ensures Bin(d, j) != Bin(d, i) ==> parts'[Bin(d, j)] == parts[Bin(d, j)]
      ensures Bin(d, j) == Bin(d, i) && Off(d, j) == Off(d, i) ==> j == i
    {
      BinRange(iSize, j);
      if Bin(d, j) == Bin(d, i) && Off(d, j) == Off(d, i) { BinOffInjective(d, i, j); }
    }
  }

  ghost predicate AllRestored(contents: set<nat>, d: nat, values: set<nat>, failed: set<nat>)
    requires d > 0
  {
    contents <= values && forall v <- values :: v > 0 && Bin(d, v) !in failed ==> v in contents
  }

  lemma RestoredAfter(was: set<nat>, now: set<nat>, d: nat, values: set<nat>, failed: set<nat>, v: nat, ok: bool)
    requires d > 0 && v > 0 && AllRestored(was, d, values, failed) && now <= was + {v}
    requires ok ==> now == was + {v}
    requires forall j <- was :: j > 0 && Bin(d, j) != Bin(d, v) ==> j in now
    ensures AllRestored(now, d, values + {v}, failed + (if ok then {} else {Bin(d, v)}))
  {
  }

  datatype Rc = OK | NOMEM

  class Bitvec {
    const iSize: nat
    var nSet: nat
    var iDivisor: nat
    const aBitmap: array<bv8>
    const aHash: array<nat>
    const apSub: array<Bitvec?>
    ghost var Repr: set<object>
    ghost var Contents: set<nat>
    ghost var Parts: seq<set<nat>>

    ghost predicate Own()
      reads this
    {
      && iSize < U32
      && aBitmap.Length == NELEM && aHash.Length == NINT && apSub.Length == NPTR
      && {this, aBitmap, aHash, apSub} <= Repr
      && (iDivisor != 0 ==> NBIT < iSize && iSize + NPTR - 1 < U32 && iDivisor == Divisor(iSize))
    }

    /** Sub-bitvec k, if there is one, is a bitvec for iDivisor values inside this footprint. */
    ghost predicate SubOwned(k: nat)
      requires k < NPTR == apSub.Length == |Parts|
      reads this, Repr, apSub
    {
      apSub[k] != null ==>
        && apSub[k] in Repr && apSub[k].Repr <= Repr
        && {this, aBitmap, aHash, apSub} !! apSub[k].Repr
        && apSub[k].iSize == iDivisor
        && Parts[k] == apSub[k].Contents
    }

    ghost predicate Subs()
      requires apSub.Length == NPTR
      reads this, Repr, apSub
    {
      && |Parts| == NPTR
      && (forall k :: 0 <= k < NPTR ==> SubOwned(k) && (apSub[k] == null ==> Parts[k] == {}))
      && (forall k, l :: 0 <= k < l < NPTR && apSub[k] != null && apSub[l] != null ==>
            apSub[k].Repr !! apSub[l].Repr)
    }

    ghost predicate Valid()
      reads this, Repr
      decreases iSize
      ensures Valid() ==> this in Repr
    {
      && this in Repr && Own()
      && (forall j :: j in Contents ==> 1 <= j <= iSize)
      && (iDivisor == 0 && iSize <= NBIT ==> Contents == Bits(aBitmap[..], iSize))
      && (iDivisor == 0 && iSize > NBIT ==> Table(aHash[..], nSet) && Contents == Members(aHash[..]))
      && (iDivisor != 0 ==>
            && Subs()
            && Contents == Gather(Parts, iDivisor, iSize)
            && (forall k :: 0 <= k < NPTR && apSub[k] != null && apSub[k].iSize < iSize ==> apSub[k].Valid()))
    }

    constructor (iSize: nat)
      requires iSize < U32
      ensures Valid() && fresh(Repr) && Contents == {} && this.iSize == iSize && iDivisor == nSet == 0
    {
      this.iSize := iSize;
      nSet, iDivisor := 0, 0;
      aBitmap := new bv8[NELEM](_ => 0);
      aHash := new nat[NINT](_ => 0);
      apSub := new Bitvec?[NPTR](_ => null);
      Contents := {};
      new;
      Repr := {this, aBitmap, aHash, apSub};
      EmptyTable(aHash[..]);
    }

    /** sqlite3BitvecTest: a null bitvec and an out-of-range bit both test false. */
    static method Test(p: Bitvec?, i: nat) returns (r: bool)
      requires p != null ==> p.Valid()
      requires i < U32
      ensures r == (p != null && i in p.Contents)
    {
      if p == null { return false; }
      var k: nat := (i - 1) % U32;
      if k >= p.iSize { return false; }
      var q: Bitvec := p;
      while q.iDivisor != 0
        invariant q.Valid() && 0 <= k < q.iSize
        invariant (i in p.Contents) == (k + 1 in q.Contents)
        decreases q.iSize
      {
        var sub;
        sub, k := q.Descend(k);
        if sub == null { return false; }
        q := sub;
      }
      r := q.TestLeaf(k);
    }

    /** Lines 134-140: one level down, to the sub-bitvec that answers for k + 1, if there is one. */
    method Descend(k: nat) returns (sub: Bitvec?, rest: nat)
      requires Valid() && iDivisor != 0 && k < iSize
      ensures sub == null ==> k + 1 !in Contents
      ensures sub != null ==>
        sub.Valid() && rest < sub.iSize < iSize && (k + 1 in Contents <==> rest + 1 in sub.Contents)
    {
      GatherMember(Parts, iSize, k + 1);
      sub, rest := apSub[k / iDivisor], k % iDivisor;
    }

    method TestLeaf(k: nat) returns (r: bool)
      requires Valid() && iDivisor == 0 && k < iSize
      ensures r == (k + 1 in Contents)
    {
      if iSize <= NBIT {
        r := aBitmap[k / 8] & Mask(k % 8) != 0;
      } else {
        var h;
        r, h := Probe(aHash, k + 1, nSet);
      }
    }

    /** The insertion of i ends in a hash leaf that has to be subdivided first. */
    ghost predicate MustSubdivide(i: nat)
      requires Valid() && 1 <= i <= iSize
      reads this, Repr
      decreases iSize
    {
      if iDivisor != 0 then
        BinRange(iSize, i);
        var sub := apSub[Bin(iDivisor, i)];
        sub != null && sub.MustSubdivide(Off(iDivisor, i))
      else
        && iSize > NBIT && i !in aHash[..] && nSet >= MXHASH
        && (aHash[Home(i)] != 0 || nSet >= NINT - 1)
    }

    /** sqlite3BitvecSet, when n allocation requests have been made before. Out of memory it adds no
        other bit, and it can lose bits only in the loop that inserts a leaf's values again. */
    method Set(i: nat, memory: Requests, n: nat) returns (rc: Rc, m: nat, ghost rehashed: bool)
      requires Valid() && 1 <= i <= iSize && (MustSubdivide(i) ==> iSize + NPTR - 1 < U32)
      modifies Repr
      ensures Valid() && fresh(Repr - old(Repr)) && n <= m && (old(iDivisor) != 0 ==> iDivisor == old(iDivisor))
      ensures (Plenty(memory, n) ==> rc == OK) && (rc == OK ==> Contents == old(Contents) + {i})
      ensures Contents <= old(Contents) + {i}
      ensures rc == NOMEM && !rehashed ==> Contents == old(Contents)
      ensures rehashed ==> old(MustSubdivide(i))
      ensures old(iDivisor) == 0 ==> rehashed == (old(MustSubdivide(i)) && memory(n))
      ensures old(iDivisor) == 0 && rehashed && Exhausted(memory, n + 1) ==> rc == NOMEM && Contents == {}
      ensures old(iDivisor) == 0 && !old(MustSubdivide(i)) ==> rc == OK && iDivisor == 0
      ensures old(iDivisor) != 0 ==> KeepsOtherBins(old(Contents), i)
      ensures old(NoSubs()) && !memory(n) ==> rc == NOMEM && !rehashed && NoSubs()
      decreases iSize, if iDivisor == 0 then 5 else 1
    {
      if iDivisor != 0 {
        rc, m, rehashed := SetInBin(i, memory, n);
      } else if iSize <= NBIT {
        SetInBitmap(i);
        rc, m, rehashed := OK, n, false;
      } else {
        var done := SetInHash(i);
        if done {
          rc, m, rehashed := OK, n, false;
        } else {
          rc, m, rehashed := Subdivide(i, memory, n);
        }
      }
    }

    /** Whatever was in another bin than i is still there. */
    ghost predicate KeepsOtherBins(was: set<nat>, i: nat)
      reads this
    {
      iDivisor != 0 && i > 0 && forall j <- was :: j > 0 && Bin(iDivisor, j) != Bin(iDivisor, i) ==> j in Contents
    }

    method SetInBitmap(i: nat)
      requires Valid() && 1 <= i <= iSize <= NBIT
      modifies this, aBitmap
      ensures Valid() && Repr == old(Repr)
      ensures Contents == old(Contents) + {i}
    {
      BitOn(aBitmap, iSize, i);
      Contents := Contents + {i};
    }

    /** Lines 188-210 and 229-231: done unless the table is too full for this insertion. */
    method SetInHash(i: nat) returns (done: bool)
      requires Valid() && 1 <= i <= iSize && iDivisor == 0 && iSize > NBIT
      modifies this, aHash
      ensures Valid() && Repr == old(Repr) && iDivisor == 0
      ensures done == !old(MustSubdivide(i))
      ensures Contents == if done then old(Contents) + {i} else old(Contents)
      ensures !done ==> nSet == old(nSet) && aHash[..] == old(aHash[..])
    {
      var h := Home(i);
      var collided := aHash[h] != 0;
      var found;
      found, h := Probe(aHash, i, nSet);
      if found { return true; }
      if (collided || nSet >= NINT - 1) && nSet >= MXHASH { return false; }
      InsertKeepsTable(aHash[..], nSet, i, h);
      ghost var a := aHash[..];
      nSet := nSet + 1;
      aHash[h] := i;
      assert aHash[..] == a[h := i];
      Contents := Contents + {i};
      done := true;
    }

    /** Lines 175-183: the sub-bitvec for i is created on demand and takes the bit. */
    method SetInBin(i: nat, memory: Requests, n: nat) returns (rc: Rc, m: nat, ghost rehashed: bool)
      requires Valid() && 1 <= i <= iSize && iDivisor != 0
      modifies Repr
      ensures Valid() && fresh(Repr - old(Repr)) && n <= m && iDivisor == old(iDivisor)
      ensures (Plenty(memory, n) ==> rc == OK) && (rc == OK ==> Contents == old(Contents) + {i})
      ensures Contents <= old(Contents) + {i} && KeepsOtherBins(old(Contents), i)
      ensures rc == NOMEM && !rehashed ==> Contents == old(Contents)
      ensures rehashed ==> old(MustSubdivide(i))
      ensures old(NoSubs()) && !memory(n) ==> rc == NOMEM && !rehashed && NoSubs()
      decreases iSize, 0, 1
    {
      BinRange(iSize, i);
      var bin, off := (i - 1) / iDivisor, (i - 1) % iDivisor + 1;
      m := n;
      if apSub[bin] == null {
        m := n + 1;
        if !memory(n) { return NOMEM, m, false; }
        CreateSub(bin, off);
      }
      rc, m, rehashed := SetInSub(i, bin, off, memory, m);
    }

    method CreateSub(bin: nat, ghost off: nat)
      requires Valid() && iDivisor != 0 && bin < NPTR && apSub[bin] == null && 1 <= off <= iDivisor
      modifies this, apSub
      ensures Valid() && fresh(Repr - old(Repr)) && Contents == old(Contents)
      ensures iDivisor == old(iDivisor) && apSub[bin] != null
      ensures apSub[bin].Valid() && apSub[bin].iSize == iDivisor && !apSub[bin].MustSubdivide(off)
    {
      DivisorCovers(iSize);
      var created := new Bitvec(iDivisor);
      apSub[bin] := created;
      assert Parts[bin := {}] == Parts;
      Record(bin);
    }

    method SetInSub(i: nat, bin: nat, off: nat, memory: Requests, n: nat) returns (rc: Rc, m: nat, ghost rehashed: bool)
      requires Valid() && 1 <= i <= iSize && iDivisor != 0
      requires bin == Bin(iDivisor, i) < NPTR && apSub[bin] != null
      requires off == Off(iDivisor, i) && apSub[bin].Valid() && 1 <= off <= apSub[bin].iSize < iSize
      modifies Repr
      ensures Valid() && fresh(Repr - old(Repr)) && n <= m && iDivisor == old(iDivisor)
      ensures (Plenty(memory, n) ==> rc == OK) && (rc == OK ==> Contents == old(Contents) + {i})
      ensures Contents <= old(Contents) + {i} && KeepsOtherBins(old(Contents), i)
      ensures rc == NOMEM && !rehashed ==> Contents == old(Contents)
      ensures rehashed ==> old(apSub[bin].MustSubdivide(off))
      decreases iSize, 0, 0
    {
      rc, m, rehashed := apSub[bin].Set(off, memory, n);
      Adopt(i, bin);
    }

    /** Everything is as it should be but for what is recorded about sub-bitvec bin. */
    ghost predicate ValidBut(bin: nat)
      requires bin < NPTR
      reads this, Repr, if apSub.Length == NPTR && apSub[bin] != null then {apSub[bin]} + apSub[bin].Repr else {}
      reads apSub
    {
      && this in Repr && Own() && iDivisor != 0 && |Parts| == NPTR && apSub[bin] != null
      && Contents == Gather(Parts, iDivisor, iSize)
      && apSub[bin].iSize == iDivisor < iSize && apSub[bin].Valid()
      && {this, aBitmap, aHash, apSub} !! apSub[bin].Repr
      && (forall k :: 0 <= k < NPTR && k != bin ==> SubOwned(k) && (apSub[k] == null ==> Parts[k] == {}))
      && (forall k, l :: 0 <= k < l < NPTR && apSub[k] != null && apSub[l] != null ==> apSub[k].Repr !! apSub[l].Repr)
      && (forall k :: 0 <= k < NPTR && k != bin && apSub[k] != null ==> apSub[k].Valid())
    }

    /** Ghost bookkeeping after a change inside one sub-bitvec. */
    ghost method Adopt(i: nat, bin: nat)
      requires 1 <= i <= iSize && bin < NPTR && ValidBut(bin) && bin == Bin(iDivisor, i)
      modifies `Repr, `Parts, `Contents
      ensures Valid() && Repr == old(Repr) + apSub[bin].Repr
      ensures var off, part := Off(iDivisor, i), apSub[bin].Contents;
        && (part == old(Parts)[bin] ==> Contents == old(Contents))
        && (part == old(Parts)[bin] + {off} ==> Contents == old(Contents) + {i})
        && (part == old(Parts)[bin] - {off} ==> Contents == old(Contents) - {i})
        && (part <= old(Parts)[bin] + {off} ==> Contents <= old(Contents) + {i})
      ensures KeepsOtherBins(old(Contents), i) && iDivisor == old(iDivisor)
    {
      GatherUpdate(Parts, iSize, i, apSub[bin].Contents);
      Record(bin);
    }

    ghost method Record(bin: nat)
      requires bin < NPTR && ValidBut(bin)
      modifies `Repr, `Parts, `Contents
      ensures Valid() && Repr == old(Repr) + apSub[bin].Repr
      ensures Contents == Gather(old(Parts)[bin := apSub[bin].Contents], iDivisor, iSize)
    {
      Repr := Repr + apSub[bin].Repr;
      Parts := Parts[bin := apSub[bin].Contents];
      Contents := Gather(Parts, iDivisor, iSize);
    }

    /** Lines 210-226: the hash becomes a tree and every value is inserted again. Nothing is lost
        before the values have been copied out; if no request succeeds after that, everything is. */
    method Subdivide(i: nat, memory: Requests, n: nat) returns (rc: Rc, m: nat, ghost rehashed: bool)
      requires Valid() && 1 <= i <= iSize && iDivisor == 0 && NBIT < iSize && iSize + NPTR - 1 < U32
      modifies Repr
      ensures Valid() && fresh(Repr - old(Repr)) && n <= m && rehashed == memory(n)
      ensures (Plenty(memory, n) ==> rc == OK) && (rc == OK ==> Contents == old(Contents) + {i})
      ensures Contents <= old(Contents) + {i}
      ensures !rehashed ==> rc == NOMEM && Contents == old(Contents)
      ensures rehashed && Exhausted(memory, n + 1) ==> rc == NOMEM && Contents == {}
      decreases iSize, 4
    {
      m := n + 1;
      if !memory(n) { return NOMEM, m, false; }
      rehashed := true;
      var aiValues := aHash[..];
      for k := 0 to NPTR
        invariant forall m :: 0 <= m < k ==> apSub[m] == null
        invariant aHash[..] == aiValues
        modifies apSub
      {
        apSub[k] := null;
      }
      DivisorCovers(iSize);
      iDivisor := Divisor(iSize);
      Parts := seq(NPTR, _ => {});
      GatherEmpty(Parts, iDivisor, iSize);
      Contents := {};
      assert forall j :: j in Members(aiValues) ==> 1 <= j <= iSize;
      ghost var failed;
      rc, m, failed := Reinsert(i, aiValues, memory, m);
    }

    /** A tree without any sub-bitvec. */
    ghost predicate NoSubs()
      requires Valid()
      reads this, Repr
    {
      iDivisor != 0 && forall k :: 0 <= k < NPTR ==> apSub[k] == null
    }

    /** Of the values inserted again, none is missing whose bin is not among the failed ones. */
    ghost predicate Restored(values: set<nat>, failed: set<nat>)
      reads this
    {
      iDivisor != 0 && AllRestored(Contents, iDivisor, values, failed)
    }

    /** Lines 220-226. A value can be missing at the end only if some insertion into its bin failed. */
    method Reinsert(i: nat, aiValues: seq<nat>, memory: Requests, n: nat)
      returns (rc: Rc, m: nat, ghost failed: set<nat>)
      requires Valid() && 1 <= i <= iSize && iDivisor != 0 && Contents == {} && NoSubs() && |aiValues| == NINT
      requires forall j :: j in Members(aiValues) ==> 1 <= j <= iSize
      modifies Repr
      ensures Valid() && fresh(Repr - old(Repr)) && n <= m && iDivisor == old(iDivisor)
      ensures (Plenty(memory, n) ==> rc == OK) && (rc == OK <==> failed == {})
      ensures Restored(Members(aiValues) + {i}, failed)
      ensures Exhausted(memory, n) ==> rc == NOMEM && Contents == {}
      decreases iSize, 3
    {
      rc, m, failed := InsertAgain(i, {}, {}, memory, n);
      for j := 0 to NINT
        invariant Valid() && fresh(Repr - old(Repr)) && iDivisor == old(iDivisor) && n <= m
        invariant (Plenty(memory, n) ==> rc == OK) && (rc == OK <==> failed == {})
        invariant Restored({i} + Members(aiValues[..j]), failed)
        invariant Exhausted(memory, n) ==> rc == NOMEM && Contents == {} && NoSubs()
      {
        MembersStep(aiValues, j);
        if aiValues[j] != 0 {
          assert aiValues[j] in Members(aiValues);
          var rc';
          rc', m, failed := InsertAgain(aiValues[j], {i} + Members(aiValues[..j]), failed, memory, m);
          rc := if rc' == NOMEM then NOMEM else rc;
        }
      }
      assert aiValues[..NINT] == aiValues;
    }

    method InsertAgain(v: nat, ghost values: set<nat>, ghost failed: set<nat>, memory: Requests, n: nat)
      returns (rc: Rc, m: nat, ghost failed': set<nat>)
      requires Valid() && 1 <= v <= iSize && Restored(values, failed)
      modifies Repr
      ensures Valid() && fresh(Repr - old(Repr)) && n <= m && iDivisor == old(iDivisor)
      ensures (Plenty(memory, n) ==> rc == OK) && failed' == failed + (if rc == OK then {} else {Bin(iDivisor, v)})
      ensures Restored(values + {v}, failed')
      ensures Exhausted(memory, n) && old(NoSubs()) && old(Contents) == {} ==> rc == NOMEM && Contents == {} && NoSubs()
      decreases iSize, 2
    {
      ghost var rehashed;
      ghost var was := Contents;
      rc, m, rehashed := Set(v, memory, n);
      failed' := failed + (if rc == OK then {} else {Bin(iDivisor, v)});
      RestoredAfter(was, Contents, iDivisor, values, failed, v, rc == OK);
    }

    /** sqlite3BitvecClear: exactly the bit i goes. */
    method Clear(i: nat)
      requires Valid() && 1 <= i <= iSize
      modifies Repr
      ensures Valid() && Repr == old(Repr)
      ensures Contents == old(Contents) - {i}
      decreases iSize, 1
    {
      if iDivisor != 0 {
        BinRange(iSize, i);
        var bin := (i - 1) / iDivisor;
        if apSub[bin] == null {
          GatherMember(Parts, iSize, i);
        } else {
          ClearInSub(i, bin);
        }
      } else if iSize <= NBIT {
        BitOff(aBitmap, iSize, i);
        Contents := Contents - {i};
      } else {
        nSet := Rebuild(aHash, i, nSet);
        Contents := Contents - {i};
      }
    }

    method ClearInSub(i: nat, bin: nat)
      requires Valid() && 1 <= i <= iSize && iDivisor != 0
      requires bin == Bin(iDivisor, i) < NPTR && apSub[bin] != null
      modifies Repr
      ensures Valid() && Repr == old(Repr)
      ensures Contents == old(Contents) - {i}
      decreases iSize, 0
    {
      BinRange(iSize, i);
      apSub[bin].Clear((i - 1) % iDivisor + 1);
      Adopt(i, bin);
    }

    /** No path from this bitvec passes more than n subdivided ones. */
    ghost predicate LevelsAtMost(n: nat)
      requires Valid()
      reads this, Repr
      decreases iSize
    {
      iDivisor != 0 ==>
        && n > 0
        && forall k :: 0 <= k < NPTR && apSub[k] != null && apSub[k].iSize < iSize ==>
             apSub[k].LevelsAtMost(n - 1)
    }

    lemma {:induction false} LevelsWithin(n: nat)
      requires Valid() && (iDivisor != 0 ==> Depth(iSize) <= n)
      ensures LevelsAtMost(n)
      decreases iSize
    {
      if iDivisor != 0 {
        forall k | 0 <= k < NPTR && apSub[k] != null && apSub[k].iSize < iSize
          ensures apSub[k].LevelsAtMost(n - 1)
        {
          apSub[k].LevelsWithin(n - 1);
        }
      }
    }

    lemma LevelsWithinDepth()
      requires Valid()
      ensures LevelsAtMost(4) && (iSize + NPTR - 1 < U32 ==> LevelsAtMost(Depth(iSize)))
    {
      if iSize + NPTR - 1 < U32 {
        DepthBound(iSize);
        LevelsWithin(Depth(iSize));
      }
      LevelsWithin(4);
    }
  }

  /** sqlite3BitvecSet: on a null bitvec it does nothing and succeeds. */
  method BitvecSet(p: Bitvec?, i: nat, memory: Requests, n: nat) returns (rc: Rc, m: nat)
    requires p != null ==> p.Valid() && 1 <= i <= p.iSize && (p.MustSubdivide(i) ==> p.iSize + NPTR - 1 < U32)
    modifies if p == null then {} else p.Repr
    ensures p == null ==> rc == OK && m == n
    ensures p != null ==>
      && p.Valid() && fresh(p.Repr - old(p.Repr)) && n <= m && (Plenty(memory, n) ==> rc == OK)
      && (rc == OK ==> p.Contents == old(p.Contents) + {i}) && p.Contents <= old(p.Contents) + {i}
  {
    rc, m := OK, n;
    if p != null {
      ghost var rehashed;
      rc, m, rehashed := p.Set(i, memory, n);
    }
  }

  /** sqlite3BitvecClear: on a null bitvec it does nothing. */
  method BitvecClear(p: Bitvec?, i: nat)
    requires p != null ==> p.Valid() && 1 <= i <= p.iSize
    modifies if p == null then {} else p.Repr
    ensures p != null ==> p.Valid() && p.Repr == old(p.Repr) && p.Contents == old(p.Contents) - {i}
  {
    if p != null {
      p.Clear(i);
    }
  }
}
