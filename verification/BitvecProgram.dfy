/** sqlite3BitvecBuiltinTest of bitvec.c: any program of set and clear operations leaves the
    bitvec equal to a plain set. */
module BitvecProgram {
  import opened Arithmetic
  import opened BitvecHash
  import opened Bitvecs
  import opened Memory
  import opened Sequences

  /** One operation, with the opcode and the operand worked out: on both the bitvec and the linear
      array, or, for opcode 5, on the array only. */
  datatype Op = SetBoth(i: nat) | ClearBoth(i: nat) | SetArrayOnly(i: nat)

  ghost function Effect(op: Op, before: set<nat>, forArray: bool): set<nat> {
    match op
    case SetBoth(i) => before + {i}
    case ClearBoth(i) => before - {i}
    case SetArrayOnly(i) => if forArray then before + {i} else before
  }

  /** The plain-set meaning of the first n operations, for the linear array or for the bitvec. */
  ghost function Meaning(ops: seq<Op>, n: nat, forArray: bool): set<nat>
    requires n <= |ops|
  {
    if n == 0 then {} else Effect(ops[n - 1], Meaning(ops, n - 1, forArray), forArray)
  }

  ghost predicate ArrayHolds(pV: array<bool>, s: set<nat>)
    reads pV
  {
    forall j :: 1 <= j < pV.Length ==> (pV[j] <==> j in s)
  }

  /* ---------- The opcodes ---------- */

  /** The cells that an instruction takes. */
  function Width(op: int): nat {
    if op == 1 || op == 2 || op == 5 then 4 else 2
  }

  /** Instructions follow one another from pc on, and a zero ends them. */
  predicate Program(aOp: seq<int>, pc: nat)
    decreases |aOp| - pc
  {
    pc < |aOp| && (aOp[pc] == 0 || (pc + Width(aOp[pc]) < |aOp| && Program(aOp, pc + Width(aOp[pc]))))
  }

  /** The operand, S for a regular instruction and the next random number otherwise, in 1..sz. */
  function Operand(aOp: seq<int>, pc: nat, random: nat -> int, r: nat, sz: nat): (i: nat)
    requires sz > 0 && pc < |aOp| && pc + Width(aOp[pc]) < |aOp|
    ensures 1 <= i <= sz
  {
    var x := if Width(aOp[pc]) == 4 then aOp[pc + 2] - 1 else random(r);
    x % 0x8000_0000 % sz + 1
  }

  function Decoded(op: int, i: nat): Op {
    if op % 2 == 0 then ClearBoth(i) else if op == 5 then SetArrayOnly(i) else SetBoth(i)
  }

  /** The instruction at pc after one operation: the count goes down, a regular operand goes on. */
  function Counted(aOp: seq<int>, pc: nat): (next: seq<int>)
    requires pc < |aOp| && pc + Width(aOp[pc]) < |aOp|
    ensures |next| == |aOp| && next[pc] == aOp[pc] && next[pc + 1] == aOp[pc + 1] - 1
    ensures forall k :: 0 <= k < |aOp| && !(pc < k < pc + Width(aOp[pc])) ==> next[k] == aOp[k]
  {
    var stepped := if Width(aOp[pc]) == 4 then aOp[pc + 2 := aOp[pc + 2] + aOp[pc + 3]] else aOp;
    stepped[pc + 1 := stepped[pc + 1] - 1]
  }

  lemma {:induction false} ProgramStays(aOp: seq<int>, next: seq<int>, pc: nat)
    requires Program(aOp, pc) && |next| == |aOp| && forall k :: pc <= k < |aOp| ==> next[k] == aOp[k]
    ensures Program(next, pc)
    decreases |aOp| - pc
  {
    if aOp[pc] != 0 {
      ProgramStays(aOp, next, pc + Width(aOp[pc]));
    }
  }

  /** The operations that a program stands for, an instruction with count N being done N times. */
  ghost function Unrolled(aOp: seq<int>, pc: nat, random: nat -> int, r: nat, sz: nat): seq<Op>
    requires sz > 0 && Program(aOp, pc)
    decreases |aOp| - pc, if pc + 1 < |aOp| then aOp[pc + 1] else 0
  {
    if aOp[pc] == 0 then []
    else
      var next, width := Counted(aOp, pc), Width(aOp[pc]);
      ProgramStays(aOp, next, pc + width);
      [Decoded(aOp[pc], Operand(aOp, pc, random, r, sz))]
      + Unrolled(next, if next[pc + 1] > 0 then pc else pc + width, random, if width == 4 then r else r + 1, sz)
  }

  /* ---------- What programs mean ---------- */

  /** The opcodes as they are documented. */
  lemma OpcodeMeaning(op: int, i: nat, before: set<nat>)
    ensures op == 1 || op == 3 ==>
      Effect(Decoded(op, i), before, true) == Effect(Decoded(op, i), before, false) == before + {i}
    ensures op == 2 || op == 4 ==>
      Effect(Decoded(op, i), before, true) == Effect(Decoded(op, i), before, false) == before - {i}
    ensures op == 5 ==>
      Effect(Decoded(op, i), before, true) == before + {i} && Effect(Decoded(op, i), before, false) == before
  {
  }

  /** Any integer is brought into 1..sz, and one that lies in 0..sz-1 goes up by one. */
  function Wrapped(x: int, sz: nat): (i: nat)
    requires sz > 0
    ensures 1 <= i <= sz && (0 <= x < sz && x < 0x8000_0000 ==> i == x + 1)
  {
    x % 0x8000_0000 % sz + 1
  }

  /** n operations whose operands begin with s and go up by x. */
  ghost function Regular(op: int, s: int, x: int, n: nat, sz: nat): seq<Op>
    requires sz > 0
    decreases n
  {
    if n == 0 then [] else [Decoded(op, Wrapped(s - 1, sz))] + Regular(op, s + x, x, n - 1, sz)
  }

  /** n operations on the random numbers from the r-th on. */
  ghost function Randomly(op: int, random: nat -> int, r: nat, n: nat, sz: nat): seq<Op>
    requires sz > 0
    decreases n
  {
    if n == 0 then [] else [Decoded(op, Wrapped(random(r), sz))] + Randomly(op, random, r + 1, n - 1, sz)
  }

  lemma {:induction false} RegularAt(op: int, s: int, x: int, n: nat, sz: nat, k: nat)
    requires sz > 0 && k < n
    ensures |Regular(op, s, x, n, sz)| == n && Regular(op, s, x, n, sz)[k] == Decoded(op, Wrapped(s + k * x - 1, sz))
    decreases n
  {
    if n > 1 {
      RegularAt(op, s + x, x, n - 1, sz, if k == 0 then 0 else k - 1);
    }
    if k > 0 {
      Distribute(k, 1, x);
    }
  }

  /** The first operation that is unrolled from an instruction, and the rest. */
  lemma UnrolledStep(aOp: seq<int>, pc: nat, random: nat -> int, r: nat, sz: nat, next: seq<int>, to: nat)
    requires sz > 0 && Program(aOp, pc) && aOp[pc] != 0 && next == Counted(aOp, pc)
    requires to == if next[pc + 1] > 0 then pc else pc + Width(aOp[pc])
    ensures Program(next, to)
    ensures Unrolled(aOp, pc, random, r, sz) == [Decoded(aOp[pc], Operand(aOp, pc, random, r, sz))]
      + Unrolled(next, to, random, if Width(aOp[pc]) == 4 then r else r + 1, sz)
  {
    ProgramStays(aOp, next, pc + Width(aOp[pc]));
  }

  lemma CountedStays(aOp: seq<int>, next: seq<int>, pc: nat)
    requires pc < |aOp| && pc + Width(aOp[pc]) < |aOp| == |next| && forall k :: pc <= k < |aOp| ==> next[k] == aOp[k]
    ensures forall k :: pc <= k < |aOp| ==> Counted(next, pc)[k] == Counted(aOp, pc)[k]
  {
  }

  lemma OperandStays(aOp: seq<int>, next: seq<int>, pc: nat, random: nat -> int, r: nat, sz: nat)
    requires sz > 0 && pc < |aOp| && pc + Width(aOp[pc]) < |aOp| == |next|
    requires forall k :: pc <= k < |aOp| ==> next[k] == aOp[k]
    ensures Decoded(next[pc], Operand(next, pc, random, r, sz)) == Decoded(aOp[pc], Operand(aOp, pc, random, r, sz))
  {
  }

  /** What comes before an instruction does not matter to it. */
  lemma {:induction false} UnrolledStays(aOp: seq<int>, next: seq<int>, pc: nat, random: nat -> int, r: nat, sz: nat)
    requires sz > 0 && Program(aOp, pc) && |next| == |aOp| && forall k :: pc <= k < |aOp| ==> next[k] == aOp[k]
    ensures Program(next, pc) && Unrolled(next, pc, random, r, sz) == Unrolled(aOp, pc, random, r, sz)
    decreases |aOp| - pc, if pc + 1 < |aOp| then aOp[pc + 1] else 0
  {
    ProgramStays(aOp, next, pc);
    if aOp[pc] != 0 {
      var a, b := Counted(aOp, pc), Counted(next, pc);
      CountedStays(aOp, next, pc);
      var to := if a[pc + 1] > 0 then pc else pc + Width(aOp[pc]);
      UnrolledStep(aOp, pc, random, r, sz, a, to);
      UnrolledStep(next, pc, random, r, sz, b, to);
      UnrolledStays(a, b, to, random, if Width(aOp[pc]) == 4 then r else r + 1, sz);
      OperandStays(aOp, next, pc, random, r, sz);
    }
  }

  /** Opcodes 1, 2 and 5 as they are documented: N operations beginning with S and going up by X; an N
      below one counts as one. */
  lemma RegularInstruction(aOp: seq<int>, pc: nat, random: nat -> int, r: nat, sz: nat)
    requires sz > 0 && Program(aOp, pc) && (aOp[pc] == 1 || aOp[pc] == 2 || aOp[pc] == 5)
    ensures pc + 4 < |aOp| && Program(aOp, pc + 4)
    ensures Unrolled(aOp, pc, random, r, sz) ==
      Regular(aOp[pc], aOp[pc + 2], aOp[pc + 3], if aOp[pc + 1] < 1 then 1 else aOp[pc + 1], sz)
      + Unrolled(aOp, pc + 4, random, r, sz)
  {
    RegularTurns(aOp, pc, random, r, sz, if aOp[pc + 1] < 1 then 1 else aOp[pc + 1]);
  }

  lemma {:induction false} RegularTurns(aOp: seq<int>, pc: nat, random: nat -> int, r: nat, sz: nat, n: nat)
    requires sz > 0 && Program(aOp, pc) && aOp[pc] != 0 && Width(aOp[pc]) == 4
    requires n == if aOp[pc + 1] < 1 then 1 else aOp[pc + 1]
    ensures pc + 4 < |aOp| && Program(aOp, pc + 4)
    ensures Unrolled(aOp, pc, random, r, sz)
      == Regular(aOp[pc], aOp[pc + 2], aOp[pc + 3], n, sz) + Unrolled(aOp, pc + 4, random, r, sz)
    decreases n
  {
    var next := Counted(aOp, pc);
    UnrolledStays(aOp, next, pc + 4, random, r, sz);
    if n > 1 {
      UnrolledStep(aOp, pc, random, r, sz, next, pc);
      RegularTurns(next, pc, random, r, sz, n - 1);
      Behind(Decoded(aOp[pc], Wrapped(aOp[pc + 2] - 1, sz)),
        Regular(aOp[pc], aOp[pc + 2] + aOp[pc + 3], aOp[pc + 3], n - 1, sz), Unrolled(aOp, pc + 4, random, r, sz));
    } else {
      UnrolledStep(aOp, pc, random, r, sz, next, pc + 4);
      RegularOnce(aOp[pc], aOp[pc + 2], aOp[pc + 3], n, sz);
    }
  }

  lemma RegularOnce(op: int, s: int, x: int, n: nat, sz: nat)
    requires sz > 0 && n == 1
    ensures Regular(op, s, x, n, sz) == [Decoded(op, Wrapped(s - 1, sz))]
  {
    assert |Regular(op, s + x, x, n - 1, sz)| == 0;
  }

  lemma Behind<T>(x: T, more: seq<T>, rest: seq<T>)
    ensures [x] + (more + rest) == ([x] + more) + rest
  {
  }

  /** And the others: N operations on random bits. */
  lemma RandomInstruction(aOp: seq<int>, pc: nat, random: nat -> int, r: nat, sz: nat)
    requires sz > 0 && Program(aOp, pc) && aOp[pc] != 0 && aOp[pc] != 1 && aOp[pc] != 2 && aOp[pc] != 5
    ensures pc + 2 < |aOp| && Program(aOp, pc + 2)
    ensures var n := if aOp[pc + 1] < 1 then 1 else aOp[pc + 1];
      Unrolled(aOp, pc, random, r, sz) == Randomly(aOp[pc], random, r, n, sz) + Unrolled(aOp, pc + 2, random, r + n, sz)
  {
    RandomTurns(aOp, pc, random, r, sz, if aOp[pc + 1] < 1 then 1 else aOp[pc + 1]);
  }

  lemma {:induction false} RandomTurns(aOp: seq<int>, pc: nat, random: nat -> int, r: nat, sz: nat, n: nat)
    requires sz > 0 && Program(aOp, pc) && aOp[pc] != 0 && Width(aOp[pc]) == 2
    requires n == if aOp[pc + 1] < 1 then 1 else aOp[pc + 1]
    ensures pc + 2 < |aOp| && Program(aOp, pc + 2)
    ensures Unrolled(aOp, pc, random, r, sz)
      == Randomly(aOp[pc], random, r, n, sz) + Unrolled(aOp, pc + 2, random, r + n, sz)
    decreases n
  {
    var next := Counted(aOp, pc);
    UnrolledStays(aOp, next, pc + 2, random, r + n, sz);
    if n > 1 {
      UnrolledStep(aOp, pc, random, r, sz, next, pc);
      RandomTurns(next, pc, random, r + 1, sz, n - 1);
      Behind(Decoded(aOp[pc], Wrapped(random(r), sz)), Randomly(aOp[pc], random, r + 1, n - 1, sz),
        Unrolled(aOp, pc + 2, random, r + n, sz));
    } else {
      UnrolledStep(aOp, pc, random, r, sz, next, pc + 2);
      RandomlyOnce(aOp[pc], random, r, n, sz);
    }
  }

  lemma RandomlyOnce(op: int, random: nat -> int, r: nat, n: nat, sz: nat)
    requires sz > 0 && n == 1
    ensures Randomly(op, random, r, n, sz) == [Decoded(op, Wrapped(random(r), sz))]
  {
    assert |Randomly(op, random, r + 1, n - 1, sz)| == 0;
  }

  /* ---------- The test ---------- */

  /** Bitvec and array hold what the operations so far mean. */
  ghost predicate Agree(pBitvec: Bitvec, pV: array<bool>, ops: seq<Op>)
    reads pBitvec, pV
  {
    pBitvec.Contents == Meaning(ops, |ops|, false) && ArrayHolds(pV, Meaning(ops, |ops|, true))
  }

  /** In the middle of a program: the operations so far have been carried out on both. */
  ghost predicate Running(pBitvec: Bitvec, pV: array<bool>, aOp: array<int>, pc: nat, ops: seq<Op>)
    reads pBitvec, pBitvec.Repr, pV, aOp
  {
    && pBitvec.Valid() && pV !in pBitvec.Repr && aOp !in pBitvec.Repr
    && pBitvec.iSize > 0 && pBitvec.iSize + NPTR - 1 < U32 && pV.Length == pBitvec.iSize + 1
    && Program(aOp[..], pc) && Agree(pBitvec, pV, ops)
  }

  /** The loop of lines 357-387: random is what sqlite3_randomness yields, memory which allocation
      requests succeed, n of which were made before. */
  method RunProgram(pBitvec: Bitvec, pV: array<bool>, aOp: array<int>, random: nat -> int, memory: Requests, n: nat)
    returns (ok: bool, ghost ops: seq<Op>)
    requires Running(pBitvec, pV, aOp, 0, [])
    modifies pBitvec.Repr, pV, aOp
    ensures pBitvec.Valid() && (Plenty(memory, n) ==> ok)
    ensures ok ==> ops == Unrolled(old(aOp[..]), 0, random, 0, pBitvec.iSize) && Agree(pBitvec, pV, ops)
  {
    ops := [];
    var pc: nat, r: nat, m: nat := 0, 0, n;
    while aOp[pc] != 0
      invariant fresh(pBitvec.Repr - old(pBitvec.Repr)) && n <= m && Running(pBitvec, pV, aOp, pc, ops)
      invariant ops + Unrolled(aOp[..], pc, random, r, pBitvec.iSize)
        == Unrolled(old(aOp[..]), 0, random, 0, pBitvec.iSize)
      decreases aOp.Length - pc, if pc + 1 < aOp.Length then aOp[pc + 1] else 0
    {
      ghost var op;
      ok, pc, r, m, op := Instruction(pBitvec, pV, aOp, pc, random, r, memory, m, ops);
      if !ok { return; }
      Regroup(ops, op, Unrolled(aOp[..], pc, random, r, pBitvec.iSize));
      ops := ops + [op];
    }
    ok := true;
  }

  lemma MeaningOf(ops: seq<Op>, op: Op)
    ensures forall forArray: bool ::
      Meaning(ops + [op], |ops + [op]|, forArray) == Effect(op, Meaning(ops, |ops|, forArray), forArray)
  {
    forall forArray: bool ensures Meaning(ops + [op], |ops|, forArray) == Meaning(ops, |ops|, forArray) {
      MeaningPrefix(ops, op, |ops|, forArray);
    }
  }

  lemma {:induction false} MeaningPrefix(ops: seq<Op>, op: Op, n: nat, forArray: bool)
    requires n <= |ops|
    ensures Meaning(ops + [op], n, forArray) == Meaning(ops, n, forArray)
  {
    if n > 0 {
      MeaningPrefix(ops, op, n - 1, forArray);
    }
  }

  /** One turn of the loop. */
  method Instruction(pBitvec: Bitvec, pV: array<bool>, aOp: array<int>, pc: nat, random: nat -> int, r: nat,
                     memory: Requests, n: nat, ghost ops: seq<Op>)
    returns (ok: bool, next: nat, r': nat, m: nat, ghost op: Op)
    requires Running(pBitvec, pV, aOp, pc, ops) && aOp[pc] != 0
    modifies pBitvec.Repr, pV, aOp
    ensures pBitvec.Valid() && fresh(pBitvec.Repr - old(pBitvec.Repr)) && n <= m && Program(aOp[..], next)
    ensures (next == pc && aOp[pc + 1] < old(aOp[pc + 1]) && 0 < old(aOp[pc + 1])) || pc < next < aOp.Length
    ensures Unrolled(old(aOp[..]), pc, random, r, pBitvec.iSize)
      == [op] + Unrolled(aOp[..], next, random, r', pBitvec.iSize)
    ensures (Plenty(memory, n) ==> ok) && (ok ==> Running(pBitvec, pV, aOp, next, ops + [op]))
  {
    var opcode, i := aOp[pc], 0;
    next, r', i := Fetch(aOp, pc, random, r, pBitvec.iSize);
    op := Decoded(opcode, i);
    ok, m := Execute(pBitvec, pV, opcode, i, memory, n, ops);
  }

  /** Lines 358-377: the operand, with the program counter and the counts moved on. */
  method Fetch(aOp: array<int>, pc: nat, random: nat -> int, r: nat, sz: nat) returns (next: nat, r': nat, i: nat)
    requires sz > 0 && Program(aOp[..], pc) && aOp[pc] != 0
    modifies aOp
    ensures i == Operand(old(aOp[..]), pc, random, r, sz) && 1 <= i <= sz
    ensures aOp[..] == Counted(old(aOp[..]), pc) && Program(aOp[..], next)
    ensures (next == pc && aOp[pc + 1] < old(aOp[pc + 1]) && 0 < old(aOp[pc + 1])) || pc < next < aOp.Length
    ensures Unrolled(old(aOp[..]), pc, random, r, sz)
      == [Decoded(old(aOp[pc]), i)] + Unrolled(aOp[..], next, random, r', sz)
  {
    ghost var was := aOp[..];
    var nx := 2;
    var x: int;
    r' := r;
    if aOp[pc] == 1 || aOp[pc] == 2 || aOp[pc] == 5 {
      nx := 4;
      x := aOp[pc + 2] - 1;
      aOp[pc + 2] := aOp[pc + 2] + aOp[pc + 3];
    } else {
      x := random(r);
      r' := r + 1;
    }
    aOp[pc + 1] := aOp[pc + 1] - 1;
    assert aOp[..] == Counted(was, pc);
    ProgramStays(was, aOp[..], pc + nx);
    next := if aOp[pc + 1] > 0 then pc else pc + nx;
    i := x % 0x8000_0000 % sz + 1;
  }

  /** Lines 378-386 */
  method Execute(pBitvec: Bitvec, pV: array<bool>, op: int, i: nat, memory: Requests, n: nat, ghost ops: seq<Op>)
    returns (ok: bool, m: nat)
    requires pBitvec.Valid() && pV !in pBitvec.Repr && pV.Length == pBitvec.iSize + 1
    requires 1 <= i <= pBitvec.iSize && pBitvec.iSize + NPTR - 1 < U32 && Agree(pBitvec, pV, ops)
    modifies pBitvec.Repr, pV
    ensures pBitvec.Valid() && fresh(pBitvec.Repr - old(pBitvec.Repr)) && n <= m
    ensures (Plenty(memory, n) ==> ok) && (ok ==> Agree(pBitvec, pV, ops + [Decoded(op, i)]))
  {
    MeaningOf(ops, Decoded(op, i));
    ok, m := true, n;
    if op % 2 != 0 {
      pV[i] := true;
      if op != 5 {
        var rc;
        rc, m := BitvecSet(pBitvec, i, memory, n);
        ok := rc == OK;
      }
    } else {
      pV[i] := false;
      BitvecClear(pBitvec, i);
    }
  }

  /** The loop of lines 397-402. */
  method Compare(pBitvec: Bitvec, pV: array<bool>, ghost inBitvec: set<nat>, ghost inArray: set<nat>) returns (rc: nat)
    requires pBitvec.Valid() && pBitvec.Contents == inBitvec
    requires pV.Length == pBitvec.iSize + 1 && ArrayHolds(pV, inArray)
    ensures rc <= pBitvec.iSize
    ensures forall j :: 1 <= j < (if rc == 0 then pBitvec.iSize + 1 else rc) ==> (j in inArray <==> j in inBitvec)
    ensures rc > 0 ==> !(rc in inArray <==> rc in inBitvec)
  {
    for i := 1 to pBitvec.iSize + 1
      invariant forall j :: 1 <= j < i ==> (j in inArray <==> j in inBitvec)
    {
      var b := Bitvec.Test(pBitvec, i);
      if pV[i] != b { return i; }
    }
    rc := 0;
  }

  /** Lines 394-396: no bitvec and nothing outside 1..sz ever tests true. */
  method OutOfRange(pBitvec: Bitvec, sz: nat) returns (rc: int)
    requires pBitvec.Valid() && pBitvec.iSize == sz && sz + 1 < U32
    ensures rc == 0
  {
    var t0 := Bitvec.Test(null, 0);
    var t1 := Bitvec.Test(pBitvec, sz + 1);
    var t2 := Bitvec.Test(pBitvec, 0);
    rc := (if t0 then 1 else 0) + (if t1 then 1 else 0) + (if t2 then 1 else 0) + (pBitvec.iSize - sz);
  }

  /** -1 when memory runs out, else the first bit on which the linear array and the bitvec
      differ, 0 if none; which bit that is follows from the plain-set meaning alone. */
  method BuiltinTest(sz: nat, aOp: array<int>, random: nat -> int, memory: Requests)
    returns (rc: int, ghost ops: seq<Op>)
    requires 0 < sz && sz + NPTR - 1 < U32 && Program(aOp[..], 0)
    modifies aOp
    ensures -1 <= rc <= sz && (Plenty(memory, 0) ==> 0 <= rc)
    ensures rc >= 0 ==> ops == Unrolled(old(aOp[..]), 0, random, 0, sz)
    ensures rc >= 0 ==> forall j :: 1 <= j < (if rc == 0 then sz + 1 else rc) ==>
      (j in Meaning(ops, |ops|, true) <==> j in Meaning(ops, |ops|, false))
    ensures rc > 0 ==> !(rc in Meaning(ops, |ops|, true) <==> rc in Meaning(ops, |ops|, false))
  {
    ops := [];
    if !memory(0) || !memory(1) || !memory(2) { return -1, []; }
    var pBitvec := new Bitvec(sz);
    var pV := new bool[sz + 1](_ => false);
    var rcNull, m := BitvecSet(null, 1, memory, 3);
    BitvecClear(null, 1);
    var ok;
    ok, ops := RunProgram(pBitvec, pV, aOp, random, memory, m);
    if !ok { return -1, ops; }
    rc := OutOfRange(pBitvec, sz);
    var differs := Compare(pBitvec, pV, Meaning(ops, |ops|, false), Meaning(ops, |ops|, true));
    if differs > 0 { rc := differs; }
  }

  /** Without opcode 5 the two meanings are one, so the test can only report 0 or -1. */
  lemma {:induction false} SameMeaning(ops: seq<Op>, n: nat)
    requires n <= |ops| && forall k :: 0 <= k < n ==> !ops[k].SetArrayOnly?
    ensures Meaning(ops, n, true) == Meaning(ops, n, false)
  {
    if n > 0 { SameMeaning(ops, n - 1); }
  }

  /* ---------- Running out of memory ---------- */

  /** What is lost when memory runs out at the wrong moment: with 1..62 set in a bitvec too large for
      a bitmap, 125 collides with 1, the values are copied out, and no later request succeeds. */
  method MembersCanBeLost() returns (p: Bitvec, rc: Rc)
    ensures p.Valid() && rc == NOMEM && p.Contents == {}
  {
    var memory: Requests := k => k == 0;
    var n: nat := MXHASH;
    p := FirstValues(n, memory);
    Collides(p);
    var m;
    ghost var rehashed;
    rc, m, rehashed := p.Set(125, memory, 0);
  }

  method FirstValues(n: nat, memory: Requests) returns (p: Bitvec)
    requires n <= MXHASH
    ensures p.Valid() && fresh(p.Repr) && p.iSize == 4000 && p.iDivisor == 0 && p.Contents == UpTo(n)
  {
    if n == 0 {
      p := new Bitvec(4000);
    } else {
      p := FirstValues(n - 1, memory);
      SetWithRoom(p, n, memory);
    }
  }

  function UpTo(n: nat): (s: set<nat>)
    ensures |s| == n
    ensures forall k :: k in s <==> 1 <= k <= n
  {
    if n == 0 then {} else UpTo(n - 1) + {n}
  }

  /** A hash leaf with fewer than 62 members takes any value, and no memory. */
  method SetWithRoom(p: Bitvec, v: nat, memory: Requests)
    requires p.Valid() && p.iDivisor == 0 && NBIT < p.iSize && 1 <= v <= p.iSize && |p.Contents| < MXHASH
    modifies p.Repr
    ensures p.Valid() && fresh(p.Repr - old(p.Repr)) && p.iDivisor == 0 && p.Contents == old(p.Contents) + {v}
  {
    CountIsSize(p.aHash[..], p.nSet);
    ghost var rehashed;
    var rc, m;
    rc, m, rehashed := p.Set(v, memory, 0);
  }

  /** nSet is the number of members. */
  lemma CountIsSize(a: seq<nat>, nSet: nat)
    requires Table(a, nSet)
    ensures nSet == |Members(a)|
  {
    UsedIsSize(a, |a|);
    assert a[..|a|] == a;
  }

  lemma {:induction false} UsedIsSize(a: seq<nat>, n: nat)
    requires n <= |a| && Distinct(a)
    ensures Used(a[..n]) == |Members(a[..n])|
  {
    if n > 0 {
      UsedIsSize(a, n - 1);
      MembersStep(a, n - 1);
      assert a[n - 1] != 0 ==> a[n - 1] !in a[..n - 1];
    }
  }

  lemma Collides(p: Bitvec)
    requires p.Valid() && p.iDivisor == 0 && p.iSize == 4000
    requires |p.Contents| == MXHASH && 1 in p.Contents && 125 !in p.Contents
    ensures p.MustSubdivide(125)
  {
    var a := p.aHash[..];
    CountIsSize(a, p.nSet);
    var s :| 0 <= s < |a| && a[s] == 1;
    assert Chain(a, 1, s);
  }
}
