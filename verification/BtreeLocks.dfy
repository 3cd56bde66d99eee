/** The routines of btmutex.c as one connection runs them. Each follows the steps of
    BtreeProtocol, so the safety of the protocol is that of the code. */
module BtreeLocks {
  import opened BtreeProtocol

  /** A BtShared with its mutex: who holds it, and the db field. */
  class BtShared {
    const address: nat
    var holder: int
    var db: int

    constructor (address: nat)
      ensures this.address == address && holder == -1
    {
      this.address, holder, db := address, -1, -1;
    }
  }

  class Btree {
    const pBt: BtShared
    var locked: bool
    var wantToLock: nat

    constructor (pBt: BtShared)
      ensures this.pBt == pBt && !locked && wantToLock == 0
    {
      this.pBt, locked, wantToLock := pBt, false, 0;
    }
  }

  /** An entry of db->aDb: no Btree, one that is not sharable, or the i-th sharable one. */
  datatype Slot = Empty | Private | Shared(i: nat)

  /** The first n slots of which name the i-th Btree. */
  ghost function Naming(aDb: seq<Slot>, n: nat, i: nat): set<nat> {
    set m: nat | m < n && m < |aDb| && aDb[m] == Shared(i)
  }

  lemma NamingStep(aDb: seq<Slot>, n: nat, i: nat)
    requires n < |aDb|
    ensures |Naming(aDb, n + 1, i)| == |Naming(aDb, n, i)| + (if aDb[n] == Shared(i) then 1 else 0)
  {
    assert Naming(aDb, n + 1, i) == Naming(aDb, n, i) + (if aDb[n] == Shared(i) then {n} else {});
  }

  class Connection {
    const id: nat
    /** The sharable Btrees in pNext order. */
    const list: seq<Btree>
    /** The connection as the protocol sees it. */
    ghost var k: Conn

    constructor (id: nat, list: seq<Btree>)
      requires forall i, j :: 0 <= i < j < |list| ==> list[i].pBt.address < list[j].pBt.address
      requires forall i :: 0 <= i < |list| ==>
        !list[i].locked && list[i].wantToLock == 0 && list[i].pBt.holder != id
      ensures Valid() && k.pc == Idle && this.id == id && this.list == list
    {
      this.id, this.list := id, list;
      k := Conn(seq(|list|, _ => 0), seq(|list|, _ => false), Idle);
    }

    ghost function Mutexes(): set<BtShared> {
      set i | 0 <= i < |list| :: list[i].pBt
    }

    ghost predicate Sorted() {
      forall i, j :: 0 <= i < j < |list| ==> list[i].pBt.address < list[j].pBt.address
    }

    /** The fields of Btree i are what k says; its mutex is held through it exactly when it is
        locked, and BtShared.db is set then. */
    ghost predicate Agrees(i: nat)
      requires i < |list| == |k.want| == |k.locked|
      reads this, list[i], list[i].pBt
    {
      && list[i].wantToLock == k.want[i] && list[i].locked == k.locked[i]
      && (list[i].locked <==> list[i].pBt.holder == id)
      && (list[i].locked ==> list[i].pBt.db == id)
    }

    ghost predicate Valid()
      reads this, list, Mutexes()
    {
      && Sorted() && LocalOk(k) && |k.want| == |list|
      && forall i :: 0 <= i < |list| ==> Agrees(i)
    }

    /** Other connections act until mutex p is free: they take and release what is not held here. */
    method WaitFor(p: nat, others: nat -> int)
      requires Valid() && p < |list| && !list[p].locked
      modifies Mutexes()
      ensures Valid() && list[p].pBt.holder == -1
    {
      assert Agrees(p);
      for i := 0 to |list|
        invariant Valid() && (p < i ==> list[p].pBt.holder == -1)
      {
        if !list[i].locked {
          SetHolder(i, if i == p || others(i) == id then -1 else others(i));
        }
      }
    }

    method SetHolder(i: nat, other: int)
      requires Valid() && i < |list| && !list[i].locked && other != id
      modifies list[i].pBt`holder
      ensures Valid() && list[i].pBt.holder == other
    {
      Apart(i);
      list[i].pBt.holder := other;
      forall j | 0 <= j < |list|
        ensures Agrees(j)
      {
        assert old(Agrees(j));
      }
    }

    /** The mutex is free: the wait for it is over. */
    method LockBtreeMutex(i: nat)
      requires i < |list| && !list[i].locked && list[i].pBt.holder == -1
      modifies list[i], list[i].pBt
      ensures list[i].locked && list[i].pBt.holder == id && list[i].pBt.db == id
      ensures list[i].wantToLock == old(list[i].wantToLock)
    {
      list[i].pBt.holder := id;
      list[i].pBt.db := id;
      list[i].locked := true;
    }

    method UnlockBtreeMutex(i: nat)
      requires i < |list| && list[i].locked && list[i].pBt.holder == id && list[i].pBt.db == id
      modifies list[i], list[i].pBt
      ensures !list[i].locked && list[i].pBt.holder != id
      ensures list[i].wantToLock == old(list[i].wantToLock)
    {
      list[i].pBt.holder := -1;
      list[i].locked := false;
    }

    lemma Apart(j: nat)
      requires Sorted() && j < |list|
      ensures forall i :: 0 <= i < |list| && i != j ==> list[i] != list[j] && list[i].pBt != list[j].pBt
    {
    }

    /** The protocol's next step, whose effect on the fields is to flip the lock of Btree i. */
    method Flip(i: nat, ghost a: Action)
      requires Valid() && i < |list| && CanAct(k, a)
      requires WantAfter(k, a) == k.want && LockedAfter(k, a) == k.locked[i := !k.locked[i]]
      requires list[i].locked || list[i].pBt.holder == -1
      modifies list[i], list[i].pBt, `k
      ensures Valid() && k == After(old(k), a)
    {
      Apart(i);
      LocalStepKeeps(k, a);
      assert Agrees(i);
      if list[i].locked { UnlockBtreeMutex(i); } else { LockBtreeMutex(i); }
      k := After(k, a);
      forall j | 0 <= j < |list|
        ensures Agrees(j)
      {
        assert old(Agrees(j));
      }
    }

    /** A step of the protocol that touches no field. */
    ghost method Pass(a: Action)
      requires Valid() && CanAct(k, a)
      requires WantAfter(k, a) == k.want && LockedAfter(k, a) == k.locked
      modifies `k
      ensures Valid() && k == After(old(k), a)
    {
      LocalStepKeeps(k, a);
      k := After(k, a);
      forall j | 0 <= j < |list|
        ensures Agrees(j)
      {
        assert old(Agrees(j));
      }
    }

    /** Lines 123-130 */
    method ReleaseLater(p: nat) returns (ghost acts: seq<Action>)
      requires p < |list| && Valid() && k.pc == Release(p, p + 1)
      modifies list, Mutexes(), `k
      ensures Valid() && k.pc == Block(p) && LocalPath(old(k), acts, k) && k.want == old(k).want
    {
      acts := seq(0, _ => Advance);
      for j := p + 1 to |list|
        invariant Valid() && k.pc == Release(p, j) && LocalPath(old(k), acts, k) && k.want == old(k).want
      {
        assert Agrees(j);
        LocalPathSnoc(old(k), acts, k, Advance);
        if list[j].locked {
          Flip(j, Advance);
        } else {
          Pass(Advance);
        }
        acts := acts + [Advance];
      }
      LocalPathSnoc(old(k), acts, k, Advance);
      Pass(Advance);
      acts := acts + [Advance];
    }

    /** Lines 132-136 */
    method RelockLater(p: nat) returns (ghost acts: seq<Action>)
      requires p < |list| && Valid() && k.pc == Relock(p, p + 1)
      modifies list, Mutexes(), `k
      ensures Valid() && k.pc == Idle && LocalPath(old(k), acts, k) && k.want == old(k).want
    {
      acts := seq(0, _ => Advance);
      for j := p + 1 to |list|
        invariant Valid() && k.pc == Relock(p, j) && LocalPath(old(k), acts, k) && k.want == old(k).want
      {
        assert Agrees(j) && Expected(k, j);
        LocalPathSnoc(old(k), acts, k, Advance);
        if list[j].wantToLock > 0 {
          var others: nat -> int := *;
          WaitFor(j, others);
          Flip(j, Advance);
        } else {
          Pass(Advance);
        }
        acts := acts + [Advance];
      }
      LocalPathSnoc(old(k), acts, k, Advance);
      Pass(Advance);
      acts := acts + [Advance];
    }

    /** btreeLockCarefully. sqlite3_mutex_try succeeds only if the mutex is free, and may fail then. */
    method BtreeLockCarefully(p: nat, tryFails: bool) returns (ghost acts: seq<Action>)
      requires p < |list| && Valid() && k.pc == Try(p)
      modifies list, Mutexes(), `k
      ensures Valid() && k.pc == Idle && LocalPath(old(k), acts, k) && k.want == old(k).want
    {
      ghost var k0 := k;
      assert Agrees(p) && Expected(k, p);
      if !tryFails && list[p].pBt.holder == -1 {
        Flip(p, Advance);
        return [Advance];
      }
      Pass(TryFails);
      var before := ReleaseLater(p);
      acts := [TryFails] + before;
      assert Agrees(p) && Expected(k, p);
      LocalPathSnoc(k0, acts, k, Advance);
      var others: nat -> int := *;
      WaitFor(p, others);
      assert Agrees(p);
      Flip(p, Advance);
      acts := acts + [Advance];
      ghost var k1 := k;
      var after := RelockLater(p);
      LocalPathJoin(k0, acts, k1, after, k);
      acts := acts + after;
    }

    /** sqlite3BtreeEnter: one more claim, and the lock that goes with it. */
    method BtreeEnter(p: nat, tryFails: bool) returns (ghost acts: seq<Action>)
      requires p < |list| && Valid() && k.pc == Idle
      modifies list, Mutexes(), `k
      ensures Valid() && k.pc == Idle && LocalPath(old(k), acts, k)
      ensures k.want == old(k).want[p := old(k).want[p] + 1]
      ensures k.locked == old(k).locked[p := true]
    {
      ghost var k0 := k;
      assert Agrees(p);
      Claim(p);
      assert Agrees(p);
      acts := [Enter(p)];
      if !list[p].locked {
        var more := BtreeLockCarefully(p, tryFails);
        acts := acts + more;
      }
      IdleLocks(k0, k, p);
    }

    /** Line 94 */
    method Claim(p: nat)
      requires p < |list| && Valid() && k.pc == Idle
      modifies list[p], `k
      ensures Valid() && k == After(old(k), Enter(p)) && list[p].locked == old(list[p].locked)
    {
      Apart(p);
      LocalStepKeeps(k, Enter(p));
      assert Agrees(p);
      list[p].wantToLock := list[p].wantToLock + 1;
      k := After(k, Enter(p));
      forall j | 0 <= j < |list|
        ensures Agrees(j)
      {
        assert old(Agrees(j));
      }
    }

    /** sqlite3BtreeLeave: one claim less, and the lock goes with the last one. */
    method BtreeLeave(p: nat) returns (ghost acts: seq<Action>)
      requires p < |list| && Valid() && k.pc == Idle && k.want[p] > 0
      modifies list[p], list[p].pBt, `k
      ensures Valid() && k.pc == Idle && LocalPath(old(k), acts, k)
      ensures k.want == old(k).want[p := old(k).want[p] - 1]
      ensures k.locked == old(k).locked[p := old(k).want[p] > 1]
    {
      Apart(p);
      LocalStepKeeps(k, Leave(p));
      assert Agrees(p) && Expected(k, p);
      list[p].wantToLock := list[p].wantToLock - 1;
      if list[p].wantToLock == 0 {
        UnlockBtreeMutex(p);
      }
      k := After(k, Leave(p));
      acts := [Leave(p)];
      forall j | 0 <= j < |list|
        ensures Agrees(j)
      {
        assert old(Agrees(j));
      }
    }

    /** sqlite3BtreeEnterAll: in aDb order, whatever the addresses. */
    method BtreeEnterAll(aDb: seq<Slot>) returns (ghost acts: seq<Action>)
      requires Valid() && k.pc == Idle
      requires forall n :: 0 <= n < |aDb| && aDb[n].Shared? ==> aDb[n].i < |list|
      modifies list, Mutexes(), `k
      ensures Valid() && k.pc == Idle && LocalPath(old(k), acts, k)
      ensures forall i :: 0 <= i < |list| ==>
        && list[i].wantToLock == old(list[i].wantToLock) + |set n: nat | n < |aDb| && aDb[n] == Shared(i)|
        && list[i].locked == (list[i].wantToLock > 0)
      ensures forall n :: 0 <= n < |aDb| && aDb[n].Shared? ==>
        list[aDb[n].i].locked && list[aDb[n].i].wantToLock > old(list[aDb[n].i].wantToLock)
    {
      FieldsAgree();
      acts := EnterSlots(aDb);
      FieldsAgree();
      AllNamed(aDb);
    }

    method EnterSlots(aDb: seq<Slot>) returns (ghost acts: seq<Action>)
      requires Valid() && k.pc == Idle
      requires forall n :: 0 <= n < |aDb| && aDb[n].Shared? ==> aDb[n].i < |list|
      modifies list, Mutexes(), `k
      ensures Valid() && k.pc == Idle && LocalPath(old(k), acts, k)
      ensures forall i :: 0 <= i < |list| ==> k.want[i] == old(k).want[i] + |Naming(aDb, |aDb|, i)|
    {
      acts := seq(0, _ => Advance);
      for n := 0 to |aDb|
        invariant Valid() && k.pc == Idle && LocalPath(old(k), acts, k)
        invariant forall i :: 0 <= i < |list| ==> k.want[i] == old(k).want[i] + |Naming(aDb, n, i)|
      {
        NamedNext(aDb, n);
        if aDb[n].Shared? {
          var tryFails: bool := *;
          acts := EnterNext(aDb[n].i, tryFails, old(k), acts);
        }
      }
    }

    method EnterNext(p: nat, tryFails: bool, ghost k0: Conn, ghost acts: seq<Action>) returns (ghost now: seq<Action>)
      requires p < |list| && Valid() && k.pc == Idle && LocalPath(k0, acts, k)
      modifies list, Mutexes(), `k
      ensures Valid() && k.pc == Idle && LocalPath(k0, now, k)
      ensures forall i :: 0 <= i < |list| ==> k.want[i] == old(k).want[i] + (if i == p then 1 else 0)
    {
      var more := BtreeEnter(p, tryFails);
      LocalPathJoin(k0, acts, old(k), more, k);
      now := acts + more;
    }

    /** sqlite3BtreeLeaveAll */
    method BtreeLeaveAll(aDb: seq<Slot>) returns (ghost acts: seq<Action>)
      requires Valid() && k.pc == Idle
      requires forall n :: 0 <= n < |aDb| && aDb[n].Shared? ==> aDb[n].i < |list|
      requires forall i :: 0 <= i < |list| ==>
        |set n: nat | n < |aDb| && aDb[n] == Shared(i)| <= list[i].wantToLock
      modifies list, Mutexes(), `k
      ensures Valid() && k.pc == Idle && LocalPath(old(k), acts, k)
      ensures forall i :: 0 <= i < |list| ==>
        && list[i].wantToLock == old(list[i].wantToLock) - |set n: nat | n < |aDb| && aDb[n] == Shared(i)|
        && list[i].locked == (list[i].wantToLock > 0)
    {
      FieldsAgree();
      AllNamed(aDb);
      acts := LeaveSlots(aDb);
      FieldsAgree();
    }

    method LeaveSlots(aDb: seq<Slot>) returns (ghost acts: seq<Action>)
      requires Valid() && k.pc == Idle
      requires forall n :: 0 <= n < |aDb| && aDb[n].Shared? ==> aDb[n].i < |list|
      requires forall i :: 0 <= i < |list| ==> |Naming(aDb, |aDb|, i)| <= k.want[i]
      modifies list, Mutexes(), `k
      ensures Valid() && k.pc == Idle && LocalPath(old(k), acts, k)
      ensures forall i :: 0 <= i < |list| ==> k.want[i] == old(k).want[i] - |Naming(aDb, |aDb|, i)|
    {
      acts := seq(0, _ => Advance);
      for n := 0 to |aDb|
        invariant Valid() && k.pc == Idle && LocalPath(old(k), acts, k)
        invariant forall i :: 0 <= i < |list| ==> k.want[i] == old(k).want[i] - |Naming(aDb, n, i)|
      {
        NamedNext(aDb, n);
        if aDb[n].Shared? {
          MoreNamed(aDb, n);
          acts := LeaveNext(aDb[n].i, old(k), acts);
        }
      }
    }

    lemma AllNamed(aDb: seq<Slot>)
      ensures forall i :: 0 <= i < |list| ==>
        |Naming(aDb, |aDb|, i)| == |set n: nat | n < |aDb| && aDb[n] == Shared(i)|
      ensures forall n :: 0 <= n < |aDb| && aDb[n].Shared? ==> |Naming(aDb, |aDb|, aDb[n].i)| > 0
    {
      forall i | 0 <= i < |list|
        ensures |Naming(aDb, |aDb|, i)| == |set n: nat | n < |aDb| && aDb[n] == Shared(i)|
      {
        assert Naming(aDb, |aDb|, i) == set n: nat | n < |aDb| && aDb[n] == Shared(i);
      }
      forall n | 0 <= n < |aDb| && aDb[n].Shared? ensures |Naming(aDb, |aDb|, aDb[n].i)| > 0 {
        assert n in Naming(aDb, |aDb|, aDb[n].i);
      }
    }

    method LeaveNext(p: nat, ghost k0: Conn, ghost acts: seq<Action>) returns (ghost now: seq<Action>)
      requires p < |list| && Valid() && k.pc == Idle && k.want[p] > 0 && LocalPath(k0, acts, k)
      modifies list[p], list[p].pBt, `k
      ensures Valid() && k.pc == Idle && LocalPath(k0, now, k)
      ensures forall i :: 0 <= i < |list| ==> k.want[i] == old(k).want[i] - (if i == p then 1 else 0)
    {
      var more := BtreeLeave(p);
      LocalPathJoin(k0, acts, old(k), more, k);
      now := acts + more;
    }

    /** Entering and leaving all Btrees changes no claim and no lock. */
    method EnterAndLeaveAll(aDb: seq<Slot>)
      requires Valid() && k.pc == Idle
      requires forall n :: 0 <= n < |aDb| && aDb[n].Shared? ==> aDb[n].i < |list|
      modifies list, Mutexes(), `k
      ensures Valid() && k == old(k)
      ensures forall i :: 0 <= i < |list| ==>
        list[i].locked == old(list[i].locked) && list[i].wantToLock == old(list[i].wantToLock)
    {
      FieldsAgree();
      ghost var k1 := k;
      var acts := BtreeEnterAll(aDb);
      acts := BtreeLeaveAll(aDb);
      FieldsAgree();
      SameClaims(k1, k);
    }

    lemma FieldsAgree()
      requires Valid() && k.pc == Idle
      ensures forall i :: 0 <= i < |list| ==>
        list[i].wantToLock == k.want[i] && list[i].locked == k.locked[i] == (k.want[i] > 0)
    {
      forall i | 0 <= i < |list|
        ensures list[i].wantToLock == k.want[i] && list[i].locked == k.locked[i] == (k.want[i] > 0)
      {
        assert Agrees(i) && Expected(k, i);
      }
    }
  }

  /** Between calls the claims say everything. */
  lemma SameClaims(k0: Conn, k1: Conn)
    requires LocalOk(k0) && LocalOk(k1) && k0.pc == k1.pc == Idle && |k0.want| == |k1.want|
    requires forall i :: 0 <= i < |k0.want| ==> k0.want[i] == k1.want[i]
    ensures k0 == k1
  {
    forall i | 0 <= i < |k0.want|
      ensures k0.locked[i] == k1.locked[i]
    {
      assert Expected(k0, i) && Expected(k1, i);
    }
  }

  lemma {:induction false} NamingGrows(aDb: seq<Slot>, m: nat, n: nat, i: nat)
    requires m <= n <= |aDb|
    ensures |Naming(aDb, m, i)| <= |Naming(aDb, n, i)|
  {
    if m < n {
      NamingGrows(aDb, m, n - 1, i);
      NamingStep(aDb, n - 1, i);
    }
  }

  lemma NamedNext(aDb: seq<Slot>, n: nat)
    requires n < |aDb|
    ensures forall i: nat :: |Naming(aDb, n + 1, i)| == |Naming(aDb, n, i)| + (if aDb[n] == Shared(i) then 1 else 0)
  {
    forall i: nat { NamingStep(aDb, n, i); }
  }

  lemma MoreNamed(aDb: seq<Slot>, n: nat)
    requires n < |aDb| && aDb[n].Shared?
    ensures |Naming(aDb, n, aDb[n].i)| < |Naming(aDb, |aDb|, aDb[n].i)|
  {
    NamingStep(aDb, n, aDb[n].i);
    NamingGrows(aDb, n + 1, |aDb|, aDb[n].i);
  }

  /** Between calls the locks follow from the claims. */
  lemma IdleLocks(k0: Conn, k1: Conn, p: nat)
    requires LocalOk(k0) && LocalOk(k1) && k0.pc == k1.pc == Idle && p < |k0.want|
    requires k1.want == k0.want[p := k0.want[p] + 1]
    ensures k1.locked == k0.locked[p := true]
  {
    forall i | 0 <= i < |k0.want|
      ensures k1.locked[i] == k0.locked[p := true][i]
    {
      assert Expected(k0, i) && Expected(k1, i);
    }
  }
}
