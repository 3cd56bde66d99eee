/** The locking protocol of btmutex.c as a state machine: any number of connections, each with
    its list of sharable Btrees in ascending order of BtShared address, enter and leave the
    non-recursive BtShared mutexes one atomic operation at a time. */
module BtreeProtocol {
  import opened Sequences

  /** Where a connection is inside sqlite3BtreeEnter: line 112, lines 123-130, line 131, and
      lines 132-136. */
  datatype Pc = Idle | Try(p: nat) | Release(p: nat, later: nat) | Block(p: nat) | Relock(p: nat, later: nat)

  /** The Btrees of one connection, in pNext order. */
  datatype Conn = Conn(want: seq<nat>, locked: seq<bool>, pc: Pc)

  /** Enter and Leave are calls; TryFails and Advance are what happens inside a call. */
  datatype Action = Enter(p: nat) | Leave(p: nat) | TryFails | Advance

  datatype MutexOp = NoOp | Acquire(i: nat) | Unlock(i: nat)

  ghost predicate Shape(k: Conn) {
    |k.locked| == |k.want|
  }

  ghost predicate CanAct(k: Conn, a: Action) {
    match a
    case Enter(p) => k.pc == Idle && p < |k.want|
    case Leave(p) => k.pc == Idle && p < |k.want| && k.want[p] > 0
    case TryFails => k.pc.Try?
    case Advance => k.pc != Idle
  }

  /** The mutex operation of the next step. */
  function OpOf(k: Conn, a: Action): MutexOp
    requires Shape(k)
  {
    match a
    case Enter(p) => NoOp
    case Leave(p) => if p < |k.want| && k.want[p] == 1 then Unlock(p) else NoOp
    case TryFails => NoOp
    case Advance =>
      match k.pc
      case Idle => NoOp
      case Try(p) => Acquire(p)
      case Release(p, j) => if j < |k.want| && k.locked[j] then Unlock(j) else NoOp
      case Block(p) => Acquire(p)
      case Relock(p, j) => if j < |k.want| && k.want[j] > 0 then Acquire(j) else NoOp
  }

  function PcAfter(k: Conn, a: Action): Pc
    requires Shape(k)
  {
    match a
    case Enter(p) => if p < |k.want| && k.locked[p] then Idle else Try(p)
    case Leave(p) => Idle
    case TryFails => if k.pc.Try? then Release(k.pc.p, k.pc.p + 1) else k.pc
    case Advance =>
      match k.pc
      case Idle => Idle
      case Try(p) => Idle
      case Release(p, j) => if j < |k.want| then Release(p, j + 1) else Block(p)
      case Block(p) => Relock(p, p + 1)
      case Relock(p, j) => if j < |k.want| then Relock(p, j + 1) else Idle
  }

  function WantAfter(k: Conn, a: Action): seq<nat> {
    match a
    case Enter(p) => if p < |k.want| then k.want[p := k.want[p] + 1] else k.want
    case Leave(p) => if p < |k.want| && k.want[p] > 0 then k.want[p := k.want[p] - 1] else k.want
    case _ => k.want
  }

  function LockedAfter(k: Conn, a: Action): seq<bool>
    requires Shape(k)
  {
    match OpOf(k, a)
    case NoOp => k.locked
    case Acquire(i) => if i < |k.locked| then k.locked[i := true] else k.locked
    case Unlock(i) => if i < |k.locked| then k.locked[i := false] else k.locked
  }

  function After(k: Conn, a: Action): (k': Conn)
    requires Shape(k)
  {
    Conn(WantAfter(k, a), LockedAfter(k, a), PcAfter(k, a))
  }

  /** What wantToLock and the place in the code say about locked: outside btreeLockCarefully a
      Btree is locked exactly when it is wanted; while p is being locked p is not, and
      neither are the later ones that have been released. */
  ghost predicate Expected(k: Conn, i: nat)
    requires Shape(k) && i < |k.want|
  {
    var wanted := k.want[i] > 0;
    match k.pc
    case Idle => k.locked[i] == wanted
    case Try(p) => k.locked[i] == (wanted && i != p)
    case Release(p, j) => k.locked[i] == (wanted && (i < p || i >= j))
    case Block(p) => k.locked[i] == (wanted && i < p)
    case Relock(p, j) => k.locked[i] == (wanted && i < j)
  }

  ghost predicate LocalOk(k: Conn) {
    && Shape(k)
    && (k.pc != Idle ==> k.pc.p < |k.want| && k.want[k.pc.p] > 0)
    && (k.pc.Release? || k.pc.Relock? ==> k.pc.p < k.pc.later <= |k.want|)
    && forall i :: 0 <= i < |k.want| ==> Expected(k, i)
  }

  lemma LocalStepKeeps(k: Conn, a: Action)
    requires LocalOk(k) && CanAct(k, a)
    ensures LocalOk(After(k, a)) && |After(k, a).want| == |k.want|
  {
    var k' := After(k, a);
    forall i | 0 <= i < |k.want|
      ensures Expected(k', i)
    {
      assert Expected(k, i);
    }
  }

  /** The asserts of lockBtreeMutex and unlockBtreeMutex: one acquires only what one does not
      hold and unlocks only what one holds. */
  lemma OpsAreMatched(k: Conn, a: Action)
    requires LocalOk(k) && CanAct(k, a)
    ensures OpOf(k, a).Acquire? ==> OpOf(k, a).i < |k.want| && !k.locked[OpOf(k, a).i]
    ensures OpOf(k, a).Unlock? ==> OpOf(k, a).i < |k.want| && k.locked[OpOf(k, a).i]
  {
    var op := OpOf(k, a);
    if !op.NoOp? && op.i < |k.want| { assert Expected(k, op.i); }
  }

  /** acts leads one connection from k0 to k1. */
  ghost predicate LocalPath(k0: Conn, acts: seq<Action>, k1: Conn)
    decreases |acts|
  {
    if |acts| == 0 then k0 == k1
    else Shape(k0) && CanAct(k0, acts[0]) && LocalPath(After(k0, acts[0]), acts[1..], k1)
  }

  lemma {:induction false} LocalPathSnoc(k0: Conn, acts: seq<Action>, k1: Conn, a: Action)
    requires LocalPath(k0, acts, k1) && Shape(k1) && CanAct(k1, a)
    ensures LocalPath(k0, acts + [a], After(k1, a))
    decreases |acts|
  {
    if |acts| > 0 {
      LocalPathSnoc(After(k0, acts[0]), acts[1..], k1, a);
      assert (acts + [a])[1..] == acts[1..] + [a];
    } else {
      assert (acts + [a])[1..] == acts;
    }
  }

  lemma LocalPathCons(k0: Conn, a: Action, acts: seq<Action>, k1: Conn)
    requires Shape(k0) && CanAct(k0, a) && LocalPath(After(k0, a), acts, k1)
    ensures LocalPath(k0, [a] + acts, k1)
  {
    assert ([a] + acts)[1..] == acts;
  }

  lemma {:induction false} LocalPathJoin(k0: Conn, acts: seq<Action>, k1: Conn, more: seq<Action>, k2: Conn)
    requires LocalPath(k0, acts, k1) && LocalPath(k1, more, k2)
    ensures LocalPath(k0, acts + more, k2)
    decreases |acts|
  {
    if |acts| > 0 {
      LocalPathJoin(After(k0, acts[0]), acts[1..], k1, more, k2);
      LocalPathCons(k0, acts[0], acts[1..] + more, k2);
      Head(acts, more);
    } else {
      assert acts + more == more;
    }
  }

  // ---- all connections

  /** Topology: the BtShared addresses of each connection's Btrees, ascending along pNext. */
  ghost predicate Ordered(lists: seq<seq<nat>>) {
    forall c, i, j :: 0 <= c < |lists| && 0 <= i < j < |lists[c]| ==> lists[c][i] < lists[c][j]
  }

  /** holder: which connection has a BtShared mutex; db: the db field of each BtShared. */
  datatype State = State(conns: seq<Conn>, holder: map<nat, nat>, db: map<nat, nat>)

  /** Only a free mutex can be acquired. */
  ghost predicate Enabled(lists: seq<seq<nat>>, s: State, c: nat, a: Action) {
    && c < |s.conns| == |lists| && Shape(s.conns[c]) && |s.conns[c].want| == |lists[c]|
    && CanAct(s.conns[c], a)
    && var op := OpOf(s.conns[c], a);
       op.Acquire? ==> op.i < |lists[c]| && lists[c][op.i] !in s.holder
  }

  function Step(lists: seq<seq<nat>>, s: State, c: nat, a: Action): State
    requires c < |s.conns| == |lists| && Shape(s.conns[c])
  {
    var conns := s.conns[c := After(s.conns[c], a)];
    match OpOf(s.conns[c], a)
    case NoOp => State(conns, s.holder, s.db)
    case Acquire(i) =>
      if i < |lists[c]| then State(conns, s.holder[lists[c][i] := c], s.db[lists[c][i] := c]) else s
    case Unlock(i) =>
      if i < |lists[c]| then State(conns, s.holder - {lists[c][i]}, s.db) else s
  }

  ghost predicate Coupled(lists: seq<seq<nat>>, s: State, c: nat)
    requires c < |s.conns| == |lists|
  {
    var k := s.conns[c];
    && LocalOk(k) && |k.want| == |lists[c]|
    && forall i :: 0 <= i < |k.want| ==>
         var m := lists[c][i];
         && (k.locked[i] <==> m in s.holder && s.holder[m] == c)
         && (k.locked[i] ==> m in s.db && s.db[m] == c)
  }

  ghost predicate Inv(lists: seq<seq<nat>>, s: State) {
    && Ordered(lists) && |s.conns| == |lists|
    && (forall c :: 0 <= c < |lists| ==> Coupled(lists, s, c))
    && (forall m :: m in s.holder ==> s.holder[m] < |lists| && m in lists[s.holder[m]])
  }

  lemma StepKeepsInv(lists: seq<seq<nat>>, s: State, c: nat, a: Action)
    requires Inv(lists, s) && Enabled(lists, s, c, a)
    ensures Inv(lists, Step(lists, s, c, a))
  {
    var s' := Step(lists, s, c, a);
    assert Coupled(lists, s, c);
    LocalStepKeeps(s.conns[c], a);
    OpsAreMatched(s.conns[c], a);
    forall d | 0 <= d < |lists|
      ensures Coupled(lists, s', d)
    {
      assert Coupled(lists, s, d);
    }
  }

  // ---- whole runs

  /** Which connection acts next, and how. */
  datatype Choice = Choice(c: nat, a: Action)

  ghost predicate Runs(lists: seq<seq<nat>>, s: State, steps: seq<Choice>)
    decreases |steps|
  {
    |steps| > 0 ==>
      Enabled(lists, s, steps[0].c, steps[0].a) && Runs(lists, Step(lists, s, steps[0].c, steps[0].a), steps[1..])
  }

  ghost function Final(lists: seq<seq<nat>>, s: State, steps: seq<Choice>): State
    requires Runs(lists, s, steps)
    decreases |steps|
  {
    if |steps| == 0 then s else Final(lists, Step(lists, s, steps[0].c, steps[0].a), steps[1..])
  }

  /** No Btree is wanted or locked yet. */
  ghost predicate Initial(lists: seq<seq<nat>>, s: State) {
    && Ordered(lists) && |s.conns| == |lists| && s.holder == map[]
    && forall c :: 0 <= c < |lists| ==>
         var k := s.conns[c];
         && k.pc == Idle && |k.want| == |k.locked| == |lists[c]|
         && forall i :: 0 <= i < |k.want| ==> k.want[i] == 0 && !k.locked[i]
  }

  lemma {:induction false} RunsKeepInv(lists: seq<seq<nat>>, s: State, steps: seq<Choice>)
    requires Inv(lists, s) && Runs(lists, s, steps)
    ensures Inv(lists, Final(lists, s, steps))
    decreases |steps|
  {
    if |steps| > 0 {
      StepKeepsInv(lists, s, steps[0].c, steps[0].a);
      RunsKeepInv(lists, Step(lists, s, steps[0].c, steps[0].a), steps[1..]);
    }
  }

  /** Every reachable state meets the invariant. */
  lemma Reachable(lists: seq<seq<nat>>, s: State, steps: seq<Choice>)
    requires Initial(lists, s) && Runs(lists, s, steps)
    ensures Inv(lists, Final(lists, s, steps))
  {
    forall c | 0 <= c < |lists|
      ensures Coupled(lists, s, c)
    {
      assert s.conns[c].pc == Idle;
    }
    RunsKeepInv(lists, s, steps);
  }

  /** What connection c does in a run. */
  function Projected(steps: seq<Choice>, c: nat): seq<Action> {
    if |steps| == 0 then []
    else if steps[0].c == c then [steps[0].a] + Projected(steps[1..], c)
    else Projected(steps[1..], c)
  }

  /** Seen from one connection, any run is a path of its own: the calls of its code, cut up and
      interleaved with those of the others, however long they are. */
  lemma {:induction false} RunsProject(lists: seq<seq<nat>>, s: State, steps: seq<Choice>, c: nat)
    requires Inv(lists, s) && Runs(lists, s, steps) && c < |lists|
    ensures |Final(lists, s, steps).conns| == |lists|
    ensures LocalPath(s.conns[c], Projected(steps, c), Final(lists, s, steps).conns[c])
    decreases |steps|
  {
    if |steps| > 0 {
      StepKeepsInv(lists, s, steps[0].c, steps[0].a);
      OpsAreMatchedIn(lists, s, steps[0].c, steps[0].a);
      RunsProject(lists, Step(lists, s, steps[0].c, steps[0].a), steps[1..], c);
      if steps[0].c == c {
        LocalPathCons(s.conns[c], steps[0].a, Projected(steps[1..], c), Final(lists, s, steps).conns[c]);
      }
    }
  }

  // ---- what the invariant gives

  /** A BtShared mutex is locked through at most one Btree, and db names its connection. */
  lemma MutualExclusion(lists: seq<seq<nat>>, s: State, c: nat, i: nat, d: nat, j: nat)
    requires Inv(lists, s) && c < |lists| && d < |lists|
    requires i < |lists[c]| == |s.conns[c].locked| && j < |lists[d]| == |s.conns[d].locked|
    requires s.conns[c].locked[i] && s.conns[d].locked[j] && lists[c][i] == lists[d][j]
    ensures c == d && i == j
    ensures lists[c][i] in s.db && s.db[lists[c][i]] == c
  {
    assert Coupled(lists, s, c) && Coupled(lists, s, d);
  }

  /** The mutex that connection c blocks on at lines 131 and 134. */
  ghost predicate WaitsFor(lists: seq<seq<nat>>, s: State, c: nat, m: nat) {
    && c < |s.conns| == |lists| && m in s.holder
    && Shape(s.conns[c]) && (s.conns[c].pc.Block? || s.conns[c].pc.Relock?)
    && var op := OpOf(s.conns[c], Advance);
       op.Acquire? && op.i < |lists[c]| && lists[c][op.i] == m
  }

  /** A blocked connection holds only mutexes with smaller addresses. */
  lemma BlockedHoldsSmaller(lists: seq<seq<nat>>, s: State, c: nat, m: nat, held: nat)
    requires Inv(lists, s) && WaitsFor(lists, s, c, m)
    requires held in s.holder && s.holder[held] == c
    ensures held < m
  {
    assert Coupled(lists, s, c);
    var i :| 0 <= i < |lists[c]| && lists[c][i] == held;
    assert Expected(s.conns[c], i);
  }

  ghost predicate AllBlocked(lists: seq<seq<nat>>, s: State, cs: set<nat>) {
    forall c :: c in cs ==> exists m: nat :: WaitsFor(lists, s, c, m)
  }

  /** In any set of blocked connections one waits for a mutex that is held outside the set. */
  lemma {:induction false} NoDeadlock(lists: seq<seq<nat>>, s: State, cs: set<nat>) returns (c: nat, m: nat)
    requires Inv(lists, s) && cs != {} && AllBlocked(lists, s, cs)
    ensures c in cs && WaitsFor(lists, s, c, m) && s.holder[m] !in cs
  {
    c, m := LargestWait(lists, s, cs);
    var d := s.holder[m];
    if d in cs {
      var m': nat :| WaitsFor(lists, s, d, m');
      BlockedHoldsSmaller(lists, s, d, m', m);
    }
  }

  /** A member of a set of blocked connections that waits for the largest address. */
  lemma {:induction false} LargestWait(lists: seq<seq<nat>>, s: State, cs: set<nat>) returns (c: nat, m: nat)
    requires Inv(lists, s) && cs != {} && AllBlocked(lists, s, cs)
    ensures c in cs && WaitsFor(lists, s, c, m)
    ensures forall d: nat, m': nat :: d in cs && WaitsFor(lists, s, d, m') ==> m' <= m
    decreases cs
  {
    c :| c in cs;
    m :| WaitsFor(lists, s, c, m);
    if cs != {c} {
      var c', m' := LargestWait(lists, s, cs - {c});
      if m' > m { c, m := c', m'; }
    }
  }

  /** A connection inside sqlite3BtreeEnter can go on unless it is blocked, so if none can then
      some connection between calls holds a mutex that another one waits for. */
  lemma Progress(lists: seq<seq<nat>>, s: State, busy: set<nat>) returns (c: nat, m: nat)
    requires Inv(lists, s) && busy != {}
    requires forall c :: c in busy <==> 0 <= c < |lists| && s.conns[c].pc != Idle
    ensures c in busy
    ensures Enabled(lists, s, c, Advance) || Enabled(lists, s, c, TryFails) ||
      (WaitsFor(lists, s, c, m) && s.conns[s.holder[m]].pc == Idle)
  {
    m := 0;
    if c' :| c' in busy && (Enabled(lists, s, c', Advance) || Enabled(lists, s, c', TryFails)) {
      c := c';
    } else {
      forall c | c in busy
        ensures exists m: nat :: WaitsFor(lists, s, c, m)
      {
        assert Coupled(lists, s, c);
        OpsAreMatched(s.conns[c], Advance);
        assert !Enabled(lists, s, c, Advance) && !Enabled(lists, s, c, TryFails);
        assert WaitsFor(lists, s, c, lists[c][OpOf(s.conns[c], Advance).i]);
      }
      c, m := NoDeadlock(lists, s, busy);
    }
  }

  // ---- what one call does

  /** In this run connection c makes no new call. */
  ghost predicate NoCalls(steps: seq<Choice>, c: nat) {
    forall i :: 0 <= i < |steps| ==> steps[i].c == c ==> !steps[i].a.Enter? && !steps[i].a.Leave?
  }

  lemma {:induction false} WantUnchanged(lists: seq<seq<nat>>, s: State, steps: seq<Choice>, c: nat)
    requires Inv(lists, s) && Runs(lists, s, steps) && NoCalls(steps, c) && c < |lists|
    ensures |Final(lists, s, steps).conns| == |lists|
    ensures Final(lists, s, steps).conns[c].want == s.conns[c].want
    decreases |steps|
  {
    if |steps| > 0 {
      StepKeepsInv(lists, s, steps[0].c, steps[0].a);
      OpsAreMatchedIn(lists, s, steps[0].c, steps[0].a);
      WantUnchanged(lists, Step(lists, s, steps[0].c, steps[0].a), steps[1..], c);
    }
  }

  lemma OpsAreMatchedIn(lists: seq<seq<nat>>, s: State, c: nat, a: Action)
    requires Inv(lists, s) && Enabled(lists, s, c, a)
    ensures Step(lists, s, c, a).conns == s.conns[c := After(s.conns[c], a)]
  {
    assert Coupled(lists, s, c);
    OpsAreMatched(s.conns[c], a);
  }

  /** sqlite3BtreeEnter, from the call to the return, with any other connections acting in
      between: c ends with one more claim on p, holding what it held before and p, even if it
      had to release and re-take later mutexes on the way. */
  lemma EnterEffect(lists: seq<seq<nat>>, s: State, c: nat, p: nat, steps: seq<Choice>)
    requires Inv(lists, s) && Enabled(lists, s, c, Enter(p))
    requires Runs(lists, Step(lists, s, c, Enter(p)), steps) && NoCalls(steps, c)
    requires c < |Final(lists, Step(lists, s, c, Enter(p)), steps).conns|
    requires Final(lists, Step(lists, s, c, Enter(p)), steps).conns[c].pc == Idle
    ensures var k, k' := s.conns[c], Final(lists, Step(lists, s, c, Enter(p)), steps).conns[c];
      && k'.want == k.want[p := k.want[p] + 1]
      && k'.locked == k.locked[p := true]
  {
    var s1 := Step(lists, s, c, Enter(p));
    var s2 := Final(lists, s1, steps);
    StepKeepsInv(lists, s, c, Enter(p));
    WantUnchanged(lists, s1, steps, c);
    RunsKeepInv(lists, s1, steps);
    assert Coupled(lists, s, c) && Coupled(lists, s2, c);
    forall i | 0 <= i < |lists[c]|
      ensures s2.conns[c].locked[i] == s.conns[c].locked[p := true][i]
    {
      assert Expected(s.conns[c], i) && Expected(s2.conns[c], i);
    }
  }
}
