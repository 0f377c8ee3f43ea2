/**
 The shared-cache mutex protocol: any number of connections enter and leave
 their B-trees concurrently, each B-tree guarded by the mutex of its BtShared.
 BtShared objects are identified with their addresses, which order the mutexes.
 Every atomic step of lockBtreeMutex, unlockBtreeMutex and btreeLockCarefully is
 a transition, so a run is an arbitrary interleaving of steps.
 */
module BtMutex {

  /** One sharable B-tree of a connection; the pNext list is the sequence of them. */
  datatype Btree = Btree(shared: nat, wantToLock: nat, locked: bool)

  /** Where a connection is inside btreeLockCarefully. */
  datatype Pc =
    | Idle                        // between calls
    | Trying(i: nat)              // about to sqlite3_mutex_try the mutex of B-tree i
    | Releasing(i: nat, j: nat)   // first loop, pLater is B-tree j
    | Blocking(i: nat)            // in lockBtreeMutex(p), p is B-tree i
    | Relocking(i: nat, j: nat)   // second loop, pLater is B-tree j

  datatype Conn = Conn(bts: seq<Btree>, pc: Pc)

  /** owner: who holds each held mutex; db: BtShared.db. */
  datatype State = State(conns: seq<Conn>, owner: map<nat, nat>, db: map<nat, nat>)

  datatype Action =
    | Enter(k: nat)               // sqlite3BtreeEnter is called
    | Leave(k: nat)               // sqlite3BtreeLeave is called
    | TryLock                     // sqlite3_mutex_try succeeds
    | TryFail                     // sqlite3_mutex_try fails, which it may do at any time
    | Advance                     // the next step of the ascending procedure

  // --------------------------------------------------------------- transitions

  /** The mutex a connection blocks on, if it is at a blocking call. */
  predicate AtMutex(c: Conn, k: nat) {
    && k < |c.bts|
    && match c.pc
       case Blocking(i) => k == i
       case Relocking(i, j) => k == j && c.bts[k].wantToLock > 0
       case _ => false
  }

  predicate Enabled(s: State, c: nat, act: Action) {
    && c < |s.conns|
    && var conn := s.conns[c];
       match act
       case Enter(k) => conn.pc.Idle? && k < |conn.bts|
       case Leave(k) => conn.pc.Idle? && k < |conn.bts| && conn.bts[k].wantToLock > 0
       case TryLock => conn.pc.Trying? && conn.pc.i < |conn.bts| && conn.bts[conn.pc.i].shared !in s.owner
       case TryFail => conn.pc.Trying?
       case Advance =>
         && !conn.pc.Idle? && !conn.pc.Trying?
         && (conn.pc.Blocking? ==> conn.pc.i < |conn.bts|)
         && (forall k :: 0 <= k < |conn.bts| && AtMutex(conn, k) ==> conn.bts[k].shared !in s.owner)
  }

  /** sqlite3_mutex_enter has returned, or sqlite3_mutex_try has succeeded. */
  function Acquire(s: State, c: nat, k: nat, pc: Pc): State
    requires c < |s.conns| && k < |s.conns[c].bts|
  {
    var conn := s.conns[c];
    var m := conn.bts[k].shared;
    State(s.conns[c := Conn(conn.bts[k := conn.bts[k].(locked := true)], pc)], s.owner[m := c], s.db[m := c])
  }

  /** unlockBtreeMutex */
  function Unlock(s: State, c: nat, k: nat, pc: Pc): State
    requires c < |s.conns| && k < |s.conns[c].bts|
  {
    var conn := s.conns[c];
    State(s.conns[c := Conn(conn.bts[k := conn.bts[k].(locked := false)], pc)], s.owner - {conn.bts[k].shared}, s.db)
  }

  function Goto(s: State, c: nat, pc: Pc): State
    requires c < |s.conns|
  {
    s.(conns := s.conns[c := s.conns[c].(pc := pc)])
  }

  function SetWant(s: State, c: nat, k: nat, n: nat): State
    requires c < |s.conns| && k < |s.conns[c].bts|
  {
    var conn := s.conns[c];
    s.(conns := s.conns[c := conn.(bts := conn.bts[k := conn.bts[k].(wantToLock := n)])])
  }

  function Apply(s: State, c: nat, act: Action): State
    requires Enabled(s, c, act)
  {
    var conn := s.conns[c];
    match act
    case Enter(k) =>
      var s1 := SetWant(s, c, k, conn.bts[k].wantToLock + 1);
      if conn.bts[k].locked then s1 else Goto(s1, c, Trying(k))
    case Leave(k) =>
      var s1 := SetWant(s, c, k, conn.bts[k].wantToLock - 1);
      if conn.bts[k].wantToLock == 1 then Unlock(s1, c, k, Idle) else s1
    case TryLock => Acquire(s, c, conn.pc.i, Idle)
    case TryFail => Goto(s, c, Releasing(conn.pc.i, conn.pc.i + 1))
    case Advance =>
      match conn.pc
      case Releasing(i, j) =>
        if j >= |conn.bts| then Goto(s, c, Blocking(i))
        else if conn.bts[j].locked then Unlock(s, c, j, Releasing(i, j + 1))
        else Goto(s, c, Releasing(i, j + 1))
      case Blocking(i) => Acquire(s, c, i, Relocking(i, i + 1))
      case Relocking(i, j) =>
        if j >= |conn.bts| then Goto(s, c, Idle)
        else if conn.bts[j].wantToLock > 0 then Acquire(s, c, j, Relocking(i, j + 1))
        else Goto(s, c, Relocking(i, j + 1))
  }

  type Trace = seq<(nat, Action)>

  /** The trace is a run from s. */
  ghost predicate IsRun(s: State, t: Trace)
    decreases |t|
  {
    t == [] || (Enabled(s, t[0].0, t[0].1) && IsRun(Apply(s, t[0].0, t[0].1), t[1..]))
  }

  ghost function Final(s: State, t: Trace): State
    requires IsRun(s, t)
    decreases |t|
  {
    if t == [] then s else Final(Apply(s, t[0].0, t[0].1), t[1..])
  }

  // ----------------------------------------------------------------- invariant

  /** The lock on B-tree k is meant to agree with wantToLock at this point of the code. */
  predicate Synced(pc: Pc, k: nat) {
    match pc
    case Idle => true
    case Trying(i) => k != i
    case Releasing(i, j) => k < i || k >= j
    case Blocking(i) => k < i
    case Relocking(i, j) => k < j
  }

  predicate PcOk(c: Conn) {
    match c.pc
    case Idle => true
    case Trying(i) => i < |c.bts| && c.bts[i].wantToLock > 0
    case Releasing(i, j) => i < j <= |c.bts| && c.bts[i].wantToLock > 0
    case Blocking(i) => i < |c.bts| && c.bts[i].wantToLock > 0
    case Relocking(i, j) => i < j <= |c.bts|
  }

  /** The pNext list is in ascending order of BtShared addresses. */
  predicate Ascending(bts: seq<Btree>) {
    forall i, j :: 0 <= i < j < |bts| ==> bts[i].shared < bts[j].shared
  }

  ghost predicate ConnOk(c: Conn) {
    && Ascending(c.bts) && PcOk(c)
    && forall k :: 0 <= k < |c.bts| ==> (c.bts[k].locked <==> c.bts[k].wantToLock > 0 && Synced(c.pc, k))
  }

  /** A locked B-tree's mutex is held by its connection, and BtShared.db says so. */
  ghost predicate LockOk(s: State, c: nat, k: nat)
    requires c < |s.conns| && k < |s.conns[c].bts|
  {
    var b := s.conns[c].bts[k];
    && (b.locked <==> b.shared in s.owner && s.owner[b.shared] == c)
    && (b.locked ==> b.shared in s.db && s.db[b.shared] == c)
  }

  ghost predicate Holds(c: Conn, m: nat) {
    exists k :: 0 <= k < |c.bts| && c.bts[k].shared == m && c.bts[k].locked
  }

  ghost predicate Inv(s: State) {
    && (forall c :: 0 <= c < |s.conns| ==> ConnOk(s.conns[c]))
    && (forall c, k :: 0 <= c < |s.conns| && 0 <= k < |s.conns[c].bts| ==> LockOk(s, c, k))
    && (forall m :: m in s.owner ==> s.owner[m] < |s.conns| && Holds(s.conns[s.owner[m]], m))
  }

  /** Before the first call nobody wants or holds anything. */
  ghost predicate Init(s: State) {
    && s.owner == map[]
    && forall c :: 0 <= c < |s.conns| ==>
         && Ascending(s.conns[c].bts) && s.conns[c].pc.Idle?
         && forall k :: 0 <= k < |s.conns[c].bts| ==> s.conns[c].bts[k].wantToLock == 0 && !s.conns[c].bts[k].locked
  }

  lemma InitInv(s: State)
    requires Init(s)
    ensures Inv(s)
  {
  }

  /** What one connection's own change must satisfy for the whole state to stay consistent. */
  lemma FrameAcquire(s: State, c: nat, k: nat, pc: Pc)
    requires Inv(s) && c < |s.conns| && k < |s.conns[c].bts|
    requires s.conns[c].bts[k].shared !in s.owner
    requires ConnOk(Acquire(s, c, k, pc).conns[c])
    ensures Inv(Acquire(s, c, k, pc))
  {
    var s', m := Acquire(s, c, k, pc), s.conns[c].bts[k].shared;
    forall d, l | 0 <= d < |s'.conns| && 0 <= l < |s'.conns[d].bts| ensures LockOk(s', d, l) {
      assert LockOk(s, d, l);
      if d == c && l != k {
        assert s.conns[c].bts[l].shared != m;
      }
    }
    forall n | n in s'.owner ensures s'.owner[n] < |s'.conns| && Holds(s'.conns[s'.owner[n]], n) {
      if n == m {
        assert s'.conns[c].bts[k].locked;
      } else {
        HoldsKept(s.conns[s.owner[n]], s'.conns[s.owner[n]], n, m);
      }
    }
  }

  lemma HoldsKept(c: Conn, c': Conn, n: nat, m: nat)
    requires Holds(c, n) && n != m && |c.bts| == |c'.bts|
    requires forall k :: 0 <= k < |c.bts| ==> c'.bts[k].shared == c.bts[k].shared
    requires forall k :: 0 <= k < |c.bts| && c.bts[k].shared != m ==> c'.bts[k].locked == c.bts[k].locked
    ensures Holds(c', n)
  {
    var k :| 0 <= k < |c.bts| && c.bts[k].shared == n && c.bts[k].locked;
    assert c'.bts[k].shared == n && c'.bts[k].locked;
  }

  lemma FrameUnlock(s: State, c: nat, k: nat, pc: Pc)
    requires Inv(s) && c < |s.conns| && k < |s.conns[c].bts| && s.conns[c].bts[k].locked
    requires ConnOk(Unlock(s, c, k, pc).conns[c])
    ensures Inv(Unlock(s, c, k, pc))
  {
    var s', m := Unlock(s, c, k, pc), s.conns[c].bts[k].shared;
    assert LockOk(s, c, k);
    forall d, l | 0 <= d < |s'.conns| && 0 <= l < |s'.conns[d].bts| ensures LockOk(s', d, l) {
      assert LockOk(s, d, l);
      if d == c && l != k {
        assert s.conns[c].bts[l].shared != m;
      }
    }
    forall n | n in s'.owner ensures s'.owner[n] < |s'.conns| && Holds(s'.conns[s'.owner[n]], n) {
      HoldsKept(s.conns[s.owner[n]], s'.conns[s.owner[n]], n, m);
    }
  }

  /** A step that changes neither locks nor addresses. */
  lemma FrameQuiet(s: State, c: nat, conn: Conn)
    requires Inv(s) && c < |s.conns| && ConnOk(conn)
    requires |conn.bts| == |s.conns[c].bts|
    requires forall k :: 0 <= k < |conn.bts| ==>
      conn.bts[k].shared == s.conns[c].bts[k].shared && conn.bts[k].locked == s.conns[c].bts[k].locked
    ensures Inv(s.(conns := s.conns[c := conn]))
  {
    var s' := s.(conns := s.conns[c := conn]);
    forall d, l | 0 <= d < |s'.conns| && 0 <= l < |s'.conns[d].bts| ensures LockOk(s', d, l) {
      assert LockOk(s, d, l);
    }
    forall n | n in s'.owner ensures s'.owner[n] < |s'.conns| && Holds(s'.conns[s'.owner[n]], n) {
      var o := s.conns[s.owner[n]];
      var k :| 0 <= k < |o.bts| && o.bts[k].shared == n && o.bts[k].locked;
      assert s'.conns[s.owner[n]].bts[k].shared == n && s'.conns[s.owner[n]].bts[k].locked;
    }
  }

  lemma EnterInv(s: State, c: nat, k: nat)
    requires Inv(s) && Enabled(s, c, Enter(k))
    ensures Inv(Apply(s, c, Enter(k)))
  {
    hide LockOk, Holds;
    assert ConnOk(s.conns[c]);
    var conn' := Apply(s, c, Enter(k)).conns[c];
    FrameQuiet(s, c, conn');
    assert s.(conns := s.conns[c := conn']) == Apply(s, c, Enter(k));
  }

  lemma LeaveInv(s: State, c: nat, k: nat)
    requires Inv(s) && Enabled(s, c, Leave(k))
    ensures Inv(Apply(s, c, Leave(k)))
  {
    hide LockOk, Holds;
    var conn := s.conns[c];
    assert ConnOk(conn);
    if conn.bts[k].wantToLock == 1 {
      LeaveLast(s, c, k);
    } else {
      FrameQuiet(s, c, SetWant(s, c, k, conn.bts[k].wantToLock - 1).conns[c]);
    }
  }

  lemma TryInv(s: State, c: nat)
    requires Inv(s) && c < |s.conns| && s.conns[c].pc.Trying?
    ensures Inv(Apply(s, c, TryFail))
    ensures Enabled(s, c, TryLock) ==> Inv(Apply(s, c, TryLock))
  {
    hide LockOk, Holds;
    var conn := s.conns[c];
    assert ConnOk(conn);
    FrameQuiet(s, c, conn.(pc := Releasing(conn.pc.i, conn.pc.i + 1)));
    if Enabled(s, c, TryLock) {
      FrameAcquire(s, c, conn.pc.i, Idle);
    }
  }

  lemma StepInv(s: State, c: nat, act: Action)
    requires Inv(s) && Enabled(s, c, act)
    ensures Inv(Apply(s, c, act))
  {
    hide LockOk, Holds, ConnOk;
    match act
    case Enter(k) => EnterInv(s, c, k);
    case Leave(k) => LeaveInv(s, c, k);
    case TryLock => TryInv(s, c);
    case TryFail => TryInv(s, c);
    case Advance => AdvanceInv(s, c);
  }

  lemma LeaveLast(s: State, c: nat, k: nat)
    requires Inv(s) && c < |s.conns| && s.conns[c].pc.Idle?
    requires k < |s.conns[c].bts| && s.conns[c].bts[k].wantToLock == 1
    ensures Inv(Unlock(SetWant(s, c, k, 0), c, k, Idle))
  {
    assert ConnOk(s.conns[c]);
    FrameUnlock(s, c, k, Trying(k));
    var t := Unlock(s, c, k, Trying(k));
    var s' := Unlock(SetWant(s, c, k, 0), c, k, Idle);
    FrameQuiet(t, c, s'.conns[c]);
    assert t.(conns := t.conns[c := s'.conns[c]]) == s';
  }

  lemma AdvanceInv(s: State, c: nat)
    requires Inv(s) && Enabled(s, c, Advance)
    ensures Inv(Apply(s, c, Advance))
  {
    hide LockOk, Holds;
    var conn := s.conns[c];
    assert ConnOk(conn);
    match conn.pc
    case Releasing(i, j) => ReleasingInv(s, c);
    case Blocking(i) =>
      assert AtMutex(conn, i);
      FrameAcquire(s, c, i, Relocking(i, i + 1));
    case Relocking(i, j) => RelockingInv(s, c);
  }

  lemma ReleasingInv(s: State, c: nat)
    requires Inv(s) && Enabled(s, c, Advance) && s.conns[c].pc.Releasing?
    ensures Inv(Apply(s, c, Advance))
  {
    hide LockOk, Holds;
    var conn := s.conns[c];
    var i, j := conn.pc.i, conn.pc.j;
    assert ConnOk(conn);
    if j >= |conn.bts| {
      FrameQuiet(s, c, conn.(pc := Blocking(i)));
    } else if conn.bts[j].locked {
      FrameUnlock(s, c, j, Releasing(i, j + 1));
    } else {
      FrameQuiet(s, c, conn.(pc := Releasing(i, j + 1)));
    }
  }

  lemma RelockingInv(s: State, c: nat)
    requires Inv(s) && Enabled(s, c, Advance) && s.conns[c].pc.Relocking?
    ensures Inv(Apply(s, c, Advance))
  {
    hide LockOk, Holds;
    var conn := s.conns[c];
    var i, j := conn.pc.i, conn.pc.j;
    assert ConnOk(conn);
    if j >= |conn.bts| {
      FrameQuiet(s, c, conn.(pc := Idle));
    } else if conn.bts[j].wantToLock > 0 {
      assert AtMutex(conn, j);
      FrameAcquire(s, c, j, Relocking(i, j + 1));
    } else {
      FrameQuiet(s, c, conn.(pc := Relocking(i, j + 1)));
    }
  }

  /** Safety over every interleaving. */
  lemma {:induction false} RunInv(s: State, t: Trace)
    requires Inv(s) && IsRun(s, t)
    ensures Inv(Final(s, t))
    decreases |t|
  {
    if t != [] {
      StepInv(s, t[0].0, t[0].1);
      RunInv(Apply(s, t[0].0, t[0].1), t[1..]);
    }
  }

  // ------------------------------------------------------------------- results

  /** Two connections never have the same BtShared locked at the same time. */
  lemma MutualExclusion(s: State, c: nat, d: nat, k: nat, l: nat)
    requires Inv(s) && c < |s.conns| && d < |s.conns| && k < |s.conns[c].bts| && l < |s.conns[d].bts|
    requires s.conns[c].bts[k].locked && s.conns[d].bts[l].locked
    requires s.conns[c].bts[k].shared == s.conns[d].bts[l].shared
    ensures c == d && k == l
  {
    assert LockOk(s, c, k) && LockOk(s, d, l);
    assert ConnOk(s.conns[c]);
  }

  /** Between calls a B-tree is locked exactly when its use count is positive, and then by its own connection. */
  lemma QuiescentLocks(s: State, c: nat, k: nat)
    requires Inv(s) && c < |s.conns| && s.conns[c].pc.Idle? && k < |s.conns[c].bts|
    ensures var b := s.conns[c].bts[k];
      && (b.locked <==> b.wantToLock > 0)
      && (b.locked <==> b.shared in s.owner && s.owner[b.shared] == c)
      && (b.locked ==> b.shared in s.db && s.db[b.shared] == c)
  {
    assert ConnOk(s.conns[c]) && LockOk(s, c, k);
  }

  /** A connection that blocks on a mutex holds only smaller ones. */
  lemma BlocksAboveHeld(s: State, c: nat, k: nat, m: nat)
    requires Inv(s) && c < |s.conns| && AtMutex(s.conns[c], k)
    requires m in s.owner && s.owner[m] == c
    ensures m < s.conns[c].bts[k].shared
  {
    var conn := s.conns[c];
    assert ConnOk(conn) && Holds(conn, m);
    var l :| 0 <= l < |conn.bts| && conn.bts[l].shared == m && conn.bts[l].locked;
    assert l < k;
  }

  /** Connection c is blocked and the mutex it needs is held by a member of group. */
  ghost predicate WaitsWithin(s: State, c: nat, group: set<nat>) {
    && c < |s.conns|
    && exists k: nat :: AtMutex(s.conns[c], k) && s.conns[c].bts[k].shared in s.owner
                        && s.owner[s.conns[c].bts[k].shared] in group
  }

  ghost function Awaited(s: State, c: nat): nat
    requires c < |s.conns| && exists k: nat :: AtMutex(s.conns[c], k)
  {
    var k: nat :| AtMutex(s.conns[c], k);
    s.conns[c].bts[k].shared
  }

  /** Some member of a nonempty group awaits the greatest mutex. */
  lemma {:induction false} GreatestAwaited(s: State, group: set<nat>) returns (c: nat)
    requires group != {} && forall d :: d in group ==> d < |s.conns| && exists k: nat :: AtMutex(s.conns[d], k)
    ensures c in group && forall d :: d in group ==> Awaited(s, d) <= Awaited(s, c)
    decreases |group|
  {
    var d :| d in group;
    if group == {d} {
      return d;
    }
    assert group - {d} != {};
    var e := GreatestAwaited(s, group - {d});
    c := if Awaited(s, d) > Awaited(s, e) then d else e;
  }

  /** Whoever holds what c waits for, itself waits for something greater. */
  lemma HolderAwaitsMore(s: State, c: nat, group: set<nat>) returns (d: nat)
    requires Inv(s) && WaitsWithin(s, c, group)
    requires forall d :: d in group ==> d < |s.conns| && exists k: nat :: AtMutex(s.conns[d], k)
    ensures d in group && Awaited(s, d) > Awaited(s, c)
  {
    var k: nat :| AtMutex(s.conns[c], k) && s.conns[c].bts[k].shared in s.owner
                  && s.owner[s.conns[c].bts[k].shared] in group;
    var m := s.conns[c].bts[k].shared;
    d := s.owner[m];
    var l: nat :| AtMutex(s.conns[d], l);
    BlocksAboveHeld(s, d, l, m);
  }

  /** No group of connections is deadlocked: they cannot all be waiting for each other. */
  lemma NoDeadlock(s: State, group: set<nat>)
    requires Inv(s) && group != {}
    ensures exists c :: c in group && !WaitsWithin(s, c, group)
  {
    if forall d :: d in group ==> d < |s.conns| && exists k: nat :: AtMutex(s.conns[d], k) {
      var c := GreatestAwaited(s, group);
      if WaitsWithin(s, c, group) {
        var d := HolderAwaitsMore(s, c, group);
      }
      assert !WaitsWithin(s, c, group);
    }
  }

  /** The same for every state that any interleaving of calls can reach. */
  lemma DeadlockFreedom(s: State, t: Trace, group: set<nat>)
    requires Init(s) && IsRun(s, t) && group != {}
    ensures exists c :: c in group && !WaitsWithin(Final(s, t), c, group)
  {
    InitInv(s);
    RunInv(s, t);
    NoDeadlock(Final(s, t), group);
  }

  /** Some connection in the middle of a call can take its next step. */
  ghost predicate CanProceed(s: State, c: nat) {
    Enabled(s, c, Advance) || Enabled(s, c, TryFail)
  }

  /** A connection in the middle of a call proceeds unless it waits for a held mutex. */
  lemma StuckMeansWaiting(s: State, c: nat)
    requires Inv(s) && c < |s.conns| && !s.conns[c].pc.Idle? && !CanProceed(s, c)
    ensures exists k: nat :: AtMutex(s.conns[c], k) && s.conns[c].bts[k].shared in s.owner
  {
    assert ConnOk(s.conns[c]);
  }

  /**
   If calls are in progress, one of them can proceed, or a mutex is held by a
   connection that is between calls and free to leave.
   */
  lemma Progress(s: State, busy: set<nat>)
    requires Inv(s) && busy != {}
    requires forall c: nat :: c in busy <==> c < |s.conns| && !s.conns[c].pc.Idle?
    ensures
      || (exists c :: c in busy && CanProceed(s, c))
      || (exists m :: m in s.owner && s.owner[m] !in busy)
  {
    if forall c :: c in busy ==> !CanProceed(s, c) {
      NoDeadlock(s, busy);
      var c :| c in busy && !WaitsWithin(s, c, busy);
      StuckMeansWaiting(s, c);
    }
  }

  /** Own steps left until a call returns. */
  function StepsLeft(c: Conn): nat {
    var n := |c.bts|;
    match c.pc
    case Idle => 0
    case Trying(i) => 2 * n + 4
    case Releasing(i, j) => n + 3 + if j < n then n - j else 0
    case Blocking(i) => n + 2
    case Relocking(i, j) => 1 + if j < n then n - j else 0
  }

  /** Each own step brings a call nearer to its end, and others' steps do not set it back. */
  lemma CallsTerminate(s: State, c: nat, act: Action, d: nat)
    requires Inv(s) && Enabled(s, c, act) && d < |s.conns|
    ensures |Apply(s, c, act).conns| == |s.conns|
    ensures d != c ==> Apply(s, c, act).conns[d] == s.conns[d]
    ensures !act.Enter? && !act.Leave? ==> StepsLeft(Apply(s, c, act).conns[c]) < StepsLeft(s.conns[c])
  {
    assert ConnOk(s.conns[c]);
  }

  // ---------------------------------------------------------- nesting of calls

  /** Effect of one step on how often connection c has entered B-tree k. */
  function Delta(step: (nat, Action), c: nat, k: nat): int {
    if step == (c, Enter(k)) then 1 else if step == (c, Leave(k)) then -1 else 0
  }

  /** Net number of times connection c enters B-tree k in a trace. */
  function Net(t: Trace, c: nat, k: nat): int {
    if t == [] then 0 else Delta(t[0], c, k) + Net(t[1..], c, k)
  }

  /** Connections keep their B-trees, and counts change by their own calls only. */
  ghost predicate Counted(c: Conn, c': Conn, net: nat -> int) {
    && |c'.bts| == |c.bts|
    && forall k :: 0 <= k < |c.bts| ==>
         c'.bts[k].shared == c.bts[k].shared && c'.bts[k].wantToLock == c.bts[k].wantToLock + net(k)
  }

  lemma StepWant(s: State, c: nat, act: Action, d: nat)
    requires Inv(s) && Enabled(s, c, act) && d < |s.conns|
    ensures |Apply(s, c, act).conns| == |s.conns|
    ensures Counted(s.conns[d], Apply(s, c, act).conns[d], (k: nat) => Delta((c, act), d, k))
  {
    assert ConnOk(s.conns[c]);
  }

  lemma {:induction false} RunWant(s: State, t: Trace, d: nat)
    requires Inv(s) && IsRun(s, t) && d < |s.conns|
    ensures |Final(s, t).conns| == |s.conns|
    ensures Counted(s.conns[d], Final(s, t).conns[d], (k: nat) => Net(t, d, k))
    decreases |t|
  {
    if t != [] {
      var s1 := Apply(s, t[0].0, t[0].1);
      StepInv(s, t[0].0, t[0].1);
      StepWant(s, t[0].0, t[0].1, d);
      RunWant(s1, t[1..], d);
    }
  }

  /**
   Enter and leave nest: whatever the others do in between, a connection whose
   enters and leaves balance gets back exactly the counts and locks it had.
   */
  lemma BalancedCallsRestore(s: State, t: Trace, d: nat)
    requires Inv(s) && IsRun(s, t) && d < |s.conns|
    requires forall k :: 0 <= k < |s.conns[d].bts| ==> Net(t, d, k) == 0
    ensures d < |Final(s, t).conns|
    ensures s.conns[d].pc.Idle? && Final(s, t).conns[d].pc.Idle? ==> Final(s, t).conns[d] == s.conns[d]
  {
    RunInv(s, t);
    var s' := Final(s, t);
    RunWant(s, t, d);
    if s.conns[d].pc.Idle? && s'.conns[d].pc.Idle? {
      forall k | 0 <= k < |s.conns[d].bts| ensures s.conns[d].bts[k] == s'.conns[d].bts[k] {
        QuiescentLocks(s, d, k);
        QuiescentLocks(s', d, k);
      }
      assert s.conns[d].bts == s'.conns[d].bts;
    }
  }

  // ------------------------------------------------------ entering all B-trees

  /** An entry of aDb[]: absent, not sharable, or B-tree k of the list. */
  datatype DbEntry = NoBtree | NotSharable | Sharable(k: nat)

  /** The sqlite3BtreeEnter calls of btreeEnterAll that do something. */
  function EnterAll(aDb: seq<DbEntry>): seq<Action> {
    if aDb == [] then []
    else (if aDb[0].Sharable? then [Enter(aDb[0].k)] else []) + EnterAll(aDb[1..])
  }

  /** The sqlite3BtreeLeave calls of btreeLeaveAll that do something. */
  function LeaveAll(aDb: seq<DbEntry>): seq<Action> {
    if aDb == [] then []
    else (if aDb[0].Sharable? then [Leave(aDb[0].k)] else []) + LeaveAll(aDb[1..])
  }

  /** The calls connection c makes in a trace. */
  function CallsOf(t: Trace, c: nat): seq<Action> {
    if t == [] then []
    else (if t[0].0 == c && (t[0].1.Enter? || t[0].1.Leave?) then [t[0].1] else []) + CallsOf(t[1..], c)
  }

  function NetCalls(calls: seq<Action>, k: nat): int {
    if calls == [] then 0
    else NetCalls(calls[1..], k) + if calls[0] == Enter(k) then 1 else if calls[0] == Leave(k) then -1 else 0
  }

  lemma {:induction false} NetCallsConcat(a: seq<Action>, b: seq<Action>, k: nat)
    ensures NetCalls(a + b, k) == NetCalls(a, k) + NetCalls(b, k)
    decreases |a|
  {
    if a == [] {
      assert a + b == b;
    } else {
      assert (a + b)[1..] == a[1..] + b;
      NetCallsConcat(a[1..], b, k);
    }
  }

  lemma {:induction false} NetOfCalls(t: Trace, c: nat, k: nat)
    ensures Net(t, c, k) == NetCalls(CallsOf(t, c), k)
    decreases |t|
  {
    if t != [] {
      NetOfCalls(t[1..], c, k);
      var first := if t[0].0 == c && (t[0].1.Enter? || t[0].1.Leave?) then [t[0].1] else [];
      NetCallsConcat(first, CallsOf(t[1..], c), k);
    }
  }

  lemma {:induction false} AllBalanced(aDb: seq<DbEntry>, k: nat)
    ensures NetCalls(EnterAll(aDb), k) == -NetCalls(LeaveAll(aDb), k)
    ensures NetCalls(EnterAll(aDb), k) >= if Sharable(k) in aDb then 1 else 0
    decreases |aDb|
  {
    if aDb != [] {
      AllBalanced(aDb[1..], k);
      var e := if aDb[0].Sharable? then [Enter(aDb[0].k)] else [];
      var l := if aDb[0].Sharable? then [Leave(aDb[0].k)] else [];
      NetCallsConcat(e, EnterAll(aDb[1..]), k);
      NetCallsConcat(l, LeaveAll(aDb[1..]), k);
    }
  }

  /**
   EnterAll locks every sharable B-tree of the connection, and EnterAll followed
   by LeaveAll over the same database list restores all counts and locks, in
   every interleaving with other connections.
   */
  lemma EnterAllLeaveAll(s: State, t: Trace, c: nat, aDb: seq<DbEntry>)
    requires Inv(s) && IsRun(s, t) && c < |s.conns| && s.conns[c].pc.Idle?
    ensures c < |Final(s, t).conns|
    ensures CallsOf(t, c) == EnterAll(aDb) && Final(s, t).conns[c].pc.Idle? ==>
      forall k :: 0 <= k < |Final(s, t).conns[c].bts| && Sharable(k) in aDb ==> Final(s, t).conns[c].bts[k].locked
    ensures CallsOf(t, c) == EnterAll(aDb) + LeaveAll(aDb) && Final(s, t).conns[c].pc.Idle? ==>
      Final(s, t).conns[c] == s.conns[c]
  {
    RunWant(s, t, c);
    RunInv(s, t);
    var s' := Final(s, t);
    if CallsOf(t, c) == EnterAll(aDb) && s'.conns[c].pc.Idle? {
      forall k | 0 <= k < |s'.conns[c].bts| && Sharable(k) in aDb ensures s'.conns[c].bts[k].locked {
        NetOfCalls(t, c, k);
        AllBalanced(aDb, k);
        QuiescentLocks(s', c, k);
      }
    }
    if CallsOf(t, c) == EnterAll(aDb) + LeaveAll(aDb) {
      forall k | 0 <= k < |s.conns[c].bts| ensures Net(t, c, k) == 0 {
        NetOfCalls(t, c, k);
        AllBalanced(aDb, k);
        NetCallsConcat(EnterAll(aDb), LeaveAll(aDb), k);
      }
      BalancedCallsRestore(s, t, c);
    }
  }
}
