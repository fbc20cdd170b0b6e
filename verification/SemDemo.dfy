/**
 semdemo.c: `initsem` with nsems = 1 and the lock that counts free tokens, for any number of processes.

 A state is the semaphore set and a program counter per process; an action is one system call of one process.
 Every error return of the program ends in exit(1), which is the action `Exit`; so is being killed, and both are
 allowed at any moment. Pids may be reused.
 */
module SemDemo {
  import opened SysVSem
  import CrashSafeMutex

  const MAX_RETRIES := 10

  datatype PC =
    | AtCreate            // before semget(IPC_CREAT | IPC_EXCL)
    | AtFree              // we got it first: before the semop() that frees the semaphore
    | AtLookup            // someone else got it first: before semget(key, nsems, 0)
    | Polling(tries: nat) // waiting for sem_otime
    | AtLock              // initsem() has returned the id
    | Inside
    | Unlocked

  /** `freed` records that some process has freed the semaphore; the program cannot read it. */
  datatype State = State(key: Key, freed: bool, pcs: map<Pid, PC>)

  datatype Action = Spawn(p: Pid) | Create(p: Pid) | Free(p: Pid) | Lookup(p: Pid) | Poll(p: Pid)
                  | Lock(p: Pid) | Unlock(p: Pid) | Exit(p: Pid)

  const Freeing := [SemBuf(1, false, false)]
  const Locking := [SemBuf(-1, false, true)]
  const Unlocking := [SemBuf(1, false, true)]

  predicate At(s: State, p: Pid, pc: PC) {
    p in s.pcs && s.pcs[p] == pc
  }

  predicate IsPolling(s: State, p: Pid) { p in s.pcs && s.pcs[p].Polling? }

  predicate Init(s: State) {
    s == State(Absent, false, map[])
  }

  predicate SemOpEnabled(s: State, p: Pid, ops: seq<SemBuf>) {
    s.key.Present? && SemOp(s.key.sems, p, ops).Applied?
  }

  function AfterSemOp(s: State, p: Pid, ops: seq<SemBuf>, pc: PC): State
    requires SemOpEnabled(s, p, ops)
  {
    State(Present(SemOp(s.key.sems, p, ops).sems), s.freed, s.pcs[p := pc])
  }

  predicate Step(s: State, a: Action, t: State) {
    match a
    case Spawn(p) => p !in s.pcs && t == s.(pcs := s.pcs[p := AtCreate])
    case Create(p) =>
      && At(s, p, AtCreate)
      && t == if s.key.Absent? then s.(key := Present(Created), pcs := s.pcs[p := AtFree]) else s.(pcs := s.pcs[p := AtLookup])
    case Free(p) =>
      At(s, p, AtFree) && SemOpEnabled(s, p, Freeing) && t == AfterSemOp(s, p, Freeing, AtLock).(freed := true)
    case Lookup(p) => At(s, p, AtLookup) && t == s.(pcs := s.pcs[p := Polling(0)])
    case Poll(p) =>
      && p in s.pcs && s.pcs[p].Polling? && s.pcs[p].tries < MAX_RETRIES && s.key.Present?
      && t == s.(pcs := s.pcs[p := if s.key.sems.stamped then AtLock else Polling(s.pcs[p].tries + 1)])
    case Lock(p) => At(s, p, AtLock) && SemOpEnabled(s, p, Locking) && t == AfterSemOp(s, p, Locking, Inside)
    case Unlock(p) => At(s, p, Inside) && SemOpEnabled(s, p, Unlocking) && t == AfterSemOp(s, p, Unlocking, Unlocked)
    case Exit(p) =>
      && p in s.pcs
      && t == State(if s.key.Absent? then Absent else Present(SysVSem.Exit(s.key.sems, p)), s.freed, s.pcs - {p})
  }

  /** Steps from any state on. */
  predicate IsPath(states: seq<State>, actions: seq<Action>) {
    && |states| == |actions| + 1
    && forall k :: 0 <= k < |actions| ==> Step(states[k], actions[k], states[k + 1])
  }

  predicate IsRun(states: seq<State>, actions: seq<Action>) {
    IsPath(states, actions) && Init(states[0])
  }

  // ----- invariant -----

  predicate InInitSem(pc: PC) {
    pc.AtCreate? || pc.AtFree? || pc.AtLookup? || pc.Polling?
  }

  ghost predicate Unfreed(s: State, sems: SemSet) {
    && sems == Created
    && (forall p :: p in s.pcs ==> InInitSem(s.pcs[p]))
    && (forall p, q :: At(s, p, AtFree) && At(s, q, AtFree) ==> p == q)
  }

  ghost predicate Freed(s: State, sems: SemSet) {
    && sems.stamped
    && (forall p :: !At(s, p, AtFree))
    && (forall p :: sems.Adj(p) == if At(s, p, Inside) then 1 else 0)
    && (sems.value == 1 || sems.value == 0)
    && (sems.value == 1 ==> forall p :: !At(s, p, Inside))
    && (sems.value == 0 ==> exists p :: At(s, p, Inside))
    && (forall p, q :: At(s, p, Inside) && At(s, q, Inside) ==> p == q)
  }

  ghost predicate Inv(s: State) {
    if s.key.Absent? then !s.freed && forall p :: p in s.pcs ==> s.pcs[p] == AtCreate
    else if s.freed then Freed(s, s.key.sems)
    else Unfreed(s, s.key.sems)
  }

  lemma Others(s: State, a: Action, t: State)
    requires Step(s, a, t)
    ensures forall q, pc :: q != a.p ==> At(t, q, pc) == At(s, q, pc)
  {
  }

  lemma StepKeepsInv(s: State, a: Action, t: State)
    requires Inv(s) && Step(s, a, t)
    ensures Inv(t)
  {
    Others(s, a, t);
    if s.freed {
      StepKeepsFreed(s, a, t);
    } else if a.Free? {
      assert forall q :: !At(t, q, Inside);
      assert forall q :: At(t, q, AtFree) ==> At(s, q, AtFree);
    }
  }

  lemma StepKeepsFreed(s: State, a: Action, t: State)
    requires s.key.Present? && s.freed && Freed(s, s.key.sems) && Step(s, a, t)
    ensures t.key.Present? && t.freed && Freed(t, t.key.sems)
  {
    Others(s, a, t);
    assert At(s, a.p, Inside) || !At(s, a.p, Inside);
    assert !At(t, a.p, AtFree);
    if a.Lock? { assert At(t, a.p, Inside); }
    forall p ensures t.key.sems.Adj(p) == if At(t, p, Inside) then 1 else 0 {
      assert s.key.sems.Adj(p) == if At(s, p, Inside) then 1 else 0;
      if p != a.p {
        assert t.key.sems.Adj(p) == s.key.sems.Adj(p);
      }
    }
  }

  lemma {:induction false} Reachable(states: seq<State>, actions: seq<Action>, k: nat)
    requires IsRun(states, actions) && k < |states|
    ensures Inv(states[k])
  {
    if k > 0 {
      Reachable(states, actions, k - 1);
      StepKeepsInv(states[k - 1], actions[k - 1], states[k]);
    }
  }

  // ----- what holds of every run -----

  ghost function Holders(s: State): set<Pid> {
    set p | p in s.pcs && s.pcs[p] == Inside
  }

  lemma HoldersSize(s: State)
    requires Inv(s) && s.freed
    ensures s.key.sems.value + |Holders(s)| == 1
  {
    if s.key.sems.value == 0 {
      var p: Pid :| At(s, p, Inside);
      assert forall q :: q in Holders(s) <==> At(s, q, Inside);
      assert Holders(s) == {p};
    } else {
      assert forall q :: q in Holders(s) <==> At(s, q, Inside);
      assert Holders(s) == {};
    }
  }

  /** Nobody leaves initsem() with the id before the semaphore was freed, and from then on tokens and holders are one in all. */
  lemma Exclusion(states: seq<State>, actions: seq<Action>, k: nat)
    requires IsRun(states, actions) && k < |states|
    ensures var s := states[k];
      && (forall p :: p in s.pcs && !InInitSem(s.pcs[p]) ==> s.freed)
      && |Holders(s)| <= 1
      && (s.freed ==>
            && s.key.Present? && s.key.sems.value + |Holders(s)| == 1
            && forall p :: s.key.sems.Adj(p) == if p in Holders(s) then 1 else 0)
  {
    var s := states[k];
    Reachable(states, actions, k);
    if s.freed {
      HoldersSize(s);
      forall p ensures s.key.sems.Adj(p) == if p in Holders(s) then 1 else 0 {
        assert At(s, p, Inside) <==> p in Holders(s);
      }
    } else {
      assert Holders(s) == {};
    }
  }

  /**
   A process at the lock can take it exactly when nobody is inside, and otherwise waits; neither the creator's freeing
   semop() nor the holder's unlock ever blocks or fails.
   */
  lemma LockAvailability(states: seq<State>, actions: seq<Action>, k: nat, p: Pid)
    requires IsRun(states, actions) && k < |states|
    ensures At(states[k], p, AtLock) ==> states[k].key.Present?
    ensures At(states[k], p, AtLock) ==>
      if Holders(states[k]) == {} then SemOpEnabled(states[k], p, Locking) else SemOp(states[k].key.sems, p, Locking) == Blocked
    ensures At(states[k], p, Inside) ==> SemOpEnabled(states[k], p, Unlocking)
    ensures At(states[k], p, AtFree) ==> SemOpEnabled(states[k], p, Freeing)
  {
    var s := states[k];
    Reachable(states, actions, k);
    if At(s, p, AtLock) || At(s, p, Inside) {
      HoldersSize(s);
      assert s.key.sems.Adj(p) == if At(s, p, Inside) then 1 else 0;
      assert At(s, p, Inside) ==> p in Holders(s);
    }
  }

  /** The set exists but its creator died before freeing it. */
  ghost predicate Orphaned(s: State) {
    s.key.Present? && !s.freed && forall p :: !At(s, p, AtFree)
  }

  lemma {:induction false} OrphanStays(states: seq<State>, actions: seq<Action>, m: nat)
    requires IsPath(states, actions) && m < |states| && Inv(states[0]) && Orphaned(states[0])
    ensures Inv(states[m]) && Orphaned(states[m])
  {
    if m > 0 {
      OrphanStays(states, actions, m - 1);
      var s, a, t := states[m - 1], actions[m - 1], states[m];
      StepKeepsInv(s, a, t);
      Others(s, a, t);
      assert At(s, a.p, AtFree) || !At(s, a.p, AtFree);
      assert forall q :: At(t, q, AtFree) ==> q == a.p;
    }
  }

  /** There is no recovery from that: whoever comes later times out, and nobody is ever inside. */
  lemma OrphanedForever(states: seq<State>, actions: seq<Action>, k: nat, m: nat)
    requires IsRun(states, actions) && k <= m < |states| && Orphaned(states[k])
    ensures Orphaned(states[m]) && Holders(states[m]) == {}
  {
    Reachable(states, actions, k);
    OrphanStays(states[k..], actions[k..], m - k);
  }

  /** And it happens: to any process that dies right after creating the set. */
  lemma OrphanReachable(p: Pid) returns (states: seq<State>, actions: seq<Action>)
    ensures IsRun(states, actions) && Orphaned(states[|actions|])
  {
    actions := [Spawn(p), Create(p), Exit(p)];
    var s := State(Absent, false, map[]);
    var made := State(Present(Created), false, map[p := AtFree]);
    states := [s, s.(pcs := map[p := AtCreate]), made, State(Present(SysVSem.Exit(Created, p)), false, made.pcs - {p})];
  }

  /** Whoever is inside can leave, by unlocking or by dying, at any moment; in either way the lock is free again. */
  lemma EveryEndReleases(states: seq<State>, actions: seq<Action>, k: nat, p: Pid)
    requires IsRun(states, actions) && k < |states| && At(states[k], p, Inside)
    ensures exists t :: Step(states[k], Unlock(p), t) && t.key.Present? && t.key.sems.value == 1 && Holders(t) == {}
    ensures exists t :: Step(states[k], Exit(p), t) && t.key.Present? && t.key.sems.value == 1 && Holders(t) == {}
  {
    var s := states[k];
    Reachable(states, actions, k);
    var unlocked := AfterSemOp(s, p, Unlocking, Unlocked);
    var dead := State(Present(SysVSem.Exit(s.key.sems, p)), s.freed, s.pcs - {p});
    assert Step(s, Unlock(p), unlocked) && Step(s, Exit(p), dead);
    forall q ensures q !in Holders(unlocked) && q !in Holders(dead) {
      assert At(s, q, Inside) ==> q == p;
    }
  }

  // ----- who can still get in -----

  /** Some steps, among which `p` neither exits nor dies, lead to a state with `p` inside. */
  ghost predicate CanEnter(s: State, p: Pid) {
    exists states, actions :: IsPath(states, actions) && states[0] == s && Exit(p) !in actions && At(states[|actions|], p, Inside)
  }

  /** A process that has not had its turn and has not run out of retries; or none yet. */
  predicate MayEnter(s: State, p: Pid) {
    p in s.pcs ==> !s.pcs[p].Unlocked? && s.pcs[p] != Polling(MAX_RETRIES)
  }

  lemma EntersNow(s: State, p: Pid)
    requires At(s, p, Inside)
    ensures CanEnter(s, p)
  {
    var actions: seq<Action> := [];
    assert IsPath([s], actions) && At([s][|actions|], p, Inside);
  }

  lemma EntersLater(s: State, a: Action, t: State, p: Pid)
    requires Step(s, a, t) && a != Exit(p) && CanEnter(t, p)
    ensures CanEnter(s, p)
  {
    var states, actions :| IsPath(states, actions) && states[0] == t && Exit(p) !in actions && At(states[|actions|], p, Inside);
    var states', actions' := [s] + states, [a] + actions;
    assert IsPath(states', actions') && states'[|actions'|] == states[|actions|];
  }

  /** Freed, and nobody inside. */
  ghost predicate Open(s: State) {
    Inv(s) && s.freed && s.key.sems.value == 1
  }

  lemma LockEnters(s: State, p: Pid)
    requires Open(s) && At(s, p, AtLock)
    ensures CanEnter(s, p)
  {
    assert !At(s, p, Inside);
    var t := AfterSemOp(s, p, Locking, Inside);
    EntersNow(t, p);
    EntersLater(s, Lock(p), t, p);
  }

  lemma PollEnters(s: State, p: Pid)
    requires Open(s) && IsPolling(s, p) && s.pcs[p].tries < MAX_RETRIES
    ensures CanEnter(s, p)
  {
    var t := s.(pcs := s.pcs[p := AtLock]);
    StepKeepsInv(s, Poll(p), t);
    LockEnters(t, p);
    EntersLater(s, Poll(p), t, p);
  }

  lemma LookupEnters(s: State, p: Pid)
    requires Open(s) && At(s, p, AtLookup)
    ensures CanEnter(s, p)
  {
    var t := s.(pcs := s.pcs[p := Polling(0)]);
    StepKeepsInv(s, Lookup(p), t);
    PollEnters(t, p);
    EntersLater(s, Lookup(p), t, p);
  }

  lemma CreateEnters(s: State, p: Pid)
    requires Open(s) && At(s, p, AtCreate)
    ensures CanEnter(s, p)
  {
    var t := s.(pcs := s.pcs[p := AtLookup]);
    StepKeepsInv(s, Create(p), t);
    LookupEnters(t, p);
    EntersLater(s, Create(p), t, p);
  }

  lemma OpenEnters(s: State, p: Pid)
    requires Open(s) && MayEnter(s, p)
    requires IsPolling(s, p) ==> s.pcs[p].tries <= MAX_RETRIES
    ensures CanEnter(s, p)
  {
    if p !in s.pcs {
      var t := s.(pcs := s.pcs[p := AtCreate]);
      StepKeepsInv(s, Spawn(p), t);
      CreateEnters(t, p);
      EntersLater(s, Spawn(p), t, p);
    } else {
      assert !At(s, p, AtFree) && !At(s, p, Inside);
      match s.pcs[p]
      case AtCreate => CreateEnters(s, p);
      case AtLookup => LookupEnters(s, p);
      case Polling(_) => PollEnters(s, p);
      case AtLock => LockEnters(s, p);
    }
  }

  lemma FreedEnters(s: State, p: Pid)
    requires Inv(s) && s.freed && MayEnter(s, p)
    requires IsPolling(s, p) ==> s.pcs[p].tries <= MAX_RETRIES
    ensures CanEnter(s, p)
  {
    if s.key.sems.value == 1 {
      OpenEnters(s, p);
    } else {
      var q :| At(s, q, Inside);
      if q == p {
        EntersNow(s, p);
      } else {
        var t := AfterSemOp(s, q, Unlocking, Unlocked);
        StepKeepsInv(s, Unlock(q), t);
        OpenEnters(t, p);
        EntersLater(s, Unlock(q), t, p);
      }
    }
  }

  /** The creator frees the semaphore. */
  lemma UnfreedEnters(s: State, q: Pid, p: Pid)
    requires Inv(s) && s.key.Present? && !s.freed && At(s, q, AtFree) && MayEnter(s, p)
    requires IsPolling(s, p) ==> s.pcs[p].tries <= MAX_RETRIES
    ensures CanEnter(s, p)
  {
    var t := AfterSemOp(s, q, Freeing, AtLock).(freed := true);
    StepKeepsInv(s, Free(q), t);
    FreedEnters(t, p);
    EntersLater(s, Free(q), t, p);
  }

  lemma AbsentEnters(s: State, p: Pid)
    requires Inv(s) && s.key.Absent? && At(s, p, AtCreate)
    ensures CanEnter(s, p)
  {
    var t := s.(key := Present(Created), pcs := s.pcs[p := AtFree]);
    StepKeepsInv(s, Create(p), t);
    UnfreedEnters(t, p, p);
    EntersLater(s, Create(p), t, p);
  }

  lemma EntersUnlessOrphaned(s: State, p: Pid)
    requires Inv(s) && !Orphaned(s) && MayEnter(s, p)
    requires IsPolling(s, p) ==> s.pcs[p].tries <= MAX_RETRIES
    ensures CanEnter(s, p)
  {
    if s.key.Absent? {
      if p in s.pcs {
        AbsentEnters(s, p);
      } else {
        var t := s.(pcs := s.pcs[p := AtCreate]);
        StepKeepsInv(s, Spawn(p), t);
        AbsentEnters(t, p);
        EntersLater(s, Spawn(p), t, p);
      }
    } else if !s.freed {
      var q :| At(s, q, AtFree);
      UnfreedEnters(s, q, p);
    } else {
      FreedEnters(s, p);
    }
  }

  lemma StepStaysOut(s: State, a: Action, t: State, p: Pid)
    requires Step(s, a, t) && !MayEnter(s, p) && a != Exit(p)
    ensures !MayEnter(t, p)
  {
  }

  /** One who has had its turn, or is out of retries, has to exit first. */
  lemma {:induction false} StaysOut(states: seq<State>, actions: seq<Action>, p: Pid, m: nat)
    requires IsPath(states, actions) && m < |states| && !MayEnter(states[0], p) && Exit(p) !in actions[..m]
    ensures !MayEnter(states[m], p)
  {
    if m > 0 {
      assert actions[..m] == actions[..m - 1] + [actions[m - 1]];
      StaysOut(states, actions, p, m - 1);
      StepStaysOut(states[m - 1], actions[m - 1], states[m], p);
    }
  }

  /**
   In every reachable state, for every process present or to come: it can still get in, in its present life, if and only
   if the set is not orphaned, the process has not been in already and it has a retry left.
   */
  lemma EntersExactlyWhen(states: seq<State>, actions: seq<Action>, k: nat, p: Pid)
    requires IsRun(states, actions) && k < |states|
    ensures CanEnter(states[k], p) <==> !Orphaned(states[k]) && MayEnter(states[k], p)
  {
    var s := states[k];
    Reachable(states, actions, k);
    PollCount(states, actions, k, p);
    if !Orphaned(s) && MayEnter(s, p) {
      EntersUnlessOrphaned(s, p);
    } else if CanEnter(s, p) {
      var more, steps :| IsPath(more, steps) && more[0] == s && Exit(p) !in steps && At(more[|steps|], p, Inside);
      assert steps[..|steps|] == steps;
      if Orphaned(s) { OrphanStays(more, steps, |steps|); } else { StaysOut(more, steps, p, |steps|); }
      assert false;
    }
  }

  lemma {:induction false} FreshPid(pids: set<Pid>) returns (p: Pid)
    ensures forall q :: q in pids ==> q < p
  {
    if pids == {} { return 0; }
    var q :| q in pids;
    var rest := pids - {q};
    p := FreshPid(rest);
    if p <= q { p := q + 1; }
    assert forall x :: x in pids ==> x == q || x in rest;
  }

  /** So somebody can still get in if and only if the set is not orphaned. */
  lemma EnterableExactlyUnlessOrphaned(states: seq<State>, actions: seq<Action>, k: nat)
    requires IsRun(states, actions) && k < |states|
    ensures (exists p :: CanEnter(states[k], p)) <==> !Orphaned(states[k])
  {
    var newcomer := FreshPid(states[k].pcs.Keys);
    EntersExactlyWhen(states, actions, k, newcomer);
    forall p ensures CanEnter(states[k], p) ==> !Orphaned(states[k]) {
      EntersExactlyWhen(states, actions, k, p);
    }
  }

  /** The polls of `p` since it last looked the set up. */
  ghost function Polls(actions: seq<Action>, p: Pid): nat {
    if actions == [] then 0 else
    var n := |actions| - 1;
    if actions[n] == Lookup(p) then 0 else Polls(actions[..n], p) + if actions[n] == Poll(p) then 1 else 0
  }

  lemma StepPolls(s: State, a: Action, t: State, p: Pid)
    requires Step(s, a, t) && IsPolling(t, p)
    ensures a == Lookup(p) ==> t.pcs[p].tries == 0
    ensures a != Lookup(p) ==> IsPolling(s, p) && t.pcs[p].tries == s.pcs[p].tries + if a == Poll(p) then 1 else 0
    ensures a == Poll(p) ==> t.pcs[p].tries <= 10
  {
  }

  /** A process that is still polling has polled in vain so often, ten times at most. */
  lemma {:induction false} PollCount(states: seq<State>, actions: seq<Action>, k: nat, p: Pid)
    requires IsRun(states, actions) && k < |states|
    ensures IsPolling(states[k], p) ==> states[k].pcs[p].tries == Polls(actions[..k], p) <= 10
  {
    if k > 0 && IsPolling(states[k], p) {
      PollCount(states, actions, k - 1, p);
      StepPolls(states[k - 1], actions[k - 1], states[k], p);
      assert actions[..k][..k - 1] == actions[..k - 1];
    }
  }

  /** Nobody locks twice in one life. */
  lemma OneTurnEach(states: seq<State>, actions: seq<Action>, k: nat, m: nat, p: Pid)
    requires IsRun(states, actions) && k < m < |actions| && actions[k] == Unlock(p) && actions[m] == Lock(p)
    ensures Exit(p) in actions[k..m]
  {
    var from, steps := states[k + 1..], actions[k + 1..];
    assert !MayEnter(from[0], p) && from[m - k - 1] == states[m];
    assert Step(states[m], Lock(p), states[m + 1]) && MayEnter(states[m], p);
    if Exit(p) !in actions[k..m] {
      assert forall n :: k <= n < m ==> actions[n] == actions[k..m][n - k];
      assert steps[..m - k - 1] == actions[k + 1..m];
      StaysOut(from, steps, p, m - k - 1);
      assert false;
    }
  }

  ghost function Owner(s: State): CrashSafeMutex.Owner {
    if exists p :: At(s, p, Inside) then var p :| At(s, p, Inside); CrashSafeMutex.HeldBy(p) else CrashSafeMutex.Free
  }

  lemma RefinesMutex(states: seq<State>, actions: seq<Action>, k: nat)
    requires IsRun(states, actions) && k < |actions|
    ensures Owner(states[0]) == CrashSafeMutex.Free
    ensures forall p :: Owner(states[k]) == CrashSafeMutex.HeldBy(p) <==> At(states[k], p, Inside)
    ensures CrashSafeMutex.Step(Owner(states[k]), Owner(states[k + 1]), actions[k].p)
  {
    Reachable(states, actions, k);
    Reachable(states, actions, k + 1);
    Others(states[k], actions[k], states[k + 1]);
  }
}
