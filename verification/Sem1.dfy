/**
 sem1.c: the lock that counts holders. Locking is one atomic semop() of two operations, "wait for zero" and
 "add one"; unlocking subtracts one with IPC_NOWAIT. All changes are made with SEM_UNDO.

 States, actions and `Exit` are as in SemDemo. `Interrupted` is r_semop() seeing EINTR and trying again.
 */
module Sem1 {
  import opened SysVSem
  import CrashSafeMutex

  datatype PC =
    | AtGet         // before semget(MY_KEY, 0, 0)
    | AtCreate      // before semget(MY_KEY, 1, IPC_CREAT | IPC_EXCL)
    | AtLock
    | AtOpen        // locked, before open()
    | AtWrite       // locked, before write()
    | AtUnlock      // locked, before the unlocking r_semop(); a failed write gets here too
    | OpenFailed    // still locked: this path goes to exit(1) without unlocking
    | Unlocked
    | Abandoned     // any error before the lock was taken

  datatype State = State(key: Key, pcs: map<Pid, PC>)

  datatype Action = Spawn(p: Pid) | Get(p: Pid) | Create(p: Pid, ok: bool) | Lock(p: Pid) | Interrupted(p: Pid)
                  | Open(p: Pid, ok: bool) | Write(p: Pid, ok: bool) | Unlock(p: Pid) | Exit(p: Pid)

  const Locking := [SemBuf(0, false, false), SemBuf(1, false, true)]
  const Unlocking := [SemBuf(-1, true, true)]

  predicate At(s: State, p: Pid, pc: PC) {
    p in s.pcs && s.pcs[p] == pc
  }

  predicate Holding(s: State, p: Pid) {
    p in s.pcs && (s.pcs[p].AtOpen? || s.pcs[p].AtWrite? || s.pcs[p].AtUnlock? || s.pcs[p].OpenFailed?)
  }

  predicate Init(s: State) {
    s == State(Absent, map[])
  }

  predicate SemOpEnabled(s: State, p: Pid, ops: seq<SemBuf>) {
    s.key.Present? && SemOp(s.key.sems, p, ops).Applied?
  }

  function AfterSemOp(s: State, p: Pid, ops: seq<SemBuf>, pc: PC): State
    requires SemOpEnabled(s, p, ops)
  {
    State(Present(SemOp(s.key.sems, p, ops).sems), s.pcs[p := pc])
  }

  predicate Step(s: State, a: Action, t: State) {
    match a
    case Spawn(p) => p !in s.pcs && t == s.(pcs := s.pcs[p := AtGet])
    case Get(p) => At(s, p, AtGet) && t == s.(pcs := s.pcs[p := if s.key.Absent? then AtCreate else AtLock])
    case Create(p, ok) =>  // losing the race for the key is fatal; so is any other error, at the next semop()
      && At(s, p, AtCreate)
      && t == if ok && s.key.Absent? then State(Present(Created), s.pcs[p := AtLock]) else s.(pcs := s.pcs[p := Abandoned])
    case Lock(p) => At(s, p, AtLock) && SemOpEnabled(s, p, Locking) && t == AfterSemOp(s, p, Locking, AtOpen)
    case Interrupted(p) => At(s, p, AtLock) && t == s
    case Open(p, ok) => At(s, p, AtOpen) && t == s.(pcs := s.pcs[p := if ok then AtWrite else OpenFailed])
    case Write(p, ok) => At(s, p, AtWrite) && t == s.(pcs := s.pcs[p := AtUnlock])
    case Unlock(p) => At(s, p, AtUnlock) && SemOpEnabled(s, p, Unlocking) && t == AfterSemOp(s, p, Unlocking, Unlocked)
    case Exit(p) =>
      p in s.pcs && t == State(if s.key.Absent? then Absent else Present(SysVSem.Exit(s.key.sems, p)), s.pcs - {p})
  }

  /** Steps from any state on. */
  predicate IsPath(states: seq<State>, actions: seq<Action>) {
    && |states| == |actions| + 1
    && forall k :: 0 <= k < |actions| ==> Step(states[k], actions[k], states[k + 1])
  }

  predicate IsRun(states: seq<State>, actions: seq<Action>) {
    IsPath(states, actions) && Init(states[0])
  }

  // ----- invariant -----

  ghost predicate Locks(s: State, sems: SemSet) {
    && (forall p :: sems.Adj(p) == if Holding(s, p) then -1 else 0)
    && (sems.value == 0 || sems.value == 1)
    && (sems.value == 0 ==> forall p :: !Holding(s, p))
    && (sems.value == 1 ==> exists p :: Holding(s, p))
    && (forall p, q :: Holding(s, p) && Holding(s, q) ==> p == q)
  }

  ghost predicate Inv(s: State) {
    if s.key.Absent? then forall p :: p in s.pcs ==> s.pcs[p].AtGet? || s.pcs[p].AtCreate? || s.pcs[p].Abandoned?
    else Locks(s, s.key.sems)
  }

  lemma Others(s: State, a: Action, t: State)
    requires Step(s, a, t)
    ensures forall q :: q != a.p ==> Holding(t, q) == Holding(s, q)
  {
  }

  lemma StepKeepsInv(s: State, a: Action, t: State)
    requires Inv(s) && Step(s, a, t)
    ensures Inv(t)
  {
    Others(s, a, t);
    if s.key.Present? {
      assert Holding(s, a.p) || !Holding(s, a.p);
      assert a.Lock? ==> Holding(t, a.p);
      forall p ensures t.key.sems.Adj(p) == if Holding(t, p) then -1 else 0 {
        assert s.key.sems.Adj(p) == if Holding(s, p) then -1 else 0;
        assert p != a.p ==> t.key.sems.Adj(p) == s.key.sems.Adj(p);
      }
    }
  }

  lemma {:induction false} Reachable(states: seq<State>, actions: seq<Action>, k: nat)
    requires IsRun(states, actions) && k < |states|
    ensures Inv(states[k])
  {
    if k > 0 {
      Reachable(states, actions, k - 1);
      StepKeepsInv(states[k - 1], actions[k - 1], states[k]);
    }
  }

  // ----- what holds of every run -----

  ghost function Holders(s: State): set<Pid> {
    set p | p in s.pcs && Holding(s, p)
  }

  /** The value is the number of holders, which is at most one, and exactly the holders have something to undo. */
  lemma Exclusion(states: seq<State>, actions: seq<Action>, k: nat)
    requires IsRun(states, actions) && k < |states|
    ensures var s := states[k];
      && |Holders(s)| <= 1
      && (s.key.Present? ==>
            && s.key.sems.value == |Holders(s)|
            && forall p :: s.key.sems.Adj(p) == if p in Holders(s) then -1 else 0)
      && (s.key.Absent? ==> Holders(s) == {})
  {
    var s := states[k];
    Reachable(states, actions, k);
    assert forall p :: p in Holders(s) <==> Holding(s, p);
    if s.key.Present? && s.key.sems.value == 1 {
      var p: Pid :| Holding(s, p);
      assert Holders(s) == {p};
    } else {
      assert Holders(s) == {};
    }
  }

  /**
   The lock is open exactly when nobody holds it, and otherwise locking waits. The IPC_NOWAIT unlock of a holder cannot
   fail, and when nobody holds the lock it fails at once.
   */
  lemma LockAvailability(states: seq<State>, actions: seq<Action>, k: nat, p: Pid)
    requires IsRun(states, actions) && k < |states|
    ensures At(states[k], p, AtLock) ==> states[k].key.Present?
    ensures At(states[k], p, AtLock) ==>
      if Holders(states[k]) == {} then SemOpEnabled(states[k], p, Locking) else SemOp(states[k].key.sems, p, Locking) == Blocked
    ensures Holding(states[k], p) ==> SemOpEnabled(states[k], p, Unlocking)
    ensures states[k].key.Present? && Holders(states[k]) == {} ==> SemOp(states[k].key.sems, p, Unlocking) == Failed
  {
    var s := states[k];
    Reachable(states, actions, k);
    Exclusion(states, actions, k);
    assert forall q :: q in Holders(s) <==> Holding(s, q);
    if s.key.Present? {
      assert s.key.sems.Adj(p) == if Holding(s, p) then -1 else 0;
      assert Locking[1..] == [SemBuf(1, false, true)];
    }
  }

  /** However a holder ends, by unlocking, by exit(1) after a failed open() or by being killed, the lock is free again. */
  lemma EveryEndReleases(states: seq<State>, actions: seq<Action>, k: nat)
    requires IsRun(states, actions) && k < |actions|
    requires Holding(states[k], actions[k].p) && !Holding(states[k + 1], actions[k].p)
    ensures states[k + 1].key.Present? && states[k + 1].key.sems.value == 0 && Holders(states[k + 1]) == {}
  {
    Reachable(states, actions, k);
    Reachable(states, actions, k + 1);
    Others(states[k], actions[k], states[k + 1]);
    var t := states[k + 1];
    assert forall q :: !Holding(t, q);
  }

  /** And a holder can be killed at any moment. */
  lemma HolderMayDie(states: seq<State>, actions: seq<Action>, k: nat, p: Pid)
    requires IsRun(states, actions) && k < |states| && Holding(states[k], p)
    ensures exists t :: Step(states[k], Exit(p), t) && t.key.Present? && t.key.sems.value == 0 && Holders(t) == {}
  {
    var s := states[k];
    Reachable(states, actions, k);
    var t := State(Present(SysVSem.Exit(s.key.sems, p)), s.pcs - {p});
    assert Step(s, Exit(p), t);
    assert forall q :: q in Holders(t) ==> Holding(s, q) && q != p;
  }

  /** A process at the lock waits, however often it is interrupted, until it gets it or dies. */
  lemma {:induction false} KeepsWaiting(states: seq<State>, actions: seq<Action>, k: nat, m: nat, p: Pid)
    requires IsRun(states, actions) && k <= m < |states| && At(states[k], p, AtLock)
    requires Lock(p) !in actions[k..m] && Exit(p) !in actions[k..m]
    ensures At(states[m], p, AtLock)
    decreases m
  {
    if k < m {
      assert actions[k..m] == actions[k..m - 1] + [actions[m - 1]];
      KeepsWaiting(states, actions, k, m - 1, p);
      assert Step(states[m - 1], actions[m - 1], states[m]);
    }
  }

  // ----- who can still get the lock -----

  /** Some steps, among which `p` neither exits nor dies, lead to a state with `p` holding the lock. */
  ghost predicate CanHold(s: State, p: Pid) {
    exists states, actions :: IsPath(states, actions) && states[0] == s && Exit(p) !in actions && Holding(states[|actions|], p)
  }

  /** A process that has not had its turn and has not lost the race for creating the set; or none yet. */
  predicate MayHold(s: State, p: Pid) {
    p in s.pcs ==> !s.pcs[p].Unlocked? && !s.pcs[p].Abandoned? && (s.pcs[p].AtCreate? ==> s.key.Absent?)
  }

  lemma HoldsNow(s: State, p: Pid)
    requires Holding(s, p)
    ensures CanHold(s, p)
  {
    var actions: seq<Action> := [];
    assert IsPath([s], actions) && Holding([s][|actions|], p);
  }

  lemma HoldsLater(s: State, a: Action, t: State, p: Pid)
    requires Step(s, a, t) && a != Exit(p) && CanHold(t, p)
    ensures CanHold(s, p)
  {
    var states, actions :| IsPath(states, actions) && states[0] == t && Exit(p) !in actions && Holding(states[|actions|], p);
    var states', actions' := [s] + states, [a] + actions;
    assert IsPath(states', actions') && states'[|actions'|] == states[|actions|];
  }

  /** The set exists and nobody holds the lock. */
  ghost predicate Unheld(s: State) {
    Inv(s) && s.key.Present? && s.key.sems.value == 0
  }

  lemma LockHolds(s: State, p: Pid)
    requires Unheld(s) && At(s, p, AtLock)
    ensures CanHold(s, p)
  {
    assert !Holding(s, p);
    assert Locking[1..] == [SemBuf(1, false, true)];
    var t := AfterSemOp(s, p, Locking, AtOpen);
    HoldsNow(t, p);
    HoldsLater(s, Lock(p), t, p);
  }

  lemma GetHolds(s: State, p: Pid)
    requires Unheld(s) && At(s, p, AtGet)
    ensures CanHold(s, p)
  {
    var t := s.(pcs := s.pcs[p := AtLock]);
    StepKeepsInv(s, Get(p), t);
    LockHolds(t, p);
    HoldsLater(s, Get(p), t, p);
  }

  lemma OpenHolds(s: State, p: Pid)
    requires Unheld(s) && MayHold(s, p)
    ensures CanHold(s, p)
  {
    if p !in s.pcs {
      var t := s.(pcs := s.pcs[p := AtGet]);
      StepKeepsInv(s, Spawn(p), t);
      GetHolds(t, p);
      HoldsLater(s, Spawn(p), t, p);
    } else {
      assert !Holding(s, p);
      if s.pcs[p].AtGet? { GetHolds(s, p); } else { LockHolds(s, p); }
    }
  }

  /** The holder unlocks, having written its record; only after a failed open() does it exit instead. */
  lemma UnlockHolds(s: State, q: Pid, p: Pid)
    requires Inv(s) && s.key.Present? && At(s, q, AtUnlock) && q != p && MayHold(s, p)
    ensures CanHold(s, p)
  {
    assert Holding(s, q);
    var t := AfterSemOp(s, q, Unlocking, Unlocked);
    StepKeepsInv(s, Unlock(q), t);
    OpenHolds(t, p);
    HoldsLater(s, Unlock(q), t, p);
  }

  /** Also when the write fails. */
  lemma WriteHolds(s: State, q: Pid, ok: bool, p: Pid)
    requires Inv(s) && s.key.Present? && At(s, q, AtWrite) && q != p && MayHold(s, p)
    ensures CanHold(s, p)
  {
    var t := s.(pcs := s.pcs[q := AtUnlock]);
    StepKeepsInv(s, Write(q, ok), t);
    UnlockHolds(t, q, p);
    HoldsLater(s, Write(q, ok), t, p);
  }

  lemma HeldHolds(s: State, q: Pid, p: Pid)
    requires Inv(s) && s.key.Present? && Holding(s, q) && q != p && MayHold(s, p)
    ensures CanHold(s, p)
  {
    match s.pcs[q]
    case AtOpen =>
      var t := s.(pcs := s.pcs[q := AtWrite]);
      StepKeepsInv(s, Open(q, true), t);
      WriteHolds(t, q, true, p);
      HoldsLater(s, Open(q, true), t, p);
    case AtWrite => WriteHolds(s, q, false, p);
    case AtUnlock => UnlockHolds(s, q, p);
    case OpenFailed =>
      var t := State(Present(SysVSem.Exit(s.key.sems, q)), s.pcs - {q});
      StepKeepsInv(s, Exit(q), t);
      assert s.key.sems.Adj(q) == -1;
      OpenHolds(t, p);
      HoldsLater(s, Exit(q), t, p);
  }

  /** Somebody creates the set. */
  lemma CreateHolds(s: State, p: Pid)
    requires Inv(s) && s.key.Absent? && At(s, p, AtCreate)
    ensures CanHold(s, p)
  {
    var t := State(Present(Created), s.pcs[p := AtLock]);
    StepKeepsInv(s, Create(p, true), t);
    LockHolds(t, p);
    HoldsLater(s, Create(p, true), t, p);
  }

  lemma GetAbsentHolds(s: State, p: Pid)
    requires Inv(s) && s.key.Absent? && At(s, p, AtGet)
    ensures CanHold(s, p)
  {
    var t := s.(pcs := s.pcs[p := AtCreate]);
    StepKeepsInv(s, Get(p), t);
    CreateHolds(t, p);
    HoldsLater(s, Get(p), t, p);
  }

  lemma HoldsIfMay(s: State, p: Pid)
    requires Inv(s) && MayHold(s, p)
    ensures CanHold(s, p)
  {
    if s.key.Present? {
      if s.key.sems.value == 0 {
        OpenHolds(s, p);
      } else {
        var q :| Holding(s, q);
        if q == p { HoldsNow(s, p); } else { HeldHolds(s, q, p); }
      }
    } else if p !in s.pcs {
      var t := s.(pcs := s.pcs[p := AtGet]);
      StepKeepsInv(s, Spawn(p), t);
      GetAbsentHolds(t, p);
      HoldsLater(s, Spawn(p), t, p);
    } else if s.pcs[p].AtGet? {
      GetAbsentHolds(s, p);
    } else {
      CreateHolds(s, p);
    }
  }

  lemma StepStaysOut(s: State, a: Action, t: State, p: Pid)
    requires Step(s, a, t) && !MayHold(s, p) && a != Exit(p)
    ensures !MayHold(t, p)
  {
  }

  /** The others have to exit first. */
  lemma {:induction false} StaysOut(states: seq<State>, actions: seq<Action>, p: Pid, m: nat)
    requires IsPath(states, actions) && m < |states| && !MayHold(states[0], p) && Exit(p) !in actions[..m]
    ensures !MayHold(states[m], p)
  {
    if m > 0 {
      assert actions[..m] == actions[..m - 1] + [actions[m - 1]];
      StaysOut(states, actions, p, m - 1);
      StepStaysOut(states[m - 1], actions[m - 1], states[m], p);
    }
  }

  /**
   In every reachable state, for every process present or to come: it can still get the lock, in its present life, if
   and only if it has not had it already and has not lost the race for creating the set.
   */
  lemma HoldsExactlyWhen(states: seq<State>, actions: seq<Action>, k: nat, p: Pid)
    requires IsRun(states, actions) && k < |states|
    ensures CanHold(states[k], p) <==> MayHold(states[k], p)
  {
    var s := states[k];
    Reachable(states, actions, k);
    if MayHold(s, p) {
      HoldsIfMay(s, p);
    } else if CanHold(s, p) {
      var more, steps :| IsPath(more, steps) && more[0] == s && Exit(p) !in steps && Holding(more[|steps|], p);
      assert steps[..|steps|] == steps;
      StaysOut(more, steps, p, |steps|);
      assert false;
    }
  }

  /** Nobody locks twice in one life, or after having failed to create the set. */
  lemma OneTurnEach(states: seq<State>, actions: seq<Action>, k: nat, m: nat, p: Pid)
    requires IsRun(states, actions) && k < m < |actions| && actions[m] == Lock(p)
    requires actions[k] == Unlock(p) || actions[k] == Create(p, false)
    ensures Exit(p) in actions[k..m]
  {
    var from, steps := states[k + 1..], actions[k + 1..];
    assert !MayHold(from[0], p) && from[m - k - 1] == states[m];
    assert Step(states[m], Lock(p), states[m + 1]) && MayHold(states[m], p);
    if Exit(p) !in actions[k..m] {
      assert forall n :: k <= n < m ==> actions[n] == actions[k..m][n - k];
      assert steps[..m - k - 1] == actions[k + 1..m];
      StaysOut(from, steps, p, m - k - 1);
      assert false;
    }
  }

  /** After a failed open() the lock is given back only by exit. */
  lemma {:induction false} FailedOpenNeverUnlocks(states: seq<State>, actions: seq<Action>, k: nat, m: nat, p: Pid)
    requires IsRun(states, actions) && k < m < |states| && actions[k] == Open(p, false) && Exit(p) !in actions[k..m]
    ensures At(states[m], p, OpenFailed)
    decreases m
  {
    assert Step(states[m - 1], actions[m - 1], states[m]);
    if k < m - 1 {
      assert actions[k..m] == actions[k..m - 1] + [actions[m - 1]];
      FailedOpenNeverUnlocks(states, actions, k, m - 1, p);
    }
  }

  ghost function Owner(s: State): CrashSafeMutex.Owner {
    if exists p :: Holding(s, p) then var p :| Holding(s, p); CrashSafeMutex.HeldBy(p) else CrashSafeMutex.Free
  }

  lemma RefinesMutex(states: seq<State>, actions: seq<Action>, k: nat)
    requires IsRun(states, actions) && k < |actions|
    ensures Owner(states[0]) == CrashSafeMutex.Free
    ensures forall p :: Owner(states[k]) == CrashSafeMutex.HeldBy(p) <==> Holding(states[k], p)
    ensures CrashSafeMutex.Step(Owner(states[k]), Owner(states[k + 1]), actions[k].p)
  {
    Reachable(states, actions, k);
    Reachable(states, actions, k + 1);
    Others(states[k], actions[k], states[k + 1]);
  }
}
