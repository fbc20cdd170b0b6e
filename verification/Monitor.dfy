/**
 The condition-variable demo pt4-condvar.c: any number of incrementing threads, TCOUNT rounds each, and one watcher
 waiting for COUNT_LIMIT. An action is one step of one thread; `SpuriousWakeup` may happen whenever the watcher sleeps.
 */
module Monitor {
  import opened Sums

  datatype Config = Config(threads: nat, rounds: nat, limit: int)

  datatype IncPC = Idle | Locked | Counted | Signalled

  /** An incrementing thread: completed rounds, and the position in the current one. */
  datatype Inc = Inc(done: nat, pc: IncPC)

  datatype WatcherPC = Start | Checking | Sleeping | Woken | Leaving | Gone

  datatype Mutex = Free | ByInc(t: nat) | ByWatcher

  datatype State = State(count: int, mutex: Mutex, incs: seq<Inc>, watcher: WatcherPC)

  datatype Action = Lock(t: nat) | Count(t: nat) | Signal(t: nat) | Unlock(t: nat)
                  | WatcherLock | Test | Relock | WatcherUnlock | SpuriousWakeup

  ghost predicate Init(c: Config, s: State) {
    s == State(0, Free, seq(c.threads, i => Inc(0, Idle)), Start)
  }

  predicate AtPC(s: State, t: nat, pc: IncPC) {
    t < |s.incs| && s.incs[t].pc == pc
  }

  predicate Enabled(c: Config, s: State, a: Action) {
    match a
    case Lock(t) => AtPC(s, t, Idle) && s.incs[t].done < c.rounds && s.mutex == Free
    case Count(t) => AtPC(s, t, Locked)
    case Signal(t) => AtPC(s, t, Counted)
    case Unlock(t) => AtPC(s, t, Signalled)
    case WatcherLock => s.watcher == Start && s.mutex == Free
    case Test => s.watcher == Checking
    case Relock => s.watcher == Woken && s.mutex == Free
    case WatcherUnlock => s.watcher == Leaving
    case SpuriousWakeup => s.watcher == Sleeping
  }

  function Moved(s: State, t: nat, pc: IncPC): State
    requires t < |s.incs|
  {
    s.(incs := s.incs[t := Inc(s.incs[t].done, pc)])
  }

  function Next(c: Config, s: State, a: Action): State
    requires Enabled(c, s, a)
  {
    match a
    case Lock(t) => Moved(s, t, Locked).(mutex := ByInc(t))
    case Count(t) => Moved(s, t, Counted).(count := s.count + 1)
    case Signal(t) =>  // pthread_cond_signal() only at equality, and without effect on a watcher that is not waiting
      Moved(s, t, Signalled).(watcher := if s.count == c.limit && s.watcher == Sleeping then Woken else s.watcher)
    case Unlock(t) => s.(incs := s.incs[t := Inc(s.incs[t].done + 1, Idle)], mutex := Free)
    case WatcherLock => s.(watcher := Checking, mutex := ByWatcher)
    case Test => if s.count < c.limit then s.(watcher := Sleeping, mutex := Free) else s.(watcher := Leaving)
    case Relock => s.(watcher := Checking, mutex := ByWatcher)
    case WatcherUnlock => s.(watcher := Gone, mutex := Free)
    case SpuriousWakeup => s.(watcher := Woken)
  }

  ghost predicate IsRun(c: Config, states: seq<State>, actions: seq<Action>) {
    && |states| == |actions| + 1
    && Init(c, states[0])
    && forall k :: 0 <= k < |actions| ==> Enabled(c, states[k], actions[k]) && states[k + 1] == Next(c, states[k], actions[k])
  }

  /** The increments a thread has made. */
  ghost function Made(): Inc -> int {
    (x: Inc) => x.done + if x.pc == Counted || x.pc == Signalled then 1 else 0
  }

  // ----- invariant -----

  ghost predicate Inv(c: Config, s: State) {
    && |s.incs| == c.threads
    && (forall t :: 0 <= t < |s.incs| ==> (s.incs[t].pc != Idle <==> s.mutex == ByInc(t)))
    && (s.mutex == ByWatcher <==> s.watcher == Checking || s.watcher == Leaving)
    && (forall t :: 0 <= t < |s.incs| ==> s.incs[t].done + (if s.incs[t].pc == Idle then 0 else 1) <= c.rounds)
    && (s.mutex.ByInc? ==> s.mutex.t < |s.incs|)
    && s.count == Sum(Made(), s.incs)
    && (s.watcher == Sleeping ==> s.count < c.limit || (s.count == c.limit && s.mutex.ByInc? && s.incs[s.mutex.t].pc == Counted))
    && (s.watcher == Leaving || s.watcher == Gone ==> s.count >= c.limit)
  }

  lemma IncStepKeepsInv(c: Config, s: State, a: Action)
    requires Inv(c, s) && Enabled(c, s, a) && (a.Lock? || a.Count? || a.Signal? || a.Unlock?)
    ensures Inv(c, Next(c, s, a))
  {
    SumUpdate(Made(), s.incs, a.t, Next(c, s, a).incs[a.t]);
    assert s.incs[a.t].pc != Idle ==> s.mutex == ByInc(a.t);
  }

  lemma StepKeepsInv(c: Config, s: State, a: Action)
    requires Inv(c, s) && Enabled(c, s, a)
    ensures Inv(c, Next(c, s, a))
  {
    if a.Lock? || a.Count? || a.Signal? || a.Unlock? { IncStepKeepsInv(c, s, a); }
  }

  lemma {:induction false} Reachable(c: Config, states: seq<State>, actions: seq<Action>, k: nat)
    requires IsRun(c, states, actions) && k < |states|
    ensures Inv(c, states[k])
  {
    if k == 0 {
      SumConstant(Made(), states[0].incs, 0);
    } else {
      Reachable(c, states, actions, k - 1);
      StepKeepsInv(c, states[k - 1], actions[k - 1]);
    }
  }

  // ----- what holds of every run -----

  /** With the mutex free, a watcher still asleep means that the limit is not reached; it leaves only when it is. */
  lemma NoLostWakeup(c: Config, states: seq<State>, actions: seq<Action>, k: nat)
    requires IsRun(c, states, actions) && k < |states|
    ensures states[k].watcher == Sleeping && states[k].mutex == Free ==> states[k].count < c.limit
    ensures states[k].watcher == Leaving || states[k].watcher == Gone ==> states[k].count >= c.limit
  {
    Reachable(c, states, actions, k);
  }

  ghost predicate AllCounted(c: Config, s: State) {
    forall t :: 0 <= t < |s.incs| ==> s.incs[t] == Inc(c.rounds, Idle)
  }

  lemma FinalCount(c: Config, states: seq<State>, actions: seq<Action>, k: nat)
    requires IsRun(c, states, actions) && k < |states|
    ensures states[k].count <= c.threads * c.rounds
    ensures AllCounted(c, states[k]) ==> states[k].count == c.threads * c.rounds
  {
    Reachable(c, states, actions, k);
    SumBound(Made(), states[k].incs, c.rounds);
    if AllCounted(c, states[k]) { SumConstant(Made(), states[k].incs, c.rounds); }
  }

  /** No thread can do anything, short of a spurious wakeup. */
  ghost predicate Stuck(c: Config, s: State) {
    forall a :: Enabled(c, s, a) ==> a == SpuriousWakeup
  }

  lemma HolderCanMove(c: Config, s: State) returns (a: Action)
    requires Inv(c, s) && s.mutex != Free
    ensures Enabled(c, s, a) && a != SpuriousWakeup
  {
    if s.mutex == ByWatcher {
      a := if s.watcher == Checking then Test else WatcherUnlock;
    } else {
      var t := s.mutex.t;
      a := match s.incs[t].pc case Locked => Count(t) case Counted => Signal(t) case _ => Unlock(t);
    }
  }

  /**
   A run can only stop with all increments made, and with the watcher gone if and only if the limit is within
   reach; otherwise it is asleep for ever.
   */
  lemma StopsOnlyWhenDone(c: Config, states: seq<State>, actions: seq<Action>, k: nat)
    requires IsRun(c, states, actions) && k < |states| && Stuck(c, states[k])
    ensures AllCounted(c, states[k]) && states[k].count == c.threads * c.rounds
    ensures states[k].watcher == if c.limit <= c.threads * c.rounds then Gone else Sleeping
  {
    var s := states[k];
    Reachable(c, states, actions, k);
    if s.mutex != Free {
      var a := HolderCanMove(c, s);
      assert false;
    }
    forall t | 0 <= t < |s.incs| ensures s.incs[t] == Inc(c.rounds, Idle) {
      assert !Enabled(c, s, Lock(t));
    }
    FinalCount(c, states, actions, k);
    assert !Enabled(c, s, WatcherLock) && !Enabled(c, s, Relock);
  }

  // ----- termination -----

  /** Steps a thread may still take. */
  ghost function Work(rounds: nat): Inc -> int {
    (x: Inc) => 4 * (rounds - x.done) - match x.pc case Idle => 0 case Locked => 1 case Counted => 2 case Signalled => 3
  }

  /** Steps the watcher may still take without being woken. */
  ghost function WatcherWork(w: WatcherPC): int {
    match w case Gone => 0 case Leaving => 1 case Sleeping => 1 case Checking => 2 case Woken => 3 case Start => 3
  }

  /** The one signal, sent by the thread whose increment reaches the limit, is still to come. */
  ghost predicate SignalToCome(c: Config, s: State) {
    s.count < c.limit || (s.count == c.limit && s.mutex.ByInc? && AtPC(s, s.mutex.t, Counted))
  }

  ghost function Rank(c: Config, s: State): int {
    Sum(Work(c.rounds), s.incs) + WatcherWork(s.watcher) + if SignalToCome(c, s) then 2 else 0
  }

  lemma StepLowersRank(c: Config, s: State, a: Action)
    requires Inv(c, s) && Enabled(c, s, a)
    ensures Rank(c, Next(c, s, a)) <= if a == SpuriousWakeup then Rank(c, s) + 2 else Rank(c, s) - 1
  {
    if a.Lock? || a.Count? || a.Signal? || a.Unlock? {
      SumUpdate(Work(c.rounds), s.incs, a.t, Next(c, s, a).incs[a.t]);
      assert s.incs[a.t].pc != Idle ==> s.mutex == ByInc(a.t);
    }
  }

  lemma {:induction false} RankNonNegative(c: Config, incs: seq<Inc>)
    requires forall t :: 0 <= t < |incs| ==> incs[t].done + (if incs[t].pc == Idle then 0 else 1) <= c.rounds
    ensures Sum(Work(c.rounds), incs) >= 0
  {
    if incs != [] { RankNonNegative(c, incs[..|incs| - 1]); }
  }

  ghost function SpuriousCount(actions: seq<Action>): nat {
    if actions == [] then 0
    else SpuriousCount(actions[..|actions| - 1]) + if actions[|actions| - 1] == SpuriousWakeup then 1 else 0
  }

  lemma {:induction false} RankBound(c: Config, states: seq<State>, actions: seq<Action>, k: nat)
    requires IsRun(c, states, actions) && k < |states|
    ensures k + Rank(c, states[k]) <= Rank(c, states[0]) + 3 * SpuriousCount(actions[..k])
  {
    if k > 0 {
      RankBound(c, states, actions, k - 1);
      Reachable(c, states, actions, k - 1);
      StepLowersRank(c, states[k - 1], actions[k - 1]);
      assert actions[..k][..k - 1] == actions[..k - 1];
    }
  }

  lemma InitialRank(c: Config, s: State)
    requires Init(c, s)
    ensures Rank(c, s) <= 4 * c.threads * c.rounds + 5
  {
    SumConstant(Work(c.rounds), s.incs, 4 * c.rounds);
  }

  /**
   Under every scheduler a run is over after four steps per increment, five for the watcher, who is woken by a signal
   only once, and three per spurious wakeup.
   */
  lemma RunsEnd(c: Config, states: seq<State>, actions: seq<Action>)
    requires IsRun(c, states, actions)
    ensures |actions| <= 4 * c.threads * c.rounds + 5 + 3 * SpuriousCount(actions)
  {
    var n := |actions|;
    RankBound(c, states, actions, n);
    Reachable(c, states, actions, n);
    RankNonNegative(c, states[n].incs);
    InitialRank(c, states[0]);
    assert actions[..n] == actions;
  }

  /** Three steps per spurious wakeup it is: the watcher can be woken in vain any number of times. */
  lemma {:induction false} WokenInVain(c: Config, n: nat) returns (states: seq<State>, actions: seq<Action>)
    requires c.limit > 0
    ensures IsRun(c, states, actions) && |actions| == 2 + 3 * n && SpuriousCount(actions) == n
    ensures states[|actions|] == State(0, Free, seq(c.threads, i => Inc(0, Idle)), Sleeping)
  {
    if n == 0 {
      var s := State(0, Free, seq(c.threads, i => Inc(0, Idle)), Start);
      states, actions := [s, s.(watcher := Checking, mutex := ByWatcher), s.(watcher := Sleeping)], [WatcherLock, Test];
      assert actions[..1] == [WatcherLock] && actions[..1][..0] == [];
    } else {
      states, actions := WokenInVain(c, n - 1);
      states, actions := Extend(c, states, actions, SpuriousWakeup);
      states, actions := Extend(c, states, actions, Relock);
      states, actions := Extend(c, states, actions, Test);
    }
  }

  lemma Extend(c: Config, states: seq<State>, actions: seq<Action>, a: Action)
    returns (states': seq<State>, actions': seq<Action>)
    requires IsRun(c, states, actions) && Enabled(c, states[|actions|], a)
    ensures IsRun(c, states', actions') && |actions'| == |actions| + 1
    ensures SpuriousCount(actions') == SpuriousCount(actions) + if a == SpuriousWakeup then 1 else 0
    ensures states'[|actions'|] == Next(c, states[|actions|], a)
  {
    states', actions' := states + [Next(c, states[|actions|], a)], actions + [a];
    assert actions'[..|actions|] == actions;
  }
}
