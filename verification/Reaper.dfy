/**
 Clearing zombies from a SIGCHLD handler.

 SIGCHLD is one pending bit, however many children have died, and is blocked while its handler runs. The children are
 any set, and they die whenever they like. Three handlers are compared: the loop of zombies_clear_traditional.c, which
 calls wait3(WNOHANG) until it returns -1; the loop of xfer_file.c, which goes on while it returns a pid; and a
 single wait per signal, which the comment in zombies_clear_traditional.c warns against.
 */
module Reaper {
  type Pid = p: nat | 0 < p witness 1

  datatype Handler = UntilError | WhilePositive | Once

  datatype HandlerPC = Out | Waiting | Returning

  datatype State = State(live: set<Pid>, zombies: set<Pid>, pending: bool, handler: HandlerPC)

  datatype Action = Fork(p: Pid) | Die(p: Pid) | Deliver | Wait(p: Pid) | WaitNothing | Return

  predicate Init(s: State) {
    s == State({}, {}, false, Out)
  }

  /** The loop condition, on the result of the last wait. */
  predicate GoesOn(h: Handler, result: int) {
    match h
    case UntilError => result != -1
    case WhilePositive => result > 0
    case Once => false
  }

  predicate Enabled(s: State, a: Action) {
    match a
    case Fork(p) => s.handler == Out && p !in s.live && p !in s.zombies
    case Die(p) => p in s.live
    case Deliver => s.pending && s.handler == Out
    case Wait(p) => s.handler == Waiting && p in s.zombies       // wait3() reaps any one of the dead
    case WaitNothing => s.handler == Waiting && s.zombies == {}  // 0, or -1 when there is no child at all
    case Return => s.handler == Returning
  }

  function Result(s: State, a: Action): int {
    if a.Wait? then a.p else if s.live != {} then 0 else -1
  }

  function Next(h: Handler, s: State, a: Action): State
    requires Enabled(s, a)
  {
    match a
    case Fork(p) => s.(live := s.live + {p})
    case Die(p) => s.(live := s.live - {p}, zombies := s.zombies + {p}, pending := true)
    case Deliver => s.(pending := false, handler := Waiting)
    case Wait(p) => s.(zombies := s.zombies - {p}, handler := if GoesOn(h, Result(s, a)) then Waiting else Returning)
    case WaitNothing => s.(handler := if GoesOn(h, Result(s, a)) then Waiting else Returning)
    case Return => s.(handler := Out)
  }

  predicate IsRun(h: Handler, states: seq<State>, actions: seq<Action>) {
    && |states| == |actions| + 1
    && Init(states[0])
    && forall k :: 0 <= k < |actions| ==> Enabled(states[k], actions[k]) && states[k + 1] == Next(h, states[k], actions[k])
  }

  /** Every zombie will be looked for: its signal is still pending, or the handler has not finished looking. */
  predicate Watched(s: State) {
    s.zombies != {} ==> s.pending || s.handler == Waiting
  }

  ghost predicate Inv(h: Handler, s: State) {
    && s.live !! s.zombies
    && (h != Once ==> Watched(s))
    && (h == UntilError && s.handler == Returning ==> s.live == {} && s.zombies == {})
  }

  lemma {:induction false} Reachable(h: Handler, states: seq<State>, actions: seq<Action>, k: nat)
    requires IsRun(h, states, actions) && k < |states|
    ensures Inv(h, states[k])
  {
    if k > 0 { Reachable(h, states, actions, k - 1); }
  }

  /** Both loops keep every zombie watched; so when nothing is pending and the handler is not running, there is none. */
  lemma LoopsForgetNoZombie(h: Handler, states: seq<State>, actions: seq<Action>, k: nat)
    requires IsRun(h, states, actions) && k < |states| && h != Once
    ensures Watched(states[k])
    ensures states[k].handler == Out && !states[k].pending ==> states[k].zombies == {}
  {
    Reachable(h, states, actions, k);
  }

  /** And as long as there is a zombie, or the handler is at it, there is something to do besides forking and dying. */
  lemma QuietMeansReaped(h: Handler, states: seq<State>, actions: seq<Action>, k: nat)
    requires IsRun(h, states, actions) && k < |states| && h != Once
    requires forall a :: Enabled(states[k], a) ==> a.Fork? || a.Die?
    ensures states[k].zombies == {} && states[k].handler == Out && !states[k].pending
  {
    var s := states[k];
    Reachable(h, states, actions, k);
    forall p | p in s.zombies ensures s.handler != Waiting {
      assert !Enabled(s, Wait(p));
    }
    assert !Enabled(s, Deliver) && !Enabled(s, WaitNothing) && !Enabled(s, Return);
  }

  lemma Extend(h: Handler, states: seq<State>, actions: seq<Action>, a: Action)
    returns (states': seq<State>, actions': seq<Action>)
    requires IsRun(h, states, actions) && Enabled(states[|actions|], a)
    ensures IsRun(h, states', actions') && actions' == actions + [a]
    ensures states'[|actions'|] == Next(h, states[|actions|], a)
  {
    states', actions' := states + [Next(h, states[|actions|], a)], actions + [a];
  }

  /** Any children can be alive ... */
  lemma {:induction false} AnyAlive(h: Handler, live: set<Pid>) returns (states: seq<State>, actions: seq<Action>)
    ensures IsRun(h, states, actions) && states[|actions|] == State(live, {}, false, Out)
    decreases |live|
  {
    if live == {} {
      states, actions := [State({}, {}, false, Out)], [];
    } else {
      var p :| p in live;
      var others := live - {p};
      assert others + {p} == live;
      states, actions := AnyAlive(h, others);
      states, actions := Extend(h, states, actions, Fork(p));
    }
  }

  /** ... and any others dead, with no signal delivered yet. */
  lemma {:induction false} AnyDead(h: Handler, live: set<Pid>, zombies: set<Pid>)
    returns (states: seq<State>, actions: seq<Action>)
    requires live !! zombies
    ensures IsRun(h, states, actions) && states[|actions|] == State(live, zombies, zombies != {}, Out)
    decreases |zombies|
  {
    if zombies == {} {
      states, actions := AnyAlive(h, live);
    } else {
      var p :| p in zombies;
      var others := zombies - {p};
      assert others + {p} == zombies && live + {p} - {p} == live;
      states, actions := AnyDead(h, live + {p}, others);
      states, actions := Extend(h, states, actions, Die(p));
    }
  }

  /** Others can die while the handler runs. */
  lemma {:induction false} LateDeaths(h: Handler, live: set<Pid>, late: set<Pid>, p: Pid)
    returns (states: seq<State>, actions: seq<Action>)
    requires live !! late && p !in live && p !in late
    ensures IsRun(h, states, actions) && states[|actions|] == State(live, late + {p}, late != {}, Waiting)
    decreases |late|
  {
    if late == {} {
      states, actions := AnyDead(h, live, {p});
      states, actions := Extend(h, states, actions, Deliver);
      assert late + {p} == {p};
    } else {
      var q :| q in late;
      var others := late - {q};
      assert others + {p} + {q} == late + {p} && live + {q} - {q} == live;
      states, actions := LateDeaths(h, live + {q}, others, p);
      states, actions := Extend(h, states, actions, Die(q));
    }
  }

  /**
   A single wait does not: if several children die before the handler runs, their signals are one. Any set of zombies
   can be left that nobody looks for, whoever else is alive.
   */
  lemma OnceForgets(live: set<Pid>, zombies: set<Pid>, p: Pid) returns (states: seq<State>, actions: seq<Action>)
    requires live !! zombies && p !in live && p !in zombies && zombies != {}
    ensures IsRun(Once, states, actions)
    ensures states[|actions|] == State(live, zombies, false, Out) && !Watched(states[|actions|])
  {
    states, actions := AnyDead(Once, live, zombies + {p});
    states, actions := Extend(Once, states, actions, Deliver);
    states, actions := Extend(Once, states, actions, Wait(p));
    states, actions := Extend(Once, states, actions, Return);
    assert zombies + {p} - {p} == zombies;
  }

  /**
   The price of `UntilError`, against the comment's "we should not actually wait for any other child that is still
   alive": once the handler runs, the interrupted program is held up for as long as any one child stays alive.
   */
  lemma {:induction false} HeldUpByLiveChild(states: seq<State>, actions: seq<Action>, k: nat, m: nat, p: Pid)
    requires IsRun(UntilError, states, actions) && k <= m < |states|
    requires states[k].handler == Waiting && p in states[k].live
    requires forall n :: k <= n < m ==> actions[n] != Die(p)
    ensures states[m].handler == Waiting && p in states[m].live
    decreases m
  {
    if k < m { HeldUpByLiveChild(states, actions, k, m - 1, p); }
  }

  /** That can be for any number of fruitless waits, with any children alive. */
  lemma {:induction false} HeldUpForLong(live: set<Pid>, p: Pid, n: nat) returns (states: seq<State>, actions: seq<Action>)
    requires live != {} && p !in live
    ensures IsRun(UntilError, states, actions) && |actions| >= n
    ensures forall k :: |actions| - n <= k < |actions| ==> actions[k] == WaitNothing
    ensures states[|actions|] == State(live, {}, false, Waiting)
  {
    if n == 0 {
      states, actions := AnyDead(UntilError, live, {p});
      states, actions := Extend(UntilError, states, actions, Deliver);
      states, actions := Extend(UntilError, states, actions, Wait(p));
      assert {p} - {p} == {};
    } else {
      states, actions := HeldUpForLong(live, p, n - 1);
      states, actions := Extend(UntilError, states, actions, WaitNothing);
    }
  }

  predicate IsWait(a: Action) { a.Wait? || a.WaitNothing? }

  /**
   The handler leaves its loop with the one wait that finds no zombie and, for `UntilError`, no child at all: every
   child that was alive at any moment of that loop has died in it.
   */
  lemma LeavesLoopWhen(h: Handler, states: seq<State>, actions: seq<Action>, k: nat, m: nat)
    requires IsRun(h, states, actions) && k < m < |states| && h != Once
    requires (forall n :: k <= n < m ==> states[n].handler == Waiting) && states[m].handler != Waiting
    ensures states[m].zombies == {} && (h == UntilError ==> states[m].live == {})
    ensures forall n :: k <= n < m && IsWait(actions[n]) ==>
      (n == m - 1 <==> states[n].zombies == {} && (h == UntilError ==> states[n].live == {}))
    ensures h == UntilError ==> forall p :: p in states[k].live ==> Die(p) in actions[k..m]
  {
    assert states[m] == Next(h, states[m - 1], actions[m - 1]);
    forall n | k <= n < m && IsWait(actions[n])
      ensures n == m - 1 <==> states[n].zombies == {} && (h == UntilError ==> states[n].live == {})
    {
      assert states[n + 1] == Next(h, states[n], actions[n]);
    }
    if h == UntilError {
      forall p | p in states[k].live ensures Die(p) in actions[k..m] {
        if Die(p) !in actions[k..m] {
          assert forall n :: k <= n < m ==> actions[n] == actions[k..m][n - k];
          HeldUpByLiveChild(states, actions, k, m, p);
        }
      }
    }
  }

  function One(b: bool): nat { if b then 1 else 0 }

  /** The calls of wait in steps `k` to `m`. */
  function Waits(actions: seq<Action>, k: nat, m: nat): nat
    requires k <= m <= |actions|
  {
    if k == m then 0 else Waits(actions, k, m - 1) + One(IsWait(actions[m - 1]))
  }

  /** The children that die in them. */
  function Deaths(actions: seq<Action>, k: nat, m: nat): nat
    requires k <= m <= |actions|
  {
    if k == m then 0 else Deaths(actions, k, m - 1) + One(actions[m - 1].Die?)
  }

  lemma WaitCounts(h: Handler, s: State, a: Action)
    requires Enabled(s, a) && s.live !! s.zombies && h != Once && (h == UntilError ==> s.live == {})
    requires s.handler != Out && a != Return
    ensures var t := Next(h, s, a);
      && |t.live| + One(a.Die?) == |s.live|
      && (t.handler == Waiting ==>
            s.handler == Waiting && |t.zombies| + One(IsWait(a)) == |s.zombies| + One(a.Die?))
      && (t.handler != Waiting ==> t.handler == Returning)
      && (s.handler != Waiting ==> t.handler != Waiting && !IsWait(a))
  {
    match a
    case Die(p) => assert |s.live - {p}| == |s.live| - 1 && |s.zombies + {p}| == |s.zombies| + 1;
    case Wait(p) => assert |s.zombies - {p}| == |s.zombies| - 1;
    case _ =>
  }

  /** What goes on during one call of the handler, whoever dies meanwhile. */
  lemma {:induction false} HandlerAtWork(h: Handler, states: seq<State>, actions: seq<Action>, k: nat, m: nat)
    requires IsRun(h, states, actions) && k <= m < |states| && h != Once && states[k].handler == Waiting
    requires h == UntilError ==> states[k].live == {}
    requires forall n :: k <= n < m ==> actions[n] != Return
    ensures |states[m].live| + Deaths(actions, k, m) == |states[k].live|
    ensures h == UntilError ==> states[m].live == {}
    ensures states[m].handler == Waiting ==>
      Waits(actions, k, m) + |states[m].zombies| == |states[k].zombies| + Deaths(actions, k, m)
    ensures states[m].handler != Waiting ==>
      states[m].handler == Returning && Waits(actions, k, m) <= |states[k].zombies| + Deaths(actions, k, m) + 1
    decreases m
  {
    if k < m {
      HandlerAtWork(h, states, actions, k, m - 1);
      Reachable(h, states, actions, m - 1);
      WaitCounts(h, states[m - 1], actions[m - 1]);
    }
  }

  /**
   `WhilePositive` makes at most one wait per zombie, one per child that dies meanwhile, and one more; as nobody forks
   in the handler, it returns after a bounded number of waits whoever is alive. `UntilError` does so once nobody is.
   */
  lemma LoopReturns(h: Handler, states: seq<State>, actions: seq<Action>, k: nat, m: nat)
    requires IsRun(h, states, actions) && k <= m < |states| && h != Once && states[k].handler == Waiting
    requires h == UntilError ==> states[k].live == {}
    requires forall n :: k <= n < m ==> actions[n] != Return
    ensures Waits(actions, k, m) <= |states[k].zombies| + Deaths(actions, k, m) + 1
    ensures Waits(actions, k, m) <= |states[k].zombies| + |states[k].live| + 1
    ensures states[m].handler == Waiting ==> Waits(actions, k, m) <= |states[k].zombies| + |states[k].live|
  {
    HandlerAtWork(h, states, actions, k, m);
  }
}
