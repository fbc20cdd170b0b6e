/**
 The counting-semaphore demo: server_sem_as_counting.c with any number of client_sem_as_counting.c.

 A client takes a permit with sem_wait(), sends a request to the message queue and is gone; the server receives a
 request, works on it and gives the permit back with sem_post(). The initial permits and the queue capacity are
 parameters. Clients and server may die at any moment.

 The client only reports a failing sem_wait() and then sends all the same; `WaitFails` is that branch, and `unpaid`
 counts how often it was taken.
 */
module Admission {
  type Pid = nat
  type Request = string

  datatype Config = Config(permits: nat, capacity: nat)

  datatype ServerPC = Starting | Receiving | Working | Dead

  /**
   `sending` are the clients past sem_wait(), with their request; `created` says that the queue exists; `lost` and
   `unpaid` are counters for the proof.
   */
  datatype State = State(value: nat, waiting: map<Pid, Request>, sending: map<Pid, Request>, created: bool,
                         queue: seq<Request>, server: ServerPC, lost: nat, unpaid: nat, sent: seq<Request>,
                         served: seq<Request>)

  datatype Action =
    | Arrive(p: Pid, r: Request)
    | Wait(p: Pid)          // sem_wait() succeeds
    | WaitFails(p: Pid)     // sem_wait() returns -1: reported, then ignored
    | Send(p: Pid)          // mq_send() succeeds and the client exits
    | ClientDies(p: Pid)    // killed, or mq_open()/mq_send() failed
    | OpenQueue             // the server's first receive_client_msg() creates the queue
    | Receive
    | Post
    | ServerDies

  predicate Init(c: Config, s: State) {
    s == State(c.permits, map[], map[], false, [], Starting, 0, 0, [], [])
  }

  predicate Enabled(c: Config, s: State, a: Action) {
    match a
    case Arrive(p, r) => p !in s.waiting && p !in s.sending
    case Wait(p) => p in s.waiting && s.value > 0
    case WaitFails(p) => p in s.waiting
    case Send(p) => p in s.sending && s.created && |s.queue| < c.capacity
    case ClientDies(p) => p in s.waiting || p in s.sending
    case OpenQueue => s.server == Starting
    case Receive => s.server == Receiving && s.queue != []
    case Post => s.server == Working
    case ServerDies => s.server != Dead
  }

  function Next(c: Config, s: State, a: Action): State
    requires Enabled(c, s, a)
  {
    match a
    case Arrive(p, r) => s.(waiting := s.waiting[p := r])
    case Wait(p) => s.(value := s.value - 1, waiting := s.waiting - {p}, sending := s.sending[p := s.waiting[p]])
    case WaitFails(p) => s.(unpaid := s.unpaid + 1, waiting := s.waiting - {p}, sending := s.sending[p := s.waiting[p]])
    case Send(p) =>
      s.(sending := s.sending - {p}, queue := s.queue + [s.sending[p]], sent := s.sent + [s.sending[p]])
    case ClientDies(p) =>
      if p in s.waiting then s.(waiting := s.waiting - {p})
      else s.(sending := s.sending - {p}, lost := s.lost + 1)
    case OpenQueue => s.(created := true, server := Receiving)
    case Receive => s.(server := Working, queue := s.queue[1..], served := s.served + [s.queue[0]])
    case Post => s.(server := Receiving, value := s.value + 1)
    case ServerDies => s.(server := Dead, lost := s.lost + InService(s))
  }

  predicate Step(c: Config, s: State, a: Action, t: State) {
    Enabled(c, s, a) && t == Next(c, s, a)
  }

  predicate IsRun(c: Config, states: seq<State>, actions: seq<Action>) {
    && |states| == |actions| + 1
    && Init(c, states[0])
    && forall k :: 0 <= k < |actions| ==> Step(c, states[k], actions[k], states[k + 1])
  }

  function InService(s: State): nat {
    if s.server == Working then 1 else 0
  }

  /** Requests whose client was admitted and that are not finished. */
  function Outstanding(s: State): nat {
    |s.sending| + |s.queue| + InService(s)
  }

  ghost predicate Inv(c: Config, s: State) {
    && s.waiting.Keys !! s.sending.Keys
    && s.value + Outstanding(s) + s.lost == c.permits + s.unpaid
    && s.served + s.queue == s.sent
  }

  lemma SizeAfterAdd(m: map<Pid, Request>, p: Pid, r: Request)
    requires p !in m
    ensures |m[p := r]| == |m| + 1
  {
    assert m[p := r].Keys == m.Keys + {p};
  }

  lemma SizeAfterRemove(m: map<Pid, Request>, p: Pid)
    requires p in m
    ensures |m - {p}| == |m| - 1
  {
    assert (m - {p}).Keys == m.Keys - {p};
  }

  lemma StepKeepsInv(c: Config, s: State, a: Action, t: State)
    requires Inv(c, s) && Step(c, s, a, t)
    ensures Inv(c, t)
  {
    StepKeepsApart(c, s, a, t);
    StepKeepsPermits(c, s, a, t);
    StepKeepsOrder(c, s, a, t);
  }

  lemma StepKeepsOrder(c: Config, s: State, a: Action, t: State)
    requires s.served + s.queue == s.sent && Step(c, s, a, t)
    ensures t.served + t.queue == t.sent
  {
    match a
    case Send(p) => assert s.served + (s.queue + [s.sending[p]]) == s.served + s.queue + [s.sending[p]];
    case Receive => assert s.served + [s.queue[0]] + s.queue[1..] == s.served + s.queue;
    case _ =>
  }

  lemma StepKeepsApart(c: Config, s: State, a: Action, t: State)
    requires s.waiting.Keys !! s.sending.Keys && Step(c, s, a, t)
    ensures t.waiting.Keys !! t.sending.Keys
  {
  }

  lemma ClientKeepsPermits(c: Config, s: State, a: Action, t: State)
    requires s.waiting.Keys !! s.sending.Keys && Step(c, s, a, t)
    requires a.Wait? || a.WaitFails? || a.Send? || a.ClientDies?
    ensures t.value + |t.sending| + |t.queue| + t.lost - t.unpaid == s.value + |s.sending| + |s.queue| + s.lost - s.unpaid
    ensures t.server == s.server
  {
    if a.Wait? || a.WaitFails? {
      SizeAfterAdd(s.sending, a.p, s.waiting[a.p]);
    } else if a.p in s.sending {
      SizeAfterRemove(s.sending, a.p);
    }
  }

  lemma StepKeepsPermits(c: Config, s: State, a: Action, t: State)
    requires s.waiting.Keys !! s.sending.Keys && Step(c, s, a, t)
    ensures t.value + Outstanding(t) + t.lost - t.unpaid == s.value + Outstanding(s) + s.lost - s.unpaid
  {
    if a.Wait? || a.WaitFails? || a.Send? || a.ClientDies? { ClientKeepsPermits(c, s, a, t); }
  }

  ghost function UnpaidCount(actions: seq<Action>): nat {
    if actions == [] then 0
    else UnpaidCount(actions[..|actions| - 1]) + if actions[|actions| - 1].WaitFails? then 1 else 0
  }

  lemma {:induction false} Reachable(c: Config, states: seq<State>, actions: seq<Action>, k: nat)
    requires IsRun(c, states, actions) && k < |states|
    ensures Inv(c, states[k])
    ensures states[k].unpaid == UnpaidCount(actions[..k])
  {
    if k > 0 {
      Reachable(c, states, actions, k - 1);
      StepKeepsInv(c, states[k - 1], actions[k - 1], states[k]);
      assert actions[..k][..k - 1] == actions[..k - 1];
    }
  }

  /**
   No permit is created or forgotten: the free ones, the outstanding requests and the ones that died with their
   holder add up to the initial permits plus one for every failed sem_wait(). Requests are served in the order sent.
   */
  lemma Conservation(c: Config, states: seq<State>, actions: seq<Action>, k: nat)
    requires IsRun(c, states, actions) && k < |states|
    ensures states[k].value + |states[k].sending| + |states[k].queue| + InService(states[k]) + states[k].lost
         == c.permits + UnpaidCount(actions[..k])
    ensures states[k].served + states[k].queue == states[k].sent
  {
    Reachable(c, states, actions, k);
  }

  // ----- whose requests are served -----

  /** The request `p` brought when it last arrived. */
  ghost function Brought(actions: seq<Action>, p: Pid): Request {
    if actions == [] then "" else
    var n := |actions| - 1;
    if actions[n].Arrive? && actions[n].p == p then actions[n].r else Brought(actions[..n], p)
  }

  /** The requests of the clients that have sent, in that order. */
  ghost function SentBy(actions: seq<Action>): seq<Request> {
    if actions == [] then [] else
    var n := |actions| - 1;
    SentBy(actions[..n]) + if actions[n].Send? then [Brought(actions[..n], actions[n].p)] else []
  }

  ghost function Receives(actions: seq<Action>): nat {
    if actions == [] then 0
    else Receives(actions[..|actions| - 1]) + if actions[|actions| - 1] == Receive then 1 else 0
  }

  /** What the state says about the actions so far. */
  ghost predicate Follows(s: State, actions: seq<Action>) {
    && (forall p :: p in s.waiting ==> s.waiting[p] == Brought(actions, p))
    && (forall p :: p in s.sending ==> s.sending[p] == Brought(actions, p))
    && s.sent == SentBy(actions) && |s.served| == Receives(actions)
    && (s.created <==> OpenQueue in actions) && (s.sent != [] ==> s.created)
    && (s.server == Receiving || s.server == Working ==> s.created)
    && (s.server == Dead <==> ServerDies in actions)
  }

  lemma StepFollows(c: Config, s: State, a: Action, t: State, actions: seq<Action>)
    requires Follows(s, actions) && Step(c, s, a, t)
    ensures Follows(t, actions + [a])
  {
    assert (actions + [a])[..|actions + [a]| - 1] == actions;
    assert forall x :: x in actions + [a] <==> x in actions || x == a;
  }

  lemma {:induction false} RunFollows(c: Config, states: seq<State>, actions: seq<Action>, k: nat)
    requires IsRun(c, states, actions) && k < |states|
    ensures Follows(states[k], actions[..k])
  {
    if k > 0 {
      RunFollows(c, states, actions, k - 1);
      assert actions[..k] == actions[..k - 1] + [actions[k - 1]];
      StepFollows(c, states[k - 1], actions[k - 1], states[k], actions[..k - 1]);
    }
  }

  /** Every client's own request is served, once and in the order of sending: the ones received are the first ones sent. */
  lemma ServedInOrder(c: Config, states: seq<State>, actions: seq<Action>, k: nat)
    requires IsRun(c, states, actions) && k < |states|
    ensures Receives(actions[..k]) <= |SentBy(actions[..k])|
    ensures states[k].served == SentBy(actions[..k])[..Receives(actions[..k])]
    ensures states[k].queue == SentBy(actions[..k])[Receives(actions[..k])..]
    ensures states[k].server == Dead <==> ServerDies in actions[..k]
    ensures SentBy(actions[..k]) != [] ==> OpenQueue in actions[..k]
  {
    Reachable(c, states, actions, k);
    RunFollows(c, states, actions, k);
  }

  // ----- progress -----

  /** Nothing more can happen, short of new clients, failing calls and deaths. */
  ghost predicate Stuck(c: Config, s: State) {
    forall a :: Enabled(c, s, a) ==> a.Arrive? || a.WaitFails? || a.ClientDies? || a.ServerDies?
  }

  lemma StuckState(c: Config, s: State)
    requires Stuck(c, s) && s.server != Dead && c.capacity > 0 && (s.server == Receiving || s.server == Working ==> s.created)
    ensures s.server == Receiving && s.queue == [] && s.sending == map[] && (s.waiting == map[] || s.value == 0)
  {
    assert !Enabled(c, s, OpenQueue) && !Enabled(c, s, Receive) && !Enabled(c, s, Post);
    forall p ensures p !in s.sending {
      assert !Enabled(c, s, Send(p));
    }
    if s.waiting != map[] {
      var p :| p in s.waiting;
      assert !Enabled(c, s, Wait(p));
    }
  }

  /**
   No deadlock: while the server lives, a run can only stop with everything served, nobody about to send and nobody
   waiting, unless all permits died with their holders.
   */
  lemma StopsOnlyWhenServed(c: Config, states: seq<State>, actions: seq<Action>, k: nat)
    requires IsRun(c, states, actions) && k < |states| && c.capacity > 0
    requires Stuck(c, states[k]) && ServerDies !in actions[..k]
    ensures states[k].sending == map[] && states[k].served == SentBy(actions[..k])
    ensures states[k].waiting == map[] || states[k].lost == c.permits + UnpaidCount(actions[..k])
  {
    Reachable(c, states, actions, k);
    RunFollows(c, states, actions, k);
    StuckState(c, states[k]);
  }

  function One(b: bool): nat { if b then 1 else 0 }

  /** The steps that are left at most for those who are there. */
  ghost function StepsLeft(s: State): nat {
    ClientSteps(s) + InService(s) + One(s.server != Dead) + One(s.server == Starting)
  }

  ghost function Arrivals(actions: seq<Action>, k: nat): nat
    requires k <= |actions|
  {
    if k == 0 then 0 else Arrivals(actions, k - 1) + One(actions[k - 1].Arrive?)
  }

  /** The clients' part of that. */
  ghost function ClientSteps(s: State): nat {
    4 * |s.waiting| + 3 * |s.sending| + 2 * |s.queue|
  }

  lemma AdmittingCosts(c: Config, s: State, a: Action, t: State)
    requires Step(c, s, a, t) && s.waiting.Keys !! s.sending.Keys && (a.Wait? || a.WaitFails?)
    ensures ClientSteps(t) == ClientSteps(s) - 1
  {
    SizeAfterRemove(s.waiting, a.p);
    SizeAfterAdd(s.sending, a.p, s.waiting[a.p]);
  }

  lemma ClientCosts(c: Config, s: State, a: Action, t: State)
    requires Step(c, s, a, t) && (a.Arrive? || a.Send? || a.ClientDies?)
    ensures ClientSteps(t) <= ClientSteps(s) - 1 + 5 * One(a.Arrive?)
  {
    if a.Arrive? {
      SizeAfterAdd(s.waiting, a.p, a.r);
    } else if a.ClientDies? && a.p in s.waiting {
      SizeAfterRemove(s.waiting, a.p);
    } else {
      SizeAfterRemove(s.sending, a.p);
    }
  }

  lemma StepCosts(c: Config, s: State, a: Action, t: State)
    requires Step(c, s, a, t) && s.waiting.Keys !! s.sending.Keys
    ensures StepsLeft(t) <= StepsLeft(s) - 1 + 5 * One(a.Arrive?)
  {
    if a.Wait? || a.WaitFails? {
      AdmittingCosts(c, s, a, t);
    } else if a.Arrive? || a.Send? || a.ClientDies? {
      ClientCosts(c, s, a, t);
    }
  }

  lemma {:induction false} StepsSoFar(c: Config, states: seq<State>, actions: seq<Action>, k: nat)
    requires IsRun(c, states, actions) && k < |states|
    ensures k + StepsLeft(states[k]) <= 5 * Arrivals(actions, k) + 2
  {
    if k > 0 {
      StepsSoFar(c, states, actions, k - 1);
      Reachable(c, states, actions, k - 1);
      StepCosts(c, states[k - 1], actions[k - 1], states[k]);
    }
  }

  /** And it does stop: under every scheduler a run has at most five steps per client and two more. */
  lemma RunsEnd(c: Config, states: seq<State>, actions: seq<Action>)
    requires IsRun(c, states, actions)
    ensures |actions| <= 5 * Arrivals(actions, |actions|) + 2
  {
    StepsSoFar(c, states, actions, |actions|);
  }

  // ----- the admission bound -----

  ghost predicate NoFailedWait(actions: seq<Action>) {
    forall k :: 0 <= k < |actions| ==> !actions[k].WaitFails?
  }

  lemma {:induction false} NothingUnpaid(actions: seq<Action>)
    requires NoFailedWait(actions)
    ensures UnpaidCount(actions) == 0
  {
    if actions != [] { NothingUnpaid(actions[..|actions| - 1]); }
  }

  /**
   The initial count and the failed sem_wait() calls together bound the requests in the system; so without a failed
   one the initial count does, and sem_post() never exceeds it.
   */
  lemma AdmissionBound(c: Config, states: seq<State>, actions: seq<Action>, k: nat)
    requires IsRun(c, states, actions) && k < |states|
    ensures Outstanding(states[k]) <= c.permits + UnpaidCount(actions[..k])
    ensures NoFailedWait(actions[..k]) ==>
      Outstanding(states[k]) <= c.permits && (states[k].server == Working ==> states[k].value + 1 <= c.permits)
  {
    Reachable(c, states, actions, k);
    if NoFailedWait(actions[..k]) { NothingUnpaid(actions[..k]); }
  }

  /** For every configuration and every number of failed waits there is a run that reaches the bound. */
  lemma FailedWaitAdmitsTooMany(c: Config, failed: nat) returns (states: seq<State>, actions: seq<Action>)
    ensures IsRun(c, states, actions) && UnpaidCount(actions) == failed
    ensures Outstanding(states[|states| - 1]) == c.permits + failed
  {
    states, actions := Crowd(c, failed, c.permits + failed, 0);
    Reachable(c, states, actions, |actions|);
    assert actions[..|actions|] == actions;
  }

  ghost predicate WithinBound(c: Config, states: seq<State>) {
    forall k :: 0 <= k < |states| ==> Outstanding(states[k]) <= c.permits
  }

  /** So the number of permits bounds every run with a given number of failed waits exactly when that number is 0. */
  lemma BoundExactlyWithoutFailures(c: Config, failed: nat)
    ensures (forall states, actions :: IsRun(c, states, actions) && UnpaidCount(actions) == failed ==> WithinBound(c, states))
            <==> failed == 0
  {
    if failed == 0 {
      forall states, actions | IsRun(c, states, actions) && UnpaidCount(actions) == 0 ensures WithinBound(c, states) {
        forall k | 0 <= k < |states| ensures Outstanding(states[k]) <= c.permits {
          UnpaidGrows(actions, k);
          AdmissionBound(c, states, actions, k);
        }
      }
    } else {
      var states, actions := FailedWaitAdmitsTooMany(c, failed);
      assert Outstanding(states[|states| - 1]) > c.permits;
    }
  }

  lemma {:induction false} UnpaidGrows(actions: seq<Action>, k: nat)
    requires k <= |actions|
    ensures UnpaidCount(actions[..k]) <= UnpaidCount(actions)
    decreases |actions|
  {
    var n := |actions| - 1;
    if k <= n {
      UnpaidGrows(actions[..n], k);
      assert actions[..n][..k] == actions[..k];
    } else {
      assert actions[..k] == actions;
    }
  }

  /** An admitted client does not find the queue full as long as permits and failed waits together fit into it ... */
  lemma SendNeverBlocks(c: Config, states: seq<State>, actions: seq<Action>, k: nat, p: Pid)
    requires IsRun(c, states, actions) && k < |states|
    requires c.permits + UnpaidCount(actions[..k]) <= c.capacity && p in states[k].sending
    ensures |states[k].queue| < c.capacity
  {
    Reachable(c, states, actions, k);
    SizeAfterRemove(states[k].sending, p);
  }

  /** ... and if they do not, there is a run in which one does. */
  lemma SendBlocks(c: Config, failed: nat) returns (states: seq<State>, actions: seq<Action>, p: Pid)
    requires c.permits + failed > c.capacity
    ensures IsRun(c, states, actions) && UnpaidCount(actions) == failed
    ensures p in states[|states| - 1].sending && |states[|states| - 1].queue| == c.capacity
  {
    states, actions := Crowd(c, failed, c.permits + failed, c.capacity);
    p := c.permits + failed - 1;
    Reachable(c, states, actions, |actions|);
    assert actions[..|actions|] == actions;
  }

  lemma Extend(c: Config, states: seq<State>, actions: seq<Action>, a: Action)
    returns (states': seq<State>, actions': seq<Action>)
    requires IsRun(c, states, actions) && Enabled(c, states[|states| - 1], a)
    ensures IsRun(c, states', actions') && actions' == actions + [a]
    ensures states'[|states'| - 1] == Next(c, states[|states| - 1], a)
  {
    states', actions' := states + [Next(c, states[|states| - 1], a)], actions + [a];
  }

  /** `n` clients were admitted, the first ones by a failed wait although there were permits, and the first `q` have sent. */
  ghost predicate Crowded(c: Config, s: State, failed: nat, n: nat, q: nat) {
    && s.value == (if n <= failed then c.permits else c.permits - (n - failed))
    && s.unpaid == (if n <= failed then n else failed)
    && s.waiting == map[] && s.created && s.server == Receiving && s.lost == 0
    && (forall p :: p in s.sending <==> q <= p < n)
    && |s.queue| == if n <= q then n else q
  }

  lemma {:induction false} Crowd(c: Config, failed: nat, n: nat, q: nat) returns (states: seq<State>, actions: seq<Action>)
    requires n <= c.permits + failed && q <= c.capacity
    ensures IsRun(c, states, actions) && Crowded(c, states[|states| - 1], failed, n, q)
    decreases n
  {
    if n == 0 {
      states, actions := [State(c.permits, map[], map[], false, [], Starting, 0, 0, [], [])], [];
      states, actions := Extend(c, states, actions, OpenQueue);
    } else {
      states, actions := Crowd(c, failed, n - 1, q);
      var p := n - 1;
      states, actions := Extend(c, states, actions, Arrive(p, ""));
      states, actions := Extend(c, states, actions, if p < failed then WaitFails(p) else Wait(p));
      if p < q { states, actions := Extend(c, states, actions, Send(p)); }
    }
  }

  // ----- lost permits -----

  /** `n` permits have died with a client that had been admitted and had not sent. */
  lemma {:induction false} PermitsDie(c: Config, n: nat) returns (states: seq<State>, actions: seq<Action>)
    requires n <= c.permits
    ensures IsRun(c, states, actions) && ServerDies !in actions
    ensures states[|states| - 1] == State(c.permits - n, map[], map[], true, [], Receiving, n, 0, [], [])
  {
    if n == 0 {
      states, actions := [State(c.permits, map[], map[], false, [], Starting, 0, 0, [], [])], [];
      states, actions := Extend(c, states, actions, OpenQueue);
    } else {
      states, actions := PermitsDie(c, n - 1);
      states, actions := Extend(c, states, actions, Arrive(0, ""));
      states, actions := Extend(c, states, actions, Wait(0));
      states, actions := Extend(c, states, actions, ClientDies(0));
      assert map[0 := ""] - {0} == map[];
    }
  }

  /** That is a real exception in `StopsOnlyWhenServed`: for every configuration clients can end up waiting for ever. */
  lemma WaitsForEver(c: Config) returns (states: seq<State>, actions: seq<Action>)
    ensures IsRun(c, states, actions) && ServerDies !in actions
    ensures Stuck(c, states[|states| - 1]) && states[|states| - 1].waiting != map[]
  {
    states, actions := PermitsDie(c, c.permits);
    states, actions := Extend(c, states, actions, Arrive(0, ""));
    assert 0 in states[|states| - 1].waiting;
  }

  /** The server too can die with a permit, while it works. */
  lemma ServerDiesWorking(c: Config, p: Pid, r: Request) returns (states: seq<State>, actions: seq<Action>)
    requires c.permits > 0 && c.capacity > 0
    ensures IsRun(c, states, actions)
    ensures var s := states[|states| - 1];
      s.server == Dead && s.lost == 1 && s.served == [r] && s.value == c.permits - 1 && Outstanding(s) == 0
  {
    states, actions := PermitsDie(c, 0);
    states, actions := Extend(c, states, actions, Arrive(p, r));
    states, actions := Extend(c, states, actions, Wait(p));
    states, actions := Extend(c, states, actions, Send(p));
    states, actions := Extend(c, states, actions, Receive);
    states, actions := Extend(c, states, actions, ServerDies);
    assert states[|states| - 1].sending == map[];
  }
}
