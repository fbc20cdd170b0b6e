/**
 appdemo_shm_sem_as_mtx.c: parent and child fill overlapping ranges of a shared memory region, the child after the
 parent, ordered by a semaphore that starts at 0. Region, ranges and letters are parameters; the processes interleave
 byte by byte. Running without the semaphore, and a sem_wait() that fails and is only reported, are modelled too.
 */
module SharedFill {
  import opened Bytes

  /** memset() of `len` bytes from `offset` on. */
  function Filled(mem: seq<Byte>, letter: Byte, offset: nat, len: nat): (r: seq<Byte>)
    requires offset + len <= |mem|
    ensures |r| == |mem|
    ensures forall i :: 0 <= i < |mem| ==> r[i] == if offset <= i < offset + len then letter else mem[i]
  {
    seq(|mem|, i requires 0 <= i < |mem| => if offset <= i < offset + len then letter else mem[i])
  }

  const CHUNK := 4096

  method Memset(mem: array<Byte>, at: nat, letter: Byte, n: nat)
    requires at + n <= mem.Length
    modifies mem
    ensures mem[..] == Filled(old(mem[..]), letter, at, n)
  {
    for k := 0 to n
      invariant forall i :: 0 <= i < mem.Length ==> mem[i] == if at <= i < at + k then letter else old(mem[i])
    {
      mem[at + k] := letter;
    }
  }

  /** update_udata(): the page-sized chunks and the remainder are one fill, and nothing else changes. */
  method UpdateUdata(mem: array<Byte>, letter: Byte, offset: nat, len: nat)
    requires offset + len <= mem.Length
    modifies mem
    ensures mem[..] == Filled(old(mem[..]), letter, offset, len)
  {
    var numIters, remainder := len / CHUNK, len % CHUNK;
    for i := 0 to numIters
      invariant mem[..] == Filled(old(mem[..]), letter, offset, i * CHUNK)
    {
      Memset(mem, offset + i * CHUNK, letter, CHUNK);
    }
    if remainder != 0 {
      Memset(mem, offset + numIters * CHUNK, letter, remainder);
    }
  }

  // ----- the two processes -----

  datatype Range = Range(letter: Byte, offset: nat, len: nat)

  datatype Config = Config(memory: seq<Byte>, parent: Range, child: Range, useSemaphore: bool) {
    predicate Valid() {
      parent.offset + parent.len <= |memory| && child.offset + child.len <= |memory|
    }
  }

  datatype ChildPC = Waiting | Filling

  /** `parent` and `child` count the bytes each has written. */
  datatype State = State(mem: seq<Byte>, parent: nat, posted: bool, sem: nat, childPc: ChildPC, child: nat)

  datatype Action = ParentWrite | Post | Wait | WaitFails | ChildWrite

  predicate Init(c: Config, s: State) {
    s == State(c.memory, 0, false, 0, if c.useSemaphore then Waiting else Filling, 0)
  }

  predicate Enabled(c: Config, s: State, a: Action) {
    match a
    case ParentWrite => s.parent < c.parent.len && c.parent.offset + s.parent < |s.mem|
    case Post => c.useSemaphore && s.parent == c.parent.len && !s.posted
    case Wait => s.childPc == Waiting && s.sem > 0
    case WaitFails => s.childPc == Waiting
    case ChildWrite => s.childPc == Filling && s.child < c.child.len && c.child.offset + s.child < |s.mem|
  }

  function Next(c: Config, s: State, a: Action): State
    requires Enabled(c, s, a)
  {
    match a
    case ParentWrite => s.(mem := s.mem[c.parent.offset + s.parent := c.parent.letter], parent := s.parent + 1)
    case Post => s.(sem := s.sem + 1, posted := true)
    case Wait => s.(sem := s.sem - 1, childPc := Filling)
    case WaitFails => s.(childPc := Filling)
    case ChildWrite => s.(mem := s.mem[c.child.offset + s.child := c.child.letter], child := s.child + 1)
  }

  predicate IsRun(c: Config, states: seq<State>, actions: seq<Action>) {
    && |states| == |actions| + 1
    && Init(c, states[0])
    && forall k :: 0 <= k < |actions| ==> Enabled(c, states[k], actions[k]) && states[k + 1] == Next(c, states[k], actions[k])
  }

  predicate Finished(c: Config, s: State) {
    s.parent == c.parent.len && s.child == c.child.len
  }

  function Sequential(c: Config): seq<Byte>
    requires c.Valid()
  {
    Filled(Filled(c.memory, c.parent.letter, c.parent.offset, c.parent.len), c.child.letter, c.child.offset, c.child.len)
  }

  // ----- in semaphore mode -----

  /** The child starts only when the parent has written everything. */
  ghost predicate Ordered(c: Config, s: State)
    requires c.Valid()
  {
    && s.parent <= c.parent.len && s.child <= c.child.len
    && (s.sem > 0 ==> s.posted)
    && (s.posted || s.childPc == Filling ==> s.parent == c.parent.len)
    && (s.childPc == Waiting ==> s.child == 0)
    && s.mem == Filled(Filled(c.memory, c.parent.letter, c.parent.offset, s.parent), c.child.letter, c.child.offset, s.child)
  }

  /** Step `n` is a sem_wait() that failed while the parent still had something to write. */
  predicate EarlyFailure(c: Config, states: seq<State>, actions: seq<Action>, n: nat) {
    n < |actions| && n < |states| && actions[n] == WaitFails && states[n].parent < c.parent.len
  }

  lemma {:induction false} ReachableOrdered(c: Config, states: seq<State>, actions: seq<Action>, k: nat)
    requires c.Valid() && c.useSemaphore && IsRun(c, states, actions) && k < |states|
    requires forall n :: 0 <= n < k ==> !EarlyFailure(c, states, actions, n)
    ensures Ordered(c, states[k])
  {
    if k > 0 {
      ReachableOrdered(c, states, actions, k - 1);
      assert !EarlyFailure(c, states, actions, k - 1);
    }
  }

  // ----- unordered: without it, or after an early failure -----

  predicate In(r: Range, done: nat, i: nat) {
    r.offset <= i < r.offset + done
  }

  /** Each byte is what its writers, if it had any, wrote. */
  predicate CellOk(c: Config, s: State, i: nat)
    requires i < |s.mem| == |c.memory|
  {
    var p, q := In(c.parent, s.parent, i), In(c.child, s.child, i);
    if p && q then s.mem[i] == c.parent.letter || s.mem[i] == c.child.letter
    else s.mem[i] == if p then c.parent.letter else if q then c.child.letter else c.memory[i]
  }

  lemma {:induction false} CellsInAnyRun(c: Config, states: seq<State>, actions: seq<Action>, k: nat)
    requires c.Valid() && IsRun(c, states, actions) && k < |states|
    ensures var s := states[k];
      && |s.mem| == |c.memory| && s.parent <= c.parent.len && s.child <= c.child.len
      && forall i :: 0 <= i < |s.mem| ==> CellOk(c, s, i)
  {
    if k > 0 {
      CellsInAnyRun(c, states, actions, k - 1);
      var s, t := states[k - 1], states[k];
      forall i | 0 <= i < |t.mem| ensures CellOk(c, t, i) {
        assert CellOk(c, s, i);
      }
    }
  }

  // ----- every run ends -----

  function One(b: bool): nat { if b then 1 else 0 }

  ghost predicate Signalling(c: Config, s: State) {
    && (s.childPc == Waiting ==> c.useSemaphore && s.sem == One(s.posted))
    && (s.posted ==> c.useSemaphore && s.parent == c.parent.len)
  }

  /** The semaphore is the posts less the waits, and every other step so far wrote a byte. */
  lemma {:induction false} StepsSoFar(c: Config, states: seq<State>, actions: seq<Action>, k: nat)
    requires c.Valid() && IsRun(c, states, actions) && k < |states|
    ensures var s := states[k];
      && Signalling(c, s)
      && k == s.parent + s.child + One(s.posted) + One(c.useSemaphore && s.childPc == Filling)
      && s.sem == One(s.posted) - One(Wait in actions[..k])
  {
    if k > 0 {
      StepsSoFar(c, states, actions, k - 1);
      assert actions[..k] == actions[..k - 1] + [actions[k - 1]];
    }
  }

  /**
   Nobody waits for ever: a run, which has at most one step per byte and two for the semaphore, can only stop, short of a
   failing sem_wait(), when both have written everything.
   */
  lemma RunsFinish(c: Config, states: seq<State>, actions: seq<Action>)
    requires c.Valid() && IsRun(c, states, actions)
    ensures |actions| <= c.parent.len + c.child.len + 2
    ensures (forall a :: Enabled(c, states[|actions|], a) ==> a == WaitFails) ==> Finished(c, states[|actions|])
  {
    var s := states[|actions|];
    CellsInAnyRun(c, states, actions, |actions|);
    StepsSoFar(c, states, actions, |actions|);
    if forall a :: Enabled(c, s, a) ==> a == WaitFails {
      assert !Enabled(c, s, ParentWrite) && !Enabled(c, s, Post) && !Enabled(c, s, Wait) && !Enabled(c, s, ChildWrite);
    }
  }

  // ----- the result -----

  /** The order does not matter. */
  predicate Harmless(c: Config) {
    c.parent.letter == c.child.letter || forall i :: 0 <= i < |c.memory| ==> !(In(c.parent, c.parent.len, i) && In(c.child, c.child.len, i))
  }

  /** However the two interleave, the result is still that of parent-then-child if no byte is given different letters. */
  lemma HarmlessRace(c: Config, states: seq<State>, actions: seq<Action>, k: nat)
    requires c.Valid() && IsRun(c, states, actions) && k < |states| && Finished(c, states[k]) && Harmless(c)
    ensures states[k].mem == Sequential(c)
  {
    CellsInAnyRun(c, states, actions, k);
    var s := states[k];
    forall i | 0 <= i < |s.mem| ensures s.mem[i] == Sequential(c)[i] {
      assert CellOk(c, s, i);
    }
  }

  /**
   With the semaphore every run ends in the memory of parent-then-child. The one exception: sem_wait() failed too early,
   and some byte is given different letters.
   */
  lemma SemaphoreOrders(c: Config, states: seq<State>, actions: seq<Action>, k: nat)
    requires c.Valid() && c.useSemaphore && IsRun(c, states, actions) && k < |states| && Finished(c, states[k])
    ensures states[k].mem == Sequential(c) || (!Harmless(c) && exists n: nat :: n < k && EarlyFailure(c, states, actions, n))
  {
    if Harmless(c) {
      HarmlessRace(c, states, actions, k);
    } else if forall n :: 0 <= n < k ==> !EarlyFailure(c, states, actions, n) {
      ReachableOrdered(c, states, actions, k);
    }
  }

  lemma Extend(c: Config, states: seq<State>, actions: seq<Action>, a: Action)
    returns (states': seq<State>, actions': seq<Action>)
    requires IsRun(c, states, actions) && Enabled(c, states[|states| - 1], a)
    ensures IsRun(c, states', actions') && actions' == actions + [a]
    ensures states'[|states'| - 1] == Next(c, states[|states| - 1], a)
  {
    states', actions' := states + [Next(c, states[|states| - 1], a)], actions + [a];
  }

  /**
   A run in which the child has written `m` bytes and then the parent `n`. In semaphore mode it begins with a failing
   sem_wait().
   */
  lemma {:induction false} ChildFirst(c: Config, m: nat, n: nat) returns (states: seq<State>, actions: seq<Action>)
    requires c.Valid() && m <= c.child.len && n <= c.parent.len && (n > 0 ==> m == c.child.len)
    ensures IsRun(c, states, actions)
    ensures c.useSemaphore ==> actions != [] && actions[0] == WaitFails
    ensures states[|states| - 1] ==
      State(Filled(Filled(c.memory, c.child.letter, c.child.offset, m), c.parent.letter, c.parent.offset, n), n, false, 0, Filling, m)
    decreases n, m
  {
    if n > 0 {
      states, actions := ChildFirst(c, m, n - 1);
      states, actions := Extend(c, states, actions, ParentWrite);
    } else if m > 0 {
      states, actions := ChildFirst(c, m - 1, 0);
      states, actions := Extend(c, states, actions, ChildWrite);
    } else {
      states, actions := [State(c.memory, 0, false, 0, if c.useSemaphore then Waiting else Filling, 0)], [];
      if c.useSemaphore { states, actions := Extend(c, states, actions, WaitFails); }
      assert Filled(Filled(c.memory, c.child.letter, c.child.offset, 0), c.parent.letter, c.parent.offset, 0) == c.memory;
    }
  }

  /** A finished run in which nothing ordered the child after the parent. */
  ghost predicate EndsUnordered(c: Config, states: seq<State>, actions: seq<Action>) {
    && IsRun(c, states, actions) && Finished(c, states[|actions|])
    && (c.useSemaphore ==> exists n :: EarlyFailure(c, states, actions, n))
  }

  /** If some byte is, there is a run without the order that ends in something else; in semaphore mode too. */
  lemma HarmfulRace(c: Config) returns (states: seq<State>, actions: seq<Action>)
    requires c.Valid() && !Harmless(c)
    ensures EndsUnordered(c, states, actions) && states[|actions|].mem != Sequential(c)
  {
    states, actions := ChildFirst(c, c.child.len, c.parent.len);
    var i: nat :| i < |c.memory| && In(c.parent, c.parent.len, i) && In(c.child, c.child.len, i);
    assert states[|actions|].mem[i] != Sequential(c)[i];
    if c.useSemaphore { assert EarlyFailure(c, states, actions, 0); }
  }

  /** In either mode: all the unordered runs end as the ordered ones do if and only if no byte is given different letters. */
  lemma RaceHarmlessExactly(c: Config)
    requires c.Valid()
    ensures Harmless(c) <==> forall states: seq<State>, actions: seq<Action> ::
              EndsUnordered(c, states, actions) ==> states[|actions|].mem == Sequential(c)
  {
    if Harmless(c) {
      forall states: seq<State>, actions: seq<Action> | EndsUnordered(c, states, actions)
        ensures states[|actions|].mem == Sequential(c)
      {
        HarmlessRace(c, states, actions, |actions|);
      }
    } else {
      var states, actions := HarmfulRace(c);
    }
  }
}
