/**
 The two matrix multiplications of pthreads/speed_thrdprcs_simple/matrixmul: one process, and a thread per block of rows.

 The factors are read-only functions of row and column. `mac` is what `c + a * b` computes; nothing is assumed about it,
 so that every result here holds for wrapping 32-bit arithmetic as well as for unbounded integers. A step of a thread
 is one load or one store of an element of the shared result, which starts out as zero.
 */
module MatMul {
  import opened Sums

  type Matrix = (nat, nat) -> int
  type Mac = (int, int, int) -> int

  /** The first `k` terms of element (i, j) of the product, accumulated from the left. */
  function Dot(mac: Mac, a: Matrix, b: Matrix, i: nat, j: nat, k: nat): int {
    if k == 0 then 0 else mac(Dot(mac, a, b, i, j, k - 1), a(i, k - 1), b(k - 1, j))
  }

  ghost function UpTo(n: nat): seq<nat> {
    if n == 0 then [] else UpTo(n - 1) + [n - 1]
  }

  ghost function Term(a: Matrix, b: Matrix, i: nat, j: nat): nat -> int {
    (k: nat) => a(i, k) * b(k, j)
  }

  /** In ordinary arithmetic that is the sum of the products of row i and column j. */
  lemma {:induction false} DotIsSumOfProducts(a: Matrix, b: Matrix, i: nat, j: nat, n: nat)
    ensures Dot((c, x, y) => c + x * y, a, b, i, j, n) == Sum(Term(a, b, i, j), UpTo(n))
  {
    if n > 0 {
      DotIsSumOfProducts(a, b, i, j, n - 1);
      assert UpTo(n)[..|UpTo(n)| - 1] == UpTo(n - 1);
    }
  }

  // ----- one process -----

  /** The triple loop over the rows from `lo` to `hi`: the serial program's, and one thread's when left alone. */
  method MultiplyRows(mac: Mac, a: Matrix, b: Matrix, n: nat, c: array2<int>, lo: nat, hi: nat)
    requires c.Length0 == c.Length1 == n && lo <= hi <= n
    requires forall i, j :: lo <= i < hi && 0 <= j < n ==> c[i, j] == 0
    modifies c
    ensures forall i: nat, j: nat :: i < n && j < n ==>
              c[i, j] == if lo <= i < hi then Dot(mac, a, b, i, j, n) else old(c[i, j])
  {
    for i := lo to hi
      invariant forall r: nat, j: nat :: r < n && j < n ==>
                  c[r, j] == if lo <= r < i then Dot(mac, a, b, r, j, n) else old(c[r, j])
    {
      for j := 0 to n
        invariant forall r: nat, q: nat :: r < n && q < n ==>
                    c[r, q] == if lo <= r < i || (r == i && q < j) then Dot(mac, a, b, r, q, n) else old(c[r, q])
      {
        for k := 0 to n
          invariant forall r: nat, q: nat :: r < n && q < n && !(r == i && q == j) ==>
                      c[r, q] == if lo <= r < i || (r == i && q < j) then Dot(mac, a, b, r, q, n) else old(c[r, q])
          invariant c[i, j] == Dot(mac, a, b, i, j, k)
        {
          c[i, j] := mac(c[i, j], a(i, k), b(k, j));
        }
      }
    }
  }

  method Serial(mac: Mac, a: Matrix, b: Matrix, n: nat) returns (c: array2<int>)
    ensures c.Length0 == c.Length1 == n
    ensures forall i: nat, j: nat :: i < n && j < n ==> c[i, j] == Dot(mac, a, b, i, j, n)
  {
    c := new int[n, n]((i, j) => 0);
    MultiplyRows(mac, a, b, n, c, 0, n);
  }

  // ----- threads -----

  type Positive = x: nat | x > 0 witness 1

  datatype Problem = Problem(mac: Mac, a: Matrix, b: Matrix, n: nat, nthreads: Positive) {
    /** Rows per thread. */
    function Block(): nat { n / nthreads }
  }

  /** A thread's loop variables and, between a load and a store, its register. */
  datatype Thread = Thread(start: nat, i: nat, j: nat, k: nat, loaded: bool, reg: int)

  /** Elements of the result that were never written are zero. */
  datatype State = State(c: map<(nat, nat), int>, threads: seq<Thread>)

  datatype Action = Load(t: nat) | Store(t: nat)

  function Get(c: map<(nat, nat), int>, i: nat, j: nat): int {
    if (i, j) in c then c[(i, j)] else 0
  }

  ghost predicate Init(p: Problem, s: State) {
    s == State(map[], seq(p.nthreads, t requires t >= 0 => Thread(t * p.Block(), t * p.Block(), 0, 0, false, 0)))
  }

  predicate Working(p: Problem, s: State, t: nat) {
    t < |s.threads| && s.threads[t].i < s.threads[t].start + p.Block()
  }

  predicate Enabled(p: Problem, s: State, a: Action) {
    Working(p, s, a.t) && s.threads[a.t].loaded == a.Store?
  }

  /** The loop variables after the body of the innermost loop. */
  function Advanced(n: nat, th: Thread): Thread {
    if th.k + 1 < n then th.(k := th.k + 1, loaded := false)
    else if th.j + 1 < n then th.(j := th.j + 1, k := 0, loaded := false)
    else th.(i := th.i + 1, j := 0, k := 0, loaded := false)
  }

  function Next(p: Problem, s: State, a: Action): State
    requires Enabled(p, s, a)
  {
    var th := s.threads[a.t];
    match a
    case Load(t) => s.(threads := s.threads[t := th.(loaded := true, reg := Get(s.c, th.i, th.j))])
    case Store(t) =>
      State(s.c[(th.i, th.j) := p.mac(th.reg, p.a(th.i, th.k), p.b(th.k, th.j))], s.threads[t := Advanced(p.n, th)])
  }

  ghost predicate IsRun(p: Problem, states: seq<State>, actions: seq<Action>) {
    && |states| == |actions| + 1
    && Init(p, states[0])
    && forall k :: 0 <= k < |actions| ==> Enabled(p, states[k], actions[k]) && states[k + 1] == Next(p, states[k], actions[k])
  }

  // ----- invariant -----

  predicate Owns(p: Problem, th: Thread, i: nat) {
    th.start <= i < th.start + p.Block()
  }

  /** How many terms of element (i, j) the thread has added. */
  function Added(n: nat, th: Thread, i: nat, j: nat): nat {
    if i < th.i || (i == th.i && j < th.j) then n else if i == th.i && j == th.j then th.k else 0
  }

  ghost predicate ThreadOk(p: Problem, s: State, th: Thread) {
    && th.start <= th.i <= th.start + p.Block() <= p.n
    && (if th.i < th.start + p.Block() then th.j < p.n && th.k < p.n else th.j == th.k == 0 && !th.loaded)
    && (th.loaded ==> th.reg == Get(s.c, th.i, th.j))
    && forall i: nat, j: nat :: Owns(p, th, i) && j < p.n ==> Get(s.c, i, j) == Dot(p.mac, p.a, p.b, i, j, Added(p.n, th, i, j))
  }

  ghost predicate Layout(p: Problem, threads: seq<Thread>) {
    && |threads| == p.nthreads
    && (forall t :: 0 <= t < |threads| ==> threads[t].start == t * p.Block())
    && (forall t, u :: 0 <= t < u < |threads| ==> threads[t].start + p.Block() <= threads[u].start)
  }

  ghost predicate Inv(p: Problem, s: State) {
    && Layout(p, s.threads)
    && (forall t :: 0 <= t < |s.threads| ==> ThreadOk(p, s, s.threads[t]))
    && (forall i, j :: (i, j) in s.c ==> exists t :: 0 <= t < |s.threads| && Owns(p, s.threads[t], i))
  }

  lemma BlocksApart(t: nat, u: nat, block: nat)
    requires t < u
    ensures t * block + block <= u * block
  {
    assert u * block == (t + 1) * block + (u - t - 1) * block;
  }

  lemma BlocksFit(p: Problem, t: nat)
    requires t < p.nthreads
    ensures t * p.Block() + p.Block() <= p.nthreads * p.Block() <= p.n
  {
    BlocksApart(t, p.nthreads, p.Block());
  }

  lemma InitInv(p: Problem, s: State)
    requires Init(p, s)
    ensures Inv(p, s)
  {
    forall t, u | 0 <= t < u < |s.threads| ensures s.threads[t].start + p.Block() <= s.threads[u].start {
      BlocksApart(t, u, p.Block());
    }
    forall t | 0 <= t < |s.threads| ensures ThreadOk(p, s, s.threads[t]) {
      BlocksFit(p, t);
    }
  }

  /** What a thread does to itself. */
  lemma OwnStep(p: Problem, s: State, a: Action)
    requires Enabled(p, s, a) && ThreadOk(p, s, s.threads[a.t])
    ensures ThreadOk(p, Next(p, s, a), Next(p, s, a).threads[a.t])
  {
    var t := Next(p, s, a);
    var th, th' := s.threads[a.t], t.threads[a.t];
    forall i: nat, j: nat | Owns(p, th', i) && j < p.n
      ensures Get(t.c, i, j) == Dot(p.mac, p.a, p.b, i, j, Added(p.n, th', i, j))
    {
      assert Owns(p, th, i);
      if a.Store? && i == th.i && j == th.j {
        assert Added(p.n, th', i, j) == th.k + 1;
      } else {
        assert Added(p.n, th', i, j) == Added(p.n, th, i, j);
      }
    }
  }

  /** A store is to a row of the storing thread, so that the other threads do not notice. */
  lemma OtherStep(p: Problem, s: State, a: Action, th: Thread)
    requires Enabled(p, s, a) && ThreadOk(p, s, s.threads[a.t]) && ThreadOk(p, s, th)
    requires th.start + p.Block() <= s.threads[a.t].start || s.threads[a.t].start + p.Block() <= th.start
    ensures ThreadOk(p, Next(p, s, a), th)
  {
  }

  lemma StepKeepsLayout(p: Problem, s: State, a: Action)
    requires Layout(p, s.threads) && Enabled(p, s, a)
    ensures Layout(p, Next(p, s, a).threads)
  {
    var t := Next(p, s, a);
    assert forall u :: 0 <= u < |t.threads| ==> t.threads[u].start == s.threads[u].start;
  }

  lemma StepKeepsThreads(p: Problem, s: State, a: Action, u: nat)
    requires Inv(p, s) && Enabled(p, s, a) && u < |s.threads|
    ensures ThreadOk(p, Next(p, s, a), Next(p, s, a).threads[u])
  {
    assert ThreadOk(p, s, s.threads[a.t]) && ThreadOk(p, s, s.threads[u]);
    if u == a.t { OwnStep(p, s, a); } else { OtherStep(p, s, a, s.threads[u]); }
  }

  lemma StepKeepsRows(p: Problem, s: State, a: Action, i: nat, j: nat) returns (u: nat)
    requires Inv(p, s) && Enabled(p, s, a) && (i, j) in Next(p, s, a).c
    ensures u < |s.threads| && Owns(p, s.threads[u], i)
  {
    if (i, j) in s.c {
      u :| u < |s.threads| && Owns(p, s.threads[u], i);
    } else {
      u := a.t;
      assert ThreadOk(p, s, s.threads[u]);
    }
  }

  lemma StepKeepsInv(p: Problem, s: State, a: Action)
    requires Inv(p, s) && Enabled(p, s, a)
    ensures Inv(p, Next(p, s, a))
  {
    var t := Next(p, s, a);
    StepKeepsLayout(p, s, a);
    forall u | 0 <= u < |t.threads| ensures ThreadOk(p, t, t.threads[u]) {
      StepKeepsThreads(p, s, a, u);
    }
    forall i, j | (i, j) in t.c ensures exists u :: 0 <= u < |t.threads| && Owns(p, t.threads[u], i) {
      var u := StepKeepsRows(p, s, a, i, j);
      assert Owns(p, t.threads[u], i);
    }
  }

  lemma {:induction false} Reachable(p: Problem, states: seq<State>, actions: seq<Action>, k: nat)
    requires IsRun(p, states, actions) && k < |states|
    ensures Inv(p, states[k])
  {
    if k == 0 {
      InitInv(p, states[0]);
    } else {
      Reachable(p, states, actions, k - 1);
      StepKeepsInv(p, states[k - 1], actions[k - 1]);
    }
  }

  // ----- what holds of every run -----

  ghost predicate Joined(p: Problem, s: State) {
    forall t :: 0 <= t < |s.threads| ==> !Working(p, s, t)
  }

  // ----- termination -----

  /** a * n + b, by addition. */
  function Flat(a: nat, n: nat, b: nat): nat {
    if a == 0 then b else n + Flat(a - 1, n, b)
  }

  lemma {:induction false} FlatIsProduct(a: nat, n: nat, b: nat)
    ensures Flat(a, n, b) == a * n + b
  {
    if a > 0 {
      FlatIsProduct(a - 1, n, b);
      assert a * n == (a - 1) * n + n;
    }
  }

  /** Counting on: within the row, or from its last place to the first of the next. */
  lemma {:induction false} FlatNext(a: nat, n: nat, b: nat)
    requires b < n
    ensures Flat(a, n, b) + 1 == if b + 1 < n then Flat(a, n, b + 1) else Flat(a + 1, n, 0)
  {
    if a > 0 { FlatNext(a - 1, n, b); }
  }

  lemma {:induction false} FlatBound(a: nat, n: nat, b: nat, rows: nat)
    requires a < rows && b < n
    ensures Flat(a, n, b) < Flat(rows, n, 0)
  {
    if a > 0 {
      FlatBound(a - 1, n, b, rows - 1);
    }
  }

  /** The innermost iterations before this one. */
  function Iterations(n: nat, th: Thread): nat {
    Flat(Flat(if th.i >= th.start then th.i - th.start else 0, n, th.j), n, th.k)
  }

  /** The loads and stores a thread has made. */
  ghost function StepsMade(n: nat): Thread -> int {
    (th: Thread) => 2 * Iterations(n, th) + if th.loaded then 1 else 0
  }

  /** The loads and stores it has to make. */
  ghost function StepsInAll(p: Problem): (r: nat) {
    2 * Flat(Flat(p.Block(), p.n, 0), p.n, 0)
  }

  lemma StepsInAllIsCube(p: Problem)
    ensures StepsInAll(p) == 2 * (p.Block() * p.n * p.n)
  {
    FlatIsProduct(p.Block(), p.n, 0);
    FlatIsProduct(p.Block() * p.n, p.n, 0);
  }

  lemma AdvancedCounts(n: nat, th: Thread)
    requires th.start <= th.i && th.j < n && th.k < n
    ensures Iterations(n, Advanced(n, th)) == Iterations(n, th) + 1
  {
    var row := th.i - th.start;
    FlatNext(row, n, th.j);
    FlatNext(Flat(row, n, th.j), n, th.k);
  }

  /** A thread has made all its steps exactly when it is through its rows. */
  lemma StepsBound(p: Problem, s: State, th: Thread)
    requires ThreadOk(p, s, th)
    ensures StepsMade(p.n)(th) <= StepsInAll(p)
    ensures StepsMade(p.n)(th) == StepsInAll(p) <==> th.i == th.start + p.Block()
  {
    IterationsBound(p.n, p.Block(), th);
  }

  lemma IterationsBound(n: nat, block: nat, th: Thread)
    requires th.start <= th.i <= th.start + block
    requires if th.i < th.start + block then th.j < n && th.k < n else th.j == th.k == 0
    ensures Iterations(n, th) <= Flat(Flat(block, n, 0), n, 0)
    ensures Iterations(n, th) == Flat(Flat(block, n, 0), n, 0) <==> th.i == th.start + block
  {
    if th.i < th.start + block {
      var row := th.i - th.start;
      FlatBound(row, n, th.j, block);
      FlatBound(Flat(row, n, th.j), n, th.k, Flat(block, n, 0));
    }
  }

  lemma ThreadCounts(p: Problem, s: State, a: Action)
    requires Enabled(p, s, a) && ThreadOk(p, s, s.threads[a.t])
    ensures StepsMade(p.n)(Next(p, s, a).threads[a.t]) == StepsMade(p.n)(s.threads[a.t]) + 1
  {
    if a.Store? { AdvancedCounts(p.n, s.threads[a.t]); }
  }

  lemma StepCounts(p: Problem, s: State, a: Action, f: Thread -> int)
    requires Enabled(p, s, a) && f(Next(p, s, a).threads[a.t]) == f(s.threads[a.t]) + 1
    ensures Sum(f, Next(p, s, a).threads) == Sum(f, s.threads) + 1
  {
    SumUpdate(f, s.threads, a.t, Next(p, s, a).threads[a.t]);
  }

  lemma NoStepsYet(p: Problem, s: State)
    requires Init(p, s)
    ensures Sum(StepsMade(p.n), s.threads) == 0
  {
    forall t | 0 <= t < |s.threads| ensures StepsMade(p.n)(s.threads[t]) == 0 {
      assert Iterations(p.n, s.threads[t]) == Flat(Flat(0, p.n, 0), p.n, 0);
    }
    SumConstant(StepsMade(p.n), s.threads, 0);
  }

  lemma {:induction false} RunLength(p: Problem, states: seq<State>, actions: seq<Action>, k: nat)
    requires IsRun(p, states, actions) && k < |states|
    ensures Sum(StepsMade(p.n), states[k].threads) == k
  {
    if k == 0 {
      NoStepsYet(p, states[0]);
    } else {
      RunLength(p, states, actions, k - 1);
      Reachable(p, states, actions, k - 1);
      ThreadCounts(p, states[k - 1], actions[k - 1]);
      StepCounts(p, states[k - 1], actions[k - 1], StepsMade(p.n));
    }
  }

  /**
   Every run ends, whatever the scheduler does: it has at most two steps per innermost iteration of each thread, all
   threads are through exactly when it has as many, and until then some thread can make a step.
   */
  lemma RunsEnd(p: Problem, states: seq<State>, actions: seq<Action>)
    requires IsRun(p, states, actions)
    ensures |actions| <= p.nthreads * StepsInAll(p)
    ensures Joined(p, states[|actions|]) <==> |actions| == p.nthreads * StepsInAll(p)
    ensures Joined(p, states[|actions|]) <==> forall a :: !Enabled(p, states[|actions|], a)
  {
    var s := states[|actions|];
    Reachable(p, states, actions, |actions|);
    RunLength(p, states, actions, |actions|);
    forall t | 0 <= t < |s.threads|
      ensures StepsMade(p.n)(s.threads[t]) <= StepsInAll(p)
      ensures StepsMade(p.n)(s.threads[t]) == StepsInAll(p) <==> !Working(p, s, t)
    {
      StepsBound(p, s, s.threads[t]);
    }
    SumBound(StepsMade(p.n), s.threads, StepsInAll(p));
    forall t: nat | Working(p, s, t) ensures exists a :: Enabled(p, s, a) {
      assert Enabled(p, s, if s.threads[t].loaded then Store(t) else Load(t));
    }
  }

  // ----- the result -----

  /** Under every interleaving the threads leave the product in the rows they were given, and zero in the rest. */
  lemma ThreadedResult(p: Problem, states: seq<State>, actions: seq<Action>, k: nat, i: nat, j: nat)
    requires IsRun(p, states, actions) && k < |states| && Joined(p, states[k]) && i < p.n && j < p.n
    ensures Get(states[k].c, i, j) == if i < p.nthreads * p.Block() then Dot(p.mac, p.a, p.b, i, j, p.n) else 0
  {
    var s := states[k];
    Reachable(p, states, actions, k);
    if i < p.nthreads * p.Block() {
      var t := BlockOf(p, i);
      assert ThreadOk(p, s, s.threads[t]) && !Working(p, s, t);
      assert Owns(p, s.threads[t], i);
    } else if (i, j) in s.c {
      var t :| 0 <= t < |s.threads| && Owns(p, s.threads[t], i);
      BlocksFit(p, t);
      assert false;
    }
  }

  lemma BlockOf(p: Problem, i: nat) returns (t: nat)
    requires i < p.nthreads * p.Block()
    ensures t < p.nthreads && t * p.Block() <= i < t * p.Block() + p.Block()
  {
    t := 0;
    while i >= t * p.Block() + p.Block()
      invariant t < p.nthreads && t * p.Block() <= i
      decreases p.nthreads - t
    {
      assert (t + 1) * p.Block() == t * p.Block() + p.Block();
      t := t + 1;
    }
  }

  /** No row is written by two threads. */
  lemma OneWriterPerRow(p: Problem, states: seq<State>, actions: seq<Action>, k: nat, m: nat)
    requires IsRun(p, states, actions) && k < |actions| && m < |actions| && actions[k].Store? && actions[m].Store?
    requires states[k].threads[actions[k].t].i == states[m].threads[actions[m].t].i
    ensures actions[k].t == actions[m].t
  {
    Reachable(p, states, actions, k);
    Reachable(p, states, actions, m);
    var x, y := states[k].threads[actions[k].t], states[m].threads[actions[m].t];
    assert ThreadOk(p, states[k], x) && ThreadOk(p, states[m], y);
    assert Owns(p, x, x.i) && Owns(p, y, y.i);
    if actions[k].t < actions[m].t { BlocksApart(actions[k].t, actions[m].t, p.Block()); }
    if actions[m].t < actions[k].t { BlocksApart(actions[m].t, actions[k].t, p.Block()); }
  }

  /** So the threads agree with the serial program if their number divides that of the rows. */
  lemma ThreadedEqualsSerial(p: Problem, states: seq<State>, actions: seq<Action>, k: nat, i: nat, j: nat)
    requires IsRun(p, states, actions) && k < |states| && Joined(p, states[k]) && i < p.n && j < p.n
    requires p.n % p.nthreads == 0
    ensures Get(states[k].c, i, j) == Dot(p.mac, p.a, p.b, i, j, p.n)
  {
    ThreadedResult(p, states, actions, k, i, j);
    assert p.n == p.nthreads * p.Block();
  }

  // ----- with the programs' own data -----

  /** n by n ones, in ordinary arithmetic. */
  ghost function Ones(n: nat, nthreads: Positive): Problem {
    Problem((c, x, y) => c + x * y, (i, j) => 1, (i, j) => 1, n, nthreads)
  }

  lemma {:induction false} DotOnes(n: nat, nthreads: Positive, i: nat, j: nat, k: nat)
    ensures var p := Ones(n, nthreads); Dot(p.mac, p.a, p.b, i, j, k) == k
  {
    if k > 0 { DotOnes(n, nthreads, i, j, k - 1); }
  }

  /** On their own data the two programs agree if and only if the number of threads divides the size. */
  lemma AgreeExactlyWhenDivisible(n: nat, nthreads: Positive, states: seq<State>, actions: seq<Action>, k: nat)
    requires IsRun(Ones(n, nthreads), states, actions) && k < |states| && Joined(Ones(n, nthreads), states[k])
    ensures (forall i, j :: 0 <= i < n && 0 <= j < n ==> Get(states[k].c, i, j) == n) <==> n % nthreads == 0
  {
    var p := Ones(n, nthreads);
    forall i: nat, j: nat | i < n && j < n
      ensures Get(states[k].c, i, j) == if i < p.nthreads * p.Block() then n else 0
    {
      ThreadedResult(p, states, actions, k, i, j);
      DotOnes(n, nthreads, i, j, n);
    }
    assert n == nthreads * p.Block() + n % nthreads;
    if n % nthreads != 0 {
      assert Get(states[k].c, n - 1, n - 1) == 0;
    }
  }

  /** As configured, 2048 rows and 12 threads, they do not: the last eight rows stay zero. */
  lemma LastRowsMissing(states: seq<State>, actions: seq<Action>, k: nat, i: nat, j: nat)
    requires IsRun(Ones(2048, 12), states, actions) && k < |states| && Joined(Ones(2048, 12), states[k])
    requires i < 2048 && j < 2048
    ensures Get(states[k].c, i, j) == if i < 2040 then 2048 else 0
  {
    ThreadedResult(Ones(2048, 12), states, actions, k, i, j);
    DotOnes(2048, 12, i, j, 2048);
  }
}
