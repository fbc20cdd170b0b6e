/** System V semaphore sets of one semaphore, as semop() and process exit change them. */
module SysVSem {
  type Pid = nat

  const SEMVMX := 32767

  /** One `struct sembuf` for semaphore 0. */
  datatype SemBuf = SemBuf(op: int, noWait: bool, undo: bool)

  /** `stamped` is sem_otime != 0; `undo` holds the adjustments the kernel applies when a process exits. */
  datatype SemSet = SemSet(value: int, stamped: bool, undo: map<Pid, int>) {
    function Adj(p: Pid): int {
      if p in undo then undo[p] else 0
    }
  }

  datatype Outcome = Applied(sems: SemSet) | Blocked | Failed

  /** What a key names. */
  datatype Key = Absent | Present(sems: SemSet)

  const Created := SemSet(0, false, map[])

  /** semop(): all the operations or none, and a time stamp if they are performed. */
  function SemOp(s: SemSet, p: Pid, ops: seq<SemBuf>): Outcome {
    match TryAll(s.value, s.Adj(p), ops)
    case Fits(value, adj) => Applied(SemSet(value, true, s.undo[p := adj]))
    case Wait => Blocked
    case Error => Failed
  }

  datatype Attempt = Fits(value: int, adj: int) | Wait | Error

  function TryAll(value: int, adj: int, ops: seq<SemBuf>): Attempt
    decreases |ops|
  {
    if ops == [] then Fits(value, adj) else
    var o := ops[0];
    if (o.op == 0 && value != 0) || value + o.op < 0 then (if o.noWait then Error else Wait)
    else if value + o.op > SEMVMX || (o.undo && !(-SEMVMX <= adj - o.op <= SEMVMX)) then Error
    else TryAll(value + o.op, if o.undo then adj - o.op else adj, ops[1..])
  }

  ghost function Total(ops: seq<SemBuf>): int {
    if ops == [] then 0 else ops[0].op + Total(ops[1..])
  }

  ghost function UndoTotal(ops: seq<SemBuf>): int {
    if ops == [] then 0 else (if ops[0].undo then ops[0].op else 0) + UndoTotal(ops[1..])
  }

  /** An operation that has to wait at value `v`: for zero, or for enough to subtract. */
  ghost predicate Waits(v: int, o: SemBuf) {
    if o.op == 0 then v != 0 else v + o.op < 0
  }

  /** Operation `k` can be performed after those before it. */
  ghost predicate Possible(value: int, adj: int, ops: seq<SemBuf>, k: nat)
    requires k < |ops|
  {
    var v, a := value + Total(ops[..k]), adj - UndoTotal(ops[..k]);
    !Waits(v, ops[k]) && v + ops[k].op <= SEMVMX && (ops[k].undo ==> -SEMVMX <= a - ops[k].op <= SEMVMX)
  }

  lemma Shifted(value: int, adj: int, ops: seq<SemBuf>, j: nat)
    requires j + 1 < |ops|
    ensures var o := ops[0];
      && Total(ops[..j + 1]) == o.op + Total(ops[1..][..j])
      && (Possible(value, adj, ops, j + 1) <==>
            Possible(value + o.op, if o.undo then adj - o.op else adj, ops[1..], j))
  {
    assert ops[..j + 1][1..] == ops[1..][..j];
  }

  lemma {:induction false} FirstImpossible(value: int, adj: int, ops: seq<SemBuf>) returns (k: nat)
    ensures k <= |ops| && forall j :: 0 <= j < k ==> Possible(value, adj, ops, j)
    ensures k == |ops| ==> TryAll(value, adj, ops) == Fits(value + Total(ops), adj - UndoTotal(ops))
    ensures k < |ops| ==>
      && !Possible(value, adj, ops, k)
      && TryAll(value, adj, ops) == if Waits(value + Total(ops[..k]), ops[k]) && !ops[k].noWait then Wait else Error
    decreases |ops|
  {
    if ops == [] { return 0; }
    var o, rest := ops[0], ops[1..];
    assert ops[..0] == [];
    if !Possible(value, adj, ops, 0) { return 0; }
    var value', adj' := value + o.op, if o.undo then adj - o.op else adj;
    var n := FirstImpossible(value', adj', rest);
    k := n + 1;
    forall j | 0 <= j < k ensures Possible(value, adj, ops, j) {
      if j > 0 { Shifted(value, adj, ops, j - 1); }
    }
    if k < |ops| { Shifted(value, adj, ops, n); }
  }

  /**
   semop() is all or nothing. `k` is the first operation that is not possible after those before it. If there is none,
   all are performed; otherwise none is, and operation `k` decides whether the call blocks or fails.
   */
  lemma SemOpMeaning(s: SemSet, p: Pid, ops: seq<SemBuf>) returns (k: nat)
    ensures k <= |ops| && forall j :: 0 <= j < k ==> Possible(s.value, s.Adj(p), ops, j)
    ensures k == |ops| ==> SemOp(s, p, ops).Applied? && var t := SemOp(s, p, ops).sems;
      && t.value == s.value + Total(ops) && t.stamped
      && forall q :: t.Adj(q) == if q == p then s.Adj(p) - UndoTotal(ops) else s.Adj(q)
    ensures k < |ops| ==>
      && !Possible(s.value, s.Adj(p), ops, k)
      && SemOp(s, p, ops) == if Waits(s.value + Total(ops[..k]), ops[k]) && !ops[k].noWait then Blocked else Failed
  {
    k := FirstImpossible(s.value, s.Adj(p), ops);
  }

  /** Process exit, orderly or not. */
  function Exit(s: SemSet, p: Pid): SemSet {
    var v := s.value + s.Adj(p);
    SemSet(if v < 0 then 0 else if v > SEMVMX then SEMVMX else v, s.stamped, s.undo - {p})
  }

  /** The adjustments of `p` are applied, as far as the range of values allows, and forgotten; nobody else's are touched. */
  lemma ExitMeaning(s: SemSet, p: Pid)
    ensures var t, v := Exit(s, p), s.value + s.Adj(p);
      && 0 <= t.value <= SEMVMX && (0 <= v <= SEMVMX ==> t.value == v)
      && (v < 0 ==> t.value == 0) && (v > SEMVMX ==> t.value == SEMVMX)
      && t.stamped == s.stamped && forall q :: t.Adj(q) == if q == p then 0 else s.Adj(q)
  {
  }

  /**
   A semaphore set as one process sees it: `seen` is what the set was when its last semop() got through, the other
   processes having changed it at will before. `applied` counts how often this process had operations performed,
   `errors` how often a call failed for another reason than EINTR, and `patience` bounds the interruptions to come.
   */
  class SemId {
    var sems: SemSet
    ghost var seen: SemSet
    ghost var applied: nat
    ghost var errors: nat
    var patience: nat

    /** semop(): 0, or -1 with EINTR or another error. */
    method Semop(p: Pid, ops: seq<SemBuf>) returns (r: int, eintr: bool)
      modifies this
      ensures r == 0 || r == -1
      ensures r == 0 ==> SemOp(seen, p, ops) == Applied(sems) && seen.Adj(p) == old(sems.Adj(p))
      ensures r == -1 ==> sems.Adj(p) == old(sems.Adj(p))
      ensures applied == old(applied) + (if r == 0 then 1 else 0)
      ensures errors == old(errors) + (if r == -1 && !eintr then 1 else 0)
      ensures patience <= old(patience) && (r == -1 && eintr ==> patience < old(patience))
    {
      var adj := sems.Adj(p);
      sems := *;
      sems := sems.(undo := sems.undo[p := adj]);
      r, eintr, seen := -1, *, sems;
      match SemOp(sems, p, ops) {
        case Applied(after) => r, sems, applied := 0, after, applied + 1;
        case Blocked => if eintr && patience > 0 { patience := patience - 1; } else { eintr, errors := false, errors + 1; }
        case Failed => eintr, errors := false, errors + 1;
      }
    }

    /**
     r_semop(): in spite of the restarts the operations are performed exactly once, or, on an error other than EINTR,
     not at all.
     */
    method RSemop(p: Pid, ops: seq<SemBuf>) returns (r: int)
      modifies this
      ensures r == 0 || r == -1
      ensures errors == old(errors) + (if r == -1 then 1 else 0)
      ensures r == 0 ==> SemOp(seen, p, ops) == Applied(sems) && seen.Adj(p) == old(sems.Adj(p))
      ensures r == -1 ==> sems.Adj(p) == old(sems.Adj(p))
      ensures applied == old(applied) + (if r == 0 then 1 else 0)
    {
      var eintr;
      r, eintr := Semop(p, ops);
      while r == -1
        invariant r == 0 || r == -1
        invariant r == 0 ==> SemOp(seen, p, ops) == Applied(sems) && seen.Adj(p) == old(sems.Adj(p))
        invariant r == -1 ==> sems.Adj(p) == old(sems.Adj(p))
        invariant applied == old(applied) + (if r == 0 then 1 else 0)
        invariant errors == old(errors) + (if r == -1 && !eintr then 1 else 0)
        decreases if r == -1 && eintr then 1 else 0, patience
      {
        if !eintr { return -1; }
        r, eintr := Semop(p, ops);
      }
    }
  }
}

/**
 The lock that both semaphore programs are meant to be: it has at most one owner, only the owner's own
 step (unlocking, or dying) frees it, and it passes from one process to the next only by being free in between.
 */
module CrashSafeMutex {
  import opened SysVSem

  datatype Owner = Free | HeldBy(owner: Pid)

  ghost predicate Step(before: Owner, after: Owner, actor: Pid) {
    || after == before
    || (before == Free && after == HeldBy(actor))
    || (before == HeldBy(actor) && after == Free)
  }

  /** The lock passes from one process to another only after its owner has freed it. */
  lemma {:induction false} FreedInBetween(owners: seq<Owner>, actors: seq<Pid>, k: nat, m: nat) returns (n: nat)
    requires |owners| == |actors| + 1 && forall i :: 0 <= i < |actors| ==> Step(owners[i], owners[i + 1], actors[i])
    requires k <= m < |owners| && owners[k].HeldBy? && owners[m].HeldBy? && owners[k] != owners[m]
    ensures k <= n < m && owners[n] == owners[k] && owners[n + 1] == Free && actors[n] == owners[k].owner
    decreases m - k
  {
    if owners[k + 1] == owners[k] {
      n := FreedInBetween(owners, actors, k + 1, m);
    } else {
      n := k;
    }
  }
}
