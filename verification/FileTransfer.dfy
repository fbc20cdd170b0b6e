/**
 xfer_file.c in TRADITIONAL mode: the server copies a file into a socket, the client copies the socket into a file.

 The two copying loops are the same code on different descriptors, `Pump`. Running them one after the other is
 `Transfer`. `Step` interleaves them, byte counts being whatever the kernel chooses at every read and write; EINTR
 restarts a call without changing the state and so is not a step.
 */
module FileTransfer {
  import opened Bytes
  import opened RestartIO

  /** The loop of process_client() and of the client: `ok` means that it ended at end of file and not through err_exit(). */
  method Pump(from: Source, to: Sink, pageSize: nat) returns (ok: bool, total: nat)
    requires from.Valid() && pageSize > 0
    modifies from, to
    ensures from.Valid() && Moved(from.data, old(from.pos), from.pos, old(to.data), to.data)
    ensures total <= |to.data| - |old(to.data)| && from.pos - old(from.pos) <= total + pageSize
    ensures ok ==> to.data == old(to.data) + from.data[old(from.pos)..] && total == |from.data| - old(from.pos)
    ensures from.errors + to.errors == old(from.errors + to.errors) + (if ok then 0 else 1)
  {
    total := 0;
    while true
      invariant from.Valid() && Moved(from.data, old(from.pos), from.pos, old(to.data), to.data)
      invariant total == from.pos - old(from.pos) == |to.data| - |old(to.data)|
      invariant from.errors + to.errors == old(from.errors + to.errors)
      decreases |from.data| - from.pos
    {
      ghost var pos, out := from.pos, to.data;
      var rbuf := new Byte[pageSize];
      var nr := RRead(from, rbuf, pageSize);
      if nr == 0 { return true, total; }
      if nr < 0 { return false, total; }
      var nw := RWrite(to, rbuf, nr);
      assert rbuf[..|to.data| - |out|] == rbuf[..nr][..|to.data| - |out|];
      MovedBuffer(from.data, pos, from.pos, rbuf[..nr], out, to.data);
      MovedTwice(from.data, old(from.pos), pos, from.pos, old(to.data), out, to.data);
      if nw <= 0 { return false, total; }
      total := total + nr;
    }
  }

  /**
   End to end: the server's loop and then the client's, which reads what the server has written. If no call fails the
   destination is the file and both counts are its length; in any case it is a prefix of the file.
   */
  method Transfer(file: Source, wire: Sink, dest: Sink, pageSize: nat, patience: nat)
    returns (ok: bool, tsent: nat, trecv: nat, incoming: Source)
    requires pageSize > 0 && file.Valid() && file.pos == 0 && wire != dest && wire.data == dest.data == []
    modifies file, wire, dest
    ensures fresh(incoming) && incoming.data == wire.data
    ensures ok ==> dest.data == file.data && tsent == trecv == |file.data|
    ensures |dest.data| <= |file.data| && dest.data == file.data[..|dest.data|]
    ensures ok <==>
      file.errors + wire.errors + incoming.errors + dest.errors == old(file.errors + wire.errors + dest.errors)
  {
    var sent;
    sent, tsent := Pump(file, wire, pageSize);
    incoming := new Source(wire.data, patience);
    var received;
    received, trecv := Pump(incoming, dest, pageSize);
    ok := sent && received;
  }

  // ----- both processes at once -----

  /** A process: the bytes of the current chunk not yet written, the size of that chunk, the total counted, its fate. */
  datatype Status = Running | Finished | Failed
  datatype Proc = Proc(buf: seq<Byte>, chunk: nat, total: nat, status: Status)

  /** `read` bytes of `file` have been read; `wire` is in flight. */
  datatype State = State(file: seq<Byte>, read: nat, server: Proc, wire: seq<Byte>, client: Proc, dest: seq<Byte>)

  datatype Action = ServerRead(n: nat) | ServerWrite(n: nat) | ServerEof | ServerFail
                  | ClientRead(n: nat) | ClientWrite(n: nat) | ClientEof | ClientFail

  const Fresh := Proc([], 0, 0, Running)

  predicate Init(s: State) {
    s == State(s.file, 0, Fresh, [], Fresh, [])
  }

  predicate Enabled(page: nat, s: State, a: Action) {
    match a
    case ServerRead(n) => s.server.status == Running && s.server.buf == [] && 1 <= n <= page && s.read + n <= |s.file|
    case ServerWrite(n) => s.server.status == Running && s.server.buf != [] && n <= |s.server.buf|
    case ServerEof => s.server.status == Running && s.server.buf == [] && s.read == |s.file|
    case ServerFail => s.server.status == Running
    case ClientRead(n) => s.client.status == Running && s.client.buf == [] && 1 <= n <= page && n <= |s.wire|
    case ClientWrite(n) => s.client.status == Running && s.client.buf != [] && n <= |s.client.buf|
    case ClientEof => s.client.status == Running && s.client.buf == [] && s.wire == [] && s.server.status != Running
    case ClientFail => s.client.status == Running
  }

  function AfterWrite(p: Proc, n: nat): Proc
    requires n <= |p.buf|
  {
    p.(buf := p.buf[n..], total := if n == |p.buf| then p.total + p.chunk else p.total)
  }

  function Next(page: nat, s: State, a: Action): State
    requires Enabled(page, s, a) && s.read <= |s.file|
  {
    match a
    case ServerRead(n) => s.(read := s.read + n, server := s.server.(buf := s.file[s.read..s.read + n], chunk := n))
    case ServerWrite(n) => s.(wire := s.wire + s.server.buf[..n], server := AfterWrite(s.server, n))
    case ServerEof => s.(server := s.server.(status := Finished))
    case ServerFail => s.(server := s.server.(status := Failed))
    case ClientRead(n) => s.(wire := s.wire[n..], client := s.client.(buf := s.wire[..n], chunk := n))
    case ClientWrite(n) => s.(dest := s.dest + s.client.buf[..n], client := AfterWrite(s.client, n))
    case ClientEof => s.(client := s.client.(status := Finished))
    case ClientFail => s.(client := s.client.(status := Failed))
  }

  predicate IsRun(page: nat, states: seq<State>, actions: seq<Action>) {
    && |states| == |actions| + 1
    && Init(states[0])
    && forall k :: 0 <= k < |actions| ==>
         && states[k].read <= |states[k].file|
         && Enabled(page, states[k], actions[k])
         && states[k + 1] == Next(page, states[k], actions[k])
  }

  function Unwritten(p: Proc): nat {
    if p.buf == [] then 0 else p.chunk
  }

  /** Every byte read from the file is in exactly one place, in order, and is counted when its chunk is through. */
  ghost predicate Inv(s: State) {
    && s.read <= |s.file|
    && s.file[..s.read] == Pipeline(s)
    && Counted(s)
    && (s.server.status == Finished ==> s.read == |s.file| && s.server.buf == [])
    && (s.client.status == Finished ==> s.client.buf == [] && s.wire == [] && s.server.status != Running)
  }

  /** The bytes on their way, in the order in which they were read from the file. */
  function Pipeline(s: State): seq<Byte> {
    s.dest + s.client.buf + s.wire + s.server.buf
  }

  lemma Regroup(a: seq<Byte>, b: seq<Byte>, n: nat)
    requires n <= |b|
    ensures a + b[..n] + b[n..] == a + b
  {
    assert b == b[..n] + b[n..];
  }

  lemma StepKeepsOrder(page: nat, s: State, a: Action)
    requires s.read <= |s.file| && Enabled(page, s, a)
    ensures Pipeline(Next(page, s, a)) == if a.ServerRead? then Pipeline(s) + s.file[s.read..s.read + a.n] else Pipeline(s)
  {
    match a
    case ServerWrite(n) =>
      Regroup(s.dest + s.client.buf + s.wire, s.server.buf, n);
      assert s.dest + s.client.buf + (s.wire + s.server.buf[..n]) == s.dest + s.client.buf + s.wire + s.server.buf[..n];
    case ClientRead(n) => Regroup(s.dest, s.wire, n);
    case ClientWrite(n) => Regroup(s.dest, s.client.buf, n);
    case _ =>
  }

  ghost predicate Counted(s: State) {
    && s.server.total + Unwritten(s.server) == s.read
    && s.client.total + Unwritten(s.client) == |s.dest| + |s.client.buf|
    && |s.server.buf| <= s.server.chunk
    && |s.client.buf| <= s.client.chunk
  }

  lemma StepKeepsCounts(page: nat, s: State, a: Action)
    requires s.read <= |s.file| && Counted(s) && Enabled(page, s, a)
    ensures Counted(Next(page, s, a))
  {
  }

  lemma StepKeepsInv(page: nat, s: State, a: Action)
    requires Inv(s) && Enabled(page, s, a)
    ensures Inv(Next(page, s, a))
  {
    StepKeepsOrder(page, s, a);
    StepKeepsCounts(page, s, a);
    if a.ServerRead? { assert s.file[..s.read + a.n] == s.file[..s.read] + s.file[s.read..s.read + a.n]; }
  }

  lemma {:induction false} Reachable(page: nat, states: seq<State>, actions: seq<Action>, k: nat)
    requires IsRun(page, states, actions) && k < |states|
    ensures Inv(states[k]) && states[k].file == states[0].file
  {
    if k > 0 {
      Reachable(page, states, actions, k - 1);
      StepKeepsInv(page, states[k - 1], actions[k - 1]);
    }
  }

  /**
   Under every interleaving the destination is a prefix of the file. When both processes have finished it is the file,
   and tsent and trecv are its length.
   */
  lemma EndToEnd(page: nat, states: seq<State>, actions: seq<Action>, k: nat)
    requires IsRun(page, states, actions) && k < |states|
    ensures var s := states[k];
      && s.file == states[0].file
      && |s.dest| <= |s.file| && s.dest == s.file[..|s.dest|]
      && (s.server.status == Finished && s.client.status == Finished ==>
            s.dest == s.file && s.server.total == s.client.total == |s.file|)
  {
    Reachable(page, states, actions, k);
    var s := states[k];
    assert s.dest == s.file[..s.read][..|s.dest|];
    assert s.file[..|s.file|] == s.file;
  }

  // ----- progress -----

  /** Nothing more can happen, short of a failing call. */
  ghost predicate Stuck(page: nat, s: State) {
    forall a :: Enabled(page, s, a) ==> a == ServerFail || a == ClientFail
  }

  /** No deadlock: the two wait for each other only until both are done. */
  lemma StuckMeansEnded(page: nat, states: seq<State>, actions: seq<Action>, k: nat)
    requires IsRun(page, states, actions) && k < |states| && page > 0 && Stuck(page, states[k])
    ensures states[k].server.status != Running && states[k].client.status != Running
  {
    Reachable(page, states, actions, k);
    var s := states[k];
    assert !Enabled(page, s, ServerRead(1)) && !Enabled(page, s, ServerWrite(1)) && !Enabled(page, s, ServerEof);
    assert !Enabled(page, s, ClientRead(1)) && !Enabled(page, s, ClientWrite(1)) && !Enabled(page, s, ClientEof);
  }

  /** A process has failed exactly if one of its calls has. */
  lemma {:induction false} FailedExactly(page: nat, states: seq<State>, actions: seq<Action>, k: nat)
    requires IsRun(page, states, actions) && k < |states|
    ensures states[k].server.status == Failed <==> ServerFail in actions[..k]
    ensures states[k].client.status == Failed <==> ClientFail in actions[..k]
  {
    if k > 0 {
      FailedExactly(page, states, actions, k - 1);
      assert actions[..k] == actions[..k - 1] + [actions[k - 1]];
    }
  }

  /** So a run without failing calls can only stop with the whole file at its destination. */
  lemma ArrivesWithoutFailure(page: nat, states: seq<State>, actions: seq<Action>, k: nat)
    requires IsRun(page, states, actions) && k < |states| && page > 0 && Stuck(page, states[k])
    requires ServerFail !in actions[..k] && ClientFail !in actions[..k]
    ensures states[k].dest == states[0].file
    ensures states[k].server.total == states[k].client.total == |states[0].file|
  {
    StuckMeansEnded(page, states, actions, k);
    FailedExactly(page, states, actions, k);
    EndToEnd(page, states, actions, k);
  }

  function One(b: bool): nat { if b then 1 else 0 }

  /** The steps that are left at most: four for every byte, and the two ends. */
  ghost function StepsLeft(s: State): int {
    4 * (|s.file| - s.read) + 3 * |s.server.buf| + 2 * |s.wire| + |s.client.buf|
    + One(s.server.status == Running) + One(s.client.status == Running)
  }

  predicate MovesNothing(a: Action) {
    a == ServerWrite(0) || a == ClientWrite(0)
  }

  ghost function EmptyWrites(actions: seq<Action>, k: nat): nat
    requires k <= |actions|
  {
    if k == 0 then 0 else EmptyWrites(actions, k - 1) + One(MovesNothing(actions[k - 1]))
  }

  lemma StepCosts(page: nat, s: State, a: Action)
    requires s.read <= |s.file| && Enabled(page, s, a)
    ensures StepsLeft(Next(page, s, a)) <= StepsLeft(s) - 1 + One(MovesNothing(a))
  {
  }

  lemma {:induction false} StepsSoFar(page: nat, states: seq<State>, actions: seq<Action>, k: nat)
    requires IsRun(page, states, actions) && k < |states|
    ensures k + StepsLeft(states[k]) <= StepsLeft(states[0]) + EmptyWrites(actions, k)
  {
    if k > 0 {
      StepsSoFar(page, states, actions, k - 1);
      StepCosts(page, states[k - 1], actions[k - 1]);
    }
  }

  /** And every run stops, after at most four steps per byte and two more, apart from writes that move nothing. */
  lemma RunsEnd(page: nat, states: seq<State>, actions: seq<Action>)
    requires IsRun(page, states, actions)
    ensures |actions| <= 4 * |states[0].file| + 2 + EmptyWrites(actions, |actions|)
  {
    StepsSoFar(page, states, actions, |actions|);
    Reachable(page, states, actions, |actions|);
  }

  // ----- what the client knows -----

  /**
   The client alone cannot tell: when it has finished, what it has is the file exactly if the server had written every
   byte it read, and had read them all. A server that failed earlier leaves a shorter file and a client without error.
   */
  lemma FinishedClient(page: nat, states: seq<State>, actions: seq<Action>, k: nat)
    requires IsRun(page, states, actions) && k < |states| && states[k].client.status == Finished
    ensures states[k].client.total == |states[k].dest|
    ensures states[k].dest == states[k].file <==> states[k].read == |states[k].file| && states[k].server.buf == []
  {
    Reachable(page, states, actions, k);
    var s := states[k];
    assert |s.file[..s.read]| == s.read;
    assert s.file[..|s.file|] == s.file;
  }

  lemma Extend(page: nat, states: seq<State>, actions: seq<Action>, a: Action)
    returns (states': seq<State>, actions': seq<Action>)
    requires IsRun(page, states, actions) && Enabled(page, states[|actions|], a)
    ensures IsRun(page, states', actions') && states[|actions|].read <= |states[|actions|].file|
    ensures states'[|actions'|] == Next(page, states[|actions|], a)
  {
    Reachable(page, states, actions, |actions|);
    states', actions' := states + [Next(page, states[|actions|], a)], actions + [a];
  }

  /** The first `n` bytes have gone all the way, one by one. */
  function Through(file: seq<Byte>, n: nat): State
    requires n <= |file|
  {
    var p := Proc([], if n == 0 then 0 else 1, n, Running);
    State(file, n, p, [], p, file[..n])
  }

  lemma {:induction false} OneByOne(page: nat, file: seq<Byte>, n: nat) returns (states: seq<State>, actions: seq<Action>)
    requires n <= |file| && page > 0
    ensures IsRun(page, states, actions) && states[|actions|] == Through(file, n)
  {
    if n == 0 {
      states, actions := [Through(file, 0)], [];
    } else {
      states, actions := OneByOne(page, file, n - 1);
      OneByte(page, file, n - 1);
      states, actions := Extend(page, states, actions, ServerRead(1));
      states, actions := Extend(page, states, actions, ServerWrite(1));
      states, actions := Extend(page, states, actions, ClientRead(1));
      states, actions := Extend(page, states, actions, ClientWrite(1));
    }
  }

  ghost predicate Leads(page: nat, s: State, a: Action, t: State) {
    s.read <= |s.file| && Enabled(page, s, a) && Next(page, s, a) == t
  }

  lemma OneByte(page: nat, file: seq<Byte>, n: nat)
    requires n < |file| && page > 0
    ensures
      var s, x, q := Through(file, n), [file[n]], Proc([], 1, n + 1, Running);
      var read := State(file, n + 1, Proc(x, 1, n, Running), [], s.client, file[..n]);
      var sent := State(file, n + 1, q, x, s.client, file[..n]);
      var received := State(file, n + 1, q, [], Proc(x, 1, n, Running), file[..n]);
      && Leads(page, s, ServerRead(1), read)
      && Leads(page, read, ServerWrite(1), sent)
      && Leads(page, sent, ClientRead(1), received)
      && Leads(page, received, ClientWrite(1), Through(file, n + 1))
  {
    assert file[n..n + 1] == [file[n]];
    assert file[..n + 1] == file[..n] + [file[n]];
  }

  /**
   For every file and every prefix of it there is a run in which the client finishes with just that prefix, the server
   having failed with the bytes up to `m` read and not yet written.
   */
  lemma UndetectedTruncation(page: nat, file: seq<Byte>, n: nat, m: nat) returns (states: seq<State>, actions: seq<Action>)
    requires n <= m <= |file| && m - n <= page && page > 0
    ensures IsRun(page, states, actions)
    ensures var s := states[|actions|]; s.client.status == Finished && s.file == file && s.dest == file[..n] && s.read == m
  {
    states, actions := OneByOne(page, file, n);
    if n < m { states, actions := Extend(page, states, actions, ServerRead(m - n)); }
    states, actions := Extend(page, states, actions, ServerFail);
    states, actions := Extend(page, states, actions, ClientEof);
  }

  /** And one in which the client fails with that prefix. */
  lemma ClientFailure(page: nat, file: seq<Byte>, n: nat) returns (states: seq<State>, actions: seq<Action>)
    requires n <= |file| && page > 0
    ensures IsRun(page, states, actions)
    ensures var s := states[|actions|]; s.client.status == Failed && s.file == file && s.dest == file[..n]
  {
    states, actions := OneByOne(page, file, n);
    states, actions := Extend(page, states, actions, ClientFail);
  }
}
