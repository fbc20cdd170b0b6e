/**
 The select() chat server of selectserver.c.

 `Kernel` is the adversary: which ready descriptors `select` reports, which free number `accept`
 hands out (numbers of closed sockets included), how much `recv` delivers and whether it fails.
 `Server` is the program: `master`, `read_fds`, `fdmax` and `buf`, with one iteration of the
 endless loop as `Round`. A connection has an identity of its own, so that a reused descriptor
 number is a different connection. The log is what an observer of the socket calls would see.
 */
module ChatServer {
  import opened Bytes

  type Conn = nat
  type Message = seq<Byte>

  datatype Event =
    | Accepted(conn: Conn)
    | AcceptFailed
    | Received(conn: Conn, msg: Message)
    | HungUp(conn: Conn)                   // a recv() that returned 0 or -1
    | Closed(conn: Conn)
    | Attempted(conn: Conn, msg: Message)  // a send(), whatever its result

  // ----- what a log says, without reference to the server's own data -----

  /** The connections accepted and not yet closed. */
  ghost function Members(log: seq<Event>): set<Conn> {
    if log == [] then {} else MembersAfter(Members(log[..|log| - 1]), log[|log| - 1])
  }

  ghost function MembersAfter(before: set<Conn>, e: Event): set<Conn> {
    match e
    case Accepted(c) => before + {c}
    case Closed(c) => before - {c}
    case _ => before
  }

  /** What a perfect chat room delivers to `c`: every message read from somebody else while `c` is a member. */
  ghost function Expected(log: seq<Event>, c: Conn): seq<Message> {
    if log == [] then [] else
    var past := log[..|log| - 1];
    match log[|log| - 1]
    case Received(d, m) => if d != c && c in Members(past) then Expected(past, c) + [m] else Expected(past, c)
    case _ => Expected(past, c)
  }

  /** What was sent to `c`. */
  ghost function SentTo(log: seq<Event>, c: Conn): seq<Message> {
    if log == [] then [] else
    var past := log[..|log| - 1];
    match log[|log| - 1]
    case Attempted(d, m) => if d == c then SentTo(past, c) + [m] else SentTo(past, c)
    case _ => SentTo(past, c)
  }

  datatype Call = AcceptCall | RecvCall(conn: Conn)

  ghost function CallOf(e: Event): seq<Call> {
    match e
    case Accepted(_) => [AcceptCall]
    case AcceptFailed => [AcceptCall]
    case Received(c, _) => [RecvCall(c)]
    case HungUp(c) => [RecvCall(c)]
    case _ => []
  }

  /** The calls of accept() and recv(), whatever their result. */
  ghost function Calls(log: seq<Event>): seq<Call> {
    if log == [] then [] else Calls(log[..|log| - 1]) + CallOf(log[|log| - 1])
  }

  /** A connection is closed directly after a recv() on it found it hung up, and only then. */
  ghost predicate Paired(log: seq<Event>, k: nat) {
    k < |log| ==>
      && (log[k].Closed? ==> k > 0 && log[k - 1] == HungUp(log[k].conn))
      && (log[k].HungUp? ==> k + 1 < |log| && log[k + 1] == Closed(log[k].conn))
  }

  ghost predicate Orderly(log: seq<Event>) {
    forall k :: Paired(log, k)
  }

  // ----- what select() asks for -----

  /**
   A select(): the descriptors it was asked about, the ones among them that it reported, all below `nfds`, and the
   connections open at that moment; or its failure.
   */
  datatype Report =
    | Report(asked: set<nat>, ready: set<nat>, nfds: nat, table: map<nat, Conn>)
    | SelectFailed

  /** It was asked about the listener and every open connection, and about nothing else. */
  ghost predicate AsksAll(listener: nat, r: Report) {
    r.Report? ==>
      && r.asked == {listener} + r.table.Keys && r.ready <= r.asked
      && forall fd :: fd in r.asked ==> fd < r.nfds
  }

  ghost function CallAt(listener: nat, ready: set<nat>, table: map<nat, Conn>, fd: nat): seq<Call> {
    if fd !in ready then []
    else if fd == listener then [AcceptCall]
    else if fd in table then [RecvCall(table[fd])] else []
  }

  /** The calls due on the descriptors below `n` of `ready`, by ascending descriptor. */
  ghost function Due(listener: nat, ready: set<nat>, table: map<nat, Conn>, n: nat): seq<Call> {
    if n == 0 then [] else Due(listener, ready, table, n - 1) + CallAt(listener, ready, table, n - 1)
  }

  ghost function AllDue(listener: nat, reports: seq<Report>): seq<Call> {
    if reports == [] then [] else
    var past := AllDue(listener, reports[..|reports| - 1]);
    match reports[|reports| - 1]
    case Report(_, ready, nfds, table) => past + Due(listener, ready, table, nfds)
    case SelectFailed => past
  }

  ghost predicate Injective(table: map<nat, Conn>) {
    forall f, g :: f in table && g in table && f != g ==> table[f] != table[g]
  }

  /** That is one accept() if the listener is ready, one recv() on each connection with a ready descriptor, and nothing else. */
  lemma {:induction false} DueExact(listener: nat, ready: set<nat>, table: map<nat, Conn>, n: nat)
    requires Injective(table) && listener !in table
    ensures AcceptCall in Due(listener, ready, table, n) <==> listener < n && listener in ready
    ensures forall c :: RecvCall(c) in Due(listener, ready, table, n) <==>
              exists fd :: fd < n && fd in ready && fd in table && table[fd] == c
    ensures forall k, m :: 0 <= k < m < |Due(listener, ready, table, n)| ==>
              Due(listener, ready, table, n)[k] != Due(listener, ready, table, n)[m]
  {
    if n > 0 {
      DueExact(listener, ready, table, n - 1);
      var before, all := Due(listener, ready, table, n - 1), Due(listener, ready, table, n);
      var last := CallAt(listener, ready, table, n - 1);
      assert forall x :: x in all <==> x in before || x in last;
      forall c ensures RecvCall(c) in all <==> exists fd :: fd < n && fd in ready && fd in table && table[fd] == c {
        assert RecvCall(c) in last <==> n - 1 in ready && n - 1 in table && table[n - 1] == c;
      }
      if last != [] { assert last[0] !in before; }
    }
  }

  /** Descriptors that are not ready add nothing. */
  lemma {:induction false} DueStable(listener: nat, ready: set<nat>, table: map<nat, Conn>, n: nat, m: nat)
    requires n <= m && forall fd :: fd in ready ==> fd < n
    ensures Due(listener, ready, table, m) == Due(listener, ready, table, n)
    decreases m
  {
    if n < m { DueStable(listener, ready, table, n, m - 1); }
  }

  /** Every ready descriptor from `i` on is still the connection it was when select() reported it. */
  ghost predicate Ahead(listener: nat, ready: set<nat>, table: map<nat, Conn>, conns: map<nat, Conn>, i: nat) {
    forall fd :: fd in ready && fd >= i && fd != listener ==> fd in table && fd in conns && conns[fd] == table[fd]
  }

  lemma AheadOn(listener: nat, ready: set<nat>, table: map<nat, Conn>, conns: map<nat, Conn>, conns': map<nat, Conn>, i: nat)
    requires Ahead(listener, ready, table, conns, i)
    requires forall fd :: fd in conns && fd != i ==> fd in conns' && conns'[fd] == conns[fd]
    ensures Ahead(listener, ready, table, conns', i + 1)
    ensures CallAt(listener, ready, conns, i) == CallAt(listener, ready, table, i)
  {
  }

  /** The positions of a log at which a message for `c` was read. */
  ghost predicate IsFor(log: seq<Event>, k: nat, c: Conn) {
    k < |log| && log[k].Received? && log[k].conn != c && c in Members(log[..k])
  }

  lemma ExpectedSnoc(log: seq<Event>, c: Conn)
    requires log != []
    ensures var n := |log| - 1;
      Expected(log, c) == Expected(log[..n], c) + if IsFor(log, n, c) then [log[n].msg] else []
  {
  }

  lemma IsForPrefix(log: seq<Event>, n: nat, k: nat, c: Conn)
    requires k < n <= |log|
    ensures IsFor(log, k, c) <==> IsFor(log[..n], k, c)
  {
    assert log[..n][..k] == log[..k];
  }

  /** `Expected` lists the messages at exactly those positions, in the order of the log. */
  lemma {:induction false} ExpectedPositions(log: seq<Event>, c: Conn) returns (at: seq<nat>)
    ensures |at| == |Expected(log, c)|
    ensures forall m :: 0 <= m < |at| ==> IsFor(log, at[m], c) && Expected(log, c)[m] == log[at[m]].msg
    ensures forall m, n :: 0 <= m < n < |at| ==> at[m] < at[n]
    ensures forall k: nat :: IsFor(log, k, c) ==> k in at
  {
    if log == [] { return []; }
    var n := |log| - 1;
    var before := ExpectedPositions(log[..n], c);
    ExpectedSnoc(log, c);
    at := before + if IsFor(log, n, c) then [n] else [];
    forall m | 0 <= m < |at| ensures IsFor(log, at[m], c) && Expected(log, c)[m] == log[at[m]].msg {
      if m < |before| { IsForPrefix(log, n, before[m], c); }
    }
    forall k: nat | IsFor(log, k, c) ensures k in at {
      if k < n { IsForPrefix(log, n, k, c); assert k in before; }
    }
  }

  ghost predicate UpToDate(log: seq<Event>, c: Conn) {
    SentTo(log, c) == Expected(log, c)
  }

  /** `c` has everything but the last message, `m`. */
  ghost predicate Owed(log: seq<Event>, c: Conn, m: Message) {
    SentTo(log, c) + [m] == Expected(log, c)
  }

  lemma Snoc(log: seq<Event>, e: Event)
    ensures Members(log + [e]) == MembersAfter(Members(log), e)
    ensures Calls(log + [e]) == Calls(log) + CallOf(e)
    ensures forall c {:trigger Expected(log + [e], c)} ::
      Expected(log + [e], c) ==
      if e.Received? && e.conn != c && c in Members(log) then Expected(log, c) + [e.msg] else Expected(log, c)
    ensures forall c {:trigger SentTo(log + [e], c)} ::
      SentTo(log + [e], c) == if e.Attempted? && e.conn == c then SentTo(log, c) + [e.msg] else SentTo(log, c)
  {
    assert (log + [e])[..|log + [e]| - 1] == log;
  }

  ghost predicate AllUpToDate(log: seq<Event>) {
    forall c :: UpToDate(log, c)
  }

  /** How the log is left after every visit of the scan. */
  ghost predicate Settled(log: seq<Event>) {
    AllUpToDate(log) && Orderly(log)
  }

  lemma QuietEvent(log: seq<Event>, e: Event)
    requires AllUpToDate(log) && !e.Received? && !e.Attempted?
    ensures AllUpToDate(log + [e])
  {
    forall c ensures UpToDate(log + [e], c) {
      assert UpToDate(log, c);
      Snoc(log, e);
    }
  }

  lemma OrderlySnoc(log: seq<Event>, e: Event)
    requires Orderly(log) && !e.HungUp? && !e.Closed?
    ensures Orderly(log + [e])
  {
    forall k ensures Paired(log + [e], k) {
      assert Paired(log, k);
    }
  }

  lemma HangUp(log: seq<Event>, c: Conn)
    requires Settled(log)
    ensures Settled(log + [HungUp(c)] + [Closed(c)])
    ensures Calls(log + [HungUp(c)] + [Closed(c)]) == Calls(log) + [RecvCall(c)]
  {
    var after := log + [HungUp(c)] + [Closed(c)];
    Snoc(log, HungUp(c));
    Snoc(log + [HungUp(c)], Closed(c));
    QuietEvent(log, HungUp(c));
    QuietEvent(log + [HungUp(c)], Closed(c));
    forall k ensures Paired(after, k) {
      assert Paired(log, k);
    }
  }

  lemma ReceivedEvent(log: seq<Event>, d: Conn, m: Message)
    requires AllUpToDate(log)
    ensures forall c :: c in Members(log) && c != d ==> Owed(log + [Received(d, m)], c, m)
    ensures forall c :: c !in Members(log) || c == d ==> UpToDate(log + [Received(d, m)], c)
  {
    forall c ensures if c in Members(log) && c != d then Owed(log + [Received(d, m)], c, m)
                     else UpToDate(log + [Received(d, m)], c)
    {
      assert UpToDate(log, c);
      Snoc(log, Received(d, m));
    }
  }

  lemma AttemptedEvent(log: seq<Event>, d: Conn, m: Message)
    requires Owed(log, d, m)
    ensures UpToDate(log + [Attempted(d, m)], d)
    ensures forall c :: c != d && UpToDate(log, c) ==> UpToDate(log + [Attempted(d, m)], c)
    ensures forall c :: c != d && Owed(log, c, m) ==> Owed(log + [Attempted(d, m)], c, m)
  {
    Snoc(log, Attempted(d, m));
  }

  /** A broadcast of `m` from descriptor `i` has reached the members below `j`; the others are owed it. */
  ghost predicate Spread(log: seq<Event>, table: map<nat, Conn>, i: nat, m: Message, j: nat) {
    && (forall fd :: fd in table && fd != i && fd < j ==> UpToDate(log, table[fd]))
    && (forall fd :: fd in table && fd != i && fd >= j ==> Owed(log, table[fd], m))
    && (forall c :: c !in table.Values || (i in table && c == table[i]) ==> UpToDate(log, c))
  }

  lemma SpreadOn(log: seq<Event>, table: map<nat, Conn>, i: nat, m: Message, j: nat)
    requires Injective(table) && i in table && Spread(log, table, i, m, j)
    ensures j in table && j != i ==> Spread(log + [Attempted(table[j], m)], table, i, m, j + 1)
    ensures j !in table || j == i ==> Spread(log, table, i, m, j + 1)
  {
    if j in table && j != i { AttemptedEvent(log, table[j], m); }
  }

  lemma SpreadToAll(log: seq<Event>, table: map<nat, Conn>, i: nat, m: Message, j: nat)
    requires i in table && Spread(log, table, i, m, j) && forall fd :: fd in table ==> fd < j
    ensures AllUpToDate(log)
  {
    forall c ensures UpToDate(log, c) {
      if c in table.Values {
        var fd :| fd in table && table[fd] == c;
      }
    }
  }

  lemma ValuesAfterAdd(table: map<nat, Conn>, fd: nat, c: Conn)
    requires fd !in table && Injective(table) && forall f :: f in table ==> table[f] != c
    ensures table[fd := c].Values == table.Values + {c} && Injective(table[fd := c])
  {
    var t := table[fd := c];
    forall d ensures d in t.Values <==> d in table.Values || d == c {
      if d in table.Values {
        var f :| f in table && table[f] == d;
        assert t[f] == d;
      }
      if d == c { assert t[fd] == d; }
    }
  }

  lemma ValuesAfterRemove(table: map<nat, Conn>, fd: nat)
    requires fd in table && Injective(table)
    ensures (table - {fd}).Values == table.Values - {table[fd]}
  {
    var t := table - {fd};
    forall d ensures d in t.Values <==> d in table.Values && d != table[fd] {
      if d in table.Values && d != table[fd] {
        var f :| f in table && table[f] == d;
        assert f in t && t[f] == d;
      }
    }
  }

  // ----- the kernel -----

  /** Connections have descriptors and identities of their own, and are the members of the log. */
  ghost predicate Consistent(reserved: set<nat>, conns: map<nat, Conn>, nextConn: Conn, log: seq<Event>) {
    && reserved !! conns.Keys
    && (forall fd :: fd in conns ==> conns[fd] < nextConn)
    && Injective(conns)
    && Members(log) == conns.Values
  }

  lemma ConsistentAfterAccept(reserved: set<nat>, conns: map<nat, Conn>, nextConn: Conn, log: seq<Event>, fd: nat)
    requires Consistent(reserved, conns, nextConn, log) && fd !in reserved && fd !in conns
    ensures Consistent(reserved, conns[fd := nextConn], nextConn + 1, log + [Accepted(nextConn)])
  {
    Snoc(log, Accepted(nextConn));
    ValuesAfterAdd(conns, fd, nextConn);
  }

  lemma ConsistentAfterClose(reserved: set<nat>, conns: map<nat, Conn>, nextConn: Conn, log: seq<Event>, fd: nat)
    requires Consistent(reserved, conns, nextConn, log) && fd in conns
    ensures Consistent(reserved, conns - {fd}, nextConn, log + [Closed(conns[fd])])
  {
    Snoc(log, Closed(conns[fd]));
    ValuesAfterRemove(conns, fd);
  }

  lemma ConsistentAfterOther(reserved: set<nat>, conns: map<nat, Conn>, nextConn: Conn, log: seq<Event>, e: Event)
    requires Consistent(reserved, conns, nextConn, log) && !e.Accepted? && !e.Closed?
    ensures Consistent(reserved, conns, nextConn, log + [e])
  {
    Snoc(log, e);
  }

  class Kernel {
    const listener: nat
    const reserved: set<nat>       // descriptors that are not connections: the listener, standard input, ...
    var conns: map<nat, Conn>      // open connections by descriptor
    var nextConn: Conn
    var log: seq<Event>
    ghost var reports: seq<Report> // the calls of select() so far

    ghost predicate Valid() reads `conns, `nextConn, `log {
      listener in reserved && Consistent(reserved, conns, nextConn, log)
    }

    constructor (listener: nat, others: set<nat>)
      ensures Valid() && this.listener == listener && conns == map[] && log == [] && reports == []
    {
      this.listener, this.reserved := listener, {listener} + others;
      conns, nextConn, log, reports := map[], 0, [], [];
    }

    /** Any ready descriptors among `fds` below `nfds`, or failure. */
    method Select(nfds: nat, fds: set<nat>) returns (ok: bool, ready: set<nat>)
      modifies `reports
      ensures ready <= fds && forall fd :: fd in ready ==> fd < nfds
      ensures reports == old(reports) + [if ok then Report(fds, ready, nfds, conns) else SelectFailed]
    {
      ok, ready := *, {};
      var rest := fds;
      while rest != {}
        invariant ready <= fds && rest <= fds && forall fd :: fd in ready ==> fd < nfds
        invariant reports == old(reports)
      {
        var fd :| fd in rest;
        rest := rest - {fd};
        var isReady: bool := *;
        if isReady && fd < nfds { ready := ready + {fd}; }
      }
      reports := reports + [if ok then Report(fds, ready, nfds, conns) else SelectFailed];
    }

    /** -1, or a new connection on any number that is free at this moment. */
    method Accept() returns (fd: int)
      requires Valid()
      modifies this
      ensures Valid() && reports == old(reports)
      ensures fd == -1 || fd >= 0
      ensures fd == -1 ==> conns == old(conns) && log == old(log) + [AcceptFailed]
      ensures fd >= 0 ==> fd !in reserved && fd !in old(conns)
      ensures fd >= 0 ==> conns == old(conns)[fd := old(nextConn)] && log == old(log) + [Accepted(old(nextConn))]
    {
      fd := *;
      if fd < 0 || fd in reserved || fd in conns {
        ConsistentAfterOther(reserved, conns, nextConn, log, AcceptFailed);
        log := log + [AcceptFailed];
        return -1;
      }
      ConsistentAfterAccept(reserved, conns, nextConn, log, fd);
      conns, log, nextConn := conns[fd := nextConn], log + [Accepted(nextConn)], nextConn + 1;
    }

    /** At most `buf.Length` bytes; 0 at end of file, -1 on error. */
    method Recv(fd: nat, buf: array<Byte>) returns (n: int)
      requires Valid() && fd in conns
      modifies this, buf
      ensures Valid() && conns == old(conns) && nextConn == old(nextConn) && reports == old(reports)
      ensures -1 <= n <= buf.Length
      ensures log == old(log) + [if n > 0 then Received(conns[fd], buf[..n]) else HungUp(conns[fd])]
    {
      n := *;
      if n < -1 || n > buf.Length { n := -1; }
      if n <= 0 {
        ConsistentAfterOther(reserved, conns, nextConn, log, HungUp(conns[fd]));
        log := log + [HungUp(conns[fd])];
        return;
      }
      for k := 0 to n modifies buf { buf[k] := *; }
      ConsistentAfterOther(reserved, conns, nextConn, log, Received(conns[fd], buf[..n]));
      log := log + [Received(conns[fd], buf[..n])];
    }

    method Close(fd: nat)
      requires Valid() && fd in conns
      modifies this
      ensures Valid() && conns == old(conns) - {fd} && nextConn == old(nextConn) && reports == old(reports)
      ensures log == old(log) + [Closed(old(conns)[fd])]
    {
      ConsistentAfterClose(reserved, conns, nextConn, log, fd);
      log, conns := log + [Closed(conns[fd])], conns - {fd};
    }

    /** The result of send() only selects an error message, so it is not modelled. */
    method Send(fd: nat, msg: Message)
      requires Valid() && fd in conns
      modifies this
      ensures Valid() && conns == old(conns) && nextConn == old(nextConn) && reports == old(reports)
      ensures log == old(log) + [Attempted(conns[fd], msg)]
    {
      ConsistentAfterOther(reserved, conns, nextConn, log, Attempted(conns[fd], msg));
      log := log + [Attempted(conns[fd], msg)];
    }
  }

  // ----- the server -----

  class Server {
    const kernel: Kernel
    const listener: nat
    const buf: array<Byte>
    var master: set<nat>
    var readFds: set<nat>
    var fdmax: nat

    /** `master` is the listener and the open connections, and nothing is above `fdmax`. */
    ghost predicate Valid() reads `master, `fdmax, kernel`conns, kernel`nextConn, kernel`log {
      && kernel.Valid()
      && listener == kernel.listener
      && buf.Length == 256
      && master == {listener} + kernel.conns.Keys
      && forall fd :: fd in master ==> fd <= fdmax
    }

    /** Every select() was about all there was, and the calls made so far are exactly those due after them. */
    ghost predicate Answered() reads kernel`log, kernel`reports {
      && Calls(kernel.log) == AllDue(listener, kernel.reports)
      && forall k :: 0 <= k < |kernel.reports| ==> AsksAll(listener, kernel.reports[k])
    }

    constructor (kernel: Kernel)
      requires kernel.Valid() && kernel.conns == map[] && kernel.log == [] && kernel.reports == []
      ensures Valid() && Settled(kernel.log) && Answered() && this.kernel == kernel && fresh(buf)
    {
      this.kernel, this.listener := kernel, kernel.listener;
      buf := new Byte[256];
      master, readFds, fdmax := {kernel.listener}, {}, kernel.listener;
    }

    method AcceptClient()
      requires Valid() && Settled(kernel.log)
      modifies `master, `fdmax, kernel
      ensures Valid() && Settled(kernel.log) && old(fdmax) <= fdmax && kernel.reports == old(kernel.reports)
      ensures forall fd :: fd in old(kernel.conns) ==> fd in kernel.conns && kernel.conns[fd] == old(kernel.conns)[fd]
      ensures fdmax > old(fdmax) ==> fdmax in kernel.conns
      ensures Calls(kernel.log) == old(Calls(kernel.log)) + [AcceptCall]
    {
      var newfd := kernel.Accept();
      ghost var e := if newfd == -1 then AcceptFailed else Accepted(old(kernel.nextConn));
      Snoc(old(kernel.log), e);
      QuietEvent(old(kernel.log), e);
      OrderlySnoc(old(kernel.log), e);
      if newfd != -1 {
        master := master + {newfd};
        if newfd > fdmax { fdmax := newfd; }
      }
    }

    /** Sends the `n` bytes read from descriptor `i` to every other member. */
    method Broadcast(i: nat, n: nat)
      requires Valid() && i in kernel.conns && n <= buf.Length && Orderly(kernel.log)
      requires Spread(kernel.log, kernel.conns, i, buf[..n], 0)
      modifies kernel
      ensures Valid() && Settled(kernel.log) && kernel.conns == old(kernel.conns) && kernel.reports == old(kernel.reports)
      ensures Calls(kernel.log) == old(Calls(kernel.log))
    {
      var j := 0;
      while j <= fdmax
        invariant 0 <= j <= fdmax + 1 && Valid() && Orderly(kernel.log)
        invariant kernel.conns == old(kernel.conns) && kernel.reports == old(kernel.reports)
        invariant Calls(kernel.log) == old(Calls(kernel.log))
        invariant Spread(kernel.log, kernel.conns, i, buf[..n], j)
      {
        SendTo(i, n, j);
        j := j + 1;
      }
      SpreadToAll(kernel.log, kernel.conns, i, buf[..n], j);
    }

    /** The body of the broadcast at descriptor `j`. */
    method SendTo(i: nat, n: nat, j: nat)
      requires Valid() && i in kernel.conns && n <= buf.Length && Orderly(kernel.log)
      requires Spread(kernel.log, kernel.conns, i, buf[..n], j)
      modifies kernel
      ensures Valid() && Orderly(kernel.log) && kernel.conns == old(kernel.conns) && kernel.reports == old(kernel.reports)
      ensures Calls(kernel.log) == old(Calls(kernel.log))
      ensures Spread(kernel.log, kernel.conns, i, buf[..n], j + 1)
    {
      SpreadOn(kernel.log, kernel.conns, i, buf[..n], j);
      if j in master && j != listener && j != i {
        Snoc(kernel.log, Attempted(kernel.conns[j], buf[..n]));
        OrderlySnoc(kernel.log, Attempted(kernel.conns[j], buf[..n]));
        kernel.Send(j, buf[..n]);
      }
    }

    /** One recv(), and then either the broadcast or the close. */
    method ServeClient(i: nat)
      requires Valid() && Settled(kernel.log) && i in kernel.conns
      modifies `master, kernel, buf
      ensures Valid() && Settled(kernel.log) && kernel.reports == old(kernel.reports)
      ensures kernel.conns == old(kernel.conns) || kernel.conns == old(kernel.conns) - {i}
      ensures Calls(kernel.log) == old(Calls(kernel.log)) + [RecvCall(old(kernel.conns)[i])]
    {
      ghost var before, c := kernel.log, kernel.conns[i];
      var nbytes := kernel.Recv(i, buf);
      if nbytes <= 0 {
        kernel.Close(i);
        HangUp(before, c);
        master := master - {i};
      } else {
        Snoc(before, Received(c, buf[..nbytes]));
        OrderlySnoc(before, Received(c, buf[..nbytes]));
        ReceivedEvent(before, c, buf[..nbytes]);
        Broadcast(i, nbytes);
      }
    }

    /** The body of the scan at descriptor `i`. */
    method Visit(i: nat)
      requires Valid() && Settled(kernel.log)
      requires i in readFds && i != listener ==> i in kernel.conns
      modifies `master, `fdmax, kernel, buf
      ensures Valid() && Settled(kernel.log) && kernel.reports == old(kernel.reports)
      ensures old(fdmax) <= fdmax && (i != listener ==> fdmax == old(fdmax))
      ensures forall fd :: fd in old(kernel.conns) && fd != i ==>
                fd in kernel.conns && kernel.conns[fd] == old(kernel.conns)[fd]
      ensures Calls(kernel.log) == old(Calls(kernel.log)) + CallAt(listener, readFds, old(kernel.conns), i)
    {
      if i in readFds {
        if i == listener {
          AcceptClient();
        } else {
          ServeClient(i);
        }
      }
    }

    /** The scan has come to descriptor `i`; it began with the connections `table` and the calls `calls`. */
    ghost predicate Scanning(table: map<nat, Conn>, calls: seq<Call>, i: nat)
      reads `master, `fdmax, `readFds, kernel`conns, kernel`nextConn, kernel`log
    {
      && Valid() && Settled(kernel.log)
      && Ahead(listener, readFds, table, kernel.conns, i)
      && Calls(kernel.log) == calls + Due(listener, readFds, table, i)
    }

    method ScanOn(ghost table: map<nat, Conn>, ghost calls: seq<Call>, i: nat)
      requires Scanning(table, calls, i)
      modifies `master, `fdmax, kernel, buf
      ensures Scanning(table, calls, i + 1) && kernel.reports == old(kernel.reports)
      ensures old(fdmax) <= fdmax && (i != listener ==> fdmax == old(fdmax))
    {
      ghost var conns := kernel.conns;
      Visit(i);
      AheadOn(listener, readFds, table, conns, kernel.conns, i);
    }

    /**
     The scan of `readFds`. The table read at the start stays right for every descriptor still to be
     visited, although the scan itself closes and accepts: a number can only be reused behind the scan.
     */
    method Scan()
      requires Valid() && Settled(kernel.log) && readFds <= master
      modifies `master, `fdmax, kernel, buf
      ensures Valid() && Settled(kernel.log) && kernel.reports == old(kernel.reports)
      ensures Calls(kernel.log) == old(Calls(kernel.log)) + Due(listener, readFds, old(kernel.conns), old(fdmax) + 1)
    {
      ghost var table, n := kernel.conns, fdmax + 1;
      assert forall fd :: fd in readFds ==> fd < n;
      ScanAll(table, Calls(kernel.log));
      DueStable(listener, readFds, table, n, fdmax + 1);
    }

    method ScanAll(ghost table: map<nat, Conn>, ghost calls: seq<Call>)
      requires Scanning(table, calls, 0)
      modifies `master, `fdmax, kernel, buf
      ensures Scanning(table, calls, fdmax + 1) && old(fdmax) <= fdmax && kernel.reports == old(kernel.reports)
    {
      var i: nat := 0;
      while i <= fdmax
        invariant Scanning(table, calls, i)
        invariant i <= fdmax + 1 && old(fdmax) <= fdmax && kernel.reports == old(kernel.reports)
        decreases i <= listener, fdmax - i
      {
        ScanOn(table, calls, i);
        i := i + 1;
      }
    }

    /**
     One iteration of the main loop: a select() about the listener and every open connection, and then exactly the calls
     that are due, in ascending descriptor order and on the connections that were open when it returned. Only a
     select() that fails ends the program.
     */
    method Round() returns (alive: bool)
      requires Valid() && Settled(kernel.log) && Answered()
      modifies this, kernel, buf
      ensures Valid() && Settled(kernel.log) && Answered()
      ensures |kernel.reports| == |old(kernel.reports)| + 1 && old(kernel.reports) <= kernel.reports
      ensures var r := kernel.reports[|kernel.reports| - 1];
        if alive then r.Report? && r.table == old(kernel.conns) && r.nfds == old(fdmax) + 1 && r.ready == readFds
        else r == SelectFailed && kernel.log == old(kernel.log)
    {
      readFds := master;
      alive, readFds := kernel.Select(fdmax + 1, readFds);
      if alive { Scan(); }
    }

    /**
     Any number of iterations: between any two of them the deliveries are exactly the expected ones, and the calls
     of accept() and recv() exactly those due after the successive select() calls.
     */
    method Run(rounds: nat) returns (alive: bool)
      requires Valid() && Settled(kernel.log) && Answered()
      modifies this, kernel, buf
      ensures Valid() && Settled(kernel.log) && Answered() && old(kernel.reports) <= kernel.reports
      ensures alive ==> |kernel.reports| == |old(kernel.reports)| + rounds
      ensures !alive ==> |kernel.reports| > |old(kernel.reports)| && kernel.reports[|kernel.reports| - 1] == SelectFailed
    {
      alive := true;
      for r := 0 to rounds
        invariant Valid() && Settled(kernel.log) && Answered() && old(kernel.reports) <= kernel.reports
        invariant alive && |kernel.reports| == |old(kernel.reports)| + r
      {
        alive := Round();
        if !alive { break; }
      }
    }
  }
}
