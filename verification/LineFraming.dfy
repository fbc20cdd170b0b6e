/**
 get_line() of svr_pre_mt.c, which reads a socket one byte at a time and ends a line at CR LF (dropped), at a bare LF
 (kept) or when the buffer is full.
 */
module LineFraming {
  import opened Bytes

  const CR: Byte := 13
  const LF: Byte := 10

  /** A stream socket that will deliver `data`; recv() may fail at any time, which `failures` counts. */
  class Socket {
    const data: seq<Byte>
    var pos: nat
    var failures: nat

    ghost predicate Valid() reads this { pos <= |data| }

    constructor (data: seq<Byte>)
      ensures Valid() && this.data == data && pos == 0 && failures == 0
    {
      this.data, this.pos, this.failures := data, 0, 0;
    }

    /** recv() of one byte, with or without MSG_PEEK: 1, 0 at the end of the stream, or -1. */
    method Recv(c: Byte, peek: bool) returns (n: int, c': Byte)
      requires Valid()
      modifies this
      ensures Valid() && failures >= old(failures)
      ensures n == 1 ==> old(pos) < |data| && c' == data[old(pos)] && pos == old(pos) + (if peek then 0 else 1) && failures == old(failures)
      ensures n != 1 ==> c' == c && pos == old(pos) && (n == 0 || n == -1)
      ensures n != 1 && pos < |data| ==> failures > old(failures)
    {
      var works: bool := *;
      c' := c;
      if !works {
        n, failures := -1, failures + 1;
      } else if pos == |data| {
        n := 0;
      } else {
        n, c' := 1, data[pos];
        if !peek { pos := pos + 1; }
      }
    }
  }

  /** What a call finds: the bytes stored, the position after the last byte consumed, and whether the stream ended first. */
  datatype Line = Line(text: seq<Byte>, end: nat, ended: bool)

  /** The first line of `stream` from position `at` on, with room for `room` bytes. */
  function Scan(stream: seq<Byte>, at: nat, room: nat): (r: Line)
    requires at <= |stream|
    ensures at <= r.end <= |stream| && |r.text| <= room
    decreases |stream| - at
  {
    if room == 0 then Line([], at, false)
    else if at == |stream| then Line([], at, true)
    else if stream[at] == CR && at + 1 < |stream| && stream[at + 1] == LF then Line([], at + 2, false)
    else if stream[at] == LF then Line([LF], at + 1, false)
    else if stream[at] == CR then Scan(stream, at + 1, room)
    else var rest := Scan(stream, at + 1, room - 1); Line([stream[at]] + rest.text, rest.end, rest.ended)
  }

  /** A line never holds CR, holds LF only at its end, and consumes at least what it holds. */
  lemma {:induction false} ScanShape(stream: seq<Byte>, at: nat, room: nat)
    requires at <= |stream|
    ensures var r := Scan(stream, at, room);
      && CR !in r.text && (forall k :: 0 <= k < |r.text| - 1 ==> r.text[k] != LF)
      && |r.text| <= r.end - at && (r.ended ==> r.end == |stream|)
    decreases |stream| - at
  {
    if room > 0 && at < |stream| && stream[at] != LF {
      ScanShape(stream, at + 1, if stream[at] == CR then room else room - 1);
    }
  }

  /** The line and its length, or 0 when the stream ends (or recv() fails) before a line is complete. */
  method GetLine(sock: Socket, buf: array<Byte>, size: nat) returns (i: nat)
    requires sock.Valid() && 0 < size <= buf.Length
    modifies sock, buf
    ensures sock.Valid() && i < size && sock.failures >= old(sock.failures)
    ensures sock.failures == old(sock.failures) ==> var r := Scan(sock.data, old(sock.pos), size - 1);
      && sock.pos == r.end
      && (if r.ended then i == 0 else i == |r.text| && buf[..i] == r.text && buf[i] == 0)
  {
    i := 0;
    var c: Byte := 0;
    var more := true;
    ghost var start := sock.pos;
    assert buf[..0] == [];
    while i < size - 1 && c != LF
      invariant sock.Valid() && i <= size - 1 && sock.pos >= start && sock.failures >= old(sock.failures)
      invariant sock.failures == old(sock.failures) ==> Reading(sock.data, start, size - 1, sock.pos, buf[..i], c)
      decreases |sock.data| - sock.pos
    {
      more, i, c := ReadByte(sock, buf, size, i, c, start, sock.failures == old(sock.failures));
      if !more { return 0; }
    }
    buf[i] := 0;
  }

  /** The body of the loop; `more` is false when recv() delivers nothing. */
  method ReadByte(sock: Socket, buf: array<Byte>, size: nat, i: nat, c: Byte, ghost start: nat, ghost good: bool)
    returns (more: bool, i': nat, c': Byte)
    requires sock.Valid() && start <= sock.pos && i < size - 1 < buf.Length && c != LF
    requires good ==> Scanning(sock.data, start, size - 1, sock.pos, buf[..i])
    modifies sock, buf
    ensures sock.Valid() && sock.pos >= old(sock.pos) && sock.failures >= old(sock.failures) && i' <= size - 1
    ensures more ==> sock.pos > old(sock.pos)
    ensures good && sock.failures == old(sock.failures) ==>
      if more then Reading(sock.data, start, size - 1, sock.pos, buf[..i'], c')
      else Scan(sock.data, start, size - 1).ended && Scan(sock.data, start, size - 1).end == sock.pos
  {
    ghost var at, done := sock.pos, buf[..i];
    if good { ScanStep(sock.data, start, size - 1, at, done); }
    var n;
    more, i' := true, i;
    n, c' := sock.Recv(c, false);
    if n > 0 {
      if c' == CR {
        c' := AfterCr(sock);
      } else {
        i' := StoreByte(buf, i, c');
      }
    } else {
      more := false;
    }
  }

  method StoreByte(buf: array<Byte>, i: nat, c: Byte) returns (i': nat)
    requires i < buf.Length
    modifies buf
    ensures i' == i + 1 && buf[..i'] == old(buf[..i]) + [c]
  {
    buf[i] := c;
    i' := i + 1;
    assert buf[..i'] == buf[..i] + [c];
  }

  /** Having read CR, looks at the next byte and consumes it if it is LF. */
  method AfterCr(sock: Socket) returns (c: Byte)
    requires sock.Valid()
    modifies sock
    ensures sock.Valid() && sock.pos >= old(sock.pos) && sock.failures >= old(sock.failures)
    ensures sock.failures == old(sock.failures) ==>
      if old(sock.pos) < |sock.data| && sock.data[old(sock.pos)] == LF then c == LF && sock.pos == old(sock.pos) + 1
      else c != LF && sock.pos == old(sock.pos)
  {
    var n;
    n, c := sock.Recv(CR, true);
    if n > 0 && c == LF {
      n, c := sock.Recv(c, false);
    }
  }

  /** The loop is on its way, or, when the last byte seen is LF, at its end. */
  ghost predicate Reading(stream: seq<Byte>, start: nat, room: nat, at: nat, done: seq<Byte>, c: Byte) {
    && start <= at <= |stream|
    && if c == LF then Scan(stream, start, room) == Line(done, at, false) else Scanning(stream, start, room, at, done)
  }

  /** Having come from `start` to `at` and stored `done` is on the way to the first line from `start` on. */
  ghost predicate Scanning(stream: seq<Byte>, start: nat, room: nat, at: nat, done: seq<Byte>) {
    && start <= at <= |stream| && |done| <= room
    && var r := Scan(stream, at, room - |done|);
       Scan(stream, start, room) == Line(done + r.text, r.end, r.ended)
  }

  lemma ScanStep(stream: seq<Byte>, start: nat, room: nat, at: nat, done: seq<Byte>)
    requires |done| < room && Scanning(stream, start, room, at, done)
    ensures at == |stream| ==> Scan(stream, start, room).ended && Scan(stream, start, room).end == at
    ensures at < |stream| && stream[at] == LF ==> Scan(stream, start, room) == Line(done + [LF], at + 1, false)
    ensures at < |stream| && stream[at] == CR ==>
      if at + 1 < |stream| && stream[at + 1] == LF then Scan(stream, start, room) == Line(done, at + 2, false)
      else Scanning(stream, start, room, at + 1, done)
    ensures at < |stream| && stream[at] != CR && stream[at] != LF ==> Scanning(stream, start, room, at + 1, done + [stream[at]])
  {
    if at < |stream| && stream[at] != CR {
      var r := Scan(stream, at + 1, room - |done| - 1);
      assert done + ([stream[at]] + r.text) == done + [stream[at]] + r.text;
    }
  }

  // ----- a framed stream -----

  function Framed(lines: seq<seq<Byte>>): seq<Byte> {
    if lines == [] then [] else lines[0] + [CR, LF] + Framed(lines[1..])
  }

  /** What `n` calls return, from position `at` on. */
  function ReadLines(room: nat, stream: seq<Byte>, at: nat, n: nat): (lines: seq<seq<Byte>>)
    requires at <= |stream|
    ensures |lines| == n
    decreases n
  {
    if n == 0 then [] else
    var r := Scan(stream, at, room);
    [if r.ended then [] else r.text] + ReadLines(room, stream, r.end, n - 1)
  }

  /** A caller that reads `n` lines into the same buffer; unless recv() fails, that is what it gets. */
  method GetLines(sock: Socket, buf: array<Byte>, size: nat, n: nat) returns (lines: seq<seq<Byte>>)
    requires sock.Valid() && 0 < size <= buf.Length
    modifies sock, buf
    ensures sock.failures == old(sock.failures) ==> lines == ReadLines(size - 1, sock.data, old(sock.pos), n)
  {
    ghost var start := sock.pos;
    lines := [];
    for k := 0 to n
      invariant sock.Valid() && sock.failures >= old(sock.failures)
      invariant sock.failures == old(sock.failures) ==>
        ReadLines(size - 1, sock.data, start, n) == lines + ReadLines(size - 1, sock.data, sock.pos, n - k)
    {
      var i := GetLine(sock, buf, size);
      lines := lines + [buf[..i]];
    }
  }

  ghost predicate Unbroken(line: seq<Byte>) {
    CR !in line && LF !in line
  }

  ghost predicate AllUnbroken(lines: seq<seq<Byte>>) {
    forall k :: 0 <= k < |lines| ==> Unbroken(lines[k])
  }

  ghost predicate AllEmpty(lines: seq<seq<Byte>>) {
    forall k :: 0 <= k < |lines| ==> lines[k] == []
  }

  /**
   From position `at` of a framed line on, a call takes the rest of it with its CR LF, or, if there is not enough room,
   as much as fits.
   */
  lemma {:induction false} ScanFramed(line: seq<Byte>, rest: seq<Byte>, at: nat, room: nat)
    requires Unbroken(line) && at <= |line|
    ensures Scan(line + [CR, LF] + rest, at, room) ==
            if |line| - at < room then Line(line[at..], |line| + 2, false) else Line(line[at..at + room], at + room, false)
    decreases |line| - at
  {
    var stream := line + [CR, LF] + rest;
    if at < |line| && room > 0 {
      ScanFramed(line, rest, at + 1, room - 1);
      assert stream[at] == line[at];
      assert line[at..] == [line[at]] + line[at + 1..];
      if |line| - at >= room { assert line[at..at + room] == [line[at]] + line[at + 1..at + room]; }
    }
  }

  /** Bytes before the position do not matter. */
  lemma {:induction false} ScanSuffix(before: seq<Byte>, stream: seq<Byte>, at: nat, room: nat)
    requires at <= |stream|
    ensures var r := Scan(stream, at, room);
      Scan(before + stream, |before| + at, room) == Line(r.text, |before| + r.end, r.ended)
    decreases |stream| - at
  {
    if room > 0 && at < |stream| {
      assert (before + stream)[|before| + at] == stream[at];
      if at + 1 < |stream| { assert (before + stream)[|before| + at + 1] == stream[at + 1]; }
      ScanSuffix(before, stream, at + 1, if stream[at] == CR then room else room - 1);
    }
  }

  lemma {:induction false} ReadLinesSuffix(room: nat, before: seq<Byte>, stream: seq<Byte>, at: nat, n: nat)
    requires at <= |stream|
    ensures ReadLines(room, before + stream, |before| + at, n) == ReadLines(room, stream, at, n)
    decreases n
  {
    if n > 0 {
      ScanSuffix(before, stream, at, room);
      ReadLinesSuffix(room, before, stream, Scan(stream, at, room).end, n - 1);
    }
  }

  /** Every line leaves room for one more byte, or fills the buffer and has nothing but empty lines after it. */
  ghost predicate Fits(lines: seq<seq<Byte>>, room: nat) {
    lines == [] || (if |lines[0]| < room then Fits(lines[1..], room) else |lines[0]| == room && AllEmpty(lines[1..]))
  }

  /** A line with room to spare is read, and the rest as if it stood alone. */
  lemma ReadsShortLine(room: nat, line: seq<Byte>, rest: seq<Byte>, n: nat)
    requires Unbroken(line) && |line| < room
    ensures ReadLines(room, line + [CR, LF] + rest, 0, n + 1) == [line] + ReadLines(room, rest, 0, n)
  {
    ScanFramed(line, rest, 0, room);
    ReadLinesSuffix(room, line + [CR, LF], rest, 0, n);
    assert line[0..] == line;
  }

  /** A line that fills the buffer leaves its CR LF behind, and the next call returns an empty line. */
  lemma ReadsFullLine(room: nat, line: seq<Byte>, rest: seq<Byte>, n: nat)
    requires Unbroken(line) && |line| == room > 0
    ensures ReadLines(room, line + [CR, LF] + rest, 0, n + 1) ==
            [line] + if n == 0 then [] else [[]] + ReadLines(room, rest, 0, n - 1)
  {
    ScanFramed(line, rest, 0, room);
    ScanFramed(line, rest, room, room);
    assert line[0..room] == line && line[room..] == [];
    if n > 0 { ReadLinesSuffix(room, line + [CR, LF], rest, 0, n - 1); }
  }

  /** A longer line is cut. */
  lemma ReadsLongLine(room: nat, line: seq<Byte>, rest: seq<Byte>, n: nat)
    requires Unbroken(line) && |line| > room
    ensures |ReadLines(room, line + [CR, LF] + rest, 0, n + 1)[0]| < |line|
  {
    ScanFramed(line, rest, 0, room);
  }

  lemma {:induction false} ReadsNothing(stream: seq<Byte>, at: nat, n: nat)
    requires at <= |stream|
    ensures AllEmpty(ReadLines(0, stream, at, n))
    decreases n
  {
    if n > 0 { ReadsNothing(stream, at, n - 1); }
  }

  /** Once a call has returned an empty line too many, the rest comes out right only if it is all empty. */
  lemma {:induction false} BehindByOne(room: nat, lines: seq<seq<Byte>>)
    requires room > 0 && lines != [] && AllUnbroken(lines)
    ensures [[]] + ReadLines(room, Framed(lines), 0, |lines| - 1) == lines <==> AllEmpty(lines)
    decreases |lines|
  {
    var rest := lines[1..];
    assert Unbroken(lines[0]);
    if lines[0] == [] && rest != [] {
      ReadsShortLine(room, lines[0], Framed(rest), |rest| - 1);
      BehindByOne(room, rest);
      ConsEqual(lines[0], rest, ReadLines(room, Framed(lines), 0, |rest|));
      ConsEmpty(lines);
    } else if rest == [] {
      assert lines == [lines[0]];
    }
  }

  lemma ConsEqual(line: seq<Byte>, rest: seq<seq<Byte>>, other: seq<seq<Byte>>)
    ensures [line] + other == [line] + rest <==> other == rest
  {
    assert ([line] + rest)[1..] == rest && ([line] + other)[1..] == other;
  }

  lemma ConsEmpty(lines: seq<seq<Byte>>)
    requires lines != []
    ensures AllEmpty(lines) <==> lines[0] == [] && AllEmpty(lines[1..])
  {
    assert forall k :: 1 <= k < |lines| ==> lines[k] == lines[1..][k - 1];
  }

  /** Repeated calls recover the lines of a CR LF framed stream if and only if they fit. */
  lemma {:induction false} RecoversExactlyWhenFits(lines: seq<seq<Byte>>, room: nat)
    requires AllUnbroken(lines)
    ensures ReadLines(room, Framed(lines), 0, |lines|) == lines <==> Fits(lines, room)
    decreases |lines|
  {
    if lines != [] {
      var line, rest := lines[0], lines[1..];
      assert Unbroken(line) && lines == [line] + rest;
      if |line| < room {
        RecoversExactlyWhenFits(rest, room);
        ReadsShortLine(room, line, Framed(rest), |rest|);
        ConsEqual(line, rest, ReadLines(room, Framed(rest), 0, |rest|));
      } else if |line| > room {
        ReadsLongLine(room, line, Framed(rest), |rest|);
      } else {
        RecoversFullLine(lines, room);
      }
    }
  }

  lemma RecoversFullLine(lines: seq<seq<Byte>>, room: nat)
    requires AllUnbroken(lines) && lines != [] && |lines[0]| == room
    ensures ReadLines(room, Framed(lines), 0, |lines|) == lines <==> AllEmpty(lines[1..])
  {
    var line, rest := lines[0], lines[1..];
    assert Unbroken(line) && lines == [line] + rest;
    if room == 0 {
      ReadsNothing(Framed(lines), 0, |lines|);
      EmptyExactly(lines, ReadLines(0, Framed(lines), 0, |lines|));
    } else {
      ReadsFullLine(room, line, Framed(rest), |rest|);
      if rest != [] {
        BehindByOne(room, rest);
        ConsEqual(line, rest, [[]] + ReadLines(room, Framed(rest), 0, |rest| - 1));
      }
    }
  }

  lemma EmptyExactly(lines: seq<seq<Byte>>, read: seq<seq<Byte>>)
    requires lines != [] && lines[0] == [] && |read| == |lines| && AllEmpty(read)
    ensures read == lines <==> AllEmpty(lines[1..])
  {
    ConsEmpty(lines);
  }
}
