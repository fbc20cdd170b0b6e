/**
 The restart library, restart_lib-Robbins.c, against a kernel that may deliver and accept any number of bytes, be
 interrupted (EINTR) and fail.

 The one assumption on the kernel is progress: `patience` bounds the interruptions and empty writes still to come, by
 any number. Without it r_read() and r_write() need not return. `errors` counts the calls that failed for any other
 reason than EINTR; the library reports failure exactly for those.
 */
module RestartIO {
  import opened Bytes

  /** A descriptor to read from: a file or a stream that will deliver `data`. */
  class Source {
    const data: seq<Byte>
    var pos: nat
    var patience: nat
    ghost var errors: nat

    ghost predicate Valid() reads this { pos <= |data| }

    constructor (data: seq<Byte>, patience: nat)
      ensures Valid() && this.data == data && pos == 0 && errors == 0
    {
      this.data, this.pos, this.patience, this.errors := data, 0, patience, 0;
    }

    /** read(2): any 1..size bytes, 0 only at end of file, -1 with EINTR or another error. */
    method Read(buf: array<Byte>, at: nat, size: nat) returns (n: int, eintr: bool)
      requires Valid() && at + size <= buf.Length
      modifies this, buf
      ensures Valid() && -1 <= n <= size && patience <= old(patience)
      ensures n >= 0 ==> pos == old(pos) + n && buf[at..at + n] == data[old(pos)..pos]
      ensures n == 0 ==> size == 0 || pos == |data|
      ensures n == -1 ==> pos == old(pos)
      ensures n == -1 && eintr ==> patience < old(patience)
      ensures errors == old(errors) + (if n == -1 && !eintr then 1 else 0)
      ensures forall k :: 0 <= k < buf.Length && !(at <= k < at + n) ==> buf[k] == old(buf[k])
    {
      n, eintr := *, *;
      if n < 0 || n > size || n > |data| - pos || (n == 0 && size > 0 && pos < |data|) {
        n := -1;
        if eintr && patience > 0 { patience := patience - 1; } else { eintr, errors := false, errors + 1; }
        return;
      }
      for k := 0 to n
        invariant pos == old(pos) && patience == old(patience) && errors == old(errors)
        invariant forall i :: 0 <= i < buf.Length ==> buf[i] == if at <= i < at + k then data[pos + i - at] else old(buf[i])
      {
        buf[at + k] := data[pos + k];
      }
      pos := pos + n;
    }
  }

  /** A descriptor to write to: the bytes it has accepted. */
  class Sink {
    var data: seq<Byte>
    var patience: nat
    ghost var errors: nat

    constructor (patience: nat)
      ensures data == [] && errors == 0
    {
      this.data, this.patience, this.errors := [], patience, 0;
    }

    /** write(2): any number of the bytes offered, or -1 with EINTR or another error. */
    method Write(buf: array<Byte>, at: nat, size: nat) returns (n: int, eintr: bool)
      requires at + size <= buf.Length && size > 0
      modifies this
      ensures -1 <= n <= size && patience <= old(patience)
      ensures n >= 0 ==> data == old(data) + buf[at..at + n]
      ensures n == -1 ==> data == old(data)
      ensures n == 0 || (n == -1 && eintr) ==> patience < old(patience)
      ensures errors == old(errors) + (if n == -1 && !eintr then 1 else 0)
    {
      n, eintr := *, *;
      if n < 0 || n > size || (n == 0 && patience == 0) {
        n := -1;
        if eintr && patience > 0 { patience := patience - 1; } else { eintr, errors := false, errors + 1; }
        return;
      }
      if n == 0 { patience := patience - 1; }
      data := data + buf[at..at + n];
    }
  }

  /** r_read(): read(2) without EINTR; -1 means that a call failed otherwise. */
  method RRead(fd: Source, buf: array<Byte>, size: nat) returns (n: int)
    requires fd.Valid() && size <= buf.Length
    modifies fd, buf
    ensures fd.Valid() && -1 <= n <= size
    ensures n >= 0 ==> fd.pos == old(fd.pos) + n && buf[..n] == fd.data[old(fd.pos)..fd.pos]
    ensures n == 0 ==> size == 0 || fd.pos == |fd.data|
    ensures n == -1 ==> fd.pos == old(fd.pos)
    ensures fd.errors == old(fd.errors) + (if n == -1 then 1 else 0)
  {
    var eintr;
    n, eintr := fd.Read(buf, 0, size);
    while n == -1 && eintr
      invariant fd.Valid() && -1 <= n <= size
      invariant n >= 0 ==> fd.pos == old(fd.pos) + n && buf[..n] == fd.data[old(fd.pos)..fd.pos]
      invariant n == 0 ==> size == 0 || fd.pos == |fd.data|
      invariant n == -1 ==> fd.pos == old(fd.pos)
      invariant fd.errors == old(fd.errors) + (if n == -1 && !eintr then 1 else 0)
      decreases if n == -1 && eintr then 1 else 0, fd.patience
    {
      n, eintr := fd.Read(buf, 0, size);
    }
  }

  /** r_write(): everything, or -1 after a proper prefix. */
  method RWrite(fd: Sink, buf: array<Byte>, size: nat) returns (n: int)
    requires size <= buf.Length
    modifies fd
    ensures n == size || n == -1
    ensures n == size ==> fd.data == old(fd.data) + buf[..size]
    ensures n == -1 ==> |old(fd.data)| <= |fd.data| < |old(fd.data)| + size
    ensures n == -1 ==> fd.data == old(fd.data) + buf[..|fd.data| - |old(fd.data)|]
    ensures fd.errors == old(fd.errors) + (if n == -1 then 1 else 0)
  {
    var bufp, bytesToWrite, totalBytes := 0, size, 0;
    while bytesToWrite > 0
      invariant bytesToWrite >= 0 && bufp + bytesToWrite == size && totalBytes == bufp
      invariant fd.data == old(fd.data) + buf[..bufp] && fd.errors == old(fd.errors)
      decreases bytesToWrite, fd.patience
    {
      var bytesWritten, eintr := fd.Write(buf, bufp, bytesToWrite);
      if bytesWritten == -1 && !eintr { return -1; }
      if bytesWritten == -1 { bytesWritten := 0; }
      assert buf[..bufp] + buf[bufp..bufp + bytesWritten] == buf[..bufp + bytesWritten];
      totalBytes := totalBytes + bytesWritten;
      bufp, bytesToWrite := bufp + bytesWritten, bytesToWrite - bytesWritten;
    }
    return totalBytes;
  }

  /** What moved from a source to a sink between two moments: consumed from the one, appended to the other, in order. */
  ghost predicate Moved(data: seq<Byte>, from: nat, to: nat, before: seq<Byte>, after: seq<Byte>) {
    && from <= to <= |data|
    && |before| <= |after| <= |before| + (to - from)
    && after == before + data[from..from + (|after| - |before|)]
  }

  /** Part of a buffer that was read and then written. */
  lemma MovedBuffer(data: seq<Byte>, from: nat, to: nat, buf: seq<Byte>, before: seq<Byte>, after: seq<Byte>)
    requires from <= to <= |data| && buf == data[from..to]
    requires |before| <= |after| <= |before| + |buf| && after == before + buf[..|after| - |before|]
    ensures Moved(data, from, to, before, after)
  {
    assert buf[..|after| - |before|] == data[from..from + (|after| - |before|)];
  }

  lemma MovedTwice(data: seq<Byte>, a: nat, b: nat, c: nat, x: seq<Byte>, y: seq<Byte>, z: seq<Byte>)
    requires Moved(data, a, b, x, y) && |y| - |x| == b - a && Moved(data, b, c, y, z)
    ensures Moved(data, a, c, x, z)
  {
    var k := |z| - |y|;
    assert data[a..b] + data[b..b + k] == data[a..b + k];
  }

  method ReadWrite(from: Source, to: Sink, blkSize: nat) returns (n: int)
    requires from.Valid() && blkSize > 0
    modifies from, to
    ensures from.Valid() && -1 <= n <= blkSize
    ensures Moved(from.data, old(from.pos), from.pos, old(to.data), to.data)
    ensures n >= 0 ==> n == from.pos - old(from.pos) == |to.data| - |old(to.data)|
    ensures n == 0 ==> from.pos == |from.data|
    ensures n == -1 ==> from.pos - old(from.pos) <= blkSize
    ensures from.errors + to.errors == old(from.errors + to.errors) + (if n == -1 then 1 else 0)
  {
    var buf := new Byte[blkSize];
    var bytesRead := RRead(from, buf, blkSize);
    if bytesRead < 0 { return -1; }
    if bytesRead == 0 { return 0; }
    var written := RWrite(to, buf, bytesRead);
    assert buf[..|to.data| - |old(to.data)|] == buf[..bytesRead][..|to.data| - |old(to.data)|];
    MovedBuffer(from.data, old(from.pos), from.pos, buf[..bytesRead], old(to.data), to.data);
    if written < 0 { return -1; }
    return bytesRead;
  }

  /**
   copyfile(): for every behaviour of the kernel the sink gains a prefix of what was unread, nothing twice and nothing
   out of order; at most one block was read without being counted. It stops at end of file or at the first error, and
   does not tell its caller which.
   */
  method CopyFile(from: Source, to: Sink, blkSize: nat) returns (total: nat)
    requires from.Valid() && blkSize > 0
    modifies from, to
    ensures from.Valid() && Moved(from.data, old(from.pos), from.pos, old(to.data), to.data)
    ensures total <= |to.data| - |old(to.data)| <= from.pos - old(from.pos) <= total + blkSize
    ensures old(from.errors + to.errors) <= from.errors + to.errors <= old(from.errors + to.errors) + 1
    ensures from.errors + to.errors == old(from.errors + to.errors) ==>
      from.pos == |from.data| && total == from.pos - old(from.pos) == |to.data| - |old(to.data)|
  {
    total := 0;
    ghost var pos, out := from.pos, to.data;
    var bytesRead := ReadWrite(from, to, blkSize);
    while bytesRead > 0
      invariant from.Valid() && -1 <= bytesRead <= blkSize
      invariant Moved(from.data, old(from.pos), pos, old(to.data), out) && |out| - |old(to.data)| == pos - old(from.pos) == total
      invariant Moved(from.data, pos, from.pos, out, to.data) && from.pos - pos <= blkSize
      invariant bytesRead >= 0 ==> bytesRead == from.pos - pos == |to.data| - |out|
      invariant bytesRead == 0 ==> from.pos == |from.data|
      invariant from.errors + to.errors == old(from.errors + to.errors) + (if bytesRead == -1 then 1 else 0)
      decreases |from.data| - pos, bytesRead
    {
      MovedTwice(from.data, old(from.pos), pos, from.pos, old(to.data), out, to.data);
      total := total + bytesRead;
      pos, out := from.pos, to.data;
      bytesRead := ReadWrite(from, to, blkSize);
    }
    MovedTwice(from.data, old(from.pos), pos, from.pos, old(to.data), out, to.data);
  }

  /** readblock(): exactly `size` bytes, or 0 at end of file with nothing read; -1 on an error, or at end of file with less. */
  method ReadBlock(fd: Source, buf: array<Byte>, size: nat) returns (n: int)
    requires fd.Valid() && size <= buf.Length
    modifies fd, buf
    ensures fd.Valid() && (n == size || n == 0 || n == -1)
    ensures n == size ==> fd.pos == old(fd.pos) + size && buf[..size] == fd.data[old(fd.pos)..fd.pos]
    ensures n == 0 ==> fd.pos == old(fd.pos) && (size == 0 || fd.pos == |fd.data|)
    ensures n == -1 ==> old(fd.pos) <= fd.pos < old(fd.pos) + size
    ensures n == -1 && fd.errors == old(fd.errors) ==> old(fd.pos) < fd.pos == |fd.data|
    ensures fd.errors == old(fd.errors) || (n == -1 && fd.errors == old(fd.errors) + 1)
  {
    var bufp, bytesToRead, totalBytes := 0, size, 0;
    while bytesToRead > 0
      invariant bytesToRead >= 0 && bufp + bytesToRead == size && totalBytes == bufp
      invariant fd.Valid() && fd.pos == old(fd.pos) + bufp && buf[..bufp] == fd.data[old(fd.pos)..fd.pos]
      invariant fd.errors == old(fd.errors)
      decreases bytesToRead, fd.patience
    {
      ghost var done := buf[..bufp];
      var bytesRead, eintr := fd.Read(buf, bufp, bytesToRead);
      if bytesRead == 0 && totalBytes == 0 { return 0; }
      if bytesRead == 0 { return -1; }
      if bytesRead == -1 && !eintr { return -1; }
      if bytesRead == -1 { bytesRead := 0; }
      assert buf[..bufp] == done;
      assert buf[..bufp + bytesRead] == done + buf[bufp..bufp + bytesRead];
      assert fd.data[old(fd.pos)..fd.pos] == fd.data[old(fd.pos)..old(fd.pos) + bufp] + fd.data[old(fd.pos) + bufp..fd.pos];
      totalBytes := totalBytes + bytesRead;
      bufp, bytesToRead := bufp + bytesRead, bytesToRead - bytesRead;
    }
    return totalBytes;
  }

  /** readwriteblock(): nothing is written unless a whole block was read. */
  method ReadWriteBlock(from: Source, to: Sink, buf: array<Byte>, size: nat) returns (n: int)
    requires from.Valid() && size <= buf.Length
    modifies from, to, buf
    ensures from.Valid() && (n == size || n == 0 || n == -1)
    ensures n == size ==>
      from.pos == old(from.pos) + size && to.data == old(to.data) + from.data[old(from.pos)..from.pos]
    ensures n == 0 ==> to.data == old(to.data) && from.pos == old(from.pos)
    ensures |to.data| > |old(to.data)| ==> from.pos == old(from.pos) + size
    ensures n == 0 ==> size == 0 || from.pos == |from.data|
    ensures n == -1 && from.errors + to.errors == old(from.errors + to.errors) ==>
      old(from.pos) < from.pos == |from.data| < old(from.pos) + size
    ensures n >= 0 ==> from.errors + to.errors == old(from.errors + to.errors)
    ensures Moved(from.data, old(from.pos), from.pos, old(to.data), to.data)
  {
    var bytesRead := ReadBlock(from, buf, size);
    if bytesRead != size { return bytesRead; }
    n := RWrite(to, buf, size);
    assert buf[..|to.data| - |old(to.data)|] == buf[..size][..|to.data| - |old(to.data)|];
    MovedBuffer(from.data, old(from.pos), from.pos, buf[..size], old(to.data), to.data);
  }

  const NEWLINE: Byte := 10

  ghost predicate NoNewline(s: seq<Byte>) {
    forall k :: 0 <= k < |s| ==> s[k] != NEWLINE
  }

  /**
   readline(): a positive result is a whole line, newline and NUL in place; 0 is end of file; -1 means an error, or that
   the line does not fit or is not terminated. What was read before that is in the buffer.
   */
  method ReadLine(fd: Source, buf: array<Byte>, nbytes: int) returns (n: int)
    requires fd.Valid() && nbytes <= buf.Length
    modifies fd, buf
    ensures fd.Valid() && -1 <= n && old(fd.pos) <= fd.pos
    ensures n > 0 ==>
      && n < nbytes && fd.pos == old(fd.pos) + n
      && buf[..n] == fd.data[old(fd.pos)..fd.pos] && buf[n] == 0
      && buf[n - 1] == NEWLINE && NoNewline(buf[..n - 1])
    ensures n == 0 ==> fd.pos == old(fd.pos) == |fd.data| && nbytes > 1
    ensures n == -1 ==> var k := fd.pos - old(fd.pos);
      && (k == 0 || k < nbytes) && buf[..k] == fd.data[old(fd.pos)..fd.pos] && NoNewline(buf[..k])
      && (fd.errors == old(fd.errors) ==> k >= nbytes - 1 || (k > 0 && fd.pos == |fd.data|))
    ensures fd.errors == old(fd.errors) || (n == -1 && fd.errors == old(fd.errors) + 1)
  {
    var numRead := 0;
    while numRead < nbytes - 1
      invariant 0 <= numRead && (numRead > 0 ==> numRead < nbytes)
      invariant fd.Valid() && fd.pos == old(fd.pos) + numRead && numRead <= buf.Length
      invariant buf[..numRead] == fd.data[old(fd.pos)..fd.pos] && NoNewline(buf[..numRead])
      invariant fd.errors == old(fd.errors)
      decreases nbytes - numRead, fd.patience
    {
      var r, eintr := fd.Read(buf, numRead, 1);
      if r == -1 && eintr { continue; }
      if r == 0 && numRead == 0 { return 0; }
      if r == 0 { break; }
      if r == -1 { return -1; }
      numRead := numRead + 1;
      assert buf[..numRead] == buf[..numRead - 1] + buf[numRead - 1..numRead];
      assert fd.data[old(fd.pos)..fd.pos] == fd.data[old(fd.pos)..fd.pos - 1] + fd.data[fd.pos - 1..fd.pos];
      if buf[numRead - 1] == NEWLINE {
        buf[numRead] := 0;
        return numRead;
      }
    }
    return -1;
  }
}
