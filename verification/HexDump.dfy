/**
 hex_dump() of common.c: the 128-byte line buffer that is overwritten in place, and the text it prints.

 `LineColumns` says what every column of a printed line holds. `ReadBack` is a reader of dumps that looks only at the
 text; that it recovers the data is what the dump is for.
 */
module HexDump {
  import opened Bytes

  type Nibble = d: int | 0 <= d < 16

  function Digit(d: Nibble): (c: char)
    ensures c != '\0' && c != ' ' && IsHex(c) && Value(c) == d
  {
    if d < 10 then '0' + d as char else 'a' + (d - 10) as char
  }

  predicate IsHex(c: char) { '0' <= c <= '9' || 'a' <= c <= 'f' }

  function Value(c: char): Nibble {
    if '0' <= c <= '9' then c as int - '0' as int else if 'a' <= c <= 'f' then c as int - 'a' as int + 10 else 0
  }

  function High(b: Byte): Nibble { b / 16 }

  function Low(b: Byte): Nibble { b % 16 }

  function Ascii(b: Byte): (c: char)
    ensures c != '\0'
  {
    if 31 < b < 127 then b as char else '.'
  }

  /** sprintf("%04x"): at least four digits. */
  function Padded(n: nat): (s: string)
    ensures |s| >= 4
    ensures forall k :: 0 <= k < |s| ==> s[k] != '\0'
  {
    if n < 65536 then [Digit(n / 16 / 16 / 16), Digit(n / 16 / 16 % 16), Digit(n / 16 % 16), Digit(n % 16)]
    else Padded(n / 16) + [Digit(n % 16)]
  }

  /** Five characters of sprintf("+%04x"), the number of them that memcpy() takes. */
  function OffsetText(offset: nat): (s: string)
    ensures |s| == 5
  {
    "+" + Padded(offset)[..4]
  }

  /** A line without bytes: the offset and 69 blanks. */
  function Blank(offset: nat): (s: string)
    ensures |s| == 75
  {
    OffsetText(offset) + seq(69, i => ' ') + "\n"
  }

  /** `b` in the `j`th of the sixteen places of a line. */
  function Put(s: string, j: nat, b: Byte): (r: string)
    requires |s| == 75 && j < 16
    ensures |r| == 75
  {
    s[8 + j * 3 := Digit(High(b))][8 + j * 3 + 1 := Digit(Low(b))][58 + j := Ascii(b)]
  }

  function Line(offset: nat, chunk: seq<Byte>): (s: string)
    requires |chunk| <= 16
    ensures |s| == 75
  {
    if chunk == [] then Blank(offset)
    else Put(Line(offset, chunk[..|chunk| - 1]), |chunk| - 1, chunk[|chunk| - 1])
  }

  /** Where line `k` of a dump of `size` bytes ends. */
  function LineEnd(size: nat, k: nat): nat {
    if size < 16 * k + 16 then size else 16 * k + 16
  }

  /** A line for every 16 bytes, and one for what remains. */
  ghost predicate IsDump(lines: seq<string>, data: seq<Byte>) {
    && |lines| == (|data| + 15) / 16
    && forall k :: 0 <= k < |lines| ==> lines[k] == Line(16 * k, data[16 * k..LineEnd(|data|, k)])
  }

  // ----- what is in the columns -----

  /** The `m`th place: its two hexadecimal columns and the blank after them, its ASCII column. */
  ghost predicate Place(s: string, chunk: seq<Byte>, m: nat)
    requires |s| == 75 && m < 16
  {
    && s[10 + 3 * m] == ' '
    && (if m < |chunk| then Shows(s[8 + 3 * m], s[9 + 3 * m], s[58 + m], chunk[m])
        else s[8 + 3 * m] == s[9 + 3 * m] == s[58 + m] == ' ')
  }

  /** Two hexadecimal digits with the value of `b`, and the character itself if it is printable, otherwise a dot. */
  ghost predicate Shows(high: char, low: char, text: char, b: Byte) {
    && IsHex(high) && IsHex(low) && 16 * Value(high) + Value(low) == b as int
    && (if 32 <= b <= 126 then text as int == b as int else text == '.')
  }

  lemma ByteShows(b: Byte)
    ensures Shows(Digit(High(b)), Digit(Low(b)), Ascii(b), b)
  {
  }

  /** The first four hexadecimal digits of `n`, as a number. */
  function LeadingFour(n: nat): nat {
    if n < 65536 then n else LeadingFour(n / 16)
  }

  /** All 75 columns: the offset, the places, blanks and a newline; nothing is left over from the line before. */
  lemma LineColumns(offset: nat, chunk: seq<Byte>)
    requires |chunk| <= 16
    ensures var s := Line(offset, chunk);
      && s[0] == '+' && (forall k :: 1 <= k < 5 ==> IsHex(s[k]))
      && 4096 * Value(s[1]) + 256 * Value(s[2]) + 16 * Value(s[3]) + Value(s[4]) == LeadingFour(offset)
      && s[5] == s[6] == s[7] == s[56] == s[57] == ' ' && s[74] == '\n'
      && forall m :: 0 <= m < 16 ==> Place(s, chunk, m)
  {
    LineMargins(offset, chunk);
    OffsetColumns(offset, Line(offset, chunk));
    forall m | 0 <= m < 16 ensures Place(Line(offset, chunk), chunk, m) {
      LinePlace(offset, chunk, m);
    }
  }

  lemma OffsetColumns(offset: nat, s: string)
    requires |s| == 75 && s[..5] == OffsetText(offset)
    ensures s[0] == '+' && (forall k :: 1 <= k < 5 ==> IsHex(s[k]))
    ensures 4096 * Value(s[1]) + 256 * Value(s[2]) + 16 * Value(s[3]) + Value(s[4]) == LeadingFour(offset)
  {
    PaddedDigits(offset);
    assert s[0] == s[..5][0] && forall k :: 1 <= k < 5 ==> s[k] == s[..5][k] == Padded(offset)[k - 1];
  }

  lemma FourDigits(n: nat)
    requires n < 65536
    ensures var p := Padded(n); 4096 * Value(p[0]) + 256 * Value(p[1]) + 16 * Value(p[2]) + Value(p[3]) == n
  {
    assert n == 16 * (n / 16) + n % 16;
    assert n / 16 == 16 * (n / 16 / 16) + n / 16 % 16;
    assert n / 16 / 16 == 16 * (n / 16 / 16 / 16) + n / 16 / 16 % 16;
  }

  lemma {:induction false} PaddedDigits(n: nat)
    ensures var p := Padded(n);
      && (forall k :: 0 <= k < 4 ==> IsHex(p[k]))
      && 4096 * Value(p[0]) + 256 * Value(p[1]) + 16 * Value(p[2]) + Value(p[3]) == LeadingFour(n)
  {
    if n < 65536 {
      FourDigits(n);
    } else {
      PaddedDigits(n / 16);
      assert forall k :: 0 <= k < 4 ==> Padded(n)[k] == Padded(n / 16)[k];
    }
  }

  lemma {:induction false} LineMargins(offset: nat, chunk: seq<Byte>)
    requires |chunk| <= 16
    ensures var s := Line(offset, chunk);
      s[..5] == OffsetText(offset) && s[5] == s[6] == s[7] == s[56] == s[57] == ' ' && s[74] == '\n'
  {
    if chunk != [] {
      var n := |chunk| - 1;
      LineMargins(offset, chunk[..n]);
      assert Line(offset, chunk)[..5] == Line(offset, chunk[..n])[..5];
    }
  }

  lemma {:induction false} LinePlace(offset: nat, chunk: seq<Byte>, m: nat)
    requires |chunk| <= 16 && m < 16
    ensures Place(Line(offset, chunk), chunk, m)
  {
    if chunk != [] {
      LinePlace(offset, chunk[..|chunk| - 1], m);
      ByteShows(chunk[|chunk| - 1]);
    }
  }

  // ----- the program -----

  /** printf("%s"): the characters before the first NUL. */
  function CString(s: string): string {
    if s == "" || s[0] == '\0' then "" else [s[0]] + CString(s[1..])
  }

  lemma {:induction false} CStringEndsAtNul(s: string, n: nat)
    requires n < |s| && s[n] == '\0' && forall k :: 0 <= k < n ==> s[k] != '\0'
    ensures CString(s) == s[..n]
  {
    if n > 0 {
      CStringEndsAtNul(s[1..], n - 1);
      assert s[..n] == [s[0]] + s[1..][..n - 1];
    }
  }

  lemma {:induction false} LineHasNoNul(offset: nat, chunk: seq<Byte>)
    requires |chunk| <= 16
    ensures forall k :: 0 <= k < 75 ==> Line(offset, chunk)[k] != '\0'
  {
    if chunk != [] { LineHasNoNul(offset, chunk[..|chunk| - 1]); }
  }

  /** The buffer holds a line and is terminated. */
  ghost predicate Holds(buffer: seq<char>, offset: nat, chunk: seq<Byte>) {
    |buffer| == 128 && |chunk| <= 16 && buffer[..75] == Line(offset, chunk) && buffer[75] == '\0'
  }

  lemma HeldLinePrints(buffer: seq<char>, offset: nat, chunk: seq<Byte>)
    requires Holds(buffer, offset, chunk)
    ensures CString(buffer) == Line(offset, chunk)
  {
    LineHasNoNul(offset, chunk);
    assert forall k :: 0 <= k < 75 ==> buffer[k] == buffer[..75][k];
    CStringEndsAtNul(buffer, 75);
  }

  /** memset() of the columns and a new offset. */
  method StartLine(buffer: array<char>, offset: nat)
    requires buffer.Length == 128 && buffer[74] == '\n' && buffer[75] == '\0'
    modifies buffer
    ensures Holds(buffer[..], offset, [])
  {
    for k := 0 to 74
      invariant buffer[74] == '\n' && buffer[75] == '\0' && forall i :: 0 <= i < k ==> buffer[i] == ' '
    {
      buffer[k] := ' ';
    }
    var temp := OffsetText(offset);
    buffer[0], buffer[1], buffer[2], buffer[3], buffer[4] := temp[0], temp[1], temp[2], temp[3], temp[4];
  }

  method PutByte(buffer: array<char>, ghost offset: nat, ghost chunk: seq<Byte>, j: nat, b: Byte)
    requires buffer.Length == 128 && Holds(buffer[..], offset, chunk) && j == |chunk| < 16
    modifies buffer
    ensures Holds(buffer[..], offset, chunk + [b])
  {
    buffer[8 + j * 3] := Digit(High(b));
    buffer[8 + j * 3 + 1] := Digit(Low(b));
    buffer[58 + j] := Ascii(b);
    assert (chunk + [b])[..j] == chunk;
    assert buffer[..75] == Put(old(buffer[..75]), j, b);
  }

  /** The lines printed are those of the first `i` - `j` bytes, and the buffer holds the `j` bytes after them. */
  ghost predicate Progress(lines: seq<string>, buffer: seq<char>, data: seq<Byte>, i: nat, j: nat) {
    && j <= i <= |data| && i - j == 16 * |lines|
    && Holds(buffer, i - j, data[i - j..i])
    && IsDump(lines, data[..i - j])
  }

  lemma PrintedLine(lines: seq<string>, buffer: seq<char>, data: seq<Byte>, i: nat, j: nat)
    requires Progress(lines, buffer, data, i, j) && j > 0
    ensures IsDump(lines + [CString(buffer)], data[..i])
  {
    var start := i - j;
    HeldLinePrints(buffer, start, data[start..i]);
    forall k | 0 <= k <= |lines|
      ensures (lines + [CString(buffer)])[k] == Line(16 * k, data[..i][16 * k..LineEnd(i, k)])
    {
      SameChunk(data, |lines|, i, k);
    }
  }

  /** The chunks of a longer prefix are those of a shorter one with whole lines, and what is new. */
  lemma SameChunk(data: seq<Byte>, n: nat, i: nat, k: nat)
    requires 16 * n < i <= |data| && i <= 16 * n + 16 && k <= n
    ensures 16 * k <= LineEnd(i, k) <= i
    ensures k < n ==> data[..i][16 * k..LineEnd(i, k)] == data[..16 * n][16 * k..LineEnd(16 * n, k)]
    ensures k == n ==> data[..i][16 * k..LineEnd(i, k)] == data[16 * n..i]
  {
    if k < n {
      assert LineEnd(i, k) == LineEnd(16 * n, k) == 16 * k + 16;
      assert data[..i][16 * k..16 * k + 16] == data[..16 * n][16 * k..16 * k + 16];
    } else {
      assert LineEnd(i, k) == i;
      assert data[..i][16 * n..i] == data[16 * n..i];
    }
  }

  lemma LastColumns(buffer: seq<char>, offset: nat, chunk: seq<Byte>)
    requires Holds(buffer, offset, chunk)
    ensures buffer[74] == '\n' && buffer[75] == '\0'
  {
    LineMargins(offset, chunk);
    assert buffer[74] == buffer[..75][74];
  }

  lemma SliceSnoc(data: seq<Byte>, from: nat, to: nat)
    requires from <= to < |data|
    ensures data[from..to] + [data[to]] == data[from..to + 1]
  {
  }

  method Print(lines: seq<string>, buffer: array<char>, ghost data: seq<Byte>, ghost i: nat, ghost j: nat)
    returns (lines': seq<string>)
    requires buffer.Length == 128 && j > 0 && Progress(lines, buffer[..], data, i, j)
    ensures IsDump(lines', data[..i]) && |lines'| == |lines| + 1
  {
    PrintedLine(lines, buffer[..], data, i, j);
    lines' := lines + [CString(buffer[..])];
  }

  /** A full line is printed and the next one started. */
  method NextLine(lines: seq<string>, buffer: array<char>, ghost data: seq<Byte>, i: nat) returns (lines': seq<string>)
    requires buffer.Length == 128 && Progress(lines, buffer[..], data, i, 16)
    modifies buffer
    ensures Progress(lines', buffer[..], data, i, 0)
  {
    lines' := Print(lines, buffer, data, i, 16);
    LastColumns(buffer[..], i - 16, data[i - 16..i]);
    StartLine(buffer, i);
    assert data[i..i] == [];
  }

  /** The body of the loop. */
  method DumpByte(lines: seq<string>, buffer: array<char>, data: seq<Byte>, i: nat, j: nat)
    returns (lines': seq<string>, j': nat)
    requires buffer.Length == 128 && i < |data| && j <= 16 && Progress(lines, buffer[..], data, i, j)
    modifies buffer
    ensures 0 < j' <= 16 && Progress(lines', buffer[..], data, i + 1, j')
  {
    lines', j' := lines, j;
    if j == 16 {
      lines' := NextLine(lines, buffer, data, i);
      j' := 0;
    }
    AppendByte(lines', buffer, data, i, j');
    j' := j' + 1;
  }

  method AppendByte(ghost lines: seq<string>, buffer: array<char>, data: seq<Byte>, i: nat, j: nat)
    requires buffer.Length == 128 && i < |data| && j < 16 && Progress(lines, buffer[..], data, i, j)
    modifies buffer
    ensures Progress(lines, buffer[..], data, i + 1, j + 1)
  {
    PutByte(buffer, i - j, data[i - j..i], j, data[i]);
    SliceSnoc(data, i - j, i);
  }

  lemma NothingDumped(buffer: seq<char>, data: seq<Byte>)
    requires Holds(buffer, 0, [])
    ensures Progress([], buffer, data, 0, 0)
  {
    assert data[0..0] == [];
  }

  /** hex_dump(): what is printed after the ruler is a dump of the first `size` bytes; nothing when `size` is not positive. */
  method HexDump(data: seq<Byte>, size: int) returns (lines: seq<string>)
    requires size <= |data|
    ensures IsDump(lines, if size > 0 then data[..size] else [])
  {
    var buffer := new char[128](i => '\0');
    buffer[74], buffer[75] := '\n', '\0';
    StartLine(buffer, 0);
    var i, j := 0, 0;
    lines := [];
    NothingDumped(buffer[..], data);
    while i < size
      invariant (i == 0 || i <= size) && (i > 0 ==> j > 0) && j <= 16 && Progress(lines, buffer[..], data, i, j)
    {
      lines, j := DumpByte(lines, buffer, data, i, j);
      i := i + 1;
    }
    if j != 0 {
      lines := Print(lines, buffer, data, i, j);
    }
  }

  // ----- reading it back -----

  function ByteOf(high: Nibble, low: Nibble): Byte { 16 * (high as int) + low as int }

  /** The bytes in the hexadecimal columns from the `m`th on, up to a blank. */
  function ReadLine(s: string, m: nat): seq<Byte>
    decreases 16 - m
  {
    if m >= 16 || |s| < 75 || s[8 + 3 * m] == ' ' then []
    else [ByteOf(Value(s[8 + 3 * m]), Value(s[9 + 3 * m]))] + ReadLine(s, m + 1)
  }

  function ReadBack(lines: seq<string>): seq<Byte> {
    Concat((s: string) => ReadLine(s, 0), lines)
  }

  function Concat(f: string -> seq<Byte>, lines: seq<string>): seq<Byte> {
    if lines == [] then [] else Concat(f, lines[..|lines| - 1]) + f(lines[|lines| - 1])
  }

  lemma {:induction false} ReadLineBack(s: string, chunk: seq<Byte>, m: nat)
    requires |s| == 75 && m <= |chunk| <= 16 && forall k :: 0 <= k < 16 ==> Place(s, chunk, k)
    ensures ReadLine(s, m) == chunk[m..]
    decreases |chunk| - m
  {
    if m < 16 { assert Place(s, chunk, m); }
    if m < |chunk| {
      ReadLineBack(s, chunk, m + 1);
      assert chunk[m..] == [chunk[m]] + chunk[m + 1..];
    }
  }

  /** The dump has ceil(size / 16) lines, and reading the hexadecimal columns gives back exactly the data. */
  lemma ReadBackIsInverse(lines: seq<string>, data: seq<Byte>)
    requires IsDump(lines, data)
    ensures |lines| == (|data| + 15) / 16
    ensures ReadBack(lines) == data
  {
    var f := (s: string) => ReadLine(s, 0);
    forall k | 0 <= k < |lines| ensures f(lines[k]) == data[16 * k..LineEnd(|data|, k)] {
      LineColumns(16 * k, data[16 * k..LineEnd(|data|, k)]);
      ReadLineBack(lines[k], data[16 * k..LineEnd(|data|, k)], 0);
    }
    ConcatPieces(f, lines, data, |lines|);
    assert lines[..|lines|] == lines;
    if lines != [] { assert data[..LineEnd(|data|, |lines| - 1)] == data; }
  }

  lemma {:induction false} ConcatPieces(f: string -> seq<Byte>, lines: seq<string>, data: seq<Byte>, k: nat)
    requires k <= |lines| == (|data| + 15) / 16
    requires forall m :: 0 <= m < |lines| ==> f(lines[m]) == data[16 * m..LineEnd(|data|, m)]
    ensures Concat(f, lines[..k]) == if k == 0 then [] else data[..LineEnd(|data|, k - 1)]
  {
    if k > 0 {
      var from, to := 16 * (k - 1), LineEnd(|data|, k - 1);
      ConcatPieces(f, lines, data, k - 1);
      assert lines[..k][..k - 1] == lines[..k - 1];
      assert data[..from] + data[from..to] == data[..to];
    }
  }

  /** What the ASCII columns can show of the data. */
  function Text(data: seq<Byte>): (r: seq<Byte>)
    ensures |r| == |data|
    ensures forall k :: 0 <= k < |data| ==> r[k] == if 32 <= data[k] <= 126 then data[k] else 46
  {
    seq(|data|, k requires 0 <= k < |data| => if 32 <= data[k] <= 126 then data[k] else 46)
  }

  /** The characters in the ASCII columns from the `m`th on, as long as there are hexadecimal digits. */
  function ReadText(s: string, m: nat): seq<Byte>
    decreases 16 - m
  {
    if m >= 16 || |s| < 75 || s[8 + 3 * m] == ' ' then []
    else [if s[58 + m] as int < 256 then s[58 + m] as int else 0] + ReadText(s, m + 1)
  }

  lemma {:induction false} ReadTextBack(s: string, chunk: seq<Byte>, m: nat)
    requires |s| == 75 && m <= |chunk| <= 16 && forall k :: 0 <= k < 16 ==> Place(s, chunk, k)
    ensures ReadText(s, m) == Text(chunk)[m..]
    decreases |chunk| - m
  {
    if m < 16 { assert Place(s, chunk, m); }
    if m < |chunk| {
      ReadTextBack(s, chunk, m + 1);
      assert Text(chunk)[m..] == [Text(chunk)[m]] + Text(chunk)[m + 1..];
    }
  }

  function ReadTextOf(lines: seq<string>): seq<Byte> {
    Concat((s: string) => ReadText(s, 0), lines)
  }

  lemma TextOfLine(lines: seq<string>, data: seq<Byte>, k: nat)
    requires IsDump(lines, data) && k < |lines|
    ensures ReadText(lines[k], 0) == Text(data)[16 * k..LineEnd(|data|, k)]
  {
    var chunk := data[16 * k..LineEnd(|data|, k)];
    LineColumns(16 * k, chunk);
    ReadTextBack(lines[k], chunk, 0);
    TextOfSlice(data, 16 * k, LineEnd(|data|, k));
  }

  lemma TextOfSlice(data: seq<Byte>, from: nat, to: nat)
    requires from <= to <= |data|
    ensures Text(data[from..to]) == Text(data)[from..to]
  {
  }

  /** Reading the ASCII columns gives the data with dots for what is not printable ... */
  lemma ReadTextOfDump(lines: seq<string>, data: seq<Byte>)
    requires IsDump(lines, data)
    ensures ReadTextOf(lines) == Text(data)
  {
    var f := (s: string) => ReadText(s, 0);
    forall k | 0 <= k < |lines| ensures f(lines[k]) == Text(data)[16 * k..LineEnd(|data|, k)] {
      TextOfLine(lines, data, k);
    }
    ConcatPieces(f, lines, Text(data), |lines|);
    assert lines[..|lines|] == lines;
    if lines != [] { assert Text(data)[..LineEnd(|data|, |lines| - 1)] == Text(data); }
  }

  /** ... that is, the data itself exactly if all of it is printable. */
  lemma TextIsDataIfPrintable(lines: seq<string>, data: seq<Byte>)
    requires IsDump(lines, data)
    ensures ReadTextOf(lines) == data <==> forall k :: 0 <= k < |data| ==> 32 <= data[k] <= 126
  {
    ReadTextOfDump(lines, data);
    if ReadTextOf(lines) == data {
      forall k | 0 <= k < |data| ensures 32 <= data[k] <= 126 {
        assert Text(data)[k] == data[k];
      }
    }
  }

  /** A printed offset is right if and only if it has four digits: beyond 65535 the last ones are cut off. */
  lemma OffsetRightBelow64K(offset: nat, chunk: seq<Byte>)
    requires |chunk| <= 16
    ensures var s := Line(offset, chunk);
      4096 * Value(s[1]) + 256 * Value(s[2]) + 16 * Value(s[3]) + Value(s[4]) == offset <==> offset < 65536
  {
    LineColumns(offset, chunk);
    LeadingFourIsLess(offset);
  }

  lemma {:induction false} LeadingFourIsLess(n: nat)
    ensures LeadingFour(n) < 65536
  {
    if n >= 65536 { LeadingFourIsLess(n / 16); }
  }
}
