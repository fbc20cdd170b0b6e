/**
 from_hex() and urlencoding_decode() of svr_pre_mt.c, on octets as the machine has them: wrapping arithmetic, shift and
 bitwise or, so that malformed hexadecimal digits give what the program gives.
 */
module UrlDecode {
  type Octet = bv8

  const NUL: Octet := 0
  const SPACE: Octet := 32
  const PERCENT: Octet := 37
  const PLUS: Octet := 43

  predicate IsDigit(ch: Octet) { 48 <= ch <= 57 }

  function ToLower(ch: Octet): Octet { if 65 <= ch <= 90 then ch + 32 else ch }

  function FromHex(ch: Octet): Octet { if IsDigit(ch) then ch - 48 else ToLower(ch) - 97 + 10 }

  function HexPair(high: Octet, low: Octet): Octet { (FromHex(high) << 4) | FromHex(low) }

  /** from_hex() of any character, in integers: the digit's value if it is one, and otherwise what wraps around to an octet. */
  lemma FromHexValue(ch: Octet)
    ensures var c, r := ch as int, FromHex(ch) as int;
      if 48 <= c <= 57 then r == c - 48
      else if 65 <= c <= 70 then r == c - 55
      else if 97 <= c <= 102 then r == c - 87
      else r == ((if 71 <= c <= 90 then c + 32 else c) + 256 - 87) % 256
  {
  }

  /** Of two digits the first gives the upper half of the octet; a second one that is none spills over into it. */
  lemma HexPairHalves(high: Octet, low: Octet)
    ensures HexPair(high, low) & 15 == FromHex(low) & 15
    ensures HexPair(high, low) >> 4 == (FromHex(high) & 15) | (FromHex(low) >> 4)
  {
  }

  /** The decoding, on the characters before the terminating NUL. A percent sign without two characters after it vanishes. */
  function Decode(s: seq<Octet>): (r: seq<Octet>)
    ensures |r| <= |s|
  {
    if s == [] then []
    else if s[0] == PERCENT then
      if |s| >= 3 then [HexPair(s[1], s[2])] + Decode(s[3..]) else Decode(s[1..])
    else if s[0] == PLUS then [SPACE] + Decode(s[1..])
    else [s[0]] + Decode(s[1..])
  }

  /** `n` is the length of the C string in `str`. */
  ghost predicate IsCString(str: seq<Octet>, n: nat) {
    n < |str| && str[n] == NUL && forall k :: 0 <= k < n ==> str[k] != NUL
  }

  method StrLen(str: array<Octet>, ghost n: nat) returns (r: nat)
    requires IsCString(str[..], n)
    ensures r == n
  {
    r := 0;
    while str[r] != NUL
      invariant r <= n
      decreases n - r
    {
      r := r + 1;
    }
  }

  /**
   The result fits into strlen + 1 bytes, terminator included, and nothing is read beyond the terminator of `str`.
   `length` is not returned by the program; a caller who takes the result for a C string gets all of it exactly when
   nothing decodes to NUL.
   */
  method UrlEncodingDecode(str: array<Octet>, ghost n: nat) returns (buf: array<Octet>, length: nat)
    requires IsCString(str[..], n)
    ensures fresh(buf) && buf.Length == n + 1 && length <= n
    ensures buf[..length] == Decode(str[..n]) && buf[length] == NUL
    ensures IsCString(buf[..], length) <==> NUL !in Decode(str[..n])
  {
    var len := StrLen(str, n);
    buf := new Octet[len + 1];
    var pstr: nat, pbuf: nat := 0, 0;
    ghost var text := str[..n];
    assert buf[..0] == [] && text[0..] == text;
    while str[pstr] != NUL
      invariant pstr <= n && pbuf <= pstr
      invariant Decoding(text, pstr, buf[..pbuf])
      decreases n - pstr
    {
      pstr, pbuf := DecodeOne(str, n, buf, pstr, pbuf);
    }
    assert pstr == n && text[n..] == [];
    buf[pbuf] := NUL;
    length := pbuf;
    assert forall k :: 0 <= k < length ==> buf[..][k] == buf[..length][k];
  }

  /** The body of the loop. */
  method DecodeOne(str: array<Octet>, ghost n: nat, buf: array<Octet>, pstr: nat, pbuf: nat)
    returns (pstr': nat, pbuf': nat)
    requires str != buf && IsCString(str[..], n) && buf.Length == n + 1 && pbuf <= pstr < n
    requires Decoding(str[..n], pstr, buf[..pbuf])
    modifies buf
    ensures pstr < pstr' <= n && pbuf' <= pstr'
    ensures Decoding(str[..n], pstr', buf[..pbuf'])
  {
    DecodingStep(str[..n], pstr, buf[..pbuf]);
    pstr', pbuf' := pstr, pbuf;
    if str[pstr] == PERCENT {
      if str[pstr + 1] != NUL && str[pstr + 2] != NUL {
        pbuf' := Put(buf, pbuf, HexPair(str[pstr + 1], str[pstr + 2]));
        pstr' := pstr + 2;
      }
    } else if str[pstr] == PLUS {
      pbuf' := Put(buf, pbuf, SPACE);
    } else {
      pbuf' := Put(buf, pbuf, str[pstr]);
    }
    pstr' := pstr' + 1;
  }

  method Put(buf: array<Octet>, pbuf: nat, x: Octet) returns (pbuf': nat)
    requires pbuf < buf.Length
    modifies buf
    ensures pbuf' == pbuf + 1 && buf[..pbuf'] == old(buf[..pbuf]) + [x]
  {
    buf[pbuf] := x;
    pbuf' := pbuf + 1;
    assert buf[..pbuf'] == buf[..pbuf] + [x];
  }

  /** Having read `at` characters and written `done` is on the way to the decoding of `text`. */
  ghost predicate Decoding(text: seq<Octet>, at: nat, done: seq<Octet>) {
    at <= |text| && done + Decode(text[at..]) == Decode(text)
  }

  lemma DecodingStep(text: seq<Octet>, at: nat, done: seq<Octet>)
    requires at < |text| && Decoding(text, at, done)
    ensures text[at] == PERCENT && at + 2 < |text| ==> Decoding(text, at + 3, done + [HexPair(text[at + 1], text[at + 2])])
    ensures text[at] == PERCENT && at + 2 >= |text| ==> Decoding(text, at + 1, done)
    ensures text[at] == PLUS ==> Decoding(text, at + 1, done + [SPACE])
    ensures text[at] != PERCENT && text[at] != PLUS ==> Decoding(text, at + 1, done + [text[at]])
  {
    var rest := text[at..];
    assert rest[1..] == text[at + 1..];
    if at + 2 < |text| { assert rest[3..] == text[at + 3..]; }
    var x := if rest[0] == PLUS then SPACE else if rest[0] == PERCENT && |rest| >= 3 then HexPair(rest[1], rest[2]) else rest[0];
    var k := if rest[0] == PERCENT && |rest| >= 3 then 3 else 1;
    assert done + ([x] + Decode(rest[k..])) == done + [x] + Decode(rest[k..]);
  }

  // ----- encodings -----

  /** How one octet may be written: as itself, as "+", or as a percent sign and two hexadecimal digits of either case. */
  datatype Form = Plain | Plus | Percent(upperHigh: bool, upperLow: bool)

  predicate Allowed(b: Octet, f: Form) {
    match f
    case Plain => b != PERCENT && b != PLUS && b != NUL
    case Plus => b == SPACE
    case Percent(_, _) => true
  }

  function HexDigit(nibble: Octet, upper: bool): Octet {
    if nibble < 10 then 48 + nibble else if upper then 55 + nibble else 87 + nibble
  }

  function Written(b: Octet, f: Form): seq<Octet> {
    match f
    case Plain => [b]
    case Plus => [PLUS]
    case Percent(high, low) => [PERCENT, HexDigit(b >> 4, high), HexDigit(b & 15, low)]
  }

  /** The octets `x`, each written in the form chosen for it. */
  function Encode(x: seq<Octet>, forms: seq<Form>): seq<Octet>
    requires |forms| == |x|
  {
    if x == [] then [] else Written(x[0], forms[0]) + Encode(x[1..], forms[1..])
  }

  lemma HexPairInverse(b: Octet, high: bool, low: bool)
    ensures HexPair(HexDigit(b >> 4, high), HexDigit(b & 15, low)) == b
    ensures HexDigit(b >> 4, high) != NUL && HexDigit(b & 15, low) != NUL
  {
  }

  lemma DecodeWritten(b: Octet, f: Form, rest: seq<Octet>)
    requires Allowed(b, f)
    ensures Decode(Written(b, f) + rest) == [b] + Decode(rest)
    ensures NUL !in Written(b, f)
  {
    assert (Written(b, f) + rest)[|Written(b, f)|..] == rest;
    if f.Percent? { HexPairInverse(b, f.upperHigh, f.upperLow); }
  }

  /** Every encoding of every octet string decodes to that string, and is a C string itself. */
  lemma {:induction false} DecodeInvertsEncode(x: seq<Octet>, forms: seq<Form>)
    requires |forms| == |x| && forall k :: 0 <= k < |x| ==> Allowed(x[k], forms[k])
    ensures Decode(Encode(x, forms)) == x
    ensures NUL !in Encode(x, forms)
  {
    if x != [] {
      DecodeInvertsEncode(x[1..], forms[1..]);
      DecodeWritten(x[0], forms[0], Encode(x[1..], forms[1..]));
      assert x == [x[0]] + x[1..];
    }
  }
}
