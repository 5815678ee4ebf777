/**
 * JavaScript's `encodeURIComponent` on a string of Unicode scalar values: characters
 * outside the unreserved set are written as the percent-escaped bytes of their UTF-8
 * form, with upper-case hexadecimal digits. `Decode` reads such text back; it is the
 * partner that shows the escaping loses nothing.
 */
module UriComponent {
  import opened Wrappers

  /** The characters `encodeURIComponent` leaves as they are. */
  predicate Unreserved(c: char) {
    ('A' <= c <= 'Z') || ('a' <= c <= 'z') || ('0' <= c <= '9') ||
    c == '-' || c == '_' || c == '.' || c == '!' || c == '~' || c == '*' || c == '\'' || c == '(' || c == ')'
  }

  predicate IsByte(b: nat) {
    b < 256
  }

  /** The UTF-8 bytes of a Unicode scalar value. */
  function Utf8(c: char): (bytes: seq<nat>)
    ensures 1 <= |bytes| <= 4
    ensures forall i :: 0 <= i < |bytes| ==> IsByte(bytes[i])
  {
    var cp := c as int;
    if cp < 0x80 then [cp]
    else if cp < 0x800 then [0xC0 + cp / 64, 0x80 + cp % 64]
    else if cp < 0x10000 then [0xE0 + cp / 4096, 0x80 + (cp / 64) % 64, 0x80 + cp % 64]
    else [0xF0 + cp / 262144, 0x80 + (cp / 4096) % 64, 0x80 + (cp / 64) % 64, 0x80 + cp % 64]
  }

  function HexDigit(d: nat): char
    requires d < 16
  {
    "0123456789ABCDEF"[d]
  }

  /** `%XY`: one byte as a percent sign and two upper-case hexadecimal digits. */
  function Escape(b: nat): (r: string)
    requires IsByte(b)
    ensures |r| == 3 && r[0] == '%' && Unreserved(r[1]) && Unreserved(r[2])
  {
    ['%', HexDigit(b / 16), HexDigit(b % 16)]
  }

  function PercentBytes(bytes: seq<nat>): (r: string)
    requires forall i :: 0 <= i < |bytes| ==> IsByte(bytes[i])
    ensures |r| == 3 * |bytes|
    decreases |bytes|
  {
    if bytes == [] then []
    else Escape(bytes[0]) + PercentBytes(bytes[1..])
  }

  /** Text made only of percent signs and unreserved characters, as `encodeURIComponent` writes it. */
  predicate Escaped(s: string) {
    forall i :: 0 <= i < |s| ==> s[i] == '%' || Unreserved(s[i])
  }

  lemma EscapedConcat(a: string, b: string)
    requires Escaped(a) && Escaped(b)
    ensures Escaped(a + b)
  {
    forall i | 0 <= i < |a + b| ensures (a + b)[i] == '%' || Unreserved((a + b)[i]) {
      if i >= |a| {
        assert (a + b)[i] == b[i - |a|];
      }
    }
  }

  lemma {:induction false} PercentBytesEscaped(bytes: seq<nat>)
    requires forall i :: 0 <= i < |bytes| ==> IsByte(bytes[i])
    ensures Escaped(PercentBytes(bytes))
    decreases |bytes|
  {
    if bytes != [] {
      PercentBytesEscaped(bytes[1..]);
      EscapedConcat(Escape(bytes[0]), PercentBytes(bytes[1..]));
    }
  }

  function EncodeChar(c: char): (r: string)
    ensures |r| >= 1 && Escaped(r)
  {
    if Unreserved(c) then [c]
    else
      PercentBytesEscaped(Utf8(c));
      PercentBytes(Utf8(c))
  }

  /** `encodeURIComponent(s)`. */
  function Encode(s: string): (r: string)
    ensures Escaped(r)
    ensures (forall i :: 0 <= i < |s| ==> Unreserved(s[i])) ==> r == s
    decreases |s|
  {
    if s == [] then []
    else
      var r := EncodeChar(s[0]) + Encode(s[1..]);
      EscapedConcat(EncodeChar(s[0]), Encode(s[1..]));
      assert forall i :: 0 < i < |s| ==> s[1..][i - 1] == s[i];
      r
  }

  function HexValue(c: char): Option<nat> {
    if '0' <= c <= '9' then Some(c as int - '0' as int)
    else if 'A' <= c <= 'F' then Some(c as int - 'A' as int + 10)
    else if 'a' <= c <= 'f' then Some(c as int - 'a' as int + 10)
    else None
  }

  /** The byte escaped as `%XY` at position `i`, if there is one. */
  function ByteAt(s: string, i: nat): (r: Option<nat>)
    ensures r.Some? ==> i + 3 <= |s| && IsByte(r.value)
  {
    if i + 3 <= |s| && s[i] == '%' then
      var hi :- HexValue(s[i + 1]);
      var lo :- HexValue(s[i + 2]);
      Some(16 * hi + lo)
    else None
  }

  /** The bytes of `n` consecutive escapes at the front of `s`. */
  function EscapedBytes(s: string, n: nat): (r: Option<seq<nat>>)
    ensures r.Some? ==> |r.value| == n && 3 * n <= |s|
    decreases n
  {
    if n == 0 then Some([])
    else
      var b :- ByteAt(s, 0);
      var bs :- EscapedBytes(s[3..], n - 1);
      Some([b] + bs)
  }

  /** How many bytes a UTF-8 sequence with this first byte has; 0 for a byte no sequence starts with. */
  function SequenceLength(b0: nat): (n: nat)
    ensures n <= 4
  {
    if b0 < 0x80 then 1
    else if 0xC0 <= b0 < 0xE0 then 2
    else if 0xE0 <= b0 < 0xF0 then 3
    else if 0xF0 <= b0 < 0xF8 then 4
    else 0
  }

  predicate IsContinuation(b: nat) {
    0x80 <= b < 0xC0
  }

  predicate IsScalarValue(cp: int) {
    (0 <= cp < 0xD800) || (0xE000 <= cp < 0x11_0000)
  }

  /** The character a whole UTF-8 byte sequence stands for. */
  function Utf8Decode(bytes: seq<nat>): Option<char> {
    var cp: int :-
      if |bytes| == 1 && bytes[0] < 0x80 then Some(bytes[0])
      else if |bytes| == 2 && 0xC0 <= bytes[0] < 0xE0 && IsContinuation(bytes[1]) then
        Some((bytes[0] - 0xC0) * 64 + (bytes[1] - 0x80))
      else if |bytes| == 3 && 0xE0 <= bytes[0] < 0xF0 && IsContinuation(bytes[1]) && IsContinuation(bytes[2]) then
        Some((bytes[0] - 0xE0) * 4096 + (bytes[1] - 0x80) * 64 + (bytes[2] - 0x80))
      else if |bytes| == 4 && 0xF0 <= bytes[0] < 0xF8 && IsContinuation(bytes[1]) && IsContinuation(bytes[2])
              && IsContinuation(bytes[3]) then
        Some((bytes[0] - 0xF0) * 262144 + (bytes[1] - 0x80) * 4096 + (bytes[2] - 0x80) * 64 + (bytes[3] - 0x80))
      else None;
    if IsScalarValue(cp) then Some(cp as char) else None
  }

  /**
   * The character whose escaped UTF-8 bytes start `s`, with the number of text
   * characters they take.
   */
  function DecodeEscape(s: string): (r: Option<(char, nat)>)
    ensures r.Some? ==> 3 <= r.value.1 <= |s|
  {
    var b0 :- ByteAt(s, 0);
    var n := SequenceLength(b0);
    if n == 0 then None
    else
      var bytes :- EscapedBytes(s, n);
      var c :- Utf8Decode(bytes);
      Some((c, 3 * n))
  }

  /** Reads percent-escaped text back into the characters it encodes. */
  function Decode(s: string): Option<string>
    decreases |s|
  {
    if s == [] then Some([])
    else if s[0] != '%' then
      var rest :- Decode(s[1..]);
      Some([s[0]] + rest)
    else
      var (c, width) :- DecodeEscape(s);
      var rest :- Decode(s[width..]);
      Some([c] + rest)
  }

  lemma HexDigitValue(d: nat)
    requires d < 16
    ensures HexValue(HexDigit(d)) == Some(d)
  {
  }

  lemma ByteAtEscape(b: nat, rest: string)
    requires IsByte(b)
    ensures ByteAt(Escape(b) + rest, 0) == Some(b)
  {
    HexDigitValue(b / 16);
    HexDigitValue(b % 16);
  }

  /** The escapes `PercentBytes` writes read back as the bytes it was given, whatever follows. */
  lemma {:induction false} EscapedBytesOfPercent(bytes: seq<nat>, rest: string)
    requires forall i :: 0 <= i < |bytes| ==> IsByte(bytes[i])
    ensures EscapedBytes(PercentBytes(bytes) + rest, |bytes|) == Some(bytes)
    decreases |bytes|
  {
    if bytes != [] {
      var tail := PercentBytes(bytes[1..]) + rest;
      EscapedBytesOfPercent(bytes[1..], rest);
      PercentBytesCons(bytes, rest);
      EscapedBytesStep(bytes[0], tail, |bytes| - 1, bytes[1..], PercentBytes(bytes) + rest);
      assert [bytes[0]] + bytes[1..] == bytes;
    }
  }

  lemma PercentBytesCons(bytes: seq<nat>, rest: string)
    requires bytes != [] && forall i :: 0 <= i < |bytes| ==> IsByte(bytes[i])
    ensures PercentBytes(bytes) + rest == Escape(bytes[0]) + (PercentBytes(bytes[1..]) + rest)
  {
  }

  lemma EscapedBytesStep(b: nat, tail: string, n: nat, bs: seq<nat>, s: string)
    requires IsByte(b) && EscapedBytes(tail, n) == Some(bs) && s == Escape(b) + tail
    ensures EscapedBytes(s, n + 1) == Some([b] + bs)
  {
    ByteAtEscape(b, tail);
    assert s[3..] == tail;
  }

  /** The first byte of a character's UTF-8 form announces its length. */
  lemma SequenceLengthOfUtf8(c: char)
    ensures SequenceLength(Utf8(c)[0]) == |Utf8(c)|
  {
  }

  /** UTF-8 decoding undoes UTF-8 encoding. */
  lemma Utf8RoundTrip(c: char)
    ensures Utf8Decode(Utf8(c)) == Some(c)
  {
    var cp := c as int;
    if cp < 0x80 {
    } else if cp < 0x800 {
      TwoByteRoundTrip(c);
    } else if cp < 0x10000 {
      ThreeByteRoundTrip(c);
    } else {
      FourByteRoundTrip(c);
    }
  }

  lemma TwoByteRoundTrip(c: char)
    requires 0x80 <= c as int < 0x800
    ensures Utf8Decode(Utf8(c)) == Some(c)
  {
    var cp := c as int;
    var bytes := Utf8(c);
    assert bytes == [0xC0 + cp / 64, 0x80 + cp % 64];
    assert (bytes[0] - 0xC0) * 64 + (bytes[1] - 0x80) == cp;
  }

  lemma ThreeByteRoundTrip(c: char)
    requires 0x800 <= c as int < 0x10000
    ensures Utf8Decode(Utf8(c)) == Some(c)
  {
    var cp := c as int;
    var bytes := Utf8(c);
    assert bytes == [0xE0 + cp / 4096, 0x80 + (cp / 64) % 64, 0x80 + cp % 64];
    SixBitGroups(cp);
    assert (bytes[0] - 0xE0) * 4096 + (bytes[1] - 0x80) * 64 + (bytes[2] - 0x80) == cp;
  }

  lemma FourByteRoundTrip(c: char)
    requires 0x10000 <= c as int
    ensures Utf8Decode(Utf8(c)) == Some(c)
  {
    var cp := c as int;
    var bytes := Utf8(c);
    assert bytes == [0xF0 + cp / 262144, 0x80 + (cp / 4096) % 64, 0x80 + (cp / 64) % 64, 0x80 + cp % 64];
    SixBitGroups(cp);
    assert (bytes[0] - 0xF0) * 262144 + (bytes[1] - 0x80) * 4096 + (bytes[2] - 0x80) * 64 + (bytes[3] - 0x80) == cp;
  }

  /** A code point is the sum of its six-bit groups. */
  lemma SixBitGroups(cp: nat)
    ensures cp / 4096 * 4096 + (cp / 64) % 64 * 64 + cp % 64 == cp
    ensures cp / 262144 * 262144 + (cp / 4096) % 64 * 4096 + (cp / 64) % 64 * 64 + cp % 64 == cp
  {
    var a := cp / 64;
    var b := a / 64;
    assert cp == 64 * a + cp % 64;
    assert a == 64 * b + a % 64;
    assert cp / 4096 == b;
    assert b == 64 * (b / 64) + b % 64;
    assert cp / 262144 == b / 64;
  }

  /** An escaped character reads back as itself, taking exactly its escapes. */
  lemma EscapeRoundTrip(c: char, rest: string)
    requires !Unreserved(c)
    ensures DecodeEscape(EncodeChar(c) + rest) == Some((c, |EncodeChar(c)|))
  {
    var bytes := Utf8(c);
    assert EncodeChar(c) == PercentBytes(bytes);
    EscapedBytesOfPercent(bytes, rest);
    SequenceLengthOfUtf8(c);
    Utf8RoundTrip(c);
    DecodeEscapeOf(EncodeChar(c) + rest, bytes, c);
  }

  /** Escapes of a whole UTF-8 sequence at the front of `s` decode to its character. */
  lemma DecodeEscapeOf(s: string, bytes: seq<nat>, c: char)
    requires bytes != [] && EscapedBytes(s, |bytes|) == Some(bytes)
    requires SequenceLength(bytes[0]) == |bytes| && Utf8Decode(bytes) == Some(c)
    ensures DecodeEscape(s) == Some((c, 3 * |bytes|))
  {
    assert ByteAt(s, 0) == Some(bytes[0]);
  }

  /** An unreserved character is copied through. */
  lemma DecodeUnreserved(c: char, rest: string, r: string)
    requires Unreserved(c) && Decode(rest) == Some(r)
    ensures Decode([c] + rest) == Some([c] + r)
  {
    assert ([c] + rest)[1..] == rest;
  }

  /** An escaped character is read back, then decoding carries on after its escapes. */
  lemma DecodeEscaped(c: char, rest: string, r: string)
    requires !Unreserved(c) && Decode(rest) == Some(r)
    ensures Decode(EncodeChar(c) + rest) == Some([c] + r)
  {
    var e := EncodeChar(c);
    EscapeRoundTrip(c, rest);
    assert (e + rest)[0] == '%';
    assert (e + rest)[|e|..] == rest;
  }

  /** One encoded character, then anything that decodes, decodes to that character and the rest. */
  lemma DecodeCons(c: char, rest: string, r: string)
    requires Decode(rest) == Some(r)
    ensures Decode(EncodeChar(c) + rest) == Some([c] + r)
  {
    if Unreserved(c) {
      DecodeUnreserved(c, rest, r);
    } else {
      DecodeEscaped(c, rest, r);
    }
  }

  /** Decoding undoes `encodeURIComponent`. */
  lemma {:induction false} DecodeEncode(s: string)
    ensures Decode(Encode(s)) == Some(s)
    decreases |s|
  {
    if s != [] {
      var tail := Encode(s[1..]);
      assert Decode(tail) == Some(s[1..]) by { DecodeEncode(s[1..]); }
      assert Encode(s) == EncodeChar(s[0]) + tail;
      DecodeCons(s[0], tail, s[1..]);
      assert [s[0]] + s[1..] == s;
    }
  }

  /** Different messages give different escaped texts. */
  lemma EncodeInjective(s: string, t: string)
    requires Encode(s) == Encode(t)
    ensures s == t
  {
    DecodeEncode(s);
    DecodeEncode(t);
  }
}
