/**
 * `bytes.decode('utf-8')` in its strict form: a byte sequence decodes only
 * if it is well-formed UTF-8 (no overlong forms, no surrogates, nothing
 * above U+10FFFF). `Encode` is its inverse; the two are proved to be a
 * bijection between strings and well-formed byte sequences.
 */
module Utf8 {
  import opened Wrappers
  import opened Text

  predicate IsContinuation(b: byte) {
    0x80 <= b < 0xC0
  }

  /** The code point of a well-formed sequence of one to four bytes. */
  function CodePoint(b: seq<byte>): int
    requires 1 <= |b| <= 4
  {
    var b0, b1, b2, b3 := b[0] as int, if |b| > 1 then b[1] as int else 0,
                          if |b| > 2 then b[2] as int else 0, if |b| > 3 then b[3] as int else 0;
    if |b| == 1 then b0
    else if |b| == 2 then (b0 - 0xC0) * 64 + (b1 - 0x80)
    else if |b| == 3 then (b0 - 0xE0) * 0x1000 + (b1 - 0x80) * 64 + (b2 - 0x80)
    else (b0 - 0xF0) * 0x4_0000 + (b1 - 0x80) * 0x1000 + (b2 - 0x80) * 64 + (b3 - 0x80)
  }

  predicate IsScalar(n: int) {
    0 <= n < 0xD800 || 0xE000 <= n < 0x11_0000
  }

  /**
   * The length of the well-formed sequence at the front of `b` (table 3-7
   * of the Unicode standard), or 0 when there is none.
   */
  function SequenceLength(b: seq<byte>): (n: nat)
    requires |b| > 0
    ensures n <= 4 && n <= |b|
  {
    var b0 := b[0];
    if b0 < 0x80 then 1
    else if 0xC2 <= b0 <= 0xDF then
      if |b| >= 2 && IsContinuation(b[1]) then 2 else 0
    else if 0xE0 <= b0 <= 0xEF then
      var lo := if b0 == 0xE0 then 0xA0 else 0x80;
      var hi := if b0 == 0xED then 0x9F else 0xBF;
      if |b| >= 3 && lo <= b[1] <= hi && IsContinuation(b[2]) then 3 else 0
    else if 0xF0 <= b0 <= 0xF4 then
      var lo := if b0 == 0xF0 then 0x90 else 0x80;
      var hi := if b0 == 0xF4 then 0x8F else 0xBF;
      if |b| >= 4 && lo <= b[1] <= hi && IsContinuation(b[2]) && IsContinuation(b[3]) then 4 else 0
    else 0
  }

  /** Every well-formed sequence spells a Unicode scalar value (arithmetic only). */
  lemma WellFormedIsScalar(b: seq<byte>)
    requires |b| > 0 && SequenceLength(b) > 0
    ensures IsScalar(CodePoint(b[..SequenceLength(b)]))
  {
    var n := SequenceLength(b);
    var w := b[..n];
    if n == 3 {
      var cp := CodePoint(w);
      assert cp == (b[0] as int - 0xE0) * 0x1000 + (b[1] as int - 0x80) * 64 + (b[2] as int - 0x80);
      if b[0] == 0xED {
        assert cp < 0xD800;
      } else {
        assert cp / 0x1000 == b[0] - 0xE0;
      }
    }
  }

  /** `bytes.decode('utf-8')`: `None` where Python raises `UnicodeDecodeError`. */
  function Decode(b: seq<byte>): (r: Option<string>)
    decreases |b|
  {
    if b == [] then Some([])
    else
      var n := SequenceLength(b);
      if n == 0 then None
      else
        WellFormedIsScalar(b);
        match Decode(b[n..])
        case None => None
        case Some(rest) => Some([CodePoint(b[..n]) as char] + rest)
  }

  /** The UTF-8 bytes of one character. */
  function EncodeChar(c: char): (e: seq<byte>)
    ensures 1 <= |e| <= 4
  {
    var n := c as int;
    if n < 0x80 then [n]
    else if n < 0x800 then [0xC0 + n / 64, 0x80 + n % 64]
    else if n < 0x1_0000 then [0xE0 + n / 0x1000, 0x80 + n / 64 % 64, 0x80 + n % 64]
    else [0xF0 + n / 0x4_0000, 0x80 + n / 0x1000 % 64, 0x80 + n / 64 % 64, 0x80 + n % 64]
  }

  /** `s.encode('utf-8')`. */
  function Encode(s: string): (b: seq<byte>)
    ensures |s| <= |b|
  {
    if s == [] then [] else EncodeChar(s[0]) + Encode(s[1..])
  }

  /** A character's encoding is one well-formed sequence that spells it. */
  lemma EncodeCharWellFormed(c: char, tail: seq<byte>)
    ensures var e := EncodeChar(c);
            SequenceLength(e + tail) == |e| && (e + tail)[..|e|] == e && CodePoint(e) == c as int
  {
    var n := c as int;
    var e := EncodeChar(c);
    assert (e + tail)[..|e|] == e;
    if n < 0x80 {
    } else if n < 0x800 {
      TwoByteDigits(n);
    } else if n < 0x1_0000 {
      ThreeByteDigits(n);
    } else {
      FourByteDigits(n);
    }
  }

  lemma TwoByteDigits(n: int)
    requires 0x80 <= n < 0x800
    ensures 0xC2 <= 0xC0 + n / 64 <= 0xDF && 0 <= n % 64 < 64
    ensures (n / 64) * 64 + n % 64 == n
  {
  }

  lemma ThreeByteDigits(n: int)
    requires 0x800 <= n < 0x1_0000 && IsScalar(n)
    ensures 0xE0 <= 0xE0 + n / 0x1000 <= 0xEF
    ensures n / 0x1000 == 0 ==> 0x20 <= n / 64 % 64
    ensures n / 0x1000 == 0xD ==> n / 64 % 64 < 0x20
    ensures (n / 0x1000) * 0x1000 + (n / 64 % 64) * 64 + n % 64 == n
  {
    assert n / 64 == (n / 0x1000) * 64 + n / 64 % 64;
  }

  lemma FourByteDigits(n: int)
    requires 0x1_0000 <= n < 0x11_0000
    ensures 0xF0 <= 0xF0 + n / 0x4_0000 <= 0xF4
    ensures n / 0x4_0000 == 0 ==> 0x10 <= n / 0x1000 % 64
    ensures n / 0x4_0000 == 4 ==> n / 0x1000 % 64 < 0x10
    ensures (n / 0x4_0000) * 0x4_0000 + (n / 0x1000 % 64) * 0x1000 + (n / 64 % 64) * 64 + n % 64 == n
  {
    assert n / 0x1000 == (n / 0x4_0000) * 64 + n / 0x1000 % 64;
    assert n / 64 == (n / 0x1000) * 64 + n / 64 % 64;
  }

  /** Decoding undoes encoding: every string survives `encode` then `decode`. */
  lemma {:induction false} DecodeEncode(s: string)
    ensures Decode(Encode(s)) == Some(s)
  {
    if s != [] {
      var e, rest := EncodeChar(s[0]), Encode(s[1..]);
      EncodeCharWellFormed(s[0], rest);
      DecodeEncode(s[1..]);
      var b := e + rest;
      assert b[|e|..] == rest;
      assert [s[0]] + s[1..] == s;
    }
  }

  /** The digits of a decoded code point are the bytes it came from (arithmetic only). */
  lemma TwoByteValue(b0: int, b1: int)
    requires 0xC2 <= b0 <= 0xDF && 0x80 <= b1 < 0xC0
    ensures var n := (b0 - 0xC0) * 64 + (b1 - 0x80);
            0x80 <= n < 0x800 && 0xC0 + n / 64 == b0 && 0x80 + n % 64 == b1
  {
  }

  lemma ThreeByteValue(b0: int, b1: int, b2: int)
    requires 0xE0 <= b0 <= 0xEF && 0x80 <= b1 < 0xC0 && 0x80 <= b2 < 0xC0
    requires b0 == 0xE0 ==> 0xA0 <= b1
    ensures var n := (b0 - 0xE0) * 0x1000 + (b1 - 0x80) * 64 + (b2 - 0x80);
            0x800 <= n < 0x1_0000
            && 0xE0 + n / 0x1000 == b0 && 0x80 + n / 64 % 64 == b1 && 0x80 + n % 64 == b2
  {
    var n := (b0 - 0xE0) * 0x1000 + (b1 - 0x80) * 64 + (b2 - 0x80);
    assert n / 64 == (b0 - 0xE0) * 64 + (b1 - 0x80);
  }

  lemma FourByteValue(b0: int, b1: int, b2: int, b3: int)
    requires 0xF0 <= b0 <= 0xF4 && 0x80 <= b1 < 0xC0 && 0x80 <= b2 < 0xC0 && 0x80 <= b3 < 0xC0
    requires b0 == 0xF0 ==> 0x90 <= b1
    ensures var n := (b0 - 0xF0) * 0x4_0000 + (b1 - 0x80) * 0x1000 + (b2 - 0x80) * 64 + (b3 - 0x80);
            0x1_0000 <= n
            && 0xF0 + n / 0x4_0000 == b0 && 0x80 + n / 0x1000 % 64 == b1
            && 0x80 + n / 64 % 64 == b2 && 0x80 + n % 64 == b3
  {
    var n := (b0 - 0xF0) * 0x4_0000 + (b1 - 0x80) * 0x1000 + (b2 - 0x80) * 64 + (b3 - 0x80);
    assert n / 64 == (b0 - 0xF0) * 0x1000 + (b1 - 0x80) * 64 + (b2 - 0x80);
    assert n / 0x1000 == (b0 - 0xF0) * 64 + (b1 - 0x80);
  }

  /** A well-formed sequence is the encoding of the character it spells. */
  lemma SequenceReencodes(b: seq<byte>)
    requires |b| > 0 && SequenceLength(b) > 0
    ensures var w := b[..SequenceLength(b)];
            IsScalar(CodePoint(w)) && EncodeChar(CodePoint(w) as char) == w
  {
    var n := SequenceLength(b);
    var w := b[..n];
    WellFormedIsScalar(b);
    if n == 2 {
      TwoByteValue(b[0], b[1]);
    } else if n == 3 {
      ThreeByteValue(b[0], b[1], b[2]);
    } else if n == 4 {
      FourByteValue(b[0], b[1], b[2], b[3]);
    }
  }

  /** How `Decode` proceeds on a non-empty input it accepts. */
  lemma DecodeFirst(b: seq<byte>)
    requires b != [] && Decode(b).Some?
    ensures SequenceLength(b) > 0 && IsScalar(CodePoint(b[..SequenceLength(b)]))
    ensures Decode(b[SequenceLength(b)..]).Some?
    ensures Decode(b).value == [CodePoint(b[..SequenceLength(b)]) as char] + Decode(b[SequenceLength(b)..]).value
  {
    WellFormedIsScalar(b);
  }

  /** Decoding accepts only what encoding produces: `decode` then `encode` is the identity. */
  lemma {:induction false} EncodeDecode(b: seq<byte>)
    requires Decode(b).Some?
    ensures Encode(Decode(b).value) == b
    decreases |b|
  {
    if b != [] {
      var n := SequenceLength(b);
      DecodeFirst(b);
      SequenceReencodes(b);
      EncodeDecode(b[n..]);
      var s := Decode(b).value;
      assert s[0] == CodePoint(b[..n]) as char;
      assert s[1..] == Decode(b[n..]).value;
      assert b[..n] + b[n..] == b;
    }
  }

  lemma {:induction false} DecodeAscii(b: seq<byte>)
    requires forall k | 0 <= k < |b| :: b[k] < 0x80
    ensures Decode(b).Some? && |Decode(b).value| == |b|
    ensures forall k | 0 <= k < |b| :: Decode(b).value[k] as int == b[k]
  {
    if b != [] {
      DecodeAscii(b[1..]);
    }
  }

  /** A byte that can never start a sequence makes the whole decode fail. */
  lemma DecodeRejectsBadLead(b: seq<byte>)
    requires |b| > 0 && (b[0] == 0xC0 || b[0] == 0xC1 || b[0] >= 0xF5 || IsContinuation(b[0]))
    ensures Decode(b) == None
  {
  }
}
