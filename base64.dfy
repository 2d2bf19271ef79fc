/**
 * Base64 as the Python code uses it through `base64.b64decode`.
 *
 * Two decoders live here. `Decode` is the reference: the encoding of
 * section 4 of RFC 4648 read strictly (24-bit groups, `=` only as final
 * padding, zero pad bits), with `Encode` as its inverse. `Lenient` is what
 * `b64decode(s)` actually runs without `validate=True`: CPython's
 * non-strict `binascii.a2b_base64` state machine, which ignores stray `=`
 * and stops at the first complete padding. The two agree on every string
 * the reference accepts.
 */
module Base64 {
  import opened Wrappers
  import opened Text

  type sextet = x: int | 0 <= x < 64

  /** The 64 characters of the base64 alphabet (no padding). */
  predicate IsAlphabetChar(c: char) {
    'A' <= c <= 'Z' || 'a' <= c <= 'z' || '0' <= c <= '9' || c == '+' || c == '/'
  }

  function SextetOf(c: char): (v: sextet)
    requires IsAlphabetChar(c)
  {
    if 'A' <= c <= 'Z' then c as int - 'A' as int
    else if 'a' <= c <= 'z' then c as int - 'a' as int + 26
    else if '0' <= c <= '9' then c as int - '0' as int + 52
    else if c == '+' then 62
    else 63
  }

  function AlphabetChar(v: sextet): (c: char)
    ensures IsAlphabetChar(c) && SextetOf(c) == v
  {
    if v < 26 then ('A' as int + v) as char
    else if v < 52 then ('a' as int + v - 26) as char
    else if v < 62 then ('0' as int + v - 52) as char
    else if v == 62 then '+'
    else '/'
  }

  /** Each alphabet character is the encoding of its own value. */
  lemma AlphabetCharOfSextet(c: char)
    requires IsAlphabetChar(c)
    ensures AlphabetChar(SextetOf(c)) == c
  {
  }

  predicate AllAlphabet(q: string) {
    forall k | 0 <= k < |q| :: IsAlphabetChar(q[k])
  }

  // ---------------------------------------------------------------------
  // Reference: section 4 of RFC 4648
  // ---------------------------------------------------------------------

  /**
   * The four 6-bit groups of the 24-bit group formed by three bytes, most
   * significant first: they hold the same 24 bits.
   */
  function Sextets(b0: byte, b1: byte, b2: byte): (v: (sextet, sextet, sextet, sextet))
    ensures v.0 as int * 0x4_0000 + v.1 as int * 0x1000 + v.2 as int * 64 + v.3 == b0 as int * 0x1_0000 + b1 as int * 0x100 + b2
  {
    (b0 / 4, b0 % 4 * 16 + b1 / 16, b1 % 16 * 4 + b2 / 64, b2 % 64)
  }

  function GroupChars(v: (sextet, sextet, sextet, sextet)): (q: string)
    ensures |q| == 4 && AllAlphabet(q)
  {
    [AlphabetChar(v.0), AlphabetChar(v.1), AlphabetChar(v.2), AlphabetChar(v.3)]
  }

  function Encode(b: seq<byte>): (s: string)
    ensures |s| % 4 == 0
    ensures |s| == 0 <==> |b| == 0
    decreases |b|
  {
    if |b| == 0 then []
    else if |b| == 1 then GroupChars(Sextets(b[0], 0, 0))[..2] + "=="
    else if |b| == 2 then GroupChars(Sextets(b[0], b[1], 0))[..3] + "="
    else GroupChars(Sextets(b[0], b[1], b[2])) + Encode(b[3..])
  }

  /** The 24-bit value of four alphabet characters. */
  function GroupValue(q: string): (n: nat)
    requires |q| == 4 && forall k | 0 <= k < 4 :: IsAlphabetChar(q[k])
    ensures n < 0x100_0000
  {
    SextetOf(q[0]) * 0x4_0000 + SextetOf(q[1]) * 0x1000 + SextetOf(q[2]) * 64 + SextetOf(q[3])
  }

  function GroupBytes(n: nat): (g: seq<byte>)
    requires n < 0x100_0000
    ensures |g| == 3
  {
    [n / 0x1_0000, n / 0x100 % 0x100, n % 0x100]
  }

  /**
   * The final quantum: a full group, or two or three alphabet characters
   * padded with `==` or `=` whose unused low bits are zero.
   */
  function DecodeFinal(q: string): (r: Option<seq<byte>>)
    requires |q| == 4
    ensures r.Some? ==> 1 <= |r.value| <= 3
  {
    if AllAlphabet(q) then Some(GroupBytes(GroupValue(q)))
    else if AllAlphabet(q[..2]) && q[2] == '=' && q[3] == '=' then
      var n := SextetOf(q[0]) * 0x4_0000 + SextetOf(q[1]) * 0x1000;
      if n % 0x1_0000 == 0 then Some([n / 0x1_0000]) else None
    else if AllAlphabet(q[..3]) && q[3] == '=' then
      var n := SextetOf(q[0]) * 0x4_0000 + SextetOf(q[1]) * 0x1000 + SextetOf(q[2]) * 64;
      if n % 0x100 == 0 then Some([n / 0x1_0000, n / 0x100 % 0x100]) else None
    else None
  }

  function DecodeQuanta(s: string): (r: Option<seq<byte>>)
    requires |s| % 4 == 0
    decreases |s|
  {
    if s == [] then Some([])
    else if |s| == 4 then DecodeFinal(s)
    else if !AllAlphabet(s[..4]) then None
    else
      match DecodeQuanta(s[4..])
      case None => None
      case Some(rest) => Some(GroupBytes(GroupValue(s[..4])) + rest)
  }

  /** Strict decoding per section 4 of RFC 4648; `None` for anything else. */
  function Decode(s: string): (r: Option<seq<byte>>) {
    if |s| % 4 != 0 then None else DecodeQuanta(s)
  }

  /** Base-256 digits of a 24-bit value (arithmetic only). */
  lemma ByteDigits(n: nat, b0: byte, b1: byte, b2: byte)
    requires n == b0 * 0x1_0000 + b1 * 0x100 + b2
    ensures n / 0x1_0000 == b0 && n / 0x100 % 0x100 == b1 && n % 0x100 == b2
  {
    assert n / 0x100 == b0 * 0x100 + b1;
  }

  /** The three bytes of a group survive the trip through four characters. */
  lemma GroupRoundTrip(b0: byte, b1: byte, b2: byte)
    ensures GroupBytes(GroupValue(GroupChars(Sextets(b0, b1, b2)))) == [b0, b1, b2]
  {
    var v := Sextets(b0, b1, b2);
    var q := GroupChars(v);
    assert GroupValue(q) == v.0 as int * 0x4_0000 + v.1 as int * 0x1000 + v.2 as int * 64 + v.3;
    ByteDigits(GroupValue(q), b0, b1, b2);
  }

  /** A single final byte is encoded as `xx==` and decoded back. */
  lemma FinalOneRoundTrip(b0: byte)
    ensures DecodeFinal(Encode([b0])) == Some([b0])
  {
    var v := Sextets(b0, 0, 0);
    var s := Encode([b0]);
    assert s[2] == '=';
    assert s[..2] == [AlphabetChar(v.0), AlphabetChar(v.1)];
    var n := v.0 as nat * 0x4_0000 + v.1 as nat * 0x1000;
    assert n == b0 as nat * 0x1_0000;
    ByteDigits(n, b0, 0, 0);
  }

  /** Two final bytes are encoded as `xxx=` and decoded back. */
  lemma FinalTwoRoundTrip(b0: byte, b1: byte)
    ensures DecodeFinal(Encode([b0, b1])) == Some([b0, b1])
  {
    var v := Sextets(b0, b1, 0);
    var s := Encode([b0, b1]);
    assert s[3] == '=';
    assert s[..3] == [AlphabetChar(v.0), AlphabetChar(v.1), AlphabetChar(v.2)];
    var n := v.0 as nat * 0x4_0000 + v.1 as nat * 0x1000 + v.2 as nat * 64;
    assert n == b0 as nat * 0x1_0000 + b1 as nat * 0x100;
    ByteDigits(n, b0, b1, 0);
  }

  /** A leading full group decodes on its own, ahead of the rest. */
  lemma DecodeLeadingGroup(q: string, rest: string)
    requires |q| == 4 && AllAlphabet(q) && |rest| % 4 == 0
    ensures |q + rest| % 4 == 0
    ensures Decode(q + rest) ==
            if rest == [] then Some(GroupBytes(GroupValue(q)))
            else match Decode(rest)
                 case None => None
                 case Some(r) => Some(GroupBytes(GroupValue(q)) + r)
  {
    var s := q + rest;
    assert |s| == |rest| + 4;
    assert s[..4] == q;
    if rest == [] {
      assert s == q;
    } else {
      assert s[4..] == rest;
    }
  }

  /** A leading full group decodes ahead of a rest that decodes to `tail`. */
  lemma DecodeGroupThen(q: string, rest: string, tail: seq<byte>)
    requires |q| == 4 && AllAlphabet(q) && Decode(rest) == Some(tail)
    ensures Decode(q + rest) == Some(GroupBytes(GroupValue(q)) + tail)
  {
    DecodeLeadingGroup(q, rest);
    if rest == [] {
      assert tail == [];
      assert GroupBytes(GroupValue(q)) + tail == GroupBytes(GroupValue(q));
    }
  }

  /** Three or more bytes are encoded as a full group ahead of the rest. */
  lemma EncodeGroupSplit(b: seq<byte>)
    requires |b| >= 3
    ensures Encode(b) == GroupChars(Sextets(b[0], b[1], b[2])) + Encode(b[3..])
  {
  }

  /** The group encoding `b`'s first three bytes, ahead of a rest decoding to the others. */
  lemma GroupThenBack(b: seq<byte>, q: string, rest: string)
    requires |b| >= 3 && q == GroupChars(Sextets(b[0], b[1], b[2]))
    requires Decode(rest) == Some(b[3..])
    ensures Decode(q + rest) == Some(b)
  {
    DecodeGroupThen(q, rest, b[3..]);
    GroupRoundTrip(b[0], b[1], b[2]);
    assert [b[0], b[1], b[2]] + b[3..] == b;
  }

  /** A full leading group decodes ahead of a rest that decodes back. */
  lemma DecodeEncodeGroup(b: seq<byte>)
    requires |b| >= 3 && Decode(Encode(b[3..])) == Some(b[3..])
    ensures Decode(Encode(b)) == Some(b)
  {
    EncodeGroupSplit(b);
    GroupThenBack(b, GroupChars(Sextets(b[0], b[1], b[2])), Encode(b[3..]));
  }

  /** `Encode` is undone by the reference decoder. */
  lemma {:induction false} DecodeEncode(b: seq<byte>)
    ensures Decode(Encode(b)) == Some(b)
    decreases |b|
  {
    if |b| == 1 {
      assert b == [b[0]];
      FinalOneRoundTrip(b[0]);
    } else if |b| == 2 {
      assert b == [b[0], b[1]];
      FinalTwoRoundTrip(b[0], b[1]);
    } else if |b| > 2 {
      DecodeEncode(b[3..]);
      DecodeEncodeGroup(b);
    }
  }

  /** Four sextets are determined by the 24-bit value they spell (arithmetic only). */
  lemma SextetsUnique(v: (sextet, sextet, sextet, sextet), w: (sextet, sextet, sextet, sextet))
    requires v.0 as int * 0x4_0000 + v.1 as int * 0x1000 + v.2 as int * 64 + v.3
          == w.0 as int * 0x4_0000 + w.1 as int * 0x1000 + w.2 as int * 64 + w.3
    ensures v == w
  {
    var n := v.0 as int * 0x4_0000 + v.1 as int * 0x1000 + v.2 as int * 64 + v.3;
    assert n / 0x4_0000 == v.0 == w.0;
    assert n / 0x1000 == v.0 as int * 64 + v.1 == w.0 as int * 64 + w.1;
    assert n / 64 == v.0 as int * 0x1000 + v.1 as int * 64 + v.2 == w.0 as int * 0x1000 + w.1 as int * 64 + w.2;
  }

  /** The characters of a quantum, as sextets. */
  function QuantumSextets(q: string): (sextet, sextet, sextet, sextet)
    requires |q| == 4 && AllAlphabet(q)
  {
    (SextetOf(q[0]), SextetOf(q[1]), SextetOf(q[2]), SextetOf(q[3]))
  }

  /** A group of four alphabet characters is re-encoded to itself. */
  lemma GroupReencodes(q: string)
    requires |q| == 4 && AllAlphabet(q)
    ensures var g := GroupBytes(GroupValue(q));
            GroupChars(Sextets(g[0], g[1], g[2])) == q
  {
    var n := GroupValue(q);
    var g := GroupBytes(n);
    ByteSplit(n);
    SextetsUnique(Sextets(g[0], g[1], g[2]), QuantumSextets(q));
    AlphabetCharOfSextet(q[0]);
    AlphabetCharOfSextet(q[1]);
    AlphabetCharOfSextet(q[2]);
    AlphabetCharOfSextet(q[3]);
  }

  /** A 24-bit value is the sum of its base-256 digits (arithmetic only). */
  lemma ByteSplit(n: nat)
    requires n < 0x100_0000
    ensures n == (n / 0x1_0000) * 0x1_0000 + (n / 0x100 % 0x100) * 0x100 + n % 0x100
  {
  }

  /** A padded final quantum accepted by `DecodeFinal` is re-encoded to itself. */
  lemma FinalReencodes(q: string)
    requires |q| == 4 && DecodeFinal(q).Some?
    ensures Encode(DecodeFinal(q).value) == q
  {
    var b := DecodeFinal(q).value;
    if AllAlphabet(q) {
      GroupReencodes(q);
      assert Encode(b) == GroupChars(Sextets(b[0], b[1], b[2])) + Encode(b[3..]);
    } else if AllAlphabet(q[..2]) && q[2] == '=' && q[3] == '=' {
      OneByteReencodes(q);
    } else {
      TwoBytesReencode(q);
    }
  }

  lemma OneByteReencodes(q: string)
    requires |q| == 4 && AllAlphabet(q[..2]) && q[2] == '=' && q[3] == '='
    requires DecodeFinal(q).Some?
    ensures Encode(DecodeFinal(q).value) == q
  {
    var v0, v1 := SextetOf(q[0]), SextetOf(q[1]);
    var n := v0 as nat * 0x4_0000 + v1 as nat * 0x1000;
    assert !AllAlphabet(q);
    var b := DecodeFinal(q).value;
    assert b == [n / 0x1_0000];
    PaddedOne(n);
    SextetsUnique(Sextets(b[0], 0, 0), (v0, v1, 0, 0));
    AlphabetCharOfSextet(q[0]);
    AlphabetCharOfSextet(q[1]);
    assert Encode(b) == GroupChars(Sextets(b[0], 0, 0))[..2] + "==";
  }

  /** Two final bytes encode as three characters and one `=`. */
  lemma EncodeTwo(b0: byte, b1: byte)
    ensures var v := Sextets(b0, b1, 0);
            Encode([b0, b1]) == [AlphabetChar(v.0), AlphabetChar(v.1), AlphabetChar(v.2), '=']
  {
  }

  /** The bytes `DecodeFinal` gives for a quantum with one `=`. */
  lemma TwoBytesDecoded(q: string)
    requires |q| == 4 && AllAlphabet(q[..3]) && q[3] == '='
    requires DecodeFinal(q).Some?
    ensures var n := SextetOf(q[0]) * 0x4_0000 + SextetOf(q[1]) * 0x1000 + SextetOf(q[2]) * 64;
            n % 0x100 == 0 && DecodeFinal(q).value == [n / 0x1_0000, n / 0x100 % 0x100]
  {
    assert !AllAlphabet(q);
    assert q[2] != '=';
  }

  lemma TwoBytesReencode(q: string)
    requires |q| == 4 && AllAlphabet(q[..3]) && q[3] == '='
    requires DecodeFinal(q).Some?
    ensures Encode(DecodeFinal(q).value) == q
  {
    var v0, v1, v2 := SextetOf(q[0]), SextetOf(q[1]), SextetOf(q[2]);
    var n := v0 as nat * 0x4_0000 + v1 as nat * 0x1000 + v2 as nat * 64;
    TwoBytesDecoded(q);
    var b := DecodeFinal(q).value;
    PaddedTwo(n);
    SextetsUnique(Sextets(b[0], b[1], 0), (v0, v1, v2, 0));
    AlphabetCharOfSextet(q[0]);
    AlphabetCharOfSextet(q[1]);
    AlphabetCharOfSextet(q[2]);
    EncodeTwo(b[0], b[1]);
    assert b == [b[0], b[1]];
    assert q == [q[0], q[1], q[2], '='];
  }

  lemma PaddedOne(n: nat)
    requires n < 0x100_0000 && n % 0x1_0000 == 0
    ensures n / 0x1_0000 < 0x100 && n == (n / 0x1_0000) * 0x1_0000
  {
  }

  lemma PaddedTwo(n: nat)
    requires n < 0x100_0000 && n % 0x100 == 0
    ensures n == (n / 0x1_0000) * 0x1_0000 + (n / 0x100 % 0x100) * 0x100
  {
  }

  /** How the reference decoder proceeds past a leading full group. */
  lemma DecodeTail(s: string)
    requires |s| > 4 && Decode(s).Some?
    ensures AllAlphabet(s[..4]) && Decode(s[4..]).Some?
    ensures Decode(s).value == GroupBytes(GroupValue(s[..4])) + Decode(s[4..]).value
  {
    assert Decode(s) == DecodeQuanta(s);
    assert |s[4..]| % 4 == 0;
    assert Decode(s[4..]) == DecodeQuanta(s[4..]);
  }

  /** A leading full group is re-encoded to itself ahead of a re-encoded rest. */
  lemma ReencodeFirstGroup(s: string)
    requires |s| > 4 && Decode(s).Some?
    requires Decode(s[4..]).Some? && Encode(Decode(s[4..]).value) == s[4..]
    ensures Encode(Decode(s).value) == s
  {
    DecodeTail(s);
    var g := GroupBytes(GroupValue(s[..4]));
    var r := Decode(s[4..]).value;
    GroupReencodes(s[..4]);
    assert (g + r)[3..] == r;
    assert Encode(g + r) == GroupChars(Sextets(g[0], g[1], g[2])) + Encode(r);
    assert s == s[..4] + s[4..];
  }

  /** The reference decoder accepts only canonical encodings: it is undone by `Encode`. */
  lemma {:induction false} EncodeDecode(s: string)
    requires Decode(s).Some?
    ensures Encode(Decode(s).value) == s
    decreases |s|
  {
    if s == [] {
      assert Decode(s).value == [];
    } else if |s| == 4 {
      assert Decode(s) == DecodeFinal(s);
      FinalReencodes(s);
    } else {
      DecodeTail(s);
      EncodeDecode(s[4..]);
      ReencodeFirstGroup(s);
    }
  }

  // ---------------------------------------------------------------------
  // What `base64.b64decode(s)` runs: CPython's non-strict a2b_base64
  // ---------------------------------------------------------------------

  /**
   * The registers of the C decoder: the position in the current quad, the
   * bits left over from the previous character, the `=` characters seen
   * since the last data character, and the bytes written so far.
   */
  datatype Decoder = Decoder(quadPos: nat, leftChar: nat, pads: nat, out: seq<byte>)

  predicate ValidDecoder(d: Decoder) {
    && d.quadPos < 4
    && (d.quadPos == 0 ==> d.leftChar == 0)
    && (d.quadPos == 1 ==> d.leftChar < 64)
    && (d.quadPos == 2 ==> d.leftChar < 16)
    && (d.quadPos == 3 ==> d.leftChar < 4)
  }

  /** A decoder at a quad boundary that has written `out`. */
  function Start(out: seq<byte>): (d: Decoder)
    ensures ValidDecoder(d)
  {
    Decoder(0, 0, 0, out)
  }

  /**
   * One data character. The C code writes `(leftchar << k) | (ch >> m)`
   * into a byte; the leftover bits are small enough that the shift never
   * leaves the byte and the `|` never overlaps, so it is a sum here.
   */
  function Feed(d: Decoder, v: sextet): (e: Decoder)
    requires ValidDecoder(d)
    ensures ValidDecoder(e) && e.pads == 0
    ensures e.quadPos == (d.quadPos + 1) % 4
    ensures |e.out| == |d.out| + (if d.quadPos == 0 then 0 else 1)
  {
    if d.quadPos == 0 then Decoder(1, v, 0, d.out)
    else if d.quadPos == 1 then Decoder(2, v % 16, 0, d.out + [d.leftChar * 4 + v / 16])
    else if d.quadPos == 2 then Decoder(3, v % 4, 0, d.out + [d.leftChar * 16 + v / 4])
    else Decoder(0, 0, 0, d.out + [d.leftChar * 64 + v])
  }

  /** The end of input: a partial quad is an error. */
  function Finish(d: Decoder): (r: Result<seq<byte>>)
    ensures r.Ok? <==> d.quadPos == 0
  {
    if d.quadPos == 0 then Ok(d.out)
    else if d.quadPos == 1 then Err(DataCountMessage(|d.out| / 3 * 4 + 1))
    else Err("Incorrect padding")
  }

  /** The error for a count of data characters one more than a multiple of four. */
  function DataCountMessage(n: nat): string {
    "Invalid base64-encoded string: number of data characters ("
      + ShowNat(n) + ") cannot be 1 more than a multiple of 4"
  }

  /**
   * The main loop from index `i`. A `=` is ignored unless it completes the
   * padding of a quad that already holds two or three data characters;
   * then decoding stops and whatever follows is discarded.
   */
  function Run(s: string, i: nat, d: Decoder): (r: Result<seq<byte>>)
    requires i <= |s| && AllB64(s) && ValidDecoder(d)
    decreases |s| - i
  {
    if i == |s| then Finish(d)
    else if s[i] == '=' then
      if d.quadPos >= 2 && d.quadPos + d.pads + 1 >= 4 then Ok(d.out)
      else Run(s, i + 1, if d.quadPos >= 2 then d.(pads := d.pads + 1) else d)
    else Run(s, i + 1, Feed(d, SextetOf(s[i])))
  }

  /** `base64.b64decode(s)` on a string of the regex class `[A-Za-z0-9+/=]`. */
  function Lenient(s: string): (r: Result<seq<byte>>)
    requires AllB64(s)
  {
    Run(s, 0, Start([]))
  }

  /** The C decoder's bytes for a full quad are the group's bytes (arithmetic only). */
  lemma FeedBytes(v0: sextet, v1: sextet, v2: sextet, v3: sextet)
    ensures var n := v0 as nat * 0x4_0000 + v1 as nat * 0x1000 + v2 as nat * 64 + v3;
            && v0 * 4 + v1 / 16 == n / 0x1_0000
            && v1 % 16 * 16 + v2 / 4 == n / 0x100 % 0x100
            && v2 % 4 * 64 + v3 == n % 0x100
  {
    var n := v0 as nat * 0x4_0000 + v1 as nat * 0x1000 + v2 as nat * 64 + v3;
    var b0, b1, b2 := v0 * 4 + v1 / 16, v1 % 16 * 16 + v2 / 4, v2 % 4 * 64 + v3;
    assert n == b0 * 0x1_0000 + b1 * 0x100 + b2;
    ByteDigits(n, b0, b1, b2);
  }

  /** Four data characters at a quad boundary write the group's three bytes. */
  lemma RunGroup(s: string, i: nat, out: seq<byte>)
    requires i + 4 <= |s| && AllB64(s) && AllAlphabet(s[i..i + 4])
    ensures Run(s, i, Start(out)) == Run(s, i + 4, Start(out + GroupBytes(GroupValue(s[i..i + 4]))))
  {
    var q := s[i..i + 4];
    assert IsAlphabetChar(q[0]) && IsAlphabetChar(q[1]) && IsAlphabetChar(q[2]) && IsAlphabetChar(q[3]);
    var v0, v1, v2, v3 := SextetOf(s[i]), SextetOf(s[i + 1]), SextetOf(s[i + 2]), SextetOf(s[i + 3]);
    FeedBytes(v0, v1, v2, v3);
    var d1 := Feed(Start(out), v0);
    var d2 := Feed(d1, v1);
    var d3 := Feed(d2, v2);
    var d4 := Feed(d3, v3);
    assert d4 == Start(out + GroupBytes(GroupValue(q)));
    assert Run(s, i, Start(out)) == Run(s, i + 1, d1);
    assert Run(s, i + 1, d1) == Run(s, i + 2, d2);
    assert Run(s, i + 2, d2) == Run(s, i + 3, d3);
    assert Run(s, i + 3, d3) == Run(s, i + 4, d4);
  }

  /** An `xx==` quad at a quad boundary writes one byte and stops; what follows is not read. */
  lemma RunFinalOne(s: string, i: nat, out: seq<byte>)
    requires i + 4 <= |s| && AllB64(s) && AllAlphabet(s[i..i + 2]) && s[i + 2] == '=' && s[i + 3] == '='
    ensures var n := SextetOf(s[i]) as nat * 0x4_0000 + SextetOf(s[i + 1]) as nat * 0x1000;
            Run(s, i, Start(out)) == Ok(out + [n / 0x1_0000])
  {
    assert IsAlphabetChar(s[i..i + 2][0]) && IsAlphabetChar(s[i..i + 2][1]);
    var v0, v1 := SextetOf(s[i]), SextetOf(s[i + 1]);
    FeedBytes(v0, v1, 0, 0);
    var d1 := Feed(Start(out), v0);
    var d2 := Feed(d1, v1);
    assert Run(s, i, Start(out)) == Run(s, i + 1, d1);
    assert Run(s, i + 1, d1) == Run(s, i + 2, d2);
    assert Run(s, i + 2, d2) == Run(s, i + 3, d2.(pads := 1));
  }

  /** An `xxx=` quad at a quad boundary writes two bytes and stops; what follows is not read. */
  lemma RunFinalTwo(s: string, i: nat, out: seq<byte>)
    requires i + 4 <= |s| && AllB64(s) && AllAlphabet(s[i..i + 3]) && s[i + 3] == '='
    ensures var n := SextetOf(s[i]) as nat * 0x4_0000 + SextetOf(s[i + 1]) as nat * 0x1000
                     + SextetOf(s[i + 2]) as nat * 64;
            Run(s, i, Start(out)) == Ok(out + [n / 0x1_0000, n / 0x100 % 0x100])
  {
    var t := s[i..i + 3];
    assert IsAlphabetChar(t[0]) && IsAlphabetChar(t[1]) && IsAlphabetChar(t[2]);
    var v0, v1, v2 := SextetOf(s[i]), SextetOf(s[i + 1]), SextetOf(s[i + 2]);
    FeedBytes(v0, v1, v2, 0);
    var d1 := Feed(Start(out), v0);
    var d2 := Feed(d1, v1);
    var d3 := Feed(d2, v2);
    assert Run(s, i, Start(out)) == Run(s, i + 1, d1);
    assert Run(s, i + 1, d1) == Run(s, i + 2, d2);
    assert Run(s, i + 2, d2) == Run(s, i + 3, d3);
    var n := v0 as nat * 0x4_0000 + v1 as nat * 0x1000 + v2 as nat * 64;
    assert d3.out == out + [n / 0x1_0000, n / 0x100 % 0x100];
  }

  /** The final quantum of a reference-valid string decodes the same way. */
  lemma RunFinal(s: string, i: nat, out: seq<byte>)
    requires i + 4 == |s| && AllB64(s) && DecodeFinal(s[i..]).Some?
    ensures Run(s, i, Start(out)) == Ok(out + DecodeFinal(s[i..]).value)
  {
    var t := s[i..];
    assert t == s[i..i + 4];
    if AllAlphabet(t) {
      RunGroup(s, i, out);
      assert Run(s, i + 4, Start(out + GroupBytes(GroupValue(t)))) == Ok(out + GroupBytes(GroupValue(t)));
    } else if AllAlphabet(t[..2]) && t[2] == '=' && t[3] == '=' {
      assert t[..2] == s[i..i + 2];
      RunFinalOne(s, i, out);
    } else {
      assert t[..3] == s[i..i + 3];
      RunFinalTwo(s, i, out);
    }
  }

  /** From a quad boundary, the rest of a reference-valid string decodes the same way. */
  lemma {:induction false} RunAgrees(s: string, i: nat, out: seq<byte>)
    requires i <= |s| && AllB64(s) && Decode(s[i..]).Some?
    ensures Run(s, i, Start(out)) == Ok(out + Decode(s[i..]).value)
    decreases |s| - i
  {
    var t := s[i..];
    if |t| == 0 {
      assert i == |s|;
      assert out + [] == out;
    } else if |t| == 4 {
      RunFinal(s, i, out);
    } else {
      var q, rest := t[..4], t[4..];
      assert t == q + rest;
      assert q == s[i..i + 4];
      assert rest == s[i + 4..];
      DecodeLeadingGroup(q, rest);
      RunGroup(s, i, out);
      var g := GroupBytes(GroupValue(q));
      RunAgrees(s, i + 4, out + g);
      var r := Decode(rest).value;
      assert Decode(t).value == g + r;
      assert out + g + r == out + (g + r);
    }
  }

  /** On every string the reference decoder accepts, `b64decode` returns the same bytes. */
  lemma LenientAgrees(s: string)
    requires AllB64(s) && Decode(s).Some?
    ensures Lenient(s) == Ok(Decode(s).value)
  {
    assert s[0..] == s;
    RunAgrees(s, 0, []);
    assert [] + Decode(s).value == Decode(s).value;
  }

  /** Encoded text uses only the alphabet and the padding character. */
  lemma {:induction false} EncodeInAlphabet(b: seq<byte>)
    ensures AllB64(Encode(b))
    decreases |b|
  {
    if |b| > 2 {
      EncodeInAlphabet(b[3..]);
      EncodeGroupSplit(b);
      var q, rest := GroupChars(Sextets(b[0], b[1], b[2])), Encode(b[3..]);
      assert forall k | 0 <= k < |q + rest| :: (q + rest)[k] == if k < 4 then q[k] else rest[k - 4];
    }
  }

  /** `b64decode` inverts `Encode`. */
  lemma LenientDecodesEncode(b: seq<byte>)
    ensures AllB64(Encode(b)) && Lenient(Encode(b)) == Ok(b)
  {
    DecodeEncode(b);
    EncodeInAlphabet(b);
    LenientAgrees(Encode(b));
  }

  /** A padded final quantum at a quad boundary decodes as the reference decodes it, wherever it stands. */
  lemma RunFinalPadded(s: string, i: nat, out: seq<byte>)
    requires i + 4 <= |s| && AllB64(s) && s[i + 3] == '=' && DecodeFinal(s[i..i + 4]).Some?
    ensures Run(s, i, Start(out)) == Ok(out + DecodeFinal(s[i..i + 4]).value)
  {
    var q := s[i..i + 4];
    assert q[3] == '=';
    assert !AllAlphabet(q);
    if AllAlphabet(q[..2]) && q[2] == '=' && q[3] == '=' {
      assert q[..2] == s[i..i + 2];
      RunFinalOne(s, i, out);
    } else {
      assert q[..3] == s[i..i + 3];
      RunFinalTwo(s, i, out);
    }
  }

  /**
   * From a quad boundary in `s`, where the rest of `s` is reference-valid
   * and ends in padding, decoding `s + t` returns the bytes of that rest:
   * the text `t` after it is never read.
   */
  lemma {:induction false} RunPaddedPrefix(s: string, t: string, i: nat, out: seq<byte>)
    requires i < |s| && AllB64(s + t) && s[|s| - 1] == '=' && Decode(s[i..]).Some?
    ensures Run(s + t, i, Start(out)) == Ok(out + Decode(s[i..]).value)
    decreases |s| - i
  {
    var u, r := s + t, s[i..];
    assert u[i..|s|] == r;
    if |r| == 4 {
      assert u[i..i + 4] == r;
      assert u[i + 3] == s[|s| - 1];
      RunFinalPadded(u, i, out);
    } else {
      var q, rest := r[..4], r[4..];
      assert r == q + rest;
      assert u[i..i + 4] == q;
      assert rest == s[i + 4..];
      DecodeLeadingGroup(q, rest);
      RunGroup(u, i, out);
      var g := GroupBytes(GroupValue(q));
      RunPaddedPrefix(s, t, i + 4, out + g);
      assert out + g + Decode(rest).value == out + (g + Decode(rest).value);
    }
  }

  /**
   * `b64decode` stops at the first complete padding: a reference-valid text
   * ending in `=` decodes the same whatever base64 text follows it.
   */
  lemma LenientStopsAtPadding(s: string, t: string)
    requires AllB64(s + t) && Decode(s).Some? && s != [] && s[|s| - 1] == '='
    ensures Lenient(s + t) == Ok(Decode(s).value)
  {
    assert s[0..] == s;
    RunPaddedPrefix(s, t, 0, []);
    assert [] + Decode(s).value == Decode(s).value;
  }

  /** Two padded quanta in a row: `b64decode` returns the first, the reference rejects the text. */
  lemma LenientAcceptsDoublePadding()
    ensures Lenient("YQ==YQ==") == Ok([0x61])
    ensures Decode("YQ==YQ==") == None
  {
    var s := "YQ==";
    assert SextetOf('Y') == 24 && SextetOf('Q') == 16;
    assert s[..2] == "YQ";
    assert DecodeFinal(s) == Some([0x61]);
    assert s + s == "YQ==YQ==";
    LenientStopsAtPadding(s, s);
    assert !AllAlphabet("YQ==YQ=="[..4]);
  }

  /** How many bytes the decoder has written after `i` data characters from a quad boundary. */
  function BytesAfter(i: nat): nat {
    i / 4 * 3 + (if i % 4 == 0 then 0 else i % 4 - 1)
  }

  lemma BytesAfterStep(i: nat)
    ensures BytesAfter(i + 1) == BytesAfter(i) + (if i % 4 == 0 then 0 else 1)
  {
    if i % 4 == 3 {
      assert (i + 1) / 4 == i / 4 + 1;
    } else {
      assert (i + 1) / 4 == i / 4;
    }
  }

  /** Text with no `=` runs to its end; the count of data characters decides the outcome. */
  lemma {:induction false} RunUnpadded(s: string, i: nat, d: Decoder)
    requires i <= |s| && AllB64(s) && ValidDecoder(d)
    requires forall k | i <= k < |s| :: s[k] != '='
    requires d.quadPos == i % 4 && |d.out| == BytesAfter(i)
    ensures |s| % 4 == 0 ==> Run(s, i, d).Ok?
    ensures |s| % 4 == 1 ==> Run(s, i, d) == Err(DataCountMessage(|s|))
    ensures |s| % 4 >= 2 ==> Run(s, i, d) == Err("Incorrect padding")
    decreases |s| - i
  {
    if i == |s| {
      if |s| % 4 == 1 {
        var k := |s| / 4;
        assert |d.out| == k * 3;
        assert |d.out| / 3 == k;
      }
    } else {
      BytesAfterStep(i);
      RunUnpadded(s, i + 1, Feed(d, SextetOf(s[i])));
    }
  }

  /**
   * `b64decode` of text without `=`: accepted when the length is a multiple
   * of four, rejected with the data-count message when it is one more, and
   * with `Incorrect padding` when it is two or three more.
   */
  lemma LenientUnpadded(s: string)
    requires AllB64(s) && '=' !in s
    ensures |s| % 4 == 0 <==> Lenient(s).Ok?
    ensures |s| % 4 == 1 ==> Lenient(s) == Err(DataCountMessage(|s|))
    ensures |s| % 4 >= 2 ==> Lenient(s) == Err("Incorrect padding")
  {
    RunUnpadded(s, 0, Start([]));
  }

  /** Three data characters leave a partial quad: "Incorrect padding". */
  lemma LenientRejectsNot()
    ensures Lenient("Not") == Err("Incorrect padding")
  {
    var s := "Not";
    var d1 := Feed(Start([]), SextetOf('N'));
    var d2 := Feed(d1, SextetOf('o'));
    var d3 := Feed(d2, SextetOf('t'));
    assert Run(s, 0, Start([])) == Run(s, 1, d1);
    assert Run(s, 1, d1) == Run(s, 2, d2);
    assert Run(s, 2, d2) == Run(s, 3, d3);
  }
}
