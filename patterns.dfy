/**
 * The regular expressions of both scripts, as matchers anchored at a
 * position of a text, and the searches that run them.
 *
 * In every pattern here two neighbouring pieces have disjoint character
 * classes (digits before `/` or `"`, base64 characters before whitespace or
 * `"`, whitespace before a letter), so a greedy repetition can never give
 * back characters to let the rest match: each pattern has at most one way
 * to match at a given position, and each matcher is a plain function.
 */
module Patterns {
  import opened Wrappers
  import opened Text

  // ---------------------------------------------------------------------
  // Pieces shared by all patterns
  // ---------------------------------------------------------------------

  /** `w` occurs in `s` starting at index `i`. */
  predicate HasAt(s: string, i: nat, w: string) {
    i + |w| <= |s| && s[i..i + |w|] == w
  }

  lemma HasAtSplit(s: string, i: nat, a: string, b: string)
    requires HasAt(s, i, a + b)
    ensures HasAt(s, i, a) && HasAt(s, i + |a|, b)
  {
    assert s[i..i + |a|] == s[i..i + |a| + |b|][..|a|];
    assert s[i + |a|..i + |a| + |b|] == s[i..i + |a| + |b|][|a|..];
  }

  lemma HasAtChar(s: string, i: nat, w: string, k: nat)
    requires HasAt(s, i, w) && k < |w|
    ensures s[i + k] == w[k]
  {
    assert s[i..i + |w|][k] == s[i + k];
  }

  /** A text occurs where it was put. */
  lemma HasAtConcat(a: string, w: string, b: string)
    ensures HasAt(a + w + b, |a|, w)
  {
    assert (a + w + b)[|a|..|a| + |w|] == w;
  }

  /** Every character of `w` is in the class `cls`. */
  predicate AllIn(w: string, cls: char -> bool) {
    forall k | 0 <= k < |w| :: cls(w[k])
  }

  /** The end of the greedy run of `cls` characters that starts at `i`: a greedy `cls*`. */
  function SpanFrom(s: string, i: nat, cls: char -> bool): (j: nat)
    requires i <= |s|
    ensures i <= j <= |s|
    ensures AllIn(s[i..j], cls)
    ensures j == |s| || !cls(s[j])
    decreases |s| - i
  {
    if i == |s| || !cls(s[i]) then i
    else
      var j := SpanFrom(s, i + 1, cls);
      assert s[i..j] == [s[i]] + s[i + 1..j];
      j
  }

  /** A greedy run ends exactly where its class stops. */
  lemma {:induction false} SpanFromExact(s: string, i: nat, j: nat, cls: char -> bool)
    requires i <= j <= |s|
    requires AllIn(s[i..j], cls)
    requires j == |s| || !cls(s[j])
    ensures SpanFrom(s, i, cls) == j
    decreases j - i
  {
    if i < j {
      assert s[i..j][0] == s[i];
      assert s[i + 1..j] == s[i..j][1..];
      SpanFromExact(s, i + 1, j, cls);
    }
  }

  /** The greedy run over an occurrence of `w`, whose characters are all in `cls`. */
  lemma SpanOver(s: string, i: nat, w: string, cls: char -> bool)
    requires HasAt(s, i, w) && AllIn(w, cls)
    requires i + |w| == |s| || !cls(s[i + |w|])
    ensures SpanFrom(s, i, cls) == i + |w|
  {
    SpanFromExact(s, i, i + |w|, cls);
  }

  lemma B64NotSpace(c: char)
    requires IsB64Char(c)
    ensures !IsSpace(c)
  {
  }

  // ---------------------------------------------------------------------
  // Leftmost search, as `re.search` runs it
  // ---------------------------------------------------------------------

  /**
   * The first index `p >= i` at which `at` matches, with its capture.
   * Every index up to and including `|s|` is tried, as `re.search` does.
   */
  function SearchFrom<T>(s: string, i: nat, at: (string, nat) -> Option<T>): (r: Option<(nat, T)>)
    requires i <= |s|
    ensures r.Some? ==> i <= r.value.0 <= |s| && at(s, r.value.0) == Some(r.value.1)
    ensures r.Some? ==> forall j | i <= j < r.value.0 :: at(s, j).None?
    ensures r.None? ==> forall j | i <= j <= |s| :: at(s, j).None?
    decreases |s| - i
  {
    match at(s, i)
    case Some(v) => Some((i, v))
    case None => if i == |s| then None else SearchFrom(s, i + 1, at)
  }

  /** `re.search(pattern, s)`: the capture of the leftmost match of `at`. */
  function Search<T>(s: string, at: (string, nat) -> Option<T>): (r: Option<T>)
    ensures r.Some? ==> exists p | 0 <= p <= |s| ::
              (at(s, p) == r && forall j | 0 <= j < p :: at(s, j).None?)
    ensures r.None? <==> forall j | 0 <= j <= |s| :: at(s, j).None?
  {
    match SearchFrom(s, 0, at)
    case Some((p, v)) => Some(v)
    case None => None
  }

  /** A match at `p` with no match before it is what the search returns. */
  lemma SearchFinds<T>(s: string, at: (string, nat) -> Option<T>, p: nat)
    requires p <= |s| && at(s, p).Some?
    requires forall j | 0 <= j < p :: at(s, j).None?
    ensures Search(s, at) == at(s, p)
  {
    var r := SearchFrom(s, 0, at);
    assert at(s, p).Some?;
  }

  // ---------------------------------------------------------------------
  // Successive matches, as `re.findall` and `re.finditer` produce them
  // ---------------------------------------------------------------------

  /**
   * The captures of the successive non-overlapping matches of a pattern in
   * `s[i..]`, scanning left to right; `at` is the pattern anchored at an
   * index, giving its capture and the index where the match ends. None of
   * the patterns here matches the empty text, so a match ends after it
   * starts and the scan resumes at its end.
   */
  function Scan<T>(s: string, i: nat, at: (string, nat) -> Option<(T, nat)>): (rs: seq<T>)
    requires i <= |s|
    ensures |rs| <= |s| - i
    decreases |s| - i
  {
    if i == |s| then []
    else
      match at(s, i)
      case Some((v, e)) => if i < e <= |s| then [v] + Scan(s, e, at) else Scan(s, i + 1, at)
      case None => Scan(s, i + 1, at)
  }

  /** A match at the scan position is the next capture; the scan resumes at its end. */
  lemma ScanMatch<T>(s: string, i: nat, at: (string, nat) -> Option<(T, nat)>, v: T, e: nat)
    requires i < e <= |s| && at(s, i) == Some((v, e))
    ensures Scan(s, i, at) == [v] + Scan(s, e, at)
  {
  }

  /** Positions where nothing matches are passed over. */
  lemma {:induction false} ScanSkip<T>(s: string, i: nat, j: nat, at: (string, nat) -> Option<(T, nat)>)
    requires i <= j <= |s|
    requires forall k | i <= k < j :: at(s, k).None?
    ensures Scan(s, i, at) == Scan(s, j, at)
    decreases j - i
  {
    if i < j {
      assert at(s, i).None?;
      ScanSkip(s, i + 1, j, at);
    }
  }

  /** Every capture of the scan comes from a match in the scanned text. */
  lemma {:induction false} ScanSound<T>(s: string, i: nat, at: (string, nat) -> Option<(T, nat)>, v: T)
    requires i <= |s| && v in Scan(s, i, at)
    ensures exists p: nat, e: nat | i <= p < e <= |s| :: at(s, p) == Some((v, e))
    decreases |s| - i
  {
    match at(s, i)
    case Some((v0, e0)) =>
      if i < e0 <= |s| {
        if v != v0 {
          ScanSound(s, e0, at, v);
        } else {
          assert at(s, i) == Some((v, e0));
        }
      } else {
        ScanSound(s, i + 1, at, v);
      }
    case None =>
      ScanSound(s, i + 1, at, v);
  }

  /**
   * A match the scan cannot step over is found: when no earlier match
   * reaches past its start, its capture is among the scan's.
   */
  lemma {:induction false} ScanComplete<T>(s: string, i: nat, at: (string, nat) -> Option<(T, nat)>, p: nat, v: T, e: nat)
    requires i <= p < e <= |s| && at(s, p) == Some((v, e))
    requires forall q | i <= q < p :: at(s, q).Some? ==> at(s, q).value.1 <= p
    ensures v in Scan(s, i, at)
    decreases |s| - i
  {
    if p > i {
      match at(s, i)
      case Some((v0, e0)) =>
        if i < e0 <= |s| {
          ScanComplete(s, e0, at, p, v, e);
        } else {
          ScanComplete(s, i + 1, at, p, v, e);
        }
      case None =>
        ScanComplete(s, i + 1, at, p, v, e);
    }
  }

  // ---------------------------------------------------------------------
  // `premium(\d+)/`
  // ---------------------------------------------------------------------

  const Premium := "premium"

  /** `premium`, the digit string `d`, then `/`, at index `i` of `s`. */
  predicate IsIdMatch(s: string, i: nat, d: string) {
    d != [] && AllDigits(d) && HasAt(s, i, Premium + d + "/")
  }

  /** The pattern `premium(\d+)/` anchored at index `i`: its group and the end of the match. */
  function IdAt(s: string, i: nat): (r: Option<(string, nat)>)
    ensures r.Some? ==> IsIdMatch(s, i, r.value.0) && r.value.1 == i + |r.value.0| + 8
  {
    if !HasAt(s, i, Premium) then None
    else
      var e := SpanFrom(s, i + 7, IsDigit);
      if e == i + 7 || e == |s| || s[e] != '/' then None
      else
        assert s[i..e + 1] == s[i..i + 7] + s[i + 7..e] + [s[e]];
        Some((s[i + 7..e], e + 1))
  }

  /** Whenever the text at `i` matches, `IdAt` finds that match. */
  lemma IdAtComplete(s: string, i: nat, d: string)
    requires IsIdMatch(s, i, d)
    ensures IdAt(s, i) == Some((d, i + |d| + 8))
  {
    HasAtSplit(s, i, Premium + d, "/");
    HasAtSplit(s, i, Premium, d);
    HasAtChar(s, i + 7 + |d|, "/", 0);
    SpanOver(s, i + 7, d, IsDigit);
  }

  /** Inside a match no other match can start: only its first character is a `p`. */
  lemma IdMatchesDisjoint(s: string, i: nat, d: string, p: nat, e: string)
    requires IsIdMatch(s, i, d) && i < p < i + |d| + 8
    ensures !IsIdMatch(s, p, e)
  {
    var w := Premium + d + "/";
    HasAtChar(s, i, w, p - i);
    if p - i < 7 {
      assert w[p - i] == Premium[p - i];
    } else if p - i < 7 + |d| {
      assert w[p - i] == d[p - i - 7];
    }
  }

  /** `re.findall(r'premium(\d+)/', s)`: the digit groups of successive matches. */
  function FindIds(s: string): (ds: seq<string>)
    ensures forall d | d in ds :: d != [] && AllDigits(d)
  {
    FindIdsDigits(s);
    Scan(s, 0, IdAt)
  }

  lemma FindIdsDigits(s: string)
    ensures forall d | d in Scan(s, 0, IdAt) :: d != [] && AllDigits(d)
  {
    forall d | d in Scan(s, 0, IdAt)
      ensures d != [] && AllDigits(d)
    {
      ScanSound(s, 0, IdAt, d);
    }
  }

  /** Every group `findall` returns is the group of a match in the text. */
  lemma FindIdsSound(s: string, d: string)
    requires d in FindIds(s)
    ensures exists p | 0 <= p < |s| :: IsIdMatch(s, p, d)
  {
    ScanSound(s, 0, IdAt, d);
    var p: nat, e: nat :| 0 <= p < e <= |s| && IdAt(s, p) == Some((d, e));
    assert IsIdMatch(s, p, d);
  }

  /** Every match in the text contributes its group to `findall`. */
  lemma FindIdsComplete(s: string, p: nat, d: string)
    requires IsIdMatch(s, p, d)
    ensures d in FindIds(s)
  {
    IdAtComplete(s, p, d);
    forall q | 0 <= q < p && IdAt(s, q).Some?
      ensures IdAt(s, q).value.1 <= p
    {
      if IdAt(s, q).value.1 > p {
        IdMatchesDisjoint(s, q, IdAt(s, q).value.0, p, d);
      }
    }
    ScanComplete(s, 0, IdAt, p, d, p + |d| + 8);
  }

  // ---------------------------------------------------------------------
  // `CHANNEL_KEY="(premium[0-9]+)"`
  // ---------------------------------------------------------------------

  const KeyOpen := "CHANNEL_KEY=\"premium"

  predicate IsKeyMatch(s: string, i: nat, d: string) {
    d != [] && AllDigits(d) && HasAt(s, i, KeyOpen + d + "\"")
  }

  /** The key pattern anchored at index `i`; its group is `premium` and the digits. */
  function KeyAt(s: string, i: nat): (r: Option<string>)
    ensures r.Some? ==> |r.value| > 7 && r.value[..7] == Premium && IsKeyMatch(s, i, r.value[7..])
  {
    if !HasAt(s, i, KeyOpen) then None
    else
      var e := SpanFrom(s, i + 20, IsDigit);
      if e == i + 20 || e == |s| || s[e] != '"' then None
      else
        assert s[i..e + 1] == s[i..i + 20] + s[i + 20..e] + [s[e]];
        assert s[i + 13..e][..7] == s[i..i + 20][13..];
        assert s[i + 13..e][7..] == s[i + 20..e];
        Some(s[i + 13..e])
  }

  lemma KeyAtComplete(s: string, i: nat, d: string)
    requires IsKeyMatch(s, i, d)
    ensures KeyAt(s, i) == Some(Premium + d)
  {
    HasAtSplit(s, i, KeyOpen + d, "\"");
    HasAtSplit(s, i, KeyOpen, d);
    HasAtChar(s, i + 20 + |d|, "\"", 0);
    SpanOver(s, i + 20, d, IsDigit);
    assert s[i + 13..i + 20] == s[i..i + 20][13..];
    assert s[i + 13..i + 20 + |d|] == s[i + 13..i + 20] + s[i + 20..i + 20 + |d|];
  }

  // ---------------------------------------------------------------------
  // `"([A-Za-z0-9+/=]{292})"`
  // ---------------------------------------------------------------------

  const BlobLength := 292

  /** The blob pattern anchored at index `i`; its group is the 292 characters. */
  function BlobAt(s: string, i: nat): (r: Option<string>)
    ensures r.Some? ==> |r.value| == BlobLength && AllB64(r.value)
    ensures r.Some? ==> HasAt(s, i, "\"" + r.value + "\"")
  {
    if i + BlobLength + 2 <= |s| && s[i] == '"' && s[i + BlobLength + 1] == '"'
       && AllB64(s[i + 1..i + BlobLength + 1]) then
      assert s[i..i + BlobLength + 2] == [s[i]] + s[i + 1..i + BlobLength + 1] + [s[i + BlobLength + 1]];
      Some(s[i + 1..i + BlobLength + 1])
    else None
  }

  /**
   * A quoted run of `n` base64 characters matches at its opening quote
   * exactly when `n` is 292: a run of 291 or 293 never does.
   */
  lemma BlobExactLength(s: string, i: nat, n: nat)
    requires i + n + 2 <= |s| && s[i] == '"' && s[i + n + 1] == '"' && AllB64(s[i + 1..i + n + 1])
    ensures BlobAt(s, i).Some? <==> n == BlobLength
    ensures n == BlobLength ==> BlobAt(s, i) == Some(s[i + 1..i + n + 1])
  {
    if n < BlobLength && i + BlobLength + 2 <= |s| {
      assert s[i + 1..i + BlobLength + 1][n] == s[i + n + 1];
    } else if n > BlobLength {
      assert s[i + 1..i + n + 1][BlobLength] == s[i + BlobLength + 1];
    }
  }

  // ---------------------------------------------------------------------
  // `"b_ts":"([A-Za-z0-9+/=]+)"` and its two siblings
  // ---------------------------------------------------------------------

  /** The opening of a field pattern: the quoted name, a colon and a quote. */
  function FieldOpen(name: string): (o: string)
    ensures |o| == |name| + 4
  {
    "\"" + name + "\":\""
  }

  predicate IsFieldMatch(s: string, i: nat, name: string, v: string) {
    v != [] && AllB64(v) && HasAt(s, i, FieldOpen(name) + v + "\"")
  }

  /** The field pattern for `name` anchored at index `i`, with its group. */
  function FieldAt(name: string, s: string, i: nat): (r: Option<string>)
    ensures r.Some? ==> IsFieldMatch(s, i, name, r.value)
  {
    var o := FieldOpen(name);
    if !HasAt(s, i, o) then None
    else
      var e := SpanFrom(s, i + |o|, IsB64Char);
      if e == i + |o| || e == |s| || s[e] != '"' then None
      else
        assert s[i..e + 1] == s[i..i + |o|] + s[i + |o|..e] + [s[e]];
        Some(s[i + |o|..e])
  }

  lemma FieldAtComplete(name: string, s: string, i: nat, v: string)
    requires IsFieldMatch(s, i, name, v)
    ensures FieldAt(name, s, i) == Some(v)
  {
    var o := FieldOpen(name);
    HasAtSplit(s, i, o + v, "\"");
    HasAtSplit(s, i, o, v);
    HasAtChar(s, i + |o| + |v|, "\"", 0);
    SpanOver(s, i + |o|, v, IsB64Char);
  }

  // ---------------------------------------------------------------------
  // The four-line record pattern of the URL generator
  //   CHANNEL_KEY:\s*(premium[0-9]+)\s+b_ts:\s*([A-Za-z0-9+/=]+)\s+
  //   b_rnd:\s*([A-Za-z0-9+/=]+)\s+b_sig:\s*([A-Za-z0-9+/=]+)
  // ---------------------------------------------------------------------

  datatype Record = Record(key: string, ts: string, rnd: string, sig: string)

  /** A channel key as both patterns capture it: `premium` and at least one digit. */
  predicate IsChannelKey(k: string) {
    |k| > 7 && k[..7] == Premium && AllDigits(k[7..])
  }

  predicate IsB64Run(v: string) {
    v != [] && AllB64(v)
  }

  /** What a match of the record pattern can capture. */
  predicate WellFormed(r: Record) {
    IsChannelKey(r.key) && IsB64Run(r.ts) && IsB64Run(r.rnd) && IsB64Run(r.sig)
  }

  const KeyLabel := "CHANNEL_KEY:"
  const TsTag := "b_ts:"
  const RndTag := "b_rnd:"
  const SigTag := "b_sig:"

  /**
   * `CHANNEL_KEY:\s*(premium[0-9]+)` matched from `i` to `a`: the label,
   * whitespace, then `key` ending at `a` with no digit after it.
   */
  predicate IsKeyPart(s: string, i: nat, key: string, a: nat) {
    && IsChannelKey(key) && HasAt(s, i, KeyLabel)
    && i + 12 + |key| <= a <= |s|
    && AllIn(s[i + 12..a - |key|], IsSpace) && s[a - |key|..a] == key
    && (a == |s| || !IsDigit(s[a]))
  }

  /**
   * `\s+tag\s*([A-Za-z0-9+/=]+)` matched from `i` to `e`: at least one
   * whitespace character, `tag`, whitespace, then the value `v` ending at
   * `e` with no base64 character after it.
   */
  predicate IsGapPart(s: string, i: nat, tag: string, v: string, e: nat) {
    && IsB64Run(v) && i + |tag| + |v| < e <= |s|
    && s[e - |v|..e] == v && (e == |s| || !IsB64Char(s[e]))
    && exists g | i < g <= e - |v| - |tag| ::
         AllIn(s[i..g], IsSpace) && HasAt(s, g, tag) && AllIn(s[g + |tag|..e - |v|], IsSpace)
  }

  /** The whole record pattern matched from `i` to `e`, capturing the four groups of `r`. */
  ghost predicate IsRecordMatch(s: string, i: nat, r: Record, e: nat) {
    exists a, b, c ::
      && IsKeyPart(s, i, r.key, a)
      && IsGapPart(s, a, TsTag, r.ts, b)
      && IsGapPart(s, b, RndTag, r.rnd, c)
      && IsGapPart(s, c, SigTag, r.sig, e)
  }

  /** `CHANNEL_KEY:\s*(premium[0-9]+)` at index `i`: the key and the index after it. */
  function KeyField(s: string, i: nat): (r: Option<(string, nat)>)
    ensures r.Some? ==> IsKeyPart(s, i, r.value.0, r.value.1)
  {
    if !HasAt(s, i, KeyLabel) then None
    else
      var g := SpanFrom(s, i + 12, IsSpace);
      if !HasAt(s, g, Premium) then None
      else
        var e := SpanFrom(s, g + 7, IsDigit);
        if e == g + 7 then None
        else
          assert s[g..e][..7] == s[g..g + 7];
          assert s[g..e][7..] == s[g + 7..e];
          Some((s[g..e], e))
  }

  /** `\s+tag\s*([A-Za-z0-9+/=]+)` at index `i`: the value and the index after it. */
  function GapThen(s: string, i: nat, tag: string): (r: Option<(string, nat)>)
    requires i <= |s|
    ensures r.Some? ==> IsGapPart(s, i, tag, r.value.0, r.value.1)
  {
    var g := SpanFrom(s, i, IsSpace);
    if g == i || !HasAt(s, g, tag) then None
    else
      var j := SpanFrom(s, g + |tag|, IsSpace);
      var e := SpanFrom(s, j, IsB64Char);
      if e == j then None
      else
        assert AllIn(s[i..g], IsSpace) && HasAt(s, g, tag) && AllIn(s[g + |tag|..j], IsSpace);
        Some((s[j..e], e))
  }

  /** The record pattern anchored at index `i`: the four groups and the index after the match. */
  function RecordAt(s: string, i: nat): (r: Option<(Record, nat)>)
    ensures r.Some? ==> IsRecordMatch(s, i, r.value.0, r.value.1)
    ensures r.Some? ==> WellFormed(r.value.0) && i < r.value.1 <= |s| && HasAt(s, i, KeyLabel)
    ensures r.Some? ==> r.value.1 == |s| || !IsB64Char(s[r.value.1])
  {
    match KeyField(s, i)
    case None => None
    case Some((key, a)) =>
      match GapThen(s, a, TsTag)
      case None => None
      case Some((ts, b)) =>
        match GapThen(s, b, RndTag)
        case None => None
        case Some((rnd, c)) =>
          match GapThen(s, c, SigTag)
          case None => None
          case Some((sig, e)) =>
            assert IsKeyPart(s, i, key, a) && IsGapPart(s, a, TsTag, ts, b);
            assert IsGapPart(s, b, RndTag, rnd, c) && IsGapPart(s, c, SigTag, sig, e);
            Some((Record(key, ts, rnd, sig), e))
  }

  /** The key part of the pattern can match in only one way from `i`. */
  lemma KeyFieldComplete(s: string, i: nat, key: string, a: nat)
    requires IsKeyPart(s, i, key, a)
    ensures KeyField(s, i) == Some((key, a))
  {
    var g := a - |key|;
    ChannelKeyParts(key);
    assert HasAt(s, g, key);
    HasAtSplit(s, g, Premium, key[7..]);
    assert SpanFrom(s, i + 12, IsSpace) == g by {
      HasAtChar(s, g, Premium, 0);
      SpanFromExact(s, i + 12, g, IsSpace);
    }
    assert SpanFrom(s, g + 7, IsDigit) == a by {
      SpanFromExact(s, g + 7, a, IsDigit);
    }
  }

  /** A gap part whose tag starts with a non-space character can match in only one way from `i`. */
  lemma GapThenComplete(s: string, i: nat, tag: string, v: string, e: nat)
    requires tag != [] && !IsSpace(tag[0])
    requires IsGapPart(s, i, tag, v, e)
    ensures GapThen(s, i, tag) == Some((v, e))
  {
    var j := e - |v|;
    var g :| i < g <= j - |tag| && AllIn(s[i..g], IsSpace) && HasAt(s, g, tag) && AllIn(s[g + |tag|..j], IsSpace);
    assert SpanFrom(s, i, IsSpace) == g by {
      HasAtChar(s, g, tag, 0);
      SpanFromExact(s, i, g, IsSpace);
    }
    assert SpanFrom(s, g + |tag|, IsSpace) == j by {
      assert s[j..e][0] == s[j];
      B64NotSpace(s[j]);
      SpanFromExact(s, g + |tag|, j, IsSpace);
    }
    assert SpanFrom(s, j, IsB64Char) == e by {
      SpanFromExact(s, j, e, IsB64Char);
    }
    GapThenAt(s, i, tag, g, j, e);
  }

  /** `GapThen` when its three greedy runs end at `g`, `j` and `e`. */
  lemma GapThenAt(s: string, i: nat, tag: string, g: nat, j: nat, e: nat)
    requires i < g <= |s| && SpanFrom(s, i, IsSpace) == g && HasAt(s, g, tag)
    requires j <= |s| && SpanFrom(s, g + |tag|, IsSpace) == j
    requires j < e <= |s| && SpanFrom(s, j, IsB64Char) == e
    ensures GapThen(s, i, tag) == Some((s[j..e], e))
  {
  }

  /**
   * The record pattern is deterministic: wherever its layout is present
   * from `i`, `RecordAt` finds exactly those four groups and that end.
   */
  lemma RecordAtComplete(s: string, i: nat, r: Record, e: nat)
    requires IsRecordMatch(s, i, r, e)
    ensures RecordAt(s, i) == Some((r, e))
  {
    var a, b, c :|
      && IsKeyPart(s, i, r.key, a)
      && IsGapPart(s, a, TsTag, r.ts, b)
      && IsGapPart(s, b, RndTag, r.rnd, c)
      && IsGapPart(s, c, SigTag, r.sig, e);
    KeyFieldComplete(s, i, r.key, a);
    GapThenComplete(s, a, TsTag, r.ts, b);
    GapThenComplete(s, b, RndTag, r.rnd, c);
    GapThenComplete(s, c, SigTag, r.sig, e);
  }

  /** `pattern.finditer(s)`: the groups of successive non-overlapping matches, in order. */
  function FindRecords(s: string): (rs: seq<Record>)
    ensures forall r | r in rs :: WellFormed(r)
  {
    FindRecordsWellFormed(s, 0);
    Scan(s, 0, RecordAt)
  }

  lemma FindRecordsWellFormed(s: string, i: nat)
    requires i <= |s|
    ensures forall r | r in Scan(s, i, RecordAt) :: WellFormed(r)
  {
    forall r | r in Scan(s, i, RecordAt)
      ensures WellFormed(r)
    {
      ScanSound(s, i, RecordAt, r);
    }
  }

  // ---------------------------------------------------------------------
  // Reading back the lines the extraction step writes
  // ---------------------------------------------------------------------

  /** A field label, one space and the value, as one output line holds them. */
  function FieldText(tag: string, v: string): (t: string)
    ensures |t| == |tag| + 1 + |v|
  {
    tag + " " + v
  }

  /** Where the pieces of a gap, `tag`, one space and a value stand. */
  lemma FieldTextSplit(s: string, i: nat, gap: string, tag: string, v: string)
    requires HasAt(s, i, gap + FieldText(tag, v))
    ensures HasAt(s, i, gap) && HasAt(s, i + |gap|, tag) && HasAt(s, i + |gap| + |tag| + 1, v)
    ensures s[i + |gap| + |tag|] == ' '
  {
    HasAtSplit(s, i, gap, FieldText(tag, v));
    HasAtSplit(s, i + |gap|, tag + " ", v);
    HasAtSplit(s, i + |gap|, tag, " ");
    HasAtChar(s, i + |gap| + |tag|, " ", 0);
  }

  /** A gap, `tag`, one space and a value, followed by a non-base64 character or the end. */
  lemma GapThenOf(s: string, i: nat, gap: string, tag: string, v: string, e: nat)
    requires HasAt(s, i, gap + FieldText(tag, v))
    requires gap != [] && AllIn(gap, IsSpace) && tag != [] && !IsSpace(tag[0]) && IsB64Run(v)
    requires e == i + |gap| + |tag| + 1 + |v|
    requires e == |s| || !IsB64Char(s[e])
    ensures GapThen(s, i, tag) == Some((v, e))
  {
    var g, j := i + |gap|, i + |gap| + |tag| + 1;
    FieldTextSplit(s, i, gap, tag, v);
    assert s[g + |tag|..j] == [' '];
    assert IsGapPart(s, i, tag, v, e) by {
      assert AllIn(s[i..g], IsSpace) && HasAt(s, g, tag) && AllIn(s[g + |tag|..j], IsSpace);
    }
    GapThenComplete(s, i, tag, v, e);
  }

  /** `w` is not at `i` when one of its characters differs there. */
  lemma NotAtWhenDiffers(s: string, i: nat, w: string, k: nat)
    requires k < |w| && i + k < |s| && s[i + k] != w[k]
    ensures !HasAt(s, i, w)
  {
    if i + |w| <= |s| {
      assert s[i..i + |w|][k] == s[i + k];
    }
  }

  lemma ChannelKeyParts(k: string)
    requires IsChannelKey(k)
    ensures k == Premium + k[7..] && 'C' !in k
  {
    assert k == k[..7] + k[7..];
    forall j | 0 <= j < |k|
      ensures k[j] != 'C'
    {
      if j >= 7 {
        assert k[7..][j - 7] == k[j];
      } else {
        assert k[..7][j] == k[j];
      }
    }
  }

  /** The key line as the extraction step writes it: the label, one space, the key. */
  function KeyText(key: string): (t: string)
    ensures |t| == 13 + |key|
  {
    KeyLabel + " " + key
  }

  lemma KeyFieldOf(s: string, i: nat, key: string, a: nat)
    requires HasAt(s, i, KeyText(key)) && IsChannelKey(key)
    requires a == i + 13 + |key|
    requires a == |s| || !IsDigit(s[a])
    ensures KeyField(s, i) == Some((key, a))
  {
    ChannelKeyParts(key);
    var d := key[7..];
    HasAtSplit(s, i, KeyLabel + " ", key);
    HasAtSplit(s, i, KeyLabel, " ");
    HasAtSplit(s, i + 13, Premium, d);
    HasAtChar(s, i + 13, Premium, 0);
    SpanOver(s, i + 12, " ", IsSpace);
    SpanOver(s, i + 20, d, IsDigit);
    assert s[i + 13..i + 20 + |d|] == s[i + 13..i + 20] + s[i + 20..i + 20 + |d|];
  }

  /** `CHANNEL_KEY: Not found` starts no match. */
  lemma KeyFieldNotFound(s: string, i: nat)
    requires HasAt(s, i, KeyLabel + " Not found")
    ensures RecordAt(s, i) == None
  {
    HasAtSplit(s, i, KeyLabel, " Not found");
    HasAtChar(s, i + 12, " Not found", 0);
    HasAtChar(s, i + 12, " Not found", 1);
    SpanOver(s, i + 12, " ", IsSpace);
    NotAtWhenDiffers(s, i + 13, Premium, 0);
  }

  /**
   * The text one block holds for a complete record: the key line, a gap
   * (one line break in batch mode, two in single mode) and three field lines.
   */
  function RecordText(r: Record, gap: string): (t: string)
    ensures |t| == 35 + |r.key| + |gap| + |r.ts| + |r.rnd| + |r.sig|
  {
    KeyText(r.key) + (gap + FieldText(TsTag, r.ts)) + ("\n" + FieldText(RndTag, r.rnd))
      + ("\n" + FieldText(SigTag, r.sig))
  }

  /** Where the four parts of a record's text stand (from `i`, `a`, `b` and `c`), and the character that starts each gap. */
  lemma RecordTextSplit(s: string, i: nat, r: Record, gap: string, a: nat, b: nat, c: nat, e: nat)
    requires HasAt(s, i, RecordText(r, gap)) && gap != []
    requires a == i + 13 + |r.key| && b == a + |gap| + 6 + |r.ts| && c == b + 8 + |r.rnd| && e == c + 8 + |r.sig|
    ensures HasAt(s, i, KeyText(r.key)) && HasAt(s, a, gap + FieldText(TsTag, r.ts))
    ensures HasAt(s, b, "\n" + FieldText(RndTag, r.rnd)) && HasAt(s, c, "\n" + FieldText(SigTag, r.sig))
    ensures s[a] == gap[0] && s[b] == '\n' && s[c] == '\n' && e == i + |RecordText(r, gap)|
  {
    var t1 := KeyText(r.key);
    var t2 := gap + FieldText(TsTag, r.ts);
    var t3 := "\n" + FieldText(RndTag, r.rnd);
    var t4 := "\n" + FieldText(SigTag, r.sig);
    HasAtSplit(s, i, t1 + t2 + t3, t4);
    HasAtSplit(s, i, t1 + t2, t3);
    HasAtSplit(s, i, t1, t2);
    HasAtChar(s, a, t2, 0);
    HasAtChar(s, b, t3, 0);
    HasAtChar(s, c, t4, 0);
  }

  /**
   * Serialise-then-parse: wherever a record's text stands in a longer text,
   * the record pattern reads back all four values there, whatever whitespace
   * separates the key line from the fields, provided the text is followed
   * by a non-base64 character or by nothing.
   */
  lemma RecordRoundTrip(s: string, i: nat, r: Record, gap: string)
    requires HasAt(s, i, RecordText(r, gap)) && WellFormed(r)
    requires gap != [] && AllIn(gap, IsSpace)
    requires i + |RecordText(r, gap)| == |s| || !IsB64Char(s[i + |RecordText(r, gap)|])
    ensures RecordAt(s, i) == Some((r, i + |RecordText(r, gap)|))
  {
    var a := i + 13 + |r.key|;
    var b := a + |gap| + 6 + |r.ts|;
    var c := b + 8 + |r.rnd|;
    var e := c + 8 + |r.sig|;
    RecordTextSplit(s, i, r, gap, a, b, c, e);
    assert e == |s| || !IsB64Char(s[e]);
    KeyFieldOf(s, i, r.key, a);
    GapThenOf(s, a, gap, TsTag, r.ts, b);
    GapThenOf(s, b, "\n", RndTag, r.rnd, c);
    GapThenOf(s, c, "\n", SigTag, r.sig, e);
    RecordAtOf(s, i, r, a, b, c, e);
  }

  /** The record pattern matches where its four pieces match one after another. */
  lemma RecordAtOf(s: string, i: nat, r: Record, a: nat, b: nat, c: nat, e: nat)
    requires KeyField(s, i) == Some((r.key, a))
    requires a <= |s| && GapThen(s, a, TsTag) == Some((r.ts, b))
    requires b <= |s| && GapThen(s, b, RndTag) == Some((r.rnd, c))
    requires c <= |s| && GapThen(s, c, SigTag) == Some((r.sig, e))
    ensures RecordAt(s, i) == Some((r, e))
  {
  }

  // ---------------------------------------------------------------------
  // Text the record pattern passes over
  // ---------------------------------------------------------------------

  /** No occurrence of `CHANNEL_KEY:` lies inside `w`. */
  predicate NoKeyLabel(w: string) {
    forall j | 0 <= j <= |w| :: !HasAt(w, j, KeyLabel)
  }

  lemma NoUpperCNoKeyLabel(w: string)
    requires 'C' !in w
    ensures NoKeyLabel(w)
  {
    forall j | 0 <= j <= |w|
      ensures !HasAt(w, j, KeyLabel)
    {
      if j + 12 <= |w| {
        assert w[j..j + 12][0] == w[j];
      }
    }
  }

  /** Base64 characters cannot spell the label: it contains `_` and `:`. */
  lemma B64NoKeyLabel(v: string)
    requires AllB64(v)
    ensures NoKeyLabel(v)
  {
    forall j | 0 <= j <= |v|
      ensures !HasAt(v, j, KeyLabel)
    {
      if j + 12 <= |v| {
        assert v[j..j + 12][7] == v[j + 7];
      }
    }
  }

  lemma NoKeyLabelAppend(p: string, w: string)
    requires 'C' !in p && NoKeyLabel(w)
    ensures NoKeyLabel(p + w)
  {
    var s := p + w;
    forall j | 0 <= j <= |s|
      ensures !HasAt(s, j, KeyLabel)
    {
      if j < |p| && j + 12 <= |s| {
        assert s[j..j + 12][0] == p[j];
      } else if |p| <= j && j + 12 <= |s| {
        assert s[j..j + 12] == w[j - |p|..j - |p| + 12];
        assert !HasAt(w, j - |p|, KeyLabel);
      }
    }
  }

  /** No label starts inside a line without one, nor at its line break. */
  lemma LineHasNoKeyLabel(s: string, i: nat, w: string, k: nat)
    requires HasAt(s, i, w + "\n") && NoKeyLabel(w) && i <= k <= i + |w|
    ensures !HasAt(s, k, KeyLabel)
  {
    HasAtSplit(s, i, w, "\n");
    HasAtChar(s, i + |w|, "\n", 0);
    if k + 12 <= i + |w| {
      assert s[k..k + 12] == s[i..i + |w|][k - i..k - i + 12];
      assert !HasAt(w, k - i, KeyLabel);
    } else if k + 12 <= |s| {
      assert s[k..k + 12][i + |w| - k] == s[i + |w|];
    }
  }

  /** A line without the label, and its line break, hold no match. */
  lemma SkipLine(s: string, i: nat, w: string)
    requires HasAt(s, i, w + "\n") && NoKeyLabel(w)
    ensures Scan(s, i, RecordAt) == Scan(s, i + |w| + 1, RecordAt)
  {
    forall k | i <= k < i + |w| + 1
      ensures !HasAt(s, k, KeyLabel)
    {
      LineHasNoKeyLabel(s, i, w, k);
    }
    SkipUnlabelled(s, i, i + |w| + 1);
  }

  /** Where the label does not start, no match starts. */
  lemma SkipUnlabelled(s: string, i: nat, j: nat)
    requires i <= j <= |s|
    requires forall k | i <= k < j :: !HasAt(s, k, KeyLabel)
    ensures Scan(s, i, RecordAt) == Scan(s, j, RecordAt)
  {
    ScanSkip(s, i, j, RecordAt);
  }

  /** A line with no capital `C` holds no match. */
  lemma SkipPlainLine(s: string, i: nat, w: string, j: nat)
    requires HasAt(s, i, w + "\n") && 'C' !in w && j == i + |w| + 1
    ensures Scan(s, i, RecordAt) == Scan(s, j, RecordAt)
  {
    NoUpperCNoKeyLabel(w);
    SkipLine(s, i, w);
  }
}
