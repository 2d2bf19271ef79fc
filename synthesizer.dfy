/**
 * `generate_auth_urls_from_channel_auth_file`, the same in both scripts:
 * the record pattern is run over the key file, the three base64 values of
 * each match are decoded (base64, then UTF-8) and put into an `auth.php`
 * URL; a match whose values do not decode is skipped.
 *
 * Opening and reading the key file is outside the model: its outcome is an
 * input. The warnings printed for skipped matches are left out.
 */
module Synthesizer {
  import opened Wrappers
  import opened Text
  import opened Patterns
  import opened Files
  import Base64
  import Utf8
  import Extractor

  /** The endpoint every URL starts with. */
  const AuthEndpoint := "https://top2new.newkso.ru/auth.php"

  /**
   * `base64.b64decode(v).decode('utf-8')`: `None` where either step raises,
   * both exceptions being caught by the same handler.
   */
  function DecodeValue(v: string): (r: Option<string>)
    requires AllB64(v)
  {
    match Base64.Lenient(v)
    case Err(_) => None
    case Ok(bytes) => Utf8.Decode(bytes)
  }

  /** The URL built from a key and the three decoded values, inserted as they are. */
  function AuthUrl(key: string, ts: string, rnd: string, sig: string): string {
    AuthEndpoint + "?channel_id=" + key + "&ts=" + ts + "&rnd=" + rnd + "&sig=" + sig
  }

  /** The URL one match gives, or `None` when one of its values does not decode. */
  function UrlFor(r: Record): (u: Option<string>)
    requires WellFormed(r)
    ensures u.Some? <==> DecodeValue(r.ts).Some? && DecodeValue(r.rnd).Some? && DecodeValue(r.sig).Some?
  {
    match DecodeValue(r.ts)
    case None => None
    case Some(ts) =>
      match DecodeValue(r.rnd)
      case None => None
      case Some(rnd) =>
        match DecodeValue(r.sig)
        case None => None
        case Some(sig) => Some(AuthUrl(r.key, ts, rnd, sig))
  }

  /** The URLs one match adds to the list: its URL, or none. */
  function UrlsOf(r: Record): (us: seq<string>)
    requires WellFormed(r)
    ensures |us| == 1 <==> UrlFor(r).Some?
    ensures |us| <= 1
  {
    match UrlFor(r)
    case Some(u) => [u]
    case None => []
  }

  /** The lists `f` gives for the elements of `xs`, concatenated in order. */
  function Gather<T, U>(xs: seq<T>, f: T --> seq<U>): seq<U>
    requires forall k | 0 <= k < |xs| :: f.requires(xs[k])
  {
    if xs == [] then []
    else Gather(xs[..|xs| - 1], f) + f(xs[|xs| - 1])
  }

  predicate AllWellFormed(recs: seq<Record>) {
    forall k | 0 <= k < |recs| :: WellFormed(recs[k])
  }

  /** The URLs of a list of matches, in match order, skipping those that do not decode. */
  function Urls(recs: seq<Record>): (us: seq<string>)
    requires AllWellFormed(recs)
  {
    Gather(recs, UrlsOf)
  }

  /**
   * `generate_auth_urls_from_channel_auth_file(file_path)`: the URLs of all
   * matches of the record pattern in the key file; none when the file cannot
   * be read.
   */
  method GenerateAuthUrls(read: FileRead) returns (urls: seq<string>)
    ensures read.Contents? ==> AllWellFormed(FindRecords(read.text)) && urls == Urls(FindRecords(read.text))
    ensures !read.Contents? ==> urls == []
  {
    urls := [];
    if !read.Contents? {
      return;
    }
    var matches := FindRecords(read.text);
    for k := 0 to |matches|
      invariant urls == Gather(matches[..k], UrlsOf)
    {
      assert matches[..k + 1][..k] == matches[..k];
      var m := matches[k];
      assert Gather(matches[..k + 1], UrlsOf) == urls + UrlsOf(m);
      var ts := DecodeValue(m.ts);
      if ts.None? {
        continue;
      }
      var rnd := DecodeValue(m.rnd);
      if rnd.None? {
        continue;
      }
      var sig := DecodeValue(m.sig);
      if sig.None? {
        continue;
      }
      urls := urls + [AuthUrl(m.key, ts.value, rnd.value, sig.value)];
    }
    assert matches[..|matches|] == matches;
  }

  // ---------------------------------------------------------------------
  // One URL per decodable match, in order
  // ---------------------------------------------------------------------

  /** Gathering over two runs is gathering over each, one after the other. */
  lemma {:induction false} GatherAppend<T, U>(a: seq<T>, b: seq<T>, f: T --> seq<U>)
    requires forall k | 0 <= k < |a| :: f.requires(a[k])
    requires forall k | 0 <= k < |b| :: f.requires(b[k])
    ensures forall k | 0 <= k < |a + b| :: f.requires((a + b)[k])
    ensures Gather(a + b, f) == Gather(a, f) + Gather(b, f)
    decreases |b|
  {
    var ab := a + b;
    forall k | 0 <= k < |ab| ensures f.requires(ab[k]) {
      if k >= |a| {
        assert ab[k] == b[k - |a|];
      }
    }
    if b == [] {
      assert ab == a;
    } else {
      var n := |b| - 1;
      assert ab[..|ab| - 1] == a + b[..n];
      assert forall k | 0 <= k < n :: b[..n][k] == b[k];
      GatherAppend(a, b[..n], f);
      assert ab[|ab| - 1] == b[n];
    }
  }

  /** When each element gives at most one item, all give one exactly when the lengths agree. */
  lemma {:induction false} GatherFull<T, U>(xs: seq<T>, f: T --> seq<U>)
    requires forall k | 0 <= k < |xs| :: f.requires(xs[k]) && |f(xs[k])| <= 1
    ensures |Gather(xs, f)| <= |xs|
    ensures |Gather(xs, f)| == |xs| <==> forall k | 0 <= k < |xs| :: |f(xs[k])| == 1
  {
    if xs != [] {
      var n := |xs| - 1;
      var init := xs[..n];
      assert forall k | 0 <= k < n :: init[k] == xs[k];
      GatherFull(init, f);
    }
  }

  /**
   * The URLs of two runs of matches are the URLs of each, one after the
   * other: a match that fails to decode removes its own URL and nothing else.
   */
  lemma UrlsAppend(a: seq<Record>, b: seq<Record>)
    requires AllWellFormed(a) && AllWellFormed(b)
    ensures AllWellFormed(a + b) && Urls(a + b) == Urls(a) + Urls(b)
  {
    GatherAppend(a, b, UrlsOf);
  }

  /** A single match gives its URL, or nothing. */
  lemma UrlsOne(r: Record)
    requires WellFormed(r)
    ensures AllWellFormed([r])
    ensures Urls([r]) == if UrlFor(r).Some? then [UrlFor(r).value] else []
  {
    assert [r][..0] == [];
    assert Urls([r]) == Gather([], UrlsOf) + UrlsOf(r);
  }

  /**
   * There are never more URLs than matches, and as many exactly when every
   * match decodes.
   */
  lemma UrlsComplete(recs: seq<Record>)
    requires AllWellFormed(recs)
    ensures |Urls(recs)| <= |recs|
    ensures |Urls(recs)| == |recs| <==> forall k | 0 <= k < |recs| :: UrlFor(recs[k]).Some?
  {
    GatherFull(recs, UrlsOf);
  }

  // ---------------------------------------------------------------------
  // Round trips
  // ---------------------------------------------------------------------

  /** A value that is the base64 of a text's UTF-8 bytes decodes to that text. */
  lemma DecodeValueOfEncoding(t: string)
    ensures AllB64(Base64.Encode(Utf8.Encode(t)))
    ensures DecodeValue(Base64.Encode(Utf8.Encode(t))) == Some(t)
    ensures t != [] ==> Base64.Encode(Utf8.Encode(t)) != []
  {
    Base64.LenientDecodesEncode(Utf8.Encode(t));
    Utf8.DecodeEncode(t);
  }

  /**
   * A match whose values are the encodings of three non-empty texts gives
   * the URL of the key and those three texts.
   */
  lemma EncodedValuesUrl(key: string, ts: string, rnd: string, sig: string)
    requires IsChannelKey(key) && ts != [] && rnd != [] && sig != []
    ensures var r := Record(key, Base64.Encode(Utf8.Encode(ts)), Base64.Encode(Utf8.Encode(rnd)),
                            Base64.Encode(Utf8.Encode(sig)));
            WellFormed(r) && UrlFor(r) == Some(AuthUrl(key, ts, rnd, sig))
  {
    DecodeValueOfEncoding(ts);
    DecodeValueOfEncoding(rnd);
    DecodeValueOfEncoding(sig);
  }

  /** A match that took `Not` from the `b_sig: Not found` placeholder is skipped. */
  lemma PlaceholderSkipped(key: string, ts: string, rnd: string)
    requires WellFormed(Record(key, ts, rnd, "Not"))
    ensures UrlFor(Record(key, ts, rnd, "Not")) == None
  {
    Base64.LenientRejectsNot();
  }

  /**
   * After single mode succeeds, the key file it wrote gives exactly one URL
   * when the three values decode, and none otherwise.
   */
  lemma SingleModeUrls(id: int, r: Record)
    requires WellFormed(r)
    ensures AllWellFormed(FindRecords(Extractor.SingleText(id, Extractor.Complete(r)).text))
    ensures Urls(FindRecords(Extractor.SingleText(id, Extractor.Complete(r)).text))
            == if UrlFor(r).Some? then [UrlFor(r).value] else []
  {
    Extractor.SingleReadBack(id, r);
    UrlsOne(r);
  }

  // ---------------------------------------------------------------------
  // Reading the query back
  // ---------------------------------------------------------------------

  /** `s.split(c)`: the pieces between the occurrences of `c`. */
  function Split(s: string, c: char): (ps: seq<string>)
    ensures ps != []
  {
    if s == [] then [[]]
    else
      var rest := Split(s[1..], c);
      assert s == [s[0]] + s[1..];
      if s[0] == c then [[]] + rest else [[s[0]] + rest[0]] + rest[1..]
  }

  /** Splitting at a separator that the first piece does not contain. */
  lemma {:induction false} SplitAt(a: string, b: string, c: char)
    requires c !in a
    ensures Split(a + [c] + b, c) == [a] + Split(b, c)
  {
    if a != [] {
      var s := a + [c] + b;
      assert s[0] == a[0] && s[1..] == a[1..] + [c] + b;
      SplitAt(a[1..], b, c);
      assert [a[0]] + a[1..] == a;
    }
  }

  /** A text without the separator is one piece. */
  lemma {:induction false} SplitNone(a: string, c: char)
    requires c !in a
    ensures Split(a, c) == [a]
  {
    if a != [] {
      SplitNone(a[1..], c);
      assert [a[0]] + a[1..] == a;
    }
  }

  /** The fixed parts of the URL hold no `&`. */
  lemma FixedPartsNoAmp()
    ensures '&' !in AuthEndpoint + "?channel_id="
    ensures '&' !in "ts=" && '&' !in "rnd=" && '&' !in "sig="
  {
    var head := AuthEndpoint + "?channel_id=";
    forall k | 0 <= k < |head| ensures head[k] != '&' {
    }
  }

  /** A text after a prefix without `c` holds `c` exactly when the text does. */
  lemma AfterPrefix(pre: string, v: string, c: char)
    requires c !in pre
    ensures c in pre + v <==> c in v
  {
    if c in v {
      var k :| 0 <= k < |v| && v[k] == c;
      assert (pre + v)[|pre| + k] == c;
    }
  }

  /** Joining two texts by the separator adds their pieces. */
  lemma {:induction false} SplitCount(a: string, b: string, c: char)
    ensures |Split(a + [c] + b, c)| == |Split(a, c)| + |Split(b, c)|
  {
    var s := a + [c] + b;
    if a == [] {
      assert s[0] == c && s[1..] == b;
    } else {
      assert s[0] == a[0] && s[1..] == a[1..] + [c] + b;
      SplitCount(a[1..], b, c);
    }
  }

  /** A text splits into one piece exactly when it has no separator. */
  lemma {:induction false} OnePiece(a: string, c: char)
    ensures |Split(a, c)| == 1 <==> c !in a
  {
    if a != [] {
      OnePiece(a[1..], c);
      assert a == [a[0]] + a[1..];
    }
  }

  /** Four pieces joined by the separator split into four exactly when none holds it. */
  lemma SplitFourCount(p1: string, p2: string, p3: string, p4: string, c: char)
    ensures |Split(p1 + [c] + (p2 + [c] + (p3 + [c] + p4)), c)| == 4 <==>
            c !in p1 && c !in p2 && c !in p3 && c !in p4
  {
    var q3 := p3 + [c] + p4;
    var q2 := p2 + [c] + q3;
    SplitCount(p3, p4, c);
    SplitCount(p2, q3, c);
    SplitCount(p1, q2, c);
    OnePiece(p1, c);
    OnePiece(p2, c);
    OnePiece(p3, c);
    OnePiece(p4, c);
  }

  /** Four pieces without the separator, joined by it, split back into themselves. */
  lemma SplitFour(p1: string, p2: string, p3: string, p4: string, c: char)
    requires c !in p1 && c !in p2 && c !in p3 && c !in p4
    ensures Split(p1 + [c] + (p2 + [c] + (p3 + [c] + p4)), c) == [p1, p2, p3, p4]
  {
    var q3 := p3 + [c] + p4;
    var q2 := p2 + [c] + q3;
    SplitNone(p4, c);
    SplitAt(p3, p4, c);
    assert Split(q3, c) == [p3, p4];
    SplitAt(p2, q3, c);
    assert Split(q2, c) == [p2, p3, p4];
    SplitAt(p1, q2, c);
    assert [p1] + [p2, p3, p4] == [p1, p2, p3, p4];
  }

  /** Each part of the query holds `&` exactly when its value does. */
  lemma QueryParts(key: string, ts: string, rnd: string, sig: string)
    ensures '&' in AuthEndpoint + "?channel_id=" + key <==> '&' in key
    ensures '&' in "ts=" + ts <==> '&' in ts
    ensures '&' in "rnd=" + rnd <==> '&' in rnd
    ensures '&' in "sig=" + sig <==> '&' in sig
  {
    FixedPartsNoAmp();
    AfterPrefix(AuthEndpoint + "?channel_id=", key, '&');
    AfterPrefix("ts=", ts, '&');
    AfterPrefix("rnd=", rnd, '&');
    AfterPrefix("sig=", sig, '&');
  }

  /**
   * Splitting the URL at `&` gives four pieces exactly when no value contains
   * `&`: the values are not escaped, so a value holding `&` adds pieces.
   */
  lemma UrlPieceCount(key: string, ts: string, rnd: string, sig: string)
    ensures |Split(AuthUrl(key, ts, rnd, sig), '&')| == 4 <==>
            '&' !in key && '&' !in ts && '&' !in rnd && '&' !in sig
  {
    var p1, p2, p3, p4 := AuthEndpoint + "?channel_id=" + key, "ts=" + ts, "rnd=" + rnd, "sig=" + sig;
    assert AuthUrl(key, ts, rnd, sig) == p1 + ['&'] + (p2 + ['&'] + (p3 + ['&'] + p4));
    QueryParts(key, ts, rnd, sig);
    SplitFourCount(p1, p2, p3, p4, '&');
  }

  /**
   * When no value contains `&`, splitting the URL at `&` gives back the
   * endpoint with the key, then the three values, each after its name.
   */
  lemma UrlParameters(key: string, ts: string, rnd: string, sig: string)
    requires '&' !in key && '&' !in ts && '&' !in rnd && '&' !in sig
    ensures Split(AuthUrl(key, ts, rnd, sig), '&')
            == [AuthEndpoint + "?channel_id=" + key, "ts=" + ts, "rnd=" + rnd, "sig=" + sig]
  {
    var p1, p2, p3, p4 := AuthEndpoint + "?channel_id=" + key, "ts=" + ts, "rnd=" + rnd, "sig=" + sig;
    assert AuthUrl(key, ts, rnd, sig) == p1 + ['&'] + (p2 + ['&'] + (p3 + ['&'] + p4));
    QueryParts(key, ts, rnd, sig);
    SplitFour(p1, p2, p3, p4, '&');
  }
}
