/**
 * The scraping step: for each channel identifier, the player page is
 * searched for the channel key and for the quoted 292-character base64
 * blob; the blob is decoded (base64, then UTF-8) into a JSON-like text in
 * which the three authentication fields are searched; a text block
 * reporting all of it is written to the key file.
 *
 * `get_and_decode_data` (batch mode) writes `Not found` placeholders and
 * goes on with the next identifier; `get_and_decode_data_for_id` (single
 * mode) stops at the first missing piece and returns `False`. In both, a
 * UTF-8 decoding failure raises an exception that no handler catches.
 *
 * The HTTP request is outside the model: each identifier comes with what
 * the request gave, a page body or a request error.
 */
module Extractor {
  import opened Wrappers
  import opened Text
  import opened Patterns
  import Base64
  import Utf8

  /** What `requests.get(url)` followed by `raise_for_status()` gives. */
  datatype Fetch = Body(text: string) | RequestError(detail: string)

  /** The outcome of `base64.b64decode(blob).decode('utf-8')`. */
  datatype Decoding = Decoded(doc: string) | Base64Error(message: string) | Utf8Error

  const TsName := "b_ts"
  const RndName := "b_rnd"
  const SigName := "b_sig"
  const NotFound := "Not found"

  // ---------------------------------------------------------------------
  // The searches
  // ---------------------------------------------------------------------

  /** `re.search(r'CHANNEL_KEY="(premium[0-9]+)"', page).group(1)`, if any. */
  function ChannelKey(page: string): (r: Option<string>)
    ensures r.Some? ==> IsChannelKey(r.value)
  {
    Search(page, KeyAt)
  }

  /** `re.search(r'"([A-Za-z0-9+/=]{292})"', page).group(1)`, if any. */
  function MainBlob(page: string): (r: Option<string>)
    ensures r.Some? ==> |r.value| == BlobLength && AllB64(r.value)
  {
    Search(page, BlobAt)
  }

  function FieldMatcher(name: string): (string, nat) -> Option<string> {
    (s: string, i: nat) => FieldAt(name, s, i)
  }

  /** `re.search(r'"<name>":"([A-Za-z0-9+/=]+)"', doc).group(1)`, if any. */
  function Field(name: string, doc: string): (r: Option<string>)
    ensures r.Some? ==> IsB64Run(r.value)
  {
    Search(doc, FieldMatcher(name))
  }

  /** `base64.b64decode(blob).decode('utf-8')`, with the exception each step may raise. */
  function DecodeBlob(blob: string): (r: Decoding)
    requires AllB64(blob)
  {
    match Base64.Lenient(blob)
    case Err(m) => Base64Error(m)
    case Ok(bytes) =>
      match Utf8.Decode(bytes)
      case None => Utf8Error
      case Some(doc) => Decoded(doc)
  }

  /** What the searches and the decoding give for one page, stage by stage. */
  datatype Found =
    | NoBlob(key: Option<string>)
    | BadBase64(key: Option<string>, message: string)
    | BadUtf8(key: Option<string>)
    | Fields(key: Option<string>, ts: Option<string>, rnd: Option<string>, sig: Option<string>)

  /**
   * The key, then the blob, its decoding and the three fields of the
   * decoded document: the stages both modes go through.
   */
  function Extract(page: string): (f: Found)
    ensures f.key == ChannelKey(page)
    ensures f.NoBlob? <==> MainBlob(page).None?
    ensures f.Fields? && f.key.Some? && f.ts.Some? && f.rnd.Some? && f.sig.Some? ==>
              WellFormed(Record(f.key.value, f.ts.value, f.rnd.value, f.sig.value))
  {
    var key := ChannelKey(page);
    match MainBlob(page)
    case None => NoBlob(key)
    case Some(blob) =>
      match DecodeBlob(blob)
      case Base64Error(m) => BadBase64(key, m)
      case Utf8Error => BadUtf8(key)
      case Decoded(doc) => Fields(key, Field(TsName, doc), Field(RndName, doc), Field(SigName, doc))
  }

  // ---------------------------------------------------------------------
  // The lines written
  // ---------------------------------------------------------------------

  /** The line break the files are written with. */
  const Newline := "\n"

  /** The width of the rule of `=` signs under each banner. */
  const RuleWidth: nat := 50

  /** The banner of an identifier in single mode: its number, then a rule of 50 `=`. */
  function Banner(id: int): string {
    "Processing ID: " + ShowInt(id) + Newline + (Repeat('=', RuleWidth) + Newline)
  }

  /** The banner of an identifier in batch mode, which starts with an empty line. */
  function BatchBanner(id: int): string {
    "\nProcessing ID: " + ShowInt(id) + Newline + (Repeat('=', RuleWidth) + Newline)
  }

  lemma NumeralHasNoC(id: int)
    ensures 'C' !in ShowInt(id)
  {
    var n := ShowInt(id);
    var digits := ShowNat(if id < 0 then -id else id);
    forall k | 0 <= k < |n|
      ensures n[k] != 'C'
    {
      if id < 0 && k > 0 {
        assert n[k] == digits[k - 1];
      } else if id >= 0 {
        assert IsDigit(digits[k]);
      }
    }
  }

  const KeyMissing := KeyLabel + " " + NotFound

  /** The key line, without its line break(s). */
  function KeyLine(key: Option<string>): string {
    match key
    case Some(k) => KeyText(k)
    case None => KeyMissing
  }

  /** One field line, without its line break: the value found, or the placeholder. */
  function FieldLine(tag: string, v: Option<string>): string {
    match v
    case Some(x) => FieldText(tag, x)
    case None => FieldText(tag, NotFound)
  }

  function RequestErrorLine(id: int, e: string): string {
    "Error during the web request for ID " + ShowInt(id) + ": " + e + "\n"
  }

  const BlobMissingLine := "Error: 292-character base64 string not found.\n"

  function DecodeErrorLine(message: string): string {
    "Error decoding the main base64 string: " + message + "\n"
  }

  // ---------------------------------------------------------------------
  // Batch mode: `get_and_decode_data`
  // ---------------------------------------------------------------------

  /** The text written for one identifier, and whether the exception escaped. */
  datatype Block = Block(text: string, aborted: bool)

  /** The block batch mode writes for one identifier. */
  function BatchBlock(id: int, fetch: Fetch): (b: Block) {
    match fetch
    case RequestError(e) => Block(BatchBanner(id) + RequestErrorLine(id, e), false)
    case Body(page) => BatchText(id, Extract(page))
  }

  /** The block batch mode writes for a page whose searches gave `f`. */
  function BatchText(id: int, f: Found): Block {
    var head := BatchBanner(id) + KeyLine(f.key) + Newline;
    match f
    case NoBlob(_) => Block(head + BlobMissingLine, false)
    case BadBase64(_, m) => Block(head + DecodeErrorLine(m), false)
    case BadUtf8(_) => Block(head, true)
    case Fields(_, ts, rnd, sig) =>
      Block(head + FieldLine(TsTag, ts) + Newline + FieldLine(RndTag, rnd) + Newline + FieldLine(SigTag, sig) + Newline, false)
  }

  /** The blocks of successive identifiers joined, up to the first that aborts. */
  function Joined(blocks: seq<Block>): Block
    decreases |blocks|
  {
    if blocks == [] then Block([], false)
    else
      var before := Joined(blocks[..|blocks| - 1]);
      if before.aborted then before
      else
        var last := blocks[|blocks| - 1];
        Block(before.text + last.text, last.aborted)
  }

  /** What batch mode writes for a list of identifiers and what their requests gave. */
  function Batch(pages: seq<(int, Fetch)>): Block {
    Joined(seq(|pages|, k requires 0 <= k < |pages| => BatchBlock(pages[k].0, pages[k].1)))
  }

  /** One more block reached: its text is appended and its abort flag taken over. */
  lemma JoinedStep(blocks: seq<Block>, k: nat)
    requires k < |blocks| && !Joined(blocks[..k]).aborted
    ensures Joined(blocks[..k + 1]) == Block(Joined(blocks[..k]).text + blocks[k].text, blocks[k].aborted)
  {
    assert blocks[..k + 1][..k] == blocks[..k];
  }

  /** Once a block aborts, later blocks add nothing. */
  lemma {:induction false} AbortPersists(blocks: seq<Block>, n: nat)
    requires n <= |blocks| && Joined(blocks[..n]).aborted
    ensures Joined(blocks) == Joined(blocks[..n])
    decreases |blocks| - n
  {
    if n < |blocks| {
      var m := |blocks| - 1;
      assert blocks[..m][..n] == blocks[..n];
      AbortPersists(blocks[..m], n);
    } else {
      assert blocks[..n] == blocks;
    }
  }

  /**
   * The body of the loop of `get_and_decode_data` for one identifier: the
   * lines it writes, and whether the UTF-8 exception escaped. A `continue`
   * of the loop is a `return` here.
   */
  method ProcessId(id: int, fetch: Fetch) returns (text: string, aborted: bool)
    ensures Block(text, aborted) == BatchBlock(id, fetch)
  {
    aborted := false;
    text := "\nProcessing ID: " + ShowInt(id) + Newline;
    text := text + (Repeat('=', RuleWidth) + Newline);
    match fetch {
      case RequestError(e) =>
        text := text + RequestErrorLine(id, e);
      case Body(page) =>
        ghost var f := Extract(page);
        var key := ChannelKey(page);
        if key.Some? {
          text := text + KeyText(key.value) + Newline;
        } else {
          text := text + KeyMissing + Newline;
        }
        assert text == BatchBanner(id) + KeyLine(f.key) + Newline;
        var blob := MainBlob(page);
        if blob.None? {
          text := text + BlobMissingLine;
          return;
        }
        var decoded := DecodeBlob(blob.value);
        if decoded.Utf8Error? {
          aborted := true;
          return;
        }
        if decoded.Base64Error? {
          text := text + DecodeErrorLine(decoded.message);
          return;
        }
        var doc := decoded.doc;
        var ts, rnd, sig := Field(TsName, doc), Field(RndName, doc), Field(SigName, doc);
        assert f == Fields(key, ts, rnd, sig);
        ghost var head := text;
        if ts.Some? {
          text := text + FieldText(TsTag, ts.value) + Newline;
        } else {
          text := text + FieldText(TsTag, NotFound) + Newline;
        }
        assert text == head + FieldLine(TsTag, ts) + Newline;
        head := text;
        if rnd.Some? {
          text := text + FieldText(RndTag, rnd.value) + Newline;
        } else {
          text := text + FieldText(RndTag, NotFound) + Newline;
        }
        assert text == head + FieldLine(RndTag, rnd) + Newline;
        head := text;
        if sig.Some? {
          text := text + FieldText(SigTag, sig.value) + Newline;
        } else {
          text := text + FieldText(SigTag, NotFound) + Newline;
        }
        assert text == head + FieldLine(SigTag, sig) + Newline;
    }
  }

  /** An occurrence stays where it is when text is appended. */
  lemma HasAtExtend(a: string, i: nat, w: string, b: string)
    requires HasAt(a, i, w)
    ensures HasAt(a + b, i, w)
  {
    assert (a + b)[i..i + |w|] == a[i..i + |w|];
  }

  /**
   * Each block that is reached stands in the batch text right after the
   * blocks before it.
   */
  lemma {:induction false} JoinedHolds(blocks: seq<Block>, k: nat)
    requires k < |blocks| && !Joined(blocks[..k]).aborted
    ensures HasAt(Joined(blocks).text, |Joined(blocks[..k]).text|, blocks[k].text)
  {
    var n := |blocks| - 1;
    var before := Joined(blocks[..n]);
    if k == n {
      HasAtConcat(before.text, blocks[n].text, []);
      assert before.text + blocks[n].text + [] == before.text + blocks[n].text;
    } else {
      assert blocks[..n][..k] == blocks[..k];
      JoinedHolds(blocks[..n], k);
      if !before.aborted {
        HasAtExtend(before.text, |Joined(blocks[..k]).text|, blocks[k].text, blocks[n].text);
      }
    }
  }

  /**
   * `get_and_decode_data(premium_numbers)`: the text of the key file, and
   * whether a UTF-8 decoding error escaped (the text is then what was
   * written before it).
   */
  method GetAndDecodeData(pages: seq<(int, Fetch)>) returns (out: string, aborted: bool)
    ensures Block(out, aborted) == Batch(pages)
  {
    ghost var blocks := seq(|pages|, k requires 0 <= k < |pages| => BatchBlock(pages[k].0, pages[k].1));
    out := [];
    aborted := false;
    for k := 0 to |pages|
      invariant Joined(blocks[..k]) == Block(out, false)
    {
      var text;
      text, aborted := ProcessId(pages[k].0, pages[k].1);
      JoinedStep(blocks, k);
      out := out + text;
      if aborted {
        AbortPersists(blocks, k + 1);
        return;
      }
    }
    assert blocks[..|pages|] == blocks;
  }

  // ---------------------------------------------------------------------
  // Single mode: `get_and_decode_data_for_id`
  // ---------------------------------------------------------------------

  /** How `get_and_decode_data_for_id` ends: it returns a flag, or the exception escapes. */
  datatype Outcome = Returned(success: bool) | Raised

  /** The text single mode writes, and how it ends. */
  datatype Single = Single(text: string, outcome: Outcome)

  /** The text and outcome of single mode for one identifier. */
  function SingleBlock(id: int, fetch: Fetch): (b: Single) {
    match fetch
    case RequestError(e) => Single(Banner(id) + RequestErrorLine(id, e), Returned(false))
    case Body(page) => SingleText(id, Extract(page))
  }

  /**
   * The text and outcome of single mode for a page whose searches gave `f`.
   * A missing key ends it before the blob is looked at.
   */
  function SingleText(id: int, f: Found): Single {
    match f.key
    case None => Single(Banner(id) + KeyMissing + Newline + Newline, Returned(false))
    case Some(key) =>
      var head := Banner(id) + KeyText(key) + Newline + Newline;
      match f
      case NoBlob(_) => Single(head + BlobMissingLine, Returned(false))
      case BadBase64(_, m) => Single(head + DecodeErrorLine(m), Returned(false))
      case BadUtf8(_) => Single(head, Raised)
      case Fields(_, ts, rnd, sig) => SingleFields(head, ts, rnd, sig)
  }

  /** The field lines of single mode, up to the first field that is missing. */
  function SingleFields(head: string, ts: Option<string>, rnd: Option<string>, sig: Option<string>): Single {
    match ts
    case None => Single(head + FieldText(TsTag, NotFound) + Newline, Returned(false))
    case Some(t) =>
      var h1 := head + FieldText(TsTag, t) + Newline;
      match rnd
      case None => Single(h1 + FieldText(RndTag, NotFound) + Newline, Returned(false))
      case Some(r) =>
        var h2 := h1 + FieldText(RndTag, r) + Newline;
        match sig
        case None => Single(h2 + FieldText(SigTag, NotFound) + Newline, Returned(false))
        case Some(g) => Single(h2 + FieldText(SigTag, g) + Newline, Returned(true))
  }

  /**
   * `get_and_decode_data_for_id(premium_id)`: the text of the key file and
   * the returned flag, or `Raised` when the UTF-8 exception escapes.
   */
  method GetAndDecodeDataForId(id: int, fetch: Fetch) returns (text: string, outcome: Outcome)
    ensures Single(text, outcome) == SingleBlock(id, fetch)
  {
    text := "Processing ID: " + ShowInt(id) + Newline;
    text := text + (Repeat('=', RuleWidth) + Newline);
    match fetch {
      case RequestError(e) =>
        text := text + RequestErrorLine(id, e);
        return text, Returned(false);
      case Body(page) =>
        ghost var f := Extract(page);
        assert SingleBlock(id, fetch) == SingleText(id, f);
        var key := ChannelKey(page);
        if key.Some? {
          text := text + KeyText(key.value) + Newline + Newline;
        } else {
          text := text + KeyMissing + Newline + Newline;
          return text, Returned(false);
        }
        var blob := MainBlob(page);
        if blob.None? {
          text := text + BlobMissingLine;
          return text, Returned(false);
        }
        var decoded := DecodeBlob(blob.value);
        if decoded.Utf8Error? {
          return text, Raised;
        }
        if decoded.Base64Error? {
          text := text + DecodeErrorLine(decoded.message);
          return text, Returned(false);
        }
        var doc := decoded.doc;
        var ts, rnd, sig := Field(TsName, doc), Field(RndName, doc), Field(SigName, doc);
        assert f == Fields(key, ts, rnd, sig);
        if ts.Some? {
          text := text + FieldText(TsTag, ts.value) + Newline;
        } else {
          text := text + FieldText(TsTag, NotFound) + Newline;
          return text, Returned(false);
        }
        if rnd.Some? {
          text := text + FieldText(RndTag, rnd.value) + Newline;
        } else {
          text := text + FieldText(RndTag, NotFound) + Newline;
          return text, Returned(false);
        }
        if sig.Some? {
          text := text + FieldText(SigTag, sig.value) + Newline;
        } else {
          text := text + FieldText(SigTag, NotFound) + Newline;
          return text, Returned(false);
        }
        return text, Returned(true);
    }
  }

  // ---------------------------------------------------------------------
  // What the searches find
  // ---------------------------------------------------------------------

  /**
   * The key is the one of the leftmost `CHANNEL_KEY="premium<digits>"` in
   * the page, and there is none exactly when the page holds no such text.
   */
  lemma ChannelKeyLeftmost(page: string)
    ensures ChannelKey(page).None? <==> forall p, d :: !IsKeyMatch(page, p, d)
    ensures ChannelKey(page).Some? ==>
              exists p :: IsKeyMatch(page, p, ChannelKey(page).value[7..])
                       && forall q, d | q < p :: !IsKeyMatch(page, q, d)
  {
    forall p, d | IsKeyMatch(page, p, d)
      ensures KeyAt(page, p).Some?
    {
      KeyAtComplete(page, p, d);
    }
    if ChannelKey(page).Some? {
      var p :| 0 <= p <= |page| && KeyAt(page, p) == ChannelKey(page)
                && forall j | 0 <= j < p :: KeyAt(page, j).None?;
      assert IsKeyMatch(page, p, ChannelKey(page).value[7..]);
    }
  }

  /** A field's value is the one of the leftmost `"<name>":"<base64>"` in the text. */
  lemma FieldLeftmost(name: string, doc: string)
    ensures Field(name, doc).None? <==> forall p, v :: !IsFieldMatch(doc, p, name, v)
    ensures Field(name, doc).Some? ==>
              exists p :: IsFieldMatch(doc, p, name, Field(name, doc).value)
                       && forall q, v | q < p :: !IsFieldMatch(doc, q, name, v)
  {
    var at := FieldMatcher(name);
    forall p, v | IsFieldMatch(doc, p, name, v)
      ensures at(doc, p).Some?
    {
      FieldAtComplete(name, doc, p, v);
    }
    if Field(name, doc).Some? {
      var p :| 0 <= p <= |doc| && at(doc, p) == Field(name, doc)
                && forall j | 0 <= j < p :: at(doc, j).None?;
      assert IsFieldMatch(doc, p, name, Field(name, doc).value);
    }
  }

  /** A blob that encodes a UTF-8 text decodes back to that text. */
  lemma DecodeBlobOfEncoding(doc: string)
    ensures AllB64(Base64.Encode(Utf8.Encode(doc)))
    ensures DecodeBlob(Base64.Encode(Utf8.Encode(doc))) == Decoded(doc)
  {
    Base64.LenientDecodesEncode(Utf8.Encode(doc));
    Utf8.DecodeEncode(doc);
  }

  // ---------------------------------------------------------------------
  // The shape of the blocks
  // ---------------------------------------------------------------------

  lemma ExtendPrefix(p: string, a: string, b: string)
    requires StartsWith(a, p)
    ensures StartsWith(a + b, p)
  {
    assert (a + b)[..|p|] == a[..|p|];
  }

  /** Every batch block starts with the banner of its identifier. */
  lemma BatchBlockStartsWithBanner(id: int, fetch: Fetch)
    ensures StartsWith(BatchBlock(id, fetch).text, BatchBanner(id))
  {
    var banner := BatchBanner(id);
    assert banner[..|banner|] == banner;
    match fetch
    case RequestError(e) =>
      ExtendPrefix(banner, banner, RequestErrorLine(id, e));
    case Body(page) =>
      var f := Extract(page);
      ExtendPrefix(banner, banner, KeyLine(f.key));
      var head := banner + KeyLine(f.key) + Newline;
      ExtendPrefix(banner, banner + KeyLine(f.key), Newline);
      match f
      case NoBlob(_) => ExtendPrefix(banner, head, BlobMissingLine);
      case BadBase64(_, m) => ExtendPrefix(banner, head, DecodeErrorLine(m));
      case BadUtf8(_) =>
      case Fields(_, ts, rnd, sig) =>
        var l1, l2, l3 := FieldLine(TsTag, ts), FieldLine(RndTag, rnd), FieldLine(SigTag, sig);
        ExtendPrefix(banner, head, l1);
        ExtendPrefix(banner, head + l1, Newline);
        ExtendPrefix(banner, head + l1 + Newline, l2);
        ExtendPrefix(banner, head + l1 + Newline + l2, Newline);
        ExtendPrefix(banner, head + l1 + Newline + l2 + Newline, l3);
        ExtendPrefix(banner, head + l1 + Newline + l2 + Newline + l3, Newline);
  }

  /** Only a UTF-8 failure aborts the batch, and the block then ends with the key line. */
  lemma BatchAbortsOnUtf8(id: int, page: string)
    ensures BatchBlock(id, Body(page)).aborted <==>
              MainBlob(page).Some? && DecodeBlob(MainBlob(page).value).Utf8Error?
    ensures BatchBlock(id, Body(page)).aborted ==>
              BatchBlock(id, Body(page)).text == BatchBanner(id) + KeyLine(ChannelKey(page)) + Newline
  {
    var f := Extract(page);
    assert BatchBlock(id, Body(page)) == BatchText(id, f);
    match MainBlob(page) {
      case None =>
        assert f.NoBlob?;
      case Some(blob) =>
        assert f.BadUtf8? <==> DecodeBlob(blob).Utf8Error?;
    }
  }

  /** A missing blob ends the block with its error line right after the key line. */
  lemma BatchBlobMissing(id: int, page: string)
    requires MainBlob(page).None?
    ensures BatchBlock(id, Body(page)) == Block(BatchBanner(id) + KeyLine(ChannelKey(page)) + Newline + BlobMissingLine, false)
  {
  }

  /** The three field lines of a batch block follow its key line. */
  lemma BatchFieldsText(id: int, key: Option<string>, ts: Option<string>, rnd: Option<string>, sig: Option<string>)
    ensures BatchText(id, Fields(key, ts, rnd, sig)).text ==
            BatchBanner(id) + KeyLine(key) + Newline
            + (FieldLine(TsTag, ts) + Newline + FieldLine(RndTag, rnd) + Newline + FieldLine(SigTag, sig) + Newline)
  {
    Regroup(BatchBanner(id) + KeyLine(key) + Newline, FieldLine(TsTag, ts), Newline, FieldLine(RndTag, rnd), Newline,
            FieldLine(SigTag, sig), Newline);
  }

  lemma Append3(h: string, a: string, b: string)
    ensures h + a + b == h + (a + b)
  {
  }

  lemma Regroup(h: string, a: string, b: string, c: string, d: string, e: string, g: string)
    ensures h + a + b + c + d + e + g == h + (a + b + c + d + e + g)
  {
  }

  /**
   * In batch mode the key line is the only thing the key changes: a missing
   * key is reported and the blob and fields are handled as when it is found.
   */
  lemma BatchKeyLineOnly(id: int, f: Found, k: string)
    ensures var g := f.(key := Some(k));
            var hf, hg := BatchBanner(id) + KeyLine(f.key) + Newline, BatchBanner(id) + KeyText(k) + Newline;
            && BatchText(id, f).aborted == BatchText(id, g).aborted
            && StartsWith(BatchText(id, f).text, hf) && StartsWith(BatchText(id, g).text, hg)
            && BatchText(id, f).text[|hf|..] == BatchText(id, g).text[|hg|..]
  {
    var g := f.(key := Some(k));
    var hf, hg := BatchBanner(id) + KeyLine(f.key) + Newline, BatchBanner(id) + KeyText(k) + Newline;
    var tail: string;
    match f {
      case NoBlob(key) =>
        tail := BlobMissingLine;
        assert g == NoBlob(Some(k));
        assert BatchText(id, f) == Block(hf + tail, false);
        assert BatchText(id, g) == Block(hg + tail, false);
      case BadBase64(key, m) =>
        tail := DecodeErrorLine(m);
        assert g == BadBase64(Some(k), m);
        assert BatchText(id, f) == Block(hf + tail, false);
        assert BatchText(id, g) == Block(hg + tail, false);
      case BadUtf8(key) =>
        tail := [];
        assert g == BadUtf8(Some(k));
        assert hf + tail == hf && hg + tail == hg;
      case Fields(key, ts, rnd, sig) =>
        var l1, l2, l3 := FieldLine(TsTag, ts) + Newline, FieldLine(RndTag, rnd) + Newline, FieldLine(SigTag, sig) + Newline;
        tail := l1 + l2 + l3;
        assert g == Fields(Some(k), ts, rnd, sig);
        BatchFieldsText(id, key, ts, rnd, sig);
        BatchFieldsText(id, Some(k), ts, rnd, sig);
    }
    assert (hf + tail)[|hf|..] == tail && (hg + tail)[|hg|..] == tail;
  }

  // ---------------------------------------------------------------------
  // Reading back what was written
  // ---------------------------------------------------------------------

  /** Regrouping the lines of a complete block into the record text. */
  lemma RecordLines(banner: string, r: Record, gap: string, tail: string)
    ensures banner + KeyText(r.key) + gap + FieldText(TsTag, r.ts) + Newline + FieldText(RndTag, r.rnd) + Newline
            + FieldText(SigTag, r.sig) + tail
            == banner + RecordText(r, gap) + tail
  {
  }

  /** The middle piece of a three-piece occurrence, and the character after it. */
  lemma HasAtMiddle(s: string, i: nat, a: string, b: string, c: string)
    requires HasAt(s, i, a + b + c) && c != []
    ensures HasAt(s, i + |a|, b) && s[i + |a| + |b|] == c[0]
  {
    HasAtSplit(s, i, a + b, c);
    HasAtSplit(s, i, a, b);
    HasAtChar(s, i + |a| + |b|, c, 0);
  }

  /** The record text stands right after the banner, followed by `tail`. */
  lemma RecordAfterBanner(s: string, i: nat, banner: string, r: Record, gap: string, tail: string)
    requires HasAt(s, i, banner + RecordText(r, gap) + tail) && tail != [] && !IsB64Char(tail[0])
    requires WellFormed(r) && gap != [] && AllIn(gap, IsSpace)
    ensures RecordAt(s, i + |banner|) == Some((r, i + |banner| + |RecordText(r, gap)|))
  {
    HasAtMiddle(s, i, banner, RecordText(r, gap), tail);
    RecordRoundTrip(s, i + |banner|, r, gap);
  }

  /** What the searches give for a page on which every stage succeeds. */
  function Complete(r: Record): Found {
    Fields(Some(r.key), Some(r.ts), Some(r.rnd), Some(r.sig))
  }

  /**
   * A complete batch block is its banner, then the text the record pattern
   * reads back (`RecordAfterBanner`), then a line break.
   */
  lemma CompleteBatchText(id: int, r: Record)
    ensures BatchText(id, Complete(r)) == Block(BatchBanner(id) + RecordText(r, Newline) + Newline, false)
    ensures AllIn(Newline, IsSpace) && !IsB64Char(Newline[0])
  {
    RecordLines(BatchBanner(id), r, Newline, Newline);
  }

  /**
   * A batch block whose `b_sig` is missing is the banner, then the record
   * text with `Not` (the first word of the placeholder) as its signature,
   * then ` found` and a line break: the record pattern reads it back too.
   */
  lemma SigMissingBatchText(id: int, key: string, ts: string, rnd: string)
    ensures BatchText(id, Fields(Some(key), Some(ts), Some(rnd), None))
            == Block(BatchBanner(id) + RecordText(Record(key, ts, rnd, "Not"), Newline) + " found\n", false)
    ensures IsB64Run("Not") && !IsB64Char(" found\n"[0])
  {
    SigMissingLines(id, key, ts, rnd);
    PlaceholderSplit();
  }

  lemma SigMissingLines(id: int, key: string, ts: string, rnd: string)
    ensures BatchText(id, Fields(Some(key), Some(ts), Some(rnd), None))
            == Block(BatchBanner(id) + RecordText(Record(key, ts, rnd, "Not"), Newline) + " found\n", false)
  {
    var r := Record(key, ts, rnd, "Not");
    var x := BatchBanner(id) + KeyText(key) + Newline + FieldText(TsTag, ts) + Newline + FieldText(RndTag, rnd) + Newline;
    var y := x + FieldText(SigTag, "Not") + " found\n";
    var b := BatchText(id, Fields(Some(key), Some(ts), Some(rnd), None));
    assert b.text == x + FieldText(SigTag, NotFound) + Newline && !b.aborted;
    assert x + FieldText(SigTag, NotFound) + Newline == y by {
      var a, b := FieldText(SigTag, NotFound) + Newline, FieldText(SigTag, "Not") + " found\n";
      Append3(x, FieldText(SigTag, NotFound), Newline);
      PlaceholderSplit();
      assert x + a == x + b;
      Append3(x, FieldText(SigTag, "Not"), " found\n");
    }
    assert y == BatchBanner(id) + RecordText(r, Newline) + " found\n" by {
      RecordLines(BatchBanner(id), r, Newline, " found\n");
    }
  }

  lemma PlaceholderSplit()
    ensures FieldText(SigTag, NotFound) + Newline == FieldText(SigTag, "Not") + " found\n"
    ensures IsB64Run("Not") && !IsB64Char(" found\n"[0])
  {
  }

  // ---------------------------------------------------------------------
  // How single mode ends
  // ---------------------------------------------------------------------

  /** Single mode reports success exactly when every stage succeeds. */
  lemma SingleSucceedsExactly(id: int, f: Found)
    ensures SingleText(id, f).outcome == Returned(true) <==>
              f.Fields? && f.key.Some? && f.ts.Some? && f.rnd.Some? && f.sig.Some?
  {
  }

  /** The exception escapes single mode exactly when a key was found and the blob is not UTF-8. */
  lemma SingleRaisesExactly(id: int, f: Found)
    ensures SingleText(id, f).outcome == Raised <==> f.key.Some? && f.BadUtf8?
  {
  }

  /**
   * Without a key, single mode stops after the key line and a blank line,
   * whatever the rest of the page holds.
   */
  lemma SingleKeyMissing(id: int, f: Found)
    requires f.key.None?
    ensures SingleText(id, f) == Single(Banner(id) + KeyMissing + Newline + Newline, Returned(false))
  {
  }

  /**
   * Single mode writes no line after the first missing field: what follows
   * a missing `b_ts` or `b_rnd` has no effect on the text or the outcome.
   */
  lemma SingleStopsAtMissingField(head: string, ts: Option<string>, rnd: Option<string>, sig: Option<string>,
                                  rnd2: Option<string>, sig2: Option<string>)
    ensures ts.None? ==> SingleFields(head, ts, rnd, sig) == SingleFields(head, ts, rnd2, sig2)
    ensures rnd.None? ==> SingleFields(head, ts, rnd, sig) == SingleFields(head, ts, rnd, sig2)
    ensures ts.None? || rnd.None? || sig.None? ==> SingleFields(head, ts, rnd, sig).outcome == Returned(false)
  {
  }

  /** A complete single-mode text is the banner, the record text with a blank line after the key, and a line break. */
  lemma CompleteSingleText(id: int, r: Record)
    ensures SingleText(id, Complete(r))
            == Single(Banner(id) + RecordText(r, Newline + Newline) + Newline, Returned(true))
  {
    var head := Banner(id) + KeyText(r.key) + Newline + Newline;
    assert head == Banner(id) + KeyText(r.key) + (Newline + Newline);
    assert SingleText(id, Complete(r)) == SingleFields(head, Some(r.ts), Some(r.rnd), Some(r.sig));
    RecordLines(Banner(id), r, Newline + Newline, Newline);
  }

  /** Two lines without a `C` hold no record. */
  lemma SkipTwoLines(s: string, w1: string, w2: string, m: nat, b: nat)
    requires HasAt(s, 0, w1 + Newline) && HasAt(s, m, w2 + Newline)
    requires 'C' !in w1 && 'C' !in w2 && m == |w1| + 1 && b == m + |w2| + 1
    ensures Scan(s, 0, RecordAt) == Scan(s, b, RecordAt)
  {
    SkipPlainLine(s, 0, w1, m);
    SkipPlainLine(s, m, w2, b);
  }

  /** A record that ends just before the last character is the last one found. */
  lemma LastRecord(s: string, b: nat, r: Record, e: nat)
    requires RecordAt(s, b) == Some((r, e)) && e + 1 == |s|
    ensures Scan(s, b, RecordAt) == [r]
  {
    ScanMatch(s, b, RecordAt, r, e);
    SkipUnlabelled(s, |s| - 1, |s|);
  }

  /** Two lines without a `C`, one record, and a final line break hold that record only. */
  lemma OneRecordIn(s: string, w1: string, w2: string, r: Record, gap: string, m: nat, b: nat, e: nat)
    requires HasAt(s, 0, w1 + Newline) && HasAt(s, m, w2 + Newline) && HasAt(s, b, RecordText(r, gap))
    requires 'C' !in w1 && 'C' !in w2 && m == |w1| + 1 && b == m + |w2| + 1
    requires e == b + |RecordText(r, gap)| && e + 1 == |s| && s[e] == '\n'
    requires WellFormed(r) && gap != [] && AllIn(gap, IsSpace)
    ensures Scan(s, 0, RecordAt) == [r]
  {
    SkipTwoLines(s, w1, w2, m, b);
    RecordThenEnd(s, r, gap, b, e);
  }

  /** One record and a final line break hold that record only. */
  lemma RecordThenEnd(s: string, r: Record, gap: string, b: nat, e: nat)
    requires HasAt(s, b, RecordText(r, gap)) && e == b + |RecordText(r, gap)| && e + 1 == |s| && s[e] == '\n'
    requires WellFormed(r) && gap != [] && AllIn(gap, IsSpace)
    ensures Scan(s, b, RecordAt) == [r]
  {
    assert !IsB64Char('\n');
    assert !IsB64Char(s[b + |RecordText(r, gap)|]);
    RecordRoundTrip(s, b, r, gap);
    LastRecord(s, b, r, e);
  }

  /** Where the pieces of two lines, a record and a line break stand. */
  lemma LinesThenRecord(w1: string, w2: string, t: string)
    ensures var s := w1 + Newline + (w2 + Newline) + t + Newline;
            var b := |w1| + 1 + |w2| + 1;
            && HasAt(s, 0, w1 + Newline) && HasAt(s, |w1| + 1, w2 + Newline) && HasAt(s, b, t)
            && b + |t| + 1 == |s| && s[b + |t|] == '\n'
  {
    var banner := w1 + Newline + (w2 + Newline);
    var s := banner + t + Newline;
    assert HasAt(s, 0, s);
    HasAtSplit(s, 0, banner + t, Newline);
    HasAtSplit(s, 0, banner, t);
    HasAtSplit(s, 0, w1 + Newline, w2 + Newline);
    HasAtChar(s, |banner| + |t|, Newline, 0);
  }

  /**
   * Two lines without a `C` and then the text of one record: the record
   * pattern finds exactly that record in the whole text.
   */
  lemma OneRecordAfterLines(w1: string, w2: string, r: Record, gap: string)
    requires 'C' !in w1 && 'C' !in w2
    requires WellFormed(r) && gap != [] && AllIn(gap, IsSpace)
    ensures FindRecords(w1 + Newline + (w2 + Newline) + RecordText(r, gap) + Newline) == [r]
  {
    var t := RecordText(r, gap);
    var s := w1 + Newline + (w2 + Newline) + t + Newline;
    var m := |w1| + 1;
    var b := m + |w2| + 1;
    LinesThenRecord(w1, w2, t);
    OneRecordIn(s, w1, w2, r, gap, m, b, b + |t|);
  }

  /**
   * Serialise-then-parse in single mode: the key file written for a page on
   * which every stage succeeds holds exactly one record, the one extracted.
   */
  lemma SingleReadBack(id: int, r: Record)
    requires WellFormed(r)
    ensures FindRecords(SingleText(id, Complete(r)).text) == [r]
  {
    CompleteSingleText(id, r);
    NumeralHasNoC(id);
    var w1 := "Processing ID: " + ShowInt(id);
    assert 'C' !in w1;
    assert 'C' !in Repeat('=', RuleWidth);
    assert AllIn(Newline + Newline, IsSpace);
    OneRecordAfterLines(w1, Repeat('=', RuleWidth), r, Newline + Newline);
  }
}
