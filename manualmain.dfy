/**
 * The main program of the manual script, up to the curl probe: the entered
 * identifier is validated, the one block is fetched and written to the key
 * file, the URLs are generated from that file and written out. Each early
 * `exit(1)`, and the uncaught `UnicodeDecodeError`, ends the run.
 *
 * What `input()` returns, the outcome of the request and whether the URL
 * file could be written are inputs. The key file is read back as it was
 * written.
 */
module ManualMain {
  import opened Wrappers
  import opened Text
  import opened Patterns
  import opened Files
  import opened Extractor
  import opened Synthesizer

  /** How a run ends before the probe, or the URLs it hands to the probe. */
  datatype RunEnd =
    | NoId                 // nothing entered: `exit(1)`
    | InvalidId            // `int()` raised `ValueError`: `exit(1)`
    | Crashed              // `UnicodeDecodeError` escaped the extraction
    | ExtractionFailed     // the extraction returned `False`: `exit(1)`
    | NoUrls               // no URL came out of the key file: `exit(1)`
    | UrlWriteFailed       // writing the URL file raised `IOError`: `exit(1)`
    | Completed(id: int, urls: seq<string>)

  /** The process exit status of each ending; an uncaught exception exits with 1. */
  function ExitStatus(e: RunEnd): (code: int)
    ensures code == 0 <==> e.Completed?
    ensures code == 0 || code == 1
  {
    if e.Completed? then 0 else 1
  }

  /** The outcome of one run, the specification of `RunManual`. */
  function ManualRun(entered: string, fetch: Fetch, urlFileWritten: bool): (e: RunEnd)
  {
    var premium := Strip(entered);
    if premium == [] then NoId
    else
      match ParseInt(premium)
      case None => InvalidId
      case Some(id) => AfterExtraction(id, SingleBlock(id, fetch), urlFileWritten)
  }

  /** How the run goes on once single mode has written its block and ended. */
  function AfterExtraction(id: int, single: Single, urlFileWritten: bool): (e: RunEnd)
    ensures !e.NoId? && !e.InvalidId?
    ensures e.Crashed? <==> single.outcome == Raised
    ensures e.ExtractionFailed? <==> single.outcome == Returned(false)
    ensures e.Completed? ==> e.id == id && single.outcome == Returned(true) && e.urls != [] && urlFileWritten
  {
    match single.outcome
    case Raised => Crashed
    case Returned(success) =>
      if !success then ExtractionFailed
      else
        var urls := Urls(FindRecords(single.text));
        if urls == [] then NoUrls
        else if !urlFileWritten then UrlWriteFailed
        else Completed(id, urls)
  }

  /**
   * The `__main__` block of the manual script up to the probe, step by
   * step: read and check the identifier, write the key file, generate the
   * URLs from it, write them out.
   */
  method RunManual(entered: string, fetch: Fetch, urlFileWritten: bool) returns (e: RunEnd)
    ensures e == ManualRun(entered, fetch, urlFileWritten)
  {
    var premium := Strip(entered);
    if premium == [] {
      return NoId;
    }
    var parsed := ParseInt(premium);
    if parsed.None? {
      return InvalidId;
    }
    var id := parsed.value;
    var text, outcome := GetAndDecodeDataForId(id, fetch);
    assert ManualRun(entered, fetch, urlFileWritten) == AfterExtraction(id, Single(text, outcome), urlFileWritten);
    if outcome == Raised {
      return Crashed;
    }
    if outcome == Returned(false) {
      return ExtractionFailed;
    }
    var urls := GenerateAuthUrls(Contents(text));
    if urls == [] {
      return NoUrls;
    }
    if !urlFileWritten {
      return UrlWriteFailed;
    }
    return Completed(id, urls);
  }

  /** The identifier is checked first: an empty one, then one `int()` rejects. */
  lemma IdChecked(entered: string, fetch: Fetch, urlFileWritten: bool)
    ensures ManualRun(entered, fetch, urlFileWritten).NoId? <==> Strip(entered) == []
    ensures ManualRun(entered, fetch, urlFileWritten).InvalidId? <==>
              Strip(entered) != [] && ParseInt(Strip(entered)).None?
  {
  }

  /**
   * With a valid identifier, the run crashes exactly when single mode
   * raises, and exits after the extraction exactly when it returns `False`.
   */
  lemma ExtractionChecked(entered: string, id: int, fetch: Fetch, urlFileWritten: bool)
    requires ParseInt(Strip(entered)) == Some(id)
    ensures ManualRun(entered, fetch, urlFileWritten).Crashed? <==> SingleBlock(id, fetch).outcome == Raised
    ensures ManualRun(entered, fetch, urlFileWritten).ExtractionFailed? <==>
              SingleBlock(id, fetch).outcome == Returned(false)
  {
  }

  /**
   * A run that reaches the probe had a valid identifier, a successful
   * extraction, at least one URL from the key file and a written URL file.
   */
  lemma CompletedHasPassedAll(entered: string, fetch: Fetch, urlFileWritten: bool)
    requires ManualRun(entered, fetch, urlFileWritten).Completed?
    ensures var e := ManualRun(entered, fetch, urlFileWritten);
            && ParseInt(Strip(entered)) == Some(e.id)
            && SingleBlock(e.id, fetch).outcome == Returned(true)
            && e.urls != []
            && e.urls == Urls(FindRecords(SingleBlock(e.id, fetch).text))
            && urlFileWritten
  {
  }

  /**
   * A page holding a complete key block whose three values decode leads,
   * for a valid identifier, to exactly the URL of that block.
   */
  lemma CompletePageOneUrl(entered: string, id: int, page: string, r: Record)
    requires ParseInt(Strip(entered)) == Some(id)
    requires Extract(page) == Complete(r)
    requires UrlFor(r).Some?
    ensures ManualRun(entered, Body(page), true) == Completed(id, [UrlFor(r).value])
    ensures ExitStatus(ManualRun(entered, Body(page), true)) == 0
  {
    SingleSucceedsExactly(id, Complete(r));
    SingleModeUrls(id, r);
  }

  /**
   * When a complete block's values do not decode, the key file gives no URL
   * and the run exits with 1, even though the extraction succeeded.
   */
  lemma UndecodableValuesExit(entered: string, id: int, page: string, r: Record, written: bool)
    requires ParseInt(Strip(entered)) == Some(id)
    requires Extract(page) == Complete(r)
    requires UrlFor(r).None?
    ensures SingleBlock(id, Body(page)).outcome == Returned(true)
    ensures ManualRun(entered, Body(page), written) == NoUrls
  {
    SingleSucceedsExactly(id, Complete(r));
    SingleModeUrls(id, r);
  }

  /** The run reaches the probe exactly when single mode succeeds and its block decodes. */
  lemma {:induction false} CompletedExactly(entered: string, fetch: Fetch, written: bool)
    ensures ManualRun(entered, fetch, written).Completed? <==>
              && ParseInt(Strip(entered)).Some?
              && fetch.Body?
              && (var f := Extract(fetch.text);
                  && f.Fields? && f.key.Some? && f.ts.Some? && f.rnd.Some? && f.sig.Some?
                  && UrlFor(Record(f.key.value, f.ts.value, f.rnd.value, f.sig.value)).Some?)
              && written
  {
    var parsed := ParseInt(Strip(entered));
    if parsed.Some? && fetch.Body? {
      var id, f := parsed.value, Extract(fetch.text);
      SingleSucceedsExactly(id, f);
      if f.Fields? && f.key.Some? && f.ts.Some? && f.rnd.Some? && f.sig.Some? {
        var r := Record(f.key.value, f.ts.value, f.rnd.value, f.sig.value);
        assert f == Complete(r);
        SingleModeUrls(id, r);
      }
    }
  }
}
