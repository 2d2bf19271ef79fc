# Channel key scraper and auth-URL generator, modelled in Dafny

The repository has two Python scripts. Each one scrapes a streaming site's
player pages for the authentication data of its channels, builds `auth.php`
URLs from that data and probes each URL with `curl -I`.

- `daddy.py`, batch mode, handles many channels:
  - it collects channel identifiers from playlist files
    (`load_premium_numbers`);
  - it writes one block per identifier to `keys.dat`
    (`get_and_decode_data`);
  - it reads the blocks back with a four-line record pattern and builds the
    URLs from them (`generate_auth_urls_from_channel_auth_file`).
- `manual_daddy.py`, single mode, handles one identifier typed in by the
  user:
  - it stops at the first missing piece and returns `False`
    (`get_and_decode_data_for_id`);
  - its `__main__` block exits with status 1 at every failure.

The model covers the text-processing chain of both scripts:

- **Patterns.** The regular expressions become deterministic index matchers:
  - `re.search` is a leftmost search;
  - `re.findall` and `re.finditer` are a scan over non-overlapping matches.
- **Base64.** `base64.b64decode` is CPython's non-strict decoder, written as
  the state machine of `binascii.a2b_base64`. It is proved to agree with a
  reference decoder for section 4 of RFC 4648 on canonical input. Further
  lemmas pin down where it differs:
  - it stops at the first complete padded quantum, so whatever follows a
    padded canonical text is ignored;
  - text without `=` whose length is one more than a multiple of four fails
    with the message that the number of data characters cannot be 1 more
    than a multiple of 4, and two or three more fail with `Incorrect padding`;
  - it accepts the placeholder word `Not` as base64 text and then fails on it
    with `Incorrect padding`.
- **UTF-8.** `bytes.decode('utf-8')` is a strict UTF-8 decoder. It is proved
  to be the inverse of an encoder.
- **Key files.** The text written to the key files is a string.
- **Network and files as inputs.** Each HTTP request's outcome is an input
  value (`Fetch`), and so is each file read (`FileRead`).
- **Exceptions.** A `UnicodeDecodeError` escapes every handler in both
  scripts, and this is modelled as an explicit outcome:
  - in batch mode it aborts the rest of the batch (`Block.aborted`);
  - in single mode the function raises (`Outcome.Raised`), and the run ends
    as `RunEnd.Crashed`.

Where the source changes state step by step, the model is a `method` with a
loop or a sequence of appends. Each such method is proved equal to a
specification function, and the properties are lemmas about that function:

- the collector's loop over files;
- the block written for each identifier;
- the URL accumulation over the record matches;
- the manual main program up to the probe.

Modules:

- `Wrappers`: `Option` and `Result`.
- `Text`: character classes (`\s`, `\d` and the base64 class), `str.strip`,
  `int()` and `splitlines()[0]`.
- `Files`: the outcome of reading a file.
- `Base64`: the reference and lenient decoders, and the encoder.
- `Utf8`: the UTF-8 decoder and encoder.
- `Patterns`:
  - the generic `Search` and `Scan`;
  - the four patterns of the source;
  - the record text and its read-back.
- `Collector`: `load_premium_numbers`.
- `Extractor`: `get_and_decode_data` and `get_and_decode_data_for_id`.
- `Synthesizer`: `generate_auth_urls_from_channel_auth_file`.
- `Probe`: the status-line decision of `execute_curl_commands_from_file`.
- `ManualMain`: the `__main__` block of `manual_daddy.py` up to the probe.

## Model

| member | source | states |
|---|---|---|
| Collector.LoadPremiumNumbers | daddy.py:12-29 | The result is sorted ascending. Each value occurs exactly as often as there are distinct collected digit strings with that value, so de-duplication is on the strings. The printed reports are exactly the ones for unreadable files, in file order. |
| Collector.FoundIdsExact | daddy.py:18-24 | A digit string is collected if and only if some readable file holds `premium<it>/`. |
| Collector.ReportsExact | daddy.py:25-28 | A report line is printed if and only if it is the report of some unreadable file. Unreadable files are skipped, and the other files are still scanned. |
| Collector.Report | daddy.py:25-28 | A file gives a report line exactly when it could not be read. |
| Collector.NothingFound | daddy.py:17-29 | The list is empty exactly when no readable file holds any `premium<digits>/`. |
| Collector.LeadingZerosKept | daddy.py:24-29 | When `premium7/` and `premium007/` both occur, the value 7 appears at least twice. |
| Collector.SortedValues | daddy.py:29 | `sorted(int(num) ...)` is sorted, is a permutation of the values of the strings, and has one entry per string. |
| Collector.Insert | daddy.py:29 | Inserting into a sorted list keeps it sorted and adds exactly that element. |
| Patterns.FindIdsSound | daddy.py:23 | Every string `findall` captures is a non-empty digit run that occurs as `premium<it>/`. |
| Patterns.FindIdsComplete | daddy.py:23 | Every occurrence of `premium<digits>/` is captured, because the occurrences cannot overlap. |
| Patterns.BlobAt | daddy.py:61 | A blob match is exactly 292 base64-alphabet characters between two quotes. |
| Patterns.BlobExactLength | daddy.py:61 | A quoted base64 run matches if and only if its length is 292, so runs of 291 or 293 characters never match. |
| Patterns.SearchFinds | daddy.py:54 | `re.search` returns the match at the leftmost position where one exists. |
| Patterns.ScanSound | daddy.py:122 | Every record `finditer` yields is matched at some position of the text. |
| Patterns.ScanComplete | daddy.py:122 | A match that does not overlap an earlier match is yielded. |
| Patterns.RecordAt | daddy.py:113-119 | A match follows the pattern's layout: `CHANNEL_KEY:`, whitespace, the key with no digit after it, then for each of `b_ts:`, `b_rnd:` and `b_sig:` at least one whitespace character, the tag, whitespace and a base64 run with no base64 character after it. The four groups are those runs as they stand in the text. |
| Patterns.RecordAtComplete | daddy.py:113-119 | Wherever that layout stands, the matcher returns exactly its four groups and its end, so a match is unique. |
| Patterns.FindRecords | daddy.py:113-122 | Every record yielded is well formed. |
| Patterns.RecordRoundTrip | daddy.py:113-119 | The text of a record, with any whitespace gap after the key and a non-base64 character after it, is matched back to exactly that record. |
| Patterns.KeyFieldNotFound | daddy.py:57-58 | A `CHANNEL_KEY: Not found` line never starts a record. |
| Extractor.ChannelKeyLeftmost | daddy.py:54-56 | No key is found exactly when `CHANNEL_KEY="premium<digits>"` occurs nowhere. Otherwise the key found is the one at the leftmost occurrence. |
| Extractor.FieldLeftmost | daddy.py:77-79 | Each field search finds the leftmost `"<name>":"<base64 run>"`, or nothing when none occurs. |
| Extractor.Extract | daddy.py:54-79 | The key found is the page's channel key, and the blob is missing exactly when the blob search fails. When every field is present, the four values form a well-formed record. |
| Extractor.DecodeBlobOfEncoding | daddy.py:71 | A document encoded as UTF-8 and then base64 decodes back to itself. |
| Extractor.ProcessId | daddy.py:43-98 | The lines written for one identifier, and whether the exception escaped, are exactly those of the batch block specification. |
| Extractor.GetAndDecodeData | daddy.py:42-98 | The key file text and the abort flag are the blocks of the identifiers joined up to the first block that aborts. |
| Extractor.AbortPersists | daddy.py:71-74 | After a UTF-8 failure, later identifiers add nothing. |
| Extractor.JoinedHolds | daddy.py:43-46 | Each block that is reached stands in the output right after the blocks before it. |
| Extractor.BatchBlockStartsWithBanner | daddy.py:45-46 | Every block starts with a blank line, `Processing ID: <n>` and a rule of 50 `=`. |
| Extractor.BatchKeyLineOnly | daddy.py:54-58 | A missing key changes only the key line. The blob and the fields are handled as when the key is found. |
| Extractor.BatchBlobMissing | daddy.py:63-65 | Without a blob, the block is the banner, the key line and the error line, with no `b_` line. |
| Extractor.BatchAbortsOnUtf8 | daddy.py:70-74 | The batch aborts exactly when the blob is found and is base64 but not UTF-8. |
| Extractor.CompleteBatchText | daddy.py:82-95 | A block in which every field is present is its banner, then the record text, then a line break. |
| Extractor.SigMissingBatchText | daddy.py:92-95 | A block whose `b_sig` is missing reads as a record whose signature is `Not`. |
| Extractor.RecordAfterBanner | daddy.py:113-119 | The record text after a banner is matched back to its record. |
| Extractor.GetAndDecodeDataForId | manual_daddy.py:11-84 | The text written and the outcome are those of the single-mode specification. |
| Extractor.SingleSucceedsExactly | manual_daddy.py:33-80 | The function returns `True` exactly when the key, the blob, both decodings and all three fields succeed. |
| Extractor.SingleRaisesExactly | manual_daddy.py:50-54 | The exception escapes exactly when a key is found and the blob is base64 but not UTF-8. |
| Extractor.SingleKeyMissing | manual_daddy.py:36-38 | Without a key, the text stops after `CHANNEL_KEY: Not found` and a blank line, and the function returns `False`. |
| Extractor.SingleStopsAtMissingField | manual_daddy.py:62-78 | A missing field ends the text, so later fields have no effect, and any missing field gives `False`. |
| Extractor.CompleteSingleText | manual_daddy.py:24-35 | A successful text is the banner without a leading blank line, then the record text with a blank line after the key. |
| Extractor.SingleReadBack | manual_daddy.py:99-108 | The record pattern reads exactly one record, the one written, from a successful single-mode text. |
| Synthesizer.GenerateAuthUrls | daddy.py:100-151 | The URL list is the URLs of the records matched in the file, in match order. An unreadable file gives no URL. |
| Synthesizer.UrlFor | daddy.py:128-141 | A record gives a URL if and only if its three values decode. |
| Synthesizer.UrlsOf | daddy.py:122-144 | A match gives at most one URL, and exactly one when its values decode. |
| Synthesizer.UrlsAppend | daddy.py:122-141 | The URLs of consecutive matches are appended in match order. |
| Synthesizer.UrlsOne | daddy.py:128-144 | A single record gives its URL, or nothing when it does not decode. |
| Synthesizer.UrlsComplete | daddy.py:128-144 | There are never more URLs than records, and one URL per record exactly when every record decodes. |
| Synthesizer.DecodeValueOfEncoding | daddy.py:130-132 | A value encoded as UTF-8 and then base64 decodes back to itself. |
| Synthesizer.EncodedValuesUrl | daddy.py:130-139 | The encoded values of a key, a ts, a rnd and a sig give the URL built from those raw values. |
| Synthesizer.PlaceholderSkipped | daddy.py:130-144 | A record whose signature is the placeholder word `Not` gives no URL. |
| Synthesizer.SingleModeUrls | manual_daddy.py:108-127 | The key file of a successful single run gives one URL if and only if the three values decode. |
| Synthesizer.UrlPieceCount | daddy.py:135-139 | The URL splits at `&` into exactly four parts if and only if no inserted value holds `&`. |
| Synthesizer.UrlParameters | daddy.py:135-139 | Without `&` in the values, the four parts are the endpoint with `channel_id=`, then `ts=`, `rnd=` and `sig=`, each followed by its value unescaped. |
| Base64.DecodeEncode | daddy.py:71 | The reference decoder inverts the encoder. |
| Base64.EncodeDecode | daddy.py:71 | Whatever the reference decoder accepts is the encoding of what it returns. |
| Base64.LenientAgrees | daddy.py:71 | On canonical input, the decoder of the source agrees with the RFC 4648 decoder. |
| Base64.LenientDecodesEncode | daddy.py:130-132 | The decoder of the source inverts the encoder. |
| Base64.LenientStopsAtPadding | daddy.py:71 | For a canonical text that ends in `=`, any base64 text after it is ignored: the result is the reference decoding of the first text. |
| Base64.LenientAcceptsDoublePadding | daddy.py:71 | `YQ==YQ==` decodes to the single byte `a`, while the strict decoder rejects it. |
| Base64.LenientUnpadded | daddy.py:71 | Text without `=` is accepted exactly when its length is a multiple of four. One more fails with the data-count message naming the length, and two or three more fail with `Incorrect padding`. |
| Base64.LenientRejectsNot | daddy.py:130-132 | The placeholder `Not` fails with `Incorrect padding`. |
| Utf8.DecodeEncode | daddy.py:71 | Decoding inverts encoding. |
| Utf8.EncodeDecode | daddy.py:71 | Whatever decodes is the encoding of its result. |
| Utf8.DecodeAscii | daddy.py:71 | ASCII bytes decode one character per byte. |
| Utf8.DecodeRejectsBadLead | daddy.py:71 | A sequence that starts with a continuation byte, `C0`, `C1` or a byte above `F4` fails to decode. |
| Text.Strip | manual_daddy.py:199 | `str.strip()` gives a slice with no whitespace at either end, and everything it drops is whitespace. |
| Text.StripIdempotent | manual_daddy.py:199 | Stripping twice is stripping once. |
| Text.ParseInt | manual_daddy.py:203 | `int()` accepts a text exactly when, stripped, it is an optional sign and then digits with single underscores between digits. The value is those digits in base 10, negated after `-`. |
| Text.ParseShowInt | manual_daddy.py:203 | `int()` reads back every number as it is printed. |
| Text.FirstLine | daddy.py:186 | `splitlines()[0]` is a prefix with no line boundary, ended by a boundary or by the end of the text. |
| Probe.StatusLine | daddy.py:186 | The placeholder for empty output. Otherwise the first line of the headers. |
| Probe.BatchVerdict | daddy.py:185-192 | A nonzero exit is a curl failure carrying its code. An exit of 0 fails exactly when the status line is `HTTP/2 403`, and succeeds otherwise. |
| Probe.ManualVerdict | manual_daddy.py:171-175 | A nonzero exit is a curl failure carrying its code. Every exit of 0 is a success with the status line. |
| Probe.Report | daddy.py:185-197 | The verdict line comes first and a rule of 50 `-` comes last. A failure's stream lines stand in between, and only a failure has any. |
| Probe.ManualZeroSucceeds | manual_daddy.py:171-173 | An exit of 0 prints `SUCCESS.` with the status line, then the rule. |
| Probe.VerdictsDiffer | daddy.py:187-188 | The two scripts class a run differently exactly when curl exits with 0 and the status line is `HTTP/2 403`. |
| Probe.Status403Exactly | daddy.py:186-187 | The status line is `HTTP/2 403` exactly when the headers start with it and a line boundary or the end follows. |
| Probe.SilentSuccess | daddy.py:185-190 | An exit of 0 with no output is a success with `No HTTP Status Line` in both scripts. |
| ManualMain.ExitStatus | manual_daddy.py:194-234 | The status is 0 exactly when the run reaches the probe, and 1 otherwise. |
| ManualMain.AfterExtraction | manual_daddy.py:210-231 | The run crashes exactly when extraction raises, and exits after extraction exactly when it returns `False`. A completed run had a successful extraction, a URL and a written URL file. |
| ManualMain.RunManual | manual_daddy.py:197-234 | The steps of the main block give the run's ending. |
| ManualMain.IdChecked | manual_daddy.py:199-206 | The run ends with `NoId` exactly when the stripped input is empty, and with `InvalidId` exactly when `int()` rejects it. |
| ManualMain.ExtractionChecked | manual_daddy.py:210-213 | For a valid ID, the run crashes exactly when extraction raises, and fails exactly when it returns `False`. |
| ManualMain.CompletedHasPassedAll | manual_daddy.py:199-231 | A completed run passed every check, and its URLs are those read back from the key file. |
| ManualMain.CompletePageOneUrl | manual_daddy.py:210-234 | A page with a complete, decodable block leads to exactly that one URL and exit status 0. |
| ManualMain.UndecodableValuesExit | manual_daddy.py:229-231 | A complete block whose values do not decode still counts as extracted, but the run exits because no URL came out. |
| ManualMain.CompletedExactly | manual_daddy.py:199-231 | The run reaches the probe if and only if the ID parses, the request succeeds, every extraction stage succeeds, the values decode and the URL file is written. |

## Left out

- HTTP requests (`requests.get`, `raise_for_status`): the outcome is an input
  value, a page body or a request error with its message.
- File I/O:
  - reading a playlist or key file is an input (`FileRead`);
  - writing the key file produces its text, and the URL generator reads that
    text back unchanged;
  - the result of writing the URL file is a boolean input of the manual run.
- `print` output is not modelled as console output. The collector's error
  lines and the probe's per-URL lines are returned as values. The warnings of
  the URL generator and the start and completion messages are not modelled.
- `input()` and `exit()` are not modelled as I/O. The typed line is a
  parameter, and the way the run ends is a `RunEnd` value.
- The curl subprocess, its header set and the loop over the lines of the URL
  file are not modelled. Only the decision for one finished run and the lines
  it prints are modelled, so neither the `break` when curl is missing nor the
  handler for other exceptions is modelled.
- The `__main__` block of `daddy.py` (lines 211-240) is not modelled. It only
  chains the modelled functions with file names and messages.
- Python's `\d` and `int()` also accept non-ASCII decimal digits. The model
  accepts ASCII digits only.
- The two URL files are not modelled as text. A value that decodes to text
  containing a line break would change how the URL file is read back.
- A combined read-back of a whole batch key file is not proved.
  `Extractor.CompleteBatchText`, `Extractor.SigMissingBatchText` and
  `Extractor.RecordAfterBanner` cover it one block at a time.
- Extractor.BatchBlock, Extractor.SingleBlock, Synthesizer.DecodeValue,
  Synthesizer.Urls and ManualMain.ManualRun are specification functions with
  no `ensures` of their own. Their properties are the lemmas in the table
  above.
