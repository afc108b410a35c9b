# wonitor core, modelled in Dafny

wonitor tracks a list of URLs. A monitor pass re-fetches each one, reduces
the response to a canonical byte string (the *snapshot*), compares it with
the stored snapshot, prints or writes a unified diff when they differ, and
with `--save` stores the new snapshot. This project models the sequential
logic of `main.go`:

- `flags.dfy` — the mode bit set `Bits` (a `uint8`) with `Set`, `Clear`,
  `Toggle`, `Has` and the one flag `MODE_HEADERS_ONLY`.
- `normalize.dfy` — `minifyResponse`: the status line, the whitelisted
  headers in whitelist order (Content-Length dropped in headers-only mode),
  then a blank line and at most `RESPONSE_BODY_LIMIT` (3 MiB) body bytes
  unless headers-only. The header loop is a method with a loop invariant,
  proved equal to the specification function `Minified`.
- `differ.dfy` — `Abs`, the byte delta, the decision to reformat JavaScript,
  and `beautifyJs` (split at the first blank line, reformat the tail, fall
  back to the input). The reformatter (`jsbeautifier.Beautify`) and the
  unified-diff generator (`difflib`) are function parameters about which
  nothing is assumed; the reformatter returns `None` where it reports an error.
- `store.dfy` — the badger database as a class holding a map from URL to
  `Record(mode, snapshot)` (the user-meta byte and the value): `addUrl` for
  one URL and for a batch of lines, `removeUrl`, `getUrl`, and the
  compare-and-persist step of `retrieveAndCompare`.
- `bytes.dfy`, `wrappers.dfy` — byte strings, `strings.Index` and
  `strings.Contains`, `Option` and `Result`.

Go strings inside a response (protocol, status, header names and values) and
byte slices are both sequences of bytes, so the model writes them as `Bytes`.
Store keys are URLs and stay `string`.

The model follows the code as written, including these behaviours a user
might not expect:

- Re-adding a tracked URL writes an empty value with the new mode byte
  (main.go:73, 86), so it clears the stored snapshot.
- `getUrl` prints the stored value as it is (main.go:134), an empty line for
  a URL that has no snapshot yet.
- When a diff goes to a file (main.go:203-209) only the diff text is written,
  without the byte-delta line.
- The save at main.go:271 writes the new snapshot without the mode byte, so
  the record's flags become 0. `Store.EndpointStore.RetrieveAndCompare` does
  the same; see Findings for the consequence and the corrected step.

## Model

| member | source | states |
|---|---|---|
| Flags.Set | main.go:53 | every bit of the flag is set afterwards, every other bit is unchanged |
| Flags.Clear | main.go:54 | every bit of the flag is clear afterwards, every other bit is unchanged |
| Flags.Toggle | main.go:55 | the flag's bits are inverted, every other bit is unchanged |
| Flags.HasSharedBit | main.go:56 | `Has` is true exactly when some bit position among the eight is set both in the byte and in the flag |
| Flags.ModeFor | main.go:60-64 | the mode byte of an add has the headers-only flag exactly when headers-only was asked, and no other bit |
| Flags.SetThenHas | main.go:53-56 | after setting a non-zero flag, `Has` reports it |
| Flags.ClearThenNotHas | main.go:54-56 | after clearing a flag, `Has` does not report it |
| Flags.ToggleInvolution | main.go:55 | toggling the same flag twice gives back the original byte |
| Flags.OtherFlagsUnaffected | main.go:53-56 | set, clear and toggle leave a disjoint flag's answer unchanged |
| Bytes.Index | main.go:168 | the first position at which the pattern occurs (where `strings.SplitN` splits); None iff it occurs nowhere |
| Bytes.Contains | main.go:261 | `strings.Contains`: true exactly when the pattern occurs at some position |
| Normalize.BodyPart | main.go:232-237 | the copied body is a prefix of the body, at most 3 MiB, the whole body when it fits and exactly 3 MiB otherwise |
| Normalize.AppendHeaderLines | main.go:221-230 | the loop appends exactly the header lines of the emitted headers of the list, in list order |
| Normalize.MinifyResponse | main.go:214-240 | the bytes built equal the specification `Minified`: status line, emitted header lines, then blank line and limited body unless headers-only |
| Normalize.EmittedExactly | main.go:221-230 | a header is written iff it is whitelisted, has a non-empty value and is not Content-Length in headers-only mode, and its line carries that value |
| Normalize.EmittedSplit | main.go:221-230 | the headers written for a list are those of its first part followed by those of its second part |
| Normalize.LinesInListOrder | main.go:221-230 | for any list, when its i-th and j-th names (i < j) are both written, the i-th line occurs before the j-th line |
| Normalize.LinesInWhitelistOrder | main.go:31-47 | the header lines follow the whitelist order, not the response order |
| Normalize.ContentLengthOnlyInFullMode | main.go:222-224 | a Content-Length line is written iff not headers-only and the header is non-empty |
| Normalize.EmittedDependsOnlyOnNames | main.go:221-230 | two header maps that agree on the listed names produce the same written headers |
| Normalize.MinifiedIgnoresOtherHeaders | main.go:221-230 | headers outside the whitelist never change the snapshot |
| Normalize.StartsWithStatusLine | main.go:219 | every snapshot begins with "proto status\n" |
| Normalize.HeadersOnlyShape | main.go:221-238 | headers-only: the snapshot ends after the last header line, has no Content-Length line or empty value, and no body byte changes it |
| Normalize.FullShape | main.go:232-237 | full mode: header part, "\n", then the body truncated to 3 MiB, a prefix of the body and all of it when it fits |
| Normalize.HeadersOnlyLinesShorter | main.go:221-230 | the headers-only header lines are never longer than the full-mode ones |
| Normalize.HeadersOnlyShorter | main.go:221-238 | a headers-only snapshot is strictly shorter than the full snapshot of the same response |
| Normalize.WhitelistHasNoLF | main.go:31-47 | no whitelisted name contains a line feed |
| Normalize.JoinLinesNonEmpty | main.go:228 | header lines of names and values without line feeds contain no blank line |
| Normalize.HeaderPartHasNoBlankLine | main.go:219-230 | for a parsed response, the status and header part ends in "\n" and contains no "\n\n" |
| Differ.Abs | main.go:159-164 | the result is x or -x and never negative |
| Differ.ByteDelta | main.go:183 | the delta is the difference of the two lengths taken in the non-negative direction |
| Differ.ByteDeltaSymmetric | main.go:183 | the delta does not depend on which snapshot is old |
| Differ.ByteDeltaExample | main.go:183 | snapshots of 100 and 130 bytes are 30 bytes apart either way |
| Differ.SplitAtBlankLine | main.go:168-172 | no split iff there is no "\n\n"; otherwise the input is head + "\n\n" + tail with no "\n\n" starting inside the head |
| Differ.BeautifyJs | main.go:166-180 | an input without "\n\n" comes back unchanged; a changed result keeps the input up to and including the first "\n\n" |
| Differ.BeautifyJsKeepsHead | main.go:166-180 | for a head that has no blank line and does not end in "\n" (so the first "\n\n" follows it directly), the result is head + "\n\n" + reformatted tail, or the input when reformatting fails |
| Differ.BeautifyJsFallback | main.go:174-177 | a reformatter that always fails leaves every input unchanged |
| Differ.ShouldBeautify | main.go:261-265 | reformat iff requested and the Content-Type value contains "javascript" |
| Differ.HandleDiff | main.go:182-197 | the delta comes from the snapshots as stored; the diff is of the reformatted texts iff reformatting was decided |
| Differ.DeltaIgnoresBeautify | main.go:183-188 | the delta is the same with and without reformatting |
| Differ.BeautifyReformatsOnlyBody | main.go:166-180 | on the full snapshot of a parsed response (no line feed in protocol, status or header values), reformatting keeps the status and header lines and the blank line verbatim and replaces only the body |
| Differ.BeautifyKeepsHeadersOnly | main.go:168-172 | the headers-only snapshot of a parsed response (no line feed in protocol, status or header values) has no blank line, so reformatting returns it unchanged |
| Store.Fresh | main.go:60-87 | an added record has an empty snapshot and the headers-only flag exactly when asked |
| Store.AddAllSpec | main.go:68-82 | a batch add maps every line to the fresh record, keeps all other URLs, and the keys become the old keys plus the lines |
| Store.AfterCompare | main.go:257-277 | corrected step: equal snapshots or no save leave the store as it was; otherwise the URL maps to the new snapshot with its mode kept and no other key changes |
| Store.AfterCompareAsWritten | main.go:257-277 | as written: equal snapshots or no save leave the store as it was; otherwise the URL maps to the new snapshot with mode byte 0, at most that key is added and no other key changes |
| Store.SecondPassQuiet | main.go:257-277 | after a saving pass, the record keeps its mode and a second pass over the same response finds no change |
| Store.AsWrittenSecondPassReportsChange | main.go:269-272 | as written, a headers-only URL loses its flag on the first save and the next pass always finds a change |
| Store.HeadersOnlyStoresNoBody | main.go:251-272 | for a headers-only record, the body of the response never affects what a saving pass stores, as written and in the corrected step |
| Store.EndpointStore.AddUrl | main.go:84-87 | the URL maps to the fresh record, other URLs are unchanged, the count grows by one iff the URL was new |
| Store.EndpointStore.AddUrls | main.go:68-82 | the store becomes the batch-add result of the lines in order |
| Store.EndpointStore.RemoveUrl | main.go:91-95 | exactly that URL is removed, absent or not; the count drops by one iff it was present |
| Store.EndpointStore.GetUrl | main.go:126-137 | the stored snapshot when the URL is tracked, NotFound otherwise |
| Store.EndpointStore.RetrieveAndCompare | main.go:242-278 | a failed fetch changes nothing; otherwise a diff is produced iff the snapshots differ, it is `HandleDiff` of the two snapshots, and the store becomes `AfterCompareAsWritten` (mode byte 0 on save) |
| Store.AddThenRemove | main_test.go:64-84 | an empty store counts 0 URLs, 1 after one add, 0 after removing it; the tests call `addUrl` with three arguments against a four-parameter declaration (main.go:58), so the member states their evident intent, `useStdin` and `headersOnly` both false |
| Store.Lifecycle | main.go:126-137 | a fresh URL reads back empty, after a saving pass exactly the new snapshot, after delete NotFound |
| Store.MonitorTwice | main.go:257-277 | two saving passes over the same response: the first reports a change; the second reports none iff the URL was added without headers-only |

## Findings

| source | as written | input that shows it | evidently intended | confidence | as-written member | corrected member |
|---|---|---|---|---|---|---|
| main.go:269-272 | the save uses `tx.Set(url, bodyNew)`, which writes the entry with user-meta byte 0, dropping `MODE_HEADERS_ONLY` | `add --url U --headersOnly`, then `monitor --save` twice with an unchanged response: the first pass stores the headers-only snapshot with meta 0, the second normalises the full response and reports a change again | the record keeps its mode byte (`WithMeta(mode)`), so a repeated pass is quiet | medium, not executed (relies on badger's `Set` writing meta 0) | `Store.AfterCompareAsWritten`, `Store.AsWrittenSecondPassReportsChange` | `Store.AfterCompare`, `Store.SecondPassQuiet` |

`Store.EndpointStore.RetrieveAndCompare` and `Store.MonitorTwice` follow main.go:271 as written. `Store.AfterCompare` and `Store.SecondPassQuiet` are the corrected definition and its idempotence.

## Left out

- `retrieve` (main.go:139-157): the HTTP client, TLS policy, timeout and redirect handling. The fetch result is a parameter: `None` for an error, otherwise protocol, status, header map and body bytes.
- `monitor` (main.go:280-317): goroutines, the worker semaphore, the wait group and writes made while a badger iterator is open. Each dispatched unit is modelled as one sequential `RetrieveAndCompare` call on the record it was given.
- `list`, `initDb`, `main` and the CLI wiring (main.go:97-124, 319-439): printing, opening the database and flag parsing.
- Console output of the store commands: the `+ <url>` line `addUrl` prints for each added URL (main.go:79, 84) and the line `getUrl` prints (main.go:134).
- Output rendering in `handleDiff` (main.go:199-210): console printing, file writes, timestamps and `slug.Make`.
- `Header.Get` canonicalises names and returns the first of several values (net/textproto is not part of this model). The header map is keyed by the whitelist's spelling and holds one value per name.
- The body is the bytes the body reader yields. A read error part-way through (ignored by `io.Copy` at main.go:236) is not modelled separately.
- Line splitting of standard input by `bufio.Scanner` (line endings, the 64 KiB token limit) is not modelled. The batch add receives the lines.
- badger's own failures are not modelled: key validation, transaction size limits, conflicts, value-copy errors, and the logged persist error at main.go:274-276. The store is a map whose writes always succeed. In particular an empty line on standard input is an empty key, which badger rejects; main.go:74-76 then returns the error and the whole batch transaction stores nothing, whereas `Store.EndpointStore.AddUrls` stores every line, including the key "".
- Store.EndpointStore.GetUrl: returns the snapshot instead of printing it.
- Differ.HandleDiff: the unified-diff text is whatever the `unified` parameter returns; hunk structure and the 3 lines of context are not modelled.
- Differ.BeautifyJs: the reformatter is an arbitrary function; its output is not constrained.
