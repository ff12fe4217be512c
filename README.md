# Archive-Slack-Files: a Dafny model of the fetch-then-process pipeline

The tool lists the files uploaded to a Slack workspace that are older than a
cutoff and, in run-delete mode, downloads each into a folder named after its
channel and then deletes it from the service; otherwise it only reports each
file. This project models the data
pipeline of `app.js` and proves its stop rules, filters and ordering:

- `Directory` (directory.dfy): the `users.list` / `channels.list` handlers that
  fold `{id, name}` entries into an id -> name map (later entries overwrite
  earlier ones), and the lookups of user and channel ids, which may miss.
- `Descriptors` (descriptors.dfy): the descriptor builder inside `getem`, i.e.
  the `filter(channels[0]) / map / filter(permalink)` chain, and the filename
  sanitiser that turns `/`, `\` and `:` into `_`.
- `Paging` (paging.dfy): `getUntil(1, [], 50)` as a loop over the page number
  and the accumulated descriptors. It stops after the first page where the
  total reaches 50 or the page number reaches the page count the latest
  response reported.
- `Processing` (processing.dfy): `deleteFile` per item and `deleteFiles`, which
  pops items from a copy of the list. It handles the last item first and stops
  at the first failure, which it catches once at the top unless the first item
  popped throws before the catch is attached.
- `Archive` (archive.dfy): the top-level chain `Promise.all([getUsers(),
  getChannels()]) -> getFiles -> deleteFiles -> DONE`.
- `Wrappers` (wrappers.dfy): an `Option` datatype.

The network, the file system and the clock are inputs:

- each page response is a value `Listing(pages, files)` or `RequestFailed`, and
  the whole run reads a finite trace of them;
- each directory response is a list of entries or a failure;
- each item's I/O outcome comes from an oracle `fault: nat -> Fault`. It is
  indexed by the item's processing position and says which step fails:
  `NoFault`, `DirFault`, `DownloadFault` or `DeleteFault`. A step fails when its
  promise rejects: `makePromiseRequest` rejects only on a transport error or a
  reply that is not JSON, so a `files.delete` reply of `{"ok": false}` counts as
  `NoFault` and the chain goes on;
- the ISO date prefix is an uninterpreted function `iso: int -> string`.

The effects of processing are a log of `Event`s: the "Downloading" report, the
folder step, the download, "Download complete!", the delete call, and the
caught error.

Three facts about the code shape the model:

- Page 1 is always requested, before any page count is known. A response
  reporting 0 pages still costs one request, so the request bound is
  max(1, P) for a reported count P.
- The first filter tests `file.channels[0]` for truthiness. An entry whose
  first channel id is the empty string is dropped like one with no channels.
  `HasFirstChannel` models that test.
- The first failure while processing stops every remaining item. The error is
  caught once and `DONE` is still printed. The one exception is a missing
  folder on the first item popped: `path.join` throws before the catch is
  attached, and the run ends without `DONE`.

## Model

| member | source | states |
|---|---|---|
| Directory.BuildDirectory | app.js:29-33 | The map's keys are exactly the listed ids. Each id maps to the name of the last entry with that id. The result equals `DirectoryOf(entries)`. |
| Directory.LastEntryWins | app.js:43-47 | If entry k carries an id and no later entry does, the directory holds entry k's name for it: later entries overwrite earlier ones. |
| Directory.AbsentIffNoEntry | app.js:31 | An id has no name exactly when no entry carries it. |
| Directory.Get | app.js:71 | The raw lookup `channels[record.channels[0]]`: a name or nothing; no contract of its own. `BuiltLookups` states its value on a built directory, and `Describe` uses it for the folder. |
| Directory.Lookup | app.js:70 | The name as interpolated into the filename; no contract of its own. `BuiltLookups` states its value on a built directory: the last entry's name, or "undefined" for a missing id. |
| Directory.BuiltLookups | app.js:70-71 | Looking an id up in a built directory gives the name of the last entry listing it, and nothing when no entry lists it. Rendered in the filename, a missing user name becomes the text "undefined". |
| Descriptors.SanitizeAt | app.js:70 | The sanitised string has the input's length, and each character is sanitised on its own. |
| Descriptors.SanitizeIsSafe | app.js:70 | The sanitised string contains no `/`, `\` or `:`. It keeps the length, and every other character stays where it was. |
| Descriptors.SanitizeFixpoint | app.js:70 | Sanitising leaves a string unchanged exactly when it contains no `/`, `\` or `:`. |
| Descriptors.SanitizeIdempotent | app.js:70 | Sanitising twice gives the same string as sanitising once. |
| Descriptors.SafeChar | app.js:70 | The per-character rule of the replace: the result is never `/`, `\` or `:`. `SanitizeAt` states that the sanitiser applies it to every character. |
| Descriptors.Sanitize | app.js:70 | The global replace of `/`, `\` and `:` by `_`; no contract of its own. `SanitizeAt`, `SanitizeIsSafe`, `SanitizeFixpoint` and `SanitizeIdempotent` state what it does. |
| Descriptors.RawFileName | app.js:70 | The template literal `<iso> - <user> - <name>` before sanitising; no contract of its own. `Describe` states that the filename is its sanitised form, character by character. |
| Descriptors.Describe | app.js:68-75 | The folder is the raw channel lookup of the entry's first channel id, absent when the channel is unknown. The permalink and id are copied. Character i of the filename is character i of `<iso> - <user> - <name>` with `/`, `\` and `:` replaced by `_`. |
| Descriptors.WithChannel | app.js:67 | Every entry that passes the first filter has a truthy first channel id. |
| Descriptors.HasFirstChannel | app.js:67 | The filter callback `file => file.channels[0]`: a first channel id that is not the empty string; no contract of its own. `WithChannel` and `BuildPageIsSelection` state that exactly the entries passing it survive the first filter. |
| Descriptors.DescribeAll | app.js:68-75 | The `.map` of each surviving entry to its descriptor; no contract of its own. `BuildPageIsSelection` and `SelectedIsOrderedSubsequence` state that descriptor k describes the k-th surviving entry. |
| Descriptors.WithPermalink | app.js:76 | The last filter, on a non-empty download link; no contract of its own. `BuildPageIsSelection` and `BuildPageFacts` state what it keeps. |
| Descriptors.BuildPage | app.js:66-76 | The whole filter/map/filter chain; no contract of its own. `BuildPageIsSelection`, `SelectedLength`, `SelectedIsOrderedSubsequence` and `BuildPageFacts` state what it returns. |
| Descriptors.BuildPageIsSelection | app.js:66-76 | The filter/map/filter chain equals a one-pass selection. It keeps exactly the entries with a truthy first channel and a non-empty download link, in their order, and describes each. |
| Descriptors.SelectedLength | app.js:66-76 | The output is shorter than the page by exactly the number of dropped entries. |
| Descriptors.SelectedIsOrderedSubsequence | app.js:66-76 | Descriptor k describes entry idx[k], which survives the filters. The indices strictly increase, and every surviving entry's index appears. |
| Descriptors.BuildPageFacts | app.js:66-76 | The builder never grows a page. Every descriptor has a non-empty link and describes some surviving entry of the page. |
| Paging.GetFiles | app.js:77-87 | Pages are requested as 1, 2, 3, ... and page 1 is always requested. On every earlier page the stop rule failed. A collected result means the rule holds at the last page, and the result is the concatenation of the pages' descriptors. A failed page request ends the run at that page. |
| Paging.AccumulatedPrefix | app.js:80 | Pages are only appended: the descriptors of pages 1..m are a prefix of those of pages 1..n when m <= n. |
| Paging.AccumulatedLength | app.js:80-82 | Nothing is truncated. The result holds every kept entry of every page, so it may exceed 50. |
| Paging.RequestsBounded | app.js:81 | If every response reports at most P pages, a run requests at most max(1, P) pages. |
| Paging.StopsWithinReportedPages | app.js:63-81 | If the first max(1, P) pages are listed and report at most P pages, the stop rule holds at page max(1, P). |
| Paging.RunsToReportedCount | app.js:77-87 | If every response reports exactly P >= 1 pages and pages 1..P-1 stay under the target, the run continues through pages 1..P-1 and stops at page P. |
| Paging.CollectsAtUnique | app.js:79-84 | The rule is checked after every page, so a run can stop with its candidates at one page only. |
| Paging.NoCollectAfterFailure | app.js:78-79 | A failed request for a page the run reaches rejects `getUntil`: no page count can then end the run with candidates. |
| Paging.NoCollectPastTrace | app.js:79-85 | If the run goes on past every page of the trace, it collects at no page of it. |
| Paging.OutcomeDecides | app.js:77-87 | What the paginator returns decides the run: a collected result is the only page count at which it collects; a failed request is the first one the run reaches; a run past the trace continued through all of it. |
| Processing.DeleteFile | app.js:90-118 | The corrected step (see ## Findings): a missing folder makes `path.join` throw before anything is reported. Otherwise the item is reported first, and a dry run does nothing more. The chain resolves exactly when the folder is known and, in run-delete mode, no step fails; the error is the path error or the failing step. |
| Processing.DeleteFileSequencing | app.js:97-117 | The corrected step (see ## Findings): the delete call is issued exactly when the folder and download steps succeeded. It comes after "Download complete!" and at no other position. A failing step is the last event issued, and the item is reported only once. |
| Processing.DeleteFileAsWritten | app.js:90-108 | Models the source's wiring, in which the download step resolves at once. A missing folder still throws first; after that only a folder or delete failure stops the chain. |
| Processing.AsWrittenDeletesAfterFailedDownload | app.js:107 | As written, a failed download is still followed by the remote delete, and the chain goes on. The corrected step does neither. |
| Processing.AsWrittenAgreesWithoutDownloadFault | app.js:97-117 | When the download does not fail, the as-written and the corrected step behave identically. |
| Processing.ReversedAt | app.js:123 | `pop()` order: position i of the processing order holds the item i places from the end of the list. |
| Processing.Drain | app.js:122-128 | `next()`; no contract of its own. `DrainCompletes`, `DrainStopsAtFirstFailure`, `DrainDryRun`, `DrainFailureAfter`, `DrainDeletesFollowDownloads` and `DrainHasNoWhoopsie` state what it does. |
| Processing.DrainDryRun | app.js:90-96 | In a dry run only reports happen: no folder, download or delete call. The only possible failure is a missing folder. When every folder is known, every item is reported, last to first, and the chain does not fail. |
| Processing.DrainCompletes | app.js:120-128 | When every item's chain succeeds, the log is exactly each item's own effects, in reverse list order, and no failure is reported. |
| Processing.DrainStopsAtFirstFailure | app.js:127 | If the j-th handled item is the first to fail, its failure and cause are reported. The log is exactly the effects of the last j + 1 items, last to first; nothing happens for the rest. |
| Processing.DrainFailureAfter | app.js:122-127 | A failure reported by the chain from position k is at position k or later. |
| Processing.Report | app.js:129 | The `.catch` around the first `next()`, and the throw that escapes it; no contract of its own. `ReportThrows` and `ReportWhoopsieLast` state its outcomes. |
| Processing.ReportThrows | app.js:120-130 | `deleteFiles` throws, instead of resolving, exactly when the last item of the list, the first one popped, has no folder. |
| Processing.ReportWhoopsieLast | app.js:129 | A caught error is reported once, as the last event of the output. |
| Processing.DrainDeletesFollowDownloads | app.js:97-117 | In the whole log, each delete call comes right after the same file's folder step, download and "Download complete!". |
| Processing.DrainHasNoWhoopsie | app.js:129 | The chain itself never reports an error; only the catch at the top does. |
| Processing.RunChain | app.js:120-128 | Pops from a copy of the caller's array, which is only read, until it is empty or an item fails. Its log and failure are exactly those of `Drain`. |
| Processing.DeleteFiles | app.js:120-130 | Runs the chain and settles as `Report` does. It throws exactly when the first item popped has no folder; otherwise the log is the drained chain followed by the caught error, if any, reported at most once as the last event. |
| Archive.RunArchive | app.js:147-150 | A failed directory request ends the run before any file is touched, and only then. With both directories, the run reaches the processor exactly when the paginator collects at some page n, with page count n and the pages' candidates. Otherwise it stops at the first failed page request that every earlier page continued past, or the trace runs out. `DONE` follows unless the processor throws. |
| Archive.ProcessCandidates | app.js:149 | Hands the candidates to the processor as an array; the outcome is `Report` of the candidates, and it throws exactly when the last candidate has no folder. |

## Findings

| source | as written | input that shows it | evidently intended | confidence | as-written member | corrected member |
|---|---|---|---|---|---|---|
| app.js:107 | `.on('close', res())` calls `res()` while the argument is evaluated, so the download promise resolves before the transfer ends; `.on('close', undefined)` then throws a TypeError inside the executor, which the resolved promise ignores; a later write-stream `error` calls `rej` on a settled promise and is lost | run-delete, an item whose download fails (`DownloadFault`): the delete call for that file is still issued and the next item is processed (`AsWrittenDeletesAfterFailedDownload`) | resolve when the write stream closes; a failed download stops the chain before the remote delete | high (not executed) | Processing.DeleteFileAsWritten | Processing.DeleteFile |

## Left out

- HTTP and JSON: `makePromiseRequest`, the four Slack endpoints, their form fields (token, `count: 500`, `count: 50`, `exclude_members`) and JSON parsing. Responses are input values, and a failed request (network error or bad JSON) is one `RequestFailed`/`ListFailed` value. So is a well-formed error reply such as `{"ok": false}`: the handlers read `data.channels`, `data.members` and `data.paging.pages` (lines 31, 45, 63), which throw on it and reject the chain.
- File system: `fs.ensureDir`, `createWriteStream`/`pipe` and `path.join`. Each becomes one abstract event with an outcome from the fault oracle. The destination directory and the joined path are not modelled; the events carry the folder and the descriptor.
- Stream events: the download is one step with one outcome. What happens to bytes written after the promise has resolved is not modelled. The `error` listener at line 106 sits on the write stream that `pipe` returns; `pipe` does not forward errors of the request stream, so a network failure during the download is an uncaught `error` event that ends the process. `DownloadFault` and the finding above cover write-side failures only.
- Clock and dates: `Date.now()`, the `ts_to` cutoff sent to the service, and `toISOString().slice(0,-5)`. The formatter is the parameter `iso`. The cutoff only filters on the service side, so nothing the model checks depends on it.
- Command-line parsing (`yargs`, lines 132-145): the run-delete flag is a plain boolean parameter.
- Console output other than the events above, including the "Fetching page" progress line; Promise asynchrony (every step is awaited in order, so the model is sequential).
- `Promise.all` at line 147 issues both directory requests together and fails if either fails. The model builds the users map, then the channels map, and reports `DirectoryFailed` if either response failed.
- JavaScript coercions: a missing user id reads as the text "undefined" through `Lookup`, because the template literal at line 70 renders it. A missing channel id leaves the folder `undefined` (the `None` folder), and `path.join` at line 91 throws on it. An absent download link is the empty string. A list element that is itself falsy (which would stop `next()` early) cannot occur, because descriptors are objects.
- Paging.GetFiles: the live service may answer forever, so the JavaScript loop need not terminate. The model reads a finite trace of responses and ends with `OutOfTrace` (`TraceTooShort` at the top) when it requests a page past the trace. `RequestsBounded` and `StopsWithinReportedPages` give the trace length that is always enough.
- Paging.GetFiles: `getUntil`'s `count` argument is fixed to the constant `Target` (50), as the only call passes it. The initial `maxPages = 1` (line 50) is not modelled, because every response overwrites it (line 63) before it is read (line 81).
- Processing.DeleteFiles: runs the corrected download step `DeleteFile`, which resolves only when the transfer has ended, not the as-written `DeleteFileAsWritten`. For the source's own behaviour on a failed download, see the finding above.
- Archive.RunArchive: runs `DeleteFiles`, and so the corrected download step; with the as-written step, a failed download would not stop the processor.
- The error message printed by the catch (`e.message`) is not modelled; the `Whoopsie` event carries the failing position and cause instead.
