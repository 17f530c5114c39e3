# fig: link extraction and download state, in Dafny

fig is an Electron/Angular desktop application. It collects links to files and
downloads them. This project models the parts of it that decide things:

- how the main process (`app.js`) finds URLs in text or HTML, cleans them,
  asks a HEAD probe whether each one is downloadable, parses inline base64
  images, and chooses where a download goes;
- how the renderer's download services (`electron.service.ts`,
  `download.service.ts`) keep a table of per-file download states, updated by
  the messages the main process sends;
- how the grid cells choose an icon for a URL (`url.renderer.ts`) and turn a
  download state into a stored status and a label (`progress.renderer.ts`);
- how the files page picks file links out of clipboard text
  (`files.component.ts`).

The regular expressions are modelled as character scanners (module
`Patterns`). For each pattern there is a matcher that returns the end of the
match a backtracking JavaScript engine would find at a position, together
with a declarative description of what a match is and a lemma that the
matcher's choice is the one the regex makes (leftmost-first, greedy `\S+`,
lazy `.+?`). `String.prototype.match` with the `g` flag is `Scan`: the
leftmost match, then the next one after its end. JavaScript's `\s` is the
WhiteSpace and LineTerminator set, `\w` is ASCII, and the `i` flag folds ASCII
letters only.

Files:

- `text.dfy` (`Text`): characters, case folding, `indexOf`, `split`, `pop`, and number-to-string conversion.
- `patterns.dfy` (`Patterns`): the three global regexes and the global scan.
- `url_extraction.dfy` (`UrlExtraction`): `cleanUrl`, `extractUrlsFromHtml` and `extractUrlsFromText`.
- `downloadability.dfy` (`Downloadability`): `checkIfDownloadable`, including the `filename=` regex.
- `file_links.dfy` (`FileLinks`): the `extractFileLinksFromText` loop of the main process.
- `download_targets.dfy` (`DownloadTargets`): the per-file decisions of the `download` handler.
- `download_states.dfy` (`DownloadStates`): the download-state table, as one class for both services.
- `url_renderer.dfy` (`UrlRenderer`): the URL cell.
- `progress_renderer.dfy` (`ProgressRenderer`): the status and the label of the progress cell.
- `clipboard_links.dfy` (`ClipboardLinks`): the clipboard link scanner of the files page.

Two places where the code does less than its own comments or a reader would
expect. The model follows the code:

- One might expect a completed download to carry no error. The state update
  is an object spread that keeps `error`, so an entry can be
  `completed` and carry an error at the same time (`ErrorSurvivesCompletion`).
  The progress cell then shows "Completed". A progress report after an error
  also keeps the error, and the cell goes on showing "Error"
  (`ErrorHidesProgress`).
- The comments at app.js:278-284 say the loop checks for base64 images and
  keeps them with their subtype. But `extractUrlsFromText` only yields `src="…"` and
  http(s) tokens, so no item it yields can start with `data:`. The base64
  branch of `extractFileLinksFromText` therefore never runs
  (`ExtractedItemsAreNotInlineImages`), and every link it returns comes from
  the probe (`FileLinksAreProbed`).

## Model

| member | source | states |
|---|---|---|
| Patterns.SrcMatchAtIsTheMatch | app.js:395 | the matcher `SrcMatchAt` returns a match end exactly when `src="`, one or more non-quote characters and a closing quote (any letter case for `src`) match there |
| Patterns.HttpTokenAtIsGreedy | app.js:396 | at a word boundary after `http(s)://`, the matcher `HttpTokenAt` ends the token at the last boundary of the whitespace-free run; no match of `\bhttps?:\/\/\S+\b` at that position ends later, and there is none when it finds none |
| Patterns.ExtensionTokenAtIsGreedy | src/app/components/files/files.component.ts:91 | the matcher `ExtensionTokenAt` finds a match exactly when some dot in the run after the scheme is followed by a listed extension and a boundary; it takes the furthest such dot, as the greedy `\S+` does |
| Patterns.Scan | app.js:397-399 | the global match yields spans in left-to-right order that do not overlap, each a match of the pattern at its start |
| Patterns.ScanTable | app.js:397-399 | over the table of what the pattern gives at each position, the search yields ordered, non-overlapping spans, each a recorded match at its start |
| Patterns.ScanTableMissesNothing | app.js:397-399 | every position where the table records a match lies inside one of the spans the search yields |
| Patterns.ScanMissesNothing | app.js:397-399 | every position where the pattern matches lies inside one of the spans of the global match |
| Patterns.TestMeansSomeMatch | app.js:290 | `regex.test(s)` holds exactly when the pattern matches at some position of `s` |
| UrlExtraction.Cleaned | app.js:369-392 | the result is the prefix of the URL up to, but excluding, the first `?` or `&`, and contains neither character |
| UrlExtraction.CleanUrl | app.js:369-392 | the branches on the two `indexOf` results return the cleaned URL |
| UrlExtraction.CleanedIsIdentityExactly | app.js:389-391 | a URL comes back unchanged exactly when it has no `?` and no `&` |
| UrlExtraction.CleanedIdempotent | app.js:369-392 | cleaning twice is cleaning once |
| UrlExtraction.SrcMatchShape | app.js:395-397 | every src match is `src="` (any case), one or more non-quote characters and a quote |
| UrlExtraction.HttpMatchShape | app.js:396-399 | every http(s) token starts with the scheme (any case), follows the start of the text or a non-word character, has no whitespace and ends in a word character |
| UrlExtraction.ExtractUrlsFromHtml | app.js:394-402 | the result is all src matches, then all http(s) tokens; its length is the sum of the two counts; an undefined or empty input gives no URLs |
| UrlExtraction.ExtractUrlsFromText | app.js:313-319 | each extracted URL is the corresponding raw match cut at its first `?` or `&`; there are as many as raw matches; an undefined or empty text gives none |
| UrlExtraction.ExtractedUrlsKeepTheirPrefix | app.js:313-319 | cleaning never cuts into the prefix: every extracted URL still starts with `src="`, `http://` or `https://` in some letter case |
| Downloadability.LazyCaptureEnd | app.js:340 | the lazy `.+?` stops at the first position after which an optional quote and then `;` or the end of the text follow, staying on one line; there is none when no such position is on that line |
| Downloadability.CaptureFrom | app.js:340 | the capture from a start is the shortest valid filename capture, or there is no valid capture from that start |
| Downloadability.FilenameAt | app.js:340 | a match at a position needs `filename=` (any case) there; the quoted form is tried first; the capture is the shortest valid one; no match means no capture from either start |
| Downloadability.FilenameSearch | app.js:340 | the search returns the leftmost position where the filename regex matches, or none when it matches nowhere |
| Downloadability.FilenameFromDisposition | app.js:340-344 | an extracted name is non-empty, on one line, and has no `;` after its first character; no name means the regex matches nowhere in the header |
| Downloadability.ProbeResult | app.js:321-367 | a failed HEAD request gives `{false, "unknown", "unknown", message}`; otherwise there is no error, the file is downloadable iff the disposition contains `attachment` (`IsAttachment`, app.js:336) or the type is present and starts with neither `text/html` nor `text/plain` (`IsNonTextType`, app.js:350), the type is the content type or "unknown", and the name is the regex capture on an attachment, else "unknown" |
| Downloadability.CheckIfDownloadable | app.js:321-367 | the step-by-step updates of the `fileInfo` record end in the probe result for the HEAD outcome of the URL |
| Downloadability.FilenameFoundAt | app.js:340 | the first position where the regex matches decides the file name |
| Downloadability.QuotedFilename | app.js:340-344 | `attachment; filename="a.zip"` gives the name `a.zip` |
| Downloadability.UnquotedFilename | app.js:340-344 | `attachment; filename=r.pdf; size=3` gives the name `r.pdf` |
| FileLinks.InlineImageMime | app.js:279-281 | the MIME group of `^data:(image\/[a-zA-Z]+);base64,` is found exactly when the item starts with `data:image/`, at least one ASCII letter and `;base64,` |
| FileLinks.InlineImageType | app.js:284 | `split('/')[1]` of the MIME type is the letters after `image/` |
| FileLinks.ClassifyItem | app.js:276-307 | an inline image is kept with its subtype and no file name; otherwise an item that passes the http test is kept iff the probe says downloadable, with the last `/` segment of the type and the probe's file name; everything else is dropped |
| FileLinks.FileLinksAreKeptItemsInOrder | app.js:269-311 | the links are the kept items, at strictly increasing positions, and every item the classification keeps is among them |
| FileLinks.FileLinkMembership | app.js:269-311 | a link is in the result exactly when some item is classified as that link |
| FileLinks.ExtractFileLinksFromText | app.js:269-311 | the loop over the extracted items returns the links of the items it keeps, in order |
| FileLinks.ExtractedItemsAreNotInlineImages | app.js:279 | no item yielded by the text extraction is an inline image |
| FileLinks.FileLinksAreProbed | app.js:290-303 | every returned link passed the http test and the probe, and carries a file name |
| DownloadTargets.ParseImageDataUri | app.js:122-137 | a parse gives a MIME type `image/` + letters and a non-empty single-line payload, and the URL is `data:` + type + `;base64,` + payload |
| DownloadTargets.ParseDataUri | app.js:122-137 | parsing the data URI built from letters and a payload gives back that type and that payload |
| DownloadTargets.ParseImageDataUriExactly | app.js:122-133 | the parse succeeds exactly on URLs of the form `data:image/` + letters + `;base64,` + a non-empty single line |
| DownloadTargets.TargetDirectory | app.js:179-183 | the directory is `customPath` if it is a non-empty string, else `path` if it is one, else the downloads directory |
| DownloadTargets.RemoteFileName | app.js:177 | the file name is the part of the URL after its last `/` (the whole URL if it has none) and contains no `/` |
| DownloadTargets.PlanDownload | app.js:119-185 | a `data:image/` URL that does not parse is answered with `downloadError` and "Invalid base64 image data" for its id; one that parses reaches the file-name step with its subtype and payload, where the undeclared `index` throws, so nothing is written or sent (`ImageNameThrows`); any other URL is fetched to the target directory under the part of the URL after its last `/` |
| DownloadTargets.RejectionIsRecorded | app.js:125-133 | the rejection reply, once received by the renderer, leaves the file at progress 0, not completed, with that error |
| DownloadStates.Merge | src/app/services/electron.service.ts:74 | each field of the merged state comes from the patch when the patch has that key, and from the old state otherwise |
| DownloadStates.Update | src/app/services/download.service.ts:41-53 | after an update the id has an entry, which is the merge of its old entry (or the initial one) with the patch; every other entry is unchanged |
| DownloadStates.ReceiveEffect | src/app/services/download.service.ts:27-37 | for the table after one message (`Receive`, through the patch `PatchFor` picks; also electron.service.ts:30-47): a progress message sets the progress and clears completed, a complete message sets 100 and completed, an error message sets 0, not completed and the message; progress and complete messages keep the error, and an error message replaces it with the message's own; other message types change nothing |
| DownloadStates.ReceiveFrame | src/app/services/download.service.ts:41-53 | a message changes no entry but its own file's, and removes no entry |
| DownloadStates.EntryAfterHistory | src/app/services/download.service.ts:25-53 | after any sequence of messages, an entry's progress and completed flag come from the last recognised message for its file and its error from the last error message for it; an untouched file keeps its entry, or has none |
| DownloadStates.ErrorSurvivesCompletion | src/app/services/download.service.ts:48 | an error followed by a completion leaves the entry `{100, true, error}` |
| DownloadStates.DownloadStateTable.constructor | src/app/services/electron.service.ts:15-16 | the table starts empty, with no subjects |
| DownloadStates.DownloadStateTable.UpdateDownloadState | src/app/services/electron.service.ts:67-79 | the in-place update installs the initial entry and a subject when the id is new, then merges; every id keeps a subject and every subject an entry |
| DownloadStates.DownloadStateTable.OnMessage | src/app/services/electron.service.ts:30-47 | the switch on the message type leaves the table as one received message prescribes |
| DownloadStates.DownloadStateTable.GetDownloadState | src/app/services/electron.service.ts:81-87 | an unknown id gets a subject and the initial entry; a known id's entry is left as it is |
| UrlRenderer.ExtensionClassesAreExclusive | src/app/components/shared/url.renderer.ts:51-69 | each test `IsImageUrl`, `IsDocumentUrl`, `IsMultiMediaUrl`, `IsArchiveUrl` is a dot and one listed extension at the very end, any letter case; no URL passes two of the image, document, multimedia and archive tests |
| UrlRenderer.QueryDefeatsExtension | src/app/components/shared/url.renderer.ts:51-69 | a `?` after the last dot keeps every extension test from holding, since the tests are anchored at the end |
| UrlRenderer.UrlRendererComponent.constructor | src/app/components/shared/url.renderer.ts:27-29 | a new cell is not an image and shows the generic file icon |
| UrlRenderer.UrlRendererComponent.SetIcon | src/app/components/shared/url.renderer.ts:43-49 | the icon is `image` iff the cell is an image; otherwise it is `description`, `movie` or `folder_zip` iff the URL is in that one class, and `insert_drive_file` iff it is in none |
| UrlRenderer.UrlRendererComponent.AgInit | src/app/components/shared/url.renderer.ts:33-37 | the cell keeps its value, is an image iff the URL has an image extension or is an inline base64 image, and gets the icon for that |
| UrlRenderer.UrlRendererComponent.Refresh | src/app/components/shared/url.renderer.ts:39-41 | refresh always answers false |
| UrlRenderer.UrlRendererComponent.OpenImagePreview | src/app/components/shared/url.renderer.ts:71-78 | the preview opens, showing the URL, exactly when the cell is an image |
| UrlRenderer.QueryAfterExtensionIsGeneric | src/app/components/shared/url.renderer.ts:43-69 | `http://h/a.pdf?x=1` gets the generic icon in a cell that is not an image |
| UrlRenderer.UpperCaseExtension | src/app/components/shared/url.renderer.ts:51-69 | `A.JPG` is an image URL and `x.Tar` an archive URL |
| UrlRenderer.Base64UrlIgnoresCase | src/app/components/shared/url.renderer.ts:55-57 | `IsBase64Url` compares `data:image/`, the letters and `;base64,` ignoring case: `Data:Image/PNG;Base64,iV` is an inline image URL |
| UrlRenderer.Base64UrlNeedsSubtype | src/app/components/shared/url.renderer.ts:55-57 | `data:image/;base64,iV` is not an inline image URL |
| ProgressRenderer.StatusOf | src/app/components/shared/progress.renderer.ts:81-85 | the status is Completed iff the download completed, Error iff it did not and has a non-empty error, and Downloading otherwise |
| ProgressRenderer.RowChangesFor | src/app/components/shared/progress.renderer.ts:78-86 | the stored progress is the state's progress, and the stored status is "Completed", "Error" or "Downloading" as the state decides |
| ProgressRenderer.LabelFollowsStatus | src/app/components/shared/progress.renderer.ts:14-19 | the label `Label` starts with "Completed" iff the status is Completed, with "Error: " iff it is Error, and is the percentage iff it is Downloading |
| ProgressRenderer.LabelOfRunningDownload | src/app/components/shared/progress.renderer.ts:19 | a running download without an error is labelled with the decimal digits of its progress and `%`, and the digits read back as the progress |
| ProgressRenderer.StatusAfterMessage | src/app/components/shared/progress.renderer.ts:78-86 | after a complete message the row reads Completed; after an error message it reads Error unless the message is empty; after a progress report it reads Error exactly when an earlier error is kept |
| ProgressRenderer.ErrorHidesProgress | src/app/components/shared/progress.renderer.ts:14-19 | after an error and then a progress report of 40, the row stores 40 and "Error", and the label is the error |
| ClipboardLinks.ExtractFileLinksFromText | src/app/components/files/files.component.ts:90-92 | the result is empty exactly when the pattern matches nowhere in the text |
| ClipboardLinks.FileLinkMatchShape | src/app/components/files/files.component.ts:91 | every match starts with `http://` or `https://` (any case) after the start of the text or a non-word character, has no whitespace after the scheme, ends with `.` and a listed extension (any case), and is followed by the end of the text or a non-word character |
| ClipboardLinks.ClipboardLinksAreFileLinks | src/app/components/files/files.component.ts:91 | every link returned has that shape |

## Left out

- The Electron window, tray and one-second clipboard polling timer (app.js:22-110): operating-system UI and a clock.
- The WebSocket server and clients, `ws.send` and `JSON.parse`: I/O. The model starts from parsed messages, and a reply to send is a value (`DownloadPlan.RejectImage`).
- The HEAD and GET requests (axios): the HEAD probe is a function parameter `head: string -> HeadOutcome`, and a GET is the `Fetch` plan.
- `fs.writeFile`, `createWriteStream`, `pipe`, `path.join` and `app.getPath`: I/O. The downloads directory is a parameter, and the model stops at the chosen directory and file name.
- `Buffer.from(base64Data, "base64")`: the decoding of the payload is not modelled, and the payload is kept as text.
- The name of a saved inline image (app.js:142) uses `Date.now()` and an `index` that is never declared, so the handler throws before anything is written or sent. `DownloadTargets.PlanDownload` models that outcome as `ImageNameThrows` with the extension and payload. The rejected promise, and the directory choice and write that never happen (app.js:143-167), are not modelled.
- `Promise.allSettled`, the concurrent probes and downloads, and the wiring of `scrapeUrls` and `checkLinks` (app.js:213-267): concurrency and logging.
- The RxJS subjects and observables: the table records which ids have a subject, and what they emit is not modelled. The `allDownloadsSubject` notification is left out for the same reason.
- The Dexie `db.fileDownloads.update` call: the model computes the changes handed to it (`RowChangesFor`), not the database.
- `setupDownloadState` and `refresh` of the progress cell: the subscription calls `.then` on the `Observable` that `getDownloadState` returns (progress.renderer.ts:72), so the cell never subscribes as written. Only the mapping in its `next` callback and its template is modelled.
- The files page sends bare URL strings where the main process reads `file.url` (files.component.ts:56, 100). The model takes each side on its own terms and does not join them.
- Message fields of other types: `msg.file` and `msg.progress` are integers in the model. A missing, fractional or non-numeric value, and the string form of object keys, are not modelled.
- Strings are sequences of characters, not UTF-16 code units, so characters outside the Basic Multilingual Plane count as one.
- `cancelToken` messages, transfer speed and progress reporting: the main process has no code for them.
