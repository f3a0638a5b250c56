# HtmlIndexFiles, modelled in Dafny

`HtmlIndexFiles` is Lucene's command-line demo that indexes a directory of
HTML files. `main` does the following:

- scans its arguments for `-index INDEX_PATH`, `-docs DOCS_PATH` and `-update`;
- stops with a usage message when no docs path was given, and stops when the docs path cannot be read;
- opens an `IndexWriter` in CREATE mode, or in CREATE_OR_APPEND mode when `-update` is given;
- hands the docs path to `indexDocs`;
- closes the writer.

`indexDocs` either walks a directory or indexes a single file. For each file,
`indexDoc` parses the HTML and builds a document with three fields:

- `path`: the file's path;
- `modified`: its last-modified time;
- `contents`: the title, a newline, then the body.

It then submits the document by the open mode:

- in CREATE mode it adds the document;
- otherwise it updates by the exact path, replacing any earlier document with that path.

In a directory walk, a failure on one file is swallowed and the walk goes on.
For a single file, the same failure reaches `main`. `main` reports it and does
not close the writer.

The model has six modules, one file each:

- `wrappers.dfy` (`Wrappers`): `Option`, which stands for Java's nullable references.
- `records.dfy` (`Records`): the document built for a file (`BuildRecord`) and the `contents` text (`ComposeContents`).
  - `SplitContents` cuts at the first newline. It is the inverse of `ComposeContents` for a title with no newline.
  - Java's `+` turns a null title or body into the four letters `null`; the model follows the code (`JavaText`).
- `store.dfy` (`IndexStore`): the index as an abstract sequence of records.
  - Lucene's three open modes, and the mode `main` selects (`SelectMode`).
  - The effect of `addDocument` (append) and of `updateDocument` keyed by `path` (`Replaced`: remove every record with that path, then append).
  - The `Writer` class: it holds the store in a field that its `AddDocument`, `UpdateDocument` and `Close` methods update.
- `command_line.dfy` (`CommandLine`): the argument loop as the method `ParseArgs`. It is proved equal to the specification `Scan`, which has two steps:
  - `Tokenize` groups the arguments the way the loop consumes them. A flag that takes a value swallows the next argument, and a value flag with nothing after it gives `Dangling`.
  - `Settings` reads the configuration off the groups: the last `-index`, the last `-docs`, and whether any `-update` occurred.
  - The `ArrayIndexOutOfBoundsException` the loop raises is the explicit result `OutOfBounds(i + 1)`.
- `ingest.dfy` (`Ingest`): `indexDoc` and `indexDocs` as methods over a `Writer`, each proved against a specification function: `IndexDocSpec`, and `WalkSpec`/`IngestSpec`.
  - The HTML parser is a function parameter (`parse`) that returns a title and body, or a failure.
  - A file whose stream cannot be opened has no content.
  - The directory walk is the sequence of events `Files.walkFileTree` produces: files handed to `visitFile`, or entries it could not read.
  - A directory walk builds `Built(items)`, the records of the files that read and parse, in walk order.
- `driver.dfy` (`Driver`): `main` as the method `Run`, proved against `RunSpec`.
  - The file system, the existing indexes and the index locations that cannot be opened are an explicit `Env` value.
  - Each way a run can end is an `Outcome`.
  - A small end-to-end scenario: an index created from two files, then updated after one of them changed.

## Model

| member | source | states |
|---|---|---|
| CommandLine.ParseArgs | lucene/demo/src/java/org/apache/lucene/demo/HtmlIndexFiles.java:40-52 | The scan loop, starting from the defaults `"index"`, null and `true`, returns exactly `Scan(args)`: the configuration of the grouped arguments, or the out-of-range index. |
| CommandLine.NoFlagsGiveDefaults | lucene/demo/src/java/org/apache/lucene/demo/HtmlIndexFiles.java:40-42 | Arguments with no flag among them give index path `"index"`, no docs path, and `create`. |
| CommandLine.RenderTokenize | lucene/demo/src/java/org/apache/lucene/demo/HtmlIndexFiles.java:48-52 | A complete grouping accounts for every argument, in order, and an argument passed over is never a flag. |
| CommandLine.TokenizeRender | lucene/demo/src/java/org/apache/lucene/demo/HtmlIndexFiles.java:48-52 | Conversely, the arguments of any such grouping group back into that grouping. |
| CommandLine.TokenizeConcat | lucene/demo/src/java/org/apache/lucene/demo/HtmlIndexFiles.java:48-52 | After a prefix that groups completely, the scan of the rest goes on as if the rest stood alone; a dangling position is shifted by the prefix length. |
| CommandLine.ValueStep | lucene/demo/src/java/org/apache/lucene/demo/HtmlIndexFiles.java:49-50 | One loop step over `-index X` or `-docs X`: both arguments are consumed and only `indexPath` or only `docsPath` becomes `X`. |
| CommandLine.SingleStep | lucene/demo/src/java/org/apache/lucene/demo/HtmlIndexFiles.java:51 | One loop step over any other argument: `-update` clears `create`, anything else changes nothing. |
| CommandLine.SettingsSnoc | lucene/demo/src/java/org/apache/lucene/demo/HtmlIndexFiles.java:49-51 | One more group changes only the setting its flag names. |
| CommandLine.DanglingIff | lucene/demo/src/java/org/apache/lucene/demo/HtmlIndexFiles.java:49-50 | The scan reads past the end if and only if the last argument is `-index` or `-docs` and the arguments before it group completely; the flag's position is then the last one. |
| CommandLine.DanglingAt | lucene/demo/src/java/org/apache/lucene/demo/HtmlIndexFiles.java:49-50 | A dangling flag is the last argument, takes a value, and follows a complete grouping. |
| CommandLine.DanglingLast | lucene/demo/src/java/org/apache/lucene/demo/HtmlIndexFiles.java:49-50 | A value flag after a complete grouping dangles at its own position. |
| CommandLine.LaterIndexWins | lucene/demo/src/java/org/apache/lucene/demo/HtmlIndexFiles.java:49 | `-index x` followed by no further `-index` selects `x`, whatever came before. |
| CommandLine.LaterDocsWins | lucene/demo/src/java/org/apache/lucene/demo/HtmlIndexFiles.java:50 | `-docs x` followed by no further `-docs` selects `x`, whatever came before. |
| CommandLine.UpdateClearsCreate | lucene/demo/src/java/org/apache/lucene/demo/HtmlIndexFiles.java:51 | `-update`, read as a flag anywhere, turns `create` off. |
| CommandLine.UnrecognisedIgnored | lucene/demo/src/java/org/apache/lucene/demo/HtmlIndexFiles.java:48-52 | Inserting an unrecognised argument where a flag may stand does not change whether the scan succeeds, nor the configuration it yields. |
| CommandLine.SettingsSkipIgnored | lucene/demo/src/java/org/apache/lucene/demo/HtmlIndexFiles.java:48-52 | An argument passed over contributes nothing to the configuration. |
| CommandLine.ValueIsNotAFlag | lucene/demo/src/java/org/apache/lucene/demo/HtmlIndexFiles.java:49-51 | A value is consumed, never read as a flag: `-docs -update` sets the docs path to `-update` and keeps `create`. |
| Records.ComposeThenSplit | lucene/demo/src/java/org/apache/lucene/demo/HtmlIndexFiles.java:127-129 | The title (if it has no newline) and the body are recovered exactly from the `contents` text. |
| Records.SplitThenCompose | lucene/demo/src/java/org/apache/lucene/demo/HtmlIndexFiles.java:127-129 | Every text with a newline is the composition of its title part and body part. |
| Records.SplitContents | lucene/demo/src/java/org/apache/lucene/demo/HtmlIndexFiles.java:128 | The title part of a `contents` text has no newline. |
| Records.FirstNewline | lucene/demo/src/java/org/apache/lucene/demo/HtmlIndexFiles.java:128 | The position where the title ends: no newline before it, a newline at it unless it is the end. |
| Records.BuildRecordFields | lucene/demo/src/java/org/apache/lucene/demo/HtmlIndexFiles.java:122-129 | The document has the file's path and the given last-modified time, and its contents give back exactly the parser's title and body. |
| Records.BuildRecordNullTitle | lucene/demo/src/java/org/apache/lucene/demo/HtmlIndexFiles.java:127-129 | A null title is indexed as the text `null` before the newline. |
| Records.ComposeHelloWorld | lucene/demo/src/java/org/apache/lucene/demo/HtmlIndexFiles.java:128 | Title `Hello` and body `World` give `Hello\nWorld`. |
| IndexStore.SelectMode | lucene/demo/src/java/org/apache/lucene/demo/HtmlIndexFiles.java:73-74 | `create` gives CREATE, its absence CREATE_OR_APPEND; APPEND is never chosen. |
| IndexStore.RecordsAtWithoutPath | lucene/demo/src/java/org/apache/lucene/demo/HtmlIndexFiles.java:141 | Deleting by a path removes every record with that path and keeps every other path's records. |
| IndexStore.WithoutPathTwice | lucene/demo/src/java/org/apache/lucene/demo/HtmlIndexFiles.java:141 | Deleting by the same path twice is deleting once. |
| IndexStore.ReplacedRecordsAt | lucene/demo/src/java/org/apache/lucene/demo/HtmlIndexFiles.java:136-142 | After an update, exactly one record has the new record's path and it is the new record; other paths keep exactly their records. |
| IndexStore.ReplacedIdempotent | lucene/demo/src/java/org/apache/lucene/demo/HtmlIndexFiles.java:136-142 | Submitting the same record twice by update gives the same store as submitting it once. |
| IndexStore.ReplacedKeepsUnique | lucene/demo/src/java/org/apache/lucene/demo/HtmlIndexFiles.java:136-142 | Updates keep every path keyed by at most one record. |
| IndexStore.SubmitCreate | lucene/demo/src/java/org/apache/lucene/demo/HtmlIndexFiles.java:131-134 | In CREATE mode a submission grows the store by one, keeps every earlier record in place and puts the new one last. |
| IndexStore.SubmitUpdate | lucene/demo/src/java/org/apache/lucene/demo/HtmlIndexFiles.java:131-142 | In either non-CREATE mode a submission replaces the records with the same path and never duplicates them. |
| IndexStore.Writer.constructor | lucene/demo/src/java/org/apache/lucene/demo/HtmlIndexFiles.java:77 | A new writer has the configured mode, the mode's initial store, and is open. |
| IndexStore.Writer.AddDocument | lucene/demo/src/java/org/apache/lucene/demo/HtmlIndexFiles.java:134 | The record is appended to the store. |
| IndexStore.Writer.UpdateDocument | lucene/demo/src/java/org/apache/lucene/demo/HtmlIndexFiles.java:141 | The records with the key path are removed and the record is appended. |
| IndexStore.Writer.Close | lucene/demo/src/java/org/apache/lucene/demo/HtmlIndexFiles.java:79 | The writer is closed and its records stay as they were. |
| Ingest.IndexDoc | lucene/demo/src/java/org/apache/lucene/demo/HtmlIndexFiles.java:109-144 | Reading or parsing can fail, and then nothing is submitted. Otherwise the built record is added (CREATE) or updated by its path (other modes), and the writer's store becomes `IndexDocSpec`'s. |
| Ingest.IndexDocs | lucene/demo/src/java/org/apache/lucene/demo/HtmlIndexFiles.java:91-106 | The walk loop or the single-file call leaves the writer holding exactly `IngestSpec`'s store, and reports whether an exception escaped. |
| Ingest.CreateVisit | lucene/demo/src/java/org/apache/lucene/demo/HtmlIndexFiles.java:131-134 | In CREATE mode a visited file appends the record it yields, if any. |
| Ingest.UpdateVisit | lucene/demo/src/java/org/apache/lucene/demo/HtmlIndexFiles.java:136-142 | In update mode a visited file gives its path its new record, if it yields one; every other path keeps what it had. |
| Ingest.WalkCreate | lucene/demo/src/java/org/apache/lucene/demo/HtmlIndexFiles.java:93-101 | A CREATE walk that reaches every file completes, keeps the earlier store and appends, in walk order, the records of exactly the files that read and parse. |
| Ingest.WalkUpdate | lucene/demo/src/java/org/apache/lucene/demo/HtmlIndexFiles.java:93-101 | An update walk completes; each path ends with the last record built for it, or exactly its earlier records when no file built one. |
| Ingest.WalkUpdateUnique | lucene/demo/src/java/org/apache/lucene/demo/HtmlIndexFiles.java:136-142 | An update walk keeps paths unique. |
| Ingest.WalkUpdateTwice | lucene/demo/src/java/org/apache/lucene/demo/HtmlIndexFiles.java:136-142 | Running the same update walk twice leaves every path with the records it had after the first run. |
| Ingest.WalkEscapes | lucene/demo/src/java/org/apache/lucene/demo/HtmlIndexFiles.java:93-101 | An entry the walk cannot read ends it: the exception escapes there, with the store the earlier entries left. |
| Ingest.BuiltSkipsFailure | lucene/demo/src/java/org/apache/lucene/demo/HtmlIndexFiles.java:97-98 | A file that fails contributes nothing, and the files around it still contribute theirs. |
| Ingest.BuiltAllExtracted | lucene/demo/src/java/org/apache/lucene/demo/HtmlIndexFiles.java:95-99 | When every file reads and parses, the i-th record built is the i-th file's. |
| Ingest.IsolatedFailure | lucene/demo/src/java/org/apache/lucene/demo/HtmlIndexFiles.java:95-99 | In CREATE mode, of K files of which only one fails, the walk completes with K - 1 new records after the earlier ones. |
| Driver.Run | lucene/demo/src/java/org/apache/lucene/demo/HtmlIndexFiles.java:39-88 | `main` ends exactly as `RunSpec` says: scan, usage check, readability check, open, index, then close only when nothing escaped. |
| Driver.RunOutOfBounds | lucene/demo/src/java/org/apache/lucene/demo/HtmlIndexFiles.java:48-52 | A run fails on the argument bounds if and only if its last argument is a value flag read as a flag; the reported index is one past the end. |
| Driver.RunFatal | lucene/demo/src/java/org/apache/lucene/demo/HtmlIndexFiles.java:54-63 | The usage error occurs if and only if no docs path was set, and the input-path error if and only if one was set but cannot be read. Both end the run before the writer is opened. |
| Driver.RunMode | lucene/demo/src/java/org/apache/lucene/demo/HtmlIndexFiles.java:73-74 | A finished run used the scanned index path and CREATE or CREATE_OR_APPEND by `create`, never APPEND. |
| Driver.RunSingleFileFailure | lucene/demo/src/java/org/apache/lucene/demo/HtmlIndexFiles.java:77-87 | When the docs path is a single file that cannot be read or parsed, the exception from line 104 reaches `main`, which reports it after opening the writer and does not close it. |
| Driver.RunCreateDirectory | lucene/demo/src/java/org/apache/lucene/demo/HtmlIndexFiles.java:73-79 | A CREATE run over a directory finishes with exactly the records of the files that read and parse, in walk order, whatever the index held before. |
| Driver.RunUpdateDirectory | lucene/demo/src/java/org/apache/lucene/demo/HtmlIndexFiles.java:73-79 | An update run over a directory finishes; each path holds the last record built for it, or the records the existing index had for it. |
| Driver.ScenarioRecords | lucene/demo/src/java/org/apache/lucene/demo/HtmlIndexFiles.java:122-129 | The scenario's three files give records with contents `A\none`, `B\ntwo` and `A\nONE`. |
| Driver.ScenarioCreate | lucene/demo/src/java/org/apache/lucene/demo/HtmlIndexFiles.java:39-101 | `-docs docs` over `a.html` and `b.html` creates index `index` with their two records, in walk order. |
| Driver.ScenarioUpdateScan | lucene/demo/src/java/org/apache/lucene/demo/HtmlIndexFiles.java:48-52 | `-update -docs docs` selects docs path `docs`, index `index` and no `create`. |
| Driver.ScenarioReplacements | lucene/demo/src/java/org/apache/lucene/demo/HtmlIndexFiles.java:136-142 | Updating with the changed `a.html` removes its old record and appends the new one. |
| Driver.ScenarioUpdateWalk | lucene/demo/src/java/org/apache/lucene/demo/HtmlIndexFiles.java:93-101 | Walking the changed directory over the first index leaves one record per file, with `a.html` now holding `A\nONE`. |
| Driver.ScenarioUpdate | lucene/demo/src/java/org/apache/lucene/demo/HtmlIndexFiles.java:39-101 | The update run finishes in CREATE_OR_APPEND mode with two records, `a.html`'s carrying its new contents. |

## Left out

- File system access (`Files.isReadable`, `Files.isDirectory`, `Files.newInputStream`, `FSDirectory.open`) is given as the `Env` value and the `FileEntry` contents. The model checks readability as membership of the docs path in `Env.files`; permissions and symbolic links are not modelled.
- `Files.walkFileTree`: how it traverses and in what order is left out. The walk is a given sequence of events, in whatever order the file system supplies.
- `DemoHTMLParser` and `TrecContentSource` are foreign library code. The parser is the function parameter `parse`. Any `IOException` from it counts as a failure of that file.
- Lucene's internals are left out: `StandardAnalyzer` tokenization, field types and which fields are stored, segments, merging, commit and locking. The index is only the sequence of submitted records.
- Failures of `addDocument`, `updateDocument` or `close` are left out; opening the index fails only for the locations listed in `Env.unopenable`.
- A failing `Files.getLastModifiedTime` in the single-file branch is not modelled separately. It would escape to `main` in the same way as a failing read, which the model does cover: the `Outcome` is `IOErrorReported(true)`.
- APPEND mode's own failure on a missing index is left out: `main` never selects APPEND.
- Runtime exceptions other than the argument-bounds one are left out (an invalid path string for `Paths.get`, or a runtime failure inside the parser).
- Printing, the elapsed-time report and `System.exit` are outcome tags (`UsageError`, `InputPathError`, `IOErrorReported`, `Done`). The exception's message is left out.
- The model does not tie a walk entry's path to the docs path it was reached from, nor a single file's `FileEntry` path to `Paths.get(docsPath).toString()`. Each entry carries the path the program would key its record by, and the scenario uses paths relative to `docs`, as walking `Paths.get("docs")` yields them.
- `lastModified` is a Java `long` and is an unbounded `int` here. The program only stores it, so no width matters.
- The uncaught exception from the scan is the outcome `ArgumentOutOfBounds`, carrying the index that was out of range. The stack trace and exit status are left out.
