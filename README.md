# Hoststar backup downloader: a Dafny model of `HoststarClient`

`HoststarClient` (src/hoststar.js) logs into the Hoststar customer panel with a
headless browser. It then opens the page that lists the backup runs of a
hosting package, expands each run, and downloads every backup file of each run
that has enough links into a local directory.

This project models that client. Its four pieces are:

- `file_names.dfy` (module `FileNames`): how a download URL becomes a local
  file name and a destination path. JavaScript's one-character `split` is
  modelled as `Split`. `FileName` and `DestFile` are the expression chain of
  `downloadFile`.
- `traversal.dfy` (module `Traversal`): the walk over the backup runs.
  - Each run is a value: does the primary click work, does the in-page
    fallback click work, and what are the `href`s of its links.
  - `WalkRuns` is the loop as a function of these values.
  - `FirstDeadRun` and `Collected` are independent reference definitions.
  - Lemmas connect the loop to the reference definitions: which runs are
    clicked, which links are queued, and where the loop aborts.
- `downloads.dfy` (module `Downloads`): one download task and a pass of tasks.
  - The destination directory is a map from path to file state.
  - The network is a per-URL answer: did the transfer succeed?
  - The code as written (`DownloadFileAsWritten`) and the intended behaviour
    (`DownloadFile`) are both modelled; see "## Findings". A pass
    (`DownloadSeq`) runs either one. The client runs the code as written.
  - Lemmas that hold for both versions take the version as a parameter.
    Those about one version say so: "as written" or "corrected".
- `hoststar.dfy` (module `Hoststar`): the constants and the client class.
  - The class `HoststarClient` has the `loggedIn` flag, whether the browser
    page exists (`hasDriver`), and the trace of everything done through the
    browser and the logger (`events`).
  - Its methods `Initialize`, `Login` and `DownloadBackups` change that state.
    The loops of `downloadBackups` are the methods `HandleRuns` (over the
    runs) and `QueueLinks` (over the links of a run). Both are proved against
    the `Traversal` and `Downloads` functions.

`browser.dfy` (module `Browser`) holds the event type of the trace.

Everything the browser answers is an input to the model:
- the URL shown after navigating to the login page and after submitting the
  form;
- whether each click throws;
- the links of each run.

### Links without an `href`

A link whose `href` is empty is warned about (src/hoststar.js:100-101) and
still queued for download (line 106). `LinkWarnings` emits the warning and
`QueueLinks` queues the empty URL like any other.

## Model

| member | source | states |
|---|---|---|
| FileNames.Split | src/hoststar.js:124 | `split` with a one-character separator gives at least one piece, even for empty text |
| FileNames.SplitPiecesAreFree | src/hoststar.js:124 | no piece of a split contains the separator |
| FileNames.SplitWithoutSep | src/hoststar.js:124 | text without the separator splits into itself alone |
| FileNames.SplitFirst | src/hoststar.js:124 | the first piece (`[0]`) is the prefix of the text up to the first separator |
| FileNames.SplitLast | src/hoststar.js:124 | the last piece (`pop()`) is the suffix of the text after the last separator |
| FileNames.JoinSplit | src/hoststar.js:124 | joining the pieces with the separator gives the text back |
| FileNames.SplitAround | src/hoststar.js:124 | a separator splits the text into the pieces of its left side followed by those of its right side |
| FileNames.SplitJoin | src/hoststar.js:124 | pieces free of the separator survive a join followed by a split |
| FileNames.SplitFirstAfterFreePrefix | src/hoststar.js:124 | a separator-free prefix stays at the front of the first piece |
| FileNames.FileName | src/hoststar.js:124 | the derived file name contains no `/`, `#` or `?` |
| FileNames.FileNameIsCutOfLastSegment | src/hoststar.js:124 | the file name is a prefix of the URL's tail after its last `/`, cut at that tail's first `#` or `?` |
| FileNames.FileNameIgnoresQueryAndFragment | src/hoststar.js:124 | for `prefix/name` followed by a `/`-free query or fragment, the file name is `name` |
| FileNames.FileNameDropsQueryAndFragment | src/hoststar.js:124 | any URL ending in `/backup.tar.gz?token=abc#frag` gives `backup.tar.gz` |
| FileNames.FileNameSlashInQuery | src/hoststar.js:124 | `https://host/f.tar?x=a/b` gives `b`: the cut on `/` comes before the query is removed |
| FileNames.DestFile | src/hoststar.js:125 | the destination is as long as the directory, one separator and the file name together |
| FileNames.DestFileShape | src/hoststar.js:125 | the destination is `destDir + "/"` followed by a `/`-free file name, of exactly that length |
| FileNames.DestFileCollision | src/hoststar.js:125 | two URLs share a destination if and only if they share a file name; nothing else in the URL matters |
| Traversal.Qualifies | src/hoststar.js:96 | a run's links are taken if and only if there are at least 2 of them (`automaticOnly` true, as 1) or at least 1 (false, as 0) |
| Traversal.ClickEvents | src/hoststar.js:81-89 | a run gets one primary click at its index, and a fallback click at the same index only when the primary click throws |
| Traversal.LinkWarnings | src/hoststar.js:99-103 | a run's links give at most one warning each |
| Traversal.LinkWarningsMeaning | src/hoststar.js:99-103 | every warning is "URL not found", and there is none if and only if no link has an empty `href` |
| Traversal.RunStep | src/hoststar.js:78-110 | handling a run aborts the loop if and only if both of its clicks throw |
| Traversal.RunStepOutcome | src/hoststar.js:78-110 | a run whose clicks both throw aborts at its own index and queues nothing; otherwise the loop goes on, with the run's links (if it qualifies) queued after those already queued |
| Traversal.WalkRuns | src/hoststar.js:78-110 | an abort names one of the runs |
| Traversal.FirstDeadRun | src/hoststar.js:81-89 | reference: the first run whose primary and fallback clicks both throw, or the run count |
| Traversal.CollectedMembership | src/hoststar.js:96-106 | reference: a URL is collected if and only if some qualifying run links to it |
| Traversal.AbortIsFinal | src/hoststar.js:81-89 | once the fallback click has thrown, later runs are neither clicked nor queued |
| Traversal.WalkCompletion | src/hoststar.js:81-89 | the loop aborts at the first run whose primary and fallback clicks both throw, and finishes when there is none |
| Traversal.WalkQueued | src/hoststar.js:96-106 | the loop queues exactly the links of the qualifying runs before the first dead run, in page order |
| Traversal.WalkMatchesReference | src/hoststar.js:78-110 | the loop queues the links of the qualifying runs before the first dead run, in page order, and aborts exactly at that run |
| Traversal.QueuedMembership | src/hoststar.js:78-110 | a URL is queued if and only if a qualifying run before the first dead run links to it; empty `href`s included |
| Traversal.ClickTrace | src/hoststar.js:81-89 | every run up to the first dead one gets a primary click; a fallback click with the same index happens if and only if that run's primary click threw |
| Downloads.DownloadFileAsWritten | src/hoststar.js:121-142 | as written: the GET is always sent; the task reports Skipped if and only if the destination existed, and Completed if and only if it did not and the transfer worked; the destination is always rewritten, complete if the transfer worked and partial if not; nothing else on disk changes |
| Downloads.DownloadFile | src/hoststar.js:126-141 | corrected: nothing is fetched if and only if the destination exists (Skipped); otherwise Completed with the file written, or Failed with the disk unchanged |
| Downloads.ExistingBackupIsClobbered | src/hoststar.js:126-132 | as written, a complete backup on disk is reported Skipped, fetched again, and left partial when that fetch fails |
| Downloads.ExistingBackupIsKept | src/hoststar.js:126-129 | corrected: an existing backup is not fetched and stays complete |
| Downloads.FailedTransferLeavesPartialFile | src/hoststar.js:137-140 | as written, a failed transfer leaves a partial file; the next call reports it Skipped yet fetches it again; with only the missing `return` added, the next call would not fetch it |
| Downloads.FailedTransferIsRetried | src/hoststar.js:137-140 | corrected: a failed transfer leaves the disk as it was, so the next call fetches the backup again |
| Downloads.DownloadFacts | src/hoststar.js:126-136 | both versions: Skipped if and only if the destination existed; Completed if and only if it did not and the transfer worked, and then the destination holds a complete file; a skipped destination stays on disk |
| Downloads.DownloadKeys | src/hoststar.js:125-140 | both versions: a task deletes no file and creates at most its destination |
| Downloads.DownloadLeavesOthers | src/hoststar.js:125-140 | both versions: a task leaves every path other than its destination as it was |
| Downloads.DownloadDependsOnDest | src/hoststar.js:125-140 | both versions: a task's status, whether it sends the GET, and what it leaves at its destination depend only on what the disk holds at that destination |
| Downloads.DownloadSeq | src/hoststar.js:106 | one settled status per queued URL, and at most one GET per URL |
| Downloads.PassKeys | src/hoststar.js:106-112 | both versions: a pass deletes no file and creates files only at the destinations of its URLs |
| Downloads.SettledTasksLeaveFiles | src/hoststar.js:126-136 | both versions: every task that did not fail leaves its file on disk |
| Downloads.AllPresentAllSkipped | src/hoststar.js:126-129 | both versions: a pass over files that are all present reports every URL as Skipped; corrected, it also fetches nothing and changes nothing |
| Downloads.WritesKeys | src/hoststar.js:130 | as written: the files a pass writes are exactly the destinations of its URLs |
| Downloads.AsWrittenPassDisk | src/hoststar.js:126-140 | as written: the disk after a pass is the disk before it with every destination overwritten by the outcome of the last transfer to it, whatever it held; nothing else changes |
| Downloads.AsWrittenFetchesEverything | src/hoststar.js:126-132 | as written: a pass sends the GET of every queued URL, in queue order, existing files included |
| Downloads.AsWrittenLeavesEveryFile | src/hoststar.js:130-140 | as written: every destination of a pass is on disk afterwards, failed transfers included |
| Downloads.AsWrittenRerun | src/hoststar.js:126-140 | as written: the same pass again against the same network reports every URL as Skipped, sends every GET again, and ends with the disk as the first pass left it |
| Downloads.DownloadSeqFrame | src/hoststar.js:126-141 | corrected: a pass never removes or rewrites an existing file; it only adds complete files at the destinations of its URLs |
| Downloads.RerunSkipsEverything | src/hoststar.js:126-129 | corrected: after a pass without failures, the same pass again fetches nothing, skips everything and leaves the disk as it is |
| Downloads.TasksAreIndependent | src/hoststar.js:106-112 | both versions: with distinct destinations, each task's status and the file it leaves at its destination are what the task would give alone against the disk before the pass, and every other path is as before; so running the tasks one after another stands for the concurrent fan-out |
| Downloads.FreshPassWritesEveryFile | src/hoststar.js:130-136 | both versions: onto a disk without them, with every transfer succeeding, every task completes and its file is complete |
| Downloads.FreshPassFileCount | src/hoststar.js:125 | both versions: the same pass adds exactly one file per URL when the destinations are distinct |
| Downloads.DistinctNamesDistinctDests | src/hoststar.js:124-125 | URLs with distinct file names have distinct destinations |
| Hoststar.LoginEvents | src/hoststar.js:45-59 | `login` always starts by navigating to the login URL |
| Hoststar.LoginSteps | src/hoststar.js:45-59 | the login page is opened first; credentials are typed and the form submitted if and only if the page is still on the login URL after navigating there; "Login failed." is logged if and only if it is still there after submitting |
| Hoststar.SessionEvents | src/hoststar.js:69-71 | `downloadBackups` does something before opening the backups page if and only if it is not logged in |
| Hoststar.SessionSteps | src/hoststar.js:69-71 | `downloadBackups` logs in if and only if it is not logged in, and its `login` opens the browser page (lines 42-44) if and only if there is none |
| Hoststar.HoststarClient.constructor | src/hoststar.js:6-16 | a new client is not logged in, has no browser page and has done nothing yet |
| Hoststar.HoststarClient.Initialize | src/hoststar.js:21-36 | opens the page on the site's start page and leaves the login flag alone |
| Hoststar.HoststarClient.Login | src/hoststar.js:41-63 | initializes only without a page, then does the login steps; logged in afterwards whether or not the login worked, with the page open |
| Hoststar.HoststarClient.DownloadBackups | src/hoststar.js:68-114 | logs in only when not logged in, opens the backups page, walks the runs as `WalkRuns`, and downloads the queued URLs as the as-written `DownloadSeq`; keeps "logged in implies a page is open" |
| Hoststar.HandleRuns | src/hoststar.js:78-110 | the loop over the runs produces exactly the events, queue and completion of `WalkRuns`, and the as-written downloads of that queue |
| Hoststar.QueueLinks | src/hoststar.js:97-108 | the loop over a run's links warns as `LinkWarnings`, queues every link in order, and extends the pass by exactly the as-written downloads of those links |
| Hoststar.TwoRunsOfThreeGiveSixFiles | src/hoststar.js:78-110 | two clickable runs of three distinctly named links each, `automaticOnly` set, an empty directory and working transfers give six files |
| Hoststar.PassTwice | src/hoststar.js:68-71 | a second pass on the same client does not log in again; it reports every file as Skipped and leaves the disk as the first pass left it, yet sends every GET of the first pass again |
## Left out

- Puppeteer itself (launch, `newPage`, `goto`, `type`, `$eval`, `$$`, `evaluate`, `click`, `close`) is foreign code. Its answers are inputs, and its calls are the events of the trace.
- `Hoststar.HoststarClient.Initialize`: a failing `newPage` (logged, `initialize` returns without a page) is not modelled. Neither is the viewport setting in debug mode.
- `destroy` only closes the browser and is not modelled.
- `randomSleep` and `sleep` only wait, for a random time. They have no effect in the model. This includes the un-awaited call in the link loop.
- `log` and its debug gating only write to the console, so those lines are not events. `logger.error` and `logger.warn` are events.
- The `https.get` stream, `pipe`, `file.close` and the filesystem calls are reduced to two things: a per-URL success answer (`fetchOk`), and a map from path to complete or partial file.
- `Downloads.DownloadSeq`: the tasks run concurrently under `Promise.all` in the source, but here one after another in queue order. `TasksAreIndependent` shows that, for distinct destinations, each status and each destination's final content are what the task gives alone, and nothing else on disk changes. Two tasks racing on one destination are not modelled.
- `Downloads.DownloadFileAsWritten`: the throw of `fs.unlink` is not modelled. It is handed a stream rather than a path, so Node rejects the argument with a TypeError. That throw happens inside the request's 'error' listener, so nothing catches it: it is an uncaught exception that ends the process. The transfers still running are cut off, `logger.error` and `resolve()` are never reached, and `Promise.all` never settles. The model instead reports that task as Failed and lets the other tasks of the pass run to the end.
- `Hoststar.QueueLinks`: an empty `href` is queued like any other URL. Its destination is then the directory path `destDir + "/"`, and `https.get` of an empty URL throws. The model treats it as an ordinary URL whose transfer answer comes from `fetchOk`.
- `Hoststar.HoststarClient.DownloadBackups`: after an abort, the exception leaves the method and `Promise.all` is not awaited. The caller in src/index.js:4-17 does not catch the rejection, and Node ends the process on an unhandled rejection, possibly before the transfers already started have finished. The model assumes they run to the end: the returned pass includes them.
- `Downloads.SettledTasksLeaveFiles`: it states the fact for tasks that did not fail only, because in the corrected version a failed task leaves nothing. For the code as written the stronger fact, that every destination is on disk afterwards, is `AsWrittenLeavesEveryFile`.
- src/index.js only bootstraps. It reads a JSON configuration and spreads it over the defaults. `Config` stands for the result, with `automaticOnly` as a boolean: a non-boolean value from the JSON file is not modelled.

## Findings

| source | as written | input that shows it | evidently intended | confidence | as-written member | corrected member |
|---|---|---|---|---|---|---|
| src/hoststar.js:126-132 | the exists branch calls `resolve()` but does not return, so `createWriteStream` truncates the existing file and the GET is sent anyway | a complete backup already at the destination, and a transfer that fails: reported Skipped, left partial | skip the file: fetch nothing and leave it as it is | high (not executed) | Downloads.ExistingBackupIsClobbered | Downloads.ExistingBackupIsKept |
| src/hoststar.js:137-140 | `fs.unlink(file)` is given the write stream, not the path: the call throws a TypeError inside the 'error' listener, which ends the process, and the partial file is not deleted | a destination not on disk and a transfer that fails: a partial file stays; as written the next pass reports it Skipped yet fetches it again; once the first row's `return` is added, the next pass skips the partial file for good | delete the partial file so that the next pass fetches it again | high (not executed) | Downloads.FailedTransferLeavesPartialFile | Downloads.FailedTransferIsRetried |
