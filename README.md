# GaleCrater transcoding client, modelled in Dafny

GaleCrater is a Node.js client for Azure Media Services. Given a video file, it does the following:
- obtains an access token;
- makes sure a write access policy exists;
- creates an input asset;
- gets a shared-access (SAS) locator on that asset;
- uploads the file in 4 MiB blocks (Azure Blob Storage Put Block / Put Block List);
- registers the file and submits an encoding job;
- polls the job every five seconds until it has finished;
- obtains a read policy and a streaming locator on the job's output asset, and returns that locator's path.

A `null` from the token request, either policy, the asset, the job, a job poll or the output-asset listing is dereferenced by the next line, and a failed `fetchLocator` rejects; the pipeline catches the exception and returns `null`. A `false` from the upload is tested and also returns `null`. A `false` from the file-info registration is only logged, and the run goes on.

This project models two files: the REST client (`rest.js`) and the pipeline that sequences it (`index.js`).

The network, the file system and the clock are not called. They become canned responses passed in as parameters:
- the listings and creation replies of the service;
- whether each block PUT and the commit are accepted (`nat -> bool` by block index, and a `bool`);
- the file's bytes (`None` when it cannot be read);
- the successive job states;
- the clock readings in milliseconds.

Every operation returns its result together with the trace of requests it sent (`Exchange`). Waits between polls appear in the trace as `Delay` requests. A rejected JavaScript promise is `Outcome.Threw`.

The modules follow the source:

- `MediaTypes`: the service's entities, the request trace, and HTTP replies.
- `Text`: the decimal text JavaScript gives a number (`'' + n`), and the UTF-8 encoding `Buffer.from` applies.
- `Base64`: `Buffer.toString('base64')`, following section 4 of RFC 4648.
- `IsoTime`: `Date.prototype.toISOString`, following the date arithmetic of ECMA-262 (section 21.4.1).
- `RestHelpers`: the helpers of `rest.js`: `getAzureHeaders`, `getMediaServicesTime`, the name and start time of `createLocator`, and `pad`.
- `Locators`: `fetchLocator` (a single scan for the latest valid and the earliest matching locator, eviction, creation) and `deleteLocator`.
- `FetchOrCreate`: `fetchOrCreateAccessPolicy` and `fetchOrCreateAsset`.
- `ChunkedUpload`: `uploadFileChunks` and `uploadFile`.
- `Transcode`: `transcode`, as a method over the mutable `VARS` record (class `Vars`) with its do-while poll loop.

Each imperative operation of the source is a `method`. Its `ensures` ties the result to a specification function, and lemmas prove what the source promises about that function.

## Model

| member | source | states |
|---|---|---|
| Text.DecimalString | rest.js:515 | `'' + n` for a natural number is a non-empty string of decimal digits with no leading zero (except for 0 itself) |
| Text.DecimalStringValue | rest.js:515 | the decimal text of a number reads back as that number |
| Text.DecimalStringInjective | index.js:79 | distinct numbers (clock readings, block indices) give distinct texts |
| Text.Utf8RoundTrip | rest.js:448 | the UTF-8 bytes `Buffer.from(s)` produces decode back to `s` |
| Text.Utf8Injective | rest.js:448 | distinct strings have distinct UTF-8 bytes |
| Text.Utf8Concat | rest.js:448 | the encoding of a concatenation is the concatenation of the encodings |
| Base64.Encode | rest.js:448 | the base64 text has 4·⌈n/3⌉ characters, all from the alphabet or `=` |
| Base64.RoundTrip | rest.js:448 | decoding the base64 text gives back the bytes |
| Base64.EncodeInjective | rest.js:448 | distinct byte strings have distinct base64 texts |
| IsoTime.YearFromDay | rest.js:222 | the year of a day number is the one whose first day is at or before it, with the next year's first day after it |
| IsoTime.FieldsRoundTrip | rest.js:222 | the calendar fields `toISOString` prints recompose to the time value they came from |
| IsoTime.ToISOString | rest.js:222 | `toISOString` yields a text exactly when the time value is within ±8.64·10^15 ms; otherwise it throws |
| IsoTime.ISOStringRoundTrip | rest.js:222 | the text of `toISOString` parses back to the same time value |
| RestHelpers.AzureHeaders | rest.js:45-56 | the headers are exactly the seven named ones, with their fixed values and `Bearer <token>` as Authorization |
| RestHelpers.BearerTokenRecoverable | rest.js:46 | the token can be read back from the Authorization header, so distinct tokens give distinct headers |
| RestHelpers.DotMatchFrom | rest.js:222 | finds the leftmost position where `/\..+/` matches (a dot followed by a character that is not a line terminator), or reports that none exists |
| RestHelpers.MediaServicesTimeDropsMilliseconds | rest.js:221-223 | replacing `/\..+/` by `Z` turns `YYYY-MM-DDTHH:mm:ss.sssZ` into `YYYY-MM-DDTHH:mm:ssZ` |
| RestHelpers.LocatorName | rest.js:235-239 | the name is the given name plus `Uploader` for type 1, plus `Streamer` for type 2, and unchanged for any other type |
| RestHelpers.StartTimeIsFiveMinutesBefore | rest.js:232-233 | the StartTime ends in `Z`, contains no `.`, parses with 0 ms, and denotes now − 300000 ms truncated to the second |
| RestHelpers.Pad | rest.js:514-520 | `pad` prepends zeros up to the length and leaves longer texts alone; the result is all digits and reads back as the number |
| RestHelpers.PaddedLength | rest.js:514-520 | a number below 10^length pads to exactly `length` characters |
| RestHelpers.PaddedInjective | rest.js:514-520 | distinct numbers pad to distinct texts |
| Locators.LatestValid | rest.js:336-343 | the scan's `maxLocator`: a valid match with the greatest expiry in the prefix seen, first listed among equals; none iff no match expires after the valid date |
| Locators.EarliestMatch | rest.js:349-356 | the scan's `minLocator`: a match (valid or not) with the smallest expiry, first listed among equals; none iff nothing matches |
| Locators.LatestValidUnique | rest.js:336-343 | at most one position is the latest valid match |
| Locators.ScanLocators | rest.js:323-358 | the single loop finds both the latest valid match and the earliest match |
| Locators.FetchLocator | rest.js:318-378 | fetchLocator, with the corrected deleteLocator of the rest.js:305 finding, returns the result and request trace of its specification: a reused, evicted-then-created or rejected locator |
| Locators.FetchLocatorDiscrepancy | rest.js:365-370 | fetchLocator as written and as corrected agree when the eviction gets an HTTP status or none is sent; a sent eviction with no response makes the written one reject with nothing created, where the corrected one creates the locator |
| Locators.ReusesLatestValid | rest.js:323-360 | with a valid match listed, the latest valid one is returned, and nothing is deleted or created |
| Locators.EvictsOnlyWhenFull | rest.js:365-370 | a locator is deleted iff no valid match exists, the whole listing holds exactly five locators and one matches; the deleted one is the earliest match |
| Locators.CreatesWhenNoneValid | rest.js:372-377 | without a valid match, a locator for the key is created, named after its type and starting five minutes back; it is returned iff the service returns it |
| Locators.ReturnedLocatorOrigin | rest.js:318-378 | a returned locator is either a listed one that matches and is valid for another day, or the one just created |
| Locators.LocatorRequests | rest.js:318-378 | fetchLocator only lists, deletes, and creates a locator for its own key and type |
| Locators.DeleteLocatorDiscrepancy | rest.js:288-313 | deleteLocator as written and as intended agree on every HTTP status; with no response, the written one throws where the intended one returns false |
| FetchOrCreate.FirstIndex | rest.js:136-140 | the first position whose element passes the test, or none when no element passes |
| FetchOrCreate.FetchOrCreateAccessPolicy | rest.js:133-149 | the scan-then-create loop, comparing `Permissions` as corrected in the rest.js:137 finding, returns the result and trace of its specification: the first listed policy with that name and permissions, else a created one |
| FetchOrCreate.PolicyReused | rest.js:136-140 | with a matching policy listed, the first match is returned and nothing is created |
| FetchOrCreate.PolicyCreated | rest.js:142-148 | without a match, a named policy is created for 1576800 minutes with the requested permissions, and an empty name yields null without creating |
| FetchOrCreate.PolicyIdempotent | rest.js:129-149 | once the created policy is listed, a second call returns it without creating another |
| FetchOrCreate.PolicyAsWrittenNeverReuses | rest.js:137 | the scan as written, on policies listed without a `Type` field, creates a new policy on every call |
| FetchOrCreate.PolicyAsWrittenExample | rest.js:137 | one listed policy with the right name and permissions: the written scan creates another, while the corrected scan reuses it |
| FetchOrCreate.PolicyRequests | rest.js:133-149 | fetchOrCreateAccessPolicy only lists, and creates only the policy it was asked for |
| FetchOrCreate.FetchOrCreateAsset | rest.js:198-216 | the scan-then-create loop returns the result and trace of its specification |
| FetchOrCreate.AssetReused | rest.js:201-207 | the first asset of that name is returned, and nothing is created |
| FetchOrCreate.AssetFailedListingIsEmpty | rest.js:201-215 | a failed listing behaves as an empty one: create when named, null when not |
| FetchOrCreate.AssetIdempotent | rest.js:195-216 | once the created asset is listed, a second call returns it |
| ChunkedUpload.NumBlocksIsCeiling | rest.js:436-440 | the block count is the least number of 4 MiB blocks that covers the file (0 for an empty file) |
| ChunkedUpload.NumBlocksAsWrittenDiscrepancy | rest.js:439 | as written, files of 1, 2, 3 and 4 bytes get 3, 5, 8 and 10 blocks instead of 1; all other sizes agree |
| ChunkedUpload.BlockStartInFile | rest.js:453-457 | every block starts inside the file, and every block but the last is full |
| ChunkedUpload.BlockData | rest.js:453-459 | each slice is non-empty and at most 4 MiB, and exactly 4 MiB unless it is the last |
| ChunkedUpload.BlocksPartitionBuffer | rest.js:445-459 | the blocks laid end to end are exactly the file |
| ChunkedUpload.BlockIds | rest.js:446-451 | the i-th id pushed is the base64 of the UTF-8 bytes of `b-` + the first four characters of the name + `pad(i, 8)` |
| ChunkedUpload.BlockIdsDistinct | rest.js:432-448 | distinct block indices give distinct raw and encoded ids |
| ChunkedUpload.RawBlockIdsSameLength | rest.js:446 | below 10^8 blocks, all raw ids of a file have the same length |
| ChunkedUpload.BlockListRoundTrip | rest.js:482-486 | the commit body names exactly the block ids, in index order |
| ChunkedUpload.CommitBody | rest.js:482-486 | the loop builds the XML header, one `<Latest>` entry per id in order, and the footer |
| ChunkedUpload.UploadFileChunks | rest.js:422-508 | the upload loop, counting ⌈size / 4 MiB⌉ blocks as corrected in the rest.js:439 finding, returns the result and trace of its specification: one Put Block per block, then the block list |
| ChunkedUpload.UploadFile | rest.js:383-417 | uploadFile uploads the read bytes in chunks; an unreadable file gives false |
| ChunkedUpload.UploadSucceedsIff | rest.js:464-507 | the upload returns true iff every block and then the commit are accepted |
| ChunkedUpload.UploadStopsAtFirstRejection | rest.js:474-477 | after the first rejected block, nothing more is sent: no later block and no commit |
| ChunkedUpload.UploadCommits | rest.js:480-502 | with every block accepted, all blocks are sent and then the block list is committed |
| ChunkedUpload.BlockPutsCarryJoined | rest.js:445-478 | the first k Put Block requests carry exactly the first k blocks, in order |
| ChunkedUpload.CompleteUploadSendsFileAndCommitsInOrder | rest.js:445-502 | a completed upload sends the whole file block by block, then one commit whose body parses to all block ids in order |
| ChunkedUpload.UnreadableFileSendsNothing | rest.js:413-416 | an unreadable file sends nothing and yields false |
| ChunkedUpload.UploadRequests | rest.js:422-508 | the upload sends nothing but block PUTs and the block-list PUT |
| Transcode.Vars.constructor | index.js:9-25 | the record starts with empty ids and the standard encoder's processor id |
| Transcode.PollRounds | index.js:138-148 | k rounds are 2k requests alternating a 5000 ms wait and a state query |
| Transcode.PollStopsAtFinished | index.js:138-148 | when the first state 3 is at index k and every earlier reply is readable, the loop ends after k+1 waits and k+1 polls |
| Transcode.PollExample | index.js:138-148 | for the states 1, 2, 2, 3 there are exactly four waits and four polls, each wait before its poll |
| Transcode.PollShape | index.js:138-148 | the loop consumes states up to the first finished or unreadable one, with one wait before every poll, including the first |
| Transcode.PollRequests | index.js:138-148 | polling sends only waits and state queries for its job |
| Transcode.Transcode | index.js:56-88 | transcode, running the corrected fetchLocator, policy scan and block count of the three Findings, updates the record field by field and sends the trace of its specification, returning a path, null, or still polling |
| Transcode.UploadSteps | index.js:87-110 | the write locator, the upload URL `BaseUri + '/' + fileName + ContentAccessComponent`, the upload, and the file registration follow the specification |
| Transcode.JobSteps | index.js:119-148 | the job submission and the do-while poll loop follow the specification |
| Transcode.ReadSteps | index.js:153-174 | the read policy, the output asset and the streaming locator's path follow the specification |
| Transcode.FileInfosReplyIgnored | index.js:109-110 | the run is the same whether file registration succeeds or fails |
| Transcode.UploadFailureEndsRun | index.js:97-102 | a failed upload ends the run with null; no registration, job, poll, read policy or streaming locator is requested |
| Transcode.ContinuesOnlyAfterCompleteUpload | index.js:97-119 | a run that does not end in null read the file, had every block and the commit accepted, and registered and submitted the job on the created asset under the same name |
| Transcode.PathComesFromStreamingLocator | index.js:138-179 | a returned path belongs to a read locator for the read policy and the first output asset, and it comes only after the job reached state 3 |
| Transcode.RequestsFollowStage | index.js:71-167 | a run never looks up assets; it creates only the upload policy (type 2) and the read policy (type 1), a type-1 locator `GaleCraterUploader` on an asset and a type-2 locator `GaleCraterStreamer` |

## Left out

- HTTP transport is not modelled: axios, headers on the wire, status handling inside the request helpers (`getAADAccessToken`, `getAccessPolicies`, `createAccessPolicy`, `getAssets`, `createAsset`, `getLocators`, `createFileInfos`, `createJob`, `monitorJob`, `getOutputAsset`). Each becomes a canned reply: a value, or `None` for null/false.
- createJob: a 2xx reply other than 201 also yields `false`. It is folded into `job == None`.
- Also left out: `getMediaProcessor` (unused), `setupVariables` (configuration), console logging, `REST.log`, and runner.js.
- The file read of `uploadFile` (`fs.readFile`) is an input: the bytes, or `None` when reading fails. The commented-out single-PUT upload is dead code.
- Clocks: `new Date()` readings are parameters. fetchLocator's `validDate` is taken once per call, while the source recomputes it for each listed locator. createLocator's start time (its own `new Date()`) reuses that same reading, so the model does not capture a clock that moves between the scan and the creation.
- Locator expiry dates are integers (milliseconds) in the model. The source parses `ExpirationDateTime` with `new Date(...)`; an unparseable value gives an Invalid Date, whose comparisons are all false, and that case is not modelled.
- Waits: the `delay(5000)` between polls is recorded as a `Delay` request, not timed.
- Locators.FetchLocator: uses the corrected deleteLocator of the rest.js:305 finding, so the eviction's reply is not an input. As written, a sent eviction that gets no HTTP response makes fetchLocator reject before creating a locator; Locators.FetchLocatorAsWrittenSpec models that and Locators.FetchLocatorDiscrepancy relates the two.
- FetchOrCreate.FetchOrCreateAccessPolicy: uses the corrected scan of the rest.js:137 finding (it compares `Permissions`). As written, the source compares a `Type` field that listed policies do not carry, so it never reuses a policy and creates one on every call; FetchOrCreate.PolicyAsWrittenNeverReuses models that.
- ChunkedUpload.UploadFileChunks: uses the corrected block count of the rest.js:439 finding (⌈size / 4 MiB⌉). As written, a file of 1, 2, 3 or 4 bytes is cut into 3, 5, 8 or 10 blocks, all but the first empty, and the source PUTs each empty slice and commits every id; ChunkedUpload.NumBlocksAsWrittenDiscrepancy models the count.
- Transcode.Transcode: runs the corrected fetchLocator, fetchOrCreateAccessPolicy and chunked upload above, so it inherits all three Findings corrections. As written, the pipeline creates a new policy on every run, sends extra empty blocks for 1–4-byte files, and resolves to null when an eviction gets no response.
- Transcode.Transcode: the poll loop is unbounded in the source. The model polls once per canned job state and ends with `Polling` when they run out, so it does not claim termination.
- Transcode.Transcode: `VARS` fields the pipeline does not write (endpoints, credentials, OutputAssetId, StreamingUrl) are not part of `Vars`. The request URLs built from `RESTAPIEndpoint` are not modelled, including the missing `/` before `Jobs` in monitorJob (rest.js:624).
- Text.NumberToString: covers integers only. JavaScript's exponent form for numbers of 10^21 and above, and fractional numbers, are not modelled.
- ChunkedUpload.NamePrefix: `substr(0, 4)` counts UTF-16 code units, and the model counts characters. They differ only for names with characters outside the Basic Multilingual Plane.
- IsoTime.ToISOString: time values are integers, so the NaN time of an invalid Date is not modelled. `toISOString` throws on NaN just as it does on an out-of-range time.
- createLocator's error handler also reads `e.response.status` (rest.js:257). With no response it throws rather than returning null. fetchLocator rejects either way, so the model does not distinguish the two.

## Findings

| source | as written | input that shows it | evidently intended | confidence | as-written member | corrected member |
|---|---|---|---|---|---|---|
| rest.js:439 | `parseInt(fileSize / maxBlockSize, 10) + 1` parses the quotient's text, which is in exponent notation below 10^-6 | a 1-byte file: 1/4194304 prints as `2.384185791015625e-7`, so 3 blocks are counted (5, 8 and 10 for 2, 3 and 4 bytes) | one block, ⌈size / 4194304⌉ in general | high (not executed) | ChunkedUpload.NumBlocksAsWrittenDiscrepancy | ChunkedUpload.NumBlocksIsCeiling |
| rest.js:137 | the scan compares a `Type` field of listed policies, but policies are created with `Permissions` (rest.js:96) | a listed policy `TravUploadPolicy` with Permissions 2 and no `Type` field: a new policy is created on every run | reuse a listed policy with the same name and permissions | medium (not executed; depends on the listing carrying no `Type` field) | FetchOrCreate.PolicyAsWrittenExample | FetchOrCreate.PolicyIdempotent |
| rest.js:305 | the error handler reads `e.response.status`, and `e.response` is undefined when no HTTP response arrived | a delete that fails with a network error: deleteLocator throws, and fetchLocator rejects | return false on any error other than success | high (not executed) | Locators.DeleteLocatorDiscrepancy, Locators.FetchLocatorDiscrepancy | Locators.FetchLocator |
