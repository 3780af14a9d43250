# ossx-cli upload core, modelled in Dafny

ossx-cli uploads a local directory tree to an object store. The core of the tool is
`uploadOSS` in `src/upload.ts`. It does the following, in order:

- checks the options;
- picks an uploader for the configured provider (`createUploader`);
- enumerates the target directory;
- builds one file descriptor per entry;
- applies the skip rules: directories, and an optional ignore predicate;
- uploads each file with a bounded retry loop;
- stops early if `abortOnFailure` is set;
- fires the `onStart`, `onProgress` and `onFinish` callbacks.

The Aliyun uploader signs each request (the string to sign and the `OSS <id>:<hmac>`
header) and fires a `PUT` without waiting for it to finish.

The project has these modules:

- `Types`: `Option`, `Result` and the file descriptor `OSSFile`.
- `Utils`: JavaScript values and truthiness, `isNil`, and `combineURLs` (`src/utils.ts`). `combineURLs` is characterised as "trimmed base, exactly one `/`, trimmed relative part", and that join is proved unique.
- `Text`: the string built-ins the core depends on: `split`/`join` with their round trips, the separator replacement they perform, and `encodeURI`.
- `Aliyun`: `AliyunOSSUploader` (`src/providers/aliyun.ts`). Covers the canonical string, the `Authorization` value and a reader that parses it back, the host and object URL, the MIME check, and the request that is fired.
- `Providers`: `createUploader` (`src/providers/index.ts`), a closed dispatch on the provider name.
- `Upload`: `uploadOSS`.
  - What it observably does is a trace of `Event`s plus how the returned promise settles. The functions `Validate`, `Describe`, `RetryFrom`, `LoopFrom` and `UploadRun` define this.
  - The imperative methods follow the source statement by statement and are proved against those functions. `RetryLoop` is the inner `while`, `UploadEntries` is the `for` loop plus `onFinish`, and `UploadOSS` ties them together, calling `Validate` for the prologue and `Describe` for each descriptor.
- `UploadProperties`: what a run promises, as lemmas over the functions above. Covers call counts and attempt numbering, the retry budget, the failure counter, the last error, the skip rules, the order of progress reports, the abort cut-off and the closing callback.

Anything the core reads from outside is an input of the model (`Upload.Env`): the file
system, glob, path functions, MIME tables, the ignore predicate, the custom upload function,
the clock and HMAC-SHA1/base64. `Env.ignore` and `Env.customUpload` are told the entry's
index, and for the upload the attempt number, so their answers can differ between calls.

Three behaviours of the code are easy to miss. The model reproduces each of them:

- The `current` argument of `onProgress` is the entry's position among all enumerated entries. Skipped entries get no report, so their positions are missing from the sequence. An entry whose failure aborts the run reports `total + 1`, because the loop index was already set to `total` (src/upload.ts:128, 142).
- `uploadFile` is called `maxRetry + 1` times both when every attempt throws and when only the last attempt resolves. `UploadProperties.RetryOutcome` and `UploadProperties.RetryUsesWholeBudget` state this.
- A `statSync` that throws, or an ignore predicate that throws, rejects the whole run. `onFinish` is then not called.

The Aliyun `PUT` carries no body (src/providers/aliyun.ts:14-23 passes no data). The file's bytes are never sent, and `Aliyun.HttpRequest` accordingly has no body field.

## Model

| member | source | states |
|---|---|---|
| Utils.IsNil | src/utils.ts:1-3 | true exactly for `null` and `undefined`; a nil value is falsy |
| Utils.Truthy | src/upload.ts:91 | JavaScript truthiness, the value `!pass` negates, BigInt included; `DefinedFalsyValues` pins down which defined values it counts as false |
| Utils.DefinedFalsyValues | src/upload.ts:91 | the predicate answers that skip an entry (`!isNil(v) && !v`) are exactly `false`, `0`, `NaN`, `0n` and `""` |
| Utils.TrimTrailingSlashesIsTrim | src/utils.ts:9 | `replace(/\/+$/, '')` leaves a prefix with no trailing `/` after removing only slashes |
| Utils.TrimLeadingSlashesIsTrim | src/utils.ts:9 | `replace(/^\/+/, '')` leaves a suffix with no leading `/` after removing only slashes |
| Utils.TrailingTrimUnique | src/utils.ts:9 | the trailing-slash trim is determined by its characterisation |
| Utils.LeadingTrimUnique | src/utils.ts:9 | the leading-slash trim is determined by its characterisation |
| Utils.TrimTrailingSlashes | src/utils.ts:9 | `baseURL.replace(/\/+$/, '')`; `TrimTrailingSlashesIsTrim` and `TrailingTrimUnique` characterise its result |
| Utils.TrimLeadingSlashes | src/utils.ts:9 | `relativeURL.replace(/^\/+/, '')`; `TrimLeadingSlashesIsTrim` and `LeadingTrimUnique` characterise its result |
| Utils.CombineURLs | src/utils.ts:8-10 | `combineURLs` itself: the base when the relative part is empty, else the two trims joined by `/`; `CombineURLsIsSlashJoin` and `SlashJoinUnique` characterise its result without its body |
| Utils.CombineURLsIsSlashJoin | src/utils.ts:8-10 | an empty relative part returns the base unchanged; otherwise the result is the trimmed base, exactly one `/` at the junction, then the trimmed relative part as a suffix |
| Utils.SlashJoinUnique | src/utils.ts:9 | at most one string is such a slash join, so `combineURLs` is the only function with that contract |
| Utils.SlashJoinAtUnique | src/utils.ts:9 | a slash join is unique whatever position its junction is placed at |
| Utils.CombineWithOnlySlashes | src/utils.ts:9 | a non-empty relative part made only of `/` gives the trimmed base followed by one `/` |
| Utils.CombineWithEmptyRelative | src/utils.ts:9 | an empty relative part gives the base back, trailing slashes included |
| Utils.TrimmedForms | src/utils.ts:9 | with known trims `b` and `q` of the base and the relative part, the result is `b + "/" + q` |
| Utils.CombineURLsExamples | src/utils.ts:9 | `("a/","/b")`, `("a","b")`, `("a/","b")` and `("a///","///b")` all give `"a/b"` |
| Text.IndexOf | src/upload.ts:77 | the helper `split` cuts at, not JavaScript's `indexOf`: the result is the position of the first occurrence of the separator, or the length when there is none |
| Text.Split | src/upload.ts:77 | `split` always yields at least one part |
| Text.Join | src/upload.ts:77 | `join(sep)`: the parts with one separator between neighbours; `SplitJoin` and `JoinSplit` state that it and `Split` undo each other |
| Text.SplitJoin | src/upload.ts:77 | splitting a join gives the parts back when no part contains the separator |
| Text.JoinSplit | src/upload.ts:77 | joining a split with the same separator gives the string back |
| Text.SplitJoinReplaces | src/upload.ts:77 | `split(sep).join('/')` replaces every separator with `/`, position by position, and changes nothing else |
| Text.UriUnescaped | src/providers/aliyun.ts:16 | the characters `encodeURI` leaves as they are: ASCII letters and digits and `-_.!~*'();/?:@&=+$,#`; `EncodeURIKeepsUnescaped` states that they pass through |
| Text.HexDigit | src/providers/aliyun.ts:16 | the digit for `d` is one of `0`-`9`, `A`-`F` (upper case, as `encodeURI` writes it), reads back as `d`, and is a character `encodeURI` leaves as it is |
| Text.HexValue | src/providers/aliyun.ts:16 | a character is a hex digit (either case) exactly when it has a value, and that value is below 16 |
| Text.PercentDecode | src/providers/aliyun.ts:16 | reading escapes back: a readable string is three characters per byte, each byte below 256 |
| Text.PercentDecodeStep | src/providers/aliyun.ts:16 | the escape written for one byte, in front of a readable string, reads back as that byte |
| Text.PercentDecodeEncode | src/providers/aliyun.ts:16 | every `%XY` escape of the encoding reads back as the byte it stands for, so the escapes are the bytes' values |
| Text.EncodeCharDecodes | src/providers/aliyun.ts:16 | an escaped character reads back as its UTF-8 bytes, and those decode to the character's code point |
| Text.Utf8 | src/providers/aliyun.ts:16 | the UTF-8 form of a character is 1 to 4 bytes, each below 256; `Utf8RoundTrip` states that it is the UTF-8 encoding |
| Text.Utf8RoundTrip | src/providers/aliyun.ts:16 | the bytes `Utf8` gives have the UTF-8 layout (lead byte announcing the length, continuation bytes `10xxxxxx`), are the shortest form for the code point, and decode back to it |
| Text.PercentEncode | src/providers/aliyun.ts:16 | one `%XY` escape per byte; `PercentEncodeSafe` and `PercentDecodeEncode` state its shape and that it reads back to the bytes |
| Text.EncodeChar | src/providers/aliyun.ts:16 | one character of `encodeURI`: kept when unescaped, else the escapes of its UTF-8 bytes; `EncodeCharDecodes` states what the escapes decode to |
| Text.EncodeURI | src/providers/aliyun.ts:16 | `encodeURI` character by character: unescaped characters stay, every other one becomes `%XY` per UTF-8 byte; `EncodeURISafe`, `EncodeURIKeepsUnescaped`, `EncodeURIAppend` and `EncodeCharDecodes` state what it produces |
| Text.PercentEncodeSafe | src/providers/aliyun.ts:16 | percent-encoding gives three URI-safe characters per byte |
| Text.EncodeURISafe | src/providers/aliyun.ts:16 | `encodeURI` output contains only unescaped characters and `%` |
| Text.EncodeURIKeepsUnescaped | src/providers/aliyun.ts:16 | a path made of unescaped characters, `/` included, is unchanged by `encodeURI` |
| Text.EncodeURIAppend | src/providers/aliyun.ts:16 | `encodeURI` of a concatenation is the concatenation of the encodings |
| Aliyun.StringToSign | src/providers/aliyun.ts:28 | the canonical string of `generateSignature`; `StringToSignLayout` and `StringToSignFields` state its five-line layout and that the fields can be read back |
| Aliyun.GenerateSignature | src/providers/aliyun.ts:26-31 | `generateSignature`: `OSS <accessKeyId>:` followed by the HMAC of the canonical string under the secret; `GenerateSignatureParses` states what a server reads from it |
| Aliyun.AuthorizationValue | src/providers/aliyun.ts:30 | the header value `OSS <accessKeyId>:<signature>`; `AuthorizationRoundTrip` states that both parts are read back from it |
| Aliyun.StringToSignLayout | src/providers/aliyun.ts:28 | the string to sign is the five lines `PUT`, empty Content-MD5, MIME type, date, `/bucket/path`, joined by newlines |
| Aliyun.StringToSignFields | src/providers/aliyun.ts:28 | splitting the string to sign at newlines recovers the five fields when none of them contains a newline |
| Aliyun.AuthorizationRoundTrip | src/providers/aliyun.ts:30 | a server parsing `OSS <id>:<signature>` gets the key id and the signature back when the id contains no `:` |
| Aliyun.GenerateSignatureParses | src/providers/aliyun.ts:26-31 | the generated value parses to the provider's key id and the base64 HMAC-SHA1, keyed by the secret, of the string to sign |
| Aliyun.Host | src/providers/aliyun.ts:18 | the Host header `{bucket}.{area}.aliyuncs.com`; `HostHeaderMatchesUrl` states that it is the authority of the object URL |
| Aliyun.ObjectUrl | src/providers/aliyun.ts:16 | the object URL `https://{host}/{encodeURI(remotePath)}`; `HostHeaderMatchesUrl` and `ObjectUrlSegments` state its host and its path |
| Aliyun.HostHeaderMatchesUrl | src/providers/aliyun.ts:16-18 | the Host header equals the authority of the request URL when neither the bucket nor the area contains `/`, `?` or `#`, the characters that end a URL's authority |
| Aliyun.ObjectUrlSegments | src/providers/aliyun.ts:16 | the URL is `https://host/` followed by the encoded path, with each `/`-separated segment encoded on its own |
| Aliyun.UploadFile | src/providers/aliyun.ts:7-24 | throws `No mime type found for file <filename>` exactly when the MIME type is missing or empty, and then fires no request; otherwise fires a `PUT` to the object URL with Host, Date and the file's content type, and resolves whatever the HTTP outcome |
| Aliyun.UploadFileSigned | src/providers/aliyun.ts:13-19 | the request's Authorization header parses to the key id and the HMAC of the string signed over the file's MIME type, bucket and remote path |
| Providers.CreateUploader | src/providers/index.ts:9-20 | succeeds exactly for `aliyun-oss`, `tencent-cloud-cos` and `custom`, with the variant of that name built from the same record; any other name fails with `Unsupported provider: <name>` |
| Providers.CreateUploaderInverse | src/providers/index.ts:10-16 | a record tagged with a variant's own name selects exactly that variant |
| Providers.SshIsUnsupported | src/providers/index.ts:10-19 | there is no SSH branch: an `ssh` record is refused |
| Upload.WorkingDir | src/upload.ts:24 | `options.cwd || process.cwd()`: the configured directory unless it is empty |
| Upload.TargetDir | src/upload.ts:27 | `path.resolve(cwd, options.target)`; `Validate` requires it to exist |
| Upload.IncludePatterns | src/upload.ts:33 | the glob patterns: `includeFiles` when it is an array, else `['**/*']` |
| Upload.IgnorePatternsOf | src/upload.ts:34 | the glob's ignore list: `ignoreFiles` when it is an array, else `undefined`, so a predicate never reaches the glob |
| Upload.Validate | src/upload.ts:12-30 | the checks in source order, each with its message: provider, target, supported provider name, then existence of the target resolved against `cwd` or the process directory; success carries the uploader `createUploader` picked |
| Upload.MaxRetry | src/upload.ts:100 | the retry budget, `retryTimes` when it is a positive integer number, and 0 otherwise, a BigInt too since `Number.isInteger` rejects it; `RetryBudget` and `NoBudgetSingleAttempt` state how many calls it allows |
| Upload.OrUndefined | src/upload.ts:84-85 | `mimeType || undefined` and `contentType || undefined`: an empty lookup result counts as none |
| Upload.NormalizedPath | src/upload.ts:77 | `globFile.split(path.sep).join('/')`; `SplitJoinReplaces` and `RemotePathNormalized` state that every separator becomes `/` |
| Upload.RemotePath | src/upload.ts:78 | `combineURLs(destination, normalized)` when a destination is set, else the normalised path; `RemotePathNormalized` states it |
| Upload.SkipsEntry | src/upload.ts:91 | `!isNil(pass) && !pass`; `DefinedFalsyValues`, `SkippedEntryNeverCalled` and `NilAnswerDoesNotSkip` state which answers skip and what a skip does |
| Upload.Describe | src/upload.ts:65-86 | the descriptor of an entry; `RemotePathNormalized` states its remote path |
| Upload.UploadAttempt | src/upload.ts:104-107 | one `uploadFile` call, dispatched on the uploader; `UploadAttemptCases` states its outcome for each of the three uploaders |
| Upload.RetryFrom | src/upload.ts:97-137 | the retry loop of one entry from a given attempt on; `RetryCalls`, `RetryOutcome`, `RetryRemovals` and `RetryBudget` state its calls, its outcome, its deletion and its budget |
| Upload.LoopFrom | src/upload.ts:63-158 | the main loop from entry `i` on, ending with `onFinish`; `LoopCalls`, `LoopFailCount`, `LoopProgress`, `LoopFinish` and `AbortCutoff` state what it promises |
| Upload.LoopEntry | src/upload.ts:64-95 | one entry of the main loop: a throwing stat or predicate rejects, a directory or a skipping answer moves on, anything else reaches the retry loop; `LoopSkips`, `LoopRejects` and `LoopEntryUploads` state the three cases |
| Upload.AfterRetry | src/upload.ts:122-147 | what follows an entry's retry loop: the failure count, the abort cut-off, the progress report and the rest of the loop; `LoopFromUploads` states it |
| Upload.RunOf | src/upload.ts:21-43 | the fixed data of a checked run: the uploader, the target directory, the entries the glob returns for `IncludePatterns` and `IgnorePatternsOf` under the target directory, and the retry budget |
| Upload.UploadRun | src/upload.ts:11-158 | the observable run: nothing on a failed check, else `onStart` and the main loop; `RejectedBeforeStart` and `RunBounds` state what it promises |
| Upload.RetryStepSucceeds | src/upload.ts:104-120 | a resolving attempt ends the loop with no error, after the optional deletion |
| Upload.RetryStepRetries | src/upload.ts:131-136 | a throwing attempt before the last one pauses and goes on with the next attempt |
| Upload.RetryStepExhausted | src/upload.ts:122-130 | a throwing last attempt ends the loop as a failure with that attempt's error |
| Upload.RetryLoop | src/upload.ts:97-137 | the inner `while` produces `RetryFrom`'s events and last error, adds one to `failCount` exactly when the entry fails for good, and sets `i` to the number of entries when that failure aborts |
| Upload.LoopEnds | src/upload.ts:148-158 | past the last entry the loop has ended: only `onFinish(total, failCount)` follows, and the run resolves |
| Upload.LoopSkips | src/upload.ts:66-95 | a directory, or a file whose predicate answer is defined and falsy, contributes no event, no failure and no change of outcome |
| Upload.LoopRejects | src/upload.ts:66-95 | an entry whose stat or predicate throws rejects the run with the thrown value and no further event |
| Upload.LoopEntryUploads | src/upload.ts:88-102 | an entry that is neither skipped nor rejected goes on to its retry loop |
| Upload.LoopFromUploads | src/upload.ts:97-147 | an uploaded entry contributes its retry events, then its progress report at position `i + 1`, then the rest of the loop from the next index; `i` is the number of entries after an aborting failure |
| Upload.LoopStepUploads | src/upload.ts:97-147 | the same step, continuing a trace that is already under way |
| Upload.UploadEntries | src/upload.ts:63-158 | the `for` loop and `onFinish`, step by step, produce exactly `LoopFrom`'s trace and outcome |
| Upload.UploadOSS | src/upload.ts:11-158 | the whole function produces exactly `UploadRun`'s trace and outcome |
| UploadProperties.CallsRangeAt | src/upload.ts:101-136 | the k-th call in a numbered range is attempt `lo + k` |
| UploadProperties.UploadAttemptCases | src/upload.ts:104-107 | the Aliyun attempt resolves with `undefined` exactly when the MIME check passes, and then it has fired its one signed request whatever that request's outcome; otherwise it throws the MIME error and fires nothing; the Tencent stub resolves without sending; the custom attempt ends as the configured function does |
| UploadProperties.AttemptFiresOnlyRequests | src/upload.ts:104-107 | a call to `uploadFile` makes no other call, progress report, deletion or finish |
| UploadProperties.RetryCalls | src/upload.ts:101-137 | from attempt `a`, the loop makes between 1 and `maxRetry + 1 - a` calls for its own entry, numbered consecutively, and none for any other entry |
| UploadProperties.RetryOutcome | src/upload.ts:101-137 | the entry fails for good exactly when every remaining attempt throws; it then made `maxRetry + 1` attempts and keeps the last attempt's error; otherwise it stops at the first attempt that resolves, and the error is `undefined` |
| UploadProperties.RetryUsesWholeBudget | src/upload.ts:101-137 | all `maxRetry + 1` attempts are made exactly when every attempt before the last throws |
| UploadProperties.RetryBudget | src/upload.ts:100-102 | a positive integer `retryTimes` = n allows 1 to n + 1 calls, all n + 1 being made exactly when the first n throw; any other value allows one |
| UploadProperties.NoBudgetSingleAttempt | src/upload.ts:100 | when `retryTimes` is not a positive integer, the file gets exactly one call |
| UploadProperties.RetryRemovals | src/upload.ts:109-116 | the local file is deleted at most once, and only when an attempt resolved and `removeWhenUploaded` is set |
| UploadProperties.RetryEndsWithRemoval | src/upload.ts:109-120 | the deletion, when there is one, is the last event of the retry loop |
| UploadProperties.RetryQuiet | src/upload.ts:101-137 | the retry loop reports no progress and does not finish the run |
| UploadProperties.LoopCallsOwn | src/upload.ts:97-147 | an uploaded entry's calls are its retry loop's calls, numbered from 0 |
| UploadProperties.LoopCallsOther | src/upload.ts:97-147 | an uploaded entry's step adds no call for any other entry |
| UploadProperties.LoopCallsUploaded | src/upload.ts:63-148 | the call-shape invariant holds from an uploaded entry on |
| UploadProperties.LoopCalls | src/upload.ts:63-148 | every entry gets at most `maxRetry + 1` calls; an entry with any calls is one from the current index that was not skipped, and its calls are numbered 0, 1, ... in order |
| UploadProperties.SkippedEntryNeverCalled | src/upload.ts:66-95 | a directory, or a file skipped by the predicate, never gets an `uploadFile` call |
| UploadProperties.NilAnswerDoesNotSkip | src/upload.ts:88-95 | a `null` or `undefined` predicate answer does not skip: the file is uploaded |
| UploadProperties.LoopFailCountUploaded | src/upload.ts:122-129 | the failure-count bound holds from an uploaded entry on |
| UploadProperties.LoopFailCount | src/upload.ts:122-129 | `failCount` grows by at most one per remaining entry, and by at most one overall under `abortOnFailure` |
| UploadProperties.ProgressStep | src/upload.ts:140-147 | one report at position `next + 1` before reports above it keeps the reports strictly increasing |
| UploadProperties.ProgressAfterUpload | src/upload.ts:140-147 | an uploaded entry's report comes before later reports and keeps them strictly increasing |
| UploadProperties.LoopProgressUploaded | src/upload.ts:140-147 | the progress-order invariant holds from an uploaded entry on |
| UploadProperties.LoopProgress | src/upload.ts:140-147 | the progress reports carry `total`, their `current` values strictly increase and lie between the current index and `total + 1`, and there are none without `onProgress` |
| UploadProperties.FinishCallsUploaded | src/upload.ts:151-158 | an uploaded entry's step calls no `onFinish` of its own |
| UploadProperties.FinishLastUploaded | src/upload.ts:151-158 | an uploaded entry's step leaves the last event of the run unchanged |
| UploadProperties.LoopFinishUploaded | src/upload.ts:151-158 | the finish invariant holds from an uploaded entry on |
| UploadProperties.LoopFinish | src/upload.ts:151-158 | `onFinish(total, failCount)` is called once, as the last event, exactly when the run resolves |
| UploadProperties.EntryProgress | src/upload.ts:97-142 | an uploaded entry's progress report follows its retry loop and carries `undefined` after a success or the last thrown value after a final failure; its `current` is `i + 1`, or `total + 1` after an aborting failure |
| UploadProperties.AbortCutoff | src/upload.ts:126-158 | with `abortOnFailure`, a file that fails for good is followed only by its progress report with `current = total + 1` and by `onFinish`; no later entry gets a call, and the run resolves |
| UploadProperties.RemotePathNormalized | src/upload.ts:77-78 | the remote path replaces every separator with `/`, so none is left when the separator is not `/`, and is `combineURLs(destination, normalized)` when a destination is set |
| UploadProperties.RejectedBeforeStart | src/upload.ts:12-30 | a failed check rejects the run with its message, before `onStart` and before any call |
| UploadProperties.RunBounds | src/upload.ts:50-158 | a checked run first calls `onStart(total)`; `failCount` is at most the number of entries; a resolving run ends with `onFinish(total, failCount)` |

## Left out

- `src/cli.ts`, `src/logger.ts`, `src/config.ts`, `src/parse-args.ts`: console output, the progress bar, logging to files, and config and argument loading. These are I/O wrappers around other libraries and are not part of this model.
- `src/request.ts` and the `setRequestDefault` hook passed to `onStart` (src/upload.ts:48, 52-56): the request object is opaque. A fired request is recorded as an event. Changing its defaults is not modelled.
- `src/providers/ssh.ts`: `createUploader` cannot reach it. `Providers.SshIsUnsupported` states this.
- `src/providers/tencent.ts`: a stub whose upload resolves without doing anything. It is modelled that way, with no signing.
- `src/providers/custom.ts`: pure delegation to the configured `upload` function. That function is the input `Env.customUpload`.
- The glob library, `statSync`, `existsSync`, `rmSync`, `mime-types`, `path` and `Date` are inputs. A glob that fails is not modelled. `onlyFiles` and `dot` are the glob input's business. `existsSync` is taken as given and is not checked to name a directory.
- HMAC-SHA1 and base64 are uninterpreted (`Aliyun.HmacSha1Base64`). `Date#toUTCString` is two clock readings per Aliyun attempt, one for the signature and one for the Date header, as the source reads the clock twice.
- Timing: the 100 ms pause between attempts is the event `RetryDelay`, with no timing attached.
- Overlapping Aliyun requests: `uploadFile` neither awaits nor catches `request.request(...)` (src/providers/aliyun.ts:14-23). Every `PUT` is therefore still in flight while later files are processed. A request that fails becomes an unhandled rejection, which can end the process at some later point, possibly before `onFinish`. The model leaves this out: `RequestFired` is an instantaneous event, and `uploadOSS` always settles as `UploadRun` says.
- Exceptions thrown by `onStart`, `onProgress`, `onFinish` and `rmSync` are caught and discarded in the source. The model records the callbacks as events and lets none of them throw, which gives the same control flow.
- `uploader.onDestroy?.()` (src/upload.ts:161-166): none of the uploaders `createUploader` can return defines it, so nothing happens.
- `isFunction` (imported at src/upload.ts:9, used at 50, 140 and 151): its definition is not part of this model, because src/utils.ts defines only `isNil` and `combineURLs`. The model reads `isFunction(x)` as `typeof x === 'function'`, and `Options.hasOnStart`, `hasOnProgress` and `hasOnFinish` record that answer.
- Numbers: integers are unbounded. Non-integer numbers, `NaN` and the infinities are `OtherNumber`, which `Number.isInteger` rejects, as it rejects a BigInt. Floating point is otherwise left out.
- `encodeURI` is modelled over Unicode scalar values. The `URIError` that a lone surrogate raises is left out.
- Mutation through shared objects is not modelled. The model builds the descriptor once, as a value. In the source, the same `file` object goes to the ignore predicate (src/upload.ts:89), to every `uploadFile` call (src/upload.ts:104-107, handed to user code by the custom uploader), and to `onProgress` (src/upload.ts:142). A callback that assigns one of its fields changes what later attempts, the Aliyun signature and the progress report see.
- `options` is re-read by the source on every iteration: `maxRetry` is recomputed per file (src/upload.ts:100), and `removeWhenUploaded`, `abortOnFailure`, `onProgress` and `onFinish` are read when they are used (src/upload.ts:109, 126, 140, 151). A callback holding `options` could change them partway through a run. The model fixes `Options` and `Run.maxRetry` once per run.
- `Env.ignore` is told the entry's index as well as the descriptor. The source passes only the descriptor. The index only lets the predicate's answers differ from entry to entry.
- UploadProperties.EntryProgress: states "success ⇒ `undefined`, final failure ⇒ the last thrown value" rather than an if-and-only-if, because a thrown value can itself be `undefined`.
- UploadProperties.RetryUsesWholeBudget: `maxRetry + 1` calls are made whenever every attempt before the last throws, whatever the last one does, so using the whole budget does not mean the file failed. This lemma, `RetryOutcome` and `RetryBudget` state when the file fails and when the budget is used up.
