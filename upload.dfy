/** `uploadOSS` of src/upload.ts: validation, enumeration, one descriptor per entry, the skip
    rules, the bounded retry loop with abort-on-failure, and the lifecycle callbacks, recorded
    as a trace of events. Everything the source reads from outside (file system, glob, MIME
    tables, the ignore predicate, the custom upload function, the clock, HMAC) is an input. */
module Upload {
  import opened Types
  import opened Utils
  import opened Text
  import Aliyun
  import opened Providers

  /** What `ignoreFiles` holds: nothing usable, an array of glob patterns, or a function. */
  datatype IgnoreFiles = NoIgnore | IgnorePatterns(patterns: seq<string>) | IgnorePredicate

  /** The options `uploadOSS` reads. An empty string stands for a missing (or empty, hence
      falsy) string option; `includeFiles` is `None` when it is not an array; the `has...`
      flags say whether each callback is a function. */
  datatype Options = Options(
    provider: Option<ProviderConfig>,
    target: string,
    cwd: string,
    destination: string,
    includeFiles: Option<seq<string>>,
    ignoreFiles: IgnoreFiles,
    removeWhenUploaded: bool,
    abortOnFailure: bool,
    retryTimes: JsValue,
    hasOnStart: bool,
    hasOnProgress: bool,
    hasOnFinish: bool)

  /** How a call into code outside the core ended. */
  datatype Call = Returned(value: JsValue) | Threw(error: JsValue)

  /** What `fs.statSync` reports for an entry. */
  datatype Stat = Directory | NotDirectory | StatThrew(error: JsValue)

  /** The world outside the core. The ignore predicate is asked with the entry's index and
      descriptor, the custom upload function and the clock with the entry's index and the
      attempt number; the clock gives the two readings one Aliyun attempt makes. */
  datatype Env = Env(
    processCwd: string,
    resolve: (string, string) -> string,
    existsSync: string -> bool,
    glob: (seq<string>, Option<seq<string>>, string) -> seq<string>,
    join: (string, string) -> string,
    sep: char,
    stat: string -> Stat,
    basename: string -> string,
    mimeLookup: string -> Option<string>,
    contentTypeOf: string -> Option<string>,
    ignore: (nat, OSSFile) -> Call,
    customUpload: (nat, nat) -> Call,
    clock: (nat, nat) -> (string, string),
    hmac: Aliyun.HmacSha1Base64)

  /** What an observer of one run sees, in order: the callbacks, each `uploadFile` call, the
      requests fired by it, deletions and the back-off pauses between attempts. */
  datatype Event =
    | Started(total: nat)
    | UploadCalled(index: nat, attempt: nat, file: OSSFile)
    | RequestFired(request: Aliyun.HttpRequest)
    | Removed(path: string)
    | RetryDelay(index: nat, attempt: nat)
    | Progress(file: OSSFile, current: nat, total: nat, error: JsValue)
    | Finished(total: nat, failCount: nat)

  /** How the promise returned by `uploadOSS` settles. */
  datatype RunOutcome = Resolved | Rejected(error: JsValue)

  function WorkingDir(o: Options, env: Env): string {
    if o.cwd != "" then o.cwd else env.processCwd
  }

  function TargetDir(o: Options, env: Env): string {
    env.resolve(WorkingDir(o, env), o.target)
  }

  /** The checks made before anything else, in the source's order, with their messages. */
  function Validate(o: Options, env: Env): (r: Result<Uploader>)
    ensures r.Success? <==>
      o.provider.Some? && o.target != "" && CreateUploader(o.provider.value).Success? && env.existsSync(TargetDir(o, env))
    ensures o.provider.None? ==> r == Failure("Provider is required")
    ensures o.provider.Some? && o.target == "" ==> r == Failure("Target directory is required")
    ensures o.provider.Some? && o.target != "" && !IsSupportedName(o.provider.value.name) ==>
      r == Failure("Unsupported provider: " + o.provider.value.name)
    ensures o.provider.Some? && o.target != "" && IsSupportedName(o.provider.value.name) && !env.existsSync(TargetDir(o, env)) ==>
      r == Failure("Target directory does not exist: " + TargetDir(o, env))
    ensures r.Success? ==> r == CreateUploader(o.provider.value)
  {
    if o.provider.None? then Failure("Provider is required")
    else if o.target == "" then Failure("Target directory is required")
    else
      match CreateUploader(o.provider.value)
      case Failure(e) => Failure(e)
      case Success(u) =>
        if !env.existsSync(TargetDir(o, env)) then Failure("Target directory does not exist: " + TargetDir(o, env))
        else Success(u)
  }

  function IncludePatterns(o: Options): seq<string> {
    match o.includeFiles
    case Some(patterns) => patterns
    case None => ["**/*"]
  }

  function IgnorePatternsOf(o: Options): Option<seq<string>> {
    match o.ignoreFiles
    case IgnorePatterns(patterns) => Some(patterns)
    case _ => None
  }

  /** The retry budget: `retryTimes` when it is a positive integer, else 0. */
  function MaxRetry(retryTimes: JsValue): nat {
    if retryTimes.Num? && retryTimes.n > 0 then retryTimes.n else 0
  }

  /** `x || undefined` on a lookup result: an empty string counts as no result. */
  function OrUndefined(x: Option<string>): Option<string> {
    if x.Some? && x.value != "" then x else None
  }

  /** `globFile.split(path.sep).join('/')`. */
  function NormalizedPath(globFile: string, sep: char): string {
    Join(Split(globFile, sep), '/')
  }

  function RemotePath(destination: string, normalized: string): string {
    if destination != "" then CombineURLs(destination, normalized) else normalized
  }

  /** The fixed data of one run: options, environment, the chosen uploader, the resolved
      target directory, the enumerated entries and the retry budget. */
  datatype Run = Run(o: Options, env: Env, uploader: Uploader, targetDir: string, files: seq<string>, maxRetry: nat)

  /** The descriptor built for one enumerated entry. */
  function Describe(c: Run, globFile: string): OSSFile {
    var localFilePath := c.env.join(c.targetDir, globFile);
    var filename := c.env.basename(localFilePath);
    OSSFile(localFilePath, RemotePath(c.o.destination, NormalizedPath(globFile, c.env.sep)), filename,
            OrUndefined(c.env.mimeLookup(filename)), OrUndefined(c.env.contentTypeOf(filename)))
  }

  /** The predicate's answer skips the entry when it is defined and falsy. */
  predicate SkipsEntry(pass: JsValue) {
    !IsNil(pass) && !Truthy(pass)
  }

  /** One `uploader.uploadFile` call for entry `i`, attempt `a`: the requests it fires and how
      it ends. The Tencent uploader is a stub that resolves; the custom one delegates. */
  function UploadAttempt(u: Uploader, env: Env, i: nat, a: nat, file: OSSFile): (seq<Event>, Call) {
    match u
    case AliyunOSSUploader(p) =>
      var (signDate, headerDate) := env.clock(i, a);
      var sent := Aliyun.UploadFile(p.oss, file, signDate, headerDate, env.hmac);
      if sent.Success? then ([RequestFired(sent.value)], Returned(Undefined)) else ([], Threw(Error(sent.error)))
    case TencentCOSUploader(_) => ([], Returned(Undefined))
    case CustomUploader(_) => ([], env.customUpload(i, a))
  }

  predicate AttemptThrows(c: Run, i: nat, file: OSSFile, a: nat) {
    UploadAttempt(c.uploader, c.env, i, a, file).1.Threw?
  }

  /** The retry loop of one entry from attempt `a` on: its events, the number of the attempt
      after the last one made, whether the entry failed for good, and the error left over. */
  datatype RetryRun = RetryRun(events: seq<Event>, attempts: nat, failed: bool, lastError: JsValue)

  function RemovalEvents(o: Options, file: OSSFile): seq<Event> {
    if o.removeWhenUploaded then [Removed(file.localFilePath)] else []
  }

  function RetryFrom(c: Run, i: nat, file: OSSFile, a: nat): RetryRun
    requires a <= c.maxRetry
    decreases c.maxRetry - a
  {
    var (fired, call) := UploadAttempt(c.uploader, c.env, i, a, file);
    var head := [UploadCalled(i, a, file)] + fired;
    match call
    case Returned(_) => RetryRun(head + RemovalEvents(c.o, file), a + 1, false, Undefined)
    case Threw(e) =>
      if a == c.maxRetry then RetryRun(head, a + 1, true, e)
      else
        var rest := RetryFrom(c, i, file, a + 1);
        RetryRun(head + [RetryDelay(i, a)] + rest.events, rest.attempts, rest.failed, rest.lastError)
  }

  /** One attempt of the retry loop that resolves ends it; `before` is what the trace already
      holds. */
  lemma RetryStepSucceeds(c: Run, i: nat, file: OSSFile, a: nat, fired: seq<Event>, v: JsValue, before: seq<Event>)
    requires a <= c.maxRetry && UploadAttempt(c.uploader, c.env, i, a, file) == (fired, Returned(v))
    ensures !RetryFrom(c, i, file, a).failed && RetryFrom(c, i, file, a).lastError == Undefined
    ensures before + RetryFrom(c, i, file, a).events
      == if c.o.removeWhenUploaded then before + [UploadCalled(i, a, file)] + fired + [Removed(file.localFilePath)]
         else before + [UploadCalled(i, a, file)] + fired
  {
  }

  /** One attempt that throws before the last one is followed by the delay and the next attempt. */
  lemma RetryStepRetries(c: Run, i: nat, file: OSSFile, a: nat, fired: seq<Event>, e: JsValue, before: seq<Event>)
    requires a < c.maxRetry && UploadAttempt(c.uploader, c.env, i, a, file) == (fired, Threw(e))
    ensures before + RetryFrom(c, i, file, a).events
      == before + [UploadCalled(i, a, file)] + fired + [RetryDelay(i, a)] + RetryFrom(c, i, file, a + 1).events
    ensures RetryFrom(c, i, file, a).failed == RetryFrom(c, i, file, a + 1).failed
    ensures RetryFrom(c, i, file, a).lastError == RetryFrom(c, i, file, a + 1).lastError
  {
  }

  /** The last attempt that throws ends the retry loop with that error. */
  lemma RetryStepExhausted(c: Run, i: nat, file: OSSFile, a: nat, fired: seq<Event>, e: JsValue, before: seq<Event>)
    requires a == c.maxRetry && UploadAttempt(c.uploader, c.env, i, a, file) == (fired, Threw(e))
    ensures RetryFrom(c, i, file, a).failed && RetryFrom(c, i, file, a).lastError == e
    ensures before + RetryFrom(c, i, file, a).events == before + [UploadCalled(i, a, file)] + fired
  {
  }

  /** The entries from index `i` on, with `failCount` failures so far. */
  datatype LoopRun = LoopRun(events: seq<Event>, outcome: RunOutcome, failCount: nat)

  function ProgressEvents(c: Run, file: OSSFile, current: nat, error: JsValue): seq<Event> {
    if c.o.hasOnProgress then [Progress(file, current, |c.files|, error)] else []
  }

  function FinishEvents(c: Run, failCount: nat): seq<Event> {
    if c.o.hasOnFinish then [Finished(|c.files|, failCount)] else []
  }

  /** The main loop from entry `i` on. */
  function LoopFrom(c: Run, i: nat, failCount: nat): LoopRun
    decreases |c.files| - i, 2
  {
    if i >= |c.files| then LoopRun(FinishEvents(c, failCount), Resolved, failCount)
    else LoopEntry(c, i, failCount)
  }

  /** One iteration of the main loop, over entry `i`, followed by the rest of the loop. */
  function LoopEntry(c: Run, i: nat, failCount: nat): LoopRun
    requires i < |c.files|
    decreases |c.files| - i, 1
  {
    match c.env.stat(c.env.join(c.targetDir, c.files[i]))
    case StatThrew(e) => LoopRun([], Rejected(e), failCount)
    case Directory => LoopFrom(c, i + 1, failCount)
    case NotDirectory =>
      var file := Describe(c, c.files[i]);
      var verdict := if c.o.ignoreFiles.IgnorePredicate? then c.env.ignore(i, file) else Returned(Undefined);
      match verdict
      case Threw(e) => LoopRun([], Rejected(e), failCount)
      case Returned(pass) =>
        if c.o.ignoreFiles.IgnorePredicate? && SkipsEntry(pass) then LoopFrom(c, i + 1, failCount)
        else AfterRetry(c, i, failCount, file, RetryFrom(c, i, file, 0))
  }

  /** What follows the retry loop `r` of entry `i`: the failure count, the abort, the progress
      report, then the loop from the next index. An abort sets the index to the number of
      entries before the progress call, so that call reports `|files| + 1`, and the loop then
      ends. */
  function AfterRetry(c: Run, i: nat, failCount: nat, file: OSSFile, r: RetryRun): LoopRun
    requires i < |c.files|
    decreases |c.files| - i, 0
  {
    var fc := if r.failed then failCount + 1 else failCount;
    var next := if r.failed && c.o.abortOnFailure then |c.files| else i;
    var rest := LoopFrom(c, next + 1, fc);
    LoopRun(r.events + ProgressEvents(c, file, next + 1, r.lastError) + rest.events, rest.outcome, rest.failCount)
  }

  /** Entry `j` reaches the retry loop: it is not a directory and the predicate, if any,
      neither threw nor answered a defined falsy value. */
  predicate Uploaded(c: Run, j: nat)
    requires j < |c.files|
  {
    c.env.stat(c.env.join(c.targetDir, c.files[j])) == NotDirectory &&
    (c.o.ignoreFiles.IgnorePredicate? ==>
      c.env.ignore(j, Describe(c, c.files[j])).Returned? && !SkipsEntry(c.env.ignore(j, Describe(c, c.files[j])).value))
  }

  /** Entry `j` is skipped: a directory, or a file the predicate answered defined and falsy. */
  predicate Skipped(c: Run, j: nat)
    requires j < |c.files|
  {
    var st := c.env.stat(c.env.join(c.targetDir, c.files[j]));
    st.Directory? ||
    (st.NotDirectory? && c.o.ignoreFiles.IgnorePredicate? &&
     c.env.ignore(j, Describe(c, c.files[j])).Returned? && SkipsEntry(c.env.ignore(j, Describe(c, c.files[j])).value))
  }

  /** The main loop past the last entry finishes the run. */
  lemma LoopEnds(c: Run, i: nat, fc: nat)
    requires i >= |c.files|
    ensures LoopFrom(c, i, fc) == LoopRun(FinishEvents(c, fc), Resolved, fc)
  {
  }

  /** A skipped entry leaves no trace at all: the run from it is the run from the next one,
      with the same failure count, so it has no call and no progress report. */
  lemma LoopSkips(c: Run, i: nat, fc: nat)
    requires i < |c.files| && Skipped(c, i)
    ensures LoopFrom(c, i, fc) == LoopFrom(c, i + 1, fc)
  {
    assert LoopFrom(c, i, fc) == LoopEntry(c, i, fc);
  }

  /** An entry that is neither skipped nor uploaded is one whose stat or predicate threw: the
      run is rejected there with the thrown value, with nothing more in the trace. */
  lemma LoopRejects(c: Run, i: nat, fc: nat)
    requires i < |c.files| && !Skipped(c, i) && !Uploaded(c, i)
    ensures LoopFrom(c, i, fc).events == [] && LoopFrom(c, i, fc).outcome.Rejected? && LoopFrom(c, i, fc).failCount == fc
    ensures c.env.stat(c.env.join(c.targetDir, c.files[i])).StatThrew? ==>
      LoopFrom(c, i, fc).outcome == Rejected(c.env.stat(c.env.join(c.targetDir, c.files[i])).error)
    ensures c.env.stat(c.env.join(c.targetDir, c.files[i])).NotDirectory? ==>
      c.o.ignoreFiles.IgnorePredicate? && c.env.ignore(i, Describe(c, c.files[i])).Threw? &&
      LoopFrom(c, i, fc).outcome == Rejected(c.env.ignore(i, Describe(c, c.files[i])).error)
  {
    assert LoopFrom(c, i, fc) == LoopEntry(c, i, fc);
  }

  /** Entry `i` reaches the retry loop, whose run is `r`; `next` and `fc` are the index and the
      failure count the main loop goes on with. */
  predicate UploadsWith(c: Run, i: nat, failCount: nat, file: OSSFile, r: RetryRun, next: nat, fc: nat) {
    i < |c.files| && Uploaded(c, i) && file == Describe(c, c.files[i]) && r == RetryFrom(c, i, file, 0) &&
    fc == (if r.failed then failCount + 1 else failCount) &&
    next == (if r.failed && c.o.abortOnFailure then |c.files| else i)
  }

  lemma LoopEntryUploads(c: Run, i: nat, failCount: nat, file: OSSFile, r: RetryRun, next: nat, fc: nat)
    requires UploadsWith(c, i, failCount, file, r, next, fc)
    ensures LoopEntry(c, i, failCount) == AfterRetry(c, i, failCount, file, r)
  {
  }

  /** One step of the main loop over an entry that is uploaded: its retry loop, its progress
      report, then the loop from the next index. */
  lemma LoopFromUploads(c: Run, i: nat, failCount: nat, file: OSSFile, r: RetryRun, next: nat, fc: nat)
    requires UploadsWith(c, i, failCount, file, r, next, fc)
    ensures LoopFrom(c, i, failCount).events == r.events + ProgressEvents(c, file, next + 1, r.lastError) + LoopFrom(c, next + 1, fc).events
    ensures LoopFrom(c, i, failCount).outcome == LoopFrom(c, next + 1, fc).outcome
    ensures LoopFrom(c, i, failCount).failCount == LoopFrom(c, next + 1, fc).failCount
  {
    LoopEntryUploads(c, i, failCount, file, r, next, fc);
    assert AfterRetry(c, i, failCount, file, r)
      == LoopRun(r.events + ProgressEvents(c, file, next + 1, r.lastError) + LoopFrom(c, next + 1, fc).events,
                 LoopFrom(c, next + 1, fc).outcome, LoopFrom(c, next + 1, fc).failCount);
  }

  /** Regrouping a concatenation. It models nothing of the source:
      it is a lemma of its own only to keep the proofs that use it small. */
  lemma AppendRegroup<T>(before: seq<T>, x: seq<T>, y: seq<T>, z: seq<T>)
    ensures before + (x + y + z) == before + x + y + z
  {
  }

  /** One step of the main loop over an entry that is uploaded; `before` is what the trace
      already holds. */
  lemma LoopStepUploads(c: Run, i: nat, failCount: nat, file: OSSFile, r: RetryRun, next: nat, fc: nat, before: seq<Event>)
    requires UploadsWith(c, i, failCount, file, r, next, fc)
    ensures before + LoopFrom(c, i, failCount).events == before + r.events + ProgressEvents(c, file, next + 1, r.lastError) + LoopFrom(c, next + 1, fc).events
    ensures LoopFrom(c, i, failCount).outcome == LoopFrom(c, next + 1, fc).outcome
  {
    LoopFromUploads(c, i, failCount, file, r, next, fc);
    AppendRegroup(before, r.events, ProgressEvents(c, file, next + 1, r.lastError), LoopFrom(c, next + 1, fc).events);
  }

  /** The observable run: nothing at all if validation fails, else `onStart`, the loop, and
      `onFinish` unless an entry's stat or predicate threw. */
  datatype Observed = Observed(events: seq<Event>, outcome: RunOutcome)

  function StartEvents(o: Options, total: nat): seq<Event> {
    if o.hasOnStart then [Started(total)] else []
  }

  function RunOf(o: Options, env: Env, u: Uploader): Run {
    var dir := TargetDir(o, env);
    Run(o, env, u, dir, env.glob(IncludePatterns(o), IgnorePatternsOf(o), dir), MaxRetry(o.retryTimes))
  }

  function UploadRun(o: Options, env: Env): Observed {
    match Validate(o, env)
    case Failure(message) => Observed([], Rejected(Error(message)))
    case Success(u) =>
      var c := RunOf(o, env, u);
      var l := LoopFrom(c, 0, 0);
      Observed(StartEvents(o, |c.files|) + l.events, l.outcome)
  }

  /** The retry loop of one entry, `while (attempt <= maxRetry)`, with the failure counter
      and the loop index it updates: its events, the error it leaves and the new counter and
      index are those of `RetryFrom` from attempt 0. */
  method RetryLoop(c: Run, i: nat, failCount: nat, file: OSSFile)
    returns (events: seq<Event>, uploadError: JsValue, i': nat, failCount': nat)
    requires c.maxRetry == MaxRetry(c.o.retryTimes)
    ensures events == RetryFrom(c, i, file, 0).events
    ensures uploadError == RetryFrom(c, i, file, 0).lastError
    ensures failCount' == if RetryFrom(c, i, file, 0).failed then failCount + 1 else failCount
    ensures i' == if RetryFrom(c, i, file, 0).failed && c.o.abortOnFailure then |c.files| else i
  {
    events, uploadError, i', failCount' := [], Undefined, i, failCount;
    var maxRetry := MaxRetry(c.o.retryTimes);
    var attempt := 0;
    ghost var r0 := RetryFrom(c, i, file, 0);
    while attempt <= maxRetry
      invariant 0 <= attempt <= maxRetry + 1
      invariant attempt <= maxRetry ==>
        i' == i && failCount' == failCount &&
        r0.events == events + RetryFrom(c, i, file, attempt).events &&
        r0.failed == RetryFrom(c, i, file, attempt).failed &&
        r0.lastError == RetryFrom(c, i, file, attempt).lastError
      invariant attempt == maxRetry + 1 ==>
        events == r0.events && r0.failed && uploadError == r0.lastError &&
        failCount' == failCount + 1 && i' == (if c.o.abortOnFailure then |c.files| else i)
      decreases maxRetry + 1 - attempt
    {
      ghost var before := events;
      events := events + [UploadCalled(i', attempt, file)];
      var att := UploadAttempt(c.uploader, c.env, i', attempt, file);
      var fired, call := att.0, att.1;
      events := events + fired;
      if call.Returned? {
        if c.o.removeWhenUploaded {
          events := events + [Removed(file.localFilePath)];
        }
        uploadError := Undefined;
        RetryStepSucceeds(c, i, file, attempt, fired, call.value, before);
        return;
      }
      uploadError := call.error;
      if attempt == maxRetry {
        RetryStepExhausted(c, i, file, attempt, fired, call.error, before);
        failCount' := failCount' + 1;
        if c.o.abortOnFailure {
          // abort the remaining entries
          i' := |c.files|;
        }
      } else {
        events := events + [RetryDelay(i', attempt)];
        RetryStepRetries(c, i, file, attempt, fired, call.error, before);
      }
      attempt := attempt + 1;
    }
  }

  /** The `for` loop over the entries and the `onFinish` call after it: the events and the
      outcome are those of `LoopFrom` from the first entry with no failures. */
  method UploadEntries(c: Run) returns (outcome: RunOutcome, trace: seq<Event>)
    requires c.maxRetry == MaxRetry(c.o.retryTimes)
    ensures outcome == LoopFrom(c, 0, 0).outcome && trace == LoopFrom(c, 0, 0).events
  {
    trace := [];
    var failCount := 0;
    ghost var spec := LoopFrom(c, 0, 0);
    var i := 0;
    while i < |c.files|
      invariant 0 <= i <= |c.files| + 1
      invariant trace + LoopFrom(c, i, failCount).events == spec.events
      invariant LoopFrom(c, i, failCount).outcome == spec.outcome
      decreases |c.files| - i
    {
      var globFile := c.files[i];
      var stat := c.env.stat(c.env.join(c.targetDir, globFile));
      if stat.StatThrew? {
        LoopRejects(c, i, failCount);
        outcome := Rejected(stat.error);
        return;
      }
      if stat.Directory? {
        LoopSkips(c, i, failCount);
        i := i + 1;
        continue;
      }
      var file := Describe(c, globFile);
      ghost var i0, fc0, before := i, failCount, trace;
      if c.o.ignoreFiles.IgnorePredicate? {
        var pass := c.env.ignore(i, file);
        if pass.Threw? {
          LoopRejects(c, i, failCount);
          outcome := Rejected(pass.error);
          return;
        }
        if !IsNil(pass.value) && !Truthy(pass.value) {
          LoopSkips(c, i, failCount);
          i := i + 1;
          continue;
        }
      }
      var retried, uploadError;
      retried, uploadError, i, failCount := RetryLoop(c, i, failCount, file);
      trace := trace + retried;
      ghost var r := RetryFrom(c, i0, file, 0);
      LoopStepUploads(c, i0, fc0, file, r, i, failCount, before);
      if c.o.hasOnProgress {
        trace := trace + [Progress(file, i + 1, |c.files|, uploadError)];
      }
      assert trace == before + retried + ProgressEvents(c, file, i + 1, uploadError);
      i := i + 1;
    }
    LoopEnds(c, i, failCount);
    if c.o.hasOnFinish {
      trace := trace + [Finished(|c.files|, failCount)];
    }
    outcome := Resolved;
  }

  /** `uploadOSS`, step by step as the source does it; its trace and outcome are those of
      `UploadRun`, whose properties are proved in module UploadProperties. */
  method UploadOSS(o: Options, env: Env) returns (outcome: RunOutcome, trace: seq<Event>)
    ensures outcome == UploadRun(o, env).outcome && trace == UploadRun(o, env).events
  {
    trace := [];
    var checked := Validate(o, env);
    if checked.Failure? {
      outcome := Rejected(Error(checked.error));
      return;
    }
    var uploader := checked.value;
    var targetDir := TargetDir(o, env);
    var globFiles := env.glob(IncludePatterns(o), IgnorePatternsOf(o), targetDir);
    if o.hasOnStart {
      trace := trace + [Started(|globFiles|)];
    }
    var c := Run(o, env, uploader, targetDir, globFiles, MaxRetry(o.retryTimes));
    assert Validate(o, env) == Success(uploader) && c == RunOf(o, env, uploader);
    var events;
    outcome, events := UploadEntries(c);
    trace := trace + events;
  }
}
