/** What one run of `uploadOSS` promises, proved over the functions that `Upload.UploadOSS` is
    proved against: attempt counts and numbering, the failure counter, the last error, the
    skip rules, the order of progress reports, the abort cut-off and the closing callback. */
module UploadProperties {
  import opened Types
  import opened Utils
  import opened Text
  import opened Upload

  /** Which events of a trace to look at. */
  datatype Probe = CallsOf(index: nat) | ProgressCalls | Removals | FinishCalls

  predicate Matches(p: Probe, e: Event) {
    match p
    case CallsOf(j) => e.UploadCalled? && e.index == j
    case ProgressCalls => e.Progress?
    case Removals => e.Removed?
    case FinishCalls => e.Finished?
  }

  /** The events of a trace that a probe selects, in order. */
  function Project(p: Probe, events: seq<Event>): seq<Event>
    decreases |events|
  {
    if |events| == 0 then []
    else (if Matches(p, events[0]) then [events[0]] else []) + Project(p, events[1..])
  }

  lemma {:induction false} ProjectAppend(p: Probe, a: seq<Event>, b: seq<Event>)
    ensures Project(p, a + b) == Project(p, a) + Project(p, b)
    decreases |a|
  {
    if |a| == 0 {
      assert a + b == b;
    } else {
      var head := if Matches(p, a[0]) then [a[0]] else [];
      assert (a + b)[0] == a[0];
      assert (a + b)[1..] == a[1..] + b;
      ProjectAppend(p, a[1..], b);
      calc {
        Project(p, a + b);
        head + Project(p, a[1..] + b);
        head + (Project(p, a[1..]) + Project(p, b));
        (head + Project(p, a[1..])) + Project(p, b);
        Project(p, a) + Project(p, b);
      }
    }
  }

  /** The calls `UploadCalled(j, lo, file)` to `UploadCalled(j, hi - 1, file)`. */
  function CallsRange(j: nat, file: OSSFile, lo: nat, hi: nat): (calls: seq<Event>)
    ensures |calls| == if lo <= hi then hi - lo else 0
    decreases hi - lo
  {
    if lo >= hi then [] else [UploadCalled(j, lo, file)] + CallsRange(j, file, lo + 1, hi)
  }

  /** The `k`-th call of the range is attempt `lo + k`. */
  lemma {:induction false} CallsRangeAt(j: nat, file: OSSFile, lo: nat, hi: nat, k: nat)
    requires lo + k < hi
    ensures CallsRange(j, file, lo, hi)[k] == UploadCalled(j, lo + k, file)
    decreases hi - lo
  {
    if k > 0 {
      CallsRangeAt(j, file, lo + 1, hi, k - 1);
    }
  }

  /** The projection of a trace made of three parts. */
  lemma ProjectThree(p: Probe, all: seq<Event>, x: seq<Event>, y: seq<Event>, z: seq<Event>)
    requires all == x + y + z
    ensures Project(p, all) == Project(p, x) + Project(p, y) + Project(p, z)
  {
    ProjectAppend(p, x, y);
    ProjectAppend(p, x + y, z);
  }

  /** An attempt's own events are the requests it fires, which no probe selects. */
  lemma AttemptFiresOnlyRequests(u: Providers.Uploader, env: Env, i: nat, a: nat, file: OSSFile, p: Probe)
    ensures Project(p, UploadAttempt(u, env, i, a, file).0) == []
  {
  }

  /** One `uploadFile` call per uploader: the Aliyun one resolves with `undefined` exactly when
      the MIME check passes, and then it has fired its one signed request and cannot see how that
      request ends; the Tencent stub resolves and sends nothing; the custom one ends as the
      configured function does. */
  lemma UploadAttemptCases(u: Providers.Uploader, env: Env, i: nat, a: nat, file: OSSFile)
    ensures var att := UploadAttempt(u, env, i, a, file);
      var sent := Aliyun.UploadFile(u.provider.oss, file, env.clock(i, a).0, env.clock(i, a).1, env.hmac);
      (u.AliyunOSSUploader? ==>
        (att.1.Returned? <==> file.mimeType.Some? && file.mimeType.value != "") &&
        (att.1.Returned? ==> att.1.value == Undefined && att.0 == [RequestFired(sent.value)]) &&
        (att.1.Threw? ==> att.0 == [] && att.1.error == Error("No mime type found for file " + file.filename))) &&
      (u.TencentCOSUploader? ==> att == ([], Returned(Undefined))) &&
      (u.CustomUploader? ==> att == ([], env.customUpload(i, a)))
  {
  }

  /** The events every attempt starts with. */
  lemma AttemptHead(c: Run, i: nat, file: OSSFile, a: nat, p: Probe)
    ensures Project(p, [UploadCalled(i, a, file)] + UploadAttempt(c.uploader, c.env, i, a, file).0)
      == if Matches(p, UploadCalled(i, a, file)) then [UploadCalled(i, a, file)] else []
  {
    AttemptFiresOnlyRequests(c.uploader, c.env, i, a, file, p);
    ProjectAppend(p, [UploadCalled(i, a, file)], UploadAttempt(c.uploader, c.env, i, a, file).0);
  }

  // ---------------------------------------------------------------------------------------
  // The retry loop of one entry

  /** From attempt `a`, the loop makes at least one and at most `maxRetry + 1 - a` calls for
      its own entry, numbered `a` upwards, and none for any other entry. */
  lemma {:induction false} RetryCalls(c: Run, i: nat, file: OSSFile, a: nat, j: nat)
    requires a <= c.maxRetry
    ensures a < RetryFrom(c, i, file, a).attempts <= c.maxRetry + 1
    ensures Project(CallsOf(j), RetryFrom(c, i, file, a).events)
      == if j == i then CallsRange(i, file, a, RetryFrom(c, i, file, a).attempts) else []
    decreases c.maxRetry - a
  {
    var att := UploadAttempt(c.uploader, c.env, i, a, file);
    var head := [UploadCalled(i, a, file)] + att.0;
    AttemptHead(c, i, file, a, CallsOf(j));
    if att.1.Returned? {
      ProjectAppend(CallsOf(j), head, RemovalEvents(c.o, file));
    } else if a < c.maxRetry {
      var rest := RetryFrom(c, i, file, a + 1);
      RetryCalls(c, i, file, a + 1, j);
      ProjectAppend(CallsOf(j), head, [RetryDelay(i, a)]);
      ProjectAppend(CallsOf(j), head + [RetryDelay(i, a)], rest.events);
    }
  }

  /** The entry fails for good exactly when every attempt from `a` to `maxRetry` throws; it
      then ends after `maxRetry + 1` attempts with the last thrown value. Otherwise it ends at
      the first attempt that resolves, every earlier one having thrown, and leaves no error. */
  lemma {:induction false} RetryOutcome(c: Run, i: nat, file: OSSFile, a: nat)
    requires a <= c.maxRetry
    ensures RetryFrom(c, i, file, a).failed <==> forall k :: a <= k <= c.maxRetry ==> AttemptThrows(c, i, file, k)
    ensures RetryFrom(c, i, file, a).failed ==>
      RetryFrom(c, i, file, a).attempts == c.maxRetry + 1 &&
      UploadAttempt(c.uploader, c.env, i, c.maxRetry, file).1 == Threw(RetryFrom(c, i, file, a).lastError)
    ensures !RetryFrom(c, i, file, a).failed ==>
      a < RetryFrom(c, i, file, a).attempts <= c.maxRetry + 1 &&
      !AttemptThrows(c, i, file, RetryFrom(c, i, file, a).attempts - 1) &&
      (forall k :: a <= k < RetryFrom(c, i, file, a).attempts - 1 ==> AttemptThrows(c, i, file, k)) &&
      RetryFrom(c, i, file, a).lastError == Undefined
    decreases c.maxRetry - a
  {
    if AttemptThrows(c, i, file, a) && a < c.maxRetry {
      RetryOutcome(c, i, file, a + 1);
    }
  }

  /** The loop uses up its whole budget exactly when every attempt before the last throws
      (the last one may resolve or throw). */
  lemma RetryUsesWholeBudget(c: Run, i: nat, file: OSSFile)
    ensures RetryFrom(c, i, file, 0).attempts == c.maxRetry + 1 <==>
      forall k :: 0 <= k < c.maxRetry ==> AttemptThrows(c, i, file, k)
  {
    RetryOutcome(c, i, file, 0);
    var r := RetryFrom(c, i, file, 0);
    if !r.failed && r.attempts < c.maxRetry + 1 {
      assert !AttemptThrows(c, i, file, r.attempts - 1);
    } else if !r.failed {
      assert forall k :: 0 <= k < c.maxRetry ==> AttemptThrows(c, i, file, k);
    }
  }

  /** The budget taken from `retryTimes`: a positive integer `n` allows up to `n + 1` calls,
      all of them made exactly when the first `n` throw; any other value allows one call. */
  lemma RetryBudget(c: Run, i: nat, file: OSSFile)
    requires c.maxRetry == MaxRetry(c.o.retryTimes)
    ensures var n := if c.o.retryTimes.Num? && c.o.retryTimes.n > 0 then c.o.retryTimes.n else 0;
      0 < RetryFrom(c, i, file, 0).attempts <= n + 1 &&
      (RetryFrom(c, i, file, 0).attempts == n + 1 <==> forall k :: 0 <= k < n ==> AttemptThrows(c, i, file, k))
  {
    RetryCalls(c, i, file, 0, i);
    RetryUsesWholeBudget(c, i, file);
  }

  /** With no positive integer `retryTimes` the file gets exactly one call. */
  lemma NoBudgetSingleAttempt(c: Run, i: nat, file: OSSFile)
    requires c.maxRetry == MaxRetry(c.o.retryTimes) && !(c.o.retryTimes.Num? && c.o.retryTimes.n > 0)
    ensures RetryFrom(c, i, file, 0).attempts == 1
  {
    RetryCalls(c, i, file, 0, i);
  }

  /** The local file is deleted at most once, only after an attempt resolved and only when
      `removeWhenUploaded` is set. */
  lemma {:induction false} RetryRemovals(c: Run, i: nat, file: OSSFile, a: nat)
    requires a <= c.maxRetry
    ensures Project(Removals, RetryFrom(c, i, file, a).events)
      == if !RetryFrom(c, i, file, a).failed && c.o.removeWhenUploaded then [Removed(file.localFilePath)] else []
    decreases c.maxRetry - a
  {
    var att := UploadAttempt(c.uploader, c.env, i, a, file);
    var head := [UploadCalled(i, a, file)] + att.0;
    AttemptHead(c, i, file, a, Removals);
    if att.1.Returned? {
      ProjectAppend(Removals, head, RemovalEvents(c.o, file));
    } else if a < c.maxRetry {
      RetryRemovals(c, i, file, a + 1);
      ProjectAppend(Removals, head, [RetryDelay(i, a)]);
      ProjectAppend(Removals, head + [RetryDelay(i, a)], RetryFrom(c, i, file, a + 1).events);
    }
  }

  /** The deletion, when there is one, is the retry loop's last event. */
  lemma {:induction false} RetryEndsWithRemoval(c: Run, i: nat, file: OSSFile, a: nat)
    requires a <= c.maxRetry
    ensures |RetryFrom(c, i, file, a).events| > 0
    ensures !RetryFrom(c, i, file, a).failed && c.o.removeWhenUploaded ==>
      RetryFrom(c, i, file, a).events[|RetryFrom(c, i, file, a).events| - 1] == Removed(file.localFilePath)
    decreases c.maxRetry - a
  {
    var att := UploadAttempt(c.uploader, c.env, i, a, file);
    var head := [UploadCalled(i, a, file)] + att.0;
    if att.1.Threw? && a < c.maxRetry {
      RetryEndsWithRemoval(c, i, file, a + 1);
      LastOfAppend(head + [RetryDelay(i, a)], RetryFrom(c, i, file, a + 1).events);
    }
  }

  /** The retry loop reports no progress and does not finish the run. */
  lemma {:induction false} RetryQuiet(c: Run, i: nat, file: OSSFile, a: nat, p: Probe)
    requires a <= c.maxRetry && (p.ProgressCalls? || p.FinishCalls?)
    ensures Project(p, RetryFrom(c, i, file, a).events) == []
    decreases c.maxRetry - a
  {
    var att := UploadAttempt(c.uploader, c.env, i, a, file);
    var head := [UploadCalled(i, a, file)] + att.0;
    AttemptHead(c, i, file, a, p);
    if att.1.Returned? {
      ProjectAppend(p, head, RemovalEvents(c.o, file));
    } else if a < c.maxRetry {
      RetryQuiet(c, i, file, a + 1, p);
      ProjectAppend(p, head, [RetryDelay(i, a)]);
      ProjectAppend(p, head + [RetryDelay(i, a)], RetryFrom(c, i, file, a + 1).events);
    }
  }

  lemma LastOfAppend(a: seq<Event>, b: seq<Event>)
    requires |b| > 0
    ensures (a + b)[|a + b| - 1] == b[|b| - 1]
  {
  }

  // ---------------------------------------------------------------------------------------
  // The main loop

  lemma ProgressMarks(c: Run, file: OSSFile, current: nat, error: JsValue, p: Probe)
    ensures Project(p, ProgressEvents(c, file, current, error))
      == if p.ProgressCalls? then ProgressEvents(c, file, current, error) else []
  {
  }

  lemma FinishMarks(c: Run, failCount: nat, p: Probe)
    ensures Project(p, FinishEvents(c, failCount)) == if p.FinishCalls? then FinishEvents(c, failCount) else []
  {
  }

  /** The calls of entry `j` in the events of the main loop from entry `i`: at most
      `maxRetry + 1`, and if there are any, `j` is an entry from `i` on that reached the retry
      loop, and they are numbered 0, 1, ... in order. */
  predicate CallsShape(c: Run, i: nat, j: nat, events: seq<Event>) {
    var calls := Project(CallsOf(j), events);
    |calls| <= c.maxRetry + 1 &&
    (calls != [] ==> i <= j < |c.files| && Uploaded(c, j) && calls == CallsRange(j, Describe(c, c.files[j]), 0, |calls|))
  }

  /** The same step looked at through a probe. */
  lemma ProjectUploaded(c: Run, i: nat, fc: nat, file: OSSFile, r: RetryRun, next: nat, fc': nat, p: Probe)
    requires UploadsWith(c, i, fc, file, r, next, fc')
    ensures Project(p, LoopFrom(c, i, fc).events)
      == Project(p, r.events) + Project(p, ProgressEvents(c, file, next + 1, r.lastError)) + Project(p, LoopFrom(c, next + 1, fc').events)
  {
    LoopFromUploads(c, i, fc, file, r, next, fc');
    ProjectAppend(p, r.events, ProgressEvents(c, file, next + 1, r.lastError));
    ProjectAppend(p, r.events + ProgressEvents(c, file, next + 1, r.lastError), LoopFrom(c, next + 1, fc').events);
  }

  /** The calls of entry `j` after one uploaded entry `i`, over plain sequences. */
  lemma CallsUploadStep(j: nat, i: nat, file: OSSFile, all: seq<Event>, retried: seq<Event>, pe: seq<Event>, rest: seq<Event>, n: nat)
    requires all == retried + pe + rest
    requires Project(CallsOf(j), retried) == (if j == i then CallsRange(i, file, 0, n) else [])
    requires Project(CallsOf(j), pe) == []
    requires j == i ==> Project(CallsOf(j), rest) == []
    ensures Project(CallsOf(j), all) == if j == i then CallsRange(i, file, 0, n) else Project(CallsOf(j), rest)
  {
    ProjectThree(CallsOf(j), all, retried, pe, rest);
    if j == i {
      assert Project(CallsOf(j), all) == CallsRange(i, file, 0, n) + [] + [];
    } else {
      assert Project(CallsOf(j), all) == [] + [] + Project(CallsOf(j), rest);
    }
  }

  /** The uploaded entry's own calls come from its retry loop alone. */
  lemma LoopCallsOwn(c: Run, i: nat, fc: nat, file: OSSFile, r: RetryRun, next: nat, fc': nat)
    requires UploadsWith(c, i, fc, file, r, next, fc')
    requires CallsShape(c, next + 1, i, LoopFrom(c, next + 1, fc').events)
    ensures Project(CallsOf(i), LoopFrom(c, i, fc).events) == CallsRange(i, file, 0, r.attempts)
    ensures 0 < r.attempts <= c.maxRetry + 1
  {
    LoopFromUploads(c, i, fc, file, r, next, fc');
    RetryCalls(c, i, file, 0, i);
    ProgressMarks(c, file, next + 1, r.lastError, CallsOf(i));
    CallsUploadStep(i, i, file, LoopFrom(c, i, fc).events, r.events, ProgressEvents(c, file, next + 1, r.lastError),
                    LoopFrom(c, next + 1, fc').events, r.attempts);
  }

  /** Another entry's calls all come after the uploaded entry's step. */
  lemma LoopCallsOther(c: Run, i: nat, fc: nat, j: nat, file: OSSFile, r: RetryRun, next: nat, fc': nat)
    requires UploadsWith(c, i, fc, file, r, next, fc') && j != i
    ensures Project(CallsOf(j), LoopFrom(c, i, fc).events) == Project(CallsOf(j), LoopFrom(c, next + 1, fc').events)
  {
    LoopFromUploads(c, i, fc, file, r, next, fc');
    RetryCalls(c, i, file, 0, j);
    ProgressMarks(c, file, next + 1, r.lastError, CallsOf(j));
    CallsUploadStep(j, i, file, LoopFrom(c, i, fc).events, r.events, ProgressEvents(c, file, next + 1, r.lastError),
                    LoopFrom(c, next + 1, fc').events, r.attempts);
  }

  lemma {:induction false} LoopCallsUploaded(c: Run, i: nat, fc: nat, j: nat, file: OSSFile, r: RetryRun, next: nat, fc': nat)
    requires UploadsWith(c, i, fc, file, r, next, fc')
    ensures CallsShape(c, i, j, LoopFrom(c, i, fc).events)
    decreases |c.files| - i, 0
  {
    LoopCalls(c, next + 1, fc', j);
    if j == i {
      LoopCallsOwn(c, i, fc, file, r, next, fc');
    } else {
      LoopCallsOther(c, i, fc, j, file, r, next, fc');
    }
  }

  /** Every entry gets at most `maxRetry + 1` calls; an entry that gets any is one from `i` on
      that reached the retry loop, and its calls are numbered 0, 1, ... in order. */
  lemma {:induction false} LoopCalls(c: Run, i: nat, fc: nat, j: nat)
    ensures CallsShape(c, i, j, LoopFrom(c, i, fc).events)
    decreases |c.files| - i, 1
  {
    if i >= |c.files| {
      LoopEnds(c, i, fc);
      FinishMarks(c, fc, CallsOf(j));
    } else if Skipped(c, i) {
      LoopSkips(c, i, fc);
      LoopCalls(c, i + 1, fc, j);
    } else if Uploaded(c, i) {
      var file := Describe(c, c.files[i]);
      var r := RetryFrom(c, i, file, 0);
      var fc' := if r.failed then fc + 1 else fc;
      var next := if r.failed && c.o.abortOnFailure then |c.files| else i;
      LoopCallsUploaded(c, i, fc, j, file, r, next, fc');
    } else {
      LoopRejects(c, i, fc);
    }
  }

  /** A skipped entry never gets an `uploadFile` call. */
  lemma SkippedEntryNeverCalled(c: Run, i: nat, fc: nat, j: nat)
    requires j < |c.files| && Skipped(c, j)
    ensures Project(CallsOf(j), LoopFrom(c, i, fc).events) == []
  {
    LoopCalls(c, i, fc, j);
  }


  /** A `null` or `undefined` answer of the predicate does not skip: the entry is uploaded. */
  lemma NilAnswerDoesNotSkip(c: Run, j: nat, fc: nat)
    requires j < |c.files| && c.env.stat(c.env.join(c.targetDir, c.files[j])) == NotDirectory
    requires c.o.ignoreFiles.IgnorePredicate?
    requires c.env.ignore(j, Describe(c, c.files[j])).Returned? && IsNil(c.env.ignore(j, Describe(c, c.files[j])).value)
    ensures Uploaded(c, j) && Project(CallsOf(j), LoopFrom(c, j, fc).events) != []
  {
    var file := Describe(c, c.files[j]);
    var r := RetryFrom(c, j, file, 0);
    var fc' := if r.failed then fc + 1 else fc;
    var next := if r.failed && c.o.abortOnFailure then |c.files| else j;
    assert UploadsWith(c, j, fc, file, r, next, fc');
    ProjectUploaded(c, j, fc, file, r, next, fc', CallsOf(j));
    RetryCalls(c, j, file, 0, j);
  }

  /** How far the failure counter can grow from entry `i` on, starting from `fc`. */
  predicate FailCountShape(c: Run, i: nat, fc: nat, failCount: nat) {
    fc <= failCount <= fc + (if i <= |c.files| then |c.files| - i else 0) &&
    (c.o.abortOnFailure ==> failCount <= fc + 1)
  }

  lemma {:induction false} LoopFailCountUploaded(c: Run, i: nat, fc: nat, file: OSSFile, r: RetryRun, next: nat, fc': nat)
    requires UploadsWith(c, i, fc, file, r, next, fc')
    ensures FailCountShape(c, i, fc, LoopFrom(c, i, fc).failCount)
    decreases |c.files| - i, 0
  {
    LoopFailCount(c, next + 1, fc');
    LoopFromUploads(c, i, fc, file, r, next, fc');
  }

  /** The failure counter grows by at most one per remaining entry, and by at most one in all
      when `abortOnFailure` is set. */
  lemma {:induction false} LoopFailCount(c: Run, i: nat, fc: nat)
    ensures FailCountShape(c, i, fc, LoopFrom(c, i, fc).failCount)
    decreases |c.files| - i, 1
  {
    if i >= |c.files| {
      LoopEnds(c, i, fc);
    } else if Skipped(c, i) {
      LoopSkips(c, i, fc);
      LoopFailCount(c, i + 1, fc);
    } else if Uploaded(c, i) {
      var file := Describe(c, c.files[i]);
      var r := RetryFrom(c, i, file, 0);
      var fc' := if r.failed then fc + 1 else fc;
      var next := if r.failed && c.o.abortOnFailure then |c.files| else i;
      LoopFailCountUploaded(c, i, fc, file, r, next, fc');
    } else {
      LoopRejects(c, i, fc);
    }
  }

  /** Progress reports with the given total and strictly increasing values of `current`, each
      above `lo` and at most one past the total. */
  predicate ProgressShape(lo: nat, total: nat, ps: seq<Event>) {
    (forall k :: 0 <= k < |ps| ==> ps[k].Progress? && lo < ps[k].current <= total + 1 && ps[k].total == total) &&
    (forall k, m :: 0 <= k < m < |ps| ==> ps[k].current < ps[m].current)
  }

  /** One report at `next + 1`, or none, in front of reports above `next + 1`. */
  lemma ProgressStep(lo: nat, next: nat, total: nat, pe: seq<Event>, tail: seq<Event>)
    requires lo <= next <= total && |pe| <= 1
    requires forall k :: 0 <= k < |pe| ==> pe[k].Progress? && pe[k].current == next + 1 && pe[k].total == total
    requires ProgressShape(next + 1, total, tail)
    ensures ProgressShape(lo, total, pe + tail)
  {
    var ps := pe + tail;
    forall k, m | 0 <= k < m < |ps|
      ensures ps[k].current < ps[m].current
    {
      if k >= |pe| {
        assert ps[k] == tail[k - |pe|] && ps[m] == tail[m - |pe|];
      } else {
        assert ps[m] == tail[m - |pe|];
      }
    }
  }

  /** At most one report, at position `next + 1` of `total`, and none when `quiet`. */
  predicate OneReport(pe: seq<Event>, next: nat, total: nat, quiet: bool) {
    |pe| <= 1 && (quiet ==> pe == []) &&
    forall k :: 0 <= k < |pe| ==> pe[k].Progress? && pe[k].current == next + 1 && pe[k].total == total
  }

  /** The report after an entry's retry loop: one, and only with `onProgress`. */
  lemma ProgressEventsReport(c: Run, file: OSSFile, next: nat, error: JsValue)
    ensures OneReport(ProgressEvents(c, file, next + 1, error), next, |c.files|, !c.o.hasOnProgress)
  {
  }

  /** The progress reports of an uploaded entry's step, over plain sequences: none in its
      retry loop, its own report, then those of the rest of the loop. */
  lemma ProgressAfterUpload(lo: nat, next: nat, total: nat, quiet: bool,
                            all: seq<Event>, retried: seq<Event>, pe: seq<Event>, rest: seq<Event>)
    requires all == retried + pe + rest && Project(ProgressCalls, retried) == []
    requires lo <= next <= total && OneReport(pe, next, total, quiet)
    requires ProgressShape(next + 1, total, Project(ProgressCalls, rest))
    requires quiet ==> Project(ProgressCalls, rest) == []
    ensures ProgressShape(lo, total, Project(ProgressCalls, all))
    ensures quiet ==> Project(ProgressCalls, all) == []
  {
    ProjectAfterQuiet(all, retried, pe, rest);
    ProgressStep(lo, next, total, pe, Project(ProgressCalls, rest));
  }

  /** Reports behind a part without reports, over plain sequences. */
  lemma ProjectAfterQuiet(all: seq<Event>, retried: seq<Event>, pe: seq<Event>, rest: seq<Event>)
    requires all == retried + pe + rest && Project(ProgressCalls, retried) == []
    requires forall k :: 0 <= k < |pe| ==> pe[k].Progress?
    ensures Project(ProgressCalls, all) == pe + Project(ProgressCalls, rest)
  {
    ProjectThree(ProgressCalls, all, retried, pe, rest);
    ProjectReports(pe);
    EmptyFront(Project(ProgressCalls, retried), Project(ProgressCalls, pe), Project(ProgressCalls, rest));
  }

  /** Dropping an empty front part. It models nothing of the source:
      it is a lemma of its own only to keep the proofs that use it small. */
  lemma EmptyFront(x: seq<Event>, y: seq<Event>, z: seq<Event>)
    requires x == []
    ensures x + y + z == y + z
  {
  }

  /** A trace of progress reports alone is its own projection. */
  lemma {:induction false} ProjectReports(ps: seq<Event>)
    requires forall k :: 0 <= k < |ps| ==> ps[k].Progress?
    ensures Project(ProgressCalls, ps) == ps
    decreases |ps|
  {
    if |ps| > 0 {
      ProjectReports(ps[1..]);
      assert ps == [ps[0]] + ps[1..];
    }
  }

  /** A lower bound can always be lowered. */
  lemma ProgressShapeWeaken(lo: nat, lo': nat, total: nat, ps: seq<Event>)
    requires lo' <= lo && ProgressShape(lo, total, ps)
    ensures ProgressShape(lo', total, ps)
  {
  }

  /** The step over an uploaded entry, with the loop after it. */
  lemma {:induction false} LoopProgressUploaded(c: Run, i: nat, fc: nat, file: OSSFile, r: RetryRun, next: nat, fc': nat)
    requires UploadsWith(c, i, fc, file, r, next, fc')
    ensures ProgressShape(i, |c.files|, Project(ProgressCalls, LoopFrom(c, i, fc).events))
    ensures !c.o.hasOnProgress ==> Project(ProgressCalls, LoopFrom(c, i, fc).events) == []
    decreases |c.files| - i, 0
  {
    LoopProgress(c, next + 1, fc');
    LoopFromUploads(c, i, fc, file, r, next, fc');
    RetryQuiet(c, i, file, 0, ProgressCalls);
    ProgressEventsReport(c, file, next, r.lastError);
    ProgressAfterUpload(i, next, |c.files|, !c.o.hasOnProgress, LoopFrom(c, i, fc).events, r.events,
                        ProgressEvents(c, file, next + 1, r.lastError), LoopFrom(c, next + 1, fc').events);
  }

  /** Progress reports carry the number of entries as total and strictly increasing values of
      `current`, each above `i` and at most one past the number of entries; there are none
      without an `onProgress` callback. */
  lemma {:induction false} LoopProgress(c: Run, i: nat, fc: nat)
    ensures ProgressShape(i, |c.files|, Project(ProgressCalls, LoopFrom(c, i, fc).events))
    ensures !c.o.hasOnProgress ==> Project(ProgressCalls, LoopFrom(c, i, fc).events) == []
    decreases |c.files| - i, 1
  {
    if i >= |c.files| {
      LoopEnds(c, i, fc);
      FinishMarks(c, fc, ProgressCalls);
    } else if Skipped(c, i) {
      LoopSkips(c, i, fc);
      LoopProgress(c, i + 1, fc);
      ProgressShapeWeaken(i + 1, i, |c.files|, Project(ProgressCalls, LoopFrom(c, i + 1, fc).events));
    } else if Uploaded(c, i) {
      var file := Describe(c, c.files[i]);
      var r := RetryFrom(c, i, file, 0);
      var fc' := if r.failed then fc + 1 else fc;
      var next := if r.failed && c.o.abortOnFailure then |c.files| else i;
      LoopProgressUploaded(c, i, fc, file, r, next, fc');
    } else {
      LoopRejects(c, i, fc);
    }
  }

  /** `onFinish(total, failCount)` is called once, last, exactly when the run resolves. */
  predicate FinishShape(c: Run, l: LoopRun) {
    Project(FinishCalls, l.events) == (if l.outcome.Resolved? then FinishEvents(c, l.failCount) else []) &&
    (l.outcome.Resolved? && c.o.hasOnFinish ==> |l.events| > 0 && l.events[|l.events| - 1] == Finished(|c.files|, l.failCount))
  }

  lemma FinishCallsUploaded(c: Run, i: nat, fc: nat, file: OSSFile, r: RetryRun, next: nat, fc': nat)
    requires UploadsWith(c, i, fc, file, r, next, fc')
    ensures Project(FinishCalls, LoopFrom(c, i, fc).events) == Project(FinishCalls, LoopFrom(c, next + 1, fc').events)
  {
    ProjectUploaded(c, i, fc, file, r, next, fc', FinishCalls);
    RetryQuiet(c, i, file, 0, FinishCalls);
    ProgressMarks(c, file, next + 1, r.lastError, FinishCalls);
  }

  lemma FinishLastUploaded(c: Run, i: nat, fc: nat, file: OSSFile, r: RetryRun, next: nat, fc': nat)
    requires UploadsWith(c, i, fc, file, r, next, fc')
    requires |LoopFrom(c, next + 1, fc').events| > 0
    ensures |LoopFrom(c, i, fc).events| > 0
    ensures LoopFrom(c, i, fc).events[|LoopFrom(c, i, fc).events| - 1]
      == LoopFrom(c, next + 1, fc').events[|LoopFrom(c, next + 1, fc').events| - 1]
  {
    LoopFromUploads(c, i, fc, file, r, next, fc');
    LastOfAppend(r.events + ProgressEvents(c, file, next + 1, r.lastError), LoopFrom(c, next + 1, fc').events);
  }

  lemma {:induction false} LoopFinishUploaded(c: Run, i: nat, fc: nat, file: OSSFile, r: RetryRun, next: nat, fc': nat)
    requires UploadsWith(c, i, fc, file, r, next, fc')
    ensures FinishShape(c, LoopFrom(c, i, fc))
    decreases |c.files| - i, 0
  {
    LoopFinish(c, next + 1, fc');
    LoopFromUploads(c, i, fc, file, r, next, fc');
    FinishCallsUploaded(c, i, fc, file, r, next, fc');
    if |LoopFrom(c, next + 1, fc').events| > 0 {
      FinishLastUploaded(c, i, fc, file, r, next, fc');
    }
  }

  /** A run that gets past every entry ends with `onFinish(total, failCount)`, called once; a
      run rejected by an entry's stat or predicate never calls it. */
  lemma {:induction false} LoopFinish(c: Run, i: nat, fc: nat)
    ensures FinishShape(c, LoopFrom(c, i, fc))
    decreases |c.files| - i, 1
  {
    if i >= |c.files| {
      LoopEnds(c, i, fc);
      FinishMarks(c, fc, FinishCalls);
    } else if Skipped(c, i) {
      LoopSkips(c, i, fc);
      LoopFinish(c, i + 1, fc);
    } else if Uploaded(c, i) {
      var file := Describe(c, c.files[i]);
      var r := RetryFrom(c, i, file, 0);
      var fc' := if r.failed then fc + 1 else fc;
      var next := if r.failed && c.o.abortOnFailure then |c.files| else i;
      LoopFinishUploaded(c, i, fc, file, r, next, fc');
    } else {
      LoopRejects(c, i, fc);
    }
  }

  /** The progress report of an uploaded entry comes right after its retry loop and carries
      the error the loop left: `undefined` after a success, the last thrown value after a final
      failure. Its `current` is the entry's position, or one past the number of entries when
      the failure aborts the run. */
  lemma EntryProgress(c: Run, j: nat, fc: nat)
    requires j < |c.files| && Uploaded(c, j) && c.o.hasOnProgress
    ensures var file := Describe(c, c.files[j]);
      var r := RetryFrom(c, j, file, 0);
      var ps := Project(ProgressCalls, LoopFrom(c, j, fc).events);
      |ps| > 0 &&
      ps[0] == Progress(file, (if r.failed && c.o.abortOnFailure then |c.files| else j) + 1, |c.files|, r.lastError) &&
      (r.failed ==> UploadAttempt(c.uploader, c.env, j, c.maxRetry, file).1 == Threw(r.lastError)) &&
      (!r.failed ==> r.lastError == Undefined)
  {
    var file := Describe(c, c.files[j]);
    var r := RetryFrom(c, j, file, 0);
    var fc' := if r.failed then fc + 1 else fc;
    var next := if r.failed && c.o.abortOnFailure then |c.files| else j;
    assert UploadsWith(c, j, fc, file, r, next, fc');
    ProjectUploaded(c, j, fc, file, r, next, fc', ProgressCalls);
    RetryQuiet(c, j, file, 0, ProgressCalls);
    RetryOutcome(c, j, file, 0);
    ProgressMarks(c, file, next + 1, r.lastError, ProgressCalls);
  }

  /** With `abortOnFailure`, an entry that exhausts its retries ends the run: after its own
      calls come its progress report, with `current` one past the number of entries, and the
      `onFinish` call; no other entry gets a call from there on, and the run resolves. */
  lemma AbortCutoff(c: Run, j: nat, fc: nat)
    requires j < |c.files| && Uploaded(c, j) && c.o.abortOnFailure
    requires RetryFrom(c, j, Describe(c, c.files[j]), 0).failed
    ensures var file := Describe(c, c.files[j]);
      var r := RetryFrom(c, j, file, 0);
      LoopFrom(c, j, fc) == LoopRun(r.events + ProgressEvents(c, file, |c.files| + 1, r.lastError) + FinishEvents(c, fc + 1), Resolved, fc + 1)
    ensures forall k :: k != j ==> Project(CallsOf(k), LoopFrom(c, j, fc).events) == []
  {
    var file := Describe(c, c.files[j]);
    var r := RetryFrom(c, j, file, 0);
    assert UploadsWith(c, j, fc, file, r, |c.files|, fc + 1);
    LoopFromUploads(c, j, fc, file, r, |c.files|, fc + 1);
    LoopEnds(c, |c.files| + 1, fc + 1);
    forall k | k != j
      ensures Project(CallsOf(k), LoopFrom(c, j, fc).events) == []
    {
      ProjectUploaded(c, j, fc, file, r, |c.files|, fc + 1, CallsOf(k));
      RetryCalls(c, j, file, 0, k);
      ProgressMarks(c, file, |c.files| + 1, r.lastError, CallsOf(k));
      FinishMarks(c, fc + 1, CallsOf(k));
    }
  }

  // ---------------------------------------------------------------------------------------
  // Descriptors

  /** The remote path replaces every separator of the enumerated path with '/', so none is
      left when the separator is not '/' itself, and is joined onto a non-empty destination
      with `combineURLs`. */
  lemma RemotePathNormalized(c: Run, globFile: string)
    ensures var n := ReplaceAll(globFile, c.env.sep, '/');
      Describe(c, globFile).remoteFilePath == (if c.o.destination != "" then CombineURLs(c.o.destination, n) else n) &&
      (c.env.sep != '/' ==> c.env.sep !in n)
  {
    SplitJoinReplaces(globFile, c.env.sep, '/');
    var n := ReplaceAll(globFile, c.env.sep, '/');
    if c.env.sep != '/' {
      assert forall k :: 0 <= k < |n| ==> n[k] != c.env.sep;
    }
  }

  // ---------------------------------------------------------------------------------------
  // Whole runs

  /** A failed check rejects the run before `onStart` and before any call. */
  lemma RejectedBeforeStart(o: Options, env: Env)
    requires Validate(o, env).Failure?
    ensures UploadRun(o, env).events == [] && UploadRun(o, env).outcome == Rejected(Error(Validate(o, env).error))
  {
  }

  /** A run that passes the checks calls `onStart(total)` first; its failure count is at most
      the number of entries, and when it resolves its last event is `onFinish(total,
      failCount)`. */
  lemma RunBounds(o: Options, env: Env)
    requires Validate(o, env).Success?
    ensures var c := RunOf(o, env, Validate(o, env).value);
      var l := LoopFrom(c, 0, 0);
      var ev := UploadRun(o, env).events;
      (o.hasOnStart ==> |ev| > 0 && ev[0] == Started(|c.files|)) &&
      l.failCount <= |c.files| &&
      (l.outcome.Resolved? && o.hasOnFinish ==> |ev| > 0 && ev[|ev| - 1] == Finished(|c.files|, l.failCount))
  {
    var c := RunOf(o, env, Validate(o, env).value);
    var l := LoopFrom(c, 0, 0);
    LoopFailCount(c, 0, 0);
    LoopFinish(c, 0, 0);
    if l.outcome.Resolved? && o.hasOnFinish {
      LastOfAppend(StartEvents(o, |c.files|), l.events);
    }
  }
}
