/**
 * What one iteration of the upload worker guarantees, proved of the
 * specification in module WorkerSpec (which the imperative worker in
 * module Worker is proved to follow).
 */
module WorkerProperties {
  import opened Wrappers
  import opened Text
  import opened Guids
  import opened Contracts
  import opened Queues
  import opened Storage
  import opened WorkerSpec

  /* ---------------- progress percentages ---------------- */

  lemma DivAtMost(x: nat, d: nat, m: nat)
    requires d > 0 && x <= m * d
    ensures x / d <= m
  {
    var q := x / d;
    assert d * q <= x;
    if q > m {
      assert d * q >= d * (m + 1) by { MulMonotone(d, m + 1, q); }
      assert false;
    }
  }

  lemma MulMonotone(d: nat, a: nat, b: nat)
    requires a <= b
    ensures d * a <= d * b
  {
    assert d * b == d * a + d * (b - a);
  }

  lemma DivMonotone(x: nat, y: nat, d: nat)
    requires d > 0 && x <= y
    ensures x / d <= y / d
  {
    var qx, qy := x / d, y / d;
    assert d * qx + x % d == x;
    assert d * qy + y % d == y;
    if qx > qy {
      MulMonotone(d, qy + 1, qx);
      assert false;
    }
  }

  /** Division with remainder has one answer. */
  lemma DivUnique(x: nat, d: nat, q: nat, r: nat)
    requires d > 0 && r < d && x == d * q + r
    ensures x / d == q
  {
    var q', r' := x / d, x % d;
    assert x == d * q' + r';
    if q' < q {
      MulMonotone(d, q' + 1, q);
      assert false;
    } else if q' > q {
      MulMonotone(d, q + 1, q');
      assert false;
    }
  }

  /** Repeated subtraction computes the quotient of integer division. */
  lemma {:induction false} QuotientIsDivision(x: nat, d: nat)
    requires d > 0
    ensures Quotient(x, d) == x / d
    decreases x
  {
    if x < d {
      DivUnique(x, d, 0, x);
    } else {
      QuotientIsDivision(x - d, d);
      var q, r := (x - d) / d, (x - d) % d;
      assert x == d * (q + 1) + r;
      DivUnique(x, d, q + 1, r);
    }
  }

  /** While no more than the recorded size has been copied, the percentage lies between 0 and 100. */
  lemma PercentBounded(total: nat, fileSize: Int64)
    requires total <= fileSize
    ensures 0 <= Percent(total, fileSize) <= 100
  {
    var d := AtLeastOne(fileSize);
    var q := Quotient(total * 100, d);
    assert q <= 100 by {
      QuotientIsDivision(total * 100, d);
      MulMonotone(100, total, d);
      DivAtMost(total * 100, d, 100);
    }
    assert Percent(total, fileSize) == ToInt32(q);
  }

  /** Copying exactly the recorded (non-zero) size reports 100. */
  lemma PercentOfWholeFile(fileSize: Int64)
    requires fileSize > 0
    ensures Percent(fileSize, fileSize) == 100
  {
    var d := AtLeastOne(fileSize);
    assert Quotient(fileSize * 100, d) == 100 by {
      QuotientIsDivision(fileSize * 100, d);
      DivUnique(fileSize * 100, d, 100, 0);
    }
    assert Percent(fileSize, fileSize) == ToInt32(100);
  }

  /** More bytes copied never reports a smaller percentage, as long as the recorded size is not exceeded. */
  lemma PercentMonotone(t1: nat, t2: nat, fileSize: Int64)
    requires t1 <= t2 <= fileSize
    ensures Percent(t1, fileSize) <= Percent(t2, fileSize)
  {
    var d := AtLeastOne(fileSize);
    var q1, q2 := Quotient(t1 * 100, d), Quotient(t2 * 100, d);
    assert q1 <= q2 by {
      QuotientIsDivision(t1 * 100, d);
      QuotientIsDivision(t2 * 100, d);
      MulMonotone(100, t1, t2);
      DivMonotone(t1 * 100, t2 * 100, d);
    }
    assert q2 <= 100 by {
      QuotientIsDivision(t2 * 100, d);
      MulMonotone(100, t2, d);
      DivAtMost(t2 * 100, d, 100);
    }
    assert Percent(t1, fileSize) == ToInt32(q1);
    assert Percent(t2, fileSize) == ToInt32(q2);
  }

  /** The unchecked cast keeps the low 32 bits: the result is negative exactly when bit 31 is set. */
  lemma CastNegative(q: nat)
    ensures ToInt32(q) < 0 <==> q % 0x1_0000_0000 >= 0x8000_0000
  {
    var m := q % 0x1_0000_0000;
    var k := q / 0x1_0000_0000;
    assert q == 0x1_0000_0000 * k + m;
    if m < 0x8000_0000 {
      DivUnique(q + 0x8000_0000, 0x1_0000_0000, k, m + 0x8000_0000);
    } else {
      DivUnique(q + 0x8000_0000, 0x1_0000_0000, k + 1, m - 0x8000_0000);
    }
  }

  /**
   * The reported percentage is `total * 100 / Math.Max(1, FileSize)` while
   * that quotient fits an `int`, and it is negative exactly when bit 31 of
   * the quotient is set.
   */
  lemma PercentCast(total: nat, fileSize: Int64)
    ensures var q := total * 100 / AtLeastOne(fileSize);
      (q < 0x8000_0000 ==> Percent(total, fileSize) == q) &&
      (Percent(total, fileSize) < 0 <==> q % 0x1_0000_0000 >= 0x8000_0000)
  {
    var d := AtLeastOne(fileSize);
    QuotientIsDivision(total * 100, d);
    CastNegative(total * 100 / d);
  }

  /**
   * A file holding more than its recorded size reports more than 100, and
   * once the quotient passes the `int` range the cast wraps to a negative
   * value: two instances.
   */
  lemma PercentWrapsPastRecordedSize()
    ensures Percent(101, 100) == 101
    ensures Percent(21_474_837, 1) < 0
  {
    PercentCast(101, 100);
    PercentCast(21_474_837, 1);
  }

  /** The k-th progress update reports the bytes of the first k + 1 chunks. */
  lemma {:induction false} PrefixSumMonotone(cs: seq<nat>, j: nat, k: nat)
    requires j <= k <= |cs|
    ensures Sum(cs[..j]) <= Sum(cs[..k]) <= Sum(cs)
  {
    assert cs[..j] <= cs[..k];
    PrefixSumBounded(cs[..j], cs[..k]);
    assert cs[..k] <= cs;
    PrefixSumBounded(cs[..k], cs);
  }

  /**
   * The InProgress updates of one copy never go down and stay within 0..100,
   * provided the file does not exceed its recorded size.
   */
  lemma ProgressNonDecreasing(job: UploadJob, cs: seq<nat>, j: nat, k: nat)
    requires Sum(cs) <= job.fileSize
    requires j <= k < |cs|
    ensures var p := Progress(job, cs);
      0 <= p[j].progressPercent <= p[k].progressPercent <= 100
  {
    ProgressAt(job, cs, j);
    ProgressAt(job, cs, k);
    PrefixSumMonotone(cs, j + 1, k + 1);
    PercentMonotone(Sum(cs[..j + 1]), Sum(cs[..k + 1]), job.fileSize);
    PercentBounded(Sum(cs[..j + 1]), job.fileSize);
    PercentBounded(Sum(cs[..k + 1]), job.fileSize);
  }

  /** A complete copy of a non-empty file of the recorded size ends by reporting 100. */
  lemma ProgressEndsAtHundred(job: UploadJob, size: nat, grants: seq<nat>)
    requires size == job.fileSize > 0
    ensures var p := Progress(job, Chunks(size, grants, 0));
      |p| > 0 && p[|p| - 1] == UpdateFor(job, InProgress, 100)
  {
    var cs := Chunks(size, grants, 0);
    assert |cs| > 0;
    ProgressAt(job, cs, |cs| - 1);
    assert cs[..|cs|] == cs;
    PercentOfWholeFile(job.fileSize);
  }

  /* ---------------- the transfer executor ---------------- */

  /** The message of the exception that makes the executor fail. */
  function FailureMessage(s: State, job: UploadJob, io: Io): Option<string> {
    if job.tempPath !in s.staged then Some(StagedFileMissing)
    else if io.openFault.Some? then io.openFault
    else PlanCopy(|s.staged[job.tempPath]|, io).fault
  }

  /** Every update of the executor is about the job, and it never announces completion or requeueing. */
  predicate ExecutorUpdates(us: seq<UploadUpdate>, job: UploadJob) {
    forall k :: 0 <= k < |us| ==> SameJob(us[k], job) && (us[k].status == InProgress || us[k].status == Failed)
  }

  lemma {:induction false} ProgressUpdatesAboutJob(job: UploadJob, cs: seq<nat>)
    ensures forall k :: 0 <= k < |Progress(job, cs)| ==>
      SameJob(Progress(job, cs)[k], job) && Progress(job, cs)[k].status == InProgress
    decreases |cs|
  {
    if cs != [] {
      ProgressUpdatesAboutJob(job, cs[..|cs| - 1]);
    }
  }

  /**
   * The executor reports success exactly when the staged file exists, the
   * streams open and the copy runs through; it leaves both lists alone,
   * only appends updates about the job, and on failure keeps the staged
   * file and ends with a Failed update carrying the exception's message.
   */
  lemma ExecuteOutcome(s: State, job: UploadJob, io: Io)
    ensures var r := Execute(s, job, io);
      (r.success <==> TransferSucceeds(s, job, io)) &&
      r.state.queue == s.queue && r.state.dlq == s.dlq &&
      |r.state.published| >= |s.published| &&
      r.state.published[..|s.published|] == s.published &&
      ExecutorUpdates(r.state.published[|s.published|..], job) &&
      (!r.success ==>
        r.state.staged == s.staged &&
        |r.state.published| > |s.published| &&
        r.state.published[|r.state.published| - 1] == UpdateFor(job, Failed, 0, FailureMessage(s, job, io)))
  {
    var r := Execute(s, job, io);
    if job.tempPath in s.staged && io.openFault.None? {
      var src := s.staged[job.tempPath];
      var run := PlanCopy(|src|, io);
      ProgressUpdatesAboutJob(job, run.chunks);
      var mid := s.published + Progress(job, run.chunks);
      assert mid[|s.published|..] == Progress(job, run.chunks);
      if run.fault.Some? {
        var fin := mid + [UpdateFor(job, Failed, 0, run.fault)];
        assert r.state.published == fin;
        assert fin[|s.published|..] == Progress(job, run.chunks) + [UpdateFor(job, Failed, 0, run.fault)];
      }
    }
  }

  /**
   * A successful transfer leaves an exact copy of the staged file under
   * `{FileId}_{FileName}`, publishes one InProgress update per chunk read
   * and deletes the staged file, unless deleting it throws.
   */
  lemma ExecuteCopiesWholeFile(s: State, job: UploadJob, io: Io)
    requires TransferSucceeds(s, job, io)
    ensures var r := Execute(s, job, io);
      var src := s.staged[job.tempPath];
      r.success &&
      r.state.uploads == s.uploads[DestName(job) := src] &&
      r.state.staged == (if io.deleteFails then s.staged else s.staged - {job.tempPath}) &&
      r.state.published == s.published + Progress(job, Chunks(|src|, io.grants, 0))
  {
    var src := s.staged[job.tempPath];
    assert src[..|src|] == src;
  }

  /** A copy interrupted part-way leaves the bytes read so far at the destination and keeps the staged file. */
  lemma InterruptedCopyKeepsPrefix(s: State, job: UploadJob, io: Io)
    requires job.tempPath in s.staged && io.openFault.None?
    requires PlanCopy(|s.staged[job.tempPath]|, io).fault.Some?
    ensures var r := Execute(s, job, io);
      !r.success && DestName(job) in r.state.uploads &&
      r.state.uploads[DestName(job)] <= s.staged[job.tempPath] &&
      r.state.staged == s.staged
  {
    var src := s.staged[job.tempPath];
    var run := PlanCopy(|src|, io);
    PrefixSumBounded(run.chunks, Chunks(|src|, io.grants, 0));
  }

  /** The destination name tells jobs apart by file id and file name. */
  lemma DestNameInjective(a: UploadJob, b: UploadJob)
    ensures DestName(a) == DestName(b) <==> a.fileId == b.fileId && a.fileName == b.fileName
  {
    if DestName(a) == DestName(b) {
      assert Format(a.fileId) == DestName(a)[..36];
      assert Format(b.fileId) == DestName(b)[..36];
      FormatInjective(a.fileId, b.fileId);
      assert a.fileName == DestName(a)[37..];
      assert b.fileName == DestName(b)[37..];
    }
  }

  /* ---------------- one iteration of the worker loop ---------------- */

  /** With nothing to pop the iteration changes nothing. */
  lemma EmptyQueueWaits(s: State, io: Io)
    requires s.queue == []
    ensures Iterate(s, io) == s
  {
  }

  /** An entry that is not a job (such as a requeued bare attempt number) is popped and lost. */
  lemma NonJobEntryDropped(s: State, io: Io)
    requires s.queue != [] && !RightEnd(s.queue).JobEntry?
    ensures Iterate(s, io) == s.(queue := Front(s.queue))
  {
  }

  /**
   * Each iteration pops the right end of `upload:jobs`: all other entries
   * stay where they were, and at most one entry, a bare attempt number, is
   * added at the left end.
   */
  lemma IterationPopsRightEnd(s: State, io: Io)
    requires s.queue != []
    ensures var q := Iterate(s, io).queue;
      var rest := Front(s.queue);
      |rest| <= |q| <= |s.queue| && q[|q| - |rest|..] == rest &&
      (|q| > |rest| ==> q[0].AttemptOnly?)
  {
    var q := Iterate(s, io).queue;
    var rest := Front(s.queue);
    match Deserialize(RightEnd(s.queue))
    case None =>
      assert q == rest;
    case Some(job) =>
      ExecuteOutcome(Start(s, job), job, io);
      assert q == rest || q == [AttemptOnly(job.attempt + 1)] + rest;
  }

  /**
   * The queue never grows: an iteration pops at most one entry and pushes
   * at most one back. The dead-letter list gains at most one entry and
   * loses none.
   */
  lemma QueueNeverGrows(s: State, io: Io)
    ensures var t := Iterate(s, io);
      |t.queue| <= |s.queue| && |t.dlq| <= |s.dlq| + 1 && t.dlq[|t.dlq| - |s.dlq|..] == s.dlq
  {
    if s.queue != [] {
      IterationPopsRightEnd(s, io);
    }
  }

  /**
   * A popped job is announced with InProgress 0, every update the
   * iteration publishes is about that job, and the last one reports its
   * outcome (Completed, Queued or Failed), never progress.
   */
  lemma JobIterationReports(s: State, io: Io, job: UploadJob)
    requires s.queue != [] && RightEnd(s.queue) == JobEntry(job)
    ensures var t := Iterate(s, io);
      |t.published| >= |s.published| + 2 &&
      t.published[..|s.published|] == s.published &&
      t.published[|s.published|] == UpdateFor(job, InProgress, 0) &&
      (forall k :: |s.published| <= k < |t.published| ==> SameJob(t.published[k], job)) &&
      (forall k :: |s.published| <= k < |t.published| - 1 ==>
         t.published[k].status == InProgress || t.published[k].status == Failed) &&
      t.published[|t.published| - 1].status != InProgress
  {
    var st := Start(s, job);
    ExecuteOutcome(st, job, io);
    var t := Iterate(s, io);
    var mid := Execute(st, job, io).state.published;
    assert |mid| >= |st.published| == |s.published| + 1;
    assert mid[..|s.published|] == s.published by {
      assert mid[..|s.published|] == mid[..|st.published|][..|s.published|];
    }
    assert mid[|s.published|] == st.published[|s.published|];
    assert t.published == mid + [t.published[|t.published| - 1]];
    forall k | |s.published| <= k < |t.published|
      ensures SameJob(t.published[k], job)
      ensures k < |t.published| - 1 ==> t.published[k].status == InProgress || t.published[k].status == Failed
    {
      if k == |s.published| {
      } else if k < |mid| {
        assert mid[k] == mid[|st.published|..][k - |st.published|];
      }
    }
  }

  /**
   * A transferred job leaves the queue for good and is reported Completed
   * at 100. Its staged file is deleted, unless the delete throws: then the
   * file stays and the job still completes.
   */
  lemma SucceededJobCompletes(s: State, io: Io, job: UploadJob)
    requires s.queue != [] && RightEnd(s.queue) == JobEntry(job)
    requires TransferSucceeds(s, job, io)
    ensures var t := Iterate(s, io);
      t.queue == Front(s.queue) && t.dlq == s.dlq &&
      t.uploads[DestName(job)] == s.staged[job.tempPath] &&
      t.staged == (if io.deleteFails then s.staged else s.staged - {job.tempPath}) &&
      t.published[|t.published| - 1] == UpdateFor(job, Completed, 100)
  {
    ExecuteCopiesWholeFile(Start(s, job), job, io);
  }

  /**
   * A failed job below its third attempt is requeued on the left as its
   * bare incremented attempt number (not as the job), after the executor's
   * Failed update, with a Queued "Retry n/3" update.
   */
  lemma FailedJobRequeuedAsAttemptOnly(s: State, io: Io, job: UploadJob)
    requires s.queue != [] && RightEnd(s.queue) == JobEntry(job)
    requires !TransferSucceeds(s, job, io) && job.attempt < MaxAttempts
    ensures var t := Iterate(s, io);
      var n := |t.published|;
      t.queue == [AttemptOnly(job.attempt + 1)] + Front(s.queue) && t.dlq == s.dlq &&
      t.staged == s.staged && n >= 2 &&
      t.published[n - 2] == UpdateFor(job, Failed, 0, FailureMessage(s, job, io)) &&
      t.published[n - 1] == UpdateFor(job, Queued, 0, Some(RetryMessage(job.attempt + 1)))
  {
    var st := Start(s, job);
    var r := Execute(st, job, io);
    assert !r.success && r.state.queue == Front(s.queue) && r.state.dlq == s.dlq && r.state.staged == s.staged &&
      |r.state.published| > 0 &&
      r.state.published[|r.state.published| - 1] == UpdateFor(job, Failed, 0, FailureMessage(s, job, io)) by {
      ExecuteOutcome(st, job, io);
      assert FailureMessage(st, job, io) == FailureMessage(s, job, io);
    }
    var update := UpdateFor(job, Queued, 0, Some(RetryMessage(job.attempt + 1)));
    assert Iterate(s, io) == r.state.(queue := LeftPush(r.state.queue, AttemptOnly(job.attempt + 1)),
                                      published := r.state.published + [update]);
  }

  /** A failed job at its third attempt or later goes to the dead-letter list and is reported Failed. */
  lemma ExhaustedJobDeadLettered(s: State, io: Io, job: UploadJob)
    requires s.queue != [] && RightEnd(s.queue) == JobEntry(job)
    requires !TransferSucceeds(s, job, io) && job.attempt >= MaxAttempts
    ensures var t := Iterate(s, io);
      var n := |t.published|;
      t.queue == Front(s.queue) && t.dlq == [JobEntry(job)] + s.dlq &&
      t.staged == s.staged && n >= 2 &&
      t.published[n - 2] == UpdateFor(job, Failed, 0, FailureMessage(s, job, io)) &&
      t.published[n - 1] == UpdateFor(job, Failed, 0, Some(MaxRetriesExceeded))
  {
    var st := Start(s, job);
    ExecuteOutcome(st, job, io);
    assert FailureMessage(st, job, io) == FailureMessage(s, job, io);
  }

  /* ---------------- scenarios ---------------- */

  /**
   * A 100-byte file copied without faults: InProgress 0, one InProgress
   * update per chunk (a single one, at 100), then Completed 100. The staged
   * file is gone afterwards unless deleting it was refused (as Windows
   * refuses while the source stream is still open).
   */
  lemma HundredByteFile(s: State, job: UploadJob, deleteFails: bool)
    requires s.queue == [JobEntry(job)] && job.fileSize == 100
    requires job.tempPath in s.staged && |s.staged[job.tempPath]| == 100
    ensures var t := Iterate(s, Io(None, [], None, deleteFails));
      t.queue == [] && t.dlq == s.dlq &&
      t.published == s.published + [UpdateFor(job, InProgress, 0), UpdateFor(job, InProgress, 100), UpdateFor(job, Completed, 100)] &&
      t.uploads[DestName(job)] == s.staged[job.tempPath] &&
      (job.tempPath in t.staged <==> deleteFails)
  {
    var io := Io(None, [], None, deleteFails);
    assert Chunks(100, [], 0) == [100] by {
      assert ReadCount(100, GrantAt([], 0)) == 100;
    }
    assert Progress(job, [100]) == [UpdateFor(job, InProgress, 100)] by {
      assert [100][..0] == [];
      PercentOfWholeFile(100);
    }
    ExecuteCopiesWholeFile(Start(s, job), job, io);
  }

  /** A third attempt whose staged file is gone goes to the dead-letter list. */
  lemma MissingFileOnLastAttempt(s: State, io: Io, job: UploadJob)
    requires s.queue == [JobEntry(job)] && job.attempt == 3 && job.tempPath !in s.staged
    ensures var t := Iterate(s, io);
      t.queue == [] && t.dlq == [JobEntry(job)] + s.dlq &&
      t.published == s.published + [UpdateFor(job, InProgress, 0),
                                    UpdateFor(job, Failed, 0, Some(StagedFileMissing)),
                                    UpdateFor(job, Failed, 0, Some(MaxRetriesExceeded))]
  {
  }

  /**
   * A job that fails before its third attempt is never retried: the entry
   * requeued for it holds only the attempt number, so the next pop loses
   * it. After two iterations the queue is empty, nothing was dead-lettered
   * and no update reported the job completed.
   */
  lemma RetriedJobIsLost(s: State, io1: Io, io2: Io, job: UploadJob)
    requires s.queue == [JobEntry(job)]
    requires !TransferSucceeds(s, job, io1) && job.attempt < MaxAttempts
    ensures var t := Iterate(Iterate(s, io1), io2);
      t.queue == [] && t.dlq == s.dlq &&
      |t.published| >= |s.published| &&
      forall k :: |s.published| <= k < |t.published| ==> t.published[k].status != Completed
  {
    var t1 := Iterate(s, io1);
    assert t1.queue == [AttemptOnly(job.attempt + 1)] && t1.dlq == s.dlq by {
      FailedJobRequeuedAsAttemptOnly(s, io1, job);
    }
    assert |t1.published| >= |s.published| &&
      forall k :: |s.published| <= k < |t1.published| ==> t1.published[k].status != Completed by {
      JobIterationReports(s, io1, job);
    }
    NonJobEntryDropped(t1, io2);
  }
}
