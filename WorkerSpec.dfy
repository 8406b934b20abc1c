/**
 * What one iteration of the worker loop does to the external state, as a
 * function of that state and of what the file system does (the `Io`
 * oracle). The imperative worker in module Worker is proved to do exactly
 * this; module WorkerProperties proves what it means.
 */
module WorkerSpec {
  import opened Wrappers
  import opened Text
  import opened Guids
  import opened Contracts
  import opened Queues
  import opened Storage

  /** A failed job is requeued while its attempt count is below this. */
  const MaxAttempts: Int32 := 3

  /** The copy buffer: 256 KiB. */
  const BufferSize: nat := 256 * 1024

  /** The message of the exception thrown when the staged file does not exist. */
  const StagedFileMissing: string := "Staged file missing"

  const MaxRetriesExceeded: string := "Max retries exceeded"

  /** The copy's `afterChunks`-th read (counting from 0), or the flush after the last one, throws. */
  datatype CopyFault = CopyFault(afterChunks: nat, message: string)

  /**
   * What the file system does during one transfer:
   *  - openFault: creating the Uploads folder or opening either stream throws;
   *  - grants: how many bytes the i-th read is willing to return (a read
   *    returns at least one byte while data remains, and no more than the
   *    buffer or the data left; past the end of `grants` reads are full);
   *  - copyFault: a read, write or flush that throws part-way;
   *  - deleteFails: deleting the staged file throws (and is ignored).
   * Cancellation during a transfer surfaces as one of these faults.
   */
  datatype Io = Io(openFault: Option<string>, grants: seq<nat>, copyFault: Option<CopyFault>, deleteFails: bool)

  /** `new UploadUpdate(job.JobId, job.FileId, job.FileName, status, percent, error)`. */
  function UpdateFor(job: UploadJob, status: UploadStatusKind, percent: Int32, error: Option<string> := None): (u: UploadUpdate)
    ensures SameJob(u, job)
  {
    UploadUpdate(job.jobId, job.fileId, job.fileName, status, percent, error)
  }

  /** The update identifies the job: same JobId, FileId and FileName. */
  predicate SameJob(u: UploadUpdate, job: UploadJob) {
    u.jobId == job.jobId && u.fileId == job.fileId && u.fileName == job.fileName
  }

  /** The unchecked `(int)` cast of a `long`: keeps the low 32 bits, as a signed value. */
  function ToInt32(x: int): (r: Int32)
    ensures -0x8000_0000 <= x < 0x8000_0000 ==> r == x
    ensures (x - r) % 0x1_0000_0000 == 0
  {
    (x + 0x8000_0000) % 0x1_0000_0000 - 0x8000_0000
  }

  /**
   * `(int)(total * 100 / Math.Max(1, job.FileSize))`. Both operands of the
   * division are non-negative; the quotient is computed by `Quotient`.
   */
  function Percent(total: nat, fileSize: Int64): Int32 {
    ToInt32(Quotient(total * 100, AtLeastOne(fileSize)))
  }

  /** The quotient of `x` by `d`, as C#'s `/` computes it on non-negative operands. */
  function Quotient(x: nat, d: nat): nat
    requires d > 0
    decreases x
  {
    if x < d then 0 else 1 + Quotient(x - d, d)
  }

  /** `Math.Max(1, fileSize)`. */
  function AtLeastOne(fileSize: Int64): (d: nat)
    ensures d >= 1 && d >= fileSize && (fileSize >= 1 ==> d == fileSize)
    ensures fileSize <= 1 ==> d == 1
  {
    if fileSize > 1 then fileSize else 1
  }

  function GrantAt(grants: seq<nat>, i: nat): nat {
    if i < |grants| then grants[i] else BufferSize
  }

  /** How many bytes a read returns when `remaining` bytes are left: 0 only at the end. */
  function ReadCount(remaining: nat, grant: nat): (r: nat)
    ensures remaining == 0 ==> r == 0
    ensures remaining > 0 ==> 0 < r <= remaining && r <= BufferSize
  {
    if remaining == 0 then 0
    else if grant == 0 then 1
    else if grant <= remaining && grant <= BufferSize then grant
    else if remaining <= BufferSize then remaining
    else BufferSize
  }

  function Sum(cs: seq<nat>): nat {
    if cs == [] then 0 else cs[0] + Sum(cs[1..])
  }

  /**
   * The sizes of the reads that return data, from the `i`-th read on,
   * when `remaining` bytes are left: every chunk holds between one byte
   * and a full buffer, and together they are exactly what is left.
   */
  function Chunks(remaining: nat, grants: seq<nat>, i: nat): (cs: seq<nat>)
    ensures Sum(cs) == remaining
    decreases remaining
  {
    if remaining == 0 then []
    else
      var r := ReadCount(remaining, GrantAt(grants, i));
      [r] + Chunks(remaining - r, grants, i + 1)
  }

  /** Every read that returns data returns between one byte and a full buffer. */
  lemma {:induction false} ChunksWithinBuffer(remaining: nat, grants: seq<nat>, i: nat)
    ensures forall k :: 0 <= k < |Chunks(remaining, grants, i)| ==> 0 < Chunks(remaining, grants, i)[k] <= BufferSize
    decreases remaining
  {
    if remaining > 0 {
      var r := ReadCount(remaining, GrantAt(grants, i));
      ChunksWithinBuffer(remaining - r, grants, i + 1);
    }
  }

  lemma {:induction false} SumSnoc(cs: seq<nat>, c: nat)
    ensures Sum(cs + [c]) == Sum(cs) + c
  {
    if cs != [] {
      assert (cs + [c])[1..] == cs[1..] + [c];
      SumSnoc(cs[1..], c);
    } else {
      assert [c][1..] == [];
    }
  }

  /** The InProgress updates published after each chunk: the percentage of the bytes copied so far. */
  function Progress(job: UploadJob, cs: seq<nat>): (us: seq<UploadUpdate>)
    ensures |us| == |cs|
    decreases |cs|
  {
    if cs == [] then []
    else Progress(job, cs[..|cs| - 1]) + [UpdateFor(job, InProgress, Percent(Sum(cs), job.fileSize))]
  }

  /** One more chunk publishes one more update, for the new total. */
  lemma ProgressSnoc(job: UploadJob, cs: seq<nat>, c: nat, total: nat)
    requires total == Sum(cs) + c
    ensures Progress(job, cs + [c]) == Progress(job, cs) + [UpdateFor(job, InProgress, Percent(total, job.fileSize))]
  {
    var ext := cs + [c];
    assert ext[..|ext| - 1] == cs;
    assert Sum(ext) == total by { SumSnoc(cs, c); }
  }

  /** The k-th update reports the bytes of the first k + 1 chunks. */
  lemma {:induction false} ProgressAt(job: UploadJob, cs: seq<nat>, k: nat)
    requires k < |cs|
    ensures |Progress(job, cs)| == |cs|
    ensures Progress(job, cs)[k] == UpdateFor(job, InProgress, Percent(Sum(cs[..k + 1]), job.fileSize))
    decreases |cs|
  {
    var front := cs[..|cs| - 1];
    if k < |front| {
      ProgressAt(job, front, k);
      assert front[..k + 1] == cs[..k + 1];
    } else {
      assert cs[..k + 1] == cs;
      if front != [] {
        ProgressAt(job, front, 0);
      }
    }
  }

  /** Reading one more chunk: the chunk sizes still to come shift by one. */
  lemma ChunkStep(all: seq<nat>, done: seq<nat>, remaining: nat, grants: seq<nat>, i: nat)
    requires remaining > 0
    requires all == done + Chunks(remaining, grants, i)
    ensures var r := ReadCount(remaining, GrantAt(grants, i));
      all == (done + [r]) + Chunks(remaining - r, grants, i + 1)
  {
  }

  /** The chunks a copy gets through, and the fault that stopped it, if any. */
  datatype CopyRun = CopyRun(chunks: seq<nat>, fault: Option<string>)

  function PlanCopy(size: nat, io: Io): (run: CopyRun)
    ensures run.chunks <= Chunks(size, io.grants, 0)
    ensures run.fault.None? ==> run.chunks == Chunks(size, io.grants, 0)
  {
    var all := Chunks(size, io.grants, 0);
    match io.copyFault
    case Some(CopyFault(k, msg)) =>
      if k <= |all| then CopyRun(all[..k], Some(msg)) else CopyRun(all, None)
    case None => CopyRun(all, None)
  }

  /** A copy stopped by its fault has been through exactly the chunks before it. */
  lemma PlanStopsAtFault(size: nat, io: Io, done: seq<nat>, remaining: nat)
    requires Chunks(size, io.grants, 0) == done + Chunks(remaining, io.grants, |done|)
    requires io.copyFault.Some? && io.copyFault.value.afterChunks == |done|
    ensures PlanCopy(size, io) == CopyRun(done, Some(io.copyFault.value.message))
  {
    assert Chunks(size, io.grants, 0)[..|done|] == done;
  }

  /** A copy whose fault lies beyond its chunks runs through all of them. */
  lemma PlanRunsToEnd(size: nat, io: Io, done: seq<nat>)
    requires Chunks(size, io.grants, 0) == done + Chunks(0, io.grants, |done|)
    requires io.copyFault.Some? ==> io.copyFault.value.afterChunks > |done|
    ensures PlanCopy(size, io) == CopyRun(done, None)
  {
    assert Chunks(size, io.grants, 0) == done;
  }

  /** The destination file, `{FileId}_{FileName}`, in the Uploads folder. */
  function DestName(job: UploadJob): string {
    Format(job.fileId) + "_" + job.fileName
  }

  /** The executor's outcome: the state it leaves and whether it reports success. */
  datatype Attempted = Attempted(state: State, success: bool)

  /** The executor succeeds when the staged file exists, opening works and the copy is not interrupted. */
  predicate TransferSucceeds(s: State, job: UploadJob, io: Io) {
    job.tempPath in s.staged && io.openFault.None? &&
    PlanCopy(|s.staged[job.tempPath]|, io).fault.None?
  }

  /**
   * `ProcessJob`: copy the staged file to the destination chunk by chunk,
   * publishing progress, then delete the staged file; on any fault publish
   * the executor's own Failed update and report failure.
   */
  function Execute(s: State, job: UploadJob, io: Io): (r: Attempted)
    ensures r.success <==> TransferSucceeds(s, job, io)
    ensures r.state.queue == s.queue && r.state.dlq == s.dlq
    ensures !r.success ==> r.state.staged == s.staged
  {
    if job.tempPath !in s.staged then
      Attempted(s.(published := s.published + [UpdateFor(job, Failed, 0, Some(StagedFileMissing))]), false)
    else if io.openFault.Some? then
      Attempted(s.(published := s.published + [UpdateFor(job, Failed, 0, io.openFault)]), false)
    else
      var src := s.staged[job.tempPath];
      var run := PlanCopy(|src|, io);
      assert Sum(run.chunks) <= |src| by { PrefixSumBounded(run.chunks, Chunks(|src|, io.grants, 0)); }
      var copied := s.(uploads := s.uploads[DestName(job) := src[..Sum(run.chunks)]],
                       published := s.published + Progress(job, run.chunks));
      match run.fault
      case Some(msg) =>
        Attempted(copied.(published := copied.published + [UpdateFor(job, Failed, 0, Some(msg))]), false)
      case None =>
        Attempted(copied.(staged := if io.deleteFails then copied.staged else copied.staged - {job.tempPath}), true)
  }

  lemma {:induction false} PrefixSumBounded(p: seq<nat>, cs: seq<nat>)
    requires p <= cs
    ensures Sum(p) <= Sum(cs)
  {
    if p != [] {
      assert p[1..] <= cs[1..];
      PrefixSumBounded(p[1..], cs[1..]);
    }
  }

  /** "Retry {n}/3": the attempt number can be read back from the message. */
  function RetryMessage(n: int): (m: string)
    ensures |m| > 8 && m[..6] == "Retry " && m[|m| - 2..] == "/3"
    ensures var digits := m[6..|m| - 2];
      (forall k :: 0 <= k < |digits| ==> IsNumeralChar(digits[k])) && ParseInt(digits) == n
  {
    var digits := IntToString(n);
    ParseIntToString(n);
    var m := "Retry " + digits + "/3";
    assert m[6..|m| - 2] == digits;
    m
  }

  /** The state right after RPOP, before anything else happens. */
  function Claim(s: State): State
    requires s.queue != []
  {
    s.(queue := Front(s.queue))
  }

  /** The state after the InProgress(0) update that announces a popped job. */
  function Start(s: State, job: UploadJob): State
    requires s.queue != []
  {
    var c := Claim(s);
    c.(published := c.published + [UpdateFor(job, InProgress, 0)])
  }

  /**
   * One iteration of the `ExecuteAsync` loop: pop the right end of the
   * queue; if there is nothing, wait; if it is not a job, lose it; else
   * announce it, run the executor and publish the outcome, requeueing a
   * failed job as its bare incremented attempt number while its attempt
   * count is below 3 and dead-lettering it after that.
   */
  function Iterate(s: State, io: Io): State {
    if s.queue == [] then s
    else
      match Deserialize(RightEnd(s.queue))
      case None => Claim(s)
      case Some(job) =>
        var outcome := Execute(Start(s, job), job, io);
        var t := outcome.state;
        if outcome.success then
          t.(published := t.published + [UpdateFor(job, Completed, 100)])
        else if job.attempt < MaxAttempts then
          t.(queue := LeftPush(t.queue, AttemptOnly(job.attempt + 1)),
             published := t.published + [UpdateFor(job, Queued, 0, Some(RetryMessage(job.attempt + 1)))])
        else
          t.(dlq := LeftPush(t.dlq, JobEntry(job)),
             published := t.published + [UpdateFor(job, Failed, 0, Some(MaxRetriesExceeded))])
  }

  /** The loop run for as many iterations as there are oracles, until cancellation. */
  function IterateAll(s: State, ios: seq<Io>): State {
    if ios == [] then s else Iterate(IterateAll(s, ios[..|ios| - 1]), ios[|ios| - 1])
  }
}
