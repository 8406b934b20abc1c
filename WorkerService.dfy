/**
 * The upload worker: a background loop that drains `upload:jobs`, copies
 * each job's staged file into the Uploads folder with progress updates,
 * and requeues or dead-letters failed jobs. Every method is proved to have
 * the effect that module WorkerSpec defines.
 */
module Worker {
  import opened Wrappers
  import opened Contracts
  import opened Queues
  import opened Storage
  import opened WorkerSpec

  class WorkerService {
    /** The broker and the disk, shared with the API. */
    const store: Store

    constructor (store: Store)
      ensures this.store == store
    {
      this.store := store;
    }

    /** `ExecuteAsync`: one iteration per oracle, until cancellation is observed. */
    method ExecuteAsync(ios: seq<Io>)
      modifies store
      ensures store.Snapshot() == IterateAll(old(store.Snapshot()), ios)
    {
      var i := 0;
      while i < |ios|
        invariant 0 <= i <= |ios|
        invariant store.Snapshot() == IterateAll(old(store.Snapshot()), ios[..i])
      {
        RunIteration(ios[i]);
        assert ios[..i + 1][..i] == ios[..i];
        i := i + 1;
      }
      assert ios[..|ios|] == ios;
    }

    /** The body of the `ExecuteAsync` loop, including its catch-all. */
    method RunIteration(io: Io)
      modifies store
      ensures store.Snapshot() == Iterate(old(store.Snapshot()), io)
    {
      if store.queue == [] {
        return;
      }
      var res := RightEnd(store.queue);
      store.queue := Front(store.queue);
      var decoded := Deserialize(res);
      if decoded.None? {
        // The deserialization fault is caught by the loop; the entry is gone.
        return;
      }
      var job := decoded.value;
      Publish(UpdateFor(job, InProgress, 0));
      var success := ProcessJob(job, io);
      if success {
        Publish(UpdateFor(job, Completed, 100));
      } else if job.attempt < MaxAttempts {
        var retried := job.(attempt := job.attempt + 1);
        store.queue := LeftPush(store.queue, AttemptOnly(retried.attempt));
        Publish(UpdateFor(retried, Queued, 0, Some(RetryMessage(retried.attempt))));
      } else {
        store.dlq := LeftPush(store.dlq, JobEntry(job));
        Publish(UpdateFor(job, Failed, 0, Some(MaxRetriesExceeded)));
      }
    }

    /** The transfer executor: returns whether the copy succeeded. */
    method ProcessJob(job: UploadJob, io: Io) returns (ok: bool)
      modifies store
      ensures Execute(old(store.Snapshot()), job, io) == Attempted(store.Snapshot(), ok)
    {
      if job.tempPath !in store.staged {
        Publish(UpdateFor(job, Failed, 0, Some(StagedFileMissing)));
        return false;
      }
      if io.openFault.Some? {
        Publish(UpdateFor(job, Failed, 0, io.openFault));
        return false;
      }
      var dest := DestName(job);
      var src := store.staged[job.tempPath];
      store.uploads := store.uploads[dest := []];
      var fault := CopyWithProgress(src, dest, job, io);
      ghost var s0 := old(store.Snapshot());
      ghost var run := PlanCopy(|src|, io);
      assert store.Snapshot() == s0.(uploads := s0.uploads[dest := src[..Sum(run.chunks)]],
                                     published := s0.published + Progress(job, run.chunks));
      if fault.Some? {
        Publish(UpdateFor(job, Failed, 0, fault));
        return false;
      }
      if !io.deleteFails {
        store.staged := store.staged - {job.tempPath};
      }
      return true;
    }

    /**
     * Copy `src` into the (just created, empty) destination through a
     * 256 KiB buffer, publishing the percentage copied after each chunk.
     */
    method CopyWithProgress(src: seq<byte>, dest: string, job: UploadJob, io: Io) returns (fault: Option<string>)
      requires dest in store.uploads && store.uploads[dest] == []
      modifies store
      ensures var run := PlanCopy(|src|, io);
        Sum(run.chunks) <= |src| && fault == run.fault &&
        store.uploads == old(store.uploads)[dest := src[..Sum(run.chunks)]] &&
        store.published == old(store.published) + Progress(job, run.chunks)
      ensures store.queue == old(store.queue) && store.dlq == old(store.dlq) && store.staged == old(store.staged)
    {
      var buffer := new byte[BufferSize];
      var total: nat := 0;
      var i: nat := 0;
      ghost var done: seq<nat> := [];
      ghost var rem: nat := |src|;
      ghost var all := Chunks(|src|, io.grants, 0);
      while true
        invariant total <= |src| && rem == |src| - total
        invariant all == done + Chunks(rem, io.grants, i)
        invariant i == |done| && total == Sum(done)
        invariant io.copyFault.Some? ==> io.copyFault.value.afterChunks >= i
        invariant store.uploads == old(store.uploads)[dest := src[..total]]
        invariant store.published == old(store.published) + Progress(job, done)
        invariant store.queue == old(store.queue) && store.dlq == old(store.dlq) && store.staged == old(store.staged)
        decreases rem
      {
        if io.copyFault.Some? && io.copyFault.value.afterChunks == i {
          PlanStopsAtFault(|src|, io, done, rem);
          fault := Some(io.copyFault.value.message);
          return;
        }
        var read := ReadCount(|src| - total, GrantAt(io.grants, i));
        if read == 0 {
          PlanRunsToEnd(|src|, io, done);
          break;
        }
        total, i, done, rem := NextChunk(buffer, src, dest, job, io, all, done, total, i, rem, read,
                                         old(store.uploads), old(store.published));
      }
      fault := None;
    }

    /**
     * A turn of the copy loop that reads `count` > 0 bytes: copies them and
     * accounts for them in the ghost schedule of the copy (`all`, the
     * chunks the copy reads; `done`, those read so far; `rem`, the bytes left).
     */
    method NextChunk(buffer: array<byte>, src: seq<byte>, dest: string, job: UploadJob, io: Io,
                     ghost all: seq<nat>, ghost done: seq<nat>, total: nat, i: nat, ghost rem: nat, count: nat,
                     ghost uploads0: map<string, seq<byte>>, ghost published0: seq<UploadUpdate>)
      returns (total': nat, i': nat, ghost done': seq<nat>, ghost rem': nat)
      requires buffer.Length == BufferSize
      requires rem == |src| - total && count == ReadCount(rem, GrantAt(io.grants, i)) && count > 0
      requires all == done + Chunks(rem, io.grants, i)
      requires i == |done| && total == Sum(done)
      requires store.uploads == uploads0[dest := src[..total]]
      requires store.published == published0 + Progress(job, done)
      modifies store, buffer
      ensures i' == i + 1 && total' <= |src| && rem' == |src| - total' && rem' < rem
      ensures all == done' + Chunks(rem', io.grants, i')
      ensures i' == |done'| && total' == Sum(done')
      ensures store.uploads == uploads0[dest := src[..total']]
      ensures store.published == published0 + Progress(job, done')
      ensures store.queue == old(store.queue) && store.dlq == old(store.dlq) && store.staged == old(store.staged)
    {
      ChunkStep(all, done, rem, io.grants, i);
      SumSnoc(done, count);
      CopyChunk(buffer, src, dest, job, done, total, count, uploads0, published0);
      total', i', done', rem' := total + count, i + 1, done + [count], rem - count;
    }

    /**
     * One turn of the copy loop: read `count` bytes into the buffer, write
     * them to the destination and publish the percentage copied so far.
     * `done` lists the chunks copied before, and `uploads0`, `published0`
     * the state the copy began in.
     */
    method CopyChunk(buffer: array<byte>, src: seq<byte>, dest: string, job: UploadJob,
                     ghost done: seq<nat>, total: nat, count: nat,
                     ghost uploads0: map<string, seq<byte>>, ghost published0: seq<UploadUpdate>)
      requires buffer.Length == BufferSize && count <= BufferSize
      requires total + count <= |src| && total == Sum(done)
      requires store.uploads == uploads0[dest := src[..total]]
      requires store.published == published0 + Progress(job, done)
      modifies store, buffer
      ensures store.uploads == uploads0[dest := src[..total + count]]
      ensures store.published == published0 + Progress(job, done + [count])
      ensures store.queue == old(store.queue) && store.dlq == old(store.dlq) && store.staged == old(store.staged)
    {
      forall k | 0 <= k < count {
        buffer[k] := src[total + k];
      }
      var chunk := buffer[..count];
      SliceOf(chunk, src, total);
      assert src[..total] + chunk == src[..total + count];
      store.uploads := store.uploads[dest := store.uploads[dest] + chunk];
      Overwrite(uploads0, dest, src[..total], src[..total + count]);
      ProgressSnoc(job, done, count, total + count);
      Publish(UpdateFor(job, InProgress, Percent(total + count, job.fileSize)));
    }

    /** Send one update on `upload:updates`. */
    method Publish(u: UploadUpdate)
      modifies store
      ensures store.published == old(store.published) + [u]
      ensures store.queue == old(store.queue) && store.dlq == old(store.dlq)
      ensures store.staged == old(store.staged) && store.uploads == old(store.uploads)
    {
      store.published := store.published + [u];
    }
  }

  /** A sequence that agrees with `src` element by element from `from` on is that slice of `src`. */
  lemma SliceOf(chunk: seq<byte>, src: seq<byte>, from: nat)
    requires from + |chunk| <= |src|
    requires forall k :: 0 <= k < |chunk| ==> chunk[k] == src[from + k]
    ensures chunk == src[from..from + |chunk|]
  {
  }

  lemma Overwrite<K, V>(m: map<K, V>, k: K, a: V, b: V)
    ensures m[k := a][k := b] == m[k := b]
  {
  }
}
