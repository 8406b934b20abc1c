/**
 * The API's upload endpoint: stage the posted file in the Inbox folder,
 * LPUSH a job for it onto `upload:jobs` and announce it as Queued.
 * `Guid.NewGuid()` is modelled by parameters: the two identifiers are
 * whatever the caller supplies.
 */
module Api {
  import opened Wrappers
  import opened Guids
  import opened Paths
  import opened Contracts
  import opened Queues
  import opened Storage
  import opened WorkerSpec
  import WorkerProperties

  /** The body of a posted file: its length is a `long`. */
  type Content = s: seq<byte> | |s| < 0x8000_0000_0000_0000

  /** The posted multipart file: the client's file name, if any, and the bytes. */
  datatype FormFile = FormFile(fileName: Option<string>, content: Content)

  /** 400 with a message, or 200 with `{ jobId, fileId, fileName, size }`. */
  datatype UploadResponse =
    | BadRequest(message: string)
    | Ok(jobId: Guid, fileId: Guid, fileName: string, size: Int64)

  const FileMissing: string := "file missing"

  /** The name used when the client sends none. */
  const DefaultFileName: string := "upload.bin"

  /** The response and the state an upload leaves. */
  datatype Uploaded = Uploaded(state: State, response: UploadResponse)

  /** The name of the staged file: `{jobId}_{Path.GetFileName(fileName)}`. */
  function StagedName(jobId: Guid, fileName: string): string {
    Format(jobId) + "_" + GetFileName(fileName)
  }

  /** The job the endpoint queues for an accepted file. */
  function NewJob(inbox: string, file: FormFile, jobId: Guid, fileId: Guid): UploadJob {
    var fileName := file.fileName.GetOr(DefaultFileName);
    UploadJob(jobId, fileId, fileName, Combine(inbox, StagedName(jobId, fileName)), |file.content|, 0)
  }

  /**
   * `Upload`: reject a missing or empty file; otherwise write it to the
   * Inbox, push its job on the left of `upload:jobs`, publish Queued 0 and
   * answer with the identifiers, the name and the size. The worker's
   * Uploads folder and the dead-letter list are never touched.
   */
  function UploadEffect(s: State, inbox: string, file: Option<FormFile>, jobId: Guid, fileId: Guid): Uploaded {
    if file.None? || |file.value.content| == 0 then Uploaded(s, BadRequest(FileMissing))
    else
      var job := NewJob(inbox, file.value, jobId, fileId);
      Uploaded(
        s.(staged := s.staged[job.tempPath := file.value.content],
           queue := LeftPush(s.queue, JobEntry(job)),
           published := s.published + [UploadUpdate(jobId, fileId, job.fileName, Queued, 0, None)]),
        Ok(jobId, fileId, job.fileName, job.fileSize))
  }

  class UploadController {
    /** The broker and the disk, shared with the worker. */
    const store: Store
    /** `{AppContext.BaseDirectory}\Inbox`. */
    const inbox: string

    constructor (store: Store, baseDirectory: string)
      ensures this.store == store && inbox == Combine(baseDirectory, "Inbox")
    {
      this.store := store;
      inbox := Combine(baseDirectory, "Inbox");
    }

    /** `POST api/upload`. */
    method Upload(file: Option<FormFile>, jobId: Guid, fileId: Guid) returns (response: UploadResponse)
      modifies store
      ensures UploadEffect(old(store.Snapshot()), inbox, file, jobId, fileId) == Uploaded(store.Snapshot(), response)
    {
      if file.None? || |file.value.content| == 0 {
        return BadRequest(FileMissing);
      }
      ghost var s0 := store.Snapshot();
      var fileName := file.value.fileName.GetOr(DefaultFileName);
      var tempFileName := StagedName(jobId, fileName);
      var tempPath := Combine(inbox, tempFileName);
      store.staged := store.staged[tempPath := file.value.content];
      var size: Int64 := |store.staged[tempPath]|;
      var job := UploadJob(jobId, fileId, fileName, tempPath, size, 0);
      assert job == NewJob(inbox, file.value, jobId, fileId);
      store.queue := LeftPush(store.queue, JobEntry(job));
      var update := UploadUpdate(jobId, fileId, fileName, Queued, 0, None);
      store.published := store.published + [update];
      response := Ok(jobId, fileId, fileName, size);
      assert store.Snapshot() == s0.(staged := s0.staged[tempPath := file.value.content],
                                     queue := LeftPush(s0.queue, JobEntry(job)),
                                     published := s0.published + [update]);
    }
  }

  /** The request is refused exactly when the file is missing or empty, and a refusal changes nothing. */
  lemma RejectsExactlyMissingFiles(s: State, inbox: string, file: Option<FormFile>, jobId: Guid, fileId: Guid)
    ensures var u := UploadEffect(s, inbox, file, jobId, fileId);
      (u.response.BadRequest? <==> file.None? || |file.value.content| == 0) &&
      (u.response.BadRequest? ==> u.response.message == FileMissing && u.state == s)
  {
  }

  /**
   * An accepted file is staged with its bytes, exactly one job for it is
   * pushed on the left of `upload:jobs` (attempt 0, the staged size) and
   * exactly one Queued 0 update is published; the dead-letter list and the
   * Uploads folder are untouched, and the response echoes the job.
   */
  lemma AcceptedUploadQueuesOneJob(s: State, inbox: string, f: FormFile, jobId: Guid, fileId: Guid)
    requires |f.content| > 0
    ensures var u := UploadEffect(s, inbox, Some(f), jobId, fileId);
      var t := u.state;
      |t.queue| == |s.queue| + 1 && t.queue[1..] == s.queue && t.queue[0].JobEntry? &&
      var job := t.queue[0].job;
      job.jobId == jobId && job.fileId == fileId && job.attempt == 0 &&
      job.fileName == (if f.fileName.Some? then f.fileName.value else "upload.bin") &&
      t.staged == s.staged[job.tempPath := f.content] && job.fileSize == |f.content| &&
      t.published == s.published + [UploadUpdate(jobId, fileId, job.fileName, Queued, 0, None)] &&
      t.dlq == s.dlq && t.uploads == s.uploads &&
      u.response == Ok(jobId, fileId, job.fileName, job.fileSize)
  {
  }

  /** A formatted Guid holds hex digits and hyphens only. */
  lemma FormatIsPlain(g: Guid)
    ensures NoSeparator(Format(g)) && Format(g)[1] != ':' && !IsSeparator(Format(g)[0])
  {
    var f := Format(g);
    forall i | 0 <= i < |f| ensures !IsSeparator(f[i]) && f[i] != ':' {
      assert IsHexChar(f[i]) || f[i] == '-';
    }
  }

  lemma NoSeparatorConcat(a: string, b: string)
    requires NoSeparator(a) && NoSeparator(b)
    ensures NoSeparator(a + b)
  {
    forall k | 0 <= k < |a + b| ensures !IsSeparator((a + b)[k]) {
      if k < |a| {
        assert (a + b)[k] == a[k];
      } else {
        assert (a + b)[k] == b[k - |a|];
      }
    }
  }

  /** A staged name contains no separator and cannot be read as rooted. */
  lemma StagedNameIsPlain(jobId: Guid, fileName: string)
    ensures var n := StagedName(jobId, fileName);
      n != [] && NoSeparator(n) && !IsPathRooted(n)
  {
    var tail := "_" + GetFileName(fileName);
    assert StagedName(jobId, fileName) == Format(jobId) + tail;
    assert NoSeparator(tail) by {
      assert NoSeparator("_");
      NoSeparatorConcat("_", GetFileName(fileName));
    }
    FormatIsPlain(jobId);
    PlainJoin(Format(jobId), tail);
  }

  /** A plain name of two or more characters with no drive, followed by more plain text, is plain. */
  lemma PlainJoin(head: string, tail: string)
    requires |head| >= 2 && NoSeparator(head) && head[1] != ':' && NoSeparator(tail)
    ensures var n := head + tail; n != [] && NoSeparator(n) && !IsPathRooted(n)
  {
    NoSeparatorConcat(head, tail);
    assert (head + tail)[0] == head[0] && (head + tail)[1] == head[1];
  }

  /**
   * The staged file sits directly in the Inbox, under
   * `{jobId}_{file name without directories}`, whatever directories the
   * client's file name carried.
   */
  lemma StagedFileNamedAfterJob(inbox: string, f: FormFile, jobId: Guid, fileId: Guid)
    ensures var job := NewJob(inbox, f, jobId, fileId);
      GetFileName(job.tempPath) == Format(jobId) + "_" + GetFileName(job.fileName)
    ensures var job := NewJob(inbox, f, jobId, fileId);
      var name := StagedName(jobId, job.fileName);
      (inbox == [] ==> job.tempPath == name) &&
      (inbox != [] && IsSeparator(inbox[|inbox| - 1]) ==> job.tempPath == inbox + name) &&
      (inbox != [] && !IsSeparator(inbox[|inbox| - 1]) ==> job.tempPath == inbox + [DirectorySeparator] + name)
  {
    var job := NewJob(inbox, f, jobId, fileId);
    StagedNameIsPlain(jobId, job.fileName);
    GetFileNameOfCombine(inbox, StagedName(jobId, job.fileName));
  }

  lemma StagedNameStartsWithJobId(jobId: Guid, fileName: string)
    ensures var n := StagedName(jobId, fileName);
      |n| > 36 && n[..36] == Format(jobId)
  {
    var tail := "_" + GetFileName(fileName);
    assert StagedName(jobId, fileName) == Format(jobId) + tail;
    FormatPrefix(jobId, tail);
  }

  /** Jobs with different ids get different staged files in the same Inbox. */
  lemma StagedPathsDiffer(inbox: string, f1: FormFile, f2: FormFile, id1: Guid, id2: Guid, fileId1: Guid, fileId2: Guid)
    requires id1 != id2
    ensures NewJob(inbox, f1, id1, fileId1).tempPath != NewJob(inbox, f2, id2, fileId2).tempPath
  {
    var n1 := StagedName(id1, f1.fileName.GetOr(DefaultFileName));
    var n2 := StagedName(id2, f2.fileName.GetOr(DefaultFileName));
    assert NewJob(inbox, f1, id1, fileId1).tempPath == Combine(inbox, n1);
    assert NewJob(inbox, f2, id2, fileId2).tempPath == Combine(inbox, n2);
    if Combine(inbox, n1) == Combine(inbox, n2) {
      StagedNameStartsWithJobId(id1, f1.fileName.GetOr(DefaultFileName));
      StagedNameStartsWithJobId(id2, f2.fileName.GetOr(DefaultFileName));
      assert n1 == n2 by {
        StagedNameIsPlain(id1, f1.fileName.GetOr(DefaultFileName));
        StagedNameIsPlain(id2, f2.fileName.GetOr(DefaultFileName));
        GetFileNameOfCombine(inbox, n1);
        GetFileNameOfCombine(inbox, n2);
      }
      FormatInjective(id1, id2);
    }
  }

  /**
   * Upload and worker together: when an accepted upload is the only entry
   * of `upload:jobs` and the transfer meets no fault, the worker's next
   * iteration empties the queue, copies the exact bytes posted to
   * `{fileId}_{fileName}` and reports the job Completed at 100.
   */
  lemma UploadThenProcess(s: State, inbox: string, f: FormFile, jobId: Guid, fileId: Guid, grants: seq<nat>, deleteFails: bool)
    requires s.queue == [] && |f.content| > 0
    ensures var t := UploadEffect(s, inbox, Some(f), jobId, fileId).state;
      var job := NewJob(inbox, f, jobId, fileId);
      var w := Iterate(t, Io(None, grants, None, deleteFails));
      w.queue == [] && w.dlq == s.dlq &&
      DestName(job) in w.uploads && w.uploads[DestName(job)] == f.content &&
      |w.published| > 0 && w.published[|w.published| - 1] == UpdateFor(job, Completed, 100)
  {
    var t := UploadEffect(s, inbox, Some(f), jobId, fileId).state;
    var job := NewJob(inbox, f, jobId, fileId);
    var io := Io(None, grants, None, deleteFails);
    assert t.queue == [JobEntry(job)];
    assert TransferSucceeds(t, job, io);
    WorkerProperties.SucceededJobCompletes(t, io, job);
  }

  /**
   * First in, first out between the API and the worker: after two accepted
   * uploads, repeated RPOPs return the earlier entries, then the first
   * upload's job, then the second's.
   */
  lemma UploadsServedInOrder(s: State, inbox: string, f1: FormFile, f2: FormFile, id1: Guid, id2: Guid, fileId1: Guid, fileId2: Guid)
    requires |f1.content| > 0 && |f2.content| > 0
    ensures var t1 := UploadEffect(s, inbox, Some(f1), id1, fileId1).state;
      var t2 := UploadEffect(t1, inbox, Some(f2), id2, fileId2).state;
      RightPops(t2.queue) == RightPops(s.queue) + [JobEntry(NewJob(inbox, f1, id1, fileId1)), JobEntry(NewJob(inbox, f2, id2, fileId2))]
  {
    var e1, e2 := JobEntry(NewJob(inbox, f1, id1, fileId1)), JobEntry(NewJob(inbox, f2, id2, fileId2));
    var t1 := UploadEffect(s, inbox, Some(f1), id1, fileId1).state;
    var t2 := UploadEffect(t1, inbox, Some(f2), id2, fileId2).state;
    assert t2.queue == LeftPushAll(s.queue, [e1, e2]) by {
      assert t1.queue == LeftPush(s.queue, e1);
      assert t2.queue == LeftPush(t1.queue, e2);
      assert [e1, e2][1..] == [e2] && [e2][1..] == [];
      assert LeftPushAll(s.queue, [e1, e2]) == LeftPushAll(t1.queue, [e2]) == LeftPushAll(t2.queue, []);
    }
    Fifo(s.queue, [e1, e2]);
  }
}
