/**
 * The two value records shared by the API and the worker: the queued job
 * and the status update sent on the channel. Their properties are get-only
 * and set once by the constructor, so they are datatypes here: no
 * operation can change a record after it is built, and the worker's
 * "increment" of an attempt builds a new record.
 */
module Contracts {
  import opened Wrappers
  import opened Text
  import opened Guids

  /** C#'s `int`. */
  type Int32 = x: int | -0x8000_0000 <= x < 0x8000_0000

  /** C#'s `long`. */
  type Int64 = x: int | -0x8000_0000_0000_0000 <= x < 0x8000_0000_0000_0000

  /**
   * A C# `object` as `Equals(object)` receives it: null, one of the two
   * records, or an instance of any other class.
   */
  datatype Boxed = NullRef | BoxedJob(job: UploadJob) | BoxedUpdate(update: UploadUpdate) | OtherObject

  /**
   * A transfer job: which file, where its bytes are staged, how large it
   * is and how many attempts have failed. The constructor's optional
   * `attempt` argument defaults to 0.
   */
  datatype UploadJob = UploadJob(
    jobId: Guid,
    fileId: Guid,
    fileName: string,
    tempPath: string,
    fileSize: Int64,
    attempt: Int32 := 0)
  {
    /** Field-by-field equality with another object. */
    function Equals(obj: Boxed): (r: bool)
      ensures r <==> obj == BoxedJob(this)
    {
      match obj
      case BoxedJob(other) =>
        jobId == other.jobId &&
        fileId == other.fileId &&
        fileName == other.fileName &&
        tempPath == other.tempPath &&
        fileSize == other.fileSize &&
        attempt == other.attempt
      case _ => false
    }

    /** "{FileName} ({FileSize} bytes), Attempt: {Attempt}" */
    function ToString(): string {
      fileName + " (" + IntToString(fileSize) + " bytes), Attempt: " + IntToString(attempt)
    }
  }

  /** The four statuses; an enum value renders as its name. */
  datatype UploadStatusKind = Queued | InProgress | Completed | Failed {
    function Name(): string {
      match this
      case Queued => "Queued"
      case InProgress => "InProgress"
      case Completed => "Completed"
      case Failed => "Failed"
    }
  }

  /** `string.IsNullOrEmpty`. */
  predicate IsNullOrEmpty(s: Option<string>) {
    s == None || s == Some("")
  }

  /**
   * A status update for one job; `error` is a nullable string whose
   * constructor argument defaults to null.
   */
  datatype UploadUpdate = UploadUpdate(
    jobId: Guid,
    fileId: Guid,
    fileName: string,
    status: UploadStatusKind,
    progressPercent: Int32,
    error: Option<string> := None)
  {
    /** Field-by-field equality with another object; two null errors are equal. */
    function Equals(obj: Boxed): (r: bool)
      ensures r <==> obj == BoxedUpdate(this)
    {
      match obj
      case BoxedUpdate(other) =>
        jobId == other.jobId &&
        fileId == other.fileId &&
        fileName == other.fileName &&
        status == other.status &&
        progressPercent == other.progressPercent &&
        error == other.error
      case _ => false
    }

    /** The text before the optional error suffix: "{FileName} ({ProgressPercent}%): {Status}". */
    function Summary(): string {
      fileName + " (" + IntToString(progressPercent) + "%): " + status.Name()
    }

    /** The summary, followed by " - Error: {Error}" unless the error is null or empty. */
    function ToString(): string {
      Summary() + (if IsNullOrEmpty(error) then "" else " - Error: " + error.value)
    }
  }

  /** The constructor stores its six arguments unchanged. */
  lemma JobConstructorStoresArguments(jobId: Guid, fileId: Guid, fileName: string, tempPath: string, fileSize: Int64, attempt: Int32)
    ensures var j := UploadJob(jobId, fileId, fileName, tempPath, fileSize, attempt);
      j.jobId == jobId && j.fileId == fileId && j.fileName == fileName &&
      j.tempPath == tempPath && j.fileSize == fileSize && j.attempt == attempt
    ensures UploadJob(jobId, fileId, fileName, tempPath, fileSize).attempt == 0
  {
  }

  /** `Equals` is an equivalence relation on jobs, and never holds against null or another type. */
  lemma JobEqualsIsEquivalence(a: UploadJob, b: UploadJob, c: UploadJob)
    ensures a.Equals(BoxedJob(a))
    ensures a.Equals(BoxedJob(b)) == b.Equals(BoxedJob(a))
    ensures a.Equals(BoxedJob(b)) && b.Equals(BoxedJob(c)) ==> a.Equals(BoxedJob(c))
    ensures !a.Equals(NullRef) && !a.Equals(OtherObject)
  {
  }

  /**
   * For jobs with the same file name, `ToString` tells the size and the
   * attempt apart: the two texts agree exactly when both numbers do.
   */
  lemma JobToStringDistinguishes(a: UploadJob, b: UploadJob)
    requires a.fileName == b.fileName
    ensures a.ToString() == b.ToString() <==> a.fileSize == b.fileSize && a.attempt == b.attempt
  {
    if a.ToString() == b.ToString() {
      TwoNumbersDetermined(a.fileName + " (", a.fileSize, " bytes), Attempt: ", a.attempt, b.fileSize, b.attempt);
    }
  }

  /** `p` + a number + `m` + a number, with `m` not starting like a number, determines both numbers. */
  lemma TwoNumbersDetermined(p: string, x1: int, m: string, y1: int, x2: int, y2: int)
    requires |m| > 0 && !IsNumeralChar(m[0])
    requires p + IntToString(x1) + m + IntToString(y1) == p + IntToString(x2) + m + IntToString(y2)
    ensures x1 == x2 && y1 == y2
  {
    var sx1, sy1, sx2, sy2 := IntToString(x1), IntToString(y1), IntToString(x2), IntToString(y2);
    Regroup(p, sx1, m, sy1);
    Regroup(p, sx2, m, sy2);
    CancelPrefix(p, sx1 + (m + sy1), sx2 + (m + sy2));
    NumeralPrefixUnique(x1, m + sy1, x2, m + sy2);
    CancelPrefix(m, sy1, sy2);
    IntToStringInjective(y1, y2);
  }

  lemma Regroup(p: string, a: string, m: string, b: string)
    ensures p + a + m + b == p + (a + (m + b))
  {
  }

  lemma CancelPrefix(p: string, r1: string, r2: string)
    requires p + r1 == p + r2
    ensures r1 == r2
  {
    assert r1 == (p + r1)[|p|..];
    assert r2 == (p + r2)[|p|..];
  }

  /** The constructor stores its six arguments unchanged. */
  lemma UpdateConstructorStoresArguments(jobId: Guid, fileId: Guid, fileName: string, status: UploadStatusKind, progressPercent: Int32, error: Option<string>)
    ensures var u := UploadUpdate(jobId, fileId, fileName, status, progressPercent, error);
      u.jobId == jobId && u.fileId == fileId && u.fileName == fileName &&
      u.status == status && u.progressPercent == progressPercent && u.error == error
    ensures UploadUpdate(jobId, fileId, fileName, status, progressPercent).error == None
  {
  }

  /** `Equals` is an equivalence relation on updates, and never holds against null or another type. */
  lemma UpdateEqualsIsEquivalence(a: UploadUpdate, b: UploadUpdate, c: UploadUpdate, j: UploadJob)
    ensures a.Equals(BoxedUpdate(a))
    ensures a.Equals(BoxedUpdate(b)) == b.Equals(BoxedUpdate(a))
    ensures a.Equals(BoxedUpdate(b)) && b.Equals(BoxedUpdate(c)) ==> a.Equals(BoxedUpdate(c))
    ensures !a.Equals(NullRef) && !a.Equals(OtherObject) && !a.Equals(BoxedJob(j))
  {
  }

  /** The error suffix is appended exactly when the error is neither null nor empty. */
  lemma UpdateToStringSuffix(u: UploadUpdate)
    ensures u.ToString()[..|u.Summary()|] == u.Summary()
    ensures |u.ToString()| > |u.Summary()| <==> u.error.Some? && u.error.value != ""
    ensures u.error.Some? && u.error.value != "" ==> u.ToString()[|u.Summary()|..] == " - Error: " + u.error.value
  {
  }

  /**
   * Two updates that differ only in their error render alike exactly when
   * both errors are null-or-empty or the errors are equal: `ToString`
   * cannot tell a null error from an empty one, which `Equals` can.
   */
  lemma UpdateToStringShowsError(u: UploadUpdate, e: Option<string>)
    ensures u.ToString() == u.(error := e).ToString() <==>
      (IsNullOrEmpty(u.error) && IsNullOrEmpty(e)) || u.error == e
  {
    var v := u.(error := e);
    assert u.Summary() == v.Summary();
    if u.ToString() == v.ToString() && !IsNullOrEmpty(u.error) && !IsNullOrEmpty(e) {
      var n := |u.Summary()| + |" - Error: "|;
      assert u.error.value == u.ToString()[n..];
      assert e.value == v.ToString()[n..];
    }
  }
}
