/**
 * The broker list `upload:jobs` (and its dead-letter twin) as a sequence:
 * index 0 is the left end, where LPUSH inserts, and the last index is the
 * right end, where RPOP removes. Entries are JSON payloads, represented
 * by what they hold.
 */
module Queues {
  import opened Wrappers
  import opened Contracts

  /**
   * A list entry: a serialized `UploadJob`, a serialized bare attempt
   * number, or anything else that does not deserialize to a job (invalid
   * JSON, the JSON literal null, an empty string).
   */
  datatype Entry = JobEntry(job: UploadJob) | AttemptOnly(attempt: Int32) | Malformed

  /** Deserializing an entry as an `UploadJob`; None is the exception the worker's catch-all swallows. */
  function Deserialize(e: Entry): (r: Option<UploadJob>)
    ensures r.Some? <==> e.JobEntry?
    ensures r.Some? ==> e == JobEntry(r.value)
  {
    match e
    case JobEntry(job) => Some(job)
    case _ => None
  }

  /** LPUSH. */
  function LeftPush<T>(q: seq<T>, e: T): (r: seq<T>)
    ensures |r| == |q| + 1 && r[0] == e && r[1..] == q
  {
    [e] + q
  }

  /** The entry RPOP returns. */
  function RightEnd<T>(q: seq<T>): T
    requires q != []
  {
    q[|q| - 1]
  }

  /** What RPOP leaves behind. */
  function Front<T>(q: seq<T>): (r: seq<T>)
    requires q != []
    ensures |r| == |q| - 1 && q == r + [RightEnd(q)]
  {
    q[..|q| - 1]
  }

  /** LPUSH of each of `es`, first to last. */
  function LeftPushAll<T>(q: seq<T>, es: seq<T>): seq<T>
    decreases |es|
  {
    if es == [] then q else LeftPushAll(LeftPush(q, es[0]), es[1..])
  }

  /** The order in which repeated RPOPs return the entries of `q`, until it is empty. */
  function RightPops<T>(q: seq<T>): seq<T>
    decreases |q|
  {
    if q == [] then [] else [RightEnd(q)] + RightPops(Front(q))
  }

  /** Popping from the right after one left push: everything already there comes out first. */
  lemma {:induction false} RightPopsAfterPush<T>(q: seq<T>, e: T)
    ensures RightPops(LeftPush(q, e)) == RightPops(q) + [e]
    decreases |q|
  {
    if q == [] {
      assert LeftPush(q, e) == [e];
      assert RightPops([e]) == [e] + RightPops(Front([e]));
    } else {
      var p := LeftPush(q, e);
      assert RightEnd(p) == RightEnd(q);
      assert Front(p) == LeftPush(Front(q), e);
      RightPopsAfterPush(Front(q), e);
    }
  }

  /**
   * First in, first out: entries pushed on the left come out of the right,
   * after everything that was already there, in the order they were pushed.
   */
  lemma {:induction false} Fifo<T>(q: seq<T>, es: seq<T>)
    ensures RightPops(LeftPushAll(q, es)) == RightPops(q) + es
    decreases |es|
  {
    if es != [] {
      Fifo(LeftPush(q, es[0]), es[1..]);
      RightPopsAfterPush(q, es[0]);
      assert es == [es[0]] + es[1..];
    }
  }
}
