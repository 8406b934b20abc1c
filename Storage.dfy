/**
 * The external state both processes act on: the broker's two lists and
 * its status channel, and the files on disk. The channel is append-only
 * here: `published` is every update ever sent, in order; delivery to
 * subscribers is not modelled.
 */
module Storage {
  import opened Contracts
  import opened Queues

  type byte = x: int | 0 <= x < 256

  /**
   * A snapshot of the external state:
   *  - queue: `upload:jobs`;
   *  - dlq: `upload:jobs:dlq`;
   *  - published: what was sent on `upload:updates`;
   *  - staged: the files in the API's Inbox, by full path;
   *  - uploads: the files in the worker's Uploads folder, by file name.
   */
  datatype State = State(
    queue: seq<Entry>,
    dlq: seq<Entry>,
    published: seq<UploadUpdate>,
    staged: map<string, seq<byte>>,
    uploads: map<string, seq<byte>>)

  /** The same state as mutable fields, which the services update in place. */
  class Store {
    var queue: seq<Entry>
    var dlq: seq<Entry>
    var published: seq<UploadUpdate>
    var staged: map<string, seq<byte>>
    var uploads: map<string, seq<byte>>

    constructor (init: State)
      ensures Snapshot() == init
    {
      queue, dlq, published := init.queue, init.dlq, init.published;
      staged, uploads := init.staged, init.uploads;
    }

    function Snapshot(): State
      reads this
    {
      State(queue, dlq, published, staged, uploads)
    }
  }
}
