/** The data of the upload queue: the file metadata a browser file handle
    carries, the lifecycle status, the queue entry itself, the durable record
    that the history slot stores, and what an upload attempt produces. */
module Entries {
  import opened Wrappers

  /** What the queue reads from a native file handle: `name`, `size` in bytes
      and the MIME `type` the browser reports. The handle itself is modelled
      by this metadata. */
  datatype FileMeta = FileMeta(name: string, size: nat, mime: string)

  /** The `status` string of an entry. `Other` stands for any status text
      outside the four names the code writes; it can only come back from a
      history slot. */
  datatype Status = Pending | Uploading | Success | Error | Other(tag: string)

  function StatusName(s: Status): string {
    match s
    case Pending => "pending"
    case Uploading => "uploading"
    case Success => "success"
    case Error => "error"
    case Other(tag) => tag
  }

  predicate KnownName(name: string) {
    name == "pending" || name == "uploading" || name == "success" || name == "error"
  }

  /** A status read back from text: one of the four names, or `Other`. */
  function ParseStatus(name: string): (s: Status)
    ensures StatusName(s) == name
    ensures s.Other? <==> !KnownName(name)
  {
    if name == "pending" then Pending
    else if name == "uploading" then Uploading
    else if name == "success" then Success
    else if name == "error" then Error
    else Other(name)
  }

  /** `Other` is only used for text outside the four names. */
  predicate Canonical(s: Status) {
    s.Other? ==> !KnownName(s.tag)
  }

  /** Every status of a queue is canonical. */
  predicate CanonicalQueue(q: seq<Entry>) {
    forall i :: 0 <= i < |q| ==> Canonical(q[i].status)
  }

  /** Status text and status determine each other. */
  lemma StatusNameRoundTrip(s: Status)
    requires Canonical(s)
    ensures ParseStatus(StatusName(s)) == s
  {
  }

  /** One queue entry. `file` is the live handle, present for entries added
      in this session and absent for entries restored from history; `size`
      is absent only when a restored record lacks it. */
  datatype Entry = Entry(
    id: nat,
    file: Option<FileMeta>,
    name: string,
    size: Option<int>,
    mime: string,
    status: Status,
    progress: int,
    error: Option<string>,
    thumbnail: Option<string>,
    uploadedAt: Option<int>)

  /** The fields the history slot keeps for one entry: all of them but the
      live file handle. The status is kept as its text, as JSON keeps it. */
  datatype Durable = Durable(
    id: nat,
    name: string,
    size: Option<int>,
    mime: string,
    status: string,
    progress: int,
    error: Option<string>,
    thumbnail: Option<string>,
    uploadedAt: Option<int>)

  /** How an upload attempt ends: success, or a failure whose exception may or
      may not carry a message. */
  datatype Outcome = Succeeded | Failed(message: Option<string>)

  /** Everything the environment decides about one upload attempt: the
      progress values reported, the outcome, and the clock at success. */
  datatype Run = Run(ticks: seq<int>, outcome: Outcome, now: int)

  /** The ids of a queue, in order. */
  function Ids(q: seq<Entry>): (ids: seq<nat>)
    ensures |ids| == |q|
    ensures forall i :: 0 <= i < |q| ==> ids[i] == q[i].id
  {
    seq(|q|, i requires 0 <= i < |q| => q[i].id)
  }

  /** No two entries share an id. */
  predicate UniqueIds(q: seq<Entry>) {
    forall i, j :: 0 <= i < j < |q| ==> q[i].id != q[j].id
  }

  predicate HasId(q: seq<Entry>, id: nat) {
    exists i :: 0 <= i < |q| && q[i].id == id
  }
}
