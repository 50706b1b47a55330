/** The queue controller of the home page: the list of queue entries held in
    component state, and the handlers that change it, together with the
    history slot they write.

    Every handler is a pure transition on a `Page`. React's functional state
    updates (`setFiles(prev => ...)`) become functions of the live queue;
    what a handler reads from its render-time closure (`files.find`,
    `files.filter`) is passed separately as `view`. For a click on a card or
    a button the view is the live queue at that moment; `retryUpload` and
    `uploadAllFiles` keep reading the view of the render they were created
    in while their own updates are applied. */
module HomePage {
  import opened Wrappers
  import opened Strings
  import opened Entries
  import opened UploadService

  /** The component state: the queue, and the history slot beside it. */
  datatype Page = Page(files: seq<Entry>, slot: Slot)

  /** `prev.map(f => f.id === id ? patch(f) : f)`: every entry carrying the id
      is patched, every other entry is kept. */
  function MapMatching(q: seq<Entry>, id: nat, patch: Entry -> Entry): (r: seq<Entry>)
    ensures |r| == |q|
    ensures forall i :: 0 <= i < |q| ==> r[i] == (if q[i].id == id then patch(q[i]) else q[i])
  {
    seq(|q|, i requires 0 <= i < |q| => if q[i].id == id then patch(q[i]) else q[i])
  }

  /* ---------------------------------------------------------------------- */
  /* mount-time history load                                                */
  /* ---------------------------------------------------------------------- */

  /** The saved entries, restored without file handles. */
  function RestoreAll(h: seq<Durable>): (q: seq<Entry>)
    ensures |q| == |h|
    ensures forall i :: 0 <= i < |h| ==> q[i] == Restore(h[i])
  {
    seq(|h|, i requires 0 <= i < |h| => Restore(h[i]))
  }

  /** A queue with every live file handle dropped. */
  function Strip(q: seq<Entry>): (r: seq<Entry>)
    ensures |r| == |q|
    ensures forall i :: 0 <= i < |q| ==> r[i] == q[i].(file := None)
  {
    seq(|q|, i requires 0 <= i < |q| => q[i].(file := None))
  }

  /** The state after mounting: the saved history when it is non-empty,
      otherwise the initial empty queue. */
  function Mount(slot: Slot): (p: Page)
    ensures p.slot == slot
    ensures p.files == RestoreAll(GetHistory(slot))
  {
    var saved := GetHistory(slot);
    Page(if |saved| > 0 then RestoreAll(saved) else [], slot)
  }

  /** Mounting over a saved queue brings back exactly that queue, in order,
      with the live file handles dropped; mounting over an absent or
      unreadable slot gives the empty queue. */
  lemma MountAfterSave(q: seq<Entry>, slot: Slot)
    ensures CanonicalQueue(q) ==> Mount(SaveHistory(q)).files == Strip(q)
    ensures Mount(Absent).files == [] && Mount(Unreadable).files == []
    ensures CanonicalQueue(Mount(slot).files)
  {
    SaveThenLoad(q);
  }

  /* ---------------------------------------------------------------------- */
  /* adding files                                                           */
  /* ---------------------------------------------------------------------- */

  /** The entry built for a selected file: pending, no progress, no error,
      thumbnail or upload time. */
  function NewEntry(id: nat, f: FileMeta): (e: Entry)
    ensures e.id == id && e.file == Some(f)
    ensures e.name == f.name && e.size == Some(f.size as int) && e.mime == f.mime
    ensures e.status == Pending && e.progress == 0
    ensures e.error.None? && e.thumbnail.None? && e.uploadedAt.None?
  {
    Entry(id, Some(f), f.name, Some(f.size as int), f.mime, Pending, 0, None, None, None)
  }

  /** The entries a batch contributes: one per accepted file, in input order.
      `ids[k]` is the id generated for `files[k]`. */
  function Admitted(policy: Policy, files: seq<FileMeta>, ids: seq<nat>): seq<Entry>
    requires |ids| == |files|
    decreases |files|
  {
    if |files| == 0 then []
    else
      var n := |files| - 1;
      Admitted(policy, files[..n], ids[..n])
        + (if Validate(policy, files[n]).isValid then [NewEntry(ids[n], files[n])] else [])
  }

  /** `handleFiles`: every file is validated in input order; the accepted
      ones are appended after the existing entries, and the history slot is
      left alone. Rejected files only produce a notification. */
  method HandleFiles(p: Page, policy: Policy, files: seq<FileMeta>, ids: seq<nat>) returns (r: Page)
    requires |ids| == |files|
    ensures r.slot == p.slot
    ensures r.files == p.files + Admitted(policy, files, ids)
  {
    var valid: seq<Entry> := [];
    var i := 0;
    while i < |files|
      invariant 0 <= i <= |files|
      invariant valid == Admitted(policy, files[..i], ids[..i])
    {
      var entry := NewEntry(ids[i], files[i]);
      if Validate(policy, files[i]).isValid {
        valid := valid + [entry];
      }
      assert files[..i + 1][..i] == files[..i];
      assert ids[..i + 1][..i] == ids[..i];
      i := i + 1;
    }
    assert files[..|files|] == files;
    assert ids[..|ids|] == ids;
    if |valid| > 0 {
      r := Page(p.files + valid, p.slot);
    } else {
      r := p;
    }
  }

  /** Batches compose in order: the entries of `f1 + f2` are those of `f1`
      followed by those of `f2`. */
  lemma {:induction false} AdmittedInOrder(policy: Policy, f1: seq<FileMeta>, i1: seq<nat>, f2: seq<FileMeta>, i2: seq<nat>)
    requires |i1| == |f1| && |i2| == |f2|
    ensures Admitted(policy, f1 + f2, i1 + i2) == Admitted(policy, f1, i1) + Admitted(policy, f2, i2)
    decreases |f2|
  {
    if |f2| > 0 {
      var n := |f2| - 1;
      AdmittedInOrder(policy, f1, i1, f2[..n], i2[..n]);
      var f, i := f1 + f2, i1 + i2;
      var tail := if Validate(policy, f2[n]).isValid then [NewEntry(i2[n], f2[n])] else [];
      assert f[..|f| - 1] == f1 + f2[..n];
      assert i[..|i| - 1] == i1 + i2[..n];
      assert f[|f| - 1] == f2[n] && i[|i| - 1] == i2[n];
      calc {
        Admitted(policy, f, i);
        Admitted(policy, f1 + f2[..n], i1 + i2[..n]) + tail;
        Admitted(policy, f1, i1) + Admitted(policy, f2[..n], i2[..n]) + tail;
        Admitted(policy, f1, i1) + (Admitted(policy, f2[..n], i2[..n]) + tail);
        Admitted(policy, f1, i1) + Admitted(policy, f2, i2);
      }
    } else {
      assert f1 + f2 == f1 && i1 + i2 == i1;
    }
  }

  /** An entry is admitted exactly when it is the new entry of an accepted
      file of the batch. */
  lemma AdmittedEntries(policy: Policy, files: seq<FileMeta>, ids: seq<nat>, e: Entry)
    requires |ids| == |files|
    ensures e in Admitted(policy, files, ids) <==>
              exists k :: 0 <= k < |files| && e == NewEntry(ids[k], files[k]) && Validate(policy, files[k]).isValid
  {
    if e in Admitted(policy, files, ids) {
      AdmittedSound(policy, files, ids, e);
    }
    if exists k :: 0 <= k < |files| && e == NewEntry(ids[k], files[k]) && Validate(policy, files[k]).isValid {
      var k :| 0 <= k < |files| && e == NewEntry(ids[k], files[k]) && Validate(policy, files[k]).isValid;
      AdmittedComplete(policy, files, ids, k);
    }
  }

  /** Every admitted entry is the new entry of an accepted file. */
  lemma {:induction false} AdmittedSound(policy: Policy, files: seq<FileMeta>, ids: seq<nat>, e: Entry)
    requires |ids| == |files|
    requires e in Admitted(policy, files, ids)
    ensures exists k :: 0 <= k < |files| && e == NewEntry(ids[k], files[k]) && Validate(policy, files[k]).isValid
    decreases |files|
  {
    var n := |files| - 1;
    var prev := Admitted(policy, files[..n], ids[..n]);
    if e in prev {
      AdmittedSound(policy, files[..n], ids[..n], e);
      var k :| 0 <= k < n && e == NewEntry(ids[..n][k], files[..n][k]) && Validate(policy, files[..n][k]).isValid;
      assert files[..n][k] == files[k] && ids[..n][k] == ids[k];
    } else {
      assert e == NewEntry(ids[n], files[n]) && Validate(policy, files[n]).isValid;
    }
  }

  /** The new entry of every accepted file is admitted. */
  lemma {:induction false} AdmittedComplete(policy: Policy, files: seq<FileMeta>, ids: seq<nat>, k: nat)
    requires |ids| == |files| && k < |files| && Validate(policy, files[k]).isValid
    ensures NewEntry(ids[k], files[k]) in Admitted(policy, files, ids)
    decreases |files|
  {
    var n := |files| - 1;
    if k < n {
      AdmittedComplete(policy, files[..n], ids[..n], k);
      assert files[..n][k] == files[k] && ids[..n][k] == ids[k];
    }
  }

  /** A rejected file never enters the queue: with distinct generated ids,
      no admitted entry carries the rejected file's id. */
  lemma RejectedNeverEnters(policy: Policy, files: seq<FileMeta>, ids: seq<nat>, k: nat)
    requires |ids| == |files|
    requires forall a, b :: 0 <= a < b < |ids| ==> ids[a] != ids[b]
    requires k < |files| && !Validate(policy, files[k]).isValid
    ensures !HasId(Admitted(policy, files, ids), ids[k])
  {
    var q := Admitted(policy, files, ids);
    forall i | 0 <= i < |q|
      ensures q[i].id != ids[k]
    {
      AdmittedEntries(policy, files, ids, q[i]);
      var k' :| 0 <= k' < |files| && q[i] == NewEntry(ids[k'], files[k']) && Validate(policy, files[k']).isValid;
      assert k' != k;
    }
  }

  /** Fresh ids keep the queue's ids unique. */
  lemma AddKeepsIdsUnique(q: seq<Entry>, policy: Policy, files: seq<FileMeta>, ids: seq<nat>)
    requires |ids| == |files|
    requires UniqueIds(q)
    requires forall a, b :: 0 <= a < b < |ids| ==> ids[a] != ids[b]
    requires forall k :: 0 <= k < |ids| ==> !HasId(q, ids[k])
    ensures UniqueIds(q + Admitted(policy, files, ids))
  {
    var added := Admitted(policy, files, ids);
    var r := q + added;
    forall i, j | 0 <= i < j < |r|
      ensures r[i].id != r[j].id
    {
      if j >= |q| {
        AdmittedEntries(policy, files, ids, r[j]);
        var kj :| 0 <= kj < |files| && r[j] == NewEntry(ids[kj], files[kj]) && Validate(policy, files[kj]).isValid;
        if i < |q| {
          assert r[i] == q[i];
        } else {
          AdmittedEntries(policy, files, ids, r[i]);
          var ki :| 0 <= ki < |files| && r[i] == NewEntry(ids[ki], files[ki]) && Validate(policy, files[ki]).isValid;
          if ki == kj {
            AdmittedDistinct(policy, files, ids);
            assert false;
          }
        }
      }
    }
  }

  /** With distinct ids, the admitted entries are pairwise distinct. */
  lemma {:induction false} AdmittedDistinct(policy: Policy, files: seq<FileMeta>, ids: seq<nat>)
    requires |ids| == |files|
    requires forall a, b :: 0 <= a < b < |ids| ==> ids[a] != ids[b]
    ensures UniqueIds(Admitted(policy, files, ids))
    decreases |files|
  {
    if |files| > 0 {
      var n := |files| - 1;
      AdmittedDistinct(policy, files[..n], ids[..n]);
      var prev := Admitted(policy, files[..n], ids[..n]);
      forall i | 0 <= i < |prev|
        ensures prev[i].id != ids[n]
      {
        AdmittedEntries(policy, files[..n], ids[..n], prev[i]);
      }
    }
  }

  /** The size message for a 10 MB limit. */
  lemma TenMegabyteMessage()
    ensures SizeMessage(10 * MiB) == "File size exceeds 10MB limit"
  {
    assert RoundToMB(10 * MiB) == 10;
    assert NatToString(10) == "10";
  }

  /** A JPEG of 5 MB passes a 10 MB policy that allows every image type. */
  lemma JpegAccepted(policy: Policy, jpeg: FileMeta)
    requires policy == Policy(10 * MiB, ["image/*", "application/zip"])
    requires jpeg == FileMeta("photo.jpg", 5 * MiB, "image/jpeg")
    ensures Validate(policy, jpeg) == Validation(true, None)
  {
    assert "image/*" == "image" + "/" + "*";
    assert "image/*"[0] == 'i';
    assert "image/jpeg"[..|"image/"|] == "image/";
    MimeRuleAdmitsMajorType("image", "*", jpeg);
    assert policy.allowedTypes[0] == "image/*";
  }

  /** A 5 MB JPEG and a 15 MB ZIP against a 10 MB limit for images and ZIP
      archives: the JPEG is queued as pending and the ZIP is rejected for its
      size, so the batch adds one entry. */
  lemma MixedBatchScenario(policy: Policy, jpeg: FileMeta, zip: FileMeta, jpegId: nat, zipId: nat)
    requires policy == Policy(10 * MiB, ["image/*", "application/zip"])
    requires jpeg == FileMeta("photo.jpg", 5 * MiB, "image/jpeg")
    requires zip == FileMeta("backup.zip", 15 * MiB, "application/zip")
    ensures Validate(policy, zip) == Validation(false, Some("File size exceeds 10MB limit"))
    ensures Admitted(policy, [jpeg, zip], [jpegId, zipId]) == [NewEntry(jpegId, jpeg)]
  {
    TenMegabyteMessage();
    JpegAccepted(policy, jpeg);
    assert [jpeg, zip][..1] == [jpeg];
    assert [jpegId, zipId][..1] == [jpegId];
    assert Admitted(policy, [jpeg], [jpegId]) == [NewEntry(jpegId, jpeg)] by {
      assert [jpeg][..0] == [];
      assert [jpegId][..0] == [];
    }
  }

  /* ---------------------------------------------------------------------- */
  /* per-id patches                                                         */
  /* ---------------------------------------------------------------------- */

  /** The thumbnail patch: only the `thumbnail` field of the entries carrying
      the id changes; an id no longer in the queue is a no-op. */
  function PatchThumbnail(q: seq<Entry>, id: nat, thumbnail: Option<string>): (r: seq<Entry>)
    ensures |r| == |q|
    ensures forall i :: 0 <= i < |q| && q[i].id == id ==> r[i] == q[i].(thumbnail := thumbnail)
    ensures forall i :: 0 <= i < |q| && q[i].id != id ==> r[i] == q[i]
    ensures !HasId(q, id) ==> r == q
  {
    MapMatching(q, id, (e: Entry) => e.(thumbnail := thumbnail))
  }

  /** A progress report: only the `progress` field of the entries carrying
      the id changes; an absent id is a no-op. */
  function SetProgress(q: seq<Entry>, id: nat, progress: int): (r: seq<Entry>)
    ensures |r| == |q|
    ensures forall i :: 0 <= i < |q| && q[i].id == id ==> r[i] == q[i].(progress := progress)
    ensures forall i :: 0 <= i < |q| && q[i].id != id ==> r[i] == q[i]
    ensures !HasId(q, id) ==> r == q
  {
    MapMatching(q, id, (e: Entry) => e.(progress := progress))
  }

  /** The progress after a run of reports: the last one, if any. */
  function LastTick(ticks: seq<int>, before: int): int {
    if |ticks| == 0 then before else ticks[|ticks| - 1]
  }

  /** Every progress report of an upload, applied in order: the entries with
      the id end at the last reported value and nothing else changes. */
  function ApplyTicks(q: seq<Entry>, id: nat, ticks: seq<int>): (r: seq<Entry>)
    ensures |r| == |q|
    ensures forall i :: 0 <= i < |q| && q[i].id == id ==> r[i] == q[i].(progress := LastTick(ticks, q[i].progress))
    ensures forall i :: 0 <= i < |q| && q[i].id != id ==> r[i] == q[i]
    decreases |ticks|
  {
    if |ticks| == 0 then q
    else SetProgress(ApplyTicks(q, id, ticks[..|ticks| - 1]), id, ticks[|ticks| - 1])
  }

  /* ---------------------------------------------------------------------- */
  /* uploading one entry                                                    */
  /* ---------------------------------------------------------------------- */

  /** `files.find(f => f.id === id)`: the first entry carrying the id. */
  function Find(q: seq<Entry>, id: nat): (r: Option<Entry>)
    ensures r.None? <==> !HasId(q, id)
    ensures r.Some? ==> exists i :: 0 <= i < |q| && q[i] == r.value && r.value.id == id && !HasId(q[..i], id)
    decreases |q|
  {
    if |q| == 0 then None
    else if q[0].id == id then Some(q[0])
    else
      var r := Find(q[1..], id);
      assert forall i :: 0 < i <= |q| ==> q[..i] == [q[0]] + q[1..][..i - 1];
      assert forall i :: 0 < i < |q| ==> q[1..][i - 1] == q[i];
      assert HasId(q[1..], id) ==> HasId(q, id);
      r
  }

  /** With unique ids, the entry found is the one at the id's position. */
  lemma FindUnique(q: seq<Entry>, i: nat)
    requires UniqueIds(q) && i < |q|
    ensures Find(q, q[i].id) == Some(q[i])
  {
    var r := Find(q, q[i].id);
    var j :| 0 <= j < |q| && q[j] == r.value && r.value.id == q[i].id && !HasId(q[..j], q[i].id);
  }

  /** The first update of `uploadFile`: the entries with the id become
      `uploading` at progress 0, whatever their status was; their error is
      not cleared. */
  function Begin(q: seq<Entry>, id: nat): (r: seq<Entry>)
    ensures |r| == |q|
    ensures forall i :: 0 <= i < |q| && q[i].id == id ==>
              r[i] == q[i].(status := Uploading, progress := 0)
    ensures forall i :: 0 <= i < |q| && q[i].id != id ==> r[i] == q[i]
  {
    MapMatching(q, id, (e: Entry) => e.(status := Uploading, progress := 0))
  }

  /** The message recorded for a failed upload: the exception's message, or
      `Upload failed` when it has none (an empty message counts as none). */
  function ErrorText(message: Option<string>): (text: string)
    ensures |text| > 0
    ensures message.Some? && |message.value| > 0 ==> text == message.value
    ensures message.None? || message.value == "" ==> text == "Upload failed"
  {
    if message.Some? && |message.value| > 0 then message.value else "Upload failed"
  }

  /** The entry written back on success: the snapshot taken when the upload
      started, marked successful at progress 100 with the upload time. */
  function Completed(snapshot: Entry, now: int): (e: Entry)
    ensures e.status == Success && e.progress == 100 && e.uploadedAt == Some(now)
    ensures e.id == snapshot.id && e.error == snapshot.error && e.thumbnail == snapshot.thumbnail
    ensures e.(status := snapshot.status, progress := snapshot.progress, uploadedAt := snapshot.uploadedAt)
              == snapshot
  {
    snapshot.(status := Success, progress := 100, uploadedAt := Some(now))
  }

  /** Success: every entry with the id is replaced by the completed snapshot,
      whatever was patched into it meanwhile, and the whole updated queue is
      saved to history. */
  function Succeed(p: Page, id: nat, snapshot: Entry, now: int): (r: Page)
    ensures |r.files| == |p.files|
    ensures forall i :: 0 <= i < |p.files| && p.files[i].id == id ==> r.files[i] == Completed(snapshot, now)
    ensures forall i :: 0 <= i < |p.files| && p.files[i].id != id ==> r.files[i] == p.files[i]
    ensures r.slot == SaveHistory(r.files)
  {
    var updated := MapMatching(p.files, id, _ => Completed(snapshot, now));
    Page(updated, SaveHistory(updated))
  }

  /** Failure: the entries with the id get status `error` and the message;
      progress stays where the reports left it, and history is not saved. */
  function Fail(p: Page, id: nat, message: Option<string>): (r: Page)
    ensures |r.files| == |p.files|
    ensures forall i :: 0 <= i < |p.files| && p.files[i].id == id ==>
              r.files[i] == p.files[i].(status := Error, error := Some(ErrorText(message)))
    ensures forall i :: 0 <= i < |p.files| && p.files[i].id != id ==> r.files[i] == p.files[i]
    ensures r.slot == p.slot
  {
    Page(MapMatching(p.files, id, (e: Entry) => e.(status := Error, error := Some(ErrorText(message)))), p.slot)
  }

  /** `uploadFile(id)` run to its end without other events in between. The
      snapshot is looked up in `view`; an id missing there leaves everything
      unchanged. Otherwise the entry is started, receives the reports, and
      settles according to the outcome. */
  function UploadFrom(view: seq<Entry>, p: Page, id: nat, run: Run): (r: Page)
    ensures !HasId(view, id) ==> r == p
    ensures |r.files| == |p.files|
    ensures forall i :: 0 <= i < |p.files| ==> r.files[i].id == p.files[i].id
    ensures forall i :: 0 <= i < |p.files| && p.files[i].id != id ==> r.files[i] == p.files[i]
    ensures HasId(view, id) && run.outcome.Succeeded? ==>
              && r.slot == SaveHistory(r.files)
              && forall i :: 0 <= i < |p.files| && p.files[i].id == id ==>
                   r.files[i] == Completed(Find(view, id).value, run.now)
    ensures HasId(view, id) && run.outcome.Failed? ==>
              && r.slot == p.slot
              && forall i :: 0 <= i < |p.files| && p.files[i].id == id ==>
                   r.files[i] == p.files[i].(status := Error, progress := LastTick(run.ticks, 0),
                                             error := Some(ErrorText(run.outcome.message)))
  {
    match Find(view, id)
    case None => p
    case Some(snapshot) =>
      var running := Page(ApplyTicks(Begin(p.files, id), id, run.ticks), p.slot);
      match run.outcome
      case Succeeded => Succeed(running, id, snapshot, run.now)
      case Failed(message) => Fail(running, id, message)
  }

  /** A click on a card's Upload button: the view is the live queue. */
  function UploadFile(p: Page, id: nat, run: Run): (r: Page)
    ensures !HasId(p.files, id) ==> r == p
    ensures |r.files| == |p.files|
    ensures forall i :: 0 <= i < |p.files| && p.files[i].id != id ==> r.files[i] == p.files[i]
  {
    UploadFrom(p.files, p, id, run)
  }

  /** With unique ids, a direct upload settles the clicked entry: on success
      it is the entry as it was when clicked, marked successful at progress
      100 with the upload time, and the queue is saved; on failure it carries
      the error message and the last reported progress, and the slot is
      untouched. No status is required of the entry beforehand. */
  lemma UploadFileSettles(p: Page, i: nat, run: Run)
    requires UniqueIds(p.files) && i < |p.files|
    ensures var r := UploadFile(p, p.files[i].id, run);
            && (run.outcome.Succeeded? ==>
                  r.files[i] == p.files[i].(status := Success, progress := 100, uploadedAt := Some(run.now))
                  && r.slot == SaveHistory(r.files))
            && (run.outcome.Failed? ==>
                  r.files[i] == p.files[i].(status := Error, progress := LastTick(run.ticks, 0),
                                            error := Some(ErrorText(run.outcome.message)))
                  && r.slot == p.slot)
  {
    FindUnique(p.files, i);
  }

  /** Patches made between the start of an upload and its success are lost:
      a thumbnail patched into the entry meanwhile is overwritten by the
      snapshot's. */
  lemma SuccessOverwritesThumbnail(p: Page, i: nat, thumbnail: Option<string>, now: int)
    requires UniqueIds(p.files) && i < |p.files|
    ensures var id := p.files[i].id;
            var snapshot := Find(p.files, id).value;
            var patched := Page(PatchThumbnail(Begin(p.files, id), id, thumbnail), p.slot);
            Succeed(patched, id, snapshot, now).files[i].thumbnail == p.files[i].thumbnail
  {
    FindUnique(p.files, i);
  }

  /* ---------------------------------------------------------------------- */
  /* retry                                                                  */
  /* ---------------------------------------------------------------------- */

  /** The first update of `retryUpload`: the entries with the id go back to
      `pending` with the error cleared and progress 0. */
  function RetryReset(q: seq<Entry>, id: nat): (r: seq<Entry>)
    ensures |r| == |q|
    ensures forall i :: 0 <= i < |q| && q[i].id == id ==>
              r[i] == q[i].(status := Pending, error := None, progress := 0)
    ensures forall i :: 0 <= i < |q| && q[i].id != id ==> r[i] == q[i]
  {
    MapMatching(q, id, (e: Entry) => e.(status := Pending, error := None, progress := 0))
  }

  /** `retryUpload(id)`: the reset, then `uploadFile(id)`, whose snapshot is
      read from the queue as it was before the reset. */
  function Retry(p: Page, id: nat, run: Run): (r: Page)
    ensures !HasId(p.files, id) ==> r == p
    ensures |r.files| == |p.files|
    ensures forall i :: 0 <= i < |p.files| && p.files[i].id != id ==> r.files[i] == p.files[i]
  {
    UploadFrom(p.files, Page(RetryReset(p.files, id), p.slot), id, run)
  }

  /** While the retried upload runs, the entry is `uploading` with progress
      0 and no error. */
  lemma RetryStartsClean(q: seq<Entry>, i: nat)
    requires i < |q|
    ensures var s := Begin(RetryReset(q, q[i].id), q[i].id)[i];
            s.status == Uploading && s.progress == 0 && s.error.None?
  {
  }

  /** How a retry ends. On success the entry is its pre-retry self marked
      successful: the old error message comes back with the snapshot and
      sits on a `success` entry. On failure the entry gets status `error`,
      the new message and the last reported progress, and every other field
      of the entry is kept. */
  lemma RetrySettles(p: Page, i: nat, run: Run)
    requires UniqueIds(p.files) && i < |p.files|
    ensures var r := Retry(p, p.files[i].id, run);
            && (run.outcome.Succeeded? ==>
                  r.files[i] == p.files[i].(status := Success, progress := 100, uploadedAt := Some(run.now))
                  && r.files[i].error == p.files[i].error
                  && r.slot == SaveHistory(r.files))
            && (run.outcome.Failed? ==>
                  r.files[i] == p.files[i].(status := Error, progress := LastTick(run.ticks, 0),
                                            error := Some(ErrorText(run.outcome.message)))
                  && r.slot == p.slot)
  {
    FindUnique(p.files, i);
  }

  /* ---------------------------------------------------------------------- */
  /* upload all                                                             */
  /* ---------------------------------------------------------------------- */

  /** `files.filter(f => f.status === "pending")` */
  function PendingOf(q: seq<Entry>): (r: seq<Entry>)
    ensures |r| <= |q|
    ensures forall k :: 0 <= k < |r| ==> r[k].status == Pending
    decreases |q|
  {
    if |q| == 0 then []
    else (if q[0].status == Pending then [q[0]] else []) + PendingOf(q[1..])
  }

  /** The pending filter keeps exactly the pending entries of the queue. */
  lemma {:induction false} PendingOfMembers(q: seq<Entry>, e: Entry)
    ensures e in PendingOf(q) <==> e in q && e.status == Pending
    decreases |q|
  {
    if |q| > 0 {
      PendingOfMembers(q[1..], e);
      assert q == [q[0]] + q[1..];
    }
  }

  /** With unique ids the pending entries have unique ids too. */
  lemma {:induction false} PendingUnique(q: seq<Entry>)
    requires UniqueIds(q)
    ensures UniqueIds(PendingOf(q))
    decreases |q|
  {
    if |q| > 0 {
      PendingUnique(q[1..]);
      var rest := PendingOf(q[1..]);
      forall k | 0 <= k < |rest|
        ensures rest[k].id != q[0].id
      {
        PendingOfMembers(q[1..], rest[k]);
        var j :| 0 <= j < |q[1..]| && q[1..][j] == rest[k];
        assert q[j + 1] == rest[k];
      }
    }
  }

  /** The pending filter keeps queue order and multiplicity: it distributes
      over concatenation and keeps a single entry iff it is pending. */
  lemma {:induction false} PendingOfConcat(a: seq<Entry>, b: seq<Entry>)
    ensures PendingOf(a + b) == PendingOf(a) + PendingOf(b)
    decreases |a|
  {
    if |a| > 0 {
      PendingOfConcat(a[1..], b);
      var head := if a[0].status == Pending then [a[0]] else [];
      assert (a + b)[1..] == a[1..] + b;
      assert (a + b)[0] == a[0];
      calc {
        PendingOf(a + b);
        head + PendingOf(a[1..] + b);
        head + (PendingOf(a[1..]) + PendingOf(b));
        (head + PendingOf(a[1..])) + PendingOf(b);
      }
    } else {
      assert a + b == b;
    }
  }

  /** A single entry is kept by the pending filter iff it is pending. */
  lemma PendingOfSingle(e: Entry)
    ensures PendingOf([e]) == (if e.status == Pending then [e] else [])
  {
    assert [e][1..] == [];
  }

  /** The uploads of `uploadAllFiles`, one after another: each starts only
      after the previous one has settled. `runs[k]` is the run of `ids[k]`. */
  function UploadEach(view: seq<Entry>, p: Page, ids: seq<nat>, runs: seq<Run>): Page
    requires |runs| == |ids|
    decreases |ids|
  {
    if |ids| == 0 then p
    else UploadEach(view, UploadFrom(view, p, ids[0], runs[0]), ids[1..], runs[1..])
  }

  /** `uploadAllFiles`: with no pending entry nothing changes; otherwise the
      pending entries of the view are uploaded one at a time, in queue
      order. `runs` holds one run per pending entry. */
  function UploadAll(p: Page, runs: seq<Run>): (r: Page)
    requires |runs| == |PendingOf(p.files)|
    ensures |PendingOf(p.files)| == 0 ==> r == p
  {
    var pending := PendingOf(p.files);
    if |pending| == 0 then p else UploadEach(p.files, p, Ids(pending), runs)
  }

  /** The order of the batch: the last pending entry is uploaded from the
      state the others left behind. */
  lemma {:induction false} UploadEachLast(view: seq<Entry>, p: Page, ids: seq<nat>, runs: seq<Run>)
    requires |runs| == |ids| && |ids| > 0
    ensures var n := |ids| - 1;
            UploadEach(view, p, ids, runs)
              == UploadFrom(view, UploadEach(view, p, ids[..n], runs[..n]), ids[n], runs[n])
    decreases |ids|
  {
    if |ids| > 1 {
      var p1 := UploadFrom(view, p, ids[0], runs[0]);
      UploadEachLast(view, p1, ids[1..], runs[1..]);
      var n := |ids| - 1;
      assert ids[1..][..n - 1] == ids[..n][1..];
      assert runs[1..][..n - 1] == runs[..n][1..];
    }
  }

  /** A batch split in two runs its first part to the end, then its
      second part from the state the first part left. */
  lemma {:induction false} UploadEachConcat(view: seq<Entry>, p: Page, i1: seq<nat>, r1: seq<Run>,
                                            i2: seq<nat>, r2: seq<Run>)
    requires |r1| == |i1| && |r2| == |i2|
    ensures UploadEach(view, p, i1 + i2, r1 + r2) == UploadEach(view, UploadEach(view, p, i1, r1), i2, r2)
    decreases |i1|
  {
    if |i1| > 0 {
      var p1 := UploadFrom(view, p, i1[0], r1[0]);
      UploadEachConcat(view, p1, i1[1..], r1[1..], i2, r2);
      assert (i1 + i2)[1..] == i1[1..] + i2;
      assert (r1 + r2)[1..] == r1[1..] + r2;
    } else {
      assert i1 + i2 == i2 && r1 + r2 == r2;
    }
  }

  /** `uploadAllFiles` goes through the queue in order: for a queue `a + b`
      the pending entries of `a` are all uploaded, one by one from the
      pre-batch view, before those of `b`; the runs are consumed in the same
      order. */
  lemma UploadAllInOrder(p: Page, runs: seq<Run>, a: seq<Entry>, b: seq<Entry>)
    requires p.files == a + b
    requires |runs| == |PendingOf(p.files)|
    ensures var k := |PendingOf(a)|;
            && |PendingOf(p.files)| == k + |PendingOf(b)|
            && UploadAll(p, runs)
                 == UploadEach(p.files, UploadEach(p.files, p, Ids(PendingOf(a)), runs[..k]),
                               Ids(PendingOf(b)), runs[k..])
  {
    PendingOfConcat(a, b);
    var k := |PendingOf(a)|;
    var pending := PendingOf(p.files);
    assert Ids(pending) == Ids(PendingOf(a)) + Ids(PendingOf(b));
    assert runs == runs[..k] + runs[k..];
    UploadEachConcat(p.files, p, Ids(PendingOf(a)), runs[..k], Ids(PendingOf(b)), runs[k..]);
  }

  /** When the queue ends in a pending entry, that entry is the last one
      upload-all starts, with the last run, after all the others. */
  lemma UploadAllLast(p: Page, runs: seq<Run>, a: seq<Entry>, e: Entry)
    requires p.files == a + [e] && e.status == Pending
    requires |runs| == |PendingOf(p.files)|
    ensures var n := |runs| - 1;
            && n == |PendingOf(a)|
            && UploadAll(p, runs)
                 == UploadFrom(p.files, UploadEach(p.files, p, Ids(PendingOf(a)), runs[..n]), e.id, runs[n])
  {
    var front := PendingOf(a);
    var n := |front|;
    assert PendingOf(p.files) == front + [e] by {
      PendingOfConcat(a, [e]);
      PendingOfSingle(e);
    }
    var ids := Ids(front) + [e.id];
    assert Ids(PendingOf(p.files)) == ids;
    assert runs == runs[..n] + [runs[n]];
    assert UploadAll(p, runs) == UploadEach(p.files, p, ids, runs[..n] + [runs[n]]);
    UploadEachSnoc(p.files, p, Ids(front), runs[..n], e.id, runs[n]);
  }

  /** One more upload at the end of a batch runs after all the others. */
  lemma UploadEachSnoc(view: seq<Entry>, p: Page, ids: seq<nat>, runs: seq<Run>, id: nat, run: Run)
    requires |runs| == |ids|
    ensures UploadEach(view, p, ids + [id], runs + [run]) == UploadFrom(view, UploadEach(view, p, ids, runs), id, run)
  {
    UploadEachConcat(view, p, ids, runs, [id], [run]);
    UploadEachOne(view, UploadEach(view, p, ids, runs), id, run);
  }

  /** A batch of one is a single upload. */
  lemma UploadEachOne(view: seq<Entry>, p: Page, id: nat, run: Run)
    ensures UploadEach(view, p, [id], [run]) == UploadFrom(view, p, id, run)
  {
    assert [id][1..] == [] && [run][1..] == [];
  }

  /** A batch keeps the length and ids of the queue and leaves alone every
      entry whose id is not in the batch. */
  lemma {:induction false} UploadEachFrame(view: seq<Entry>, p: Page, ids: seq<nat>, runs: seq<Run>)
    requires |runs| == |ids|
    ensures var r := UploadEach(view, p, ids, runs);
            && |r.files| == |p.files|
            && (forall j :: 0 <= j < |p.files| ==> r.files[j].id == p.files[j].id)
            && (forall j :: 0 <= j < |p.files| && p.files[j].id !in ids ==> r.files[j] == p.files[j])
    decreases |ids|
  {
    if |ids| > 0 {
      var p1 := UploadFrom(view, p, ids[0], runs[0]);
      UploadEachFrame(view, p1, ids[1..], runs[1..]);
      forall j | 0 <= j < |p.files| && p.files[j].id !in ids
        ensures p.files[j].id !in ids[1..]
      {
        assert forall x :: x in ids[1..] ==> x in ids;
      }
    }
  }

  /** The status an upload settles in. */
  function Settled(o: Outcome): Status {
    if o.Succeeded? then Success else Error
  }

  /** Each upload of a batch of distinct ids, all present in the view, leaves
      its entries in the status its outcome dictates. */
  lemma {:induction false} UploadEachSettles(view: seq<Entry>, p: Page, ids: seq<nat>, runs: seq<Run>)
    requires |runs| == |ids|
    requires forall a, b :: 0 <= a < b < |ids| ==> ids[a] != ids[b]
    requires forall k :: 0 <= k < |ids| ==> HasId(view, ids[k])
    ensures var r := UploadEach(view, p, ids, runs);
            forall k, j :: 0 <= k < |ids| && 0 <= j < |r.files| && r.files[j].id == ids[k] ==>
              r.files[j].status == Settled(runs[k].outcome)
    decreases |ids|
  {
    if |ids| > 0 {
      var p1 := UploadFrom(view, p, ids[0], runs[0]);
      UploadEachSettles(view, p1, ids[1..], runs[1..]);
      UploadEachFrame(view, p1, ids[1..], runs[1..]);
      var r := UploadEach(view, p, ids, runs);
      assert r == UploadEach(view, p1, ids[1..], runs[1..]);
      forall k, j | 0 <= k < |ids| && 0 <= j < |r.files| && r.files[j].id == ids[k]
        ensures r.files[j].status == Settled(runs[k].outcome)
      {
        if k == 0 {
          assert ids[0] !in ids[1..];
          assert r.files[j] == p1.files[j];
        } else {
          assert ids[1..][k - 1] == ids[k];
          assert runs[1..][k - 1] == runs[k];
        }
      }
    }
  }

  /** With unique ids, upload-all settles every pending entry in the status
      its own run dictates and leaves every other entry as it was. */
  lemma UploadAllSettles(p: Page, runs: seq<Run>)
    requires UniqueIds(p.files)
    requires |runs| == |PendingOf(p.files)|
    ensures var pending := PendingOf(p.files);
            var r := UploadAll(p, runs);
            && |r.files| == |p.files|
            && (forall j :: 0 <= j < |p.files| && p.files[j].status != Pending ==> r.files[j] == p.files[j])
            && (forall k, j :: 0 <= k < |pending| && 0 <= j < |r.files| && r.files[j].id == pending[k].id ==>
                  r.files[j].status == Settled(runs[k].outcome))
  {
    var pending := PendingOf(p.files);
    if |pending| > 0 {
      var ids := Ids(pending);
      PendingUnique(p.files);
      forall k | 0 <= k < |ids|
        ensures HasId(p.files, ids[k])
      {
        PendingOfMembers(p.files, pending[k]);
        var j :| 0 <= j < |p.files| && p.files[j] == pending[k];
      }
      UploadEachSettles(p.files, p, ids, runs);
      UploadEachFrame(p.files, p, ids, runs);
      var r := UploadAll(p, runs);
      assert r == UploadEach(p.files, p, ids, runs);
      forall j | 0 <= j < |p.files| && p.files[j].status != Pending
        ensures r.files[j] == p.files[j]
      {
        NonPendingOutsideBatch(p.files, j);
      }
    }
  }

  /** With unique ids, an entry that is not pending carries no id of the
      pending batch. */
  lemma NonPendingOutsideBatch(q: seq<Entry>, j: nat)
    requires UniqueIds(q) && j < |q| && q[j].status != Pending
    ensures q[j].id !in Ids(PendingOf(q))
  {
    var ids := Ids(PendingOf(q));
    forall k | 0 <= k < |ids|
      ensures ids[k] != q[j].id
    {
      PendingOfMembers(q, PendingOf(q)[k]);
      var i :| 0 <= i < |q| && q[i] == PendingOf(q)[k];
      assert i != j;
    }
  }

  /* ---------------------------------------------------------------------- */
  /* remove and clear                                                       */
  /* ---------------------------------------------------------------------- */

  /** `prev.filter(f => f.id !== id)` */
  function Without(q: seq<Entry>, id: nat): (r: seq<Entry>)
    ensures |r| <= |q|
    ensures !HasId(r, id)
    decreases |q|
  {
    if |q| == 0 then []
    else (if q[0].id == id then [] else [q[0]]) + Without(q[1..], id)
  }

  /** Removal keeps exactly the entries that do not carry the id. */
  lemma {:induction false} WithoutMembers(q: seq<Entry>, id: nat)
    ensures forall e :: e in Without(q, id) <==> e in q && e.id != id
    decreases |q|
  {
    if |q| > 0 {
      WithoutMembers(q[1..], id);
      assert q == [q[0]] + q[1..];
    }
  }

  /** `removeFile(id)`: every entry with the id is dropped, the others are
      kept in order, and the result is saved to history. */
  function RemoveFile(p: Page, id: nat): (r: Page)
    ensures !HasId(r.files, id)
    ensures forall e :: e in r.files <==> e in p.files && e.id != id
    ensures r.slot == SaveHistory(r.files)
  {
    WithoutMembers(p.files, id);
    var updated := Without(p.files, id);
    Page(updated, SaveHistory(updated))
  }

  /** Removal keeps the order of the entries left: it distributes over
      concatenation. */
  lemma {:induction false} WithoutInOrder(a: seq<Entry>, b: seq<Entry>, id: nat)
    ensures Without(a + b, id) == Without(a, id) + Without(b, id)
    decreases |a|
  {
    if |a| > 0 {
      WithoutInOrder(a[1..], b, id);
      var head := if a[0].id == id then [] else [a[0]];
      assert (a + b)[1..] == a[1..] + b;
      assert (a + b)[0] == a[0];
      calc {
        Without(a + b, id);
        head + Without(a[1..] + b, id);
        head + (Without(a[1..], id) + Without(b, id));
        (head + Without(a[1..], id)) + Without(b, id);
        Without(a, id) + Without(b, id);
      }
    } else {
      assert a + b == b;
    }
  }

  /** `removeFile` keeps the order of the entries left: removing from a
      queue `a + b` gives what is left of `a` followed by what is left of
      `b`, and an entry with an absent id is kept where it was. */
  lemma RemoveFileInOrder(p: Page, a: seq<Entry>, b: seq<Entry>, id: nat)
    requires p.files == a + b
    ensures RemoveFile(p, id).files == Without(a, id) + Without(b, id)
    ensures !HasId(p.files, id) ==> RemoveFile(p, id).files == p.files
  {
    WithoutInOrder(a, b, id);
    if !HasId(p.files, id) {
      WithoutAbsent(p.files, id);
    }
  }

  /** Removing an id that no entry carries changes nothing. */
  lemma {:induction false} WithoutAbsent(q: seq<Entry>, id: nat)
    requires !HasId(q, id)
    ensures Without(q, id) == q
    decreases |q|
  {
    if |q| > 0 {
      assert q[0].id != id;
      assert !HasId(q[1..], id) by {
        forall i | 0 <= i < |q[1..]|
          ensures q[1..][i].id != id
        {
          assert q[1..][i] == q[i + 1];
        }
      }
      WithoutAbsent(q[1..], id);
      assert [q[0]] + q[1..] == q;
    }
  }

  /** Removing the same id twice is the same as removing it once. */
  lemma RemoveIdempotent(p: Page, id: nat)
    ensures RemoveFile(RemoveFile(p, id), id) == RemoveFile(p, id)
  {
    WithoutAbsent(RemoveFile(p, id).files, id);
  }

  /** `clearAll`: the queue is emptied and the history slot removed. */
  function ClearAll(p: Page): (r: Page)
    ensures r.files == [] && r.slot == Absent
    ensures GetHistory(r.slot) == []
  {
    Page([], ClearHistory())
  }

  /** Clearing twice is clearing once, and a later mount finds nothing. */
  lemma ClearAllIdempotent(p: Page)
    ensures ClearAll(ClearAll(p)) == ClearAll(p)
    ensures Mount(ClearAll(p).slot).files == []
  {
  }
}
