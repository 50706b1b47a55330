/** The statistics panel above the file list: counters per status, byte
    totals, the completion line and the Upload-all button. */
module UploadStats {
  import opened Wrappers
  import opened Strings
  import opened Entries
  import HomePage

  /** `files.filter(f => f.status === status).length` */
  function CountStatus(q: seq<Entry>, status: Status): (n: nat)
    ensures n <= |q|
    ensures n == 0 <==> forall i :: 0 <= i < |q| ==> q[i].status != status
    ensures n == |q| <==> forall i :: 0 <= i < |q| ==> q[i].status == status
    decreases |q|
  {
    if |q| == 0 then 0
    else (if q[0].status == status then 1 else 0) + CountStatus(q[1..], status)
  }

  /** The entries whose status is none of the four names. */
  function CountOther(q: seq<Entry>): (n: nat)
    ensures n <= |q|
    ensures n == 0 <==> forall i :: 0 <= i < |q| ==> !q[i].status.Other?
    decreases |q|
  {
    if |q| == 0 then 0
    else (if q[0].status.Other? then 1 else 0) + CountOther(q[1..])
  }

  /** `file.size || 0`: a missing size counts as 0. */
  function SizeOrZero(e: Entry): int {
    if e.size.Some? then e.size.value else 0
  }

  /** `files.reduce((acc, f) => acc + (f.size || 0), 0)` */
  function TotalSize(q: seq<Entry>): int
    decreases |q|
  {
    if |q| == 0 then 0 else SizeOrZero(q[0]) + TotalSize(q[1..])
  }

  /** The same sum over the successful entries only. */
  function UploadedSize(q: seq<Entry>): int
    decreases |q|
  {
    if |q| == 0 then 0
    else (if q[0].status == Success then SizeOrZero(q[0]) else 0) + UploadedSize(q[1..])
  }

  /** The numbers the panel is built from. */
  datatype Summary = Summary(
    total: nat, uploaded: nat, failed: nat, pending: nat, uploading: nat,
    totalSize: int, uploadedSize: int)

  function Summarize(q: seq<Entry>): (s: Summary)
    ensures s.total == |q|
    ensures s.uploaded <= s.total && s.failed <= s.total
    ensures s.pending <= s.total && s.uploading <= s.total
    ensures s.uploaded == CountStatus(q, Success) && s.failed == CountStatus(q, Error)
    ensures s.pending == CountStatus(q, Pending) && s.uploading == CountStatus(q, Uploading)
    ensures s.totalSize == TotalSize(q) && s.uploadedSize == UploadedSize(q)
  {
    Summary(|q|, CountStatus(q, Success), CountStatus(q, Error), CountStatus(q, Pending),
            CountStatus(q, Uploading), TotalSize(q), UploadedSize(q))
  }

  /** A counter adds up over the parts of a queue, and a one-entry queue
      counts 1 exactly when its entry has the status: with the empty queue
      counting 0, this pins the counter to the number of entries with the
      status. */
  lemma {:induction false} CountStatusConcat(a: seq<Entry>, b: seq<Entry>, status: Status)
    ensures CountStatus(a + b, status) == CountStatus(a, status) + CountStatus(b, status)
    ensures CountStatus([], status) == 0
    ensures |a| == 1 ==> CountStatus(a, status) == (if a[0].status == status then 1 else 0)
    decreases |a|
  {
    if |a| > 0 {
      var head := if a[0].status == status then 1 else 0;
      assert CountStatus(a + b, status) == head + CountStatus(a[1..] + b, status) by {
        assert (a + b)[1..] == a[1..] + b;
        assert (a + b)[0] == a[0];
      }
      CountStatusConcat(a[1..], b, status);
      if |a| == 1 {
        assert a[1..] == [];
      }
    } else {
      assert a + b == b;
    }
  }

  /** The byte totals add up over the parts of a queue; a one-entry queue
      contributes its size (or 0 when missing), and to the uploaded total
      only when it is a success. */
  lemma {:induction false} SizesConcat(a: seq<Entry>, b: seq<Entry>)
    ensures TotalSize(a + b) == TotalSize(a) + TotalSize(b)
    ensures UploadedSize(a + b) == UploadedSize(a) + UploadedSize(b)
    ensures |a| == 1 ==> TotalSize(a) == SizeOrZero(a[0])
    ensures |a| == 1 ==> UploadedSize(a) == (if a[0].status == Success then SizeOrZero(a[0]) else 0)
    decreases |a|
  {
    if |a| > 0 {
      SizesConcat(a[1..], b);
      assert (a + b)[1..] == a[1..] + b;
      assert (a + b)[0] == a[0];
      if |a| == 1 {
        assert a[1..] == [];
      }
    } else {
      assert a + b == b;
    }
  }

  /** Every entry is counted once: under its status, or as other. */
  lemma {:induction false} CountsPartition(q: seq<Entry>)
    ensures CountStatus(q, Pending) + CountStatus(q, Uploading) + CountStatus(q, Success)
            + CountStatus(q, Error) + CountOther(q) == |q|
    decreases |q|
  {
    if |q| > 0 {
      CountsPartition(q[1..]);
    }
  }

  /** The four counters add up to the number of files exactly when every
      status is one of the four names. */
  lemma CountersSumToTotal(q: seq<Entry>)
    ensures var s := Summarize(q);
            s.pending + s.uploading + s.uploaded + s.failed == s.total
            <==> forall i :: 0 <= i < |q| ==> !q[i].status.Other?
  {
    CountsPartition(q);
  }

  /** With no negative size, the uploaded bytes are between 0 and the total. */
  lemma {:induction false} UploadedSizeBounded(q: seq<Entry>)
    requires forall i :: 0 <= i < |q| ==> SizeOrZero(q[i]) >= 0
    ensures 0 <= UploadedSize(q) <= TotalSize(q)
    decreases |q|
  {
    if |q| > 0 {
      assert forall i :: 0 <= i < |q[1..]| ==> q[1..][i] == q[i + 1];
      UploadedSizeBounded(q[1..]);
      assert SizeOrZero(q[0]) >= 0;
    }
  }

  /** The button that starts `uploadAllFiles`. */
  datatype UploadAllButton = UploadAllButton(disabled: bool, text: string)

  /** The panel as rendered: the numbers, the `N of M completed` line,
      whether the uploaded-bytes line appears, and the Upload-all button if
      shown. */
  datatype Panel = Panel(
    summary: Summary,
    completion: string,
    showsUploadedSize: bool,
    uploadAll: Option<UploadAllButton>)

  function CompletionText(uploaded: nat, total: nat): string {
    NatToString(uploaded) + " of " + NatToString(total) + " completed"
  }

  function ButtonText(pending: nat): string {
    "Upload " + (if pending > 0 then NatToString(pending) + " Files" else "All")
  }

  /** The component: nothing for an empty queue; otherwise the panel, whose
      Upload-all button is shown while something is pending or uploading and
      is disabled when nothing is pending. */
  function Render(q: seq<Entry>): (r: Option<Panel>)
    ensures r.None? <==> |q| == 0
    ensures r.Some? ==> r.value.summary == Summarize(q)
    ensures r.Some? ==>
              (r.value.uploadAll.Some? <==> CountStatus(q, Pending) > 0 || CountStatus(q, Uploading) > 0)
    ensures r.Some? && r.value.uploadAll.Some? ==>
              (r.value.uploadAll.value.disabled <==> CountStatus(q, Pending) == 0)
    ensures r.Some? ==> (r.value.showsUploadedSize <==> UploadedSize(q) > 0)
    ensures r.Some? && r.value.uploadAll.Some? ==>
              r.value.uploadAll.value.text == ButtonText(CountStatus(q, Pending))
  {
    if |q| == 0 then None
    else
      var s := Summarize(q);
      Some(Panel(
        s,
        CompletionText(s.uploaded, s.total),
        s.uploadedSize > 0,
        if s.pending > 0 || s.uploading > 0
        then Some(UploadAllButton(s.pending == 0, ButtonText(s.pending)))
        else None))
  }

  /** A button text for a positive count: the number sits between
      `Upload ` and ` Files` and reads back from there. */
  lemma ButtonTextNumber(n: nat)
    requires n > 0
    ensures ButtonText(n) == "Upload " + NatToString(n) + " Files"
    ensures ParseDecimal(ButtonText(n)[7..|ButtonText(n)| - 6]) == n
  {
    var d := NatToString(n);
    var t := ButtonText(n);
    assert t == "Upload " + d + " Files";
    assert t[7..|t| - 6] == d;
    ParseNatToString(n);
  }

  /** The button names the number of pending files (no plural rule: one file
      reads `Upload 1 Files`), which is exactly how many uploads the click
      starts, and the rendered button carries that text; with nothing pending
      the text reads `Upload All`, and the number can be read back from the
      text. */
  lemma ButtonTextReportsPending(q: seq<Entry>)
    ensures var n := CountStatus(q, Pending);
            && (n == 0 ==> ButtonText(n) == "Upload All")
            && (n > 0 ==> ButtonText(n) == "Upload " + NatToString(n) + " Files"
                          && ParseDecimal(ButtonText(n)[7..|ButtonText(n)| - 6]) == n)
            && n == |HomePage.PendingOf(q)|
            && (n > 0 ==> Render(q).Some? && Render(q).value.uploadAll.Some?
                          && Render(q).value.uploadAll.value.text == "Upload " + NatToString(n) + " Files")
  {
    var n := CountStatus(q, Pending);
    if n > 0 {
      ButtonTextNumber(n);
    }
    PendingCount(q);
  }

  /** The pending counter and the upload-all batch agree. */
  lemma {:induction false} PendingCount(q: seq<Entry>)
    ensures CountStatus(q, Pending) == |HomePage.PendingOf(q)|
    decreases |q|
  {
    if |q| > 0 {
      PendingCount(q[1..]);
    }
  }

  /** The completion line reports `uploaded of total` with uploaded at most
      total, and the uploaded count can be read back from its front. */
  lemma CompletionReadsBack(q: seq<Entry>)
    requires |q| > 0
    ensures var s := Summarize(q);
            var t := CompletionText(s.uploaded, s.total);
            && Render(q).value.completion == t
            && s.uploaded <= s.total
            && ParseDecimal(t[..|NatToString(s.uploaded)|]) == s.uploaded
  {
    var s := Summarize(q);
    var t := CompletionText(s.uploaded, s.total);
    assert t[..|NatToString(s.uploaded)|] == NatToString(s.uploaded);
    ParseNatToString(s.uploaded);
  }
}
