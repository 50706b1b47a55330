/** One card of the file list: the preview or type icon, the status colour
    and icon, the type label, and which of the percentage, progress bar,
    error box, upload time and action buttons are shown for the entry. */
module FileCard {
  import opened Wrappers
  import opened Strings
  import opened Entries
  import ProgressBar
  import HomePage

  /* ---------------------------------------------------------------------- */
  /* icons and colours                                                      */
  /* ---------------------------------------------------------------------- */

  /** `getFileIcon`: the first case that applies, in this order: an image
      type, exactly `application/pdf`, a type mentioning `document` or
      `word`, a type mentioning `zip` or `archive`, anything else. */
  function FileIcon(mime: string): (icon: string)
    ensures StartsWith(mime, "image/") ==> icon == "Image"
    ensures !StartsWith(mime, "image/")
            && (mime == "application/pdf" || Contains(mime, "document") || Contains(mime, "word"))
            ==> icon == "FileText"
    ensures !StartsWith(mime, "image/")
            && !(mime == "application/pdf" || Contains(mime, "document") || Contains(mime, "word"))
            && (Contains(mime, "zip") || Contains(mime, "archive"))
            ==> icon == "Archive"
    ensures icon == "File" <==>
              !StartsWith(mime, "image/")
              && !(mime == "application/pdf" || Contains(mime, "document") || Contains(mime, "word"))
              && !(Contains(mime, "zip") || Contains(mime, "archive"))
  {
    if StartsWith(mime, "image/") then "Image"
    else if mime == "application/pdf" then "FileText"
    else if Contains(mime, "document") || Contains(mime, "word") then "FileText"
    else if Contains(mime, "zip") || Contains(mime, "archive") then "Archive"
    else "File"
  }

  /** A text cannot contain a piece one of whose characters it lacks. */
  lemma MissingCharacter(s: string, sub: string, k: nat)
    requires k < |sub| && sub[k] !in s
    ensures !Contains(s, sub)
  {
  }

  /** The icon of a few common types. */
  lemma FileIconExamples()
    ensures FileIcon("image/png") == "Image"
    ensures FileIcon("application/pdf") == "FileText"
    ensures FileIcon("application/msword") == "FileText"
    ensures FileIcon("application/zip") == "Archive"
    ensures FileIcon("text/plain") == "File"
  {
    assert "image/png"[..6] == "image/";
    assert "application/pdf"[0] == 'a';
    assert "application/msword"[0] == 'a';
    assert "application/msword"[14..18] == "word";
    assert OccursAt("application/msword", "word", 14);
    assert "application/zip"[0] == 'a';
    MissingCharacter("application/zip", "document", 0);
    MissingCharacter("application/zip", "word", 0);
    assert OccursAt("application/zip", "zip", 12);
    assert "text/plain"[0] == 't';
    MissingCharacter("text/plain", "document", 0);
    MissingCharacter("text/plain", "word", 0);
    MissingCharacter("text/plain", "zip", 0);
    MissingCharacter("text/plain", "archive", 1);
  }

  const GrayText: string := "text-gray-500"

  /** `getStatusColor`: one colour per active status, gray for any other. */
  function StatusColor(status: Status): (color: string)
    ensures status.Uploading? ==> color == "text-info"
    ensures status.Success? ==> color == "text-success"
    ensures status.Error? ==> color == "text-error"
    ensures color == GrayText <==> !(status.Uploading? || status.Success? || status.Error?)
  {
    match status
    case Uploading => "text-info"
    case Success => "text-success"
    case Error => "text-error"
    case _ => GrayText
  }

  /** `getStatusIcon`: one icon per active status, a clock for any other. */
  function StatusIcon(status: Status): (icon: string)
    ensures status.Uploading? ==> icon == "Loader"
    ensures status.Success? ==> icon == "CheckCircle"
    ensures status.Error? ==> icon == "XCircle"
    ensures icon == "Clock" <==> !(status.Uploading? || status.Success? || status.Error?)
  {
    match status
    case Uploading => "Loader"
    case Success => "CheckCircle"
    case Error => "XCircle"
    case _ => "Clock"
  }

  /** The three active statuses are told apart by colour and by icon. */
  lemma StatusLooksDistinct()
    ensures StatusColor(Uploading) != StatusColor(Success) && StatusColor(Success) != StatusColor(Error)
    ensures StatusColor(Error) != StatusColor(Uploading)
    ensures StatusIcon(Uploading) != StatusIcon(Success) && StatusIcon(Success) != StatusIcon(Error)
    ensures StatusIcon(Error) != StatusIcon(Uploading)
  {
    assert StatusColor(Uploading)[5] == 'i';
    assert StatusColor(Success)[5] == 's';
    assert StatusColor(Error)[5] == 'e';
    assert StatusIcon(Uploading)[0] == 'L';
    assert StatusIcon(Success)[0] == 'C';
    assert StatusIcon(Error)[0] == 'X';
  }

  /* ---------------------------------------------------------------------- */
  /* type label                                                             */
  /* ---------------------------------------------------------------------- */

  /** `type.split("/")[1].toUpperCase() || "FILE"`: the upper-cased second
      slash-separated segment, or `FILE` when it is missing or empty. */
  function TypeLabel(mime: string): (text: string)
    ensures |text| > 0
  {
    var parts := Split(mime, '/');
    if |parts| > 1 && |parts[1]| > 0 then Upper(parts[1]) else "FILE"
  }

  /** The label of `major/minor` and of `major/minor/more` is the upper-cased
      minor type, `FILE` when that is empty; a type without a slash is
      labelled `FILE`. */
  lemma TypeLabelOfSegments(major: string, minor: string, more: string)
    requires '/' !in major && '/' !in minor
    ensures TypeLabel(major + "/" + minor) == (if minor == "" then "FILE" else Upper(minor))
    ensures TypeLabel(major + "/" + minor + "/" + more) == (if minor == "" then "FILE" else Upper(minor))
    ensures TypeLabel(major) == "FILE"
  {
    SplitWithoutSeparator(major, '/');
    SplitWithoutSeparator(minor, '/');
    SplitAtFirst(major, '/', minor);
    SplitAtFirst(minor, '/', more);
    assert major + "/" + minor + "/" + more == major + "/" + (minor + "/" + more);
    SplitAtFirst(major, '/', minor + "/" + more);
  }

  /* ---------------------------------------------------------------------- */
  /* the card                                                               */
  /* ---------------------------------------------------------------------- */

  /** The picture at the left of the card. */
  datatype Preview = Thumbnail(src: string) | Icon(name: string)

  /** The buttons at the right of the card. */
  datatype Action = UploadAction | RetryAction | RemoveAction

  datatype Card = Card(
    preview: Preview,
    statusColor: string,
    statusIcon: string,
    typeLabel: string,
    percent: Option<int>,
    bar: Option<ProgressBar.Bar>,
    errorBox: Option<string>,
    showsUploadTime: bool,
    actions: seq<Action>)

  /** The card of one entry. */
  function Render(e: Entry): (c: Card)
    ensures c.preview.Thumbnail? <==> e.thumbnail.Some? && e.thumbnail.value != ""
    ensures c.preview.Thumbnail? ==> c.preview.src == e.thumbnail.value
    ensures c.preview.Icon? ==> c.preview.name == FileIcon(e.mime)
    ensures c.statusColor == StatusColor(e.status) && c.statusIcon == StatusIcon(e.status)
    ensures c.typeLabel == TypeLabel(e.mime)
    ensures c.percent.Some? <==> e.status.Uploading?
    ensures c.percent.Some? ==> c.percent.value == e.progress
    ensures c.bar.Some? <==> e.status.Uploading? || e.status.Success?
    ensures c.bar.Some? ==> c.bar.value.width == ProgressBar.Clamp(e.progress)
                            && c.bar.value.color == ProgressBar.ProgressColor(e.status)
                            && (c.bar.value.pulse <==> e.status.Uploading?)
    ensures c.errorBox.Some? <==> e.status.Error? && e.error.Some? && e.error.value != ""
    ensures c.errorBox.Some? ==> c.errorBox.value == e.error.value
    ensures c.showsUploadTime <==> e.uploadedAt.Some?
    ensures UploadAction in c.actions <==> e.status.Pending?
    ensures RetryAction in c.actions <==> e.status.Error?
    ensures RemoveAction in c.actions
  {
    var preview :=
      if e.thumbnail.Some? && e.thumbnail.value != "" then Thumbnail(e.thumbnail.value)
      else Icon(FileIcon(e.mime));
    var active := e.status.Uploading? || e.status.Success?;
    Card(
      preview,
      StatusColor(e.status),
      StatusIcon(e.status),
      TypeLabel(e.mime),
      if e.status.Uploading? then Some(e.progress) else None,
      if active then Some(ProgressBar.Render(Some(e.progress), Some(e.status), Some(e.status.Uploading?))) else None,
      if e.status.Error? && e.error.Some? && e.error.value != "" then Some(e.error.value) else None,
      e.uploadedAt.Some?,
      (if e.status.Pending? then [UploadAction] else [])
        + (if e.status.Error? then [RetryAction] else [])
        + [RemoveAction])
  }

  /** After a failed direct upload the card shows the error box with the
      recorded message and offers Retry, not Upload. */
  lemma FailedUploadShowsError(p: HomePage.Page, i: nat, run: Run)
    requires UniqueIds(p.files) && i < |p.files|
    requires run.outcome.Failed?
    ensures var c := Render(HomePage.UploadFile(p, p.files[i].id, run).files[i]);
            && c.errorBox == Some(HomePage.ErrorText(run.outcome.message))
            && RetryAction in c.actions && UploadAction !in c.actions
  {
    HomePage.UploadFileSettles(p, i, run);
  }

  /** After a successful retry the stale error message stays on the entry
      but the card does not show it: the box is for `error` entries only. */
  lemma RetriedSuccessHidesStaleError(p: HomePage.Page, i: nat, run: Run)
    requires UniqueIds(p.files) && i < |p.files|
    requires run.outcome.Succeeded?
    ensures var e := HomePage.Retry(p, p.files[i].id, run).files[i];
            && e.error == p.files[i].error
            && Render(e).errorBox.None?
            && Render(e).showsUploadTime
            && Render(e).bar.Some? && Render(e).bar.value.width == 100
  {
    HomePage.RetrySettles(p, i, run);
  }
}
