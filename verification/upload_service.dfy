/** The upload service: the file validator (a pure function of the file's
    metadata and the upload policy) and the upload-history slot with its
    save / load / clear operations. */
module UploadService {
  import opened Wrappers
  import opened Strings
  import opened Entries

  /* ---------------------------------------------------------------------- */
  /* validation                                                             */
  /* ---------------------------------------------------------------------- */

  /** The upload configuration: the largest accepted size in bytes and the
      allowed-type rules, each either an extension wildcard `*.ext` or a
      MIME-style rule. */
  datatype Policy = Policy(maxFileSize: nat, allowedTypes: seq<string>)

  /** `{ isValid, error }` as the validator returns it. */
  datatype Validation = Validation(isValid: bool, error: Option<string>)

  const MiB: nat := 1024 * 1024

  /** `Math.round(bytes / MiB)` for a non-negative byte count: the nearest
      whole number of mebibytes, halves rounded up. */
  function RoundToMB(bytes: nat): (mb: nat)
    ensures mb * MiB <= bytes + MiB / 2 < (mb + 1) * MiB
  {
    (bytes + MiB / 2) / MiB
  }

  /** The rejection message of an oversize file; the limit is written in
      whole megabytes, directly followed by `MB`. */
  function SizeMessage(maxFileSize: nat): string {
    "File size exceeds " + NatToString(RoundToMB(maxFileSize)) + "MB limit"
  }

  const TypeMessage: string := "File type not supported"

  /** `name.split(".").pop().toLowerCase()`: the lower-cased text after the
      last dot, or the whole lower-cased name when there is no dot. */
  function Extension(name: string): string {
    Lower(LastPiece(name, '.'))
  }

  /** `rule.split("/")[0]`: the rule's text before its first slash. */
  function MajorType(rule: string): string {
    Split(rule, '/')[0]
  }

  predicate IsExtensionRule(rule: string) {
    StartsWith(rule, "*.")
  }

  /** Whether one allowed-type rule admits a file. An extension rule compares
      the file's extension with the rule text after `*.`; any other rule
      admits the exact MIME type and every MIME type with the rule's major
      type. */
  predicate RuleMatches(rule: string, file: FileMeta) {
    if IsExtensionRule(rule) then Extension(file.name) == rule[2..]
    else file.mime == rule || StartsWith(file.mime, MajorType(rule) + "/")
  }

  /** `allowedTypes.some(...)`, walked rule by rule. */
  function SomeRuleMatches(rules: seq<string>, file: FileMeta): (b: bool)
    ensures b <==> exists k :: 0 <= k < |rules| && RuleMatches(rules[k], file)
    decreases |rules|
  {
    if |rules| == 0 then false
    else RuleMatches(rules[0], file) || SomeRuleMatches(rules[1..], file)
  }

  /** The validator. The size check comes first, so an oversize file is
      rejected for its size whatever its type; a file within the limit is
      accepted exactly when some rule admits it. An accepted file carries no
      error and every rejection carries a message. */
  function Validate(policy: Policy, file: FileMeta): (v: Validation)
    ensures v.isValid <==> v.error.None?
    ensures file.size > policy.maxFileSize ==>
              v == Validation(false, Some(SizeMessage(policy.maxFileSize)))
    ensures file.size <= policy.maxFileSize ==>
              (v.isValid <==> exists k :: 0 <= k < |policy.allowedTypes| && RuleMatches(policy.allowedTypes[k], file))
    ensures file.size <= policy.maxFileSize && !v.isValid ==> v.error == Some(TypeMessage)
  {
    if file.size > policy.maxFileSize then
      Validation(false, Some(SizeMessage(policy.maxFileSize)))
    else if !SomeRuleMatches(policy.allowedTypes, file) then
      Validation(false, Some(TypeMessage))
    else
      Validation(true, None)
  }

  /** The size error is reported exactly for files over the limit: a file of
      exactly `maxFileSize` bytes passes the size check. */
  lemma SizeErrorIffOversize(policy: Policy, file: FileMeta)
    ensures Validate(policy, file).error == Some(SizeMessage(policy.maxFileSize))
            <==> file.size > policy.maxFileSize
  {
    var m := SizeMessage(policy.maxFileSize);
    assert m[5] == 's' && TypeMessage[5] == 't';
  }

  /** An extension rule `*.ext` admits a file exactly when the lower-cased
      text after the last dot of its name is `ext`; for a name without a dot
      the whole lower-cased name is compared. */
  lemma ExtensionRuleMatches(ext: string, file: FileMeta)
    ensures RuleMatches("*." + ext, file) <==> Extension(file.name) == ext
    ensures '.' !in file.name ==> (RuleMatches("*." + ext, file) <==> Lower(file.name) == ext)
    ensures '.' in file.name ==>
              (RuleMatches("*." + ext, file) <==>
                 exists k :: 0 <= k < |file.name| && file.name[k] == '.' && '.' !in file.name[k + 1..]
                             && Lower(file.name[k + 1..]) == ext)
  {
    var rule := "*." + ext;
    assert rule[..2] == "*.";
    assert rule[2..] == ext;
    LastPieceIsSuffix(file.name, '.');
    if '.' in file.name {
      var last := LastPiece(file.name, '.');
      var k :| 0 <= k < |file.name| && file.name[k] == '.' && file.name[k + 1..] == last;
      forall k' | 0 <= k' < |file.name| && file.name[k'] == '.' && '.' !in file.name[k' + 1..]
        ensures file.name[k' + 1..] == last
      {
        assert k' == k;
      }
    }
  }

  /** A MIME-style rule `major/minor` admits every file whose MIME type has
      the same major type, not only the exact type. */
  lemma MimeRuleAdmitsMajorType(major: string, minor: string, file: FileMeta)
    requires '/' !in major
    requires !IsExtensionRule(major + "/" + minor)
    requires StartsWith(file.mime, major + "/")
    ensures RuleMatches(major + "/" + minor, file)
  {
    SplitAtFirst(major, '/', minor);
  }

  /** For instance, the rule `application/pdf` admits a ZIP archive. */
  lemma PdfRuleAdmitsZip(name: string, size: nat)
    ensures RuleMatches("application/pdf", FileMeta(name, size, "application/zip"))
  {
    assert "application/pdf" == "application" + "/" + "pdf";
    assert "application/zip"[..|"application/"|] == "application/";
    assert "application/pdf"[0] == 'a';
    MimeRuleAdmitsMajorType("application", "pdf", FileMeta(name, size, "application/zip"));
  }

  /* ---------------------------------------------------------------------- */
  /* upload history                                                         */
  /* ---------------------------------------------------------------------- */

  /** The durable key-value slot behind the history: nothing stored, a stored
      record list, or text that `JSON.parse` rejects (or a read that throws). */
  datatype Slot = Absent | Stored(records: seq<Durable>) | Unreadable

  /** The record saved for one entry: every field but the file handle. */
  function ToDurable(e: Entry): Durable {
    Durable(e.id, e.name, e.size, e.mime, StatusName(e.status), e.progress, e.error, e.thumbnail, e.uploadedAt)
  }

  /** A restored record as a queue entry: it has no live file handle, and
      its status is read back from the stored text. */
  function Restore(d: Durable): (e: Entry)
    ensures e.file.None?
    ensures Canonical(e.status) && StatusName(e.status) == d.status
  {
    Entry(d.id, None, d.name, d.size, d.mime, ParseStatus(d.status), d.progress, d.error, d.thumbnail, d.uploadedAt)
  }

  /** Saving a restored entry gives the record back. Restoring a saved
      record gives the entry back without its handle, with its status
      text read back: the same status whenever the status is canonical. */
  lemma RestoreToDurable(e: Entry, d: Durable)
    ensures ToDurable(Restore(d)) == d
    ensures Restore(ToDurable(e)) == e.(file := None, status := ParseStatus(StatusName(e.status)))
    ensures Canonical(e.status) ==> Restore(ToDurable(e)) == e.(file := None)
  {
    if Canonical(e.status) {
      StatusNameRoundTrip(e.status);
    }
  }

  /** The list `saveUploadHistory` writes: one record per entry, same order. */
  function Project(q: seq<Entry>): (h: seq<Durable>)
    ensures |h| == |q|
    ensures forall i :: 0 <= i < |q| ==> h[i] == ToDurable(q[i])
  {
    seq(|q|, i requires 0 <= i < |q| => ToDurable(q[i]))
  }

  /** `saveUploadHistory`: the slot afterwards holds the projection. */
  function SaveHistory(q: seq<Entry>): (slot: Slot)
    ensures slot.Stored? && slot.records == Project(q)
  {
    Stored(Project(q))
  }

  /** `getUploadHistory`: the stored list, or the empty list when nothing is
      stored or when reading or parsing throws. */
  function GetHistory(slot: Slot): (h: seq<Durable>)
    ensures slot.Stored? ==> h == slot.records
    ensures !slot.Stored? ==> h == []
  {
    match slot
    case Stored(records) => records
    case _ => []
  }

  /** `clearUploadHistory`: the slot is removed. */
  function ClearHistory(): (slot: Slot)
    ensures GetHistory(slot) == []
  {
    Absent
  }

  /** Loading after a save returns that save's projection, record for record;
      restoring them gives the saved entries without their file handles,
      each status read back from its text (unchanged when canonical). */
  lemma {:induction false} SaveThenLoad(q: seq<Entry>)
    ensures GetHistory(SaveHistory(q)) == Project(q)
    ensures |GetHistory(SaveHistory(q))| == |q|
    ensures forall i :: 0 <= i < |q| ==>
              Restore(GetHistory(SaveHistory(q))[i])
                == q[i].(file := None, status := ParseStatus(StatusName(q[i].status)))
    ensures CanonicalQueue(q) ==>
              forall i :: 0 <= i < |q| ==> Restore(GetHistory(SaveHistory(q))[i]) == q[i].(file := None)
  {
    forall i | 0 <= i < |q|
      ensures Restore(GetHistory(SaveHistory(q))[i])
                == q[i].(file := None, status := ParseStatus(StatusName(q[i].status)))
      ensures Canonical(q[i].status) ==> Restore(GetHistory(SaveHistory(q))[i]) == q[i].(file := None)
    {
      RestoreToDurable(q[i], ToDurable(q[i]));
    }
  }
}
