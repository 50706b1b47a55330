# Upload queue — a Dafny model

This project models the client-side upload queue of a browser file-upload
widget:

- the **file validator** of the upload service: the size limit first, then the
  allowed-type rules (`*.ext` extension wildcards and MIME-style rules);
- the **history slot** the queue is saved to, with its save / load / clear
  operations;
- the **queue controller** of the home page: adding validated files, the
  thumbnail patch, progress reports, upload start / success / failure,
  remove, clear-all, retry and upload-all, plus the history load on mount;
- the **derived views**: the statistics panel (counters, byte totals,
  completion line, Upload-all button), the file card (icons, colours, type
  label, which parts are shown per status) and the progress bar (clamp and
  colour).

Every handler is a pure function on a `Page` (the queue plus the slot). The
upload executor's behaviour is an input: a `Run` holds the progress values it
reports, its outcome (`Succeeded`, or `Failed` with or without a message) and
the clock at success. Entry ids are natural numbers supplied by the caller.

`uploadFile` reads its snapshot with `files.find` from the queue of the
render it was created in, while its updates go to the live queue. The model
keeps these apart: `HomePage.UploadFrom` takes the read-side `view` and the
live `Page`. A card's Upload button passes the live queue as the view.
`retryUpload` passes the queue as it was before its own reset. `uploadAllFiles`
passes the queue as it was when the batch started, for every upload of the
batch. The model follows the code where it differs from a tidier design:

- `uploadFile` has no status guard. A started upload does not clear `error`.
- On success the entry is replaced by its start-time snapshot. Patches made
  in between are lost, such as a thumbnail (`SuccessOverwritesThumbnail`).
- After a retry that succeeds, the old error message comes back with the
  snapshot and stays on a `success` entry (`RetrySettles`). The card does not
  show it (`RetriedSuccessHidesStaleError`).
- A failure is not saved to history; a success saves the whole queue.
- A MIME-style rule admits every type with the same major type, so
  `application/pdf` admits `application/zip` (`PdfRuleAdmitsZip`).
- The size message is written `File size exceeds 10MB limit`, with no space
  before `MB`.
- Removal saves the whole filtered queue rather than deleting one record.

## Layout

| file | module | source |
|---|---|---|
| wrappers.dfy | `Wrappers` | `Option` for JavaScript's `null`/`undefined` |
| strings.dfy | `Strings` | `split`/`join`, ASCII case mapping, `startsWith`/`includes`, decimal rendering |
| entries.dfy | `Entries` | file metadata, status, queue entry, durable record, upload run |
| upload_service.dfy | `UploadService` | src/services/api/uploadService.js |
| home_page.dfy | `HomePage` | src/components/pages/HomePage.jsx |
| upload_stats.dfy | `UploadStats` | src/components/organisms/UploadStats.jsx |
| file_card.dfy | `FileCard` | src/components/molecules/FileCard.jsx |
| progress_bar.dfy | `ProgressBar` | src/components/atoms/ProgressBar.jsx |

## Model

| member | source | states |
|---|---|---|
| Strings.JoinSplit | src/services/api/uploadService.js:20 | Joining the pieces of `split(c)` with `c` gives back the string, and no piece contains `c`. |
| Strings.SplitJoin | src/services/api/uploadService.js:20 | Splitting the join of separator-free pieces gives back the pieces. |
| Strings.LastPieceIsSuffix | src/services/api/uploadService.js:20 | `split(c).pop()` is the text after the last `c`, or the whole string when there is no `c`; it never contains `c`. |
| Strings.NatToString | src/components/organisms/UploadStats.jsx:116 | A number renders as a non-empty string of digits with no leading zero. |
| Strings.ParseNatToString | src/components/organisms/UploadStats.jsx:83-85 | Reading back the digits of a rendered number gives the number. |
| Strings.NatToStringInjective | src/components/organisms/UploadStats.jsx:83-85 | Different numbers render as different text. |
| Entries.ParseStatus | src/services/api/uploadService.js:128-136 | A status read back from stored text renders as that text. It is `Other` iff the text is none of the four names. |
| Entries.StatusNameRoundTrip | src/services/api/uploadService.js:108-136 | Writing a canonical status as text and reading it back gives the status. |
| UploadService.Validate | src/services/api/uploadService.js:9-38 | An oversize file always gets the size message, whatever its type. A file within the limit is valid iff some allowed-type rule admits it; otherwise the error is exactly `File type not supported`. `isValid` holds iff `error` is null. |
| UploadService.RoundToMB | src/services/api/uploadService.js:13 | The MB figure in the size message is the nearest whole number of MiB to the limit, halves rounded up. |
| UploadService.SizeErrorIffOversize | src/services/api/uploadService.js:12-18 | The size error is reported iff `size > maxFileSize`. A file of exactly the limit passes the size check. |
| UploadService.SomeRuleMatches | src/services/api/uploadService.js:23-28 | The rule-by-rule `some` is true iff at least one rule of the list admits the file. |
| UploadService.ExtensionRuleMatches | src/services/api/uploadService.js:20-26 | A `*.ext` rule admits a file iff the lower-cased text after the last dot of the name is `ext`. A name without a dot is compared whole. |
| UploadService.MimeRuleAdmitsMajorType | src/services/api/uploadService.js:27 | A non-wildcard rule `major/minor` admits every MIME type that starts with `major/`. |
| UploadService.PdfRuleAdmitsZip | src/services/api/uploadService.js:27 | The rule `application/pdf` admits a file of type `application/zip`. |
| UploadService.Restore | src/services/api/uploadService.js:128-136 | An entry restored from history has no live file handle. Its status is read from the stored text: canonical, and rendering back to that text. |
| UploadService.RestoreToDurable | src/services/api/uploadService.js:110-120 | A saved record holds every field of the entry except the file handle, with the status as text. Saving a restored record gives it back. Restoring a saved entry gives it back without its handle, its status re-read from text (unchanged when canonical). |
| UploadService.Project | src/services/api/uploadService.js:108-121 | The saved history has the same length and order as the queue; element i is the record of entry i. |
| UploadService.SaveHistory | src/services/api/uploadService.js:108-125 | After a save, the slot holds the projection of the queue. |
| UploadService.GetHistory | src/services/api/uploadService.js:128-136 | Loading returns the stored list, or `[]` when nothing is stored or when the stored text is rejected by `JSON.parse` (or the read throws). |
| UploadService.ClearHistory | src/services/api/uploadService.js:139-145 | After a clear, loading returns `[]`. |
| UploadService.SaveThenLoad | src/services/api/uploadService.js:108-136 | Loading after a save gives that save's projection. Restoring it gives back the saved entries in order, minus their file handles, each status re-read from its text; a queue of canonical statuses comes back unchanged. |
| HomePage.Mount | src/components/pages/HomePage.jsx:16-21 | On mount the queue is the restored history, and empty when the history is empty. |
| HomePage.MountAfterSave | src/components/pages/HomePage.jsx:16-21 | Mounting over a saved queue of canonical statuses brings back that queue without file handles. An absent or unreadable slot gives an empty queue. Every mounted status is canonical. |
| HomePage.NewEntry | src/components/pages/HomePage.jsx:24-35 | A new entry copies name, size and type from the file and is `pending` at progress 0. Its error, thumbnail and upload time are null. |
| HomePage.HandleFiles | src/components/pages/HomePage.jsx:23-60 | The queue afterwards is the old queue followed by the entries of the accepted files. The history slot is not touched. |
| HomePage.AdmittedInOrder | src/components/pages/HomePage.jsx:38-57 | The added entries keep input order: the entries of a batch `f1 + f2` are those of `f1` followed by those of `f2`. |
| HomePage.AdmittedEntries | src/components/pages/HomePage.jsx:37-54 | An entry is added iff it is the new entry of a file of the batch that passes validation. |
| HomePage.AdmittedSound | src/components/pages/HomePage.jsx:37-54 | Every added entry is the new entry of an accepted file of the batch. |
| HomePage.AdmittedComplete | src/components/pages/HomePage.jsx:37-54 | The new entry of every accepted file of the batch is added. |
| HomePage.RejectedNeverEnters | src/components/pages/HomePage.jsx:39-53 | With distinct generated ids, no added entry carries the id of a rejected file. |
| HomePage.AdmittedDistinct | src/components/pages/HomePage.jsx:24-57 | With distinct generated ids, the added entries have distinct ids. |
| HomePage.TenMegabyteMessage | src/services/api/uploadService.js:12-18 | With a 10 MB limit the size error reads `File size exceeds 10MB limit`. |
| HomePage.JpegAccepted | src/services/api/uploadService.js:9-38 | A 5 MB JPEG passes a 10 MB policy allowing `image/*` and `application/zip`. |
| HomePage.AddKeepsIdsUnique | src/components/pages/HomePage.jsx:24-57 | Fresh, distinct ids keep the queue's ids unique after adding. |
| HomePage.MixedBatchScenario | src/components/pages/HomePage.jsx:37-59 | Policy: 10 MB, images and ZIP. A 5 MB JPEG is queued as pending. A 15 MB ZIP is rejected with `File size exceeds 10MB limit`. One entry is added. |
| HomePage.PatchThumbnail | src/components/pages/HomePage.jsx:44-48 | Only the thumbnail of the entries with the id changes. Every other entry and field is kept, and an absent id is a no-op. |
| HomePage.SetProgress | src/components/pages/HomePage.jsx:99-103 | A progress report changes only the progress of the entries with the id. An absent id is a no-op. |
| HomePage.ApplyTicks | src/components/pages/HomePage.jsx:99-103 | After a run of reports the entries with the id hold the last reported value. Nothing else changes. |
| HomePage.Find | src/components/pages/HomePage.jsx:91 | `find` returns nothing iff no entry has the id; otherwise it returns the first entry with the id. |
| HomePage.FindUnique | src/components/pages/HomePage.jsx:91-92 | With unique ids, the entry found is the one at the id's position. |
| HomePage.Begin | src/components/pages/HomePage.jsx:94-96 | Starting an upload makes the entries with the id `uploading` at progress 0, whatever their status. Their error is kept; all other entries are unchanged. |
| HomePage.ErrorText | src/components/pages/HomePage.jsx:120 | The failure message is the exception's message, or `Upload failed` when it is missing or empty. It is never empty. |
| HomePage.Completed | src/components/pages/HomePage.jsx:105-110 | The entry written on success is `success` at progress 100 with the upload time. Every other field, the file handle included, is the start-time snapshot's. |
| HomePage.Succeed | src/components/pages/HomePage.jsx:105-116 | On success every entry with the id becomes the completed snapshot, whatever it held before. Other entries are kept, and the slot holds the saved updated queue. |
| HomePage.Fail | src/components/pages/HomePage.jsx:119-125 | On failure the entries with the id get status `error` and the message, with progress left as it was. The slot is not written. |
| HomePage.UploadFrom | src/components/pages/HomePage.jsx:90-126 | An id missing from the view leaves the page unchanged. Otherwise the entries with the id settle: success gives the completed snapshot and a saved queue; failure gives the message, the last reported progress (0 if none) and no save. Other entries keep their values. |
| HomePage.UploadFile | src/components/pages/HomePage.jsx:90-126 | A direct upload of an unknown id changes nothing, and never changes entries with other ids. |
| HomePage.UploadFileSettles | src/components/pages/HomePage.jsx:90-126 | With unique ids, success turns the clicked entry into its clicked-time self, marked `success`, 100, with the time, and saves. Failure gives it status `error`, the message and the last reported progress, with no save. |
| HomePage.SuccessOverwritesThumbnail | src/components/pages/HomePage.jsx:105-116 | A thumbnail patched in while the upload runs is lost on success: the entry gets the snapshot's thumbnail back. |
| HomePage.RetryReset | src/components/pages/HomePage.jsx:158-161 | Retry first sets the entries with the id to `pending`, error null, progress 0. All other entries are unchanged. |
| HomePage.Retry | src/components/pages/HomePage.jsx:158-163 | Retrying an unknown id changes nothing, and never changes entries with other ids. |
| HomePage.RetryStartsClean | src/components/pages/HomePage.jsx:158-162 | While the retried upload runs, the entry is `uploading` at progress 0 with no error. |
| HomePage.RetrySettles | src/components/pages/HomePage.jsx:158-163 | A successful retry gives the pre-retry entry marked `success`, so the old error survives. A failed retry gives status `error`, the new message and the last reported progress; every other field of the entry is kept, and nothing is saved. |
| HomePage.PendingOf | src/components/pages/HomePage.jsx:129 | The pending filter is no longer than the queue and holds only pending entries. |
| HomePage.PendingOfMembers | src/components/pages/HomePage.jsx:129 | An entry is in the pending batch iff it is in the queue and pending. |
| HomePage.PendingOfConcat | src/components/pages/HomePage.jsx:129 | The filter keeps queue order and multiplicity: the pending entries of `a + b` are those of `a` followed by those of `b`. |
| HomePage.PendingOfSingle | src/components/pages/HomePage.jsx:129 | A one-entry queue keeps its entry iff it is pending. |
| HomePage.PendingUnique | src/components/pages/HomePage.jsx:129 | With unique ids in the queue, the pending batch has unique ids. |
| HomePage.UploadAll | src/components/pages/HomePage.jsx:128-141 | With no pending entry, upload-all leaves the page unchanged. |
| HomePage.UploadEachLast | src/components/pages/HomePage.jsx:137-140 | The uploads of a batch run one at a time: its last id is uploaded from the state all the earlier uploads left. |
| HomePage.UploadEachConcat | src/components/pages/HomePage.jsx:137-140 | A batch split in two runs its first part to the end, then its second part from the resulting state. |
| HomePage.UploadEachSnoc | src/components/pages/HomePage.jsx:137-140 | An upload appended to a batch runs after all the others, from the state they left. |
| HomePage.UploadEachOne | src/components/pages/HomePage.jsx:137-140 | A batch of one is exactly one upload. |
| HomePage.UploadAllInOrder | src/components/pages/HomePage.jsx:128-141 | Upload-all goes through the queue in order: for a queue `a + b`, all pending entries of `a` are uploaded, one by one from the pre-batch view, before those of `b`, and the runs are used in the same order. |
| HomePage.UploadAllLast | src/components/pages/HomePage.jsx:128-141 | When the queue ends in a pending entry, upload-all starts that entry last, with the last run, after the pending entries before it. |
| HomePage.UploadEachFrame | src/components/pages/HomePage.jsx:137-140 | A batch keeps the queue's length and ids. It leaves every entry whose id is not in the batch untouched. |
| HomePage.UploadEachSettles | src/components/pages/HomePage.jsx:137-140 | Each id of a batch of distinct ids, all present in the view, ends in the status its own outcome dictates. |
| HomePage.UploadAllSettles | src/components/pages/HomePage.jsx:128-141 | With unique ids, upload-all leaves every non-pending entry as it was. Each pending entry ends `success` or `error` as its own run dictates. |
| HomePage.NonPendingOutsideBatch | src/components/pages/HomePage.jsx:129 | With unique ids, an entry that is not pending carries no id of the upload-all batch. |
| HomePage.Without | src/components/pages/HomePage.jsx:145 | The filtered queue has no entry with the id and is no longer than the input. |
| HomePage.WithoutMembers | src/components/pages/HomePage.jsx:145 | The filtered queue holds exactly the entries that do not carry the id. |
| HomePage.WithoutInOrder | src/components/pages/HomePage.jsx:145 | Filtering keeps order: it distributes over concatenation. |
| HomePage.WithoutAbsent | src/components/pages/HomePage.jsx:145 | Filtering by an id no entry carries changes nothing. |
| HomePage.RemoveFile | src/components/pages/HomePage.jsx:143-150 | Remove drops every entry with the id and keeps exactly the others. The slot holds the saved result. |
| HomePage.RemoveFileInOrder | src/components/pages/HomePage.jsx:143-150 | Remove keeps the order of the entries left: for a queue `a + b` the result is what is left of `a` followed by what is left of `b`. Removing an absent id leaves the queue as it was. |
| HomePage.RemoveIdempotent | src/components/pages/HomePage.jsx:143-150 | Removing the same id twice equals removing it once, for the queue and the slot alike. |
| HomePage.ClearAll | src/components/pages/HomePage.jsx:152-156 | Clear-all empties the queue and removes the slot, so loading returns `[]`. |
| HomePage.ClearAllIdempotent | src/components/pages/HomePage.jsx:152-156 | Clearing twice equals clearing once. A later mount finds an empty queue. |
| UploadStats.CountStatus | src/components/organisms/UploadStats.jsx:8-11 | A counter is at most the number of files. It is 0 iff no file has the status, and equals the total iff all files have it. |
| UploadStats.CountOther | src/components/organisms/UploadStats.jsx:7-11 | The number of files with a status outside the four names is 0 iff every status is one of them. |
| UploadStats.Summarize | src/components/organisms/UploadStats.jsx:7-16 | The total is the queue length. Uploaded, failed, pending and uploading are the counters of `success`, `error`, `pending` and `uploading`, each at most the total. The byte figures are the total and uploaded sums. |
| UploadStats.CountStatusConcat | src/components/organisms/UploadStats.jsx:8-11 | A counter is additive over queue parts, 0 on the empty queue, and 1 on a one-entry queue iff its entry has the status: it is the number of entries with that status. |
| UploadStats.SizesConcat | src/components/organisms/UploadStats.jsx:13-16 | Both byte sums are additive over queue parts. A single entry adds its size (0 when missing), and adds to the uploaded sum only when it is a success. |
| UploadStats.CountsPartition | src/components/organisms/UploadStats.jsx:7-11 | The four counters plus the other-status files add up to the total. |
| UploadStats.CountersSumToTotal | src/components/organisms/UploadStats.jsx:7-11 | The four counters sum to the total iff every status is one of the four names. |
| UploadStats.UploadedSizeBounded | src/components/organisms/UploadStats.jsx:13-16 | With no negative size, the uploaded bytes lie between 0 and the total bytes. A missing size counts as 0. |
| UploadStats.Render | src/components/organisms/UploadStats.jsx:25-131 | An empty queue renders nothing. The Upload-all button is shown iff something is pending or uploading, and disabled iff nothing is pending. Its label is the button text for the pending count. The uploaded-bytes line is shown iff uploaded bytes > 0. |
| UploadStats.ButtonTextReportsPending | src/components/organisms/UploadStats.jsx:107-117 | When N > 0 files are pending, the rendered button is labelled `Upload N Files`, N reads back from the text, and N equals the number of uploads upload-all starts. With nothing pending the text is `Upload All`. |
| UploadStats.ButtonTextNumber | src/components/organisms/UploadStats.jsx:116 | For a positive count the label is `Upload N Files`, and N reads back from the text between the two words. |
| UploadStats.PendingCount | src/components/organisms/UploadStats.jsx:10 | The pending counter equals the length of the pending filter used by upload-all. |
| UploadStats.CompletionReadsBack | src/components/organisms/UploadStats.jsx:83-85 | The completion line reads `uploaded of total completed` with uploaded at most total. The uploaded number reads back from its digits. |
| FileCard.FileIcon | src/components/molecules/FileCard.jsx:15-21 | The icon is the first case that applies: image prefix, then exact PDF, then `document`/`word`, then `zip`/`archive`. It is `File` iff none applies. |
| FileCard.FileIconExamples | src/components/molecules/FileCard.jsx:15-21 | PNG gets Image. PDF and MS Word get FileText. ZIP gets Archive. Plain text gets File. |
| FileCard.StatusColor | src/components/molecules/FileCard.jsx:23-30 | Uploading, success and error each get their own colour. The gray default is given iff the status is none of them. |
| FileCard.StatusIcon | src/components/molecules/FileCard.jsx:32-39 | Uploading, success and error each get their own icon. The `Clock` default is given iff the status is none of them. |
| FileCard.StatusLooksDistinct | src/components/molecules/FileCard.jsx:23-39 | The three active statuses have pairwise distinct colours and pairwise distinct icons. |
| FileCard.TypeLabel | src/components/molecules/FileCard.jsx:88 | The type label is never empty. |
| FileCard.TypeLabelOfSegments | src/components/molecules/FileCard.jsx:88 | The label of `major/minor[/more]` is the upper-cased minor type, or `FILE` when it is empty. A type without a slash gets `FILE`. |
| FileCard.Render | src/components/molecules/FileCard.jsx:41-152 | The preview is the thumbnail itself when present, else the type icon. Upload shows only for pending, Retry only for error, Remove always. The bar shows only for uploading or success, with the clamped progress and the status gradient; the percentage only for uploading. The error box shows iff status is error and the message is non-empty; the upload time iff it is set. |
| FileCard.FailedUploadShowsError | src/components/molecules/FileCard.jsx:109-113 | After a failed direct upload, the card shows the recorded message and offers Retry, not Upload. |
| FileCard.RetriedSuccessHidesStaleError | src/components/molecules/FileCard.jsx:109-120 | After a successful retry the stale error stays on the entry but is hidden. The card shows the upload time and a full bar. |
| ProgressBar.Clamp | src/components/atoms/ProgressBar.jsx:19 | The width lies in [0,100] and equals the progress inside that range. Below 0 it is 0; above 100 it is 100. |
| ProgressBar.ClampIdempotentMonotone | src/components/atoms/ProgressBar.jsx:19 | Clamping is idempotent and keeps order. |
| ProgressBar.ProgressColor | src/components/atoms/ProgressBar.jsx:5-12 | Uploading, success and error get their own gradients. The gray default is given iff the status is none of them. |
| ProgressBar.ProgressColorsDistinct | src/components/atoms/ProgressBar.jsx:5-12 | The three active gradients are pairwise distinct. |
| ProgressBar.Render | src/components/atoms/ProgressBar.jsx:4-22 | An omitted progress draws width 0 and an omitted status draws gray. The width is `min(max(progress, 0), 100)`, always in [0,100], and the bar pulses iff `animated` is true. |

## Left out

- The simulated upload timer (uploadService.js:84-105) is left out. It uses `setInterval`, `Math.random` and floating-point progress. A `Run` (reports, outcome, clock) replaces it. Nothing requires the reports to rise or to end at 100.
- Thumbnail generation (uploadService.js:41-81) is left out because it is a browser API (FileReader, Image, canvas). Its result comes in through `HomePage.PatchThumbnail`, which can be applied between any two steps.
- localStorage and JSON are modelled as a `Slot`: absent, stored records, or unreadable, which means text that `JSON.parse` rejects or a read that throws.
- Stored text that parses but is not an array of records is not modelled. `getUploadHistory` returns such a value as it is. For a stored `null`, the mount then throws on `savedFiles.length` (HomePage.jsx:18). Only this program's own saves write the slot, and they always write a record array. Write failures that are logged and swallowed are not modelled; a save always succeeds. JSON turns the upload time from a `Date` into a string; the model keeps one integer.
- The ids come from `Date.now() + Math.random()`. They are natural numbers passed in by the caller. Uniqueness is assumed where a lemma needs it, not enforced.
- Toast notifications, framer-motion animation, CSS classes other than the colours, and `toLocaleTimeString` are left out.
- `formatFileSize` (FileCard.jsx:7-13, UploadStats.jsx:17-23) and the completion-bar width (UploadStats.jsx:92) are left out because they use `Math.log`, `toFixed` and float division.
- Concurrent `uploadFile` calls are not modelled: two on the same id, or one overlapping `uploadAllFiles`. Only sequential interleavings of the step functions are modelled. `HomePage.UploadAll` runs the batch with no other event in between.
- The DOM event handlers `handleDrop`, `handleDragOver`, `handleDragLeave` and `handleFileInput` (HomePage.jsx:62-88) are left out. They only unwrap the file list and call `handleFiles`. `getConfig` (uploadService.js:148-150) is also left out; it only copies the configuration.
- `toLowerCase` and `toUpperCase` are modelled on ASCII letters only. Other characters keep their case.
- Status strings are compared as `Status` values. The slot keeps the text and `UploadService.Restore` parses it, so every restored status is canonical (`Entries.Canonical`: `Other` only for text outside the four names). Statuses the code itself writes are the four names. A non-canonical `Other` value can only be built by hand, and the round-trip lemmas state their exact result for it.
- Sizes are integers. The `|| 0` of the byte totals is modelled for a missing size only, not for `NaN` or a size of type string.
- The file uploader wrapper around the external SDK (ApperFileFieldComponent.jsx) is left out. So are the purely presentational components: DropZone, FileList, Button, StatCard, Layout, Empty, ErrorView, NotFound, Loading and the Tailwind configuration.
- FileCard.TypeLabel: its own contract only says the label is never empty. The segment-by-segment behaviour is stated in `FileCard.TypeLabelOfSegments`.
- HomePage.UploadFile: its own contract states only the frame and the unknown-id case. How the entry settles is stated in `HomePage.UploadFileSettles`.
- HomePage.Retry: its own contract states only the frame and the unknown-id case. How the entry settles is stated in `HomePage.RetrySettles`.
