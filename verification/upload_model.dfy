/**
 * The upload session document of the ledger (backend/src/models/upload.model.js):
 * declared file identity and size, the derived chunk count, a status
 * enumeration defaulting to UPLOADING, and an optional final digest.
 */
module UploadModel {
  import opened Results

  datatype UploadStatus = Uploading | Processing | Completed | Failed

  function UploadStatusName(s: UploadStatus): string {
    match s
    case Uploading => "UPLOADING"
    case Processing => "PROCESSING"
    case Completed => "COMPLETED"
    case Failed => "FAILED"
  }

  /** The schema's `enum` check: only the four declared names are accepted. */
  function ParseUploadStatus(name: string): (r: Option<UploadStatus>)
    ensures r.Some? ==> UploadStatusName(r.value) == name
  {
    if name == "UPLOADING" then Some(Uploading)
    else if name == "PROCESSING" then Some(Processing)
    else if name == "COMPLETED" then Some(Completed)
    else if name == "FAILED" then Some(Failed)
    else None
  }

  lemma UploadStatusNameRoundTrip(s: UploadStatus)
    ensures ParseUploadStatus(UploadStatusName(s)) == Some(s)
  {
  }

  /** Lower-case hexadecimal text of a SHA-256 digest. */
  type Digest = string

  datatype Session = Session(
    filename: string,
    totalSize: int,
    totalChunks: int,
    status: UploadStatus,
    finalHash: Option<Digest>)

  /** The schema fields a failed validation names. */
  datatype SessionField = FilenameField | TotalSizeField | TotalChunksField | StatusField

  /**
   * Creating a session document. `filename` is a required string, so the
   * empty string is refused as missing; `totalSize` and `totalChunks` are
   * required numbers (zero is accepted); `status` must be an enumerated name
   * and defaults to UPLOADING; `finalHash` is absent on creation.
   */
  function NewSession(filename: Option<string>, totalSize: Option<int>, totalChunks: Option<int>, status: Option<string>)
    : (r: Result<Session, set<SessionField>>)
    ensures r.Failure? ==>
      && (FilenameField in r.error <==> filename.None? || filename.value == "")
      && (TotalSizeField in r.error <==> totalSize.None?)
      && (TotalChunksField in r.error <==> totalChunks.None?)
      && (StatusField in r.error <==> status.Some? && ParseUploadStatus(status.value).None?)
    ensures r.Success? <==>
      && filename.Some? && filename.value != ""
      && totalSize.Some? && totalChunks.Some?
      && (status.None? || ParseUploadStatus(status.value).Some?)
    ensures r.Success? ==>
      && r.value.filename == filename.value
      && r.value.totalSize == totalSize.value
      && r.value.totalChunks == totalChunks.value
      && UploadStatusName(r.value.status) == status.GetOr("UPLOADING")
      && r.value.finalHash.None?
  {
    var bad :=
      (if filename.None? || filename.value == "" then {FilenameField} else {})
      + (if totalSize.None? then {TotalSizeField} else {})
      + (if totalChunks.None? then {TotalChunksField} else {})
      + (if status.Some? && ParseUploadStatus(status.value).None? then {StatusField} else {});
    if bad != {} then Failure(bad)
    else
      var st := if status.Some? then ParseUploadStatus(status.value).value else Uploading;
      Success(Session(filename.value, totalSize.value, totalChunks.value, st, None))
  }
}
