/**
 * The two-file uploader (FileUploader.jsx): one slot per file, an uploading
 * flag and an error line. A drop fills one slot or reports an error; the
 * upload runs only with both slots filled and reports the server's error text.
 */
module FileUploader {
  import opened Wrappers

  const MaxFileSize: nat := 10 * 1024 * 1024
  const CsvMimeType := "text/csv"

  const InvalidFileMessage := "Please upload a CSV file under 10MB"
  const MissingFilesMessage := "Please select both files"
  const UploadFailedMessage := "Upload failed"

  /** The browser's File object, as far as the uploader looks at it. */
  datatype DroppedFile = DroppedFile(name: string, mimeType: string, size: nat)

  /** The multipart request: `internal_file` and `provider_file`. */
  datatype UploadRequest = UploadRequest(internalFile: DroppedFile, providerFile: DroppedFile)

  /** How the request settles: a response, or a rejection carrying `response.data.error` if any. */
  datatype UploadResponse = Succeeded | Failed(errorField: Option<string>)

  /** `acceptedFiles[0]` exists, is typed text/csv and is at most 10 MiB. */
  predicate Acceptable(accepted: seq<DroppedFile>): (ok: bool)
    ensures ok ==> accepted != [] && accepted[0].size <= 10485760
    ensures accepted != [] && accepted[0].mimeType != CsvMimeType ==> !ok
    ensures accepted == [] ==> !ok
  {
    |accepted| > 0 && accepted[0].mimeType == CsvMimeType && accepted[0].size <= MaxFileSize
  }

  /** `err.response?.data?.error || 'Upload failed'`: the server's text unless it is absent or empty. */
  function FailureMessage(errorField: Option<string>): (message: string)
    ensures message != ""
    ensures errorField.Some? && errorField.value != "" ==> message == errorField.value
    ensures errorField.None? || errorField.value == "" ==> message == UploadFailedMessage
  {
    match errorField
    case Some(e) => if e != "" then e else UploadFailedMessage
    case None => UploadFailedMessage
  }

  class Uploader {
    var internalFile: Option<DroppedFile>
    var providerFile: Option<DroppedFile>
    var uploading: bool
    var error: string

    /** Only acceptable files ever reach a slot. */
    ghost predicate Valid()
      reads this
    {
      (internalFile.Some? ==> Acceptable([internalFile.value])) &&
      (providerFile.Some? ==> Acceptable([providerFile.value]))
    }

    constructor ()
      ensures Valid()
      ensures internalFile.None? && providerFile.None? && !uploading && error == ""
      ensures !UploadEnabled()
    {
      internalFile, providerFile := None, None;
      uploading, error := false, "";
    }

    /** `disabled={!internalFile || !providerFile || uploading}`, negated. */
    predicate UploadEnabled(): (enabled: bool)
      reads this
      ensures enabled ==> internalFile.Some? && providerFile.Some?
      ensures uploading ==> !enabled
    {
      internalFile.Some? && providerFile.Some? && !uploading
    }

    /** A drop on the internal slot; the provider slot is never touched. */
    method OnDropInternal(accepted: seq<DroppedFile>)
      requires Valid()
      modifies this`internalFile, this`error
      ensures Valid()
      ensures Acceptable(accepted) ==> internalFile == Some(accepted[0]) && error == ""
      ensures !Acceptable(accepted) ==> internalFile == old(internalFile) && error == InvalidFileMessage
      ensures providerFile == old(providerFile) && uploading == old(uploading)
    {
      if Acceptable(accepted) {
        internalFile := Some(accepted[0]);
        error := "";
      } else {
        error := InvalidFileMessage;
      }
    }

    /** A drop on the provider slot; the internal slot is never touched. */
    method OnDropProvider(accepted: seq<DroppedFile>)
      requires Valid()
      modifies this`providerFile, this`error
      ensures Valid()
      ensures Acceptable(accepted) ==> providerFile == Some(accepted[0]) && error == ""
      ensures !Acceptable(accepted) ==> providerFile == old(providerFile) && error == InvalidFileMessage
      ensures internalFile == old(internalFile) && uploading == old(uploading)
    {
      if Acceptable(accepted) {
        providerFile := Some(accepted[0]);
        error := "";
      } else {
        error := InvalidFileMessage;
      }
    }

    /**
     * First half of `handleUpload`: with a slot empty, only the error is set
     * and no request is made; otherwise the upload is pending, the error is
     * cleared and the request carries both files.
     */
    method StartUpload() returns (request: Option<UploadRequest>)
      requires Valid()
      modifies this`uploading, this`error
      ensures Valid()
      ensures old(internalFile).None? || old(providerFile).None? ==>
                request.None? && error == MissingFilesMessage && uploading == old(uploading)
      ensures old(internalFile).Some? && old(providerFile).Some? ==>
                request == Some(UploadRequest(internalFile.value, providerFile.value)) && uploading && error == ""
      ensures internalFile == old(internalFile) && providerFile == old(providerFile)
    {
      if internalFile.None? || providerFile.None? {
        error := MissingFilesMessage;
        return None;
      }
      uploading := true;
      error := "";
      request := Some(UploadRequest(internalFile.value, providerFile.value));
    }

    /**
     * Second half, once the request settles: on success the result is handed
     * on (`completed`), on failure the error line shows the failure message;
     * either way the upload is no longer pending.
     */
    method CompleteUpload(response: UploadResponse) returns (completed: bool)
      requires Valid() && uploading
      modifies this`uploading, this`error
      ensures Valid()
      ensures !uploading
      ensures completed <==> response.Succeeded?
      ensures response.Succeeded? ==> error == old(error)
      ensures response.Failed? ==> error == FailureMessage(response.errorField)
      ensures internalFile == old(internalFile) && providerFile == old(providerFile)
    {
      completed := response.Succeeded?;
      if response.Failed? {
        error := FailureMessage(response.errorField);
      }
      uploading := false;
    }
  }
}
