/** ImageUploadService: validates an uploaded file, names it, and hands it to the image
    store (Cloudinary); wraps the store's I/O failures in IOExceptions. The store is a
    parameter: what an upload or a destroy request gives back, or how it fails. */
module ImageUploadService {
  import opened Lang

  /** The parts of a multipart upload the service looks at. */
  datatype MultipartFile = MultipartFile(isEmpty: bool, contentType: Option<string>)

  /** What the image store does with one request: a result map, a checked I/O failure,
      or an unchecked failure. */
  datatype StorageOutcome = Done(result: map<string, string>) | IoFailure | RuntimeFailure

  /** `uploader().upload(bytes, {"public_id": publicId, "overwrite": overwrite})`. */
  datatype UploadCall = UploadCall(publicId: string, overwrite: bool)

  datatype Cloudinary = Cloudinary(upload: UploadCall -> StorageOutcome, destroy: string -> StorageOutcome)

  /** A request sent to the image store, in the order the code sends them. */
  datatype StorageCall = UploadRequested(call: UploadCall) | DestroyRequested(publicId: string)

  const EmptyFileMessage := "File is empty or null"
  const NotAnImageMessage := "Invalid file type. Only images are allowed."
  const UploadFailedMessage := "Failed to upload image to Cloudinary."
  const DeleteFailedMessage := "Failed to delete image from Cloudinary."

  /** The public id of a new image: the UUID, inside the folder when one is given. */
  function PublicIdFor(folderName: Option<string>, uuid: string): (publicId: string)
    ensures folderName.Some? ==> StartsWith(publicId, folderName.value + "/")
    ensures folderName.Some? ==> |publicId| == |folderName.value| + 1 + |uuid|
    ensures folderName.None? ==> publicId == uuid
    ensures |publicId| >= |uuid| && publicId[|publicId| - |uuid|..] == uuid
  {
    (if folderName.Some? then folderName.value + "/" else "") + uuid
  }

  /** The checks `upload` makes before it contacts the store, and the request it then
      sends. */
  function UploadRequest(file: Option<MultipartFile>, folderName: Option<string>, uuid: string): (r: Result<UploadCall>)
    ensures file.None? || file.value.isEmpty ==> r == Throws(IllegalArgumentException(EmptyFileMessage))
    ensures (file.Some? && !file.value.isEmpty
             && (file.value.contentType.None? || !StartsWith(file.value.contentType.value, "image/"))) ==>
      r == Throws(IllegalArgumentException(NotAnImageMessage))
    ensures r.Ok? <==> file.Some? && !file.value.isEmpty && file.value.contentType.Some?
                       && StartsWith(file.value.contentType.value, "image/")
    ensures r.Ok? ==> r.value == UploadCall(PublicIdFor(folderName, uuid), true)
  {
    if file.None? || file.value.isEmpty then Throws(IllegalArgumentException(EmptyFileMessage))
    else if file.value.contentType.None? || !StartsWith(file.value.contentType.value, "image/") then
      Throws(IllegalArgumentException(NotAnImageMessage))
    else Ok(UploadCall(PublicIdFor(folderName, uuid), true))
  }

  /** The requests `upload` sends to the store: none unless the file is present,
      non-empty and of an image type; then exactly one upload under the UUID's public
      id in the folder, with `overwrite` set. */
  function UploadCalls(file: Option<MultipartFile>, folderName: Option<string>, uuid: string): (calls: seq<StorageCall>)
    ensures calls != [] <==> file.Some? && !file.value.isEmpty && file.value.contentType.Some?
                             && StartsWith(file.value.contentType.value, "image/")
    ensures calls != [] ==> calls == [UploadRequested(UploadCall(PublicIdFor(folderName, uuid), true))]
  {
    match UploadRequest(file, folderName, uuid)
    case Throws(_) => []
    case Ok(call) => [UploadRequested(call)]
  }

  /** `upload(file, folderName)` with the UUID drawn: the store's result map unchanged;
      an I/O failure becomes an IOException; an unchecked failure passes through. */
  function Upload(file: Option<MultipartFile>, folderName: Option<string>, uuid: string, cloudinary: Cloudinary)
    : (r: Result<map<string, string>>)
    ensures UploadRequest(file, folderName, uuid).Throws? ==> r == Throws(UploadRequest(file, folderName, uuid).exception)
    ensures UploadRequest(file, folderName, uuid).Ok? ==>
      match cloudinary.upload(UploadRequest(file, folderName, uuid).value)
      case Done(m) => r == Ok(m)
      case IoFailure => r == Throws(IOException(UploadFailedMessage))
      case RuntimeFailure => r == Throws(StorageRuntimeException)
  {
    var call :- UploadRequest(file, folderName, uuid);
    match cloudinary.upload(call)
    case Done(m) => Ok(m)
    case IoFailure => Throws(IOException(UploadFailedMessage))
    case RuntimeFailure => Throws(StorageRuntimeException)
  }

  /** `delete(publicId)`: the store's result map; an I/O failure becomes an IOException;
      an unchecked failure passes through. */
  function Delete(publicId: string, cloudinary: Cloudinary): (r: Result<map<string, string>>)
    ensures r.Ok? <==> cloudinary.destroy(publicId).Done?
    ensures r.Ok? ==> r.value == cloudinary.destroy(publicId).result
    ensures cloudinary.destroy(publicId).IoFailure? ==> r == Throws(IOException(DeleteFailedMessage))
    ensures cloudinary.destroy(publicId).RuntimeFailure? ==> r == Throws(StorageRuntimeException)
  {
    match cloudinary.destroy(publicId)
    case Done(m) => Ok(m)
    case IoFailure => Throws(IOException(DeleteFailedMessage))
    case RuntimeFailure => Throws(StorageRuntimeException)
  }

  /** A file refused by the checks never reaches the store: the outcome is the same
      whatever the store would have done. */
  lemma RejectedFileNeverUploaded(file: Option<MultipartFile>, folderName: Option<string>, uuid: string,
                                  one: Cloudinary, other: Cloudinary)
    requires UploadRequest(file, folderName, uuid).Throws?
    ensures Upload(file, folderName, uuid, one) == Upload(file, folderName, uuid, other)
    ensures Upload(file, folderName, uuid, one).exception.IllegalArgumentException?
  {
  }

  /** `delete` makes no checks of its own: its outcome is decided by the store's answer
      to that public id alone (the upload side of the store, and whether the id is
      empty, play no part), and it never throws the IllegalArgumentException of the
      upload checks. */
  lemma DeleteDependsOnlyOnDestroy(publicId: string, cloudinary: Cloudinary, other: Cloudinary)
    requires other.destroy(publicId) == cloudinary.destroy(publicId)
    ensures Delete(publicId, cloudinary) == Delete(publicId, other)
    ensures Delete(publicId, cloudinary).Throws? ==>
      Delete(publicId, cloudinary).exception in {IOException(DeleteFailedMessage), StorageRuntimeException}
  {
  }

  /** Distinct UUIDs give distinct public ids in the same folder, so `overwrite` only
      replaces an image when a UUID repeats. */
  lemma PublicIdsDistinct(folderName: Option<string>, a: string, b: string)
    requires a != b
    ensures PublicIdFor(folderName, a) != PublicIdFor(folderName, b)
  {
    var prefix := if folderName.Some? then folderName.value + "/" else "";
    assert PublicIdFor(folderName, a)[|prefix|..] == a;
    assert PublicIdFor(folderName, b)[|prefix|..] == b;
  }
}
