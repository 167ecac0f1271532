/** `POST /api/upload/init`: checks the name and size a client declares for a file it is
    about to upload in chunks, and hands out a fresh upload id. Nothing is stored. */
module InitRoute {
  import opened Basics
  import opened Validation

  /** The JSON `fileSize` member: not sent (`undefined`), `null`, or a number. */
  datatype SizeField = Undefined | Null | Number(n: int)

  /** The JSON body of the request. */
  datatype InitRequest = InitRequest(filename: Option<string>, fileSize: SizeField)

  datatype InitResponse =
    | MissingFields                        // 400 "filename and fileSize are required"
    | Rejected(error: ValidationError)     // 400 carrying the validation error unchanged
    | Initialized(uploadId: string, extension: string)

  /** The size `size > MAX_FILE_SIZE` compares: `null` converts to 0. */
  function ComparedSize(f: SizeField): int
  {
    match f
    case Number(n) => n
    case _ => 0
  }

  /** The handler; `uploadId` is the fresh `uuidv4()` it mints. Being a function, it
      changes no state: in particular no staging directory is created. */
  function Init(req: InitRequest, uploadId: string): (r: InitResponse)
    ensures r.MissingFields? <==> Missing(req.filename) || req.fileSize.Undefined?
    ensures r.Rejected? ==>
              && !Missing(req.filename)
              && ValidateContentFile(req.filename.value, ComparedSize(req.fileSize)) == Invalid(r.error)
    ensures r.Initialized? <==>
              && !Missing(req.filename) && !req.fileSize.Undefined?
              && FileExtension(req.filename.value) in ALLOWED_EXTENSIONS
              && ComparedSize(req.fileSize) <= MAX_FILE_SIZE
    ensures r.Initialized? ==>
              && r.uploadId == uploadId
              && r.extension == FileExtension(req.filename.value)
              && r.extension in ALLOWED_EXTENSIONS
  {
    if Missing(req.filename) || req.fileSize.Undefined? then MissingFields
    else
      var filename := req.filename.value;
      ContentFileValidIff(filename, ComparedSize(req.fileSize));
      match ValidateContentFile(filename, ComparedSize(req.fileSize))
      case Invalid(e) => Rejected(e)
      case Valid => Initialized(uploadId, FileExtension(filename))
  }

  /** Only an absent size is refused: an empty file (size 0) with an allowed name is
      initialised, and so is a `null` size, which compares like 0. */
  lemma EmptyFileAccepted(filename: string, uploadId: string)
    requires FileExtension(filename) in ALLOWED_EXTENSIONS
    ensures Init(InitRequest(Some(filename), Number(0)), uploadId)
            == Initialized(uploadId, FileExtension(filename))
    ensures Init(InitRequest(Some(filename), Null), uploadId)
            == Initialized(uploadId, FileExtension(filename))
    ensures Init(InitRequest(Some(filename), Undefined), uploadId) == MissingFields
  {
    assert "" !in ALLOWED_EXTENSIONS;
  }

  /** Field presence is checked before validation: an empty name is "missing", not
      "has no extension", and an oversized file with no size sent is "missing" too. */
  lemma PresenceBeforeValidation(size: SizeField, uploadId: string)
    ensures Init(InitRequest(Some(""), size), uploadId) == MissingFields
    ensures Init(InitRequest(Some("a.zip"), Undefined), uploadId) == MissingFields
  {
  }
}
