/** `POST /api/upload/complete`: assembles the staged chunks into the content file, saves
    the thumbnail and records the item in the catalog, in that order. */
module CompleteRoute {
  import opened Basics
  import Text
  import Decimal
  import opened Validation
  import opened Storage
  import opened Catalog

  /** The multipart fields; a field that was not sent is `None`, a sent file field holds
      the bytes of its blob. */
  datatype CompleteRequest = CompleteRequest(
    uploadId: Option<string>,
    totalChunks: Option<string>,
    filename: Option<string>,
    title: Option<string>,
    description: Option<string>,
    category: Option<string>,
    fileSize: Option<string>,
    thumbnail: Option<seq<byte>>,
    thumbnailName: Option<string>,
    supportedVersions: Option<string>,
    minecraftType: Option<string>)

  datatype CompleteResponse =
    | CompleteBadRequest     // 400 "... are required"
    | CompleteFailed         // 500 "Failed to complete upload": something threw
    | Completed(id: string, title: string, filePath: string, thumbnailPath: string)

  /** `(field as string) || fallback`. */
  function OrElse(field: Option<string>, fallback: string): (r: string)
    ensures Missing(field) ==> r == fallback
    ensures !Missing(field) ==> r == field.value
  {
    if Missing(field) then fallback else field.value
  }

  /** How the required-field check ends. */
  datatype Gate = Pass | Refuse | Throw

  /** The required-field check, evaluated left to right: an absent `title` is reached
      only when the first three fields are present, and `title.trim()` then throws. */
  function CheckFields(req: CompleteRequest): (g: Gate)
    ensures g == Throw <==>
              !Missing(req.uploadId) && Decimal.ParseIntField(req.totalChunks).Some?
              && !Missing(req.filename) && req.title.None?
    ensures g == Pass <==>
              && !Missing(req.uploadId)
              && Decimal.ParseIntField(req.totalChunks).Some?
              && !Missing(req.filename)
              && req.title.Some? && !Text.IsBlank(req.title.value)
              && !Text.IsBlank(OrElse(req.description, ""))
              && req.thumbnail.Some? && |req.thumbnail.value| != 0
  {
    if Missing(req.uploadId) || Decimal.ParseIntField(req.totalChunks).None? || Missing(req.filename) then Refuse
    else if req.title.None? then Throw
    else if Text.IsBlank(req.title.value) || Text.IsBlank(OrElse(req.description, "")) then Refuse
    else if req.thumbnail.None? || |req.thumbnail.value| == 0 then Refuse
    else Pass
  }

  /** Once the id, count, name and a non-blank title are present, the request passes
      exactly when the description is not blank and the thumbnail is not empty. */
  lemma CheckFieldsAfterTitle(req: CompleteRequest)
    requires !Missing(req.uploadId) && Decimal.ParseIntField(req.totalChunks).Some? && !Missing(req.filename)
    requires req.title.Some? && !Text.IsBlank(req.title.value)
    ensures CheckFields(req) == Pass <==>
              !Text.IsBlank(OrElse(req.description, "")) && req.thumbnail.Some? && |req.thumbnail.value| != 0
    ensures CheckFields(req) != Pass ==> CheckFields(req) == Refuse
  {
  }

  /** The stored name of the content file: the new id plus the original extension. */
  function ContentFileName(contentId: string, filename: string): (name: string)
    ensures contentId <= name
  {
    contentId + FileExtension(filename)
  }

  /** The stored name of the thumbnail: the new id plus the extension of the sent
      thumbnail name, of "thumb.png" when none was sent. */
  function ThumbnailFileName(contentId: string, thumbnailName: Option<string>): (name: string)
    ensures contentId <= name
  {
    contentId + FileExtension(OrElse(thumbnailName, "thumb.png"))
  }

  /** The values `insertContent` binds: the raw title and description (the trims are only
      the check), "mod" for an absent or empty category, the declared size. */
  function Submitted(req: CompleteRequest, contentId: string, filePath: string, thumbnailPath: string): (c: NewContent)
    requires req.title.Some? && req.filename.Some?
    ensures c.id == contentId && c.filePath == filePath && c.thumbnailPath == thumbnailPath
    ensures c.title == req.title.value
    ensures c.description == if Missing(req.description) then "" else req.description.value
    ensures c.fileSize == Decimal.ParseIntField(req.fileSize)
    ensures c.category == if Missing(req.category) then "mod" else req.category.value
    ensures c.extension == FileExtension(req.filename.value)
  {
    NewContent(contentId, req.title.value, OrElse(req.description, ""), OrElse(req.category, "mod"),
               filePath, thumbnailPath, Decimal.ParseIntField(req.fileSize), FileExtension(req.filename.value))
  }

  /** The handler. `contentId` is the fresh `uuidv4()` it mints and `now` the insertion
      time. Failed checks change nothing. Otherwise the effects run in order and a
      throwing step stops the rest, keeping what earlier steps did: a gap in the chunks
      leaves the partial content file and no thumbnail or row; a size that is not a
      number, or a taken id, fails the insert after both files are written. */
  method Complete(store: FileStore, db: Database, req: CompleteRequest, contentId: string, now: int)
    returns (r: CompleteResponse)
    requires db.Valid()
    modifies store, db
    ensures db.Valid()
    ensures db.settings == old(db.settings)
    ensures CheckFields(req) == Refuse ==>
              r == CompleteBadRequest && unchanged(store) && db.contents == old(db.contents)
    ensures CheckFields(req) == Throw ==>
              r == CompleteFailed && unchanged(store) && db.contents == old(db.contents)
    ensures CheckFields(req) == Pass ==>
              var uploadId := req.uploadId.value;
              var total := Decimal.ParseIntField(req.totalChunks).value;
              var dir := StagedDir(old(store.staging), uploadId);
              var filePath := CONTENTS_URL + ContentFileName(contentId, req.filename.value);
              var thumbPath := THUMBNAILS_URL + ThumbnailFileName(contentId, req.thumbnailName);
              var row := Submitted(req, contentId, filePath, thumbPath);
              match FirstMissing(dir, total)
              case Some(i) =>
                && r == CompleteFailed
                && store.staging == old(store.staging)[uploadId := dir]
                && store.published == old(store.published)[filePath := Assembled(dir, total)]
                && db.contents == old(db.contents)
              case None =>
                && store.staging == old(store.staging) - {uploadId}
                && store.published == old(store.published)[filePath := Assembled(dir, total)]
                                                           [thumbPath := req.thumbnail.value]
                && if row.fileSize.None? || HasId(old(db.contents), contentId) then
                     r == CompleteFailed && db.contents == old(db.contents)
                   else
                     && r == Completed(contentId, req.title.value, filePath, thumbPath)
                     && db.contents == old(db.contents) + [NewRow(row, now)]
  {
    var gate := CheckFields(req);
    if gate == Refuse {
      return CompleteBadRequest;
    }
    if gate == Throw {
      return CompleteFailed;
    }
    var uploadId := req.uploadId.value;
    var totalChunks := Decimal.ParseIntField(req.totalChunks).value;
    ghost var dir := StagedDir(store.staging, uploadId);
    var safeFilename := ContentFileName(contentId, req.filename.value);

    var assembled := store.AssembleChunks(uploadId, totalChunks, safeFilename);
    assert store.published == old(store.published)[CONTENTS_URL + safeFilename := Assembled(dir, totalChunks)];
    if assembled.Err? {
      return CompleteFailed;
    }
    assert FirstMissing(dir, totalChunks) == None;
    var filePath := assembled.value;
    ghost var afterAssembly := store.published;

    var thumbnailPath := "";
    if req.thumbnail.Some? && |req.thumbnail.value| > 0 {
      var thumbFilename := ThumbnailFileName(contentId, req.thumbnailName);
      thumbnailPath := store.SaveThumbnail(req.thumbnail.value, thumbFilename);
    }
    assert store.published == afterAssembly[thumbnailPath := req.thumbnail.value];

    var row := Submitted(req, contentId, filePath, thumbnailPath);
    var inserted := db.InsertContent(row, now);
    if inserted.Some? {
      return CompleteFailed;
    }
    r := Completed(contentId, req.title.value, filePath, thumbnailPath);
  }

  /** Fields the uploader may leave empty are still required here: an absent or blank
      description, and an absent or empty thumbnail, are refused. */
  lemma DescriptionAndThumbnailRequired(req: CompleteRequest)
    ensures req.description.None? || req.description == Some("") ==> CheckFields(req) != Pass
    ensures req.thumbnail.None? || req.thumbnail == Some([]) ==> CheckFields(req) != Pass
  {
  }

  /** An absent title is a server error (500), while a blank one is a bad request (400). */
  lemma AbsentTitleThrows(req: CompleteRequest)
    requires !Missing(req.uploadId) && Decimal.ParseIntField(req.totalChunks).Some? && !Missing(req.filename)
    ensures req.title.None? ==> CheckFields(req) == Throw
    ensures req.title == Some("  ") ==> CheckFields(req) == Refuse
  {
    if req.title == Some("  ") {
      assert Text.TrimStart("  ") == "";
    }
  }

  /** With no thumbnail name the thumbnail is stored as a .png; a sent name is not
      validated, so a name without a dot stores the thumbnail under the bare id. */
  lemma ThumbnailNaming(contentId: string)
    ensures ThumbnailFileName(contentId, None) == contentId + ".png"
    ensures ThumbnailFileName(contentId, Some("")) == contentId + ".png"
    ensures ThumbnailFileName(contentId, Some("cover")) == contentId
  {
    var name := "thumb.png";
    assert name[5] == '.';
    assert forall j :: 5 < j < |name| ==> name[j] != '.';
    LastIndexOfShape(name, '.');
    assert LastIndexOf(name, '.') == 5;
    assert name[5..] == ".png";
    assert Text.Lower(".png") == ".png";
    assert '.' !in "cover";
  }

  /** The content file keeps the extension of the original name, lower-cased, and has
      none when the original had no dot; the name itself is not validated here. */
  lemma ContentNaming(contentId: string, filename: string)
    ensures '.' !in filename ==> ContentFileName(contentId, filename) == contentId
    ensures FileExtension(filename) in ALLOWED_EXTENSIONS ==>
              ContentFileName(contentId, filename)[|contentId|..] in ALLOWED_EXTENSIONS
  {
    var name := ContentFileName(contentId, filename);
    assert name[|contentId|..] == FileExtension(filename);
  }
}
