/** The admin upload form: the file it splits into chunks, the title it derives from the
    file name, and the three-phase protocol it drives (init, one request per chunk, complete). */
module Uploader {
  import opened Basics
  import Text
  import Decimal
  import opened Validation
  import Storage
  import Catalog
  import InitRoute
  import ChunkRoute
  import CompleteRoute

  // ---------------------------------------------------------------------------
  // Title from a file name
  // ---------------------------------------------------------------------------

  /** `name.replace(/\.[^.]+$/, "")`: drops the last dot and the run of non-dots after it.
      A name with no dot, or ending in a dot, has nothing to drop. */
  function StripExtension(name: string): (stem: string)
    ensures stem <= name
  {
    var k := LastIndexOf(name, '.');
    if k == -1 || k == |name| - 1 then name else name[..k]
  }

  function SpaceForSeparator(c: char): char
  {
    if c == '-' || c == '_' then ' ' else c
  }

  /** `s.replace(/[-_]/g, " ")`. */
  function SeparatorsToSpaces(s: string): (r: string)
    ensures |r| == |s|
  {
    seq(|s|, i requires 0 <= i < |s| => SpaceForSeparator(s[i]))
  }

  /** Every '-' and '_' becomes a space and every other character stays. */
  lemma SeparatorsToSpacesShape(s: string)
    ensures '-' !in SeparatorsToSpaces(s) && '_' !in SeparatorsToSpaces(s)
    ensures forall i :: 0 <= i < |s| && s[i] != '-' && s[i] != '_' ==> SeparatorsToSpaces(s)[i] == s[i]
  {
  }

  /** The title proposed for a newly selected file when the title is empty. */
  function TitleFromFileName(name: string): string
  {
    SeparatorsToSpaces(StripExtension(name))
  }

  /** The stem and the extension split the name: for an accepted content file, what the
      title drops is exactly the text `getFileExtension` lower-cases. */
  lemma StemAndExtension(name: string)
    requires FileExtension(name) in ALLOWED_EXTENSIONS
    ensures |StripExtension(name)| + |FileExtension(name)| == |name|
    ensures Text.Lower(name[|StripExtension(name)|..]) == FileExtension(name)
  {
    var k := LastIndexOf(name, '.');
    assert |FileExtension(name)| >= 2;
    assert k == |name| - |FileExtension(name)|;
  }

  /** "my-cool_pack.mcpack" is proposed as "my cool pack". */
  lemma TitleExample()
    ensures TitleFromFileName("my-cool_pack.mcpack") == "my cool pack"
  {
    var name := "my-cool_pack.mcpack";
    assert name[12] == '.';
    assert forall j :: 12 < j < |name| ==> name[j] != '.';
    LastIndexOfShape(name, '.');
    assert LastIndexOf(name, '.') == 12;
    assert StripExtension(name) == "my-cool_pack";
  }

  // ---------------------------------------------------------------------------
  // Splitting a file into chunks
  // ---------------------------------------------------------------------------

  /** `Math.ceil(size / CHUNK_SIZE)`. */
  function ChunkCount(size: nat): nat
  {
    (size + CHUNK_SIZE - 1) / CHUNK_SIZE
  }

  /** The count is the least number of whole chunks that covers the file; 0 for an empty file. */
  lemma ChunkCountIsCeiling(size: nat)
    ensures ChunkCount(size) * CHUNK_SIZE >= size
    ensures ChunkCount(size) > 0 ==> (ChunkCount(size) - 1) * CHUNK_SIZE < size
    ensures ChunkCount(0) == 0
    ensures ChunkCount(size) <= size
  {
  }

  function Min(a: int, b: int): int
  {
    if a < b then a else b
  }

  /** `file.slice(i * CHUNK_SIZE, min(i * CHUNK_SIZE + CHUNK_SIZE, size))`. */
  function ChunkAt(data: seq<byte>, i: nat): (chunk: seq<byte>)
    requires i < ChunkCount(|data|)
    ensures 0 < |chunk| <= CHUNK_SIZE
  {
    ChunkCountIsCeiling(|data|);
    var start := i * CHUNK_SIZE;
    data[start..Min(start + CHUNK_SIZE, |data|)]
  }

  /** All the chunks, in index order. */
  function Split(data: seq<byte>): (chunks: seq<seq<byte>>)
    ensures |chunks| == ChunkCount(|data|)
  {
    seq(ChunkCount(|data|), i requires 0 <= i < ChunkCount(|data|) => ChunkAt(data, i))
  }

  /** The first k chunks laid end to end are the first k * CHUNK_SIZE bytes of the file. */
  lemma {:induction false} SplitPrefix(data: seq<byte>, k: nat)
    requires k <= ChunkCount(|data|)
    ensures Storage.Flatten(Split(data)[..k]) == data[..Min(k * CHUNK_SIZE, |data|)]
  {
    if k > 0 {
      var chunks := Split(data);
      var start := (k - 1) * CHUNK_SIZE;
      var end := Min(k * CHUNK_SIZE, |data|);
      assert start < |data| by {
        ChunkCountIsCeiling(|data|);
      }
      assert Min(start, |data|) == start;
      SplitPrefix(data, k - 1);
      assert Storage.Flatten(chunks[..k]) == Storage.Flatten(chunks[..k - 1]) + chunks[k - 1] by {
        assert chunks[..k][..k - 1] == chunks[..k - 1];
      }
      assert chunks[k - 1] == data[start..end];
      assert data[..end] == data[..start] + data[start..end];
    }
  }

  /** The chunks are contiguous and cover the file: laid end to end they are the file. */
  lemma SplitRoundTrip(data: seq<byte>)
    ensures Storage.Flatten(Split(data)) == data
  {
    ChunkCountIsCeiling(|data|);
    SplitPrefix(data, ChunkCount(|data|));
    assert Split(data)[..ChunkCount(|data|)] == Split(data);
  }

  /** Every chunk but the last is exactly CHUNK_SIZE bytes; the last is 1 to CHUNK_SIZE bytes. */
  lemma ChunkSizes(data: seq<byte>, i: nat)
    requires i < ChunkCount(|data|)
    ensures i < ChunkCount(|data|) - 1 ==> |Split(data)[i]| == CHUNK_SIZE
    ensures 0 < |Split(data)[i]| <= CHUNK_SIZE
  {
    ChunkCountIsCeiling(|data|);
    if i < ChunkCount(|data|) - 1 {
      assert (i + 1) * CHUNK_SIZE <= (ChunkCount(|data|) - 1) * CHUNK_SIZE;
    }
  }

  // ---------------------------------------------------------------------------
  // The form and its upload handler
  // ---------------------------------------------------------------------------

  /** A file picked in the browser. */
  datatype LocalFile = LocalFile(name: string, data: seq<byte>)

  /** `uploadStatus`. */
  datatype Status = Idle | Uploading | Success | Failure

  /** What the error banner reports. */
  datatype UploaderError =
    | Rejected(reason: ValidationError)
    | FileAndTitleRequired                 // "File dan judul wajib diisi."
    | ChunkFailed(index: nat, total: nat)  // "Failed to upload chunk {index + 1}/{total}"
    | CompleteFailed                       // the complete route's error

  /** The smallest index in [i, n) whose chunk request fails, if any. */
  function FirstFailure(failing: set<int>, i: nat, n: nat): (r: Option<nat>)
    decreases n - i
    ensures r.None? <==> forall j :: i <= j < n ==> j !in failing
    ensures r.Some? ==> i <= r.value < n && r.value in failing
                        && forall j :: i <= j < r.value ==> j !in failing
  {
    if n <= i then None
    else if i in failing then Some(i)
    else FirstFailure(failing, i + 1, n)
  }

  /** A failing index with no failing index before it is the first failure. */
  lemma FirstFailureIs(failing: set<int>, i: nat, n: nat)
    requires i < n && i in failing
    requires forall j :: 0 <= j < i ==> j !in failing
    ensures FirstFailure(failing, 0, n) == Some(i)
  {
    var r := FirstFailure(failing, 0, n);
    assert r.Some?;
    assert r.value <= i;
  }

  /** The init body: the file's name and size. */
  function InitRequestFor(f: LocalFile): InitRoute.InitRequest
  {
    InitRoute.InitRequest(Some(f.name), InitRoute.Number(|f.data|))
  }

  /** The form data of chunk `i`. */
  function ChunkRequestFor(uploadId: string, data: seq<byte>, i: nat): ChunkRoute.ChunkRequest
    requires i < ChunkCount(|data|)
  {
    ChunkRoute.ChunkRequest(Some(uploadId), Some(Decimal.IntToString(i)), Some(ChunkAt(data, i)))
  }

  /** The completing form data: trimmed text fields, the chunk count and size as decimal
      text, and the thumbnail and its name only when one was picked. */
  function CompleteRequestFor(uploadId: string, f: LocalFile, title: string, description: string,
                              category: string, thumbnail: Option<LocalFile>,
                              supportedVersions: string, minecraftType: string): CompleteRoute.CompleteRequest
  {
    CompleteRoute.CompleteRequest(
      Some(uploadId), Some(Decimal.IntToString(ChunkCount(|f.data|))), Some(f.name),
      Some(Text.Trim(title)), Some(Text.Trim(description)), Some(category),
      Some(Decimal.IntToString(|f.data|)),
      if thumbnail.Some? then Some(thumbnail.value.data) else None,
      if thumbnail.Some? then Some(thumbnail.value.name) else None,
      Some(Text.Trim(supportedVersions)), Some(Text.Trim(minecraftType)))
  }

  /** The server accepts the completing request exactly when the form has a non-blank
      description and a non-empty thumbnail (the file and title were checked before). */
  lemma CompleteRequestAccepted(uploadId: string, f: LocalFile, title: string, description: string,
                                category: string, thumbnail: Option<LocalFile>, sv: string, mt: string)
    requires uploadId != "" && f.name != "" && !Text.IsBlank(title)
    requires |f.data| <= MAX_FILE_SIZE
    ensures var req := CompleteRequestFor(uploadId, f, title, description, category, thumbnail, sv, mt);
            && (CompleteRoute.CheckFields(req) == CompleteRoute.Pass <==>
                  !Text.IsBlank(description) && thumbnail.Some? && |thumbnail.value.data| != 0)
            && (CompleteRoute.CheckFields(req) != CompleteRoute.Pass ==> CompleteRoute.CheckFields(req) == CompleteRoute.Refuse)
            && req.uploadId == Some(uploadId) && req.filename == Some(f.name)
            && Decimal.ParseIntField(req.totalChunks) == Some(ChunkCount(|f.data|))
            && Decimal.ParseIntField(req.fileSize) == Some(|f.data|)
  {
    var req := CompleteRequestFor(uploadId, f, title, description, category, thumbnail, sv, mt);
    ChunkCountIsCeiling(|f.data|);
    Decimal.ParseIntFieldRoundTrip(ChunkCount(|f.data|));
    Decimal.ParseIntFieldRoundTrip(|f.data|);
    Text.TrimmedBlank(title);
    Text.TrimmedBlank(description);
    assert Text.IsBlank("");
    CompleteRoute.CheckFieldsAfterTitle(req);
  }

  /** The row the completing request of the form records: the trimmed title and
      description, the category or "mod" when none was chosen, the file's own size and
      extension, and the two stored paths. */
  lemma SubmittedFromForm(uploadId: string, contentId: string, f: LocalFile, title: string, description: string,
                          category: string, thumbnail: Option<LocalFile>, sv: string, mt: string,
                          filePath: string, thumbPath: string)
    requires |f.data| <= MAX_FILE_SIZE
    ensures CompleteRoute.Submitted(CompleteRequestFor(uploadId, f, title, description, category, thumbnail, sv, mt),
                                    contentId, filePath, thumbPath)
            == Catalog.NewContent(contentId, Text.Trim(title), Text.Trim(description),
                                  if category == "" then "mod" else category,
                                  filePath, thumbPath, Some(|f.data|), FileExtension(f.name))
  {
    Decimal.ParseIntFieldRoundTrip(|f.data|);
  }

  /** A file that passed selection is always initialised by the server. */
  lemma SelectedFileInitialises(f: LocalFile, uploadId: string)
    requires ValidateContentFile(f.name, |f.data|).Valid?
    ensures InitRoute.Init(InitRequestFor(f), uploadId).Initialized?
  {
    ContentFileValidIff(f.name, |f.data|);
    assert "" !in ALLOWED_EXTENSIONS;
  }

  /** The staging map once chunks 0..k-1 of `data` were sent for `uploadId`. */
  function StagedAfter(staging: map<string, Storage.Dir>, uploadId: string, data: seq<byte>, k: nat): map<string, Storage.Dir>
    requires k <= ChunkCount(|data|)
  {
    if k == 0 then staging
    else staging[uploadId := Storage.StageAll(Storage.StagedDir(staging, uploadId), Split(data), k)]
  }

  /** The request for chunk i passes the route's checks and names index i. */
  lemma ChunkRequestAccepted(uploadId: string, data: seq<byte>, i: nat)
    requires uploadId != "" && i < ChunkCount(|data|) && |data| <= MAX_FILE_SIZE
    ensures var req := ChunkRequestFor(uploadId, data, i);
            && ChunkRoute.WellFormed(req)
            && req.uploadId == Some(uploadId)
            && Decimal.ParseIntField(req.chunkIndex) == Some(i)
            && req.chunk == Some(ChunkAt(data, i))
  {
    ChunkCountIsCeiling(|data|);
    Decimal.ParseIntFieldRoundTrip(i);
  }

  /** Sending chunk i after chunks 0..i-1 leaves chunks 0..i staged. */
  lemma ChunkStep(staging: map<string, Storage.Dir>, uploadId: string, data: seq<byte>, i: nat)
    requires i < ChunkCount(|data|)
    ensures Storage.WithChunk(StagedAfter(staging, uploadId, data, i), uploadId, i, ChunkAt(data, i))
            == StagedAfter(staging, uploadId, data, i + 1)
  {
    var dir0 := Storage.StagedDir(staging, uploadId);
    var before := StagedAfter(staging, uploadId, data, i);
    assert Storage.StagedDir(before, uploadId) == Storage.StageAll(dir0, Split(data), i);
    assert Split(data)[i] == ChunkAt(data, i);
  }

  /** The protocol's round trip: once every chunk of a file was sent, assembling that
      many chunks finds no gap and rebuilds the file byte for byte, whatever the staging
      directory held before. */
  lemma UploadRoundTrip(staging: map<string, Storage.Dir>, uploadId: string, data: seq<byte>)
    ensures var dir := Storage.StagedDir(StagedAfter(staging, uploadId, data, ChunkCount(|data|)), uploadId);
            && Storage.FirstMissing(dir, ChunkCount(|data|)) == None
            && Storage.Assembled(dir, ChunkCount(|data|)) == data
  {
    var n := ChunkCount(|data|);
    var chunks := Split(data);
    var dir0 := Storage.StagedDir(staging, uploadId);
    SplitRoundTrip(data);
    if n > 0 {
      assert Storage.StagedDir(StagedAfter(staging, uploadId, data, n), uploadId) == Storage.StageAll(dir0, chunks, n);
      Storage.AssembleStaged(dir0, chunks, n);
      assert chunks[..n] == chunks;
    }
  }

  /** The chunk loop of `handleUpload`: chunk requests in index order until one fails.
      Returns the index of the failed request, if any. */
  method SendChunks(store: Storage.FileStore, uploadId: string, data: seq<byte>, failing: set<int>)
    returns (failedAt: Option<nat>)
    requires uploadId != "" && |data| <= MAX_FILE_SIZE
    modifies store
    ensures failedAt == FirstFailure(failing, 0, ChunkCount(|data|))
    ensures store.staging == StagedAfter(old(store.staging), uploadId, data,
                                         if failedAt.Some? then failedAt.value else ChunkCount(|data|))
    ensures store.published == old(store.published)
  {
    var n := ChunkCount(|data|);
    var i := 0;
    while i < n
      invariant 0 <= i <= n
      invariant forall j :: 0 <= j < i ==> j !in failing
      invariant store.staging == StagedAfter(old(store.staging), uploadId, data, i)
      invariant store.published == old(store.published)
    {
      var request := ChunkRequestFor(uploadId, data, i);
      ChunkRequestAccepted(uploadId, data, i);
      ghost var before := store.staging;
      var response := ChunkRoute.Chunk(store, request, i in failing);
      if !response.ChunkSaved? {
        FirstFailureIs(failing, i, n);
        return Some(i);
      }
      assert store.staging == Storage.WithChunk(before, uploadId, i, ChunkAt(data, i));
      ChunkStep(old(store.staging), uploadId, data, i);
      i := i + 1;
    }
    failedAt := None;
  }

  /** The completing request of `handleUpload`, sent once the chunks staged under the
      request's upload id assemble into `data` with no gap. */
  method SendComplete(store: Storage.FileStore, db: Catalog.Database, req: CompleteRoute.CompleteRequest,
                      contentId: string, now: int, ghost data: seq<byte>)
    returns (completed: bool)
    requires db.Valid()
    requires CompleteRoute.CheckFields(req) != CompleteRoute.Throw
    requires CompleteRoute.CheckFields(req) == CompleteRoute.Pass ==>
               var dir := Storage.StagedDir(store.staging, req.uploadId.value);
               var total := Decimal.ParseIntField(req.totalChunks).value;
               && Storage.FirstMissing(dir, total) == None
               && Storage.Assembled(dir, total) == data
               && Decimal.ParseIntField(req.fileSize).Some?
    modifies store, db
    ensures db.Valid() && db.settings == old(db.settings)
    ensures CompleteRoute.CheckFields(req) == CompleteRoute.Refuse ==>
              !completed && unchanged(store) && db.contents == old(db.contents)
    ensures CompleteRoute.CheckFields(req) == CompleteRoute.Pass ==>
              var filePath := Storage.CONTENTS_URL + CompleteRoute.ContentFileName(contentId, req.filename.value);
              var thumbPath := Storage.THUMBNAILS_URL + CompleteRoute.ThumbnailFileName(contentId, req.thumbnailName);
              && store.staging == old(store.staging) - {req.uploadId.value}
              && store.published == old(store.published)[filePath := data][thumbPath := req.thumbnail.value]
              && filePath in store.published && store.published[filePath] == data
              && (completed <==> !Catalog.HasId(old(db.contents), contentId))
              && (completed ==> db.contents == old(db.contents)
                                 + [Catalog.NewRow(CompleteRoute.Submitted(req, contentId, filePath, thumbPath), now)])
              && (!completed ==> db.contents == old(db.contents))
  {
    if CompleteRoute.CheckFields(req) == CompleteRoute.Pass {
      Storage.PublicDirsDisjoint(CompleteRoute.ContentFileName(contentId, req.filename.value),
                                 CompleteRoute.ThumbnailFileName(contentId, req.thumbnailName));
    }
    var response := CompleteRoute.Complete(store, db, req, contentId, now);
    completed := response.Completed?;
  }

  /** Removing an upload's staging directory leaves the other uploads' directories as
      they were before its chunks were sent. */
  lemma StagedAfterElsewhere(staging: map<string, Storage.Dir>, uploadId: string, data: seq<byte>, k: nat)
    requires k <= ChunkCount(|data|)
    ensures StagedAfter(staging, uploadId, data, k) - {uploadId} == staging - {uploadId}
  {
  }

  /** The completing phase of `handleUpload`, once every chunk of the form's file was
      staged on top of `staging0`: the request built from the form is refused when the
      description is blank or there is no non-empty thumbnail; otherwise the file and the
      thumbnail are published, the staging directory is removed, and the row recording the
      form is appended unless the content id is already taken. */
  method SendForm(store: Storage.FileStore, db: Catalog.Database, uploadId: string, contentId: string,
                  f: LocalFile, title: string, description: string, category: string,
                  thumbnail: Option<LocalFile>, sv: string, mt: string, now: int,
                  ghost staging0: map<string, Storage.Dir>)
    returns (completed: bool)
    requires uploadId != "" && f.name != "" && !Text.IsBlank(title) && |f.data| <= MAX_FILE_SIZE
    requires store.staging == StagedAfter(staging0, uploadId, f.data, ChunkCount(|f.data|))
    requires db.Valid()
    modifies store, db
    ensures db.Valid() && db.settings == old(db.settings)
    ensures Text.IsBlank(description) || thumbnail.None? || |thumbnail.value.data| == 0 ==>
              !completed && unchanged(store) && db.contents == old(db.contents)
    ensures !Text.IsBlank(description) && thumbnail.Some? && |thumbnail.value.data| != 0 ==>
              var t := thumbnail.value;
              var filePath := Storage.CONTENTS_URL + CompleteRoute.ContentFileName(contentId, f.name);
              var thumbPath := Storage.THUMBNAILS_URL + CompleteRoute.ThumbnailFileName(contentId, Some(t.name));
              var row := Catalog.NewContent(contentId, Text.Trim(title), Text.Trim(description),
                                            if category == "" then "mod" else category,
                                            filePath, thumbPath, Some(|f.data|), FileExtension(f.name));
              && store.staging == staging0 - {uploadId}
              && store.published == old(store.published)[filePath := f.data][thumbPath := t.data]
              && filePath in store.published && store.published[filePath] == f.data
              && (completed <==> !Catalog.HasId(old(db.contents), contentId))
              && (completed ==> db.contents == old(db.contents) + [Catalog.NewRow(row, now)])
              && (!completed ==> db.contents == old(db.contents))
  {
    var req := CompleteRequestFor(uploadId, f, title, description, category, thumbnail, sv, mt);
    CompleteRequestAccepted(uploadId, f, title, description, category, thumbnail, sv, mt);
    UploadRoundTrip(staging0, uploadId, f.data);
    Text.TrimmedBlank(description);
    ghost var filePath := Storage.CONTENTS_URL + CompleteRoute.ContentFileName(contentId, f.name);
    ghost var thumbPath := Storage.THUMBNAILS_URL + CompleteRoute.ThumbnailFileName(contentId, req.thumbnailName);
    SubmittedFromForm(uploadId, contentId, f, title, description, category, thumbnail, sv, mt, filePath, thumbPath);
    StagedAfterElsewhere(staging0, uploadId, f.data, ChunkCount(|f.data|));
    completed := SendComplete(store, db, req, contentId, now, f.data);
  }

  /** The upload form of the admin page. */
  class FileUploader {
    var file: Option<LocalFile>
    var thumbnail: Option<LocalFile>
    var title: string
    var description: string
    var category: string
    var supportedVersions: string
    var minecraftType: string
    var status: Status
    var error: Option<UploaderError>

    /** Only files that pass validation are ever held. */
    ghost predicate Valid()
      reads this
    {
      && (file.Some? ==> ValidateContentFile(file.value.name, |file.value.data|).Valid?)
      && (thumbnail.Some? ==> ValidateThumbnail(thumbnail.value.name).Valid?)
    }

    constructor ()
      ensures Valid()
      ensures file == None && thumbnail == None
      ensures title == "" && description == "" && category == "mod"
      ensures supportedVersions == "" && minecraftType == ""
      ensures status == Idle && error == None
    {
      file := None;
      thumbnail := None;
      title := "";
      description := "";
      category := "mod";
      supportedVersions := "";
      minecraftType := "";
      status := Idle;
      error := None;
    }

    /** `selectFile`: a file failing validation is not taken and its error is shown;
        otherwise it is taken, and an empty title is replaced by one derived from its name. */
    method SelectFile(f: LocalFile)
      requires Valid()
      modifies this
      ensures Valid()
      ensures ValidateContentFile(f.name, |f.data|).Invalid? ==>
                && error == Some(Rejected(ValidateContentFile(f.name, |f.data|).error))
                && file == old(file) && title == old(title)
      ensures ValidateContentFile(f.name, |f.data|).Valid? ==>
                && file == Some(f) && error == None
                && title == (if old(title) == "" then TitleFromFileName(f.name) else old(title))
      ensures thumbnail == old(thumbnail) && description == old(description) && category == old(category)
      ensures supportedVersions == old(supportedVersions) && minecraftType == old(minecraftType)
      ensures status == old(status)
    {
      var validation := ValidateContentFile(f.name, |f.data|);
      if validation.Invalid? {
        error := Some(Rejected(validation.error));
        return;
      }
      file := Some(f);
      error := None;
      ProposeTitle(f.name);
    }

    /** The title step of `selectFile`: an empty title is replaced by one derived from
        the file name; a title already typed is kept. */
    method ProposeTitle(name: string)
      modifies this
      ensures title == if old(title) == "" then TitleFromFileName(name) else old(title)
      ensures file == old(file) && thumbnail == old(thumbnail) && description == old(description)
      ensures category == old(category) && supportedVersions == old(supportedVersions)
      ensures minecraftType == old(minecraftType) && status == old(status) && error == old(error)
    {
      if title == "" {
        title := TitleFromFileName(name);
      }
    }

    /** `handleFileDrop`. The handler is memoised once, on the first render, so the
        `selectFile` it calls always sees the initial empty title: a dropped file that
        passes validation replaces whatever title was typed by the one derived from its
        name. */
    method DropFile(f: LocalFile)
      requires Valid()
      modifies this
      ensures Valid()
      ensures ValidateContentFile(f.name, |f.data|).Invalid? ==>
                && error == Some(Rejected(ValidateContentFile(f.name, |f.data|).error))
                && file == old(file) && title == old(title)
      ensures ValidateContentFile(f.name, |f.data|).Valid? ==>
                file == Some(f) && error == None && title == TitleFromFileName(f.name)
      ensures thumbnail == old(thumbnail) && description == old(description) && category == old(category)
      ensures supportedVersions == old(supportedVersions) && minecraftType == old(minecraftType)
      ensures status == old(status)
    {
      var validation := ValidateContentFile(f.name, |f.data|);
      if validation.Invalid? {
        error := Some(Rejected(validation.error));
        return;
      }
      file := Some(f);
      error := None;
      title := "";  // the title as the stale closure sees it
      ProposeTitle(f.name);
    }

    /** The "Batal" button: clears the file, the title, the description and the
        thumbnail, resets the category to "mod" and hides the error; the supported
        versions and the Minecraft type are kept. */
    method Cancel()
      requires Valid()
      modifies this
      ensures Valid()
      ensures file == None && thumbnail == None && title == "" && description == ""
      ensures category == "mod" && error == None
      ensures supportedVersions == old(supportedVersions) && minecraftType == old(minecraftType)
      ensures status == old(status)
    {
      file := None;
      title := "";
      description := "";
      category := "mod";
      RemoveThumbnail();
      error := None;
    }

    /** `selectThumbnail`: only a .jpg/.jpeg/.png/.webp name is taken. */
    method SelectThumbnail(f: LocalFile)
      requires Valid()
      modifies this
      ensures Valid()
      ensures ValidateThumbnail(f.name).Invalid? ==>
                error == Some(Rejected(ValidateThumbnail(f.name).error)) && thumbnail == old(thumbnail)
      ensures ValidateThumbnail(f.name).Valid? ==> thumbnail == Some(f) && error == None
      ensures file == old(file) && title == old(title) && description == old(description)
      ensures category == old(category) && supportedVersions == old(supportedVersions)
      ensures minecraftType == old(minecraftType) && status == old(status)
    {
      var validation := ValidateThumbnail(f.name);
      if validation.Invalid? {
        error := Some(Rejected(validation.error));
        return;
      }
      thumbnail := Some(f);
      error := None;
    }

    /** `removeThumbnail`: the thumbnail is dropped and nothing else changes. */
    method RemoveThumbnail()
      requires Valid()
      modifies this
      ensures Valid()
      ensures thumbnail == None
      ensures file == old(file) && title == old(title) && description == old(description)
      ensures category == old(category) && supportedVersions == old(supportedVersions)
      ensures minecraftType == old(minecraftType) && status == old(status) && error == old(error)
    {
      thumbnail := None;
    }

    /** `removeFile`: the file is dropped; the title derived from it stays. */
    method RemoveFile()
      requires Valid()
      modifies this
      ensures Valid()
      ensures file == None
      ensures thumbnail == old(thumbnail) && title == old(title) && description == old(description)
      ensures category == old(category) && supportedVersions == old(supportedVersions)
      ensures minecraftType == old(minecraftType) && status == old(status) && error == old(error)
    {
      file := None;
    }

    /** `handleUpload`. `uploadId` and `contentId` are the ids the init and complete
        routes mint, `now` the insertion time, and `failing` the chunk indices whose
        request fails. Chunks go out in index order; the first failure aborts, so
        complete is only sent once every chunk was stored. */
    method HandleUpload(store: Storage.FileStore, db: Catalog.Database, uploadId: string, contentId: string,
                        now: int, failing: set<int>)
      requires uploadId != ""
      requires Valid() && db.Valid()
      modifies this, store, db
      ensures Valid() && db.Valid()
      ensures file == old(file) && thumbnail == old(thumbnail) && title == old(title)
      ensures description == old(description) && category == old(category)
      ensures supportedVersions == old(supportedVersions) && minecraftType == old(minecraftType)
      ensures db.settings == old(db.settings)
      ensures old(file).None? || Text.IsBlank(old(title)) ==>
                && error == Some(FileAndTitleRequired) && status == old(status)
                && unchanged(store) && db.contents == old(db.contents)
      ensures old(file).Some? ==> InitRoute.Init(InitRequestFor(old(file).value), uploadId).Initialized?
      ensures old(file).Some? && !Text.IsBlank(old(title)) ==>
                var f := old(file).value;
                var n := ChunkCount(|f.data|);
                var filePath := Storage.CONTENTS_URL + CompleteRoute.ContentFileName(contentId, f.name);
                if FirstFailure(failing, 0, n).Some? then
                  && status == Failure && error == Some(ChunkFailed(FirstFailure(failing, 0, n).value, n))
                  && store.staging == StagedAfter(old(store.staging), uploadId, f.data, FirstFailure(failing, 0, n).value)
                  && store.published == old(store.published)
                  && db.contents == old(db.contents)
                else if Text.IsBlank(old(description)) || old(thumbnail).None? || |old(thumbnail).value.data| == 0 then
                  && status == Failure && error == Some(CompleteFailed)
                  && store.staging == StagedAfter(old(store.staging), uploadId, f.data, n)
                  && store.published == old(store.published)
                  && db.contents == old(db.contents)
                else
                  var t := old(thumbnail).value;
                  var thumbPath := Storage.THUMBNAILS_URL + CompleteRoute.ThumbnailFileName(contentId, Some(t.name));
                  var row := Catalog.NewContent(contentId, Text.Trim(old(title)), Text.Trim(old(description)),
                                                if old(category) == "" then "mod" else old(category),
                                                filePath, thumbPath, Some(|f.data|), FileExtension(f.name));
                  && store.staging == old(store.staging) - {uploadId}
                  && store.published == old(store.published)[filePath := f.data][thumbPath := t.data]
                  && filePath in store.published && store.published[filePath] == f.data
                  && (status == Success <==> !Catalog.HasId(old(db.contents), contentId))
                  && (status == Success ==> error == None && db.contents == old(db.contents) + [Catalog.NewRow(row, now)])
                  && (status != Success ==> status == Failure && error == Some(CompleteFailed)
                                            && db.contents == old(db.contents))
    {
      if file.None? || Text.IsBlank(title) {
        error := Some(FileAndTitleRequired);
        return;
      }
      var f := file.value;
      status := Uploading;
      error := None;

      // the route's refusal, which the source reports as an error, cannot happen for a
      // file the form holds
      var initRes := InitRoute.Init(InitRequestFor(f), uploadId);
      SelectedFileInitialises(f, uploadId);
      assert initRes.Initialized?;

      var n := ChunkCount(|f.data|);
      var failedAt := SendChunks(store, uploadId, f.data, failing);
      if failedAt.Some? {
        error := Some(ChunkFailed(failedAt.value, n));
        status := Failure;
        return;
      }

      var completed := SendForm(store, db, uploadId, contentId, f, title, description, category, thumbnail,
                                supportedVersions, minecraftType, now, old(store.staging));
      if !completed {
        error := Some(CompleteFailed);
        status := Failure;
        return;
      }
      status := Success;
    }
  }
}
