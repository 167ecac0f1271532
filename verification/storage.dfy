/** The on-disk side of uploads: a staging directory of chunk files per upload id,
    the assembler that concatenates them into a published content file, thumbnail
    writes, deletion, and directory sizes. */
module Storage {
  import opened Basics
  import Decimal

  /** Public URL prefixes; the public directory is keyed by these URL paths. */
  const CONTENTS_URL: string := "/uploads/contents/"
  const THUMBNAILS_URL: string := "/uploads/thumbnails/"
  /** The staging root, relative to the working directory. */
  const TEMP_DIR: string := "data/tmp/"

  /** A content file and a thumbnail never share a public path: the two directories
      differ at their tenth character. */
  lemma PublicDirsDisjoint(contentName: string, thumbnailName: string)
    ensures CONTENTS_URL + contentName != THUMBNAILS_URL + thumbnailName
  {
    assert (CONTENTS_URL + contentName)[9] == 'c';
    assert (THUMBNAILS_URL + thumbnailName)[9] == 't';
  }

  /** The files of one directory, by name. */
  type Dir = map<string, seq<byte>>

  // ---------------------------------------------------------------------------
  // Chunk file names
  // ---------------------------------------------------------------------------

  /** `chunk_${String(i).padStart(6, '0')}`, the one formula both the writer and the
      assembler use. */
  function ChunkName(i: int): string
  {
    "chunk_" + Decimal.PadStart(Decimal.IntToString(i), 6, '0')
  }

  /** Distinct indices get distinct chunk files, negative ones included. */
  lemma ChunkNameInjective(i: int, j: int)
    requires ChunkName(i) == ChunkName(j)
    ensures i == j
  {
    var a, b := Decimal.IntToString(i), Decimal.IntToString(j);
    assert ChunkName(i)[6..] == Decimal.PadStart(a, 6, '0');
    assert ChunkName(j)[6..] == Decimal.PadStart(b, 6, '0');
    Decimal.IntToStringCanonical(i);
    Decimal.IntToStringCanonical(j);
    Decimal.PadStartInjective(a, b, 6);
    Decimal.IntToStringInjective(i, j);
  }

  lemma ChunkNameDistinct(i: int, j: int)
    requires i != j
    ensures ChunkName(i) != ChunkName(j)
  {
    if ChunkName(i) == ChunkName(j) {
      ChunkNameInjective(i, j);
    }
  }

  lemma {:induction false} ZerosValue(z: string)
    requires forall k :: 0 <= k < |z| ==> z[k] == '0'
    ensures Decimal.AllDigits(z) && Decimal.DigitsValue(z) == 0
  {
    if z != [] {
      ZerosValue(z[..|z| - 1]);
    }
  }

  /** Leading zeros do not change the value of a digit string. */
  lemma {:induction false} LeadingZerosValue(z: string, s: string)
    requires forall k :: 0 <= k < |z| ==> z[k] == '0'
    requires Decimal.AllDigits(s)
    ensures Decimal.AllDigits(z + s) && Decimal.DigitsValue(z + s) == Decimal.DigitsValue(s)
  {
    if s == [] {
      assert z + s == z;
      ZerosValue(z);
    } else {
      var t := z + s;
      assert t[..|t| - 1] == z + s[..|s| - 1];
      LeadingZerosValue(z, s[..|s| - 1]);
    }
  }

  /** Zero-padding a digit string keeps it a digit string with the same value. */
  lemma ZeroPaddingKeepsValue(s: string, width: nat)
    requires Decimal.AllDigits(s)
    ensures Decimal.AllDigits(Decimal.PadStart(s, width, '0'))
    ensures Decimal.DigitsValue(Decimal.PadStart(s, width, '0')) == Decimal.DigitsValue(s)
  {
    var p := Decimal.PadStart(s, width, '0');
    Decimal.PadStartShape(s, width, '0');
    var z := p[..|p| - |s|];
    assert p == z + s;
    LeadingZerosValue(z, s);
  }

  /** Below one million the index is written as exactly six digits, which read back as the index. */
  lemma ChunkNameSixDigits(i: int)
    requires 0 <= i < 1000000
    ensures |ChunkName(i)| == 12 && ChunkName(i)[..6] == "chunk_"
    ensures Decimal.AllDigits(ChunkName(i)[6..]) && Decimal.DigitsValue(ChunkName(i)[6..]) == i
  {
    var s := Decimal.NatToString(i);
    assert Decimal.IntToString(i) == s;
    assert Decimal.Pow10(6) == 1000000;
    Decimal.NatToStringLength(i, 6);
    ZeroPaddingKeepsValue(s, 6);
    Decimal.NatToStringValue(i);
    assert ChunkName(i)[6..] == Decimal.PadStart(s, 6, '0');
  }

  // ---------------------------------------------------------------------------
  // What the staging directory holds, and what assembling it yields
  // ---------------------------------------------------------------------------

  /** The staging directory of `uploadId`, empty when it does not exist yet. */
  function StagedDir(staging: map<string, Dir>, uploadId: string): Dir
  {
    if uploadId in staging then staging[uploadId] else map[]
  }

  /** The smallest index in [i, n) whose chunk file is missing, if any. */
  function FirstMissingFrom(dir: Dir, i: nat, n: int): (r: Option<nat>)
    decreases n - i
    ensures r.None? <==> forall j :: i <= j < n ==> ChunkName(j) in dir
    ensures r.Some? ==> i <= r.value < n && ChunkName(r.value) !in dir
                        && forall j :: i <= j < r.value ==> ChunkName(j) in dir
  {
    if n <= i then None
    else if ChunkName(i) !in dir then Some(i)
    else FirstMissingFrom(dir, i + 1, n)
  }

  /** The smallest index in [0, n) whose chunk file is missing, if any. */
  function FirstMissing(dir: Dir, n: int): Option<nat>
  {
    FirstMissingFrom(dir, 0, n)
  }

  /** The first gap is the index that is missing with every index before it present. */
  lemma FirstMissingIs(dir: Dir, n: int, i: nat)
    requires i < n && ChunkName(i) !in dir
    requires forall j :: 0 <= j < i ==> ChunkName(j) in dir
    ensures FirstMissing(dir, n) == Some(i)
  {
  }

  /** Chunks 0..k-1 of `dir`, concatenated in index order. */
  function ChunksUpTo(dir: Dir, k: nat): (data: seq<byte>)
    requires forall j :: 0 <= j < k ==> ChunkName(j) in dir
  {
    if k == 0 then [] else ChunksUpTo(dir, k - 1) + dir[ChunkName(k - 1)]
  }

  /** What the destination holds once assembling `n` chunks of `dir` stops: the chunks
      before the first gap, or all of them when there is none. */
  function Assembled(dir: Dir, n: int): (data: seq<byte>)
  {
    match FirstMissing(dir, n)
    case Some(i) => ChunksUpTo(dir, i)
    case None => ChunksUpTo(dir, LoopCount(n))
  }

  /** The number of iterations of `for (let i = 0; i < n; i++)`. */
  function LoopCount(n: int): nat
  {
    if n < 0 then 0 else n
  }

  /** The staging map after writing `data` as chunk `i` of `uploadId`. */
  function WithChunk(staging: map<string, Dir>, uploadId: string, i: int, data: seq<byte>): map<string, Dir>
  {
    staging[uploadId := StagedDir(staging, uploadId)[ChunkName(i) := data]]
  }

  /** Rewriting a chunk replaces it: the second write wins. */
  lemma LastWriteWins(staging: map<string, Dir>, uploadId: string, i: int, first: seq<byte>, second: seq<byte>)
    ensures WithChunk(WithChunk(staging, uploadId, i, first), uploadId, i, second)
            == WithChunk(staging, uploadId, i, second)
  {
    var d := StagedDir(staging, uploadId);
    var once := WithChunk(staging, uploadId, i, first);
    assert StagedDir(once, uploadId) == d[ChunkName(i) := first];
    assert d[ChunkName(i) := first][ChunkName(i) := second] == d[ChunkName(i) := second];
  }

  /** A chunk write touches no other chunk of the same upload and no other upload. */
  lemma WithChunkIsolated(staging: map<string, Dir>, uploadId: string, i: int, data: seq<byte>,
                          other: string, j: int)
    requires other != uploadId || j != i
    ensures var after := WithChunk(staging, uploadId, i, data);
            (ChunkName(j) in StagedDir(after, other) <==> ChunkName(j) in StagedDir(staging, other))
            && (ChunkName(j) in StagedDir(staging, other) ==>
                  StagedDir(after, other)[ChunkName(j)] == StagedDir(staging, other)[ChunkName(j)])
  {
    if other == uploadId && ChunkName(j) == ChunkName(i) {
      ChunkNameInjective(i, j);
    }
  }

  /** The staging directory after chunks[0..k) were written at indices 0..k-1, in that order. */
  function StageAll(dir: Dir, chunks: seq<seq<byte>>, k: nat): Dir
    requires k <= |chunks|
  {
    if k == 0 then dir else StageAll(dir, chunks, k - 1)[ChunkName(k - 1) := chunks[k - 1]]
  }

  /** Each staged index reads back the chunk written for it, whatever the directory held before. */
  lemma {:induction false} StageAllLookup(dir: Dir, chunks: seq<seq<byte>>, k: nat, j: nat)
    requires k <= |chunks| && j < k
    ensures ChunkName(j) in StageAll(dir, chunks, k)
    ensures StageAll(dir, chunks, k)[ChunkName(j)] == chunks[j]
  {
    var prev := StageAll(dir, chunks, k - 1);
    var last := ChunkName(k - 1);
    assert StageAll(dir, chunks, k) == prev[last := chunks[k - 1]];
    if j < k - 1 {
      StageAllLookup(dir, chunks, k - 1, j);
      var key := ChunkName(j);
      ChunkNameDistinct(k - 1, j);
      assert key in prev && prev[key] == chunks[j] && key != last;
    }
  }

  /** `chunks` laid end to end. */
  function Flatten(chunks: seq<seq<byte>>): seq<byte>
  {
    if chunks == [] then [] else Flatten(chunks[..|chunks| - 1]) + chunks[|chunks| - 1]
  }

  /** Round trip of the store: staging chunks 0..n-1 and assembling n of them gives back
      their concatenation, with no index reported missing. */
  lemma {:induction false} AssembleStaged(dir: Dir, chunks: seq<seq<byte>>, k: nat)
    requires k <= |chunks|
    ensures FirstMissing(StageAll(dir, chunks, |chunks|), k) == None
    ensures forall j :: 0 <= j < k ==> ChunkName(j) in StageAll(dir, chunks, |chunks|)
    ensures ChunksUpTo(StageAll(dir, chunks, |chunks|), k) == Flatten(chunks[..k])
  {
    var staged := StageAll(dir, chunks, |chunks|);
    forall j | 0 <= j < |chunks| ensures ChunkName(j) in staged && staged[ChunkName(j)] == chunks[j] {
      StageAllLookup(dir, chunks, |chunks|, j);
    }
    if k > 0 {
      AssembleStaged(dir, chunks, k - 1);
      assert chunks[..k][..k - 1] == chunks[..k - 1];
    }
  }

  /** Chunks 0 and 2 present, chunk 1 never written: asking for three reports index 1. */
  lemma GapIsReported(a: seq<byte>, b: seq<byte>)
    ensures FirstMissing(map[ChunkName(0) := a, ChunkName(2) := b], 3) == Some(1)
  {
    var dir := map[ChunkName(0) := a, ChunkName(2) := b];
    if ChunkName(1) == ChunkName(0) { ChunkNameInjective(1, 0); }
    if ChunkName(1) == ChunkName(2) { ChunkNameInjective(1, 2); }
    assert ChunkName(1) !in dir;
  }

  /** `new Error(`Missing chunk ${i} for upload ${uploadId}`)`. */
  datatype AssemblyError = MissingChunk(index: nat, uploadId: string)

  // ---------------------------------------------------------------------------
  // The file store
  // ---------------------------------------------------------------------------

  /** The file system as far as uploads see it. `staging` is `data/tmp/<uploadId>/<chunk file>`;
      `published` is the public directory, keyed by the URL path a file is served under
      (`/uploads/contents/<name>`, `/uploads/thumbnails/<name>`). */
  class FileStore {
    var staging: map<string, Dir>
    var published: map<string, seq<byte>>

    constructor ()
      ensures staging == map[] && published == map[]
    {
      staging := map[];
      published := map[];
    }

    /** `getTempDir`: creates the staging directory of `uploadId` when it is absent, and
        returns its path. Calling it again changes nothing. */
    method GetTempDir(uploadId: string) returns (path: string)
      modifies this
      ensures path == TEMP_DIR + uploadId
      ensures staging == old(staging)[uploadId := StagedDir(old(staging), uploadId)]
      ensures published == old(published)
    {
      if uploadId !in staging {
        staging := staging[uploadId := map[]];
      }
      path := TEMP_DIR + uploadId;
    }

    /** `saveChunk`: writes the bytes as chunk `chunkIndex` of `uploadId`, replacing an
        earlier write of the same index. */
    method SaveChunk(uploadId: string, chunkIndex: int, data: seq<byte>)
      modifies this
      ensures staging == WithChunk(old(staging), uploadId, chunkIndex, data)
      ensures published == old(published)
    {
      ghost var dir := StagedDir(staging, uploadId);
      var _ := GetTempDir(uploadId);
      var name := ChunkName(chunkIndex);
      staging := staging[uploadId := staging[uploadId][name := data]];
      assert staging == old(staging)[uploadId := dir[name := data]];
    }

    /** `cleanupTempDir`: removes the staging directory and every chunk in it. */
    method CleanupTempDir(uploadId: string)
      modifies this
      ensures staging == old(staging) - {uploadId}
      ensures published == old(published)
    {
      if uploadId in staging {
        staging := staging - {uploadId};
      }
    }

    /** `assembleChunks`: concatenates chunks 0..totalChunks-1 of `uploadId` into the content
        file `filename`. At the first missing index it stops with an error, leaving the
        staging directory (created if it was absent) and a destination holding the chunks
        before the gap. Otherwise it removes the staging directory and returns the public path. */
    method AssembleChunks(uploadId: string, totalChunks: int, filename: string)
      returns (r: Result<string, AssemblyError>)
      modifies this
      ensures var dir := StagedDir(old(staging), uploadId);
              var dest := CONTENTS_URL + filename;
              match FirstMissing(dir, totalChunks)
              case None =>
                && (forall j :: 0 <= j < totalChunks ==> ChunkName(j) in dir)
                && r == Ok(dest)
                && staging == old(staging) - {uploadId}
                && published == old(published)[dest := ChunksUpTo(dir, LoopCount(totalChunks))]
              case Some(i) =>
                && r == Err(MissingChunk(i, uploadId))
                && staging == old(staging)[uploadId := dir]
                && published == old(published)[dest := ChunksUpTo(dir, i)]
    {
      var _ := GetTempDir(uploadId);
      // nothing writes to the staging directory while it is read
      var dir := staging[uploadId];
      var dest := CONTENTS_URL + filename;
      // opening the write stream creates or truncates the destination
      published := published[dest := []];
      var i := 0;
      while i < totalChunks
        invariant 0 <= i <= LoopCount(totalChunks)
        invariant staging == old(staging)[uploadId := dir]
        invariant dir == StagedDir(old(staging), uploadId)
        invariant forall j :: 0 <= j < i ==> ChunkName(j) in dir
        invariant published == old(published)[dest := ChunksUpTo(dir, i)]
      {
        var name := ChunkName(i);
        if name !in dir {
          FirstMissingIs(dir, totalChunks, i);
          r := Err(MissingChunk(i, uploadId));
          return;
        }
        published := published[dest := published[dest] + dir[name]];
        i := i + 1;
      }
      assert FirstMissing(dir, totalChunks) == None;
      assert i == LoopCount(totalChunks);
      CleanupTempDir(uploadId);
      r := Ok(dest);
    }

    /** `saveThumbnail`: writes (or overwrites) the thumbnail and returns its public path. */
    method SaveThumbnail(data: seq<byte>, filename: string) returns (path: string)
      modifies this
      ensures path == THUMBNAILS_URL + filename
      ensures published == old(published)[path := data]
      ensures staging == old(staging)
    {
      path := THUMBNAILS_URL + filename;
      published := published[path := data];
    }

    /** `deleteFile`: removes the public file at `filePath` if it exists; otherwise nothing happens. */
    method DeleteFile(filePath: string)
      modifies this
      ensures published == old(published) - {filePath}
      ensures staging == old(staging)
    {
      if filePath in published {
        published := published - {filePath};
      }
    }
  }

  // ---------------------------------------------------------------------------
  // Directory sizes
  // ---------------------------------------------------------------------------

  /** One entry of a directory listing (`readdirSync(dir, { withFileTypes: true })`):
      a regular file, a sub-directory with its own listing, or anything else
      (a link, a socket, ...), which counts for nothing. */
  datatype Entry =
    | FileEntry(name: string, data: seq<byte>)
    | DirEntry(name: string, entries: seq<Entry>)
    | OtherEntry(name: string)

  /** The sizes of all regular files below a listing, depth first in listing order. */
  function FileSizes(entries: seq<Entry>): seq<int>
    decreases entries
  {
    if entries == [] then []
    else EntryFileSizes(entries[0]) + FileSizes(entries[1..])
  }

  function EntryFileSizes(e: Entry): seq<int>
    decreases e
  {
    match e
    case FileEntry(_, data) => [|data|]
    case DirEntry(_, entries) => FileSizes(entries)
    case OtherEntry(_) => []
  }

  lemma {:induction false} FileSizesAppend(a: seq<Entry>, b: seq<Entry>)
    ensures FileSizes(a + b) == FileSizes(a) + FileSizes(b)
  {
    if a == [] {
      assert a + b == b;
    } else {
      assert (a + b)[0] == a[0];
      assert (a + b)[1..] == a[1..] + b;
      FileSizesAppend(a[1..], b);
    }
  }

  function Id(x: int): int { x }

  /** The summed sizes of a listing grow by one entry's share at a time. */
  lemma ListingSizeStep(entries: seq<Entry>, i: nat)
    requires i < |entries|
    ensures SumOf(FileSizes(entries[..i + 1]), Id)
            == SumOf(FileSizes(entries[..i]), Id) + SumOf(EntryFileSizes(entries[i]), Id)
  {
    var prefix, e := entries[..i], entries[i];
    assert entries[..i + 1] == prefix + [e];
    FileSizesAppend(prefix, [e]);
    SumOfAppend(FileSizes(prefix), EntryFileSizes(e), Id);
    assert FileSizes([e]) == EntryFileSizes(e) by {
      assert [e][1..] == [];
    }
  }

  /** One entry's share: a file's length, a directory's whole subtree, nothing otherwise. */
  lemma EntrySize(e: Entry)
    ensures e.FileEntry? ==> SumOf(EntryFileSizes(e), Id) == |e.data|
    ensures e.DirEntry? ==> SumOf(EntryFileSizes(e), Id) == SumOf(FileSizes(e.entries), Id)
    ensures e.OtherEntry? ==> SumOf(EntryFileSizes(e), Id) == 0
  {
    if e.FileEntry? {
      assert [|e.data|][..0] == [];
    }
  }

  /** `getDirSize` over a listing: the sum of the sizes of every regular file in the
      whole subtree. */
  method ListingSize(entries: seq<Entry>) returns (total: int)
    ensures total == SumOf(FileSizes(entries), Id)
    decreases entries
  {
    total := 0;
    var i := 0;
    while i < |entries|
      invariant 0 <= i <= |entries|
      invariant total == SumOf(FileSizes(entries[..i]), Id)
    {
      var e := entries[i];
      var size := 0;
      match e {
        case FileEntry(_, data) => size := |data|;
        case DirEntry(_, children) => size := ListingSize(children);
        case OtherEntry(_) =>
      }
      ListingSizeStep(entries, i);
      EntrySize(e);
      total := total + size;
      i := i + 1;
    }
    assert entries[..i] == entries;
  }

  /** `getDirSize(dirPath)`: 0 when the directory does not exist (`None`), else the size of
      its listing. */
  method DirSize(listing: Option<seq<Entry>>) returns (total: int)
    ensures listing.None? ==> total == 0
    ensures listing.Some? ==> total == SumOf(FileSizes(listing.value), Id)
  {
    if listing.None? {
      return 0;
    }
    total := ListingSize(listing.value);
  }

  /** `getStorageUsed`: the size of the contents directory only; thumbnails are not counted. */
  method StorageUsed(contentsDir: Option<seq<Entry>>) returns (total: int)
    ensures total == if contentsDir.None? then 0 else SumOf(FileSizes(contentsDir.value), Id)
  {
    total := DirSize(contentsDir);
  }
}
