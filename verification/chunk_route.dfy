/** `POST /api/upload/chunk`: stores one chunk of an upload in its staging directory. */
module ChunkRoute {
  import opened Basics
  import Decimal
  import opened Storage

  /** The multipart fields; a field that was not sent is `None`. A file field that was
      sent holds the bytes of its blob, possibly none. */
  datatype ChunkRequest = ChunkRequest(uploadId: Option<string>, chunkIndex: Option<string>, chunk: Option<seq<byte>>)

  datatype ChunkResponse =
    | ChunkBadRequest           // 400 "uploadId, chunkIndex, and chunk are required"
    | ChunkSaved(index: int)    // 200, echoing the parsed index
    | ChunkFailed               // 500 "Failed to save chunk"

  /** The request passes the guard: an id, an index that parses, and a chunk. An empty
      blob is still a blob and passes. */
  predicate WellFormed(req: ChunkRequest)
  {
    !Missing(req.uploadId) && Decimal.ParseIntField(req.chunkIndex).Some? && req.chunk.Some?
  }

  /** The handler. `ioFailure` says whether writing the chunk file throws; the write is
      then taken to fail before it changes anything. */
  method Chunk(store: FileStore, req: ChunkRequest, ioFailure: bool) returns (r: ChunkResponse)
    modifies store
    ensures !WellFormed(req) ==> r == ChunkBadRequest && store.staging == old(store.staging)
    ensures WellFormed(req) && ioFailure ==> r == ChunkFailed && store.staging == old(store.staging)
    ensures WellFormed(req) && !ioFailure ==>
              var index := Decimal.ParseIntField(req.chunkIndex).value;
              && r == ChunkSaved(index)
              && store.staging == WithChunk(old(store.staging), req.uploadId.value, index, req.chunk.value)
    ensures store.published == old(store.published)
  {
    var index := Decimal.ParseIntField(req.chunkIndex);
    if Missing(req.uploadId) || index.None? || req.chunk.None? {
      return ChunkBadRequest;
    }
    if ioFailure {
      return ChunkFailed;
    }
    store.SaveChunk(req.uploadId.value, index.value, req.chunk.value);
    r := ChunkSaved(index.value);
  }

  /** No range check is made: "-1" is index -1, which is stored under "chunk_0000-1",
      a name assembly never reads. */
  lemma NegativeIndexStored()
    ensures Decimal.ParseIntField(Some("-1")) == Some(-1)
    ensures ChunkName(-1) == "chunk_0000-1"
  {
    Decimal.TrimStartKeeps("-1");
    assert Decimal.LeadingDigits("1") == "1";
    assert Decimal.DigitsValue("1") == 1;
    assert Decimal.IntToString(-1) == "-1" by {
      assert Decimal.NatToString(1) == "1";
    }
    assert ['0'] + "-1" == "0-1" && ['0'] + "0-1" == "00-1";
    assert ['0'] + "00-1" == "000-1" && ['0'] + "000-1" == "0000-1";
    assert Decimal.PadStart("-1", 6, '0') == Decimal.PadStart("0-1", 6, '0');
    assert Decimal.PadStart("0-1", 6, '0') == Decimal.PadStart("00-1", 6, '0');
    assert Decimal.PadStart("00-1", 6, '0') == Decimal.PadStart("000-1", 6, '0');
    assert Decimal.PadStart("000-1", 6, '0') == Decimal.PadStart("0000-1", 6, '0');
  }

  /** The index is the leading integer of the field: "3.9" and "3abc" are both chunk 3. */
  lemma IndexIsLeadingInteger()
    ensures Decimal.ParseIntField(Some("3.9")) == Some(3)
    ensures Decimal.ParseIntField(Some("3abc")) == Some(3)
  {
    Decimal.TrimStartKeeps("3.9");
    Decimal.TrimStartKeeps("3abc");
    assert Decimal.LeadingDigits("3.9") == "3";
    assert Decimal.LeadingDigits("3abc") == "3";
    assert Decimal.DigitsValue("3") == 3;
  }

  /** A missing or non-numeric index is refused: a field not sent, and text with no
      leading digit. */
  lemma NonNumericIndexRefused(id: string, data: seq<byte>)
    requires id != ""
    ensures !WellFormed(ChunkRequest(Some(id), None, Some(data)))
    ensures !WellFormed(ChunkRequest(Some(id), Some("x1"), Some(data)))
    ensures !WellFormed(ChunkRequest(Some(id), Some(""), Some(data)))
    ensures WellFormed(ChunkRequest(Some(id), Some("0"), Some([])))
  {
    assert Decimal.LeadingDigits("x1") == [];
    assert Decimal.LeadingDigits("0") == "0";
  }
}
