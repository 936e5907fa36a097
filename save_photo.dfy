/**
 * The two handlers of Functions/savePhoto.js over an abstract view of the
 * three AWS services they talk to: the bucket (`blobs`), the photos table
 * (`meta`) and the face collection (`registered`, the external image ids
 * that have at least one face in the collection). Every external call is
 * given its outcome as a parameter, in place of the network.
 */
module SavePhoto {
  import opened Wrappers
  import opened Naming
  import opened Records
  import opened Matching

  /** Whether an awaited write goes through or throws. */
  datatype StepOutcome = Succeeds | Fails

  /** The collection's answer to indexing an image: how many face records it created, or an error. */
  datatype IndexOutcome = Indexed(faceCount: nat) | IndexFails

  /** The collection's answer to a probe image: the external ids of the matched faces, best first, or an error. */
  datatype SearchOutcome = FaceMatches(ids: seq<string>) | SearchFails

  /** A write the upload handler issues, named by the key it writes. */
  datatype Call = BlobPut(key: string) | RecordPut(key: string) | FaceIndex(key: string)

  /** The success answer of the upload handler: the collection's answer and the image URL. */
  datatype IndexReply = IndexReply(faceCount: nat, imageUrl: string)

  /**
   * The writes an upload under `key` issues: a prefix of blob put, record
   * put, face registration, that stops right after the first write that
   * fails. There are no retries and no compensating writes.
   */
  function IssuedCalls(key: string, blobStep: StepOutcome, itemStep: StepOutcome): (issued: seq<Call>)
    ensures 1 <= |issued| <= 3
    ensures issued == [BlobPut(key), RecordPut(key), FaceIndex(key)][..|issued|]
    ensures |issued| == 1 <==> blobStep.Fails?
    ensures |issued| == 2 <==> blobStep.Succeeds? && itemStep.Fails?
  {
    if blobStep.Fails? then [BlobPut(key)]
    else if itemStep.Fails? then [BlobPut(key), RecordPut(key)]
    else [BlobPut(key), RecordPut(key), FaceIndex(key)]
  }

  class Backend {
    /** The bucket name that appears in every image URL. */
    const bucket: string
    /** Objects in the bucket, by key. */
    var blobs: map<string, Bytes>
    /** Items of the photos table, by ExternalImageId. */
    var meta: map<string, PhotoRecord>
    /** External image ids with at least one face in the collection. */
    var registered: set<string>
    /** Every write issued so far, in order. */
    ghost var calls: seq<Call>

    /**
     * What the write order keeps: a face is registered only under a key
     * that has a record, a record exists only for a key that has an object,
     * and each record is keyed by its own id and points at its own object.
     */
    ghost predicate Valid()
      reads this
    {
      && registered <= meta.Keys
      && meta.Keys <= blobs.Keys
      && forall k :: k in meta ==> meta[k].externalImageId == k && meta[k].imageUrl == ImageUrl(bucket, k)
    }

    constructor (bucket: string)
      ensures Valid()
      ensures this.bucket == bucket
      ensures blobs == map[] && meta == map[] && registered == {} && calls == []
    {
      this.bucket := bucket;
      blobs, meta, registered := map[], map[], {};
      calls := [];
    }

    /** `s3.putObject`: stores `body` under `key` when it succeeds. */
    method PutObject(key: string, body: Bytes, outcome: StepOutcome) returns (ok: bool)
      requires Valid()
      modifies this
      ensures Valid()
      ensures ok <==> outcome == Succeeds
      ensures blobs == if ok then old(blobs)[key := body] else old(blobs)
      ensures meta == old(meta) && registered == old(registered)
      ensures calls == old(calls) + [BlobPut(key)]
    {
      ok := outcome == Succeeds;
      if ok {
        blobs := blobs[key := body];
      }
      calls := calls + [BlobPut(key)];
    }

    /**
     * `dynamodb.put`: stores `item` under its ExternalImageId when it succeeds.
     * The handler issues it only once the object is in the bucket and only
     * for an item that points at that object.
     */
    method PutItem(item: PhotoRecord, outcome: StepOutcome) returns (ok: bool)
      requires Valid()
      requires item.externalImageId in blobs && item.imageUrl == ImageUrl(bucket, item.externalImageId)
      modifies this
      ensures Valid()
      ensures ok <==> outcome == Succeeds
      ensures meta == if ok then old(meta)[item.externalImageId := item] else old(meta)
      ensures blobs == old(blobs) && registered == old(registered)
      ensures calls == old(calls) + [RecordPut(item.externalImageId)]
    {
      ok := outcome == Succeeds;
      if ok {
        meta := meta[item.externalImageId := item];
      }
      calls := calls + [RecordPut(item.externalImageId)];
    }

    /**
     * `rekognition.indexFaces` on the object under `key`, tagged with `key`:
     * the key becomes searchable only when at least one face was indexed.
     * The handler issues it only once the record for `key` is in the table.
     */
    method RegisterFaces(key: string, outcome: IndexOutcome) returns (ok: bool)
      requires Valid()
      requires key in meta
      modifies this
      ensures Valid()
      ensures ok <==> outcome.Indexed?
      ensures registered == if ok && outcome.faceCount > 0 then old(registered) + {key} else old(registered)
      ensures blobs == old(blobs) && meta == old(meta)
      ensures calls == old(calls) + [FaceIndex(key)]
    {
      ok := outcome.Indexed?;
      if ok && outcome.faceCount > 0 {
        registered := registered + {key};
      }
      calls := calls + [FaceIndex(key)];
    }

    /** `dynamodb.get`: when the read goes through, the item stored under `key`, if any. */
    method GetItem(key: string, outcome: StepOutcome) returns (r: Result<Option<PhotoRecord>, Failure>)
      ensures outcome == Fails ==> r == Failure(LookupFailed)
      ensures outcome == Succeeds ==> r.Success? && (r.value.Some? <==> key in meta)
      ensures r.Success? && r.value.Some? ==> r.value.value == meta[key]
    {
      if outcome == Fails {
        return Failure(LookupFailed);
      }
      r := Success(if key in meta then Some(meta[key]) else None);
    }

    /**
     * The upload handler `indexFaces`. Nothing is written unless a named
     * file is present; then the object, the record and the face registration
     * are written in that order, the first failure ends the handler with an
     * error, and what was already written stays written.
     */
    method IndexFaces(upload: Upload, uuid: string, now: string,
                      blobStep: StepOutcome, itemStep: StepOutcome, faceStep: IndexOutcome)
      returns (r: Result<IndexReply, Failure>)
      requires Valid()
      modifies this
      ensures Valid()
      ensures upload.files == [] ==> r == Failure(NoFiles)
      ensures upload.files != [] && upload.files[0].filename.None? ==> r == Failure(MissingFilename)
      ensures upload.files == [] || upload.files[0].filename.None? ==>
                blobs == old(blobs) && meta == old(meta) && registered == old(registered) && calls == old(calls)
      ensures upload.files != [] && upload.files[0].filename.Some? ==>
                var file := upload.files[0];
                var key := StorageKey(file.filename.value, uuid);
                var wroteRecord := blobStep == Succeeds && itemStep == Succeeds;
                && calls == old(calls) + IssuedCalls(key, blobStep, itemStep)
                && blobs == (if blobStep == Succeeds then old(blobs)[key := file.content] else old(blobs))
                && meta == (if wroteRecord then old(meta)[key := NewRecord(bucket, key, upload, now)] else old(meta))
                && registered == (if wroteRecord && faceStep.Indexed? && faceStep.faceCount > 0
                                  then old(registered) + {key} else old(registered))
                && r == (if blobStep == Fails then Failure(BlobPutFailed)
                         else if itemStep == Fails then Failure(RecordPutFailed)
                         else if faceStep.IndexFails? then Failure(FaceIndexFailed)
                         else Success(IndexReply(faceStep.faceCount, ImageUrl(bucket, key))))
    {
      if upload.files == [] {
        return Failure(NoFiles);
      }
      var file := upload.files[0];
      if file.filename.None? {
        return Failure(MissingFilename);
      }
      var key := StorageKey(file.filename.value, uuid);
      r := WriteUpload(key, file.content, NewRecord(bucket, key, upload, now), blobStep, itemStep, faceStep);
    }

    /**
     * The three awaited writes of the upload handler for `key`: the object,
     * then the record, then the face registration, stopping at the first
     * failure without undoing what was written.
     */
    method WriteUpload(key: string, body: Bytes, item: PhotoRecord,
                       blobStep: StepOutcome, itemStep: StepOutcome, faceStep: IndexOutcome)
      returns (r: Result<IndexReply, Failure>)
      requires Valid()
      requires item.externalImageId == key && item.imageUrl == ImageUrl(bucket, key)
      modifies this
      ensures Valid()
      ensures calls == old(calls) + IssuedCalls(key, blobStep, itemStep)
      ensures blobs == if blobStep == Succeeds then old(blobs)[key := body] else old(blobs)
      ensures meta == if blobStep == Succeeds && itemStep == Succeeds then old(meta)[key := item] else old(meta)
      ensures registered == if blobStep == Succeeds && itemStep == Succeeds && faceStep.Indexed? && faceStep.faceCount > 0
                            then old(registered) + {key} else old(registered)
      ensures r == if blobStep == Fails then Failure(BlobPutFailed)
                   else if itemStep == Fails then Failure(RecordPutFailed)
                   else if faceStep.IndexFails? then Failure(FaceIndexFailed)
                   else Success(IndexReply(faceStep.faceCount, ImageUrl(bucket, key)))
    {
      ghost var before := calls;
      var ok := PutObject(key, body, blobStep);
      if !ok {
        assert calls == before + IssuedCalls(key, blobStep, itemStep);
        return Failure(BlobPutFailed);
      }

      var imageUrl := ImageUrl(bucket, key);
      ok := PutItem(item, itemStep);
      assert calls == before + [BlobPut(key), RecordPut(key)];
      if !ok {
        assert calls == before + IssuedCalls(key, blobStep, itemStep);
        return Failure(RecordPutFailed);
      }

      ok := RegisterFaces(key, faceStep);
      assert calls == before + [BlobPut(key), RecordPut(key), FaceIndex(key)];
      assert calls == before + IssuedCalls(key, blobStep, itemStep);
      if !ok {
        return Failure(FaceIndexFailed);
      }
      r := Success(IndexReply(faceStep.faceCount, imageUrl));
    }

    /**
     * The probe handler `recognizeFaces`: after the collection has named its
     * matches, each one is looked up in the photos table in turn, and the
     * records found are answered in match order. A lookup that fails ends
     * the handler with an error and discards what was found. It writes
     * nothing.
     */
    method RecognizeFaces(files: seq<FilePart>, search: SearchOutcome, lookups: seq<StepOutcome>)
      returns (r: Result<seq<PhotoRecord>, Failure>)
      requires search.FaceMatches? ==> |lookups| == |search.ids|
      ensures files == [] ==> r == Failure(NoFiles)
      ensures files != [] && search.SearchFails? ==> r == Failure(FaceSearchFailed)
      ensures files != [] && search.FaceMatches? && Fails in lookups ==> r == Failure(LookupFailed)
      ensures files != [] && search.FaceMatches? && Fails !in lookups ==> r == Success(Resolve(meta, search.ids))
      ensures Valid() && files != [] && search.FaceMatches? && Fails !in lookups
              && (forall i :: 0 <= i < |search.ids| ==> search.ids[i] in registered)
              ==> r.Success? && |r.value| == |search.ids|
    {
      if files == [] {
        return Failure(NoFiles);
      }
      if search.SearchFails? {
        return Failure(FaceSearchFailed);
      }
      var ids := search.ids;
      var recognized: seq<PhotoRecord> := [];
      var i := 0;
      while i < |ids|
        invariant 0 <= i <= |ids|
        invariant Fails !in lookups[..i]
        invariant recognized == Resolve(meta, ids[..i])
      {
        var result := GetItem(ids[i], lookups[i]);
        if result.Failure? {
          assert lookups[i] in lookups;
          return Failure(LookupFailed);
        }
        if result.value.Some? {
          recognized := recognized + [result.value.value];
        }
        assert ids[..i + 1][..i] == ids[..i];
        assert lookups[..i + 1] == lookups[..i] + [lookups[i]];
        i := i + 1;
      }
      assert ids[..|ids|] == ids;
      assert lookups[..|ids|] == lookups;
      if Valid() && forall j :: 0 <= j < |ids| ==> ids[j] in registered {
        RegisteredMatchesAllResolve(meta, registered, ids);
      }
      r := Success(recognized);
    }
  }

  /**
   * Under the write order a face is registered only under a key that has a
   * record, so a probe whose matches are all registered keys drops nothing:
   * misses come only from records removed outside the two handlers.
   */
  lemma {:induction false} RegisteredMatchesAllResolve(meta: map<string, PhotoRecord>, registered: set<string>, ids: seq<string>)
    requires registered <= meta.Keys
    requires forall i :: 0 <= i < |ids| ==> ids[i] in registered
    ensures |Resolve(meta, ids)| == |ids|
    ensures forall i :: 0 <= i < |ids| ==> Resolve(meta, ids)[i] == meta[ids[i]]
  {
    ResolveAllHits(meta, ids);
  }

  /** A probe whose best match has a record and whose second match has none answers with the first record alone. */
  lemma {:induction false} ProbeSkipsMissing(meta: map<string, PhotoRecord>, hit: string, miss: string)
    requires hit in meta && miss !in meta
    ensures Resolve(meta, [hit, miss]) == [meta[hit]]
  {
    assert [hit][..0] == [];
    assert [hit, miss][..1] == [hit];
  }

  /**
   * An upload of `A.jpg` followed by a probe whose matches are the new key
   * and a key the table no longer holds: the upload answers with the URL of
   * the new key, and the probe answers with the new record alone.
   */
  method UploadThenProbe(uuid: string)
    requires IsUuid(uuid)
  {
    var backend := new Backend("photos");
    var upload := Upload([FilePart(Some("A.jpg"), [0xFF, 0xD8])], "nice", "wedding", "Alice");
    var reply := backend.IndexFaces(upload, uuid, "2024-05-01T12:00:00.000Z", Succeeds, Succeeds, Indexed(1));
    var key := StorageKey("A.jpg", uuid);
    assert reply == Success(IndexReply(1, ImageUrl("photos", key)));
    var rec := backend.meta[key];
    assert rec.topic == "wedding" && rec.comments == ["nice"] && rec.posterName == "Alice";

    var gone := "gone";
    assert |key| > |gone|;
    var answer := backend.RecognizeFaces([FilePart(None, [0xFF])], FaceMatches([key, gone]), [Succeeds, Succeeds]);
    ProbeSkipsMissing(backend.meta, key, gone);
    assert answer == Success([rec]);
  }
}
