/**
 * The transformation stage: find a raw file under `raw_data/to_process/`, clean it, write the
 * result under `transformed_data/to_process/`, archive the raw table under
 * `raw_data/archive/`, and delete the raw file.
 */
module Transform {
  import opened Wrappers
  import opened Text
  import opened ObjectStore
  import opened Cleaning
  import opened Tsv
  import opened TransformKeys

  /**
   * `upload_to_s3`: writes the cleaned table, archives the raw table, deletes the raw file.
   * A file name without `raw_` fails before any call, leaving the bucket as it was.
   */
  method UploadToS3(bucket: Bucket, codec: Codec, fileKey: string, clean: seq<CleanRecord>, archive: seq<RawRecord>)
      returns (failed: bool)
    modifies bucket
    ensures failed <==> TransformedKey(fileKey).None?
    ensures failed ==> bucket.objects == old(bucket.objects) && bucket.requests == old(bucket.requests)
    ensures !failed ==>
      bucket.requests == old(bucket.requests) + UploadRequests(fileKey, codec.writeClean(clean), codec.writeRaw(archive))
    ensures !failed ==>
      bucket.objects == old(bucket.objects)[TransformedKey(fileKey).value := codec.writeClean(clean)]
                                              [RawArchiveKey(fileKey) := codec.writeRaw(archive)]
                          - {RawToProcessKey(fileKey)}
  {
    var rawArchiveKey := RawArchiveKey(fileKey);
    var transformed := TransformedKey(fileKey);
    if transformed.None? {
      return true;
    }
    var rawToProcessKey := RawToProcessKey(fileKey);
    var cleanBody := codec.writeClean(clean);
    var rawBody := codec.writeRaw(archive);
    ghost var before := bucket.requests;
    bucket.Put(transformed.value, cleanBody);
    bucket.Put(rawArchiveKey, rawBody);
    bucket.Delete(rawToProcessKey);
    LogOfThree(before, PutObject(transformed.value, cleanBody), PutObject(rawArchiveKey, rawBody), DeleteObject(rawToProcessKey));
    return false;
  }

  // ---------------------------------------------------------------- transformation

  datatype Failure =
    | ListingEmpty                    // the listing has no `Contents`: KeyError
    | Unreadable                      // `read_csv` rejects the file
    | PriceUnreadable(e: TransformError)  // `int('')` in step 4: ValueError
    | NoRawMarker                     // the file name has no `raw_`: IndexError

  datatype Outcome = Transformed(fileKey: string) | NoCsv | Failed(failure: Failure)

  /** The bucket after the run transformed `fileKey`. */
  function AfterRun(objects: map<string, string>, codec: Codec, fileKey: string, rows: seq<RawRecord>,
                    clean: seq<CleanRecord>): map<string, string>
    requires TransformedKey(fileKey).Some?
  {
    objects[TransformedKey(fileKey).value := codec.writeClean(clean)][RawArchiveKey(fileKey) := codec.writeRaw(rows)]
      - {RawToProcessKey(fileKey)}
  }

  /**
   * `transformation()`: one run of the stage. `listing` is the answer of the bucket's listing,
   * in the order it came; the run works on its first `.csv` key. Only a run that reaches the
   * upload changes the bucket; `dumpDate` is the clock reading the run stamps its rows with.
   */
  method Transformation(bucket: Bucket, codec: Codec, dumpDate: string) returns (outcome: Outcome, ghost listing: seq<string>)
    modifies bucket
    ensures forall k :: k in listing <==> k in old(bucket.objects) && SourcePrefix <= k
    ensures forall i, j :: 0 <= i < j < |listing| ==> listing[i] != listing[j]
    ensures !outcome.Transformed? ==> bucket.objects == old(bucket.objects) && bucket.requests == old(bucket.requests)
    ensures outcome == Failed(ListingEmpty) <==> forall k :: k in old(bucket.objects) ==> !(SourcePrefix <= k)
    ensures outcome == NoCsv <==> listing != [] && FirstCsv(listing).None?
    ensures FirstCsv(listing).Some? ==>
      var k := FirstCsv(listing).value;
      var body := old(bucket.objects)[k];
      (outcome == Failed(Unreadable) <==> codec.readRaw(body).None?)
      && (codec.readRaw(body).Some? ==>
        var rows := codec.readRaw(body).value;
        var result := CleanAndTransform(rows, k, dumpDate);
        (result.Err? ==> outcome == Failed(PriceUnreadable(result.error)))
        && (result.Ok? ==>
          (outcome == Failed(NoRawMarker) <==> TransformedKey(k).None?)
          && (TransformedKey(k).Some? ==>
            outcome == Transformed(k)
            && bucket.objects == AfterRun(old(bucket.objects), codec, k, rows, result.value)
            && bucket.requests == old(bucket.requests)
                 + UploadRequests(k, codec.writeClean(result.value), codec.writeRaw(rows)))))
  {
    var keys := bucket.List(SourcePrefix);
    listing := keys;
    var search := FindCsvKey(keys);
    match search
    case NoContents =>
      return Failed(ListingEmpty), listing;
    case NoCsvFile =>
      assert keys[0] in keys;
      return NoCsv, listing;
    case Found(fileKey) =>
      var body := bucket.Get(fileKey).value;
      var rows := codec.readRaw(body);
      if rows.None? {
        return Failed(Unreadable), listing;
      }
      var clean := CleanAndTransform(rows.value, fileKey, dumpDate);
      if clean.Err? {
        return Failed(PriceUnreadable(clean.error)), listing;
      }
      var failed := UploadToS3(bucket, codec, fileKey, clean.value, rows.value);
      if failed {
        return Failed(NoRawMarker), listing;
      }
      return Transformed(fileKey), listing;
  }
}
