/**
 * The loading stage: find a cleaned file under `transformed_data/to_process/`, append its
 * rows to the `properties_data` table, then archive the table under
 * `transformed_data/archive/` and delete the file.
 */
module LoadDb {
  import opened Wrappers
  import opened Text
  import opened ObjectStore
  import opened Cleaning
  import opened Tsv
  import TransformKeys
  import Transform

  const SourcePrefix := "transformed_data/to_process/"
  const ArchivePrefix := "transformed_data/archive/"

  // ---------------------------------------------------------------- the two keys

  /** Where the loaded table is archived: the file's name in the archive folder. */
  function ArchiveKey(fileKey: string): string {
    ArchivePrefix + Basename(fileKey)
  }

  /** Which key is deleted after archiving: the file's name in the source folder. */
  function ConsumedKey(fileKey: string): string {
    SourcePrefix + Basename(fileKey)
  }

  /** The archive never overwrites the file it replaces, and both lie directly in their folders. */
  lemma ArchiveKeyDiffers(fileKey: string)
    ensures ArchiveKey(fileKey) != ConsumedKey(fileKey)
    ensures ArchivePrefix <= ArchiveKey(fileKey) && '/' !in ArchiveKey(fileKey)[|ArchivePrefix|..]
    ensures SourcePrefix <= ConsumedKey(fileKey) && '/' !in ConsumedKey(fileKey)[|SourcePrefix|..]
  {
    assert ArchiveKey(fileKey)[|ArchivePrefix|..] == Basename(fileKey);
    assert ConsumedKey(fileKey)[|SourcePrefix|..] == Basename(fileKey);
    FoldersDiffer(ArchiveKey(fileKey), ConsumedKey(fileKey));
  }

  lemma FoldersDiffer(ak: string, ck: string)
    requires ArchivePrefix <= ak && SourcePrefix <= ck
    ensures ak != ck
  {
    assert ak[17] == ArchivePrefix[17] == 'a';
    assert ck[17] == SourcePrefix[17] == 't';
  }

  /** The delete removes the very file that was loaded, when it sits directly in the folder. */
  lemma ConsumesItsInput(name: string)
    requires '/' !in name
    ensures ConsumedKey(SourcePrefix + name) == SourcePrefix + name
  {
    BasenameUnder(SourcePrefix, name);
  }

  /**
   * The listing also returns files in sub-folders, but the delete names the file directly in
   * the folder: such a file is never removed, and each later run finds it again.
   */
  lemma NestedFileNotConsumed(dir: string, name: string)
    requires dir != [] && dir[|dir| - 1] == '/' && '/' !in name
    ensures ConsumedKey(SourcePrefix + dir + name) != SourcePrefix + dir + name
  {
    var fileKey := SourcePrefix + dir + name;
    assert (SourcePrefix + dir)[|SourcePrefix + dir| - 1] == '/';
    BasenameUnder(SourcePrefix + dir, name);
    assert |ConsumedKey(fileKey)| < |fileKey|;
  }

  /** The file the transformation stage writes is one this stage consumes in full. */
  lemma HandoffIsConsumed(rawKey: string)
    requires TransformKeys.TransformedKey(rawKey).Some?
    ensures var k := TransformKeys.TransformedKey(rawKey).value;
      SourcePrefix <= k && ConsumedKey(k) == k
  {
    TransformKeys.KeysInFolders(rawKey);
    TransformedFileIsConsumed(TransformKeys.TransformedKey(rawKey).value);
  }

  lemma TransformedFileIsConsumed(k: string)
    requires TransformKeys.TransformedPrefix <= k && '/' !in k[|TransformKeys.TransformedPrefix|..]
    ensures SourcePrefix <= k && ConsumedKey(k) == k
  {
    var name := k[|SourcePrefix|..];
    var tail := k[|TransformKeys.TransformedPrefix|..];
    assert name == "transformed_" + tail;
    assert '/' !in name by {
      assert forall c :: c in name ==> c in "transformed_" || c in tail;
    }
    assert k == SourcePrefix + name;
    BasenameUnder(SourcePrefix, name);
  }

  /**
   * What a transformation run leaves for this stage: the cleaned file sits under this stage's
   * folder, is consumed in full, and, with a codec whose reader inverts its writer, reads back
   * as exactly the cleaned rows.
   */
  lemma HandoffReadsBack(objects: map<string, string>, codec: Codec, rawKey: string, rows: seq<RawRecord>,
                         clean: seq<CleanRecord>)
    requires TransformKeys.TransformedKey(rawKey).Some? && RoundTrips(codec)
    ensures var k := TransformKeys.TransformedKey(rawKey).value;
      var m := Transform.AfterRun(objects, codec, rawKey, rows, clean);
      k in m && SourcePrefix <= k && ConsumedKey(k) == k && codec.readClean(m[k]) == Some(clean)
  {
    TransformKeys.KeysDistinct(rawKey);
    HandoffIsConsumed(rawKey);
  }

  /** The calls of one archive step, in the source's order. */
  function ArchiveRequests(fileKey: string, body: string): seq<Request> {
    [PutObject(ArchiveKey(fileKey), body), DeleteObject(ConsumedKey(fileKey))]
  }

  /**
   * A failure between the two calls loses nothing: before the put the bucket is as it was,
   * between them both copies exist, and after the delete the archive holds the table.
   */
  lemma ArchiveIsCrashSafe(objects: map<string, string>, fileKey: string, body: string, n: nat)
    requires n <= 2 && ConsumedKey(fileKey) in objects
    ensures var m := Replay(objects, ArchiveRequests(fileKey, body)[..n]);
      var ck := ConsumedKey(fileKey);
      var ak := ArchiveKey(fileKey);
      (n == 0 ==> m == objects)
      && (n == 1 ==> ck in m && m[ck] == objects[ck] && ak in m && m[ak] == body)
      && (n == 2 ==> ck !in m && ak in m && m[ak] == body)
  {
    ArchiveKeyDiffers(fileKey);
    var qs := ArchiveRequests(fileKey, body);
    var m1 := Apply(objects, qs[0]);
    var m2 := Apply(m1, qs[1]);
    if n == 0 {
      assert qs[..0] == [];
    } else if n == 1 {
      assert qs[..1] == [qs[0]] && [qs[0]][1..] == [];
      assert Replay(objects, qs[..1]) == Replay(m1, []);
    } else {
      assert qs[..2] == qs && qs[1..] == [qs[1]] && [qs[1]][1..] == [];
      assert Replay(m1, [qs[1]]) == Replay(m2, []);
      assert Replay(objects, qs) == Replay(m2, []);
    }
  }

  // ---------------------------------------------------------------- the database

  /**
   * The `properties_data` table, reached through a connection that works or does not.
   * `send_data_to_db` appends a whole table inside one transaction, or raises and adds nothing.
   */
  class Database {
    var rows: seq<CleanRecord>
    var reachable: bool

    constructor(rows0: seq<CleanRecord>, reachable0: bool)
      ensures rows == rows0 && reachable == reachable0
    {
      rows := rows0;
      reachable := reachable0;
    }

    /** `send_data_to_db`: `to_sql(..., if_exists='append')`. */
    method Append(batch: seq<CleanRecord>) returns (ok: bool)
      modifies this
      ensures ok == old(reachable) && reachable == old(reachable)
      ensures rows == if ok then old(rows) + batch else old(rows)
    {
      ok := reachable;
      if ok {
        rows := rows + batch;
      }
    }
  }

  // ---------------------------------------------------------------- archive_data and db_load

  /** `archive_data`: writes the loaded table to the archive folder and deletes the source file. */
  method ArchiveData(bucket: Bucket, codec: Codec, fileKey: string, data: seq<CleanRecord>)
    modifies bucket
    ensures bucket.objects == old(bucket.objects)[ArchiveKey(fileKey) := codec.writeClean(data)] - {ConsumedKey(fileKey)}
    ensures bucket.requests == old(bucket.requests) + ArchiveRequests(fileKey, codec.writeClean(data))
  {
    var archiveKey := ArchiveKey(fileKey);
    var transformedKey := ConsumedKey(fileKey);
    var body := codec.writeClean(data);
    ghost var before := bucket.requests;
    bucket.Put(archiveKey, body);
    bucket.Delete(transformedKey);
    LogOfTwo(before, PutObject(archiveKey, body), DeleteObject(transformedKey));
  }

  datatype Failure =
    | ListingEmpty     // the listing has no `Contents`: KeyError
    | Unreadable       // `read_csv` rejects the file
    | DbUnavailable    // the connection or the insert raises

  datatype Outcome = Loaded(fileKey: string) | NoFile | Failed(failure: Failure)

  /**
   * `db_load()`: one run of the stage. `listing` is the answer of the bucket's listing, in the
   * order it came; the run works on its first `.csv` key. The file is archived and deleted only
   * after its rows are in the table; a run that does not load leaves both the bucket and the
   * table as they were.
   */
  method DbLoad(bucket: Bucket, db: Database, codec: Codec) returns (outcome: Outcome, ghost listing: seq<string>)
    modifies bucket, db
    ensures forall k :: k in listing <==> k in old(bucket.objects) && SourcePrefix <= k
    ensures forall i, j :: 0 <= i < j < |listing| ==> listing[i] != listing[j]
    ensures db.reachable == old(db.reachable)
    ensures !outcome.Loaded? ==>
      bucket.objects == old(bucket.objects) && bucket.requests == old(bucket.requests) && db.rows == old(db.rows)
    ensures outcome == Failed(ListingEmpty) <==> forall k :: k in old(bucket.objects) ==> !(SourcePrefix <= k)
    ensures outcome == NoFile <==> listing != [] && FirstCsv(listing).None?
    ensures FirstCsv(listing).Some? ==>
      var k := FirstCsv(listing).value;
      var body := old(bucket.objects)[k];
      (outcome == Failed(Unreadable) <==> codec.readClean(body).None?)
      && (codec.readClean(body).Some? ==>
        var data := codec.readClean(body).value;
        (outcome == Failed(DbUnavailable) <==> !old(db.reachable))
        && (old(db.reachable) ==>
          outcome == Loaded(k)
          && db.rows == old(db.rows) + data
          && bucket.objects == old(bucket.objects)[ArchiveKey(k) := codec.writeClean(data)] - {ConsumedKey(k)}
          && bucket.requests == old(bucket.requests) + ArchiveRequests(k, codec.writeClean(data))))
  {
    var keys := bucket.List(SourcePrefix);
    listing := keys;
    var search := FindCsvKey(keys);
    match search
    case NoContents =>
      return Failed(ListingEmpty), listing;
    case NoCsvFile =>
      assert keys[0] in keys;
      return NoFile, listing;
    case Found(fileKey) =>
      var body := bucket.Get(fileKey).value;
      var data := codec.readClean(body);
      if data.None? {
        return Failed(Unreadable), listing;
      }
      var sent := db.Append(data.value);
      if !sent {
        return Failed(DbUnavailable), listing;
      }
      ArchiveData(bucket, codec, fileKey, data.value);
      return Loaded(fileKey), listing;
  }
}
