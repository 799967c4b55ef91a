/**
 * The keys the transformation stage reads, writes and deletes, and the calls its upload
 * makes, with what a failure between two of them leaves behind.
 */
module TransformKeys {
  import opened Wrappers
  import opened Text
  import opened ObjectStore

  const SourcePrefix := "raw_data/to_process/"
  const ArchivePrefix := "raw_data/archive/processed_"
  const TransformedPrefix := "transformed_data/to_process/transformed_"
  const RawMarker := "raw_"

  // ---------------------------------------------------------------- the three keys

  /** Where the raw table is archived: the file's name, behind `processed_`, in the archive folder. */
  function RawArchiveKey(fileKey: string): string {
    ArchivePrefix + Basename(fileKey)
  }

  /** Which key is deleted once the raw file is archived: the file's name in the source folder. */
  function RawToProcessKey(fileKey: string): string {
    SourcePrefix + Basename(fileKey)
  }

  /**
   * Where the cleaned table goes: the text of the file name between its first and second
   * `raw_`, behind `transformed_`; None where the name has no `raw_` and Python raises
   * IndexError.
   */
  function TransformedKey(fileKey: string): Option<string> {
    match SecondField(Basename(fileKey), RawMarker)
    case None => None
    case Some(rest) => Some(TransformedPrefix + rest)
  }

  /** The cleaned table has a key exactly when the file name contains `raw_`; the key then
      ends in text without `raw_` that is taken from the file name. */
  lemma TransformedKeyDefined(fileKey: string)
    ensures TransformedKey(fileKey).None? <==> !Contains(Basename(fileKey), RawMarker)
    ensures TransformedKey(fileKey).Some? ==>
      var k := TransformedKey(fileKey).value;
      TransformedPrefix <= k && !Contains(k[|TransformedPrefix|..], RawMarker)
      && forall c :: c in k[|TransformedPrefix|..] ==> c in Basename(fileKey)
  {
  }

  /** Each key lies directly in its folder: no `/` after the folder's prefix. */
  lemma KeysInFolders(fileKey: string)
    ensures var ak := RawArchiveKey(fileKey);
      ArchivePrefix <= ak && '/' !in ak[|ArchivePrefix|..]
    ensures var pk := RawToProcessKey(fileKey);
      SourcePrefix <= pk && '/' !in pk[|SourcePrefix|..]
    ensures TransformedKey(fileKey).Some? ==>
      var tk := TransformedKey(fileKey).value;
      TransformedPrefix <= tk && '/' !in tk[|TransformedPrefix|..]
  {
    var base := Basename(fileKey);
    assert RawArchiveKey(fileKey)[|ArchivePrefix|..] == base;
    assert RawToProcessKey(fileKey)[|SourcePrefix|..] == base;
    var rest := SecondField(base, RawMarker);
    if rest.Some? {
      assert TransformedKey(fileKey).value[|TransformedPrefix|..] == rest.value;
    }
  }

  /** The three keys are different objects, so no call of the upload undoes another. */
  lemma KeysDistinct(fileKey: string)
    ensures RawArchiveKey(fileKey) != RawToProcessKey(fileKey)
    ensures TransformedKey(fileKey).Some? ==>
      TransformedKey(fileKey).value != RawArchiveKey(fileKey)
      && TransformedKey(fileKey).value != RawToProcessKey(fileKey)
  {
    KeysInFolders(fileKey);
    var tk := TransformedKey(fileKey);
    FoldersDiffer(RawArchiveKey(fileKey), RawToProcessKey(fileKey), if tk.Some? then tk.value else TransformedPrefix);
  }

  /** Keys in the three folders never coincide. */
  lemma FoldersDiffer(ak: string, pk: string, tk: string)
    requires ArchivePrefix <= ak && SourcePrefix <= pk && TransformedPrefix <= tk
    ensures ak != pk && tk != ak && tk != pk
  {
    assert ak[9] == ArchivePrefix[9] == 'a';
    assert pk[9] == SourcePrefix[9] == 't';
    assert tk[0] == TransformedPrefix[0] == 't';
    assert ak[0] == ArchivePrefix[0] == 'r';
    assert pk[0] == SourcePrefix[0] == 'r';
  }

  /** The delete removes the very file that was read, when it sits directly in the folder. */
  lemma DeletesItsInput(name: string)
    requires '/' !in name
    ensures RawToProcessKey(SourcePrefix + name) == SourcePrefix + name
  {
    BasenameUnder(SourcePrefix, name);
  }

  /**
   * The listing also returns raw files in sub-folders, but the delete names the file directly
   * in the folder: such a file is archived yet never removed, and each later run finds it again.
   */
  lemma NestedRawFileNotConsumed(dir: string, name: string)
    requires dir != [] && dir[|dir| - 1] == '/' && '/' !in name
    ensures RawToProcessKey(SourcePrefix + dir + name) != SourcePrefix + dir + name
  {
    var fileKey := SourcePrefix + dir + name;
    assert (SourcePrefix + dir)[|SourcePrefix + dir| - 1] == '/';
    BasenameUnder(SourcePrefix + dir, name);
    assert |RawToProcessKey(fileKey)| < |fileKey|;
  }

  /** The layout for the usual file name `raw_<stamp>.csv`. */
  lemma KeyLayout(stamp: string)
    requires '/' !in stamp && !Contains(stamp, RawMarker)
    ensures TransformedKey(SourcePrefix + RawMarker + stamp) == Some(TransformedPrefix + stamp)
    ensures RawArchiveKey(SourcePrefix + RawMarker + stamp) == ArchivePrefix + RawMarker + stamp
    ensures RawToProcessKey(SourcePrefix + RawMarker + stamp) == SourcePrefix + RawMarker + stamp
  {
    var name := RawMarker + stamp;
    assert '/' !in name by {
      assert forall c :: c in name ==> c in RawMarker || c in stamp;
    }
    assert SourcePrefix + RawMarker + stamp == SourcePrefix + name;
    BasenameUnder(SourcePrefix, name);
    SecondFieldLeading(RawMarker, stamp);
  }

  // ---------------------------------------------------------------- upload_to_s3

  /** The calls of one upload, in the source's order. */
  function UploadRequests(fileKey: string, cleanBody: string, rawBody: string): seq<Request>
    requires TransformedKey(fileKey).Some?
  {
    [PutObject(TransformedKey(fileKey).value, cleanBody),
     PutObject(RawArchiveKey(fileKey), rawBody),
     DeleteObject(RawToProcessKey(fileKey))]
  }

  /**
   * A failure between any two calls loses nothing: after every prefix of the upload the raw
   * file is still in place or its archive has been written, and the raw file is gone only
   * once the cleaned file is in place.
   */
  lemma UploadIsCrashSafe(objects: map<string, string>, fileKey: string, cleanBody: string, rawBody: string, n: nat)
    requires TransformedKey(fileKey).Some? && n <= 3
    requires RawToProcessKey(fileKey) in objects
    ensures var m := Replay(objects, UploadRequests(fileKey, cleanBody, rawBody)[..n]);
      var pk := RawToProcessKey(fileKey);
      var ak := RawArchiveKey(fileKey);
      ((pk in m && m[pk] == objects[pk]) || (ak in m && m[ak] == rawBody))
      && (pk !in m ==> TransformedKey(fileKey).value in m && m[TransformedKey(fileKey).value] == cleanBody)
  {
    KeysDistinct(fileKey);
    MoveIsCrashSafe(objects, TransformedKey(fileKey).value, cleanBody, RawArchiveKey(fileKey), rawBody,
                    RawToProcessKey(fileKey), n);
  }

  lemma MoveIsCrashSafe(objects: map<string, string>, tk: string, cleanBody: string, ak: string, rawBody: string,
                        pk: string, n: nat)
    requires tk != ak && tk != pk && ak != pk && n <= 3 && pk in objects
    ensures var m := Replay(objects, [PutObject(tk, cleanBody), PutObject(ak, rawBody), DeleteObject(pk)][..n]);
      ((pk in m && m[pk] == objects[pk]) || (ak in m && m[ak] == rawBody))
      && (pk !in m ==> tk in m && m[tk] == cleanBody)
  {
    var qs := [PutObject(tk, cleanBody), PutObject(ak, rawBody), DeleteObject(pk)];
    var m1 := Apply(objects, qs[0]);
    var m2 := Apply(m1, qs[1]);
    var m3 := Apply(m2, qs[2]);
    if n == 0 {
      assert qs[..0] == [];
    } else if n == 1 {
      assert qs[..1] == [qs[0]] && [qs[0]][1..] == [];
      assert Replay(objects, qs[..1]) == Replay(m1, []);
    } else if n == 2 {
      assert qs[..2] == [qs[0], qs[1]];
      assert [qs[0], qs[1]][1..] == [qs[1]] && [qs[1]][1..] == [];
      assert Replay(m1, [qs[1]]) == Replay(m2, []);
      assert Replay(objects, qs[..2]) == Replay(m2, []);
    } else {
      assert qs[..3] == qs;
      assert qs[1..] == [qs[1], qs[2]] && qs[1..][1..] == [qs[2]] && [qs[2]][1..] == [];
      assert Replay(m2, [qs[2]]) == Replay(m3, []);
      assert Replay(objects, qs) == Replay(m3, []);
    }
  }
}
