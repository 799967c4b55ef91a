/**
 * The object store the pipeline's stages hand files over through: a bucket of text objects
 * under string keys, the three S3 calls the stages make on it, and the search for the first
 * `.csv` key under a folder prefix that both stages start with.
 */
module ObjectStore {
  import opened Wrappers
  import opened Text

  /** The calls that change a bucket, in the order they were made. */
  datatype Request = PutObject(key: string, body: string) | DeleteObject(key: string)

  /** The effect of one call: a put creates or overwrites the key, a delete removes it
      (and is a no-op on a missing key, as S3's is). */
  function Apply(objects: map<string, string>, q: Request): (r: map<string, string>)
    ensures q.PutObject? ==> q.key in r && r[q.key] == q.body
    ensures q.DeleteObject? ==> q.key !in r
    ensures forall k :: k != q.key ==> (k in r <==> k in objects) && (k in r ==> r[k] == objects[k])
  {
    match q
    case PutObject(k, b) => objects[k := b]
    case DeleteObject(k) => objects - {k}
  }

  /** The bucket after a series of calls. */
  function Replay(objects: map<string, string>, qs: seq<Request>): map<string, string>
    decreases |qs|
  {
    if qs == [] then objects else Replay(Apply(objects, qs[0]), qs[1..])
  }

  /** Calls that never name a key leave it as it was. */
  lemma {:induction false} ReplayOtherKey(objects: map<string, string>, qs: seq<Request>, k: string)
    requires forall i :: 0 <= i < |qs| ==> qs[i].key != k
    ensures (k in Replay(objects, qs) <==> k in objects)
    ensures k in objects ==> Replay(objects, qs)[k] == objects[k]
    decreases |qs|
  {
    if qs != [] {
      ReplayOtherKey(Apply(objects, qs[0]), qs[1..], k);
    }
  }

  /** Two requests logged one after another are the two in order. */
  lemma LogOfTwo(log: seq<Request>, a: Request, b: Request)
    ensures log + [a] + [b] == log + [a, b]
  {
  }

  /** Three requests logged one after another are the three in order. */
  lemma LogOfThree(log: seq<Request>, a: Request, b: Request, c: Request)
    ensures log + [a] + [b] + [c] == log + [a, b, c]
  {
  }

  /** A bucket, with the history of the calls made on it. */
  class Bucket {
    var objects: map<string, string>
    ghost var requests: seq<Request>

    constructor(objects0: map<string, string>)
      ensures objects == objects0 && requests == []
    {
      objects := objects0;
      requests := [];
    }

    /** `put_object`. */
    method Put(key: string, body: string)
      modifies this
      ensures objects == old(objects)[key := body]
      ensures requests == old(requests) + [PutObject(key, body)]
    {
      objects := objects[key := body];
      requests := requests + [PutObject(key, body)];
    }

    /** `delete_object`. */
    method Delete(key: string)
      modifies this
      ensures objects == old(objects) - {key}
      ensures requests == old(requests) + [DeleteObject(key)]
    {
      objects := objects - {key};
      requests := requests + [DeleteObject(key)];
    }

    /** `get_object`; None where S3 answers NoSuchKey. */
    function Get(key: string): (r: Option<string>)
      reads this
      ensures r.Some? <==> key in objects
      ensures r.Some? ==> r.value == objects[key]
    {
      if key in objects then Some(objects[key]) else None
    }

    /** `list_objects` with a prefix: every key that starts with it, each once. */
    method List(prefix: string) returns (keys: seq<string>)
      ensures forall k :: k in keys <==> k in objects && prefix <= k
      ensures forall i, j :: 0 <= i < j < |keys| ==> keys[i] != keys[j]
    {
      var remaining := set k | k in objects && prefix <= k;
      keys := [];
      while remaining != {}
        invariant forall k :: k in keys || k in remaining <==> k in objects && prefix <= k
        invariant forall k :: k in keys ==> k !in remaining
        invariant forall i, j :: 0 <= i < j < |keys| ==> keys[i] != keys[j]
        decreases |remaining|
      {
        var k :| k in remaining;
        keys := keys + [k];
        remaining := remaining - {k};
      }
    }
  }

  // ---------------------------------------------------------------- get_s3_file_key

  /** What the search for a file finds: a key, no `.csv` key at all, or an empty listing,
      in which S3's answer has no `Contents` and the lookup raises KeyError. */
  datatype Search = Found(key: string) | NoCsvFile | NoContents

  predicate IsCsv(key: string) {
    EndsWith(key, ".csv")
  }

  /** The first `.csv` key of a listing. */
  function FirstCsv(listing: seq<string>): (r: Option<string>)
    ensures r.Some? ==> r.value in listing && IsCsv(r.value)
  {
    if listing == [] then None
    else if IsCsv(listing[0]) then Some(listing[0])
    else FirstCsv(listing[1..])
  }

  /** FirstCsv finds the earliest `.csv` key and None only when there is none. */
  lemma {:induction false} FirstCsvSpec(listing: seq<string>)
    ensures FirstCsv(listing).None? <==> forall k :: k in listing ==> !IsCsv(k)
    ensures FirstCsv(listing).Some? ==>
      exists i :: 0 <= i < |listing| && listing[i] == FirstCsv(listing).value && IsCsv(listing[i])
        && forall j :: 0 <= j < i ==> !IsCsv(listing[j])
  {
    if listing != [] && !IsCsv(listing[0]) {
      FirstCsvSpec(listing[1..]);
      assert forall k :: k in listing ==> k == listing[0] || k in listing[1..];
      if FirstCsv(listing).Some? {
        var i :| 0 <= i < |listing[1..]| && listing[1..][i] == FirstCsv(listing).value && IsCsv(listing[1..][i])
          && forall j :: 0 <= j < i ==> !IsCsv(listing[1..][j]);
        assert listing[i + 1] == listing[1..][i];
        forall j | 0 <= j < i + 1 ensures !IsCsv(listing[j]) {
          if j > 0 { assert listing[j] == listing[1..][j - 1]; }
        }
      }
    }
  }

  /** `get_s3_file_key` over the keys of a listing, in the listing's order. */
  method FindCsvKey(listing: seq<string>) returns (r: Search)
    ensures r == NoContents <==> listing == []
    ensures r.Found? ==>
      exists i :: 0 <= i < |listing| && listing[i] == r.key && IsCsv(r.key)
        && forall j :: 0 <= j < i ==> !IsCsv(listing[j])
    ensures r == NoCsvFile <==> listing != [] && forall k :: k in listing ==> !IsCsv(k)
    ensures listing != [] ==> r == (if FirstCsv(listing).Some? then Found(FirstCsv(listing).value) else NoCsvFile)
  {
    if listing == [] {
      return NoContents;
    }
    FirstCsvSpec(listing);
    var i := 0;
    while i < |listing|
      invariant 0 <= i <= |listing|
      invariant forall j :: 0 <= j < i ==> !IsCsv(listing[j])
      invariant FirstCsv(listing) == FirstCsv(listing[i..])
    {
      if IsCsv(listing[i]) {
        return Found(listing[i]);
      }
      assert listing[i..][1..] == listing[i + 1..];
      i := i + 1;
    }
    return NoCsvFile;
  }
}
