/**
 * The tab-separated files the stages exchange. pandas' `read_csv(sep='\t')` and
 * `to_csv(index=False, sep='\t')` are not modelled character by character: a run is given
 * them as functions, and a reader that can fail says so with None.
 */
module Tsv {
  import opened Wrappers
  import opened Cleaning

  datatype Codec = Codec(
    readRaw: string -> Option<seq<RawRecord>>,
    writeRaw: seq<RawRecord> -> string,
    readClean: string -> Option<seq<CleanRecord>>,
    writeClean: seq<CleanRecord> -> string)

  /** A codec whose reader gives back every table its writer wrote. */
  ghost predicate RoundTrips(codec: Codec) {
    forall rows :: codec.readClean(codec.writeClean(rows)) == Some(rows)
  }
}
