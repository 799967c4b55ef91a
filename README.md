# Property-listing ETL: cleaning and stage hand-off, in Dafny

The system scrapes Czech real-estate listings into tab-separated files and moves them through
an S3 bucket in three stages: extract, transform, then load into a PostgreSQL table. This
project models the two stages that do more than I/O and proves what they guarantee.

- **The transformation stage** (`scripts/transform.py`). It finds a raw `.csv` file under
  `raw_data/to_process/` and cleans its rows with `clean_and_transform_data`. It then writes
  the cleaned table under `transformed_data/to_process/`, archives the raw table under
  `raw_data/archive/` and deletes the raw file.
- **The loading stage** (`scripts/load_db.py`). It finds a cleaned file under
  `transformed_data/to_process/` and appends its rows to `properties_data`. Only after that
  does it archive the file under `transformed_data/archive/` and delete it.

The modules follow the program's structure:

| module | file | what it holds |
|---|---|---|
| `Wrappers` | wrappers.dfy | `Option` and `Result` |
| `Text` | text.dfy | the Python string operations the code calls: `in`, `split`, `join`, `rstrip`, `replace`, `lower`, `endswith`, `split('/')[-1]`, digit extraction |
| `Seqs` | seqs.dfy | `Map`, `Filter` and `FilterMap` over sequences, and the subsequence order |
| `Cleaning` | cleaning.dfy | `clean_and_transform_data` |
| `ObjectStore` | store.dfy | the bucket and `get_s3_file_key` |
| `Tsv` | tsv.dfy | the table serializer, given to a run as functions |
| `TransformKeys` | transform_keys.dfy | the keys `upload_to_s3` derives, and its call sequence |
| `Transform` | transform.dfy | `upload_to_s3` and `transformation()` |
| `LoadDb` | load_db.dfy | the archive keys, `archive_data`, the database and `db_load()` |

**Cleaning.** Each of the ten whole-column steps is a function over a sequence of rows. A step
that converts a column changes the row type: `RawRecord`, then `PricedRecord`, `SizedRecord`,
`LocatedRecord`, `RatedRecord` and finally `CleanRecord`, whose fields are in the output
column order. The source drops rows with `drop(df[mask].index)`. Index labels are unique at
that point, so this is a filter that keeps order.

The whole pipeline, `CleanAndTransform`, is checked against a row-at-a-time reference,
`CleanOne`. The lemma `CleanAndTransformRowwise` proves that the output is `CleanOne` applied
to every de-duplicated row, keeping the rows it does not drop, in their order. The other
pipeline-wide facts follow from this: soundness of every row, sources in input order, when the
run fails, and distinct links.

**Stores and stages.** The bucket is a class whose `objects` map changes in place. A ghost
log records the calls made on it. `Replay` of a log gives the crash-safety lemmas: a failure
between any two calls of an upload or an archive step loses no data. The database is a class
whose `Append` adds a whole batch or, when the connection fails, nothing.

**Links can repeat.** `drop_duplicates(subset=['link'])` (`scripts/transform.py:62`,
commented "drop duplicates based on the same link") is meant to leave one row per link. The
no-break-space replacement at line 63 runs after it, so two links that differ only in a
no-break space against a plain space both survive de-duplication and are then equal. One row
per link therefore holds only when no raw link contains a no-break space.
`CleanAndTransformLinksDistinct` proves it under that proviso, and `NbspLinksCollide` shows two
links that survive de-duplication and then become equal. The model follows the code.

## Model

| member | source | states |
|---|---|---|
| Cleaning.CleanAndTransform | scripts/transform.py:24-120 | the ten steps in order, with step 4's error as the run's error; its properties are the lemmas named `CleanAndTransform...` below |
| Cleaning.CleanOne | scripts/transform.py:62-112 | one de-duplicated row through steps 2 to 10: its cleaned form, or None when a filter drops it; `CleanOneSound` states what a kept row satisfies |
| Cleaning.DropDuplicateLinks | scripts/transform.py:62 | every kept row is an input row, no two kept rows share a link, and every input link is kept |
| Cleaning.DropDuplicateLinksKeepsFirst | scripts/transform.py:62 | the row kept for a link is the first input row carrying it |
| Cleaning.DropDuplicateLinksIsSubsequence | scripts/transform.py:62 | the kept rows are in their input order |
| Cleaning.DropDuplicateLinksIdempotent | scripts/transform.py:62 | de-duplicating again changes nothing |
| Cleaning.NormalizeRecordSpec | scripts/transform.py:63 | no text cell of a row keeps a no-break space, and a row without one is unchanged |
| Cleaning.ReplaceNbspInRows | scripts/transform.py:63 | same number of rows, in order, each normalised and free of no-break spaces |
| Cleaning.DropEuroPrices | scripts/transform.py:66 | a row survives exactly when it is an input row whose price text has no `EUR` |
| Cleaning.ParsePrice | scripts/transform.py:67-68 | the number spelled by the digits left after removing `Kc`, or None where `int('')` raises; see `PriceDigitsAreDigits` and `ParsePriceRoundTrip` |
| Cleaning.PriceDigitsAreDigits | scripts/transform.py:67-68 | removing `Kc` never removes a digit, so the price is read from every digit of its text |
| Cleaning.ParsePriceRoundTrip | scripts/transform.py:67-68 | the text of a number followed by ` Kc` parses back to that number |
| Cleaning.ParsePrices | scripts/transform.py:68 | succeeds exactly when every price text has a digit; on success, each row's price is the number those digits spell; on failure, the error names the first text without a digit |
| Cleaning.DropWrongPrices | scripts/transform.py:71-73 | a row survives exactly when its price is at least 500, above 1000 for a rent keyword and above 20000 for a sale keyword |
| Cleaning.DropWrongPricesIsOneFilter | scripts/transform.py:71-73 | the three drops in sequence are a single filter on all three rules, so order is kept |
| Cleaning.RentPriceExamples | scripts/transform.py:72 | a rental office at 900 is dropped; one at 1001 is kept |
| Cleaning.SalePriceExamples | scripts/transform.py:73 | a flat for sale at 15000 is dropped; one at 25000 is kept |
| Cleaning.ParseNumber | scripts/transform.py:77-78 | an optional sign, digits and an optional fraction, truncated toward zero; None for anything else; see `ParseNumberShow` |
| Cleaning.ParseSize | scripts/transform.py:76-78 | `m2` removed, then parsed, with a missing or unparsable size giving 0; see the `ParseSize...` lemmas |
| Cleaning.ParseSizeRoundTrip | scripts/transform.py:76-78 | the text of a number followed by ` m2` parses back to that number |
| Cleaning.ParseSizeFraction | scripts/transform.py:77-78 | `75.5 m2` gives 75: the fraction is truncated |
| Cleaning.ParseSizeNotANumber | scripts/transform.py:77-78 | a missing size and the digit-grouped `1 200 m2` both give 0 |
| Cleaning.ParseNumberShow | scripts/transform.py:77 | the decimal digits of a number parse as that number |
| Cleaning.ParseSizes | scripts/transform.py:76-78 | same number of rows, in order, each with its size parsed |
| Cleaning.SplitAddress | scripts/transform.py:81-91 | a `kraj` address goes through `PlaceWords` on its words, any other address keeps its text with region Praha; see the `SplitAddress...` lemmas |
| Cleaning.PlaceWords | scripts/transform.py:83-91 | the region is the last two words joined by a space with trailing commas stripped (`''` for fewer than two words), the address the words before them, joined and stripped the same way |
| Cleaning.SplitAddressShort | scripts/transform.py:83-87 | an address that names a region but has fewer than two words gets the empty region, which is not one of the fourteen |
| Cleaning.SplitAddressDefault | scripts/transform.py:90-91 | an address without `kraj` keeps its text and gets the region Praha |
| Cleaning.SplitAddressKeepsWords | scripts/transform.py:81-91 | for a comma-free address naming a region, the new address has the words before the last two and the region has the last two |
| Cleaning.SplitAddressOfWords | scripts/transform.py:81-91 | an address built from words ending in a two-word region splits into that region and the earlier words with trailing commas stripped |
| Cleaning.SplitAddressRegionExample | scripts/transform.py:81-91 | `Nejedleho 123, Stredocesky kraj` gives region `Stredocesky kraj` and address `Nejedleho 123` |
| Cleaning.SplitAddressPragueExample | scripts/transform.py:90-91 | `Korunni 45, Praha 2` names no region: it stays whole in Praha |
| Cleaning.NamesRegionAt | scripts/transform.py:90 | an address containing lower-case `kraj` takes the region branch |
| Cleaning.SplitRegions | scripts/transform.py:90-91 | same number of rows, in order, each with its region split off |
| Cleaning.DropUnknownRegions | scripts/transform.py:92 | a row survives exactly when its region is one of the fourteen |
| Cleaning.CeilDiv | scripts/transform.py:101 | the ceiling of an exact integer quotient; `CeilDivIsCeiling` proves it is one |
| Cleaning.PricePerM2 | scripts/transform.py:96-102 | None for size 0, else the ceiling of price over size with 0 replaced by None; see `PricePerM2Spec` |
| Cleaning.CeilDivIsCeiling | scripts/transform.py:101 | the ceiling division gives the least integer at or above the exact quotient, for either sign of the divisor |
| Cleaning.PricePerM2Spec | scripts/transform.py:96-102 | size 0 gives None; a positive price and size always give a value, which is never 0 and is the rounded-up quotient |
| Cleaning.AddPricePerM2 | scripts/transform.py:96-102 | same number of rows, in order, each with its price per square metre |
| Cleaning.DropLandOutliers | scripts/transform.py:103 | a row survives exactly when it is not a land sale priced above 80000 per square metre |
| Cleaning.StampProvenance | scripts/transform.py:111-112 | same number of rows, in order, each stamped with the run's date and the file's basename |
| Cleaning.CleanOneSound | scripts/transform.py:24-120 | a row that survives has no `EUR` price, the price its digits spell, a plausible price, the parsed size, the split address, a known region, its own price per square metre, no land outlier, and the run's provenance |
| Cleaning.CleanAndTransformRowwise | scripts/transform.py:24-120 | the pipeline's output is the row-by-row cleaning of the de-duplicated rows, in order |
| Cleaning.CleanAndTransformSound | scripts/transform.py:24-120 | every output row has a known region, a plausible price, a consistent price per square metre, no land outlier, the run's provenance and no no-break space |
| Cleaning.CleanAndTransformFails | scripts/transform.py:66-68 | the run fails exactly when a de-duplicated, non-euro row has a price text without a digit |
| Cleaning.PricesFail | scripts/transform.py:66-68 | step 4 fails on the normalised, non-euro rows exactly when one of them has no digit in its price text |
| Cleaning.CleanAndTransformSources | scripts/transform.py:62-103 | the output rows come one each from input rows that form a subsequence of the input |
| Cleaning.CleanAndTransformLinksDistinct | scripts/transform.py:62-63 | when no raw link holds a no-break space, no two output rows share a link |
| Cleaning.NbspLinksCollide | scripts/transform.py:62-63 | two links differing only in a no-break space both survive de-duplication and are equal once normalised |
| Text.SplitDecomposes | scripts/transform.py:82 | the text is its words with runs of space around and between them, the runs between two words non-empty: each word is a maximal run of non-space characters and nothing but spaces is lost |
| Text.Split | scripts/transform.py:82 | every word is a non-empty run of non-space characters |
| Text.SplitJoin | scripts/transform.py:82-84 | splitting words joined by single spaces gives back the words |
| Text.RStrip | scripts/transform.py:85 | the result is a prefix that does not end in the character, and only that character was removed |
| Text.SecondField | scripts/transform.py:124 | None exactly when the separator does not occur; otherwise the field holds no separator and only characters of the text |
| Text.SecondFieldBetween | scripts/transform.py:124 | the field is exactly the text from the end of the first separator to the next separator, or to the end |
| Text.Basename | scripts/transform.py:112 | the result is a suffix of the key, holds no `/`, and is preceded by a `/` when it is not the whole key |
| Text.BasenameUnder | scripts/load_db.py:51 | a name directly under a directory prefix is its own basename |
| Text.Digits | scripts/transform.py:68 | the digits of a text are exactly its digit characters |
| ObjectStore.Apply | scripts/transform.py:131-139 | a put sets its key, a delete removes it, and no other key changes |
| ObjectStore.ReplayOtherKey | scripts/transform.py:131-139 | a series of calls that never names a key leaves it as it was |
| ObjectStore.Bucket.Put | scripts/transform.py:131 | the key holds the body, nothing else changes, and the call is logged |
| ObjectStore.Bucket.Delete | scripts/transform.py:139 | the key is gone, nothing else changes, and the call is logged |
| ObjectStore.Bucket.Get | scripts/transform.py:16 | the stored body, or None for a missing key |
| ObjectStore.Bucket.List | scripts/transform.py:9 | exactly the keys under the prefix, each once |
| ObjectStore.FirstCsv | scripts/transform.py:10-12 | a key the listing holds that ends in `.csv`; `FirstCsvSpec` proves it is the first such key |
| ObjectStore.FirstCsvSpec | scripts/load_db.py:10-15 | the first `.csv` key of the listing, and None only when no key ends in `.csv` |
| ObjectStore.FindCsvKey | scripts/transform.py:8-13 | an empty listing has no contents; otherwise the result is the first key ending in `.csv`, or none when no key does |
| TransformKeys.RawArchiveKey | scripts/transform.py:123 | `raw_data/archive/processed_` followed by the file's basename |
| TransformKeys.RawToProcessKey | scripts/transform.py:125 | `raw_data/to_process/` followed by the file's basename |
| TransformKeys.TransformedKey | scripts/transform.py:124 | `transformed_data/to_process/transformed_` followed by the second `raw_` field of the basename, or None where there is none; see `TransformedKeyDefined` |
| TransformKeys.UploadRequests | scripts/transform.py:131-139 | the put of the cleaned table, the put of the raw archive, then the delete of the raw file |
| TransformKeys.TransformedKeyDefined | scripts/transform.py:124 | the cleaned table has a key exactly when the file name contains `raw_`, and the key's tail holds no `raw_` |
| TransformKeys.KeysInFolders | scripts/transform.py:123-125 | each of the three keys lies directly in its folder |
| TransformKeys.KeysDistinct | scripts/transform.py:123-125 | the three keys are pairwise different |
| TransformKeys.FoldersDiffer | scripts/transform.py:123-125 | keys in the three folders never coincide |
| TransformKeys.DeletesItsInput | scripts/transform.py:125 | the deleted key is the file that was read, when it sits directly in the folder |
| TransformKeys.NestedRawFileNotConsumed | scripts/transform.py:125 | a raw file in a sub-folder of the source folder is archived but never the key deleted, so a later run finds it again |
| TransformKeys.KeyLayout | scripts/transform.py:123-125 | for `raw_<stamp>`, the keys are `transformed_<stamp>`, `processed_raw_<stamp>` and the file itself |
| TransformKeys.UploadIsCrashSafe | scripts/transform.py:131-139 | after any prefix of the three calls, the raw data is still in place or archived, and the raw file is gone only once the cleaned file is written |
| Transform.UploadToS3 | scripts/transform.py:122-139 | a name without `raw_` fails with no call made; otherwise the bucket gets the two puts then the delete, in that order, and nothing else changes |
| Transform.Transformation | scripts/transform.py:141-154 | the run works on the first `.csv` key of the listing it gets. Its outcome is fixed by the case it meets: an empty listing, no `.csv` key, an unreadable file, a price without digits, a name without `raw_`, or a transformed file. Only the last changes the bucket, by exactly the upload's three calls |
| LoadDb.ArchiveKey | scripts/load_db.py:50 | `transformed_data/archive/` followed by the file's basename |
| LoadDb.ConsumedKey | scripts/load_db.py:51 | `transformed_data/to_process/` followed by the file's basename |
| LoadDb.ArchiveRequests | scripts/load_db.py:56-58 | the put of the archive, then the delete of the source file |
| LoadDb.ArchiveKeyDiffers | scripts/load_db.py:50-51 | the archive key and the deleted key differ and each lies directly in its folder |
| LoadDb.ConsumesItsInput | scripts/load_db.py:51 | the deleted key is the loaded file when it sits directly in the folder |
| LoadDb.NestedFileNotConsumed | scripts/load_db.py:51 | a file in a sub-folder of the source folder is never the key deleted |
| LoadDb.TransformedFileIsConsumed | scripts/load_db.py:51 | a key in the transformation stage's output folder is deleted in full by this stage |
| LoadDb.HandoffIsConsumed | scripts/load_db.py:63-65 | the file the transformation writes lies in this stage's source folder and is the key it deletes |
| LoadDb.HandoffReadsBack | scripts/load_db.py:65-69 | after a transformation run, the cleaned file is present under this stage's folder and, with a codec that round-trips, reads back as the cleaned rows |
| LoadDb.ArchiveIsCrashSafe | scripts/load_db.py:56-58 | before the put nothing changed, between the calls both copies exist, and afterwards only the archive remains |
| LoadDb.Database.Append | scripts/load_db.py:32-47 | a reachable database gets the whole batch appended; an unreachable one gets nothing |
| LoadDb.ArchiveData | scripts/load_db.py:49-58 | the archive key holds the table, the source key is gone, nothing else changes, and the put precedes the delete |
| LoadDb.DbLoad | scripts/load_db.py:60-73 | the run works on the first `.csv` key of the listing it gets. Its outcome is fixed by the case it meets: an empty listing, no `.csv` key, an unreadable file, an unreachable database, or a loaded file. Only a loaded file changes anything: its rows are appended, then it is archived and deleted by exactly the two archive calls |

## Left out

- Cleaning.PricePerM2: uses exact integer ceiling division where the source uses floating-point division and `np.ceil`. Very large prices, whose quotients a double cannot hold exactly, may round differently.
- Cleaning.PricePerM2: `replace(0, None)` is modelled as the missing value, as pandas 1.4 and later do when `value=None` is given. Older releases filled in the previous row's value instead.
- Cleaning.ParseNumber: parses only plain decimal notation with surrounding ASCII whitespace. pandas also accepts exponents, `inf` and `nan` spellings, which are not modelled.
- Cleaning.ParseSize: does not model pandas' column type inference. A size column that `read_csv` already read as numbers makes the `.str` accessor raise; the model always sees text.
- Cleaning.DropEuroPrices: does not model pandas' column type inference either. A `price_czk` column that `read_csv` read as numbers makes `.str.contains` (`scripts/transform.py:66`) raise; the model always sees text and accepts it.
- Cleaning.CleanAndTransform: the purpose, address, price and link cells are never missing. A missing price or address makes the source raise, and that path is not modelled.
- Text.IsDigit: ASCII digits only. Python's `str.isdigit` also accepts other Unicode digits.
- Text.ToLower: lower-cases ASCII letters only. Python's `str.lower` also folds other letters, such as the Kelvin sign into `k`.
- Integers are unbounded: int64 overflow of the price and size columns is not modelled.
- `dump_date` (`scripts/transform.py:107-111`): the clock reading is a parameter of the run, because it is nondeterministic.
- `read_csv` and `to_csv`: modelled as the functions of a `Codec` value, not as a character-level format. The column reorder at `scripts/transform.py:115-116` is the field order of `CleanRecord`.
- `fetch_data` and `get_file_data`: modelled inline as a `Get` followed by the codec's reader.
- ObjectStore.Bucket.List: leaves the listing order unspecified. S3 lists keys in lexicographic order and at most 1000 per call; the model lists every key under the prefix in some order.
- Creating the boto3 client, the bucket name `properties-etl`, and the psycopg2/SQLAlchemy connection: left out as external services. The database is a table with a reachable flag.
- LoadDb.Database.Append: does not model column types. The dtype key `price_for_m2` (`scripts/load_db.py:42`) names no column of the cleaned table, which calls it `price_per_m2`.
- The `print` calls in `transformation()` and `db_load()`: output only.
- `scripts/extract.py` (HTTP scraping) and `scripts/dag.py` (scheduling, sensors, retries): not part of this model.
- Concurrent runs of a stage: not modelled. The scheduler runs each stage once at a time.
