# CAOM extraction and HATS import: chunk numbering and coordinate filter

This project models the two pieces of the CAOM-to-HATS pipeline that carry real logic.

- **Extraction numbering** (`extract_obsquery.py`). The extractor writes the query's batches as
  `obsquery_chunk_NNNNN.csv` files. The first number is one past the largest number found among
  the existing chunk files, or 0 if there are none. The model covers:
  - the directory scan `get_next_chunk_number`, and the Python `int(...)` parse it applies to each
    file name;
  - the `05d` formatting of new names;
  - the per-batch loop of `extract_data`, which numbers the files and adds up the rows and chunks.
- **Filtering reader** (`hats_load.py`). `FilteredCsvReader.read` wraps the CSV reader's chunk
  sequence. In every chunk that has both coordinate columns, it keeps only the rows whose
  declination is present and within [-90, 90] and whose right ascension is present. It never
  yields an empty chunk. The model also includes the CAOM type map and `main`'s decision:
  - with no input files, stop with a message;
  - otherwise, build the import arguments from the configured column names.

Modules:

| file | module | contents |
|---|---|---|
| `wrappers.dfy` | `Wrappers` | `Option` |
| `config.dfy` | `Config` | the sort, right-ascension and declination column names (`config.py`) |
| `frames.dfy` | `Frames` | cells (`Null`, `Int`, `Num`, `Text`), rows as column-to-cell maps, frames |
| `sequences.dfy` | `Sequences` | the subsequence relation used for "order is preserved" |
| `hats_load.dfy` | `HatsLoad` | the validity mask, the reader, the type map, `main`'s plan |
| `decimal.dfy` | `Decimal` | Python `int(str)` in base 10 and the `05d` format |
| `extract_obsquery.dfy` | `ExtractObsquery` | the name parse, resume numbering, the extraction loop |

Modelling choices:
- A pandas chunk is a `Frame`: a header plus a sequence of rows. A row is a map from column name to
  cell. A column the row does not hold, and a NaN, both read as `Null`.
- The reader's input is the sequence of raw chunks that the CSV reader produces, after the type map
  has been applied. Because the type map forces the declination column to `float64`, no text value
  reaches the `>=` comparison. The model states this as the precondition `DecCoerced`. In pandas,
  comparing a string with a float raises an exception.
- The directory listing is a parameter: a sequence of base names, in the order `glob` returns them.
  The glob `obsquery_chunk_*.csv` is a prefix-and-suffix test on the base name.
- The database query's batches are a parameter: a sequence of frames. The files written are part
  of the returned summary.
- The chunk-number parse follows the code rather than a plain "digits in the name" reading. The
  code takes the text after the last `_` and before the first `.`, then applies Python `int`. Python
  `int` strips surrounding white space and accepts a sign, so `obsquery_chunk_-3.csv` counts as -3
  and `obsquery_chunk_ 7 .csv` counts as 7. The white space it strips is ASCII space, tab, line
  feed, vertical tab, form feed and carriage return, plus the non-ASCII characters `str.isspace`
  accepts. The ASCII separators U+001C to U+001F are not stripped, so a tag starting with one of
  them does not parse. A negative number formats as `-0002`, which is what
  Python's `05d` produces.

## Model

| member | source | states |
|---|---|---|
| HatsLoad.KeepValid | hats_load.py:31-46 | a row is kept exactly when it is an input row with declination present and in [-90, 90] and right ascension present; no row is added |
| HatsLoad.KeepValidCounts | hats_load.py:33-46 | the selection keeps each valid row as many times as it occurs in the chunk, and drops every other row |
| HatsLoad.FilterChunk | hats_load.py:30-46 | the header is unchanged; when both coordinate columns exist, every remaining row passes the mask |
| HatsLoad.FilterChunkByMask | hats_load.py:30-46 | building the boolean mask and selecting the marked rows gives the same chunk as the row filter |
| HatsLoad.Read | hats_load.py:24-50 | at most one output chunk per raw chunk; no output chunk is empty; every output chunk with coordinate columns holds only valid rows |
| HatsLoad.ReadChunks | hats_load.py:28-50 | the generator loop yields exactly the non-empty filtered chunks, in order |
| HatsLoad.KeepValidAppend | hats_load.py:33-46 | the row mask is per-row, so filtering a concatenation is the concatenation of the filtered parts |
| HatsLoad.KeepValidIsSubseq | hats_load.py:46 | the kept rows appear in their original relative order |
| HatsLoad.KeepValidNoneValid | hats_load.py:33-46 | when no row passes the mask, nothing is kept |
| HatsLoad.KeepValidIdempotent | hats_load.py:33-46 | filtering already filtered rows changes nothing |
| HatsLoad.FilterChunkIdempotent | hats_load.py:30-46 | filtering an already filtered chunk changes nothing |
| HatsLoad.ReadDistributes | hats_load.py:28-50 | chunks are filtered independently: the reader's output for a concatenation is the concatenation of its outputs |
| HatsLoad.ReadPreservesOrder | hats_load.py:28-50 | the yielded chunks are a subsequence of the per-chunk filter results, in source order |
| HatsLoad.ReadKeepsNonEmpty | hats_load.py:48-50 | every non-empty filter result is yielded |
| HatsLoad.ReadPassThrough | hats_load.py:30-31 | a non-empty chunk that lacks either coordinate column is yielded unchanged |
| HatsLoad.ReadDropsAllInvalid | hats_load.py:31-50 | a chunk with no valid row contributes nothing, and the chunks around it are unaffected |
| HatsLoad.ReadIdempotent | hats_load.py:28-50 | reading the reader's own output again yields the same chunks |
| HatsLoad.CaomTypeMap | hats_load.py:53-105 | every kind is string, int64 or float64; both coordinate columns map to float64 and the sort column to string |
| HatsLoad.PlanMain | hats_load.py:108-147 | main stops with a message exactly when no input files were found; otherwise the import receives all files, the configured column names, and a reader whose type map makes both coordinates float64 |
| Decimal.Digits | extract_obsquery.py:73 | the decimal spelling of n is non-empty, all digits, denotes n, and has no leading zero unless n is 0 |
| Decimal.DigitsLength | extract_obsquery.py:73 | a number below 10^k needs at most k digits, so numbers below 100000 fit in five |
| Decimal.FormatZeroPadded | extract_obsquery.py:73 | the formatted number is at least five characters long; it is exactly five digits for 0..99999; it never contains `_` or `.`, so the name parse finds it intact; text longer than five characters has no padding zero after the optional sign |
| Decimal.ValueOfLeadingZeros | extract_obsquery.py:73 | zero padding does not change the value the digits denote |
| Decimal.FormattedParts | extract_obsquery.py:73 | the formatted number is a minus sign for negative n, then digits whose value is the magnitude of n; these digits start with a zero only when the text is exactly five characters wide, which fixes the text uniquely |
| Decimal.ParseFormatted | extract_obsquery.py:34 | parsing back the `05d` text of any integer gives that integer |
| ExtractObsquery.ParsedNumbersComplete | extract_obsquery.py:29-37 | every listed name that matches the glob and parses contributes its number to the list |
| ExtractObsquery.ParsedNumbersAppend | extract_obsquery.py:29-37 | the scan treats names independently: the list for a concatenated listing is the concatenation |
| ExtractObsquery.ParsedNumberSource | extract_obsquery.py:29-37 | every number in the list is the number of a listed name that matches the glob and parses |
| ExtractObsquery.MaxOf | extract_obsquery.py:40 | the maximum is an element of the list and no element exceeds it |
| ExtractObsquery.NextChunkNumber | extract_obsquery.py:20-41 | with no parsed numbers the result is 0; otherwise it is one past a parsed number, and it exceeds every parsed number and every counted name's number |
| ExtractObsquery.NextChunkNumberFromListing | extract_obsquery.py:33-40 | when some name parsed, the next number is one past the number of a name actually in the listing |
| ExtractObsquery.GetNextChunkNumber | extract_obsquery.py:20-41 | the single pass that skips unmatched or unparsable names computes the next free number |
| ExtractObsquery.SkipsUncounted | extract_obsquery.py:33-37 | a name that does not match or does not parse has no effect on the result |
| ExtractObsquery.NonNumericTagSkipped | extract_obsquery.py:33-37 | a chunk name whose tag starts with a letter matches the glob but is skipped |
| ExtractObsquery.UnitSeparatorTagSkipped | extract_obsquery.py:33-41 | a chunk name whose tag starts with U+001F is skipped, since `int` does not strip that character, and a listing of only that name resumes at 0 |
| ExtractObsquery.ChunkFileNameRoundTrip | extract_obsquery.py:33-35 | a name written by the extractor matches the glob, parses back to its own number, and so is counted with that number |
| ExtractObsquery.ChunkFileNameInjective | extract_obsquery.py:72-73 | distinct chunk numbers give distinct file names |
| ExtractObsquery.NewNamesFresh | extract_obsquery.py:51-73 | no file name written by a resumed run is already in the directory, so nothing is overwritten |
| ExtractObsquery.ParsedWrittenNames | extract_obsquery.py:67-73 | scanning the names a run wrote gives back start, start+1, ..., in order |
| ExtractObsquery.ResumeAfterWrite | extract_obsquery.py:52-73 | a later run starts right after the last file the previous run wrote: no gap and no reuse |
| ExtractObsquery.ResumeAfterFreshWrite | extract_obsquery.py:20-73 | after a run from any start writes k > 0 chunks into an empty directory, the next scan returns start + k |
| ExtractObsquery.NoneCountedStartsAtZero | extract_obsquery.py:25-41 | when no listed name matches the glob and parses, numbering starts at 0 |
| ExtractObsquery.ExampleNamesSkipped | extract_obsquery.py:30-37 | `obsquery_chunk_backup.csv` and `notes.txt` are not counted |
| ExtractObsquery.ResumeExample | extract_obsquery.py:20-41 | chunks 3, 7 and 12 beside a malformed chunk name and an unrelated file give the next number 13 |
| ExtractObsquery.ExtractData | extract_obsquery.py:44-81 | numbering starts at the next free number; file i holds batch i and is named with start+i; the chunk count equals the number of batches; the total is the sum of the batch sizes |
| ExtractObsquery.FilesForNamed | extract_obsquery.py:67-73 | the i-th file of a run is named with start+i and holds batch i |
| ExtractObsquery.ReadBackRowCount | extract_obsquery.py:64-81 | reading the written files back one after another gives as many rows as the batches hold, the total the run reports |

## Left out

- Database access (`db_connection.py`, `pd.read_sql` and its `TOP`/`WHERE` query): the batches are an input sequence. The batch-size bound of 100,000 rows is enforced by pandas and is not modelled.
- File-system effects (`os.makedirs`, `glob.glob`, `to_csv`): the listing is an input, and the written files are returned as values. The order in which `glob` lists names does not affect the result, since only the maximum is used.
- `os.path.basename` and directory joining: names are modelled as base names.
- The `hats_import` pipeline, `ImportArguments` validation and the base `CsvReader`: the pipeline is an external call. The base reader's chunking and type coercion are outside the model; the reader starts from coerced chunks.
- HatsLoad.Read: requires `DecCoerced` (no text in the declination column) instead of modelling pandas' exception on `str >= float`. The type map guarantees this whenever the coordinate column is in the map, as it is for `s_dec`.
- HatsLoad.ReadChunks: the same `DecCoerced` requirement on every raw chunk, for the same reason.
- HatsLoad.FilterChunk: the same `DecCoerced` requirement on the chunk's rows.
- HatsLoad.FilterChunkByMask: the same `DecCoerced` requirement on the chunk's rows.
- HatsLoad.KeepValid: the same `DecCoerced` requirement on the rows.
- ExtractObsquery.MatchesChunkPattern: the glob and file-name equality are modelled case-sensitively, as on POSIX file systems. On Windows, `glob` compares names after case folding, so `OBSQUERY_CHUNK_00042.CSV` would count there as 42, while the model skips it.
- ExtractObsquery.NewNamesFresh: "not already in the listing" is exact string inequality, so the guarantee against overwriting holds on a case-sensitive file system only.
- Floating-point details: cell values are exact reals and NaN is `Null`, so precision, infinities and the `-0.0` case are not modelled.
- Decimal.ParseInt: Python `int` also accepts non-ASCII decimal digits (for example Arabic-Indic digits) and `_` separators between digits. The model accepts ASCII digits only. Names produced by `05d` contain neither, and after `split("_")` no `_` remains in the parsed text.
- HatsLoad.CaomTypeMap: states the properties the reader relies on and the key-to-kind entries as literal data, but not the count of 39 entries.
- Logging and `print` output, including the progress messages of `extract_data` and `main`, and the commented-out filtered-row count.
- `explore_duckdb.py`, `explore_lsdb.py`, and the server and database names in `config.py`: exploration scripts and connection settings outside the numbering and filtering logic.
