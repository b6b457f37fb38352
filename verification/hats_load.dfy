/**
 * The coordinate validity filter that wraps the CSV reader, the CAOM type map,
 * and the decision `main` takes before starting the spatial import (hats_load.py).
 */
module HatsLoad {
  import opened Frames
  import opened Sequences
  import Config

  // ---------------------------------------------------------------------------
  // Validity predicate

  /** A value pandas can compare with a float: the reader's type map makes the
      declination column numeric, so a string never reaches the comparison. */
  predicate Comparable(c: Cell)
  {
    !c.Text?
  }

  /** Every row's declination value is comparable. */
  predicate DecCoerced(rows: seq<Row>, dec: string)
  {
    forall r :: r in rows ==> Comparable(Lookup(r, dec))
  }

  /** Every chunk's declination column is comparable. */
  predicate AllDecCoerced(chunks: seq<Frame>, dec: string)
  {
    forall c :: c in chunks ==> DecCoerced(c.rows, dec)
  }

  /** pandas `notna`. */
  predicate NotNa(c: Cell)
  {
    !c.Null?
  }

  /** The numeric value of a present, comparable cell. */
  function AsReal(c: Cell): real
    requires c.Int? || c.Num?
  {
    if c.Int? then c.i as real else c.x
  }

  /** The row mask: declination present and within [-90, 90], right ascension
      present. Right ascension is not range-checked, since it wraps. */
  predicate ValidRow(row: Row, ra: string, dec: string)
    requires Comparable(Lookup(row, dec))
  {
    var d := Lookup(row, dec);
    && NotNa(d)
    && -90.0 <= AsReal(d)
    && AsReal(d) <= 90.0
    && NotNa(Lookup(row, ra))
  }

  /** Both coordinate columns are in the chunk's header, so the mask can be computed. */
  predicate HasCoordinates(f: Frame, ra: string, dec: string)
  {
    ra in f.columns && dec in f.columns
  }

  // ---------------------------------------------------------------------------
  // Filtering one chunk

  /** The rows that pass the mask, in their original order. */
  function KeepValid(rows: seq<Row>, ra: string, dec: string): (kept: seq<Row>)
    requires DecCoerced(rows, dec)
    ensures |kept| <= |rows|
    ensures forall r :: r in kept <==> r in rows && ValidRow(r, ra, dec)
  {
    if |rows| == 0 then []
    else (if ValidRow(rows[0], ra, dec) then [rows[0]] else []) + KeepValid(rows[1..], ra, dec)
  }

  /** One raw chunk after filtering: masked when both coordinate columns exist,
      untouched otherwise. */
  function FilterChunk(f: Frame, ra: string, dec: string): (g: Frame)
    requires DecCoerced(f.rows, dec)
    ensures g.columns == f.columns
    ensures DecCoerced(g.rows, dec)
    ensures HasCoordinates(f, ra, dec) ==> forall r :: r in g.rows ==> ValidRow(r, ra, dec)
  {
    if HasCoordinates(f, ra, dec) then Frame(f.columns, KeepValid(f.rows, ra, dec)) else f
  }

  /** Every raw chunk filtered, one result per chunk, including empty ones. */
  function FilterEach(chunks: seq<Frame>, ra: string, dec: string): seq<Frame>
    requires AllDecCoerced(chunks, dec)
  {
    if |chunks| == 0 then []
    else [FilterChunk(chunks[0], ra, dec)] + FilterEach(chunks[1..], ra, dec)
  }

  /** The chunks the reader yields: each raw chunk filtered, empty results suppressed. */
  function Read(chunks: seq<Frame>, ra: string, dec: string): (out: seq<Frame>)
    requires AllDecCoerced(chunks, dec)
    ensures |out| <= |chunks|
    ensures AllDecCoerced(out, dec)
    ensures forall k :: 0 <= k < |out| ==> |out[k].rows| > 0
    ensures forall k :: 0 <= k < |out| && HasCoordinates(out[k], ra, dec) ==>
              forall r :: r in out[k].rows ==> ValidRow(r, ra, dec)
  {
    if |chunks| == 0 then []
    else
      var g := FilterChunk(chunks[0], ra, dec);
      (if |g.rows| > 0 then [g] else []) + Read(chunks[1..], ra, dec)
  }

  // ---------------------------------------------------------------------------
  // The reader as written: a mask per chunk, boolean indexing, a generator loop

  /** Builds the mask for one chunk and selects the rows it marks. */
  method FilterChunkByMask(f: Frame, ra: string, dec: string) returns (g: Frame)
    requires DecCoerced(f.rows, dec)
    ensures g == FilterChunk(f, ra, dec)
  {
    g := f;
    if ra in f.columns && dec in f.columns {
      var mask := seq(|f.rows|, k requires 0 <= k < |f.rows| => ValidRow(f.rows[k], ra, dec));
      var kept: seq<Row> := [];
      var i := 0;
      while i < |f.rows|
        invariant 0 <= i <= |f.rows|
        invariant kept == KeepValidPrefix(f.rows, i, ra, dec)
      {
        KeepValidPrefixStep(f.rows, i, ra, dec);
        if mask[i] {
          kept := kept + [f.rows[i]];
        }
        i := i + 1;
      }
      KeepValidPrefixAll(f.rows, ra, dec);
      g := Frame(f.columns, kept);
    }
  }

  /** The generator: walks the raw chunks in order and yields each non-empty filtered chunk. */
  method ReadChunks(chunks: seq<Frame>, ra: string, dec: string) returns (out: seq<Frame>)
    requires AllDecCoerced(chunks, dec)
    ensures out == Read(chunks, ra, dec)
  {
    out := [];
    var i := 0;
    while i < |chunks|
      invariant 0 <= i <= |chunks|
      invariant AllDecCoerced(chunks[..i], dec)
      invariant out == Read(chunks[..i], ra, dec)
    {
      var filtered := FilterChunkByMask(chunks[i], ra, dec);
      ReadDistributes(chunks[..i], [chunks[i]], ra, dec);
      assert chunks[..i + 1] == chunks[..i] + [chunks[i]];
      if |filtered.rows| > 0 {
        out := out + [filtered];
      }
      i := i + 1;
    }
    assert chunks[..i] == chunks;
  }

  // ---------------------------------------------------------------------------
  // Properties of the filter

  /** Each valid row is kept as many times as it occurs; every other row is dropped. */
  lemma {:induction false} KeepValidCounts(rows: seq<Row>, ra: string, dec: string)
    requires DecCoerced(rows, dec)
    ensures forall r :: multiset(KeepValid(rows, ra, dec))[r]
                        == if r in rows && ValidRow(r, ra, dec) then multiset(rows)[r] else 0
  {
    if |rows| > 0 {
      var head := if ValidRow(rows[0], ra, dec) then [rows[0]] else [];
      var rest := KeepValid(rows[1..], ra, dec);
      KeepValidCounts(rows[1..], ra, dec);
      assert KeepValid(rows, ra, dec) == head + rest;
      assert multiset(rows) == multiset([rows[0]]) + multiset(rows[1..]) by {
        assert rows == [rows[0]] + rows[1..];
      }
      forall r
        ensures multiset(head + rest)[r]
                == if r in rows && ValidRow(r, ra, dec) then multiset(rows)[r] else 0
      {
        assert multiset(head + rest) == multiset(head) + multiset(rest);
        if r !in rows[1..] {
          assert multiset(rows[1..])[r] == 0;
        }
      }
    }
  }

  /** Filtering rows distributes over concatenation. */
  lemma {:induction false} KeepValidAppend(a: seq<Row>, b: seq<Row>, ra: string, dec: string)
    requires DecCoerced(a, dec) && DecCoerced(b, dec)
    ensures DecCoerced(a + b, dec)
    ensures KeepValid(a + b, ra, dec) == KeepValid(a, ra, dec) + KeepValid(b, ra, dec)
  {
    if |a| > 0 {
      assert (a + b)[1..] == a[1..] + b;
      KeepValidAppend(a[1..], b, ra, dec);
    } else {
      assert a + b == b;
    }
  }

  /** The rows of the first `i` that pass the mask. */
  function KeepValidPrefix(rows: seq<Row>, i: nat, ra: string, dec: string): seq<Row>
    requires DecCoerced(rows, dec) && i <= |rows|
  {
    assert DecCoerced(rows[..i], dec) by {
      forall r | r in rows[..i] ensures Comparable(Lookup(r, dec)) {
        assert r in rows;
      }
    }
    KeepValid(rows[..i], ra, dec)
  }

  lemma KeepValidPrefixStep(rows: seq<Row>, i: nat, ra: string, dec: string)
    requires DecCoerced(rows, dec) && i < |rows|
    ensures KeepValidPrefix(rows, i + 1, ra, dec)
            == KeepValidPrefix(rows, i, ra, dec) + (if ValidRow(rows[i], ra, dec) then [rows[i]] else [])
  {
    assert rows[..i + 1] == rows[..i] + [rows[i]];
    assert DecCoerced([rows[i]], dec);
    assert DecCoerced(rows[..i], dec) by {
      forall r | r in rows[..i] ensures Comparable(Lookup(r, dec)) {
        assert r in rows;
      }
    }
    KeepValidAppend(rows[..i], [rows[i]], ra, dec);
  }

  lemma KeepValidPrefixAll(rows: seq<Row>, ra: string, dec: string)
    requires DecCoerced(rows, dec)
    ensures KeepValidPrefix(rows, |rows|, ra, dec) == KeepValid(rows, ra, dec)
  {
    assert rows[..|rows|] == rows;
  }

  /** The kept rows are an order-preserving sub-sequence of the raw rows. */
  lemma {:induction false} KeepValidIsSubseq(rows: seq<Row>, ra: string, dec: string)
    requires DecCoerced(rows, dec)
    ensures IsSubseq(KeepValid(rows, ra, dec), rows)
  {
    if |rows| > 0 {
      KeepValidIsSubseq(rows[1..], ra, dec);
      assert rows == [rows[0]] + rows[1..];
      if ValidRow(rows[0], ra, dec) {
        SubseqCons(rows[0], KeepValid(rows[1..], ra, dec), rows[1..]);
      } else {
        assert KeepValid(rows, ra, dec) == KeepValid(rows[1..], ra, dec);
        SubseqSkip(rows[0], KeepValid(rows[1..], ra, dec), rows[1..]);
      }
    }
  }

  /** Rows none of which passes the mask are all dropped. */
  lemma {:induction false} KeepValidNoneValid(rows: seq<Row>, ra: string, dec: string)
    requires DecCoerced(rows, dec)
    requires forall r :: r in rows ==> !ValidRow(r, ra, dec)
    ensures KeepValid(rows, ra, dec) == []
  {
    if |rows| > 0 {
      assert rows[0] in rows;
      KeepValidNoneValid(rows[1..], ra, dec);
    }
  }

  /** Masking rows that all pass the mask changes nothing. */
  lemma {:induction false} KeepValidIdempotent(rows: seq<Row>, ra: string, dec: string)
    requires DecCoerced(rows, dec)
    ensures KeepValid(KeepValid(rows, ra, dec), ra, dec) == KeepValid(rows, ra, dec)
  {
    if |rows| > 0 {
      KeepValidIdempotent(rows[1..], ra, dec);
      var tail := KeepValid(rows[1..], ra, dec);
      if ValidRow(rows[0], ra, dec) {
        assert ([rows[0]] + tail)[1..] == tail;
      } else {
        assert KeepValid(rows, ra, dec) == tail;
      }
    }
  }

  /** Filtering a filtered chunk gives it back. */
  lemma FilterChunkIdempotent(f: Frame, ra: string, dec: string)
    requires DecCoerced(f.rows, dec)
    ensures FilterChunk(FilterChunk(f, ra, dec), ra, dec) == FilterChunk(f, ra, dec)
  {
    if HasCoordinates(f, ra, dec) {
      KeepValidIdempotent(f.rows, ra, dec);
    }
  }

  /** Reading chunk by chunk: the output for a concatenation is the concatenation
      of the outputs, so no chunk's result depends on another chunk. */
  lemma {:induction false} ReadDistributes(a: seq<Frame>, b: seq<Frame>, ra: string, dec: string)
    requires AllDecCoerced(a, dec) && AllDecCoerced(b, dec)
    ensures AllDecCoerced(a + b, dec)
    ensures Read(a + b, ra, dec) == Read(a, ra, dec) + Read(b, ra, dec)
  {
    if |a| > 0 {
      assert (a + b)[1..] == a[1..] + b;
      assert (a + b)[0] == a[0];
      ReadDistributes(a[1..], b, ra, dec);
    } else {
      assert a + b == b;
    }
  }

  /** Output chunks appear in the order of their raw chunks: the output is an
      order-preserving sub-sequence of the per-chunk filter results. */
  lemma {:induction false} ReadPreservesOrder(chunks: seq<Frame>, ra: string, dec: string)
    requires AllDecCoerced(chunks, dec)
    ensures IsSubseq(Read(chunks, ra, dec), FilterEach(chunks, ra, dec))
  {
    if |chunks| > 0 {
      ReadPreservesOrder(chunks[1..], ra, dec);
      var g := FilterChunk(chunks[0], ra, dec);
      if |g.rows| > 0 {
        SubseqCons(g, Read(chunks[1..], ra, dec), FilterEach(chunks[1..], ra, dec));
      } else {
        assert Read(chunks, ra, dec) == Read(chunks[1..], ra, dec);
        SubseqSkip(g, Read(chunks[1..], ra, dec), FilterEach(chunks[1..], ra, dec));
      }
    }
  }

  /** No non-empty filter result is lost: it is yielded. */
  lemma {:induction false} ReadKeepsNonEmpty(chunks: seq<Frame>, i: int, ra: string, dec: string)
    requires AllDecCoerced(chunks, dec)
    requires 0 <= i < |chunks|
    requires |FilterChunk(chunks[i], ra, dec).rows| > 0
    ensures FilterChunk(chunks[i], ra, dec) in Read(chunks, ra, dec)
  {
    if i > 0 {
      assert chunks[1..][i - 1] == chunks[i];
      ReadKeepsNonEmpty(chunks[1..], i - 1, ra, dec);
    }
  }

  /** A non-empty chunk lacking either coordinate column is yielded unchanged. */
  lemma ReadPassThrough(chunks: seq<Frame>, i: int, ra: string, dec: string)
    requires AllDecCoerced(chunks, dec)
    requires 0 <= i < |chunks|
    requires !HasCoordinates(chunks[i], ra, dec)
    requires |chunks[i].rows| > 0
    ensures FilterChunk(chunks[i], ra, dec) == chunks[i]
    ensures chunks[i] in Read(chunks, ra, dec)
  {
    ReadKeepsNonEmpty(chunks, i, ra, dec);
  }

  /** A chunk with both coordinate columns and no valid row yields nothing. */
  lemma ReadDropsAllInvalid(a: seq<Frame>, c: Frame, b: seq<Frame>, ra: string, dec: string)
    requires AllDecCoerced(a, dec) && AllDecCoerced(b, dec) && DecCoerced(c.rows, dec)
    requires HasCoordinates(c, ra, dec)
    requires forall r :: r in c.rows ==> !ValidRow(r, ra, dec)
    ensures AllDecCoerced(a + [c] + b, dec)
    ensures Read(a + [c] + b, ra, dec) == Read(a, ra, dec) + Read(b, ra, dec)
  {
    KeepValidNoneValid(c.rows, ra, dec);
    assert AllDecCoerced([c], dec);
    assert Read([c], ra, dec) == [] by {
      assert FilterChunk(c, ra, dec).rows == [];
      assert [c][1..] == [];
    }
    ReadDistributes(a, [c], ra, dec);
    ReadDistributes(a + [c], b, ra, dec);
    assert Read(a + [c], ra, dec) == Read(a, ra, dec);
  }

  /** Reading the reader's own output yields the same chunks. */
  lemma {:induction false} ReadIdempotent(chunks: seq<Frame>, ra: string, dec: string)
    requires AllDecCoerced(chunks, dec)
    ensures Read(Read(chunks, ra, dec), ra, dec) == Read(chunks, ra, dec)
  {
    if |chunks| > 0 {
      var g := FilterChunk(chunks[0], ra, dec);
      var rest := Read(chunks[1..], ra, dec);
      ReadIdempotent(chunks[1..], ra, dec);
      if |g.rows| > 0 {
        FilterChunkIdempotent(chunks[0], ra, dec);
        ReadDistributes([g], rest, ra, dec);
        assert Read([g], ra, dec) == [g];
      } else {
        assert Read(chunks, ra, dec) == rest;
      }
    }
  }

  // ---------------------------------------------------------------------------
  // CAOM type map

  /** The scalar kinds the reader may force a column to. */
  const Kinds: set<string> := {"string", "int64", "float64"}

  /** Field name to the kind the reader coerces it to; unmapped fields keep their inferred type. */
  function CaomTypeMap(): (m: map<string, string>)
    ensures forall f :: f in m ==> m[f] in Kinds
    ensures Config.RaColumn in m && m[Config.RaColumn] == "float64"
    ensures Config.DecColumn in m && m[Config.DecColumn] == "float64"
    ensures Config.SortColumn in m && m[Config.SortColumn] == "string"
  {
    map[
      "dataproduct_type" := "string",
      "obs_collection" := "string",
      "obs_id" := "string",
      "obs_publisher_did" := "string",
      "obsType" := "string",
      "intentType" := "string",
      "target_name" := "string",
      "wavelength_region" := "string",
      "instrument_name" := "string",
      "filters" := "string",
      "pol_states" := "string",
      "target_classification" := "string",
      "obs_title" := "string",
      "facility_name" := "string",
      "proposal_pi" := "string",
      "proposal_id" := "string",
      "proposal_type" := "string",
      "provenance_name" := "string",
      "proposal_project" := "string",
      "s_region" := "string",
      "previewURI" := "string",
      "productURI" := "string",
      "dataRights" := "string",
      "metaDataRights" := "string",
      "calib_level" := "int64",
      "max_calib_level" := "int64",
      "sequence_number" := "int64",
      "obsid" := "int64",
      "objID" := "int64",
      "s_ra" := "float64",
      "s_dec" := "float64",
      "t_min" := "float64",
      "t_max" := "float64",
      "t_exptime" := "float64",
      "em_min" := "float64",
      "em_max" := "float64",
      "t_obs_release" := "float64",
      "srcDen" := "float64",
      "mtFlag" := "string"
    ]
  }

  // ---------------------------------------------------------------------------
  // main: from the discovered CSV files to the import arguments

  /** How the filtering reader is constructed. */
  datatype ReaderConfig = ReaderConfig(
    raColumn: string,
    decColumn: string,
    typeMap: map<string, string>,
    chunkSize: nat,
    header: string,
    lowMemory: bool)

  /** The arguments handed to the external spatial import. */
  datatype ImportArguments = ImportArguments(
    outputPath: string,
    outputArtifactName: string,
    raColumn: string,
    decColumn: string,
    sortColumns: string,
    progressBar: bool,
    fileReader: ReaderConfig,
    inputFileList: seq<string>)

  /** What `main` does: stop with a message, or run the import with these arguments. */
  datatype MainOutcome = NothingToDo(message: string) | RunImport(args: ImportArguments)

  const InputDir: string := "data/raw"
  const OutputPath: string := "data/hats"
  const ReaderChunkSize: nat := 500000

  /** The decision `main` takes once the recursive CSV discovery has listed `inputFiles`. */
  function PlanMain(inputFiles: seq<string>): (o: MainOutcome)
    ensures o.NothingToDo? <==> |inputFiles| == 0
    ensures o.RunImport? ==>
              && o.args.inputFileList == inputFiles
              && o.args.raColumn == o.args.fileReader.raColumn == Config.RaColumn
              && o.args.decColumn == o.args.fileReader.decColumn == Config.DecColumn
              && o.args.sortColumns == Config.SortColumn
              && o.args.raColumn in o.args.fileReader.typeMap
              && o.args.fileReader.typeMap[o.args.raColumn] == "float64"
              && o.args.decColumn in o.args.fileReader.typeMap
              && o.args.fileReader.typeMap[o.args.decColumn] == "float64"
  {
    if |inputFiles| == 0 then
      NothingToDo("No CSV files found in " + InputDir)
    else
      var reader := ReaderConfig(Config.RaColumn, Config.DecColumn, CaomTypeMap(),
                                 ReaderChunkSize, "infer", false);
      RunImport(ImportArguments(OutputPath, "caom", Config.RaColumn, Config.DecColumn,
                                Config.SortColumn, true, reader, inputFiles))
  }
}
