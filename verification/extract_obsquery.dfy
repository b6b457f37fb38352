/**
 * Resumable chunked extraction (extract_obsquery.py): the scan of existing
 * chunk files for the next free number, and the loop that numbers, names and
 * counts the chunks a query returns.
 */
module ExtractObsquery {
  import opened Wrappers
  import opened Frames
  import opened Decimal

  const ChunkPrefix: string := "obsquery_chunk_"
  const ChunkSuffix: string := ".csv"

  // ---------------------------------------------------------------------------
  // Reading a chunk number back out of a file name

  /** The glob `obsquery_chunk_*.csv` on a base name. */
  predicate MatchesChunkPattern(name: string)
  {
    && |name| >= |ChunkPrefix| + |ChunkSuffix|
    && name[..|ChunkPrefix|] == ChunkPrefix
    && name[|name| - |ChunkSuffix|..] == ChunkSuffix
  }

  /** `s.split(sep)[-1]`: the text after the last `sep`, or all of `s`. */
  function AfterLast(s: string, sep: char): string
  {
    if |s| == 0 || s[|s| - 1] == sep then []
    else AfterLast(s[..|s| - 1], sep) + [s[|s| - 1]]
  }

  /** `s.split(sep)[0]`: the text before the first `sep`, or all of `s`. */
  function BeforeFirst(s: string, sep: char): string
  {
    if |s| == 0 || s[0] == sep then []
    else [s[0]] + BeforeFirst(s[1..], sep)
  }

  /** `int(filename.split("_")[-1].split(".")[0])`, with `None` for the `ValueError`. */
  function ChunkNumberOf(name: string): Option<int>
  {
    ParseInt(BeforeFirst(AfterLast(name, '_'), '.'))
  }

  /** A listed name the scan takes into account: it matches the glob and its number parses. */
  predicate Counted(name: string)
  {
    MatchesChunkPattern(name) && ChunkNumberOf(name).Some?
  }

  // ---------------------------------------------------------------------------
  // Resume numbering

  /** The `chunk_numbers` list the scan builds, in listing order. */
  function ParsedNumbers(names: seq<string>): (nums: seq<int>)
    ensures |nums| <= |names|
  {
    if |names| == 0 then []
    else
      var last := names[|names| - 1];
      ParsedNumbers(names[..|names| - 1]) + (if Counted(last) then [ChunkNumberOf(last).value] else [])
  }

  /** Every counted name contributes its number to the list. */
  lemma {:induction false} ParsedNumbersComplete(names: seq<string>)
    ensures forall nm :: nm in names && Counted(nm) ==> ChunkNumberOf(nm).value in ParsedNumbers(names)
  {
    if |names| > 0 {
      var init := names[..|names| - 1];
      assert names == init + [names[|names| - 1]];
      ParsedNumbersComplete(init);
    }
  }

  /** Every number in the list comes from a listed name the scan counts: `nm` is one. */
  lemma {:induction false} ParsedNumberSource(names: seq<string>, x: int) returns (nm: string)
    requires x in ParsedNumbers(names)
    ensures nm in names && Counted(nm) && ChunkNumberOf(nm).value == x
  {
    var init, last := names[..|names| - 1], names[|names| - 1];
    assert names == init + [last];
    if x in ParsedNumbers(init) {
      nm := ParsedNumberSource(init, x);
    } else {
      nm := last;
    }
  }

  /** Python's `max` over a non-empty list. */
  function MaxOf(xs: seq<int>): (m: int)
    requires |xs| > 0
    ensures m in xs
    ensures forall x :: x in xs ==> x <= m
  {
    if |xs| == 1 then xs[0]
    else
      var init, last := xs[..|xs| - 1], xs[|xs| - 1];
      var m := MaxOf(init);
      assert forall x :: x in xs ==> x in init || x == last by {
        assert xs == init + [last];
      }
      if last > m then last else m
  }

  /** Appending a name appends its number when the scan counts it. */
  lemma ParsedNumbersSnoc(names: seq<string>, name: string)
    ensures ParsedNumbers(names + [name])
            == ParsedNumbers(names) + (if Counted(name) then [ChunkNumberOf(name).value] else [])
  {
    assert (names + [name])[..|names|] == names;
  }

  /** Appending a counted name appends its number. */
  lemma SnocCounted(names: seq<string>, name: string, v: int)
    requires Counted(name) && ChunkNumberOf(name) == Some(v)
    ensures ParsedNumbers(names + [name]) == ParsedNumbers(names) + [v]
  {
    ParsedNumbersSnoc(names, name);
  }

  /** Appending a name the scan skips changes nothing. */
  lemma SnocSkipped(names: seq<string>, name: string)
    requires !Counted(name)
    ensures ParsedNumbers(names + [name]) == ParsedNumbers(names)
  {
    ParsedNumbersSnoc(names, name);
  }

  /** The maximum after appending one value. */
  lemma MaxOfSnoc(xs: seq<int>, v: int)
    ensures MaxOf(xs + [v]) == if |xs| == 0 || v > MaxOf(xs) then v else MaxOf(xs)
  {
    assert (xs + [v])[..|xs|] == xs;
  }

  /** The next free chunk number for a directory listing `names` (base names). */
  function NextChunkNumber(names: seq<string>): (n: int)
    ensures |ParsedNumbers(names)| == 0 ==> n == 0
    ensures |ParsedNumbers(names)| > 0 ==> n - 1 in ParsedNumbers(names)
    ensures forall x :: x in ParsedNumbers(names) ==> x < n
    ensures forall nm :: nm in names && Counted(nm) ==> ChunkNumberOf(nm).value < n
  {
    var nums := ParsedNumbers(names);
    ParsedNumbersComplete(names);
    if |nums| == 0 then 0 else MaxOf(nums) + 1
  }

  /** The next number is one past the number of a file actually in the listing. */
  lemma NextChunkNumberFromListing(names: seq<string>) returns (nm: string)
    requires |ParsedNumbers(names)| > 0
    ensures nm in names && Counted(nm)
    ensures ChunkNumberOf(nm).value == NextChunkNumber(names) - 1
  {
    nm := ParsedNumberSource(names, NextChunkNumber(names) - 1);
  }

  /** The scan as written: one pass over the listing, skipping names that do not
      match or do not parse, then the maximum plus one. */
  method GetNextChunkNumber(names: seq<string>) returns (n: int)
    ensures n == NextChunkNumber(names)
  {
    var best: Option<int> := None;
    var i := 0;
    while i < |names|
      invariant 0 <= i <= |names|
      invariant best.None? <==> |ParsedNumbers(names[..i])| == 0
      invariant best.Some? ==> best.value == MaxOf(ParsedNumbers(names[..i]))
    {
      var name := names[i];
      ghost var nums := ParsedNumbers(names[..i]);
      assert names[..i + 1] == names[..i] + [name];
      ParsedNumbersSnoc(names[..i], name);
      if MatchesChunkPattern(name) {
        var parsed := ChunkNumberOf(name);
        if parsed.Some? {
          assert ParsedNumbers(names[..i + 1]) == nums + [parsed.value];
          MaxOfSnoc(nums, parsed.value);
          if best.None? || parsed.value > best.value {
            best := Some(parsed.value);
          }
        } else {
          assert ParsedNumbers(names[..i + 1]) == nums;
        }
      } else {
        assert ParsedNumbers(names[..i + 1]) == nums;
      }
      i := i + 1;
    }
    assert names[..i] == names;
    if best.Some? {
      n := best.value + 1;
    } else {
      n := 0;
    }
  }

  // ---------------------------------------------------------------------------
  // Naming new chunks

  /** `f"obsquery_chunk_{n:05d}.csv"`. */
  function ChunkFileName(n: int): string
  {
    ChunkPrefix + FormatZeroPadded(n) + ChunkSuffix
  }

  /** The names a run starting at `start` gives its first `k` chunks. */
  function WrittenNames(start: int, k: nat): (names: seq<string>)
    ensures |names| == k
  {
    if k == 0 then [] else WrittenNames(start, k - 1) + [ChunkFileName(start + k - 1)]
  }

  /** `start, start + 1, ..., start + k - 1`. */
  function Consecutive(start: int, k: nat): (xs: seq<int>)
    ensures |xs| == k
    ensures forall i :: 0 <= i < k ==> xs[i] == start + i
  {
    if k == 0 then [] else Consecutive(start, k - 1) + [start + k - 1]
  }

  /** `AfterLast` stops at a separator that ends the prefix. */
  lemma {:induction false} AfterLastAtSeparator(a: string, b: string, sep: char)
    requires |a| > 0 && a[|a| - 1] == sep
    requires forall i :: 0 <= i < |b| ==> b[i] != sep
    ensures AfterLast(a + b, sep) == b
  {
    if |b| == 0 {
      assert a + b == a;
    } else {
      assert (a + b)[..|a + b| - 1] == a + b[..|b| - 1];
      AfterLastAtSeparator(a, b[..|b| - 1], sep);
    }
  }

  /** `BeforeFirst` stops at the first separator after a separator-free prefix. */
  lemma {:induction false} BeforeFirstAtSeparator(a: string, b: string, sep: char)
    requires forall i :: 0 <= i < |a| ==> a[i] != sep
    requires |b| > 0 && b[0] == sep
    ensures BeforeFirst(a + b, sep) == a
  {
    if |a| == 0 {
      assert a + b == b;
    } else {
      assert (a + b)[1..] == a[1..] + b;
      BeforeFirstAtSeparator(a[1..], b, sep);
    }
  }

  /** Round trip: a formatted chunk name matches the glob and parses back to its number. */
  lemma ChunkFileNameRoundTrip(n: int)
    ensures MatchesChunkPattern(ChunkFileName(n))
    ensures ChunkNumberOf(ChunkFileName(n)) == Some(n)
    ensures Counted(ChunkFileName(n))
  {
    var digits := FormatZeroPadded(n);
    var name := ChunkFileName(n);
    assert name == ChunkPrefix + (digits + ChunkSuffix);
    AfterLastAtSeparator(ChunkPrefix, digits + ChunkSuffix, '_');
    BeforeFirstAtSeparator(digits, ChunkSuffix, '.');
    ParseFormatted(n);
  }

  /** Distinct chunk numbers give distinct file names. */
  lemma ChunkFileNameInjective(m: int, n: int)
    requires m != n
    ensures ChunkFileName(m) != ChunkFileName(n)
  {
    ChunkFileNameRoundTrip(m);
    ChunkFileNameRoundTrip(n);
  }

  /** No name a resumed run writes is already in the directory listing. */
  lemma NewNamesFresh(existing: seq<string>, i: nat)
    ensures ChunkFileName(NextChunkNumber(existing) + i) !in existing
  {
    var n := NextChunkNumber(existing) + i;
    ChunkFileNameRoundTrip(n);
    forall nm | nm in existing
      ensures nm != ChunkFileName(n)
    {
      if Counted(nm) {
        assert ChunkNumberOf(nm).value < n;
      }
    }
  }

  /** The parsed-number list of a concatenated listing is the concatenation. */
  lemma {:induction false} ParsedNumbersAppend(a: seq<string>, b: seq<string>)
    ensures ParsedNumbers(a + b) == ParsedNumbers(a) + ParsedNumbers(b)
  {
    if |b| == 0 {
      assert a + b == a;
    } else {
      var init := b[..|b| - 1];
      assert (a + b)[..|a + b| - 1] == a + init;
      assert (a + b)[|a + b| - 1] == b[|b| - 1];
      ParsedNumbersAppend(a, init);
    }
  }

  /** The scan reads back exactly the numbers a run wrote, in order. */
  lemma {:induction false} ParsedWrittenNames(start: int, k: nat)
    ensures ParsedNumbers(WrittenNames(start, k)) == Consecutive(start, k)
  {
    if k > 0 {
      SnocWritten(WrittenNames(start, k - 1), start + k - 1);
      ParsedWrittenNames(start, k - 1);
    }
  }

  /** Appending a name the extractor wrote appends its number. */
  lemma SnocWritten(names: seq<string>, n: int)
    ensures ParsedNumbers(names + [ChunkFileName(n)]) == ParsedNumbers(names) + [n]
  {
    ChunkFileNameRoundTrip(n);
    SnocCounted(names, ChunkFileName(n), n);
  }

  /** Numbers below `start` followed by a run from `start`: the run's last number is the maximum. */
  lemma MaxOfAfterRun(prior: seq<int>, start: int, k: nat)
    requires k > 0
    requires forall x :: x in prior ==> x < start
    ensures MaxOf(prior + Consecutive(start, k)) == start + k - 1
  {
    var nums := prior + Consecutive(start, k);
    var top := start + k - 1;
    assert nums[|prior| + k - 1] == top;
    forall x | x in nums
      ensures x <= top
    {
      var j :| 0 <= j < |nums| && nums[j] == x;
      if j < |prior| {
        assert prior[j] in prior;
      } else {
        assert nums[j] == Consecutive(start, k)[j - |prior|];
      }
    }
  }

  /** Resuming after a run that wrote `k` chunks continues right after the last one. */
  lemma ResumeAfterWrite(existing: seq<string>, k: nat, start: int, written: seq<string>)
    requires start == NextChunkNumber(existing)
    requires written == WrittenNames(start, k)
    ensures NextChunkNumber(existing + written) == start + k
  {
    ParsedNumbersAppend(existing, written);
    ParsedWrittenNames(start, k);
    if k == 0 {
      assert existing + written == existing;
    } else {
      MaxOfAfterRun(ParsedNumbers(existing), start, k);
    }
  }

  /** A run written into an empty directory, from any start: the next scan continues after it. */
  lemma ResumeAfterFreshWrite(start: int, k: nat, written: seq<string>)
    requires k > 0
    requires written == WrittenNames(start, k)
    ensures NextChunkNumber(written) == start + k
  {
    ParsedWrittenNames(start, k);
    assert [] + Consecutive(start, k) == Consecutive(start, k);
    MaxOfAfterRun([], start, k);
  }

  /** A listing in which no name is counted resumes at 0. */
  lemma {:induction false} NoneCountedStartsAtZero(names: seq<string>)
    requires forall nm :: nm in names ==> !Counted(nm)
    ensures NextChunkNumber(names) == 0
  {
    if |names| > 0 {
      var init := names[..|names| - 1];
      assert names == init + [names[|names| - 1]];
      NoneCountedStartsAtZero(init);
      SnocSkipped(init, names[|names| - 1]);
    }
  }

  /** A listed name that does not match the glob or does not parse changes nothing. */
  lemma SkipsUncounted(a: seq<string>, bad: string, b: seq<string>)
    requires !Counted(bad)
    ensures NextChunkNumber(a + [bad] + b) == NextChunkNumber(a + b)
  {
    ParsedNumbersAppend(a + [bad], b);
    ParsedNumbersAppend(a, b);
    ParsedNumbersSnoc(a, bad);
    assert ParsedNumbers(a + [bad] + b) == ParsedNumbers(a + b);
  }

  lemma ExampleNamesFormatted()
    ensures ChunkFileName(3) == "obsquery_chunk_00003.csv"
    ensures ChunkFileName(7) == "obsquery_chunk_00007.csv"
    ensures ChunkFileName(12) == "obsquery_chunk_00012.csv"
  {
    assert FormatZeroPadded(3) == "00003";
    assert FormatZeroPadded(7) == "00007";
    assert FormatZeroPadded(12) == "00012";
  }

  /** A chunk name whose tag starts with neither a digit, a sign nor white space
      matches the glob but is skipped. */
  lemma NonNumericTagSkipped(tag: string)
    requires |tag| > 0 && !IsDigit(tag[0]) && tag[0] != '-' && tag[0] != '+' && !IsSpace(tag[0])
    requires forall i :: 0 <= i < |tag| ==> tag[i] != '_' && tag[i] != '.'
    ensures MatchesChunkPattern(ChunkPrefix + tag + ChunkSuffix)
    ensures !Counted(ChunkPrefix + tag + ChunkSuffix)
  {
    var name := ChunkPrefix + tag + ChunkSuffix;
    assert name == ChunkPrefix + (tag + ChunkSuffix);
    AfterLastAtSeparator(ChunkPrefix, tag + ChunkSuffix, '_');
    BeforeFirstAtSeparator(tag, ChunkSuffix, '.');
    assert TrimStart(tag) == tag;
    var t := TrimEnd(tag);
    assert |t| > 0 && t[0] == tag[0] by {
      TrimEndKeepsFirst(tag);
    }
  }

  lemma {:induction false} TrimEndKeepsFirst(s: string)
    requires |s| > 0 && !IsSpace(s[0])
    ensures |TrimEnd(s)| > 0 && TrimEnd(s)[0] == s[0]
  {
    if IsSpace(s[|s| - 1]) {
      TrimEndKeepsFirst(s[..|s| - 1]);
    }
  }

  /** How the scan treats each name of the example listing. */
  lemma ExampleNamesClassified(n3: string, n7: string, n12: string)
    requires n3 == "obsquery_chunk_00003.csv" && n7 == "obsquery_chunk_00007.csv"
    requires n12 == "obsquery_chunk_00012.csv"
    ensures Counted(n3) && ChunkNumberOf(n3) == Some(3)
    ensures Counted(n7) && ChunkNumberOf(n7) == Some(7)
    ensures Counted(n12) && ChunkNumberOf(n12) == Some(12)
  {
    ExampleNamesFormatted();
    ChunkFileNameRoundTrip(3);
    ChunkFileNameRoundTrip(7);
    ChunkFileNameRoundTrip(12);
  }

  /** The example's malformed chunk name and unrelated file are not counted. */
  lemma ExampleNamesSkipped(nb: string, nt: string)
    requires nb == "obsquery_chunk_backup.csv" && nt == "notes.txt"
    ensures !Counted(nb) && !Counted(nt)
  {
    assert nb == ChunkPrefix + "backup" + ChunkSuffix;
    NonNumericTagSkipped("backup");
    assert !MatchesChunkPattern(nt);
  }

  /** `int()` does not strip the ASCII unit separator, so a name whose tag starts with one is
      skipped and a listing holding only that name resumes at 0. */
  lemma UnitSeparatorTagSkipped()
    ensures !Counted(ChunkPrefix + "\U{1F}12" + ChunkSuffix)
    ensures NextChunkNumber([ChunkPrefix + "\U{1F}12" + ChunkSuffix]) == 0
  {
    var name := ChunkPrefix + "\U{1F}12" + ChunkSuffix;
    NonNumericTagSkipped("\U{1F}12");
    NoneCountedStartsAtZero([name]);
  }

  /** The scan's list for the first three names of the example listing. */
  lemma ExampleParsedPrefix(n3: string, n7: string, nb: string)
    requires Counted(n3) && ChunkNumberOf(n3) == Some(3)
    requires Counted(n7) && ChunkNumberOf(n7) == Some(7)
    requires !Counted(nb)
    ensures ParsedNumbers([n3, n7, nb]) == [3, 7]
  {
    var l1 := [n3];
    var l2 := l1 + [n7];
    assert l1 == [] + [n3];
    SnocCounted([], n3, 3);
    SnocCounted(l1, n7, 7);
    SnocSkipped(l2, nb);
    assert l2 + [nb] == [n3, n7, nb];
  }

  /** The scan's list for the example listing. */
  lemma ExampleParsedNumbers(n3: string, n7: string, nb: string, n12: string, nt: string)
    requires Counted(n3) && ChunkNumberOf(n3) == Some(3)
    requires Counted(n7) && ChunkNumberOf(n7) == Some(7)
    requires Counted(n12) && ChunkNumberOf(n12) == Some(12)
    requires !Counted(nb) && !Counted(nt)
    ensures ParsedNumbers([n3, n7, nb, n12, nt]) == [3, 7, 12]
  {
    var l3 := [n3, n7, nb];
    ExampleParsedPrefix(n3, n7, nb);
    SnocCounted(l3, n12, 12);
    SnocSkipped(l3 + [n12], nt);
    assert l3 + [n12] + [nt] == [n3, n7, nb, n12, nt];
  }

  /** Files numbered 3, 7 and 12 beside a malformed chunk name and an unrelated
      file: the next number is 13. */
  lemma ResumeExample(n3: string, n7: string, nb: string, n12: string, nt: string)
    requires n3 == "obsquery_chunk_00003.csv" && n7 == "obsquery_chunk_00007.csv"
    requires nb == "obsquery_chunk_backup.csv" && n12 == "obsquery_chunk_00012.csv"
    requires nt == "notes.txt"
    ensures NextChunkNumber([n3, n7, nb, n12, nt]) == 13
  {
    ExampleNamesClassified(n3, n7, n12);
    ExampleNamesSkipped(nb, nt);
    ExampleParsedNumbers(n3, n7, nb, n12, nt);
    MaxOfSnoc([3], 7);
    MaxOfSnoc([3, 7], 12);
  }

  // ---------------------------------------------------------------------------
  // The extraction loop

  /** One written chunk file. */
  datatype ChunkFile = ChunkFile(name: string, contents: Frame)

  /** What a run reports: its first number, the files in write order, and the totals. */
  datatype Summary = Summary(startChunk: int, files: seq<ChunkFile>, totalRows: nat, chunkCount: nat)

  /** Rows across all chunks. */
  function TotalRows(chunks: seq<Frame>): nat
  {
    if |chunks| == 0 then 0 else TotalRows(chunks[..|chunks| - 1]) + |chunks[|chunks| - 1].rows|
  }

  /** The rows of all chunk files read back one after another. */
  function ConcatRows(files: seq<ChunkFile>): seq<Row>
  {
    if |files| == 0 then [] else files[0].contents.rows + ConcatRows(files[1..])
  }

  /** The extraction run: `existing` is the output directory's listing, `chunks`
      the batches the query yields in order. */
  method ExtractData(existing: seq<string>, chunks: seq<Frame>) returns (s: Summary)
    ensures s.startChunk == NextChunkNumber(existing)
    ensures s.chunkCount == |s.files| == |chunks|
    ensures forall i :: 0 <= i < |chunks| ==>
              s.files[i] == ChunkFile(ChunkFileName(s.startChunk + i), chunks[i])
    ensures s.totalRows == TotalRows(chunks)
  {
    var start := GetNextChunkNumber(existing);
    var files: seq<ChunkFile> := [];
    var totalRows := 0;
    var chunkCount := 0;
    var i := 0;
    while i < |chunks|
      invariant 0 <= i <= |chunks|
      invariant chunkCount == i
      invariant files == FilesFor(start, chunks[..i])
      invariant totalRows == TotalRows(chunks[..i])
    {
      var chunk := chunks[i];
      chunkCount := chunkCount + 1;
      totalRows := totalRows + |chunk.rows|;
      TotalRowsPrefixStep(chunks, i);
      FilesForPrefixStep(start, chunks, i);
      files := files + [ChunkFile(ChunkFileName(start + i), chunk)];
      i := i + 1;
    }
    assert chunks[..i] == chunks;
    FilesForNamed(start, chunks);
    s := Summary(start, files, totalRows, chunkCount);
  }

  /** The files a run starting at `start` writes for `chunks`, in order. */
  function FilesFor(start: int, chunks: seq<Frame>): (files: seq<ChunkFile>)
    ensures |files| == |chunks|
  {
    if |chunks| == 0 then []
    else FilesFor(start, chunks[..|chunks| - 1])
         + [ChunkFile(ChunkFileName(start + |chunks| - 1), chunks[|chunks| - 1])]
  }

  lemma {:induction false} FilesForNamed(start: int, chunks: seq<Frame>)
    ensures forall i :: 0 <= i < |chunks| ==>
              FilesFor(start, chunks)[i] == ChunkFile(ChunkFileName(start + i), chunks[i])
  {
    if |chunks| > 0 {
      var init := chunks[..|chunks| - 1];
      FilesForNamed(start, init);
      forall i | 0 <= i < |chunks|
        ensures FilesFor(start, chunks)[i] == ChunkFile(ChunkFileName(start + i), chunks[i])
      {
        if i < |init| {
          assert chunks[i] == init[i];
        }
      }
    }
  }

  lemma TotalRowsPrefixStep(chunks: seq<Frame>, i: nat)
    requires i < |chunks|
    ensures TotalRows(chunks[..i + 1]) == TotalRows(chunks[..i]) + |chunks[i].rows|
  {
    assert chunks[..i + 1][..i] == chunks[..i];
  }

  lemma FilesForPrefixStep(start: int, chunks: seq<Frame>, i: nat)
    requires i < |chunks|
    ensures FilesFor(start, chunks[..i + 1])
            == FilesFor(start, chunks[..i]) + [ChunkFile(ChunkFileName(start + i), chunks[i])]
  {
    assert chunks[..i + 1][..i] == chunks[..i];
  }

  /** The files of a run, read back and concatenated, hold as many rows as the batches. */
  lemma {:induction false} ReadBackRowCount(files: seq<ChunkFile>, chunks: seq<Frame>)
    requires |files| == |chunks|
    requires forall i :: 0 <= i < |chunks| ==> files[i].contents == chunks[i]
    ensures |ConcatRows(files)| == TotalRows(chunks)
  {
    if |files| > 0 {
      ReadBackRowCount(files[1..], chunks[1..]);
      TotalRowsCons(chunks);
    }
  }

  /** Summing from the front gives the same total as summing from the back. */
  lemma {:induction false} TotalRowsCons(chunks: seq<Frame>)
    requires |chunks| > 0
    ensures TotalRows(chunks) == |chunks[0].rows| + TotalRows(chunks[1..])
  {
    if |chunks| > 1 {
      var init := chunks[..|chunks| - 1];
      assert init[1..] == chunks[1..][..|chunks| - 2];
      TotalRowsCons(init);
    }
  }
}
