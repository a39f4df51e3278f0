/** The pure parts of the PDF-to-DOCX converter: the page-count time
    estimate, the download file name, and the rewrite of the temporary
    `.pdf` path into the temporary `.docx` path. */
module PdfConverter {
  import opened Strings

  // ---------------------------------------------------------------------
  // Conversion time estimate
  // ---------------------------------------------------------------------

  /** The four messages the estimate can return, in increasing order of
      time; the user-facing text itself is not modelled. */
  datatype TimeEstimate =
    | UnderAMinute      // "less than a minute"
    | OneToTwoMinutes   // "1-2 minutes"
    | TwoToFiveMinutes  // "2-5 minutes"
    | FiveToTenMinutes  // "5-10 minutes"

  /** Position of a bucket in the order of increasing time. */
  function Rank(e: TimeEstimate): nat
  {
    match e
    case UnderAMinute => 0
    case OneToTwoMinutes => 1
    case TwoToFiveMinutes => 2
    case FiveToTenMinutes => 3
  }

  /** The inclusive upper page counts of the first three buckets. */
  const Thresholds: seq<int> := [5, 20, 50]

  /** How many of the thresholds `ts` lie strictly below `n`: a reference
      definition of the bucket a page count falls in. */
  function CountBelow(n: int, ts: seq<int>): nat
  {
    if ts == [] then 0
    else (if ts[0] < n then 1 else 0) + CountBelow(n, ts[1..])
  }

  /** Total bucketed lookup from a page count (any integer, zero and
      negative counts included) to a time estimate. */
  function EstimateConversionTime(pageCount: int): (e: TimeEstimate)
    ensures e == UnderAMinute <==> pageCount <= 5
    ensures e == OneToTwoMinutes <==> 6 <= pageCount <= 20
    ensures e == TwoToFiveMinutes <==> 21 <= pageCount <= 50
    ensures e == FiveToTenMinutes <==> 50 < pageCount
  {
    if pageCount <= 5 then UnderAMinute
    else if pageCount <= 20 then OneToTwoMinutes
    else if pageCount <= 50 then TwoToFiveMinutes
    else FiveToTenMinutes
  }

  /** The bucket's rank is the number of thresholds the page count exceeds. */
  lemma {:induction false} EstimateRankCountsThresholds(pageCount: int)
    ensures Rank(EstimateConversionTime(pageCount)) == CountBelow(pageCount, Thresholds)
  {
    var n := pageCount;
    assert [5, 20, 50][1..] == [20, 50] && [20, 50][1..] == [50] && [50][1..] == [];
    assert CountBelow(n, [50]) == if 50 < n then 1 else 0;
    assert CountBelow(n, [20, 50]) == (if 20 < n then 1 else 0) + CountBelow(n, [50]);
    assert CountBelow(n, Thresholds) == (if 5 < n then 1 else 0) + CountBelow(n, [20, 50]);
  }

  /** Exceeding-threshold counts only grow with the page count. */
  lemma {:induction false} CountBelowMonotone(a: int, b: int, ts: seq<int>)
    requires a <= b
    ensures CountBelow(a, ts) <= CountBelow(b, ts)
  {
    if ts != [] {
      CountBelowMonotone(a, b, ts[1..]);
    }
  }

  /** More pages never give a shorter estimate. */
  lemma EstimateMonotone(a: int, b: int)
    requires a <= b
    ensures Rank(EstimateConversionTime(a)) <= Rank(EstimateConversionTime(b))
  {
    EstimateRankCountsThresholds(a);
    EstimateRankCountsThresholds(b);
    CountBelowMonotone(a, b, Thresholds);
  }

  // ---------------------------------------------------------------------
  // Output file name
  // ---------------------------------------------------------------------

  /** What every derived output name ends with. */
  const ConvertedSuffix: string := "_converted.docx"

  /** The name, lower-cased, ends with `.pdf`. */
  predicate HasPdfExtension(name: string)
  {
    EndsWith(Lower(name), ".pdf")
  }

  /** The name with one trailing `.pdf` (in any letter case) removed. */
  function BaseName(name: string): (b: string)
    ensures b <= name
    ensures |name| - |b| == if HasPdfExtension(name) then 4 else 0
  {
    if HasPdfExtension(name) then name[..|name| - 4] else name
  }

  /** The case-insensitive test accepts exactly the names ending in `.`
      followed by `p` or `P`, `d` or `D`, and `f` or `F`. */
  lemma HasPdfExtensionChars(name: string)
    ensures HasPdfExtension(name) <==>
      && |name| >= 4
      && name[|name| - 4] == '.'
      && name[|name| - 3] in "pP"
      && name[|name| - 2] in "dD"
      && name[|name| - 1] in "fF"
  {
  }

  /** The file name offered for download. */
  function OutputFilename(name: string): (r: string)
    ensures EndsWith(r, ConvertedSuffix)
    ensures r[..|r| - |ConvertedSuffix|] <= name
    ensures |r| == |name| - (if HasPdfExtension(name) then 4 else 0) + |ConvertedSuffix|
  {
    BaseName(name) + ConvertedSuffix
  }

  /** A name whose last four characters lower-case to `.pdf` loses them. */
  lemma OutputFilenameStripsPdf(name: string)
    requires |name| >= 4 && Lower(name[|name| - 4..]) == ".pdf"
    ensures OutputFilename(name) == name[..|name| - 4] + ConvertedSuffix
  {
    assert Lower(name)[|name| - 4..] == Lower(name[|name| - 4..]);
  }

  /** Any other name, shorter ones included, is kept whole. */
  lemma OutputFilenameKeepsOtherNames(name: string)
    requires |name| < 4 || Lower(name[|name| - 4..]) != ".pdf"
    ensures OutputFilename(name) == name + ConvertedSuffix
  {
    if |name| >= 4 {
      assert Lower(name)[|name| - 4..] == Lower(name[|name| - 4..]);
    }
  }

  /** The extension test ignores letter case: `.PDF`, `.Pdf`, ... are all
      stripped from any base name. */
  lemma OutputFilenameAnyCase(base: string, ext: string)
    requires |ext| == 4 && Lower(ext) == ".pdf"
    ensures OutputFilename(base + ext) == base + ConvertedSuffix
  {
    LowerConcat(base, ext);
    assert Lower(base + ext)[|base|..] == Lower(ext);
    assert (base + ext)[..|base|] == base;
  }

  /** Two names give the same output name exactly when they have the same
      base; so `report.pdf` and `report` collide. */
  lemma OutputFilenameSameBase(x: string, y: string)
    ensures OutputFilename(x) == OutputFilename(y) <==> BaseName(x) == BaseName(y)
  {
    if OutputFilename(x) == OutputFilename(y) {
      var rx, ry := OutputFilename(x), OutputFilename(y);
      assert BaseName(x) == rx[..|rx| - |ConvertedSuffix|];
      assert BaseName(y) == ry[..|ry| - |ConvertedSuffix|];
    }
  }

  /** Only one trailing extension is stripped. */
  lemma OutputFilenameStripsOneExtension()
    ensures OutputFilename("a.pdf.pdf") == "a.pdf_converted.docx"
  {
    assert Lower(".pdf") == ".pdf";
    OutputFilenameAnyCase("a.pdf", ".pdf");
    assert "a.pdf" + ".pdf" == "a.pdf.pdf";
  }

  /** A name shorter than the extension is kept whole. */
  lemma OutputFilenameShortName()
    ensures OutputFilename("pdf") == "pdf_converted.docx"
  {
    OutputFilenameKeepsOtherNames("pdf");
  }

  /** An output name never has a `.pdf` extension itself, so deriving again
      only appends another suffix. */
  lemma OutputFilenameReapplied(name: string)
    ensures !HasPdfExtension(OutputFilename(name))
    ensures OutputFilename(OutputFilename(name)) == OutputFilename(name) + ConvertedSuffix
  {
    var r := OutputFilename(name);
    assert Lower(r)[|r| - 1] == LowerChar(r[|r| - 1]) == 'x';
  }

  // ---------------------------------------------------------------------
  // Temporary path rewrite
  // ---------------------------------------------------------------------

  /** Python's `s.replace(pat, rep)`: every non-overlapping occurrence of
      `pat`, found scanning left to right, is replaced by `rep`; an empty
      `pat` matches before every character and at the end. */
  function ReplaceAll(s: string, pat: string, rep: string): (r: string)
    ensures pat != [] && |pat| <= |rep| ==> |s| <= |r|
    decreases |s|
  {
    if pat == [] then
      if s == [] then rep else rep + [s[0]] + ReplaceAll(s[1..], pat, rep)
    else if |s| < |pat| then s
    else if s[..|pat|] == pat then rep + ReplaceAll(s[|pat|..], pat, rep)
    else [s[0]] + ReplaceAll(s[1..], pat, rep)
  }

  /** A string without the pattern comes back unchanged. */
  lemma {:induction false} ReplaceAllWithoutMatch(s: string, pat: string, rep: string)
    requires pat != [] && !Contains(s, pat)
    ensures ReplaceAll(s, pat, rep) == s
    decreases |s|
  {
    if |s| >= |pat| {
      assert !OccursAt(s, pat, 0);
      forall i ensures !OccursAt(s[1..], pat, i) {
        if OccursAt(s[1..], pat, i) {
          assert s[1..][i..i + |pat|] == s[i + 1..i + 1 + |pat|];
          assert OccursAt(s, pat, i + 1);
        }
      }
      ReplaceAllWithoutMatch(s[1..], pat, rep);
    }
  }

  /** The path the converter writes its output to, derived from the
      temporary input path. */
  function TempDocxPath(pdfPath: string): (r: string)
    ensures |pdfPath| <= |r|
  {
    ReplaceAll(pdfPath, ".pdf", ".docx")
  }

  /** The rewrite keeps the first character: `.docx` starts like `.pdf`. */
  lemma TempDocxPathHead(s: string)
    requires s != []
    ensures TempDocxPath(s) != [] && TempDocxPath(s)[0] == s[0]
  {
  }

  /** A first character that cannot start `.pdf` is copied as is. */
  lemma TempDocxPathCopies(s: string)
    requires s != [] && s[0] != '.'
    ensures TempDocxPath(s) == [s[0]] + TempDocxPath(s[1..])
  {
  }

  /** After the rewrite no `.pdf` is left anywhere in the path. */
  lemma {:induction false} TempDocxPathHasNoPdf(s: string)
    ensures !Contains(TempDocxPath(s), ".pdf")
    decreases |s|
  {
    var r := TempDocxPath(s);
    if |s| < 4 {
      assert r == s;
    } else if s[..4] == ".pdf" {
      var t := TempDocxPath(s[4..]);
      assert r == ".docx" + t;
      TempDocxPathHasNoPdf(s[4..]);
      forall i | 0 <= i <= |r| && i + 4 <= |r| ensures !OccursAt(r, ".pdf", i) {
        if i == 0 {
          assert r[i..i + 4][1] == 'd';
        } else if i < 5 {
          assert r[i..i + 4][0] == r[i] != '.';
        } else {
          assert r[i..i + 4] == t[i - 5..i - 1];
          assert !OccursAt(t, ".pdf", i - 5);
        }
      }
    } else {
      var t := TempDocxPath(s[1..]);
      assert r == [s[0]] + t;
      TempDocxPathHasNoPdf(s[1..]);
      forall i | 0 <= i <= |r| && i + 4 <= |r| ensures !OccursAt(r, ".pdf", i) {
        if i == 0 {
          // s does not start with `.pdf`, and the rewrite copies the
          // characters `p`, `d`, `f` that follow a `.` there.
          TempDocxPathHead(s[1..]);
          assert r[1] == s[1];
          if s[0] == '.' && s[1] == 'p' {
            TempDocxPathCopies(s[1..]);
            assert s[1..][1..] == s[2..];
            TempDocxPathHead(s[2..]);
            assert r[2] == s[2];
            if s[2] == 'd' {
              TempDocxPathCopies(s[2..]);
              assert s[2..][1..] == s[3..];
              TempDocxPathHead(s[3..]);
              assert r[3] == s[3] != 'f';
            }
          }
          assert r[..4][0] == r[0] && r[..4][1] == r[1];
          assert r[..4][2] == r[2] && r[..4][3] == r[3];
        } else {
          assert r[i..i + 4] == t[i - 1..i + 3];
          assert !OccursAt(t, ".pdf", i - 1);
        }
      }
    }
  }

  /** A prefix free of `.pdf`, then `.pdf`, then anything: the first
      occurrence is the one after the prefix. */
  lemma {:induction false} TempDocxPathSplit(a: string, b: string)
    requires !Contains(a, ".pdf")
    ensures TempDocxPath(a + ".pdf" + b) == a + ".docx" + TempDocxPath(b)
    decreases |a|
  {
    var s := a + ".pdf" + b;
    if a == [] {
      assert s[..4] == ".pdf";
      assert s[4..] == b;
    } else {
      assert s[..4] != ".pdf" by {
        if |a| >= 4 {
          assert s[..4] == a[..4];
          assert !OccursAt(a, ".pdf", 0);
        } else {
          // `.pdf` cannot overlap itself at a shift of |a| in 1..3.
          assert s[..4][|a|] == '.';
        }
      }
      forall i ensures !OccursAt(a[1..], ".pdf", i) {
        if OccursAt(a[1..], ".pdf", i) {
          assert a[1..][i..i + 4] == a[i + 1..i + 5];
          assert OccursAt(a, ".pdf", i + 1);
        }
      }
      TempDocxPathSplit(a[1..], b);
      assert s[1..] == a[1..] + ".pdf" + b;
    }
  }

  /** A path whose only `.pdf` is its suffix gets that suffix swapped for
      `.docx` and nothing else changed. */
  lemma TempDocxPathSuffix(base: string)
    requires !Contains(base, ".pdf")
    ensures TempDocxPath(base + ".pdf") == base + ".docx"
  {
    TempDocxPathSplit(base, []);
    assert base + ".pdf" + [] == base + ".pdf";
  }

  /** The name Python's `tempfile.NamedTemporaryFile(suffix='.pdf')` gives:
      the temporary directory, a separator, the prefix `tmp`, a random
      stem, and the suffix. */
  function TempPdfPath(dir: string, random: string): (p: string)
    ensures EndsWith(p, ".pdf")
    ensures dir + "/" <= p
  {
    dir + "/tmp" + random + ".pdf"
  }

  /** No `.pdf` can start after the directory part, because the random stem
      has no `.`, nor straddle the separator. */
  lemma TempStemHasNoPdf(dir: string, random: string)
    requires !Contains(dir, ".pdf")
    requires forall j :: 0 <= j < |random| ==> random[j] != '.'
    ensures !Contains(dir + "/tmp" + random, ".pdf")
  {
    var s := dir + "/tmp" + random;
    forall i | 0 <= i <= |s| && i + 4 <= |s| ensures !OccursAt(s, ".pdf", i) {
      if i + 4 <= |dir| {
        assert s[i..i + 4] == dir[i..i + 4];
        assert !OccursAt(dir, ".pdf", i);
      } else if i < |dir| {
        assert s[i..i + 4][|dir| - i] == '/';
      } else if i < |dir| + 4 {
        assert s[i..i + 4][0] == "/tmp"[i - |dir|];
      } else {
        assert s[i..i + 4][0] == random[i - |dir| - 4];
      }
    }
  }

  /** With a temporary directory free of `.pdf`, the rewrite gives the same
      directory and stem with the suffix `.docx`. */
  lemma TempDocxPathOfTempFile(dir: string, random: string)
    requires !Contains(dir, ".pdf")
    requires forall j :: 0 <= j < |random| ==> random[j] != '.'
    ensures TempDocxPath(TempPdfPath(dir, random)) == dir + "/tmp" + random + ".docx"
  {
    TempStemHasNoPdf(dir, random);
    TempDocxPathSuffix(dir + "/tmp" + random);
  }

  /** As written, a `.pdf` inside the temporary directory is rewritten too:
      the output path lands in a different directory, `d1 + ".docx" + d2`. */
  lemma TempDocxPathMovesDirectory(d1: string, d2: string, random: string)
    requires !Contains(d1, ".pdf") && !Contains(d2, ".pdf")
    requires forall j :: 0 <= j < |random| ==> random[j] != '.'
    ensures TempDocxPath(TempPdfPath(d1 + ".pdf" + d2, random))
         == d1 + ".docx" + d2 + "/tmp" + random + ".docx"
    ensures !(d1 + ".pdf" + d2 <= TempDocxPath(TempPdfPath(d1 + ".pdf" + d2, random)))
  {
    var tail := d2 + "/tmp" + random;
    TempStemHasNoPdf(d2, random);
    TempDocxPathSuffix(tail);
    assert TempPdfPath(d1 + ".pdf" + d2, random) == d1 + ".pdf" + (tail + ".pdf");
    TempDocxPathSplit(d1, tail + ".pdf");
    var r := TempDocxPath(TempPdfPath(d1 + ".pdf" + d2, random));
    assert r[|d1| + 1] == 'd' && (d1 + ".pdf" + d2)[|d1| + 1] == 'p';
  }

  /** The evidently intended rewrite: swap only the trailing `.pdf`; a path
      without it gets `.docx` appended, so the output never equals the input. */
  function SwapPdfSuffix(pdfPath: string): (r: string)
    ensures EndsWith(r, ".docx") && r != pdfPath
    ensures EndsWith(pdfPath, ".pdf") ==> r[..|r| - 5] == pdfPath[..|pdfPath| - 4]
    ensures !EndsWith(pdfPath, ".pdf") ==> r[..|r| - 5] == pdfPath
  {
    if EndsWith(pdfPath, ".pdf") then pdfPath[..|pdfPath| - 4] + ".docx"
    else pdfPath + ".docx"
  }

  /** The intended rewrite keeps every temporary directory, `.pdf` in its
      name or not. */
  lemma SwapPdfSuffixOfTempFile(dir: string, random: string)
    ensures SwapPdfSuffix(TempPdfPath(dir, random)) == dir + "/tmp" + random + ".docx"
  {
    var p := TempPdfPath(dir, random);
    assert p[..|p| - 4] == dir + "/tmp" + random;
  }

  /** Where the only `.pdf` is the suffix, the written and the intended
      rewrites agree. */
  lemma SwapPdfSuffixAgrees(base: string)
    requires !Contains(base, ".pdf")
    ensures SwapPdfSuffix(base + ".pdf") == TempDocxPath(base + ".pdf")
  {
    TempDocxPathSuffix(base);
    assert (base + ".pdf")[..|base|] == base;
  }
}
