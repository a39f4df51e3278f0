# PDF-to-DOCX converter helpers, modelled in Dafny

The converter module of this small PDF-to-Word utility has three pieces of
pure logic around its calls into the conversion library, and this project
models all three:

- **Conversion time estimate.** A page count maps to one of four fixed
  messages. The buckets are at most 5 pages, 6 to 20, 21 to 50, and more
  than 50. The model is `PdfConverter.EstimateConversionTime`, and the four
  messages are the enum `TimeEstimate`.
- **Download file name.** One trailing `.pdf`, in any letter case, is
  removed, and `_converted.docx` is appended. The model is
  `PdfConverter.OutputFilename`.
- **Temporary output path.** The temporary `.docx` path is derived from the
  temporary `.pdf` path with Python's replace-all: `path.replace('.pdf',
  '.docx')`. The model is the general `PdfConverter.ReplaceAll` and its
  instance `PdfConverter.TempDocxPath`.

`strings.dfy` (module `Strings`) holds the string helpers: suffix and
substring tests, plus ASCII lower-casing. `pdf_converter.dfy` (module
`PdfConverter`) models `utils/pdf_converter.py`.

The thresholds are 5, 20 and 50 pages. Only one extension is removed, so
`a.pdf.pdf` becomes `a.pdf_converted.docx`
(`OutputFilenameStripsOneExtension`).

Python's `tempfile.NamedTemporaryFile` names its file as the temporary
directory, a separator, `tmp`, a random stem and the suffix. The random stem
uses lower-case letters, digits and `_`. That naming belongs to the Python library,
not to this repository, so `TempPdfPath` takes the directory and the stem as
parameters. The lemmas that use it require only that the stem has no `.`.

## Model

| member | source | states |
|---|---|---|
| `PdfConverter.EstimateConversionTime` | utils/pdf_converter.py:59-76 | Total on every integer, negative and zero included. The result is "under a minute" iff count <= 5, "1-2 minutes" iff 6..20, "2-5 minutes" iff 21..50, and "5-10 minutes" iff > 50. It is always one of the four messages. |
| `PdfConverter.EstimateRankCountsThresholds` | utils/pdf_converter.py:69-76 | The bucket's rank is the number of the thresholds 5, 20 and 50 that the page count exceeds. |
| `PdfConverter.CountBelowMonotone` | utils/pdf_converter.py:69-76 | The number of thresholds exceeded never decreases as the page count grows. |
| `PdfConverter.EstimateMonotone` | utils/pdf_converter.py:69-76 | If a <= b, the estimate for a ranks no higher than the estimate for b. |
| `PdfConverter.HasPdfExtensionChars` | utils/pdf_converter.py:88 | `.lower().endswith('.pdf')` accepts a name exactly when it has at least 4 characters and ends in `.`, then `p` or `P`, `d` or `D`, `f` or `F`. So `.PDF`, `.Pdf` and the other case mixes all count. |
| `Strings.LowerConcat` | utils/pdf_converter.py:88 | Lower-casing distributes over concatenation. |
| `PdfConverter.BaseName` | utils/pdf_converter.py:88-91 | The base is a prefix of the name. It is 4 characters shorter when the lower-cased name ends with `.pdf`, and equal to the name otherwise. |
| `PdfConverter.OutputFilename` | utils/pdf_converter.py:78-93 | The result always ends with `_converted.docx`. What comes before the suffix is a prefix of the input. The result's length is the input's length, minus 4 when a `.pdf` was stripped, plus the suffix length. |
| `PdfConverter.OutputFilenameStripsPdf` | utils/pdf_converter.py:88-93 | If the last four characters, lower-cased, are `.pdf`, the result is the name without them followed by `_converted.docx`. |
| `PdfConverter.OutputFilenameKeepsOtherNames` | utils/pdf_converter.py:90-93 | Any other name, including one shorter than 4 characters, is kept whole and followed by `_converted.docx`. |
| `PdfConverter.OutputFilenameAnyCase` | utils/pdf_converter.py:88-89 | Any four-character extension that lower-cases to `.pdf` (`.PDF`, `.Pdf`, ...) is stripped from any base. |
| `PdfConverter.OutputFilenameSameBase` | utils/pdf_converter.py:88-93 | Two names give the same output name iff they have the same base. So `report.pdf` and `report` collide. |
| `PdfConverter.OutputFilenameStripsOneExtension` | utils/pdf_converter.py:88-93 | `a.pdf.pdf` becomes `a.pdf_converted.docx`: only one extension is stripped. |
| `PdfConverter.OutputFilenameShortName` | utils/pdf_converter.py:88-93 | `pdf`, which is shorter than the extension, becomes `pdf_converted.docx`. |
| `PdfConverter.OutputFilenameReapplied` | utils/pdf_converter.py:88-93 | An output name never has a `.pdf` extension, so deriving a name from it again only appends another suffix. |
| `PdfConverter.ReplaceAll` | utils/pdf_converter.py:31 | Python's `str.replace`. A non-empty pattern replaced by a text at least as long never shortens the string. It is pinned down by `ReplaceAllWithoutMatch` (no match: unchanged), `TempDocxPathSplit` (left-to-right, first match replaced) and `TempDocxPathHasNoPdf` (no match left). |
| `PdfConverter.TempDocxPath` | utils/pdf_converter.py:31 | The output path is never shorter than the input path. `TempDocxPathSplit` and `TempDocxPathHasNoPdf` fix its result: each `.pdf` is replaced in order, and none remains. |
| `PdfConverter.TempPdfPath` | utils/pdf_converter.py:26-28 | The temporary input path lies in the given directory, after a separator, and ends with the suffix `.pdf`. `TempStemHasNoPdf`, `TempDocxPathOfTempFile` and `TempDocxPathMovesDirectory` say what the rewrite does to it. |
| `PdfConverter.ReplaceAllWithoutMatch` | utils/pdf_converter.py:31 | `str.replace` with a non-empty pattern leaves a string without that pattern unchanged. |
| `PdfConverter.TempDocxPathHasNoPdf` | utils/pdf_converter.py:31 | After the rewrite, no `.pdf` occurs anywhere in the path: every occurrence has been replaced. |
| `PdfConverter.TempDocxPathSplit` | utils/pdf_converter.py:31 | The scan goes left to right. For a prefix with no `.pdf`, then `.pdf`, then any rest, the result is the prefix, then `.docx`, then the rewritten rest. |
| `PdfConverter.TempDocxPathSuffix` | utils/pdf_converter.py:26-31 | A path whose only `.pdf` is its suffix maps to the same prefix followed by `.docx`. |
| `PdfConverter.TempStemHasNoPdf` | utils/pdf_converter.py:26 | If the temporary directory has no `.pdf`, the temporary name without its suffix has none either. |
| `PdfConverter.TempDocxPathOfTempFile` | utils/pdf_converter.py:26-31 | With such a directory, the output path is the same directory and stem with the suffix `.docx`. |
| `PdfConverter.TempDocxPathMovesDirectory` | utils/pdf_converter.py:26-31 | As written: if the temporary directory is `d1.pdfd2`, the output path is in `d1.docxd2`. The original directory is not a prefix of the output path. |
| `PdfConverter.SwapPdfSuffix` | utils/pdf_converter.py:31 | Corrected rewrite: the result ends with `.docx` and differs from the input. Only a trailing `.pdf` is replaced, and everything before it is kept. |
| `PdfConverter.SwapPdfSuffixOfTempFile` | utils/pdf_converter.py:26-31 | The corrected rewrite keeps every temporary directory and stem, whether or not the directory contains `.pdf`. |
| `PdfConverter.SwapPdfSuffixAgrees` | utils/pdf_converter.py:31 | Where the only `.pdf` is the suffix, the corrected rewrite and the written one give the same path. |

## Findings

| source | as written | input that shows it | evidently intended | confidence | as-written member | corrected member |
|---|---|---|---|---|---|---|
| utils/pdf_converter.py:31 | `replace('.pdf', '.docx')` rewrites every `.pdf` in the temporary path, including any inside the temporary directory name | temporary directory `/home/u/books.pdfs`: the input is `/home/u/books.pdfs/tmpab12cd34.pdf`, and the output path becomes `/home/u/books.docxs/tmpab12cd34.docx`, in a directory that may not exist | swap only the trailing `.pdf` for `.docx`, so the output sits beside the input | medium, not executed | `PdfConverter.TempDocxPathMovesDirectory` | `PdfConverter.SwapPdfSuffix` |

## Left out

- `convert_pdf_to_docx` (utils/pdf_converter.py:10-57), except for the path rewrite on line 31. The rest is file I/O: writing the temporary input, calling the external `pdf2docx` converter, reading back the result, and deleting the temporary files on every exit path. It also maps exceptions to an error tuple.
- The user-facing message texts: the four estimate results are the enum `TimeEstimate`.
- `Strings.Lower`: models ASCII case folding only. Python's Unicode `str.lower` can change other characters, and a few of them change length. No non-ASCII character lower-cases to `.`, `p`, `d` or `f`, so the `.pdf` test still gives Python's answer.
- `PdfConverter.ReplaceAll`: the optional `count` argument of `str.replace` is not modelled, because line 31 does not use it.
- `PdfConverter.TempPdfPath`: the temporary directory and the random stem are parameters. They stand for the platform's temporary directory and random name generator. The model does not handle a directory that already ends in a separator. The separator is fixed to the POSIX `/`; on Windows `os.path.join` uses `\`. The lemmas about it hold for any separator that is not one of the characters of `.pdf`.
- `utils/pdf_validator.py`: a thin wrapper over the external `PyPDF2` reader (opening, encryption check, page count, text and metadata lookups), not part of this model.
- `app.py`: the web user interface, including the 200 MB size check and the download button, not part of this model.
