# txtar codec, modelled in Dafny

The JavaScript port of the txtar archive format in `txtar-js/index.ts`. A txtar archive is
a free-form comment followed by files. Each file starts with a marker line
`-- name --`, and what follows, up to the next marker line, is its data. The codec has
five parts, each modelled here:

- **Data model.** `TxtArFile`/`TxtAr` become the datatypes `Txtar.File` and `Txtar.Archive`.
  The constants `MARKER`, `MARKER_END` and `NEWLINE_MARKER` become `Txtar.MarkerStart`,
  `Txtar.MarkerEnd` and `Txtar.NewlineMarker`.
- **`fixNL`** and **`isMarker`** are pure, so they become the functions `Txtar.FixNL` and
  `Txtar.IsMarker`. `null` is `None`.
- **`findFileMarker`** is a cursor loop. It tests `isMarker` on the tail and otherwise
  jumps to the line start just after the newline of the next `"\n-- "`. It becomes the method `Txtar.FindFileMarker`, which
  keeps that loop (`while true`), and it is proved equal to a reference definition,
  `Txtar.MarkerSplit`. The reference is a plain scan over every line start of the
  input (`Txtar.FirstMarker`), with no jumps.
- **`parse`** becomes the method `Txtar.Parse`. Its loop calls `FindFileMarker` and pushes
  one file per marker. It is proved equal to the function `Txtar.Parsed`.
- **`format`** becomes the method `Txtar.Format`. Its loop appends a marker line and the
  normalised data for each file. It is proved equal to the function `Txtar.Formatted`.

The JavaScript string operations the codec uses are in module `JsString` (`Strings.dfy`):
`startsWith`, `endsWith`, `indexOf` and `trim`. Strings are sequences of characters.
`trim` removes the ECMAScript WhiteSpace and LineTerminator characters, written out as a
fixed set.

What is proved about these definitions:
- *Round trip* (`RoundTrip.dfy`): `parse(format(a))` is `a` with its comment and data
  newline-normalised, whenever `a` is well-formed.
- *Parse output*: whatever `parse` returns is well-formed and normalised, so
  `parse ∘ format ∘ parse = parse`.
- *Examples* (`Examples.dfy`): concrete edge cases (empty input, a missing final
  newline, rejected marker lines, a marker in mid-line), and an archive that meets
  `format`'s documented assumption yet does not come back.

The doc comment of `format` (`txtar-js/index.ts:13-17`) says an archive is well-formed
when its comment and data hold no marker line and every name is non-empty, which
implies that `parse` reads such an archive back. The code normalises the data and
trims the names it reads, so the model proves that `parse(format(a))` equals the
*normalised* archive, for names that are also trimmed and newline-free (see Findings).

## Model

| member | source | states |
|---|---|---|
| JsString.IndexOfFirst | txtar-js/index.ts:89 | `indexOf` returns the first occurrence of the pattern, and -1 exactly when there is none |
| JsString.TrimSpec | txtar-js/index.ts:118 | `trim` removes a run of whitespace at each end and nothing else; the result neither starts nor ends with whitespace; a string with nothing to remove is unchanged |
| JsString.TrimIdempotent | txtar-js/index.ts:118 | trimming twice is trimming once |
| JsString.TrimWithin | txtar-js/index.ts:118 | the trimmed string holds no character the input does not |
| Txtar.FixNL | txtar-js/index.ts:133-138 | the result is empty or newline-terminated, extends the input by at most one character, and is the input itself when that is already empty or newline-terminated |
| Txtar.FixNLIdempotent | txtar-js/index.ts:133-138 | normalising twice is normalising once |
| Txtar.IsMarkerIff | txtar-js/index.ts:107-121 | the input begins with a marker exactly when all four hold: it starts with `-- `; its first line ends with ` --`; that line is at least 6 characters; the interior does not trim to empty. The name is then the trimmed interior, and `after` is the text after the first newline |
| Txtar.IsMarkerByFirstLine | txtar-js/index.ts:111-113 | cutting the line at `indexOf("\n")` (or taking the whole input) is the same as taking the first line, and the text after it is what follows the first newline |
| Txtar.IsMarkerStart | txtar-js/index.ts:108-110 | a recognised marker starts with `-- ` |
| Txtar.IsMarkerName | txtar-js/index.ts:118-121 | a recognised name is non-empty, equal to its own trim and newline-free; the marker line takes at least 6 characters of the input |
| Txtar.IsMarkerDecomposes | txtar-js/index.ts:111-126 | the input equals the marker line, plus `"\n"` when the line has one, plus `after` |
| Txtar.IsMarkerSameLine | txtar-js/index.ts:111-118 | two inputs with the same first line agree on whether they are a marker, and on the name |
| Txtar.IsMarkerAppend | txtar-js/index.ts:111-113 | appending text after the first newline leaves the verdict and the name alone, and extends `after` by that text |
| Txtar.IsMarkerOfMarkerLine | txtar-js/index.ts:107-127 | the line `format` writes for a valid name is recognised with that name, and `after` is exactly the text that follows it |
| Txtar.IsMarkerOfMarkerLineTrimmed | txtar-js/index.ts:118 | the line written for any newline-free name that does not trim to empty is recognised, with the name trimmed |
| Txtar.MarkerStartsAt | txtar-js/index.ts:78-82 | entry `i` of the reference table says whether `i` is a line start where a marker begins |
| Txtar.FirstMarkerFound | txtar-js/index.ts:78-88 | what the reference scan finds is a line start where a marker begins, and no earlier line start begins one |
| Txtar.FirstMarkerNone | txtar-js/index.ts:89-97 | the reference scan finds nothing exactly when no line of the input begins with a marker |
| Txtar.MarkerSplitFound | txtar-js/index.ts:78-88 | when a marker is found: `before` is a prefix of the input; it is empty or newline-terminated; it holds no marker line; the name is valid; the marker at the end of `before` is the one `isMarker` reports |
| Txtar.MarkerSplitMarker | txtar-js/index.ts:84-87 | with a name, `before` is a prefix of the input and `isMarker` at its end gives the name and `after` |
| Txtar.MarkerSplitDecomposes | txtar-js/index.ts:84-87 | with a name, the input equals `before`, plus the marker line, plus its newline if present, plus `after` |
| Txtar.MarkerSplitNotFound | txtar-js/index.ts:89-97 | the name is empty exactly when no line begins with a marker; then the result is `(fixNL(data), "", "")` |
| Txtar.MarkerSplitBefore | txtar-js/index.ts:73-76 | `before` is always empty or newline-terminated and holds no marker line |
| Txtar.MarkerSplitShrinks | txtar-js/index.ts:84-96 | with a name, `after` is shorter than the input; without one, `after` is empty |
| Txtar.NoMarkerLinesFixNL | txtar-js/index.ts:93 | adding the final newline introduces no marker line |
| Txtar.NoMarkerBeforeNewlineMarker | txtar-js/index.ts:89-98 | when `isMarker` fails at `i`, no line start before the next `"\n-- "` begins a marker (none at all when there is no next one), and `i + j + 1` is again a line start |
| Txtar.ScanStep | txtar-js/index.ts:78-99 | one turn of the scanner's loop ends in one of three ways: it returns the split; it returns `(fixNL(data), "", "")`; or it moves to a later line start from which the reference scan still finds the first marker |
| Txtar.FindFileMarker | txtar-js/index.ts:77-100 | the cursor loop with its jumps returns exactly the split made at the first line start that begins a marker, and terminates |
| Txtar.ParseFiles | txtar-js/index.ts:43-59 | the loop collects no file exactly when the current name is empty |
| Txtar.ParseFilesStep | txtar-js/index.ts:43-59 | one turn of `parse`'s loop moves one file to the collected files and shrinks the remaining text (or the name), so the loop terminates |
| Txtar.Parse | txtar-js/index.ts:32-65 | the loop returns exactly `Parsed(data)`: the comment before the first marker, then one file per marker in order |
| Txtar.FormatFilesSnoc | txtar-js/index.ts:23-26 | writing one more file appends its marker line and its normalised data |
| Txtar.Format | txtar-js/index.ts:21-28 | the loop returns `fixNL(comment)` followed, file by file, by `-- name --\n` and `fixNL(data)` |
| TxtarRoundTrip.NormalizedFilesAt | txtar-js/index.ts:25 | the normalised files keep their names and order; each file's data is its `fixNL` |
| TxtarRoundTrip.NormalizedFilesIdempotent | txtar-js/index.ts:133-136 | files whose data is already newline-terminated are left alone by normalising |
| TxtarRoundTrip.MarkerSplitAtMarkerLine | txtar-js/index.ts:24 | after normalised text without marker lines, a written marker line is the first one found, with that name and exactly the following text as `after` |
| TxtarRoundTrip.MarkerSplitNoMarker | txtar-js/index.ts:89-97 | normalised text without marker lines is returned whole as `before`, with no name |
| TxtarRoundTrip.ParseFilesFormat | txtar-js/index.ts:43-59 | from a written marker line on, `parse`'s loop reads back exactly the files `format` wrote, normalised, in order |
| TxtarRoundTrip.RoundTrip | txtar-js/index.ts:13-17 | for a well-formed archive, `parse(format(a))` has comment `fixNL(a.comment)` and the same files in order, each with data `fixNL(data)`. Well-formed means: no marker line in the comment or any data; every name non-empty, trimmed and newline-free |
| TxtarRoundTrip.RoundTripExact | txtar-js/index.ts:13-17 | a well-formed archive whose comment and data are already normalised comes back unchanged |
| TxtarRoundTrip.ParsedFilesCons | txtar-js/index.ts:51-54 | pushing a file as `parse` produces it keeps every collected file so |
| TxtarRoundTrip.MarkerSplitParsedFile | txtar-js/index.ts:44-54 | a found name and the `before` of the next scan make a file as `parse` produces it |
| TxtarRoundTrip.ParseFilesValid | txtar-js/index.ts:43-59 | every file `parse`'s loop collects has a valid name and data that is newline-terminated and holds no marker line |
| TxtarRoundTrip.ParsedWellFormed | txtar-js/index.ts:32-65 | what `parse` returns is always well-formed, and its comment and data are empty or newline-terminated |
| TxtarRoundTrip.ParsedNoFiles | txtar-js/index.ts:36-43 | `parse` finds no file exactly when no line of the text begins with a marker; then the comment is `fixNL(text)` |
| TxtarRoundTrip.ParsedMarkerFirst | txtar-js/index.ts:36-40 | text that begins with a marker has an empty comment, and its first file has that marker's name |
| TxtarRoundTrip.ParseFormatParse | txtar-js/index.ts:32-65 | formatting what `parse` returned and parsing again gives the same archive |
| TxtarRoundTrip.FormatParseFormat | txtar-js/index.ts:21-28 | for a well-formed archive, format, parse and format again gives the text of the first format |
| TxtarRoundTrip.FormatNormalized | txtar-js/index.ts:22-25 | normalising an archive first does not change what `format` writes |
| TxtarExamples.FormatCommentOnly | txtar-js/index.ts:21-28 | `format` of comment `"x"` and of comment `"x\n"`, with no files, are both `"x\n"` |
| TxtarExamples.ParseEmpty | txtar-js/index.ts:32-65 | `parse("")` is the empty archive |
| TxtarExamples.ParseNoMarkers | txtar-js/index.ts:89-97 | text without marker lines is all comment |
| TxtarExamples.ParseSingleFile | txtar-js/index.ts:89-97 | a final marker line followed by data without a newline gives one file whose data gains the newline |
| TxtarExamples.ParseOneFile | txtar-js/index.ts:43-59 | a written marker line followed by data without marker lines is one file with that data normalised |
| TxtarExamples.ParseTwoFiles | txtar-js/index.ts:32-65 | two files come back in order, with their data |
| TxtarExamples.ShortMarkerRejected | txtar-js/index.ts:114-116 | `-- --` (too short) and `-- a` (no closing ` --`) are no markers, whatever follows them |
| TxtarExamples.LineNoMarker | txtar-js/index.ts:114-116 | a line that does not end with ` --`, or is shorter than 6 characters, is no marker |
| TxtarExamples.BlankNameNoMarker | txtar-js/index.ts:119-121 | `--  --`, whose interior trims to nothing, is no marker |
| TxtarExamples.ParseEmptyName | txtar-js/index.ts:119-121 | a would-be marker line with a blank name is ordinary comment text |
| TxtarExamples.ParseMidLineMarker | txtar-js/index.ts:108-110 | `-- x --` in the middle of a line is not a marker |
| TxtarExamples.WellFormedIsDocumented | txtar-js/index.ts:13-17 | the round trip's assumption implies the one `format` documents |
| TxtarExamples.DocumentedAssumptionTooWeak | txtar-js/index.ts:13-17 | the archive with one file named `" a"` meets the documented assumption, yet `parse(format(a))` names the file `"a"` and differs from the normalised archive |

## Left out

- `fuzz` (`txtar-js/index.ts:140-165`) is left out. It is a differential-testing harness: it makes network requests, logs to the console and throws a string.
- `txtar-go/main.go` is not part of this model. It is an HTTP server around the Go library, i.e. network I/O plus a foreign library.
- `txtar-js/index.d.ts` is not part of this model. It holds type declarations only.
- Strings are sequences of characters. JavaScript's UTF-16 code-unit indexing, surrogate pairs included, is not modelled.
- `JsString.Trim` uses the ECMAScript WhiteSpace and LineTerminator sets as a fixed list of characters. Any Unicode-version-dependent differences in the `Zs` category are not modelled.
- The codec's `Marker & { before }` object and the `null` return value become the datatypes `Split` and `Option`.
- `Txtar.MarkerSplit` has a `case None` after its scan succeeds. That case cannot occur (`Txtar.FirstMarkerFound`), and it gives the same result as finding no marker.

## Findings

| source | as written | input that shows it | evidently intended | confidence | as-written member | corrected member |
|---|---|---|---|---|---|---|
| txtar-js/index.ts:13-17 | `format` documents that an archive is well-formed when its comment and data hold no marker line and every name is non-empty; under that assumption `parse` should read the archive back | `{comment: "", files: [{name: " a", data: ""}]}`: `format` writes `"--  a --\n"`, and `parse` reads the name back trimmed as `"a"` (a name holding a newline is likewise lost) | the assumption also requires every name to be its own trim and newline-free, and the round trip holds with data newline-normalised | not executed | TxtarExamples.DocumentedAssumptionTooWeak | TxtarRoundTrip.RoundTrip |
