# ExcelsJoin merge, modelled in Dafny

ExcelsJoin is a browser page that joins several spreadsheet files into one.
The first sheet of each file is decoded into rows of cells. The first file's
first row, with each cell turned into its string form and trimmed, is the
reference header. Every file must start with exactly that header, or the
merge stops and names the first file that does not. If all files pass, the
output table is the reference header plus a `source_file` column. After it
come all rows after row 0 of every file, in file order and then row order.
Each row is padded with `''` or cut to the header's width, and gets its
file's name as the last cell.

The model has five files:

- `wrappers.dfy` (`Wrappers`): `Option` for an absent argument and `Result`
  for the merge's error returns.
- `cells.dfy` (`Cells`): a cell is a JavaScript string, number or boolean.
  `ToStr` is `String(v)`. `Trim` is `String.prototype.trim`, written as an
  index scan from both ends over the exact ECMAScript whitespace and
  line-terminator characters.
- `headers.dfy` (`Headers`): `arrayFirstRowToHeader` becomes `ToHeader`.
  `arraysEqual` becomes the method `ArraysEqual`, proved against the
  predicate `StringwiseEqual`.
- `merge.dfy` (`Merging`): the merge button's handler is the method `Merge`.
  It keeps the handler's two loops as the methods `FindMismatch` (the header
  scan) and `BuildRows` (the pushes into `outRows`). All three are proved
  against the function `MergeResult`.
- `merge_properties.dfy` (`MergeProperties`) and `merge_example.dfy`
  (`MergeExample`): what the merge promises, proved about `MergeResult`, and
  a worked two-file instance.

The rows are positional, following main.js:114. A decoded sheet is a
`seq<seq<Cell>>`, and `typeof r[idx] !== 'undefined'` is `idx < |r|`. A file
without rows is checked against the header `[]`, which is the
`p.json[0] ? … : []` of main.js:97. Its data rows are `[].slice(1) == []`.
So when the reference header is empty, a file without rows passes the check.

Some designs of this tool describe more than main.js does:

- header-row detection
- accent and case normalisation
- name-based column alignment
- a 50% missing-column threshold
- blank-row skipping
- warnings attached to a successful result

main.js does none of these. The model follows main.js.

## Model

| member | source | states |
|---|---|---|
| `Cells.Trim` | main.js:36 | the trimmed string neither starts nor ends with whitespace; it is empty exactly when the input is all whitespace; it is the input with only leading and trailing whitespace removed |
| `Cells.TrimIdempotent` | main.js:36 | trimming twice gives the same string as trimming once |
| `Cells.TrimKeepsTrimmed` | main.js:36 | a string with no whitespace at either end is left unchanged by trimming |
| `Headers.ToHeader` | main.js:35-37 | the header has the row's length; cell i is the trimmed string form of row cell i; every header cell is a trimmed string |
| `Headers.ToHeaderIdempotent` | main.js:35-37 | deriving a header from a header returns the same header |
| `Headers.ArraysEqual` | main.js:39-46 | false when either argument is absent or the lengths differ; otherwise true exactly when every position has the same string form |
| `Headers.StringwiseEqualReflexive` | main.js:42-45 | every present array equals itself |
| `Headers.StringwiseEqualSymmetric` | main.js:42-45 | the comparison gives the same answer with the arguments swapped |
| `Headers.StringwiseEqualTransitive` | main.js:42-45 | two arrays equal to a third are equal to each other |
| `Headers.StringwiseEqualHeaders` | main.js:39-46 | on derived headers, the string-form comparison holds exactly when the headers are identical |
| `Merging.FirstMismatch` | main.js:95-103 | returns the least index (from a start index on) whose file header does not match, or none exactly when every file from there on matches |
| `Merging.FindMismatch` | main.js:95-103 | the validation loop returns the first file whose header does not match the reference, or none |
| `Merging.BuildRows` | main.js:106-118 | the output is the header row plus `source_file`, followed by every file's data rows laid out on the header |
| `Merging.Merge` | main.js:77-118 | the handler returns exactly `MergeResult`: the no-files error, the empty-first-file error, the first mismatching file's name, or the table |
| `MergeProperties.BodyLength` | main.js:109-118 | the data part of the output has one row per data row, summed over the files |
| `MergeProperties.BodyAt` | main.js:109-118 | row j ≥ 1 of file f is data row `Position(files, f, j) - 1`, laid out from that source row |
| `MergeProperties.BodyOrigin` | main.js:109-118 | every data row of the output comes from some row j ≥ 1 of some file f |
| `MergeProperties.DataCountStep` | main.js:110-112 | file f's rows start right after all rows of the files before it |
| `MergeProperties.NoReferenceNoTable` | main.js:77-91 | no files gives `NoFiles`; a first file with zero rows gives `EmptyFirstFile`; neither produces a table |
| `MergeProperties.MatchesIsExactEquality` | main.js:97-98 | a file passes the header check exactly when its header is identical to the reference |
| `MergeProperties.FirstFilePasses` | main.js:92-98 | the first file always passes the header check |
| `MergeProperties.RowlessFileMatchesOnlyEmptyHeader` | main.js:97-98 | a file with no rows passes exactly when the reference header is empty |
| `MergeProperties.FirstMismatchAt` | main.js:95-103 | the scan stops at the first mismatching file |
| `MergeProperties.MergeSucceedsIff` | main.js:95-107 | the merge succeeds exactly when there is a first file with rows and every file's header is the reference |
| `MergeProperties.MergeAbortsAtFirstMismatch` | main.js:95-103 | the first file whose header differs aborts the merge, which names that file and gives no table |
| `MergeProperties.MismatchErrorNamesOffender` | main.js:98-101 | a mismatch error names a file whose header differs, and every file before it matched |
| `MergeProperties.MergeResultValue` | main.js:106-118 | a successful result is the header row followed by the data rows |
| `MergeProperties.MergedHeaderRow` | main.js:106-107 | on success, row 0 is the reference header followed by `source_file`, and the table has 1 + (sum of rows − 1 per file) rows |
| `MergeProperties.FileRowAt` | main.js:111-117 | a file's output row j − 1 is its source row j, laid out on the header and tagged with the file's name |
| `MergeProperties.PaddedRow` | main.js:114-115 | a laid-out row has header width + 1 cells; each cell is the source cell if present and `''` otherwise; source cells past the header are dropped; the last cell is the file name |
| `MergeProperties.BodyRowLaidOut` | main.js:110-117 | data row `Position(files, f, j) - 1` is source row j of file f, laid out and tagged |
| `MergeProperties.MergedRowAt` | main.js:110-117 | on success, output row `Position(files, f, j)` is row j ≥ 1 of file f, laid out on the header and tagged with f's name |
| `MergeProperties.MergedRowOrigin` | main.js:110-117 | on success, every output row after row 0 is row j ≥ 1 of some file f; no row is invented |
| `MergeProperties.MergedRowShape` | main.js:114-116 | on success, every output row after row 0 has header width + 1 cells and ends with an input file's name |
| `MergeExample.File2Header` | main.js:35-37 | the header ` id`, `name ` derives to `id`, `name` |
| `MergeExample.TwoFilesMerge` | main.js:77-118 | two files with the header `id`, `name` merge into the header plus `source_file`, then file1's two rows and file2's padded row, each tagged with its own file's name |

## Left out

- The page around the merge is outside this model: the DOM, `showAlert` and its timer, the preview button (main.js:4-13, main.js:48-74) and the button's disabled state and text (main.js:80-81, main.js:143-146).
- Reading and decoding files (`readFileAsArrayBuffer`, `parseWorkbook`, `Promise.all`, main.js:15-33, main.js:84) is asynchronous I/O through the workbook library. The model takes the decoded first sheet of each file as input, so a decode failure is not modelled. Those failures surface only through the `catch` of main.js:140-142.
- Writing the result (`aoa_to_sheet`, `book_new`, `XLSX.write`, the Blob and the download link, main.js:121-138) is left out. The output table is the result value.
- `Cells.ToStr`: numbers are integers rendered in decimal. Non-integer numbers, dates and JavaScript's exact number formatting are not modelled. They only matter for header cells, which are compared through their string forms.
- `Cells.Trim`: the whitespace set is ECMAScript's WhiteSpace and LineTerminator, using the Unicode space separators of current Unicode versions. Later changes to that category are not followed.
- `Headers.ArraysEqual`: JavaScript's other falsy arguments (`0`, `''`) are not modelled. An absent argument is `None`; the merge always passes present arrays.
