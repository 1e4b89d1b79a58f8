/**
  The merge behind the "merge and download" button: check that every file
  starts with the same header as the first file, then emit that header plus
  a `source_file` column, followed by every later row of every file, padded
  or cut to the header's width and tagged with its file's name.
*/
module Merging {
  import opened Wrappers
  import opened Cells
  import opened Headers

  /** A decoded input file: its name and the rows of its first sheet. */
  datatype SourceFile = SourceFile(name: string, rows: seq<seq<Cell>>)

  type Table = seq<seq<Cell>>

  datatype MergeError =
    | NoFiles                        // no file was selected
    | EmptyFirstFile                 // the first file has no rows
    | HeaderMismatch(fileName: string)  // this file's header differs from the first file's

  const SourceColumn: string := "source_file"

  /** The header a file is checked with: its first row's header, or `[]` for a file without rows. */
  function HeaderOf(f: SourceFile): seq<Cell>
  {
    if |f.rows| > 0 then ToHeader(f.rows[0]) else []
  }

  /** The reference header, taken from the first file's first row. */
  function Reference(files: seq<SourceFile>): seq<Cell>
    requires |files| > 0 && |files[0].rows| > 0
  {
    ToHeader(files[0].rows[0])
  }

  predicate Matches(headerRef: seq<Cell>, f: SourceFile)
  {
    StringwiseEqual(Some(headerRef), Some(HeaderOf(f)))
  }

  /** `rows.slice(1)`: every row after the header row (none for a file without rows). */
  function DataRows(f: SourceFile): seq<seq<Cell>>
  {
    if |f.rows| == 0 then [] else f.rows[1..]
  }

  /** A data row laid out on the reference header: cell `idx` if the row has one, `''` otherwise. */
  function PadToHeader(r: seq<Cell>, headerRef: seq<Cell>): seq<Cell>
  {
    seq(|headerRef|, idx requires 0 <= idx < |headerRef| => if idx < |r| then r[idx] else Text(""))
  }

  /** The output rows one file contributes. */
  function FileRows(f: SourceFile, headerRef: seq<Cell>): Table
  {
    var rows := DataRows(f);
    seq(|rows|, j requires 0 <= j < |rows| => PadToHeader(rows[j], headerRef) + [Text(f.name)])
  }

  /** The output rows of all files, in file order. */
  function Body(files: seq<SourceFile>, headerRef: seq<Cell>): Table
    decreases |files|
  {
    if files == [] then []
    else Body(files[..|files| - 1], headerRef) + FileRows(files[|files| - 1], headerRef)
  }

  /** The number of data rows of all files: the sum of (rows - 1) over files that have rows. */
  function DataCount(files: seq<SourceFile>): nat
    decreases |files|
  {
    if files == [] then 0
    else DataCount(files[..|files| - 1]) + |DataRows(files[|files| - 1])|
  }

  /** Where row `j` (`j >= 1`) of file `f` lands in the output table, whose row 0 is the header. */
  function Position(files: seq<SourceFile>, f: nat, j: nat): nat
    requires f <= |files|
  {
    DataCount(files[..f]) + j
  }

  /** The index, from `from` on, of the first file whose header does not match. */
  function FirstMismatch(files: seq<SourceFile>, headerRef: seq<Cell>, from: nat): (k: Option<nat>)
    decreases |files| - from
    ensures k.Some? ==> from <= k.value < |files| && !Matches(headerRef, files[k.value])
    ensures k.Some? ==> forall i :: from <= i < k.value ==> Matches(headerRef, files[i])
    ensures k.None? <==> forall i :: from <= i < |files| ==> Matches(headerRef, files[i])
  {
    if from >= |files| then None
    else if !Matches(headerRef, files[from]) then Some(from)
    else FirstMismatch(files, headerRef, from + 1)
  }

  /** What the merge produces for a list of decoded files. */
  function MergeResult(files: seq<SourceFile>): Result<Table, MergeError>
  {
    if |files| == 0 then Failure(NoFiles)
    else if |files[0].rows| == 0 then Failure(EmptyFirstFile)
    else
      var headerRef := Reference(files);
      match FirstMismatch(files, headerRef, 0)
      case Some(k) => Failure(HeaderMismatch(files[k].name))
      case None => Success([headerRef + [Text(SourceColumn)]] + Body(files, headerRef))
  }

  /** The validation scan: the first file (from index 0) whose header is not the reference. */
  method FindMismatch(files: seq<SourceFile>, headerRef: seq<Cell>) returns (k: Option<nat>)
    ensures k == FirstMismatch(files, headerRef, 0)
  {
    for i := 0 to |files|
      invariant FirstMismatch(files, headerRef, 0) == FirstMismatch(files, headerRef, i)
    {
      var p := files[i];
      var header := if |p.rows| > 0 then ToHeader(p.rows[0]) else [];
      var same := ArraysEqual(Some(headerRef), Some(header));
      if !same {
        return Some(i);
      }
    }
    return None;
  }

  /** The output table: the header row, then the padded, tagged data rows pushed file by file. */
  method BuildRows(files: seq<SourceFile>, headerRef: seq<Cell>) returns (outRows: Table)
    ensures outRows == [headerRef + [Text(SourceColumn)]] + Body(files, headerRef)
  {
    var outHeader := headerRef + [Text(SourceColumn)];
    outRows := [outHeader];
    for f := 0 to |files|
      invariant outRows == [outHeader] + Body(files[..f], headerRef)
    {
      var p := files[f];
      var rows := if |p.rows| == 0 then [] else p.rows[1..];
      ghost var done := outRows;
      for j := 0 to |rows|
        invariant outRows == done + FileRows(p, headerRef)[..j]
      {
        var rowFixed := PadToHeader(rows[j], headerRef);
        rowFixed := rowFixed + [Text(p.name)];
        assert FileRows(p, headerRef)[..j + 1] == FileRows(p, headerRef)[..j] + [rowFixed];
        outRows := outRows + [rowFixed];
      }
      assert FileRows(p, headerRef)[..|rows|] == FileRows(p, headerRef);
      assert files[..f + 1][..f] == files[..f];
    }
    assert files[..|files|] == files;
  }

  /** The merge handler: reject an empty selection or an empty first file, scan headers, build the table. */
  method Merge(files: seq<SourceFile>) returns (result: Result<Table, MergeError>)
    ensures result == MergeResult(files)
  {
    if |files| == 0 {
      return Failure(NoFiles);
    }
    var firstJson := files[0].rows;
    if |firstJson| == 0 {
      return Failure(EmptyFirstFile);
    }
    var headerRef := ToHeader(firstJson[0]);
    var mismatch := FindMismatch(files, headerRef);
    if mismatch.Some? {
      return Failure(HeaderMismatch(files[mismatch.value].name));
    }
    var outRows := BuildRows(files, headerRef);
    return Success(outRows);
  }
}
