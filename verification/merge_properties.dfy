/**
  What the merge promises: when it fails and which file it names, the shape
  of the output header, and where each source row lands in the output and
  what it holds.
*/
module MergeProperties {
  import opened Wrappers
  import opened Cells
  import opened Headers
  import opened Merging

  /** The body holds exactly one row per data row. */
  lemma {:induction false} BodyLength(files: seq<SourceFile>, headerRef: seq<Cell>)
    ensures |Body(files, headerRef)| == DataCount(files)
    decreases |files|
  {
    if files != [] {
      BodyLength(files[..|files| - 1], headerRef);
    }
  }

  /** Row `j >= 1` of file `f` is body row `Position(files, f, j) - 1`. */
  lemma {:induction false} BodyAt(files: seq<SourceFile>, headerRef: seq<Cell>, f: nat, j: nat)
    requires f < |files| && 1 <= j < |files[f].rows|
    ensures 1 <= Position(files, f, j) <= |Body(files, headerRef)|
    ensures Body(files, headerRef)[Position(files, f, j) - 1] == FileRows(files[f], headerRef)[j - 1]
    decreases |files|
  {
    var n := |files|;
    var init := files[..n - 1];
    BodyLength(init, headerRef);
    if f == n - 1 {
      assert files[..f] == init;
    } else {
      assert init[..f] == files[..f];
      BodyAt(init, headerRef, f, j);
    }
  }

  /** Every body row is row `j >= 1` of some file `f`. */
  lemma {:induction false} BodyOrigin(files: seq<SourceFile>, headerRef: seq<Cell>, k: nat)
    requires 1 <= k <= |Body(files, headerRef)|
    ensures exists f, j :: 0 <= f < |files| && 1 <= j < |files[f].rows| && k == Position(files, f, j)
    decreases |files|
  {
    var n := |files|;
    var init := files[..n - 1];
    BodyLength(init, headerRef);
    if k <= |Body(init, headerRef)| {
      BodyOrigin(init, headerRef, k);
      var f, j :| 0 <= f < |init| && 1 <= j < |init[f].rows| && k == Position(init, f, j);
      assert init[..f] == files[..f];
      assert Position(files, f, j) == k;
    } else {
      assert files[..n - 1] == init;
      var j := k - DataCount(init);
      assert 1 <= j < |files[n - 1].rows| && k == Position(files, n - 1, j);
    }
  }

  /** File `f`'s rows start right after those of every earlier file: file order, then row order. */
  lemma DataCountStep(files: seq<SourceFile>, f: nat)
    requires f < |files|
    ensures DataCount(files[..f + 1]) == DataCount(files[..f]) + |DataRows(files[f])|
  {
    assert files[..f + 1][..f] == files[..f];
  }

  /** No selected file, or a first file without rows, gives an error and no table. */
  lemma NoReferenceNoTable(files: seq<SourceFile>)
    ensures |files| == 0 ==> MergeResult(files) == Failure(NoFiles)
    ensures |files| > 0 && |files[0].rows| == 0 ==> MergeResult(files) == Failure(EmptyFirstFile)
  {
  }

  /** On a reference header, the string-form comparison accepts exactly the identical header. */
  lemma MatchesIsExactEquality(headerRef: seq<Cell>, f: SourceFile)
    requires IsHeader(headerRef)
    ensures Matches(headerRef, f) <==> HeaderOf(f) == headerRef
  {
    StringwiseEqualHeaders(headerRef, HeaderOf(f));
  }

  /** The first file always passes the header check. */
  lemma FirstFilePasses(files: seq<SourceFile>)
    requires |files| > 0 && |files[0].rows| > 0
    ensures Matches(Reference(files), files[0])
  {
    StringwiseEqualReflexive(Reference(files));
  }

  /** A file without rows passes the header check exactly when the reference header is empty. */
  lemma RowlessFileMatchesOnlyEmptyHeader(headerRef: seq<Cell>, f: SourceFile)
    requires |f.rows| == 0
    ensures Matches(headerRef, f) <==> headerRef == []
  {
  }

  /** The merge succeeds exactly when every file's header is the reference header. */
  lemma MergeSucceedsIff(files: seq<SourceFile>)
    ensures MergeResult(files).Success? <==>
      |files| > 0 && |files[0].rows| > 0 &&
      forall k :: 0 <= k < |files| ==> HeaderOf(files[k]) == Reference(files)
  {
    if |files| > 0 && |files[0].rows| > 0 {
      var headerRef := Reference(files);
      forall k | 0 <= k < |files| ensures Matches(headerRef, files[k]) <==> HeaderOf(files[k]) == headerRef {
        MatchesIsExactEquality(headerRef, files[k]);
      }
    }
  }

  /** The scan from `from` stops at `k` when `k` is the first mismatching file from there on. */
  lemma {:induction false} FirstMismatchAt(files: seq<SourceFile>, headerRef: seq<Cell>, from: nat, k: nat)
    requires from <= k < |files| && !Matches(headerRef, files[k])
    requires forall i :: from <= i < k ==> Matches(headerRef, files[i])
    ensures FirstMismatch(files, headerRef, from) == Some(k)
    decreases k - from
  {
    if from < k {
      assert Matches(headerRef, files[from]);
      FirstMismatchAt(files, headerRef, from + 1, k);
    }
  }

  /** The first file whose header differs aborts the whole merge and is the one named. */
  lemma MergeAbortsAtFirstMismatch(files: seq<SourceFile>, k: nat)
    requires |files| > 0 && |files[0].rows| > 0
    requires k < |files| && HeaderOf(files[k]) != Reference(files)
    requires forall i :: 0 <= i < k ==> HeaderOf(files[i]) == Reference(files)
    ensures MergeResult(files) == Failure(HeaderMismatch(files[k].name))
  {
    var headerRef := Reference(files);
    MatchesIsExactEquality(headerRef, files[k]);
    forall i | 0 <= i < k ensures Matches(headerRef, files[i]) {
      MatchesIsExactEquality(headerRef, files[i]);
    }
    FirstMismatchAt(files, headerRef, 0, k);
  }

  /** A header-mismatch error names a file whose header differs, and every earlier file's header matched. */
  lemma MismatchErrorNamesOffender(files: seq<SourceFile>)
    requires MergeResult(files).Failure? && MergeResult(files).error.HeaderMismatch?
    ensures |files| > 0 && |files[0].rows| > 0
    ensures exists k :: 0 <= k < |files| && files[k].name == MergeResult(files).error.fileName
                        && HeaderOf(files[k]) != Reference(files)
                        && forall i :: 0 <= i < k ==> HeaderOf(files[i]) == Reference(files)
  {
    var headerRef := Reference(files);
    var k := FirstMismatch(files, headerRef, 0).value;
    MatchesIsExactEquality(headerRef, files[k]);
    forall i | 0 <= i < k ensures HeaderOf(files[i]) == headerRef {
      MatchesIsExactEquality(headerRef, files[i]);
    }
  }

  /** A successful merge is the header row followed by the body. */
  lemma MergeResultValue(files: seq<SourceFile>)
    requires MergeResult(files).Success?
    ensures |files| > 0 && |files[0].rows| > 0
    ensures MergeResult(files).value == [Reference(files) + [Text(SourceColumn)]] + Body(files, Reference(files))
  {
  }

  /** A successful merge starts with the reference header plus `source_file`, then one row per data row. */
  lemma MergedHeaderRow(files: seq<SourceFile>)
    requires MergeResult(files).Success?
    ensures |files| > 0 && |files[0].rows| > 0
    ensures |MergeResult(files).value| == 1 + DataCount(files)
    ensures MergeResult(files).value[0] == Reference(files) + [Text(SourceColumn)]
  {
    MergeResultValue(files);
    BodyLength(files, Reference(files));
  }

  /** Row `j >= 1` of a file is its `j - 1`-th output row, laid out on the header and tagged. */
  lemma FileRowAt(p: SourceFile, headerRef: seq<Cell>, j: nat)
    requires 1 <= j < |p.rows|
    ensures j - 1 < |FileRows(p, headerRef)|
    ensures FileRows(p, headerRef)[j - 1] == PadToHeader(p.rows[j], headerRef) + [Text(p.name)]
  {
    assert DataRows(p)[j - 1] == p.rows[j];
  }

  /**
    `row` is source row `src` laid out on a header of `width` columns and tagged
    with `name`: one cell per header column, taken from `src` where it has one
    and `''` where it is short, then the name; cells past the header are dropped.
  */
  predicate LaidOut(row: seq<Cell>, src: seq<Cell>, width: nat, name: string)
  {
    && |row| == width + 1
    && row[width] == Text(name)
    && forall idx :: 0 <= idx < width ==> row[idx] == if idx < |src| then src[idx] else Text("")
  }

  /** Padding or cutting a row to the header and appending the file name lays it out. */
  lemma PaddedRow(r: seq<Cell>, headerRef: seq<Cell>, name: string)
    ensures LaidOut(PadToHeader(r, headerRef) + [Text(name)], r, |headerRef|, name)
  {
  }

  /** Row `j >= 1` of file `f`, laid out on the header, is body row `Position(files, f, j) - 1`. */
  lemma BodyRowLaidOut(files: seq<SourceFile>, headerRef: seq<Cell>, f: nat, j: nat)
    requires f < |files| && 1 <= j < |files[f].rows|
    ensures 1 <= Position(files, f, j) <= |Body(files, headerRef)|
    ensures LaidOut(Body(files, headerRef)[Position(files, f, j) - 1], files[f].rows[j], |headerRef|, files[f].name)
  {
    BodyAt(files, headerRef, f, j);
    FileRowAt(files[f], headerRef, j);
    PaddedRow(files[f].rows[j], headerRef, files[f].name);
  }

  /**
    Row `j >= 1` of file `f` becomes output row `Position(files, f, j)`: the
    header-width prefix of the source row, `''` where the source row is
    short, and the file's name last.
  */
  lemma MergedRowAt(files: seq<SourceFile>, f: nat, j: nat)
    requires MergeResult(files).Success?
    requires f < |files| && 1 <= j < |files[f].rows|
    ensures |files| > 0 && |files[0].rows| > 0
    ensures Position(files, f, j) < |MergeResult(files).value|
    ensures LaidOut(MergeResult(files).value[Position(files, f, j)], files[f].rows[j], |Reference(files)|, files[f].name)
  {
    MergeResultValue(files);
    BodyRowLaidOut(files, Reference(files), f, j);
  }

  /** Every output row after the header is some file's data row: none is invented. */
  lemma MergedRowOrigin(files: seq<SourceFile>, k: nat)
    requires MergeResult(files).Success?
    requires 1 <= k < |MergeResult(files).value|
    ensures exists f, j :: 0 <= f < |files| && 1 <= j < |files[f].rows| && k == Position(files, f, j)
  {
    MergeResultValue(files);
    BodyOrigin(files, Reference(files), k);
  }

  /** Every output row after the header has the header's width and ends with the name of an input file. */
  lemma MergedRowShape(files: seq<SourceFile>, k: nat)
    requires MergeResult(files).Success?
    requires 1 <= k < |MergeResult(files).value|
    ensures |files| > 0 && |files[0].rows| > 0
    ensures |MergeResult(files).value[k]| == |Reference(files)| + 1
    ensures exists f :: 0 <= f < |files| && MergeResult(files).value[k][|Reference(files)|] == Text(files[f].name)
  {
    MergedRowOrigin(files, k);
    var f, j :| 0 <= f < |files| && 1 <= j < |files[f].rows| && k == Position(files, f, j);
    MergedRowAt(files, f, j);
  }
}
