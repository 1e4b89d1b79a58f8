/** A worked instance of the merge on two small files. */
module MergeExample {
  import opened Wrappers
  import opened Cells
  import opened Headers
  import opened Merging

  function File1(): SourceFile
  {
    SourceFile("file1", [[Text("id"), Text("name")], [Number(1), Text("a")], [Number(2), Text("b")]])
  }

  /** The same header written with stray spaces; its second data row is short. */
  function File2(): SourceFile
  {
    SourceFile("file2", [[Text(" id"), Text("name ")], [Number(3)]])
  }

  lemma LeadingSpaceTrimmed()
    ensures Trim(" id") == "id"
  {
    assert SkipLeading(" id", 0) == 1;
    assert SkipTrailing(" id", 1, 3) == 3;
    assert " id"[1..3] == "id";
  }

  lemma TrailingSpaceTrimmed()
    ensures Trim("name ") == "name"
  {
    assert SkipLeading("name ", 0) == 0;
    assert SkipTrailing("name ", 0, 5) == 4;
    assert "name "[0..4] == "name";
  }

  lemma PlainLabelsTrimmed()
    ensures Trim("id") == "id" && Trim("name") == "name"
  {
    TrimKeepsTrimmed("id");
    TrimKeepsTrimmed("name");
  }

  /** The header of a two-cell row. */
  lemma PairHeader(a: Cell, b: Cell)
    ensures ToHeader([a, b]) == [Text(Trim(ToStr(a))), Text(Trim(ToStr(b)))]
  {
    var row := [a, b];
    var h := ToHeader(row);
    assert row[0] == a && row[1] == b;
    assert |h| == 2 && h[0] == Text(Trim(ToStr(a))) && h[1] == Text(Trim(ToStr(b)));
  }

  lemma File1Header()
    ensures HeaderOf(File1()) == [Text("id"), Text("name")]
  {
    PairHeader(Text("id"), Text("name"));
    PlainLabelsTrimmed();
  }

  lemma File2Header()
    ensures HeaderOf(File2()) == [Text("id"), Text("name")]
  {
    PairHeader(Text(" id"), Text("name "));
    LeadingSpaceTrimmed();
    TrailingSpaceTrimmed();
  }

  lemma ExampleBody()
    ensures Body([File1(), File2()], [Text("id"), Text("name")]) == [
      [Number(1), Text("a"), Text("file1")],
      [Number(2), Text("b"), Text("file1")],
      [Number(3), Text(""), Text("file2")]
    ]
  {
    var files := [File1(), File2()];
    var headerRef := [Text("id"), Text("name")];
    assert files[..1] == [File1()] && files[..1][..0] == [];
    var r1, r2, r3 := [Number(1), Text("a")], [Number(2), Text("b")], [Number(3)];
    assert PadToHeader(r1, headerRef) == r1;
    assert PadToHeader(r2, headerRef) == r2;
    assert PadToHeader(r3, headerRef) == [Number(3), Text("")];
    assert DataRows(File1()) == [r1, r2] && DataRows(File2()) == [r3];
    var rows1 := FileRows(File1(), headerRef);
    assert |rows1| == 2 && rows1[0] == r1 + [Text("file1")] && rows1[1] == r2 + [Text("file1")];
    assert r1 + [Text("file1")] == [Number(1), Text("a"), Text("file1")];
    assert r2 + [Text("file1")] == [Number(2), Text("b"), Text("file1")];
    assert rows1 == [[Number(1), Text("a"), Text("file1")], [Number(2), Text("b"), Text("file1")]];
    var rows2 := FileRows(File2(), headerRef);
    assert |rows2| == 1 && rows2[0] == [Number(3), Text(""), Text("file2")];
    assert rows2 == [[Number(3), Text(""), Text("file2")]];
    assert Body([File1()], headerRef) == rows1;
    assert Body(files, headerRef) == rows1 + rows2;
  }

  /**
    The two files merge into the header plus `source_file`, then file1's two
    rows and file2's one row (padded with `''`), each tagged with its own
    file's name.
  */
  lemma TwoFilesMerge()
    ensures MergeResult([File1(), File2()]) == Success([
      [Text("id"), Text("name"), Text("source_file")],
      [Number(1), Text("a"), Text("file1")],
      [Number(2), Text("b"), Text("file1")],
      [Number(3), Text(""), Text("file2")]
    ])
  {
    var files := [File1(), File2()];
    var headerRef := [Text("id"), Text("name")];
    File1Header();
    File2Header();
    assert Reference(files) == headerRef;
    assert Matches(headerRef, files[0]) && Matches(headerRef, files[1]);
    assert FirstMismatch(files, headerRef, 0) == None;
    ExampleBody();
    var outHeader := [Text("id"), Text("name"), Text("source_file")];
    assert headerRef + [Text(SourceColumn)] == outHeader;
    assert MergeResult(files) == Success([outHeader] + Body(files, headerRef));
    assert [outHeader] + Body(files, headerRef) == [
      outHeader,
      [Number(1), Text("a"), Text("file1")],
      [Number(2), Text("b"), Text("file1")],
      [Number(3), Text(""), Text("file2")]
    ];
  }
}
