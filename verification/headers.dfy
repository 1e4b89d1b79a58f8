/**
  Header rows: deriving a header from a sheet row (`arrayFirstRowToHeader`)
  and comparing two headers cell by cell on their string forms (`arraysEqual`).
*/
module Headers {
  import opened Wrappers
  import opened Cells

  /** A header whose every cell is a trimmed string. */
  predicate IsHeader(h: seq<Cell>)
  {
    forall i :: 0 <= i < |h| ==> h[i].Text? && IsTrimmed(h[i].text)
  }

  /** `arrayFirstRowToHeader(row)`: every cell becomes its trimmed string form. */
  function ToHeader(row: seq<Cell>): (h: seq<Cell>)
    ensures |h| == |row| && IsHeader(h)
    ensures forall i :: 0 <= i < |h| ==> ToStr(h[i]) == Trim(ToStr(row[i]))
  {
    seq(|row|, i requires 0 <= i < |row| => Text(Trim(ToStr(row[i]))))
  }

  /** Deriving a header from a header gives the same header back. */
  lemma ToHeaderIdempotent(row: seq<Cell>)
    ensures ToHeader(ToHeader(row)) == ToHeader(row)
  {
    var h := ToHeader(row);
    forall i | 0 <= i < |h| ensures ToHeader(h)[i] == h[i] {
      TrimKeepsTrimmed(h[i].text);
    }
  }

  /**
    What `arraysEqual(a, b)` decides: both arrays are present, have the same
    length, and agree position by position on their string forms.
  */
  predicate StringwiseEqual(a: Option<seq<Cell>>, b: Option<seq<Cell>>)
  {
    && a.Some? && b.Some?
    && |a.value| == |b.value|
    && forall i :: 0 <= i < |a.value| ==> ToStr(a.value[i]) == ToStr(b.value[i])
  }

  /** `arraysEqual(a, b)`; `None` stands for a missing (null or undefined) argument. */
  method ArraysEqual(a: Option<seq<Cell>>, b: Option<seq<Cell>>) returns (equal: bool)
    ensures a.None? || b.None? ==> !equal
    ensures a.Some? && b.Some? && |a.value| != |b.value| ==> !equal
    ensures equal <==> StringwiseEqual(a, b)
  {
    if a.None? || b.None? {
      return false;
    }
    var x, y := a.value, b.value;
    if |x| != |y| {
      return false;
    }
    for i := 0 to |x|
      invariant forall k :: 0 <= k < i ==> ToStr(x[k]) == ToStr(y[k])
    {
      if ToStr(x[i]) != ToStr(y[i]) {
        return false;
      }
    }
    return true;
  }

  /** Every present array equals itself. */
  lemma StringwiseEqualReflexive(a: seq<Cell>)
    ensures StringwiseEqual(Some(a), Some(a))
  {
  }

  /** The comparison does not depend on argument order. */
  lemma StringwiseEqualSymmetric(a: Option<seq<Cell>>, b: Option<seq<Cell>>)
    ensures StringwiseEqual(a, b) <==> StringwiseEqual(b, a)
  {
  }

  lemma StringwiseEqualTransitive(a: Option<seq<Cell>>, b: Option<seq<Cell>>, c: Option<seq<Cell>>)
    requires StringwiseEqual(a, b) && StringwiseEqual(b, c)
    ensures StringwiseEqual(a, c)
  {
  }

  /** On headers, comparing string forms is exactly sequence equality. */
  lemma StringwiseEqualHeaders(a: seq<Cell>, b: seq<Cell>)
    requires IsHeader(a) && IsHeader(b)
    ensures StringwiseEqual(Some(a), Some(b)) <==> a == b
  {
    if StringwiseEqual(Some(a), Some(b)) {
      forall i | 0 <= i < |a| ensures a[i] == b[i] {
        assert ToStr(a[i]) == ToStr(b[i]);
      }
    }
  }
}
