/** Where cells joined by `,` stand in a text: the layout of the arrays and
    tuples a ClickHouse cell holds, independent of how each cell is parsed. */
module Cells {
  import opened Helpers

  /** `cell` stands at q in text, followed by a separator of an array or a
      tuple. */
  predicate CellAt(text: string, q: nat, cell: string)
  {
    q + |cell| < |text| && text[q..q + |cell|] == cell && text[q + |cell|] in ",])"
  }

  /** Where cells joined by `,` stand at p in text: the first cell, then a
      `,` and the join of the others. */
  lemma JoinedAt(cells: seq<string>, text: string, p: nat)
    requires |cells| >= 1
    requires p + |Join(cells, ",")| <= |text| && text[p..p + |Join(cells, ",")|] == Join(cells, ",")
    ensures p + |cells[0]| <= |text| && text[p..p + |cells[0]|] == cells[0]
    ensures |cells| == 1 ==> |Join(cells, ",")| == |cells[0]|
    ensures |cells| > 1 ==>
              var k := p + |cells[0]| + 1;
              var n := |Join(cells[1..], ",")|;
              |Join(cells, ",")| == |cells[0]| + 1 + n &&
              text[k - 1] == ',' && k + n <= |text| && text[k..k + n] == Join(cells[1..], ",")
  {
    var c := cells[0];
    if |cells| == 1 {
      assert text[p..p + |c|] == c;
    } else {
      var J' := Join(cells[1..], ",");
      assert Join(cells, ",") == c + ("," + J');
      SliceParts(text, p, c, "," + J');
      SliceParts(text, p + |c|, ",", J');
      assert text[p + |c|] == text[p + |c|..p + |c| + 1][0];
    }
  }

  /** A slice holding a + b holds a, then b. */
  lemma SliceParts(text: string, p: nat, a: string, b: string)
    requires p + |a| + |b| <= |text| && text[p..p + |a| + |b|] == a + b
    ensures text[p..p + |a|] == a && text[p + |a|..p + |a| + |b|] == b
  {
    assert text[p..p + |a|] == (a + b)[..|a|];
    assert text[p + |a|..p + |a| + |b|] == (a + b)[|a|..];
  }

  /** The cells stand one after another from q, each followed by a `,` but
      the last, which is followed by `close`. */
  predicate CellsAt(cells: seq<string>, text: string, q: nat, close: char)
    decreases |cells|
  {
    |cells| >= 1 &&
    q + |cells[0]| < |text| && text[q..q + |cells[0]|] == cells[0] &&
    if |cells| == 1 then text[q + |cells[0]|] == close
    else text[q + |cells[0]|] == ',' && CellsAt(cells[1..], text, q + |cells[0]| + 1, close)
  }

  /** Where the last of the cells ends when they stand one after another
      from q. */
  function CellsEnd(cells: seq<string>, q: nat): nat
    requires |cells| >= 1
    decreases |cells|
  {
    if |cells| == 1 then q + |cells[0]| else CellsEnd(cells[1..], q + |cells[0]| + 1)
  }

  /** Cells joined by `,` and followed by `close` stand cell by cell, and end
      where their join does. */
  lemma {:induction false} JoinedCells(cells: seq<string>, text: string, q: nat, close: char)
    requires |cells| >= 1
    requires var n := |Join(cells, ",")|;
             q + n < |text| && text[q..q + n] == Join(cells, ",") && text[q + n] == close
    ensures CellsAt(cells, text, q, close) && CellsEnd(cells, q) == q + |Join(cells, ",")|
    decreases |cells|
  {
    JoinedAt(cells, text, q);
    if |cells| > 1 {
      JoinedCells(cells[1..], text, q + |cells[0]| + 1, close);
    }
  }
}
