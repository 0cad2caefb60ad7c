/** Properties of the cell parser: what each routine accepts and returns,
    the shapes of arrays and tuples, the round trips with the encoder's text,
    and the termination of the array loop for every parser newDataParser
    builds. */
module DataParserProperties {
  import opened Outcome
  import opened Values
  import opened Numbers
  import opened Helpers
  import opened DataParser
  import opened Cells

  // ---------------------------------------------------------------------
  // newDataParser's dispatch table

  /** The parser each unsigned integer type name gets: an unsigned
      intParser of that width. */
  lemma UnsignedDispatch(t: TypeDesc, unquote: bool, lib: Lib)
    ensures t.name == "UInt8" ==> NewParser(t, unquote, lib) == Ok(IntParser(false, 8))
    ensures t.name == "UInt16" ==> NewParser(t, unquote, lib) == Ok(IntParser(false, 16))
    ensures t.name == "UInt32" ==> NewParser(t, unquote, lib) == Ok(IntParser(false, 32))
    ensures t.name == "UInt64" ==> NewParser(t, unquote, lib) == Ok(IntParser(false, 64))
  {
  }

  /** The parser each signed integer type name gets: a signed intParser of
      that width. */
  lemma SignedDispatch(t: TypeDesc, unquote: bool, lib: Lib)
    ensures t.name == "Int8" ==> NewParser(t, unquote, lib) == Ok(IntParser(true, 8))
    ensures t.name == "Int16" ==> NewParser(t, unquote, lib) == Ok(IntParser(true, 16))
    ensures t.name == "Int32" ==> NewParser(t, unquote, lib) == Ok(IntParser(true, 32))
    ensures t.name == "Int64" ==> NewParser(t, unquote, lib) == Ok(IntParser(true, 64))
  {
  }

  /** The parser the other scalar type names get: floats with their width,
      strings and enums as plain strings quoted as asked, and Nothing. */
  lemma ScalarDispatch(t: TypeDesc, unquote: bool, lib: Lib)
    ensures t.name == "Float32" ==> NewParser(t, unquote, lib) == Ok(FloatParser(32))
    ensures t.name == "Float64" ==> NewParser(t, unquote, lib) == Ok(FloatParser(64))
    ensures t.name == "String" ==> NewParser(t, unquote, lib) == Ok(StringParser(unquote, 0))
    ensures t.name == "Enum8" ==> NewParser(t, unquote, lib) == Ok(StringParser(unquote, 0))
    ensures t.name == "Enum16" ==> NewParser(t, unquote, lib) == Ok(StringParser(unquote, 0))
    ensures t.name == "Nothing" ==> NewParser(t, unquote, lib) == Ok(NothingParser)
  {
  }

  // ---------------------------------------------------------------------
  // readUnquoted and readString

  /** On a stretch without quotes or backslashes that ends at a quote or at
      the end of the text, readUnquoted takes the stretch literally. */
  lemma {:induction false} UnquotedLiteral(text: string, q: nat, k: nat, length: int, acc: string)
    requires q <= k <= |text|
    requires forall j :: q <= j < k ==> !IsSpecial(text[j])
    requires k == |text| || text[k] == '\''
    requires length == 0 || (length > 0 && |acc| + (k - q) <= length)
    ensures UnquotedFrom(text, q, length, acc) == FinishUnquoted(acc + text[q..k], length, k)
    decreases k - q
  {
    if q == k {
      assert acc + text[q..k] == acc;
    } else {
      assert acc + [text[q]] + text[q + 1..k] == acc + text[q..k];
      UnquotedLiteral(text, q + 1, k, length, acc + [text[q]]);
    }
  }

  /** One pass of readUnquoted's loop without a length: a plain rune is
      copied, a backslash and a special rune give that rune. */
  lemma UnquotedStep(text: string, q: nat, acc: string)
    requires q < |text| && text[q] != '\''
    ensures text[q] != '\\' ==> UnquotedFrom(text, q, 0, acc) == UnquotedFrom(text, q + 1, 0, acc + [text[q]])
    ensures text[q] == '\\' && q + 1 < |text| && IsSpecial(text[q + 1]) ==>
              UnquotedFrom(text, q, 0, acc) == UnquotedFrom(text, q + 2, 0, acc + [text[q + 1]])
  {
    if text[q] == '\\' && q + 1 < |text| && IsSpecial(text[q + 1]) {
      assert Escaped(text, q + 1) == Parsed(Ok(text[q + 1]), q + 2);
    }
  }

  /** Text written by escape and closed by a quote reads back, through the
      escapes, as the original string. */
  lemma {:induction false} UnquotedEscaped(s: string, text: string, q: nat, acc: string)
    requires q + |Escape(s)| < |text|
    requires forall j :: 0 <= j < |Escape(s)| ==> text[q + j] == Escape(s)[j]
    requires text[q + |Escape(s)|] == '\''
    ensures UnquotedFrom(text, q, 0, acc) == Parsed(Ok(acc + s), q + |Escape(s)|)
    decreases |s|
  {
    if s == [] {
      assert acc + s == acc;
    } else {
      var c := s[0];
      var e := EscapeRune(c);
      var tail := Escape(s[1..]);
      var n := q + |e|;
      assert UnquotedFrom(text, q, 0, acc) == UnquotedFrom(text, n, 0, acc + [c]) by {
        assert Escape(s) == e + tail;
        assert text[q + 0] == Escape(s)[0] == e[0];
        if IsSpecial(c) {
          assert text[q + 1] == Escape(s)[1] == e[1];
        }
        UnquotedStep(text, q, acc);
      }
      assert forall j :: 0 <= j < |tail| ==> text[n + j] == tail[j] by {
        assert Escape(s) == e + tail;
        forall j | 0 <= j < |tail| ensures text[n + j] == tail[j] {
          assert text[q + (|e| + j)] == Escape(s)[|e| + j];
        }
      }
      UnquotedEscaped(s[1..], text, n, acc + [c]);
      assert acc + [c] + s[1..] == acc + s;
    }
  }

  /** readString with unquote: the quoted, escaped text the encoder writes
      for a string is read back as that string, and nothing after the
      closing quote is consumed. */
  lemma ReadStringOfEncoded(s: string, rest: string)
    ensures StringAt(Quote(Escape(s)) + rest, 0, 0, true) == Parsed(Ok(s), |Escape(s)| + 2)
  {
    var E := Escape(s);
    var text := Quote(E) + rest;
    assert text == "'" + E + "'" + rest;
    assert text[0] == '\'' && text[1 + |E|] == '\'';
    assert forall j :: 0 <= j < |E| ==> text[1 + j] == E[j];
    UnquotedEscaped(s, text, 1, "");
    assert "" + s == s;
  }

  /** readString with unquote succeeds only on a cell that opens and closes
      with a quote. */
  lemma QuotedStringShape(text: string, q: nat, length: int)
    requires q <= |text|
    ensures var r := StringAt(text, q, length, true);
            r.result.Ok? ==> q + 2 <= r.next && text[q] == '\'' && text[r.next - 1] == '\''
  {
  }

  /** readString without unquote takes the text literally up to the first
      quote or the end. */
  lemma LiteralString(text: string, q: nat, k: nat)
    requires q <= k <= |text|
    requires forall j :: q <= j < k ==> !IsSpecial(text[j])
    requires k == |text| || text[k] == '\''
    ensures StringAt(text, q, 0, false) == Parsed(Ok(text[q..k]), k)
  {
    UnquotedLiteral(text, q, k, 0, "");
    assert "" + text[q..k] == text[q..k];
  }

  // ---------------------------------------------------------------------
  // Date and DateTime

  /** A quoted date cell is read as exactly |layout| runes, then handed to
      the time library (or recognised as a zero sentinel). */
  lemma DateCell(c: string, rest: string, layout: string, location: string, lib: Lib)
    requires |c| == |layout| > 0 && forall j :: 0 <= j < |c| ==> !IsSpecial(c[j])
    ensures ParseAt(DateTimeParser(true, layout, location), "'" + c + "'" + rest, 0, lib) ==
            Parsed(TimeValue(lib, layout, location, c), |c| + 2)
  {
    var text := "'" + c + "'" + rest;
    assert text[1..|c| + 1] == c;
    UnquotedLiteral(text, 1, |c| + 1, |layout|, "");
    assert "" + c == c;
  }

  /** A quoted cell shorter than the layout is a length error. */
  lemma ShortDateCell(c: string, rest: string, layout: string, location: string, lib: Lib)
    requires |c| < |layout| && forall j :: 0 <= j < |c| ==> !IsSpecial(c[j])
    ensures ParseAt(DateTimeParser(true, layout, location), "'" + c + "'" + rest, 0, lib).result ==
            Err(LengthErr(|c|, |layout|))
  {
    var text := "'" + c + "'" + rest;
    assert text[1..|c| + 1] == c;
    UnquotedLiteral(text, 1, |c| + 1, |layout|, "");
    assert "" + c == c;
  }

  /** The zero sentinels give the zero time whatever the location. */
  lemma DateSentinels(rest: string, location: string, lib: Lib)
    ensures ParseAt(DateTimeParser(true, DateLayout, location), "'0000-00-00'" + rest, 0, lib) ==
            Parsed(Ok(Time(Zero)), 12)
    ensures ParseAt(DateTimeParser(true, TimeLayout, location), "'0000-00-00 00:00:00'" + rest, 0, lib) ==
            Parsed(Ok(Time(Zero)), 21)
  {
    DateCell("0000-00-00", rest, DateLayout, location, lib);
    assert "'0000-00-00'" + rest == "'" + "0000-00-00" + "'" + rest;
    DateCell("0000-00-00 00:00:00", rest, TimeLayout, location, lib);
    assert "'0000-00-00 00:00:00'" + rest == "'" + "0000-00-00 00:00:00" + "'" + rest;
  }

  // ---------------------------------------------------------------------
  // Integers

  /** readNumber stops exactly at k when no delimiter comes before it. */
  lemma {:induction false} NumberEndAt(text: string, q: nat, k: nat)
    requires q <= k <= |text|
    requires forall j :: q <= j < k ==> !IsNumberEnd(text[j])
    requires k == |text| || IsNumberEnd(text[k])
    ensures NumberEnd(text, q) == k
    decreases k - q
  {
    if q < k {
      NumberEndAt(text, q + 1, k);
    }
  }

  predicate Delimited(rest: string) { rest == [] || IsNumberEnd(rest[0]) }

  /** intParser reads a number text up to the delimiter after it and
      parses all of it. */
  lemma IntCell(signed: bool, bits: nat, s: string, rest: string, lib: Lib)
    requires forall j :: 0 <= j < |s| ==> !IsNumberEnd(s[j])
    requires Delimited(rest)
    ensures ParseAt(IntParser(signed, bits), s + rest, 0, lib) == Parsed(IntValue(signed, bits, s), |s|)
  {
    var text := s + rest;
    forall j | 0 <= j < |s| ensures !IsNumberEnd(text[j]) {
      assert text[j] == s[j];
    }
    NumberEndAt(text, 0, |s|);
    assert text[0..|s|] == s;
  }

  /** The text FormatInt writes reads back through a signed intParser as the
      same number when it fits the width, and as a range error otherwise. */
  lemma SignedRoundTrip(i: int, bits: nat, rest: string, lib: Lib)
    requires ValidIntSize(bits) && Delimited(rest)
    ensures ParseAt(IntParser(true, bits), FormatInt(i) + rest, 0, lib) ==
            Parsed(if -(Pow2(bits - 1) as int) <= i < Pow2(bits - 1) then Ok(Int(i, bits)) else Err(RangeErr),
                   |FormatInt(i)|)
  {
    var s := FormatInt(i);
    assert forall j :: 0 <= j < |s| ==> !IsNumberEnd(s[j]) by {
      FormatIntChars(i);
    }
    IntCell(true, bits, s, rest, lib);
    assert IntValue(true, bits, s) ==
           if -(Pow2(bits - 1) as int) <= i < Pow2(bits - 1) then Ok(Int(i, bits)) else Err(RangeErr) by {
      ParseFormatInt(i, bits);
    }
  }

  /** The text FormatUint writes reads back through an unsigned intParser as
      the same number when it fits the width. */
  lemma UnsignedRoundTrip(n: nat, bits: nat, rest: string, lib: Lib)
    requires ValidIntSize(bits) && Delimited(rest)
    ensures ParseAt(IntParser(false, bits), FormatUint(n) + rest, 0, lib) ==
            Parsed(if n < Pow2(bits) then Ok(UInt(n, bits)) else Err(RangeErr), |FormatUint(n)|)
  {
    UintCell(n, rest, lib);
    ParseFormatUint(n, bits);
  }

  lemma UintCell(n: nat, rest: string, lib: Lib)
    requires Delimited(rest)
    ensures forall bits :: ParseAt(IntParser(false, bits), FormatUint(n) + rest, 0, lib) ==
                           Parsed(IntValue(false, bits, FormatUint(n)), |FormatUint(n)|)
  {
    var s := FormatUint(n);
    FormatUintDigits(n);
    forall bits ensures ParseAt(IntParser(false, bits), s + rest, 0, lib) == Parsed(IntValue(false, bits, s), |s|) {
      IntCell(false, bits, s, rest, lib);
    }
  }

  /** A number cell that starts with a quote, such as '3', is a syntax error. */
  lemma QuotedNumberFails(signed: bool, bits: nat, text: string, q: nat, lib: Lib)
    requires ValidIntSize(bits) && q < |text| && text[q] == '\''
    ensures ParseAt(IntParser(signed, bits), text, q, lib).result == Err(SyntaxErr)
  {
    var repr := text[q..NumberEnd(text, q)];
    assert repr[0] == '\'';
  }

  // ---------------------------------------------------------------------
  // Arrays and tuples

  /** What the array loop accepts: a sequence of the elements before it,
      then non-Nothing elements, closed by `]`. */
  lemma {:induction false} ElemsShape(elem: Parser, text: string, q: nat, acc: seq<Value>, lib: Lib)
    requires q <= |text|
    ensures var r := ElemsFrom(elem, text, q, acc, lib);
            r.result.Ok? ==>
              q < r.next && text[r.next - 1] == ']' && r.result.value.Seq? &&
              |r.result.value.items| >= |acc| && r.result.value.items[..|acc|] == acc &&
              forall j :: |acc| <= j < |r.result.value.items| ==> r.result.value.items[j] != Void
    decreases |text| - q
  {
    if CharAt(text, q) != Some(']') {
      var e := ElemStep(elem, text, q, lib);
      if e.result.Ok? && e.next != q {
        var acc' := acc + [e.result.value];
        ElemsShape(elem, text, e.next, acc', lib);
        var r := ElemsFrom(elem, text, e.next, acc', lib);
        if r.result.Ok? {
          assert r.result.value.items[..|acc|] == acc'[..|acc|];
        }
      }
    }
  }

  /** arrayParser.Parse succeeds only on text that opens with `[` and closes
      with `]`, and gives a sequence of non-Nothing elements. */
  lemma ArrayShape(elem: Parser, text: string, q: nat, lib: Lib)
    requires q <= |text|
    ensures var r := ParseAt(ArrayParser(elem), text, q, lib);
            r.result.Ok? ==>
              q + 2 <= r.next && text[q] == '[' && text[r.next - 1] == ']' && r.result.value.Seq? &&
              forall j :: 0 <= j < |r.result.value.items| ==> r.result.value.items[j] != Void
  {
    if CharAt(text, q) == Some('[') {
      ElemsShape(elem, text, q + 1, [], lib);
    }
  }

  /** `[]` is the empty sequence, whatever the element parser. */
  lemma EmptyArray(elem: Parser, text: string, q: nat, lib: Lib)
    requires q + 2 <= |text| && text[q] == '[' && text[q + 1] == ']'
    ensures ParseAt(ArrayParser(elem), text, q, lib) == Parsed(Ok(Seq([])), q + 2)
  {
  }

  /** An array of Nothing fails on its first element: appending Go's nil
      panics, so the loop never gets to repeat. */
  lemma ArrayOfNothing(text: string, q: nat, lib: Lib)
    requires q + 2 <= |text| && text[q] == '[' && text[q + 1] != ']'
    ensures ParseAt(ArrayParser(NothingParser), text, q, lib).result == Err(Panic("append of a nil value"))
  {
  }

  /** What the tuple loop accepts from field i on: one value per remaining
      field, none of them Nothing, then `)`. */
  lemma {:induction false} FieldsShape(fields: seq<Parser>, text: string, q: nat, i: nat,
                                       acc: seq<Value>, lib: Lib)
    requires q <= |text| && i <= |fields|
    ensures var r := FieldsFrom(fields, text, q, i, acc, lib);
            r.result.Ok? ==>
              q < r.next && text[r.next - 1] == ')' && r.result.value.Record? &&
              |r.result.value.fields| == |acc| + |fields| - i && r.result.value.fields[..|acc|] == acc &&
              forall j :: |acc| <= j < |r.result.value.fields| ==> r.result.value.fields[j] != Void
    decreases |fields| - i
  {
    if i < |fields| && !(i > 0 && CharAt(text, q) != Some(',')) {
      var q1 := if i > 0 then q + 1 else q;
      var f := ParseAt(fields[i], text, q1, lib);
      if f.result.Ok? && f.result.value != Void {
        var acc' := acc + [f.result.value];
        FieldsShape(fields, text, f.next, i + 1, acc', lib);
        var r := FieldsFrom(fields, text, f.next, i + 1, acc', lib);
        if r.result.Ok? {
          assert r.result.value.fields[..|acc|] == acc'[..|acc|];
        }
      }
    }
  }

  /** tupleParser.Parse succeeds only on text that opens with `(` and closes
      with `)`, and gives exactly one non-Nothing field per element parser. */
  lemma TupleShape(fields: seq<Parser>, text: string, q: nat, lib: Lib)
    requires q <= |text|
    ensures var r := ParseAt(TupleParser(fields), text, q, lib);
            r.result.Ok? ==>
              q + 2 <= r.next && text[q] == '(' && text[r.next - 1] == ')' && r.result.value.Record? &&
              |r.result.value.fields| == |fields| &&
              forall j :: 0 <= j < |fields| ==> r.result.value.fields[j] != Void
  {
    if CharAt(text, q) == Some('(') {
      FieldsShape(fields, text, q + 1, 0, [], lib);
    }
  }

  // ---------------------------------------------------------------------
  // Array and tuple contents

  /** The same predicate as Cells.CellAt, under another name. It exists only
      as the trigger of the quantifiers in ReadsCell and FailsOnCell: with
      CellAt itself as the trigger, every lemma that mentions where a cell
      stands would unfold what its parser does there. */
  predicate CellPlaced(text: string, q: nat, cell: string)
  {
    CellAt(text, q, cell)
  }

  /** p reads `cell` as v wherever the cell stands before a separator. */
  ghost predicate ReadsCell(p: Parser, cell: string, v: Value, lib: Lib)
  {
    forall text: string, q: nat {:trigger CellPlaced(text, q, cell)} ::
      CellPlaced(text, q, cell) ==> ParseAt(p, text, q, lib) == Parsed(Ok(v), q + |cell|)
  }

  /** An intParser reads a cell free of delimiters as the number its text
      parses to, wherever the cell stands before a separator. */
  lemma IntCellAt(signed: bool, bits: nat, c: string, text: string, q: nat, lib: Lib)
    requires forall j :: 0 <= j < |c| ==> !IsNumberEnd(c[j])
    requires CellAt(text, q, c)
    ensures ParseAt(IntParser(signed, bits), text, q, lib) == Parsed(IntValue(signed, bits, c), q + |c|)
  {
    forall j | q <= j < q + |c| ensures !IsNumberEnd(text[j]) {
      assert text[j] == text[q..q + |c|][j - q];
    }
    NumberEndAt(text, q, q + |c|);
  }

  /** A signed intParser reads the text FormatInt writes for a number of its
      width as that number. */
  lemma SignedReadsCell(i: int, bits: nat, lib: Lib)
    requires ValidIntSize(bits) && -(Pow2(bits - 1) as int) <= i < Pow2(bits - 1)
    ensures ReadsCell(IntParser(true, bits), FormatInt(i), Int(i, bits), lib)
  {
    var c := FormatInt(i);
    assert forall j :: 0 <= j < |c| ==> !IsNumberEnd(c[j]) by {
      FormatIntChars(i);
    }
    assert IntValue(true, bits, c) == Ok(Int(i, bits)) by {
      ParseFormatInt(i, bits);
    }
    forall text: string, q: nat | CellPlaced(text, q, c)
      ensures ParseAt(IntParser(true, bits), text, q, lib) == Parsed(Ok(Int(i, bits)), q + |c|)
    {
      IntCellAt(true, bits, c, text, q, lib);
    }
  }

  /** A signed intParser fails with a range error on the text FormatInt
      writes for a number too wide for it, wherever that text stands. */
  lemma SignedFailsCell(i: int, bits: nat, lib: Lib)
    requires ValidIntSize(bits) && !(-(Pow2(bits - 1) as int) <= i < Pow2(bits - 1))
    ensures FailsOnCell(IntParser(true, bits), FormatInt(i), RangeErr, lib)
  {
    var c := FormatInt(i);
    assert forall j :: 0 <= j < |c| ==> !IsNumberEnd(c[j]) by {
      FormatIntChars(i);
    }
    assert IntValue(true, bits, c) == Err(RangeErr) by {
      ParseFormatInt(i, bits);
    }
    forall text: string, q: nat | CellPlaced(text, q, c)
      ensures ParseAt(IntParser(true, bits), text, q, lib).result == Err(RangeErr)
    {
      IntCellAt(true, bits, c, text, q, lib);
    }
  }

  /** A quoted stringParser reads the text the encoder writes for a string
      as that string. */
  lemma QuotedReadsCell(s: string, lib: Lib)
    ensures ReadsCell(StringParser(true, 0), Quote(Escape(s)), Str(s), lib)
  {
    var E := Escape(s);
    var c := Quote(E);
    forall text: string, q: nat | CellPlaced(text, q, c)
      ensures ParseAt(StringParser(true, 0), text, q, lib) == Parsed(Ok(Str(s)), q + |c|)
    {
      assert text[q..q + |c|] == "'" + E + "'";
      assert text[q] == '\'' && text[q + 1 + |E|] == '\'' by {
        assert text[q] == text[q..q + |c|][0];
        assert text[q + 1 + |E|] == text[q..q + |c|][1 + |E|];
      }
      forall j | 0 <= j < |E| ensures text[q + 1 + j] == E[j] {
        assert text[q + 1 + j] == text[q..q + |c|][1 + j];
      }
      UnquotedEscaped(s, text, q + 1, "");
      assert "" + s == s;
    }
  }

  /** One pass of the array loop over an element that reads up to k: the
      element is kept and a `,` after it is consumed. */
  lemma ElemsFromCell(elem: Parser, text: string, q: nat, k: nat, v: Value, acc: seq<Value>, lib: Lib)
    requires q < k < |text| && text[q] != ']' && v != Void
    requires ParseAt(elem, text, q, lib) == Parsed(Ok(v), k)
    ensures ElemsFrom(elem, text, q, acc, lib) ==
            ElemsFrom(elem, text, if text[k] == ',' then k + 1 else k, acc + [v], lib)
  {
    assert ElemStep(elem, text, q, lib) == Parsed(Ok(v), if text[k] == ',' then k + 1 else k);
  }

  /** Elements that each read their own cell, none of which starts with the
      array's closing `]`. */
  ghost predicate CellsRead(elem: Parser, cells: seq<string>, vals: seq<Value>, lib: Lib)
    decreases |cells|
  {
    |cells| == |vals| &&
    (|cells| > 0 ==>
       |cells[0]| > 0 && cells[0][0] != ']' && vals[0] != Void && ReadsCell(elem, cells[0], vals[0], lib) &&
       CellsRead(elem, cells[1..], vals[1..], lib))
  }

  /** A parser that reads a cell reads it wherever it stands. */
  lemma CellParsed(p: Parser, c: string, v: Value, text: string, q: nat, lib: Lib)
    requires ReadsCell(p, c, v, lib) && CellAt(text, q, c)
    ensures ParseAt(p, text, q, lib) == Parsed(Ok(v), q + |c|)
  {
    assert CellPlaced(text, q, c);
  }

  /** The array loop stops at `]` with the elements parsed so far. */
  lemma ElemsEnd(elem: Parser, text: string, q: nat, acc: seq<Value>, lib: Lib)
    requires q < |text| && text[q] == ']'
    ensures ElemsFrom(elem, text, q, acc, lib) == Parsed(Ok(Seq(acc)), q + 1)
  {
  }

  /** The array loop over a cell followed by `,`: its value is kept and the
      loop goes on after the `,`. */
  lemma ElemsNextCell(elem: Parser, c: string, v: Value, text: string, q: nat, acc: seq<Value>, lib: Lib)
    requires |c| > 0 && c[0] != ']' && v != Void && ReadsCell(elem, c, v, lib)
    requires CellAt(text, q, c) && text[q + |c|] == ','
    ensures ElemsFrom(elem, text, q, acc, lib) == ElemsFrom(elem, text, q + |c| + 1, acc + [v], lib)
  {
    assert text[q] == c[0] by { assert text[q] == text[q..q + |c|][0]; }
    CellParsed(elem, c, v, text, q, lib);
    ElemsFromCell(elem, text, q, q + |c|, v, acc, lib);
  }

  /** The array loop over a cell followed by `]`: its value is the last one. */
  lemma ElemsLastCell(elem: Parser, c: string, v: Value, text: string, q: nat, acc: seq<Value>, lib: Lib)
    requires |c| > 0 && c[0] != ']' && v != Void && ReadsCell(elem, c, v, lib)
    requires CellAt(text, q, c) && text[q + |c|] == ']'
    ensures ElemsFrom(elem, text, q, acc, lib) == Parsed(Ok(Seq(acc + [v])), q + |c| + 1)
  {
    assert text[q] == c[0] by { assert text[q] == text[q..q + |c|][0]; }
    CellParsed(elem, c, v, text, q, lib);
    ElemsFromCell(elem, text, q, q + |c|, v, acc, lib);
    ElemsEnd(elem, text, q + |c|, acc + [v], lib);
  }

  /** The array loop over cells standing one after another and closed by
      `]` gives the cells' values in order, after those already parsed. */
  lemma {:induction false} ElemsOfCells(elem: Parser, cells: seq<string>, vals: seq<Value>, text: string, q: nat,
                                        acc: seq<Value>, lib: Lib)
    requires |cells| >= 1 && CellsRead(elem, cells, vals, lib) && CellsAt(cells, text, q, ']')
    ensures ElemsFrom(elem, text, q, acc, lib) == Parsed(Ok(Seq(acc + vals)), CellsEnd(cells, q) + 1)
    decreases |cells|
  {
    var c := cells[0];
    if |cells| == 1 {
      ElemsLastCell(elem, c, vals[0], text, q, acc, lib);
      assert acc + [vals[0]] == acc + vals;
    } else {
      var acc' := acc + [vals[0]];
      assert acc' + vals[1..] == acc + vals;
      ElemsNextCell(elem, c, vals[0], text, q, acc, lib);
      ElemsOfCells(elem, cells[1..], vals[1..], text, q + |c| + 1, acc', lib);
    }
  }

  /** The text between an opening and a closing delimiter. */
  lemma Enclosed(open: string, J: string, close: string, rest: string)
    requires |open| == 1 && |close| == 1
    ensures var text := open + J + close + rest;
            text[1..1 + |J|] == J && text[1 + |J|] == close[0] && |text| == |J| + 2 + |rest|
  {
    var text := open + J + close + rest;
    assert text == open + (J + (close + rest));
    assert text[1..] == J + (close + rest);
    assert text[1..][..|J|] == J;
    assert text[1..][|J|] == close[0];
  }

  /** An array of cells joined by `,` parses to the cells' values, in order,
      consuming exactly the brackets and what lies between them. */
  lemma ArrayOfCells(elem: Parser, cells: seq<string>, vals: seq<Value>, rest: string, lib: Lib)
    requires CellsRead(elem, cells, vals, lib)
    ensures ParseAt(ArrayParser(elem), "[" + Join(cells, ",") + "]" + rest, 0, lib) ==
            Parsed(Ok(Seq(vals)), |Join(cells, ",")| + 2)
  {
    var J := Join(cells, ",");
    var text := "[" + J + "]" + rest;
    if |cells| == 0 {
      assert text[1] == ']';
    } else {
      Enclosed("[", J, "]", rest);
      JoinedCells(cells, text, 1, ']');
      ElemsOfCells(elem, cells, vals, text, 1, [], lib);
      assert [] + vals == vals;
    }
  }

  /** p fails with e on `cell` wherever the cell stands before a separator. */
  ghost predicate FailsOnCell(p: Parser, cell: string, e: Error, lib: Lib)
  {
    forall text: string, q: nat {:trigger CellPlaced(text, q, cell)} ::
      CellPlaced(text, q, cell) ==> ParseAt(p, text, q, lib).result == Err(e)
  }

  /** The array loop at an element that fails returns that element's error. */
  lemma ElemsFailCell(elem: Parser, c: string, e: Error, text: string, q: nat, acc: seq<Value>, lib: Lib)
    requires |c| > 0 && c[0] != ']' && FailsOnCell(elem, c, e, lib) && CellAt(text, q, c)
    ensures ElemsFrom(elem, text, q, acc, lib).result == Err(e)
  {
    assert text[q] == c[0] by { assert text[q] == text[q..q + |c|][0]; }
    assert CellPlaced(text, q, c);
    assert ElemStep(elem, text, q, lib).result == Err(e);
  }

  /** The array loop over cells of which the first k are read and cell k
      fails returns cell k's error: the values read before it are dropped. */
  lemma {:induction false} ElemsFailAt(elem: Parser, cells: seq<string>, vals: seq<Value>, k: nat, e: Error,
                                       text: string, q: nat, acc: seq<Value>, lib: Lib)
    requires k < |cells| && CellsRead(elem, cells[..k], vals, lib)
    requires |cells[k]| > 0 && cells[k][0] != ']' && FailsOnCell(elem, cells[k], e, lib)
    requires CellsAt(cells, text, q, ']')
    ensures ElemsFrom(elem, text, q, acc, lib).result == Err(e)
    decreases k
  {
    var c := cells[0];
    if k == 0 {
      ElemsFailCell(elem, c, e, text, q, acc, lib);
    } else {
      assert cells[..k][0] == c;
      assert cells[..k][1..] == cells[1..][..k - 1];
      ElemsNextCell(elem, c, vals[0], text, q, acc, lib);
      ElemsFailAt(elem, cells[1..], vals[1..], k - 1, e, text, q + |c| + 1, acc + [vals[0]], lib);
    }
  }

  /** An array whose cells are read up to cell k, on which the element
      parser fails with e, fails with e as a whole. */
  lemma ArrayFailsAtCell(elem: Parser, cells: seq<string>, vals: seq<Value>, k: nat, e: Error, rest: string,
                         lib: Lib)
    requires k < |cells| && CellsRead(elem, cells[..k], vals, lib)
    requires |cells[k]| > 0 && cells[k][0] != ']' && FailsOnCell(elem, cells[k], e, lib)
    ensures ParseAt(ArrayParser(elem), "[" + Join(cells, ",") + "]" + rest, 0, lib).result == Err(e)
  {
    var J := Join(cells, ",");
    var text := "[" + J + "]" + rest;
    Enclosed("[", J, "]", rest);
    JoinedCells(cells, text, 1, ']');
    ElemsFailAt(elem, cells, vals, k, e, text, 1, [], lib);
  }

  /** One pass of the tuple loop over a field that reads up to k. */
  lemma FieldsFromCell(fields: seq<Parser>, text: string, q: nat, i: nat, k: nat, v: Value, acc: seq<Value>,
                       lib: Lib)
    requires i < |fields| && v != Void
    requires i > 0 ==> q < |text| && text[q] == ','
    requires var p := if i > 0 then q + 1 else q;
             p <= k <= |text| && ParseAt(fields[i], text, p, lib) == Parsed(Ok(v), k)
    ensures FieldsFrom(fields, text, q, i, acc, lib) == FieldsFrom(fields, text, k, i + 1, acc + [v], lib)
  {
  }

  /** The fields from i on each read their own cell: cells[0] is field i's. */
  ghost predicate FieldsRead(fields: seq<Parser>, i: nat, cells: seq<string>, vals: seq<Value>, lib: Lib)
    decreases |cells|
  {
    |cells| == |vals| && |cells| >= 1 && i + |cells| == |fields| &&
    vals[0] != Void && ReadsCell(fields[i], cells[0], vals[0], lib) &&
    (|cells| > 1 ==> FieldsRead(fields, i + 1, cells[1..], vals[1..], lib))
  }

  /** Where field i starts: after the `,` at q, or at q for the first field. */
  function FieldStart(q: nat, i: nat): nat
  {
    if i > 0 then q + 1 else q
  }

  /** The tuple loop stops at `)` once every field is read. */
  lemma FieldsEnd(fields: seq<Parser>, text: string, q: nat, acc: seq<Value>, lib: Lib)
    requires q < |text| && text[q] == ')'
    ensures FieldsFrom(fields, text, q, |fields|, acc, lib) == Parsed(Ok(Record(acc)), q + 1)
  {
  }

  /** The tuple loop over field i, whose cell is followed by `,`: its value is
      kept and the loop goes on at that `,`. */
  lemma FieldsNextCell(fields: seq<Parser>, c: string, v: Value, text: string, q: nat, i: nat,
                       acc: seq<Value>, lib: Lib)
    requires i < |fields| && v != Void && ReadsCell(fields[i], c, v, lib)
    requires i > 0 ==> q < |text| && text[q] == ','
    requires CellAt(text, FieldStart(q, i), c)
    ensures FieldsFrom(fields, text, q, i, acc, lib) ==
            FieldsFrom(fields, text, FieldStart(q, i) + |c|, i + 1, acc + [v], lib)
  {
    CellParsed(fields[i], c, v, text, FieldStart(q, i), lib);
    FieldsFromCell(fields, text, q, i, FieldStart(q, i) + |c|, v, acc, lib);
  }

  /** The tuple loop over the last field, whose cell is followed by `)`. */
  lemma FieldsLastCell(fields: seq<Parser>, c: string, v: Value, text: string, q: nat, i: nat,
                       acc: seq<Value>, lib: Lib)
    requires i + 1 == |fields| && v != Void && ReadsCell(fields[i], c, v, lib)
    requires i > 0 ==> q < |text| && text[q] == ','
    requires CellAt(text, FieldStart(q, i), c) && text[FieldStart(q, i) + |c|] == ')'
    ensures FieldsFrom(fields, text, q, i, acc, lib) == Parsed(Ok(Record(acc + [v])), FieldStart(q, i) + |c| + 1)
  {
    FieldsNextCell(fields, c, v, text, q, i, acc, lib);
    FieldsEnd(fields, text, FieldStart(q, i) + |c|, acc + [v], lib);
  }

  /** The tuple loop from field i: field i + j reads cell j, with a `,`
      before every field but the first and a `)` after the last. */
  lemma {:induction false} FieldsOfCells(fields: seq<Parser>, cells: seq<string>, vals: seq<Value>, text: string,
                                         q: nat, i: nat, acc: seq<Value>, lib: Lib)
    requires FieldsRead(fields, i, cells, vals, lib)
    requires i > 0 ==> q < |text| && text[q] == ','
    requires CellsAt(cells, text, FieldStart(q, i), ')')
    ensures FieldsFrom(fields, text, q, i, acc, lib) ==
            Parsed(Ok(Record(acc + vals)), CellsEnd(cells, FieldStart(q, i)) + 1)
    decreases |cells|
  {
    var c := cells[0];
    if |cells| == 1 {
      FieldsLastCell(fields, c, vals[0], text, q, i, acc, lib);
      assert acc + [vals[0]] == acc + vals;
    } else {
      var acc' := acc + [vals[0]];
      assert acc' + vals[1..] == acc + vals;
      FieldsNextCell(fields, c, vals[0], text, q, i, acc, lib);
      FieldsOfCells(fields, cells[1..], vals[1..], text, FieldStart(q, i) + |c|, i + 1, acc', lib);
    }
  }

  /** A tuple of cells joined by `,` parses to one value per field, field j
      being what its parser reads from cell j. */
  lemma TupleOfCells(fields: seq<Parser>, cells: seq<string>, vals: seq<Value>, rest: string, lib: Lib)
    requires FieldsRead(fields, 0, cells, vals, lib)
    ensures ParseAt(TupleParser(fields), "(" + Join(cells, ",") + ")" + rest, 0, lib) ==
            Parsed(Ok(Record(vals)), |Join(cells, ",")| + 2)
  {
    var J := Join(cells, ",");
    var text := "(" + J + ")" + rest;
    Enclosed("(", J, ")", rest);
    JoinedCells(cells, text, 1, ')');
    FieldsOfCells(fields, cells, vals, text, 1, 0, [], lib);
    assert [] + vals == vals;
  }

  /** The decimal texts of xs, and the values a signed parser of width bits
      makes of them. */
  function FormatInts(xs: seq<int>): (r: seq<string>)
    ensures |r| == |xs| && forall j :: 0 <= j < |xs| ==> r[j] == FormatInt(xs[j])
  {
    if xs == [] then [] else [FormatInt(xs[0])] + FormatInts(xs[1..])
  }

  function IntValues(xs: seq<int>, bits: nat): (r: seq<Value>)
    ensures |r| == |xs| && forall j :: 0 <= j < |xs| ==> r[j] == Int(xs[j], bits)
  {
    if xs == [] then [] else [Int(xs[0], bits)] + IntValues(xs[1..], bits)
  }

  /** Each in-range number's decimal text is a cell a signed parser reads as
      that number. */
  lemma {:induction false} IntCellsRead(xs: seq<int>, bits: nat, lib: Lib)
    requires ValidIntSize(bits)
    requires forall j :: 0 <= j < |xs| ==> -(Pow2(bits - 1) as int) <= xs[j] < Pow2(bits - 1)
    ensures CellsRead(IntParser(true, bits), FormatInts(xs), IntValues(xs, bits), lib)
  {
    if xs != [] {
      FormatIntChars(xs[0]);
      SignedReadsCell(xs[0], bits, lib);
      IntCellsRead(xs[1..], bits, lib);
    }
  }

  /** An array of in-range numbers written in decimal and joined by `,`
      parses through an Array(IntN) parser to those numbers, in order. */
  lemma IntArrayParsed(xs: seq<int>, bits: nat, rest: string, lib: Lib)
    requires ValidIntSize(bits)
    requires forall j :: 0 <= j < |xs| ==> -(Pow2(bits - 1) as int) <= xs[j] < Pow2(bits - 1)
    ensures ParseAt(ArrayParser(IntParser(true, bits)), "[" + Join(FormatInts(xs), ",") + "]" + rest, 0, lib) ==
            Parsed(Ok(Seq(IntValues(xs, bits))), |Join(FormatInts(xs), ",")| + 2)
  {
    var cells := FormatInts(xs);
    IntCellsRead(xs, bits, lib);
    ArrayOfCells(IntParser(true, bits), cells, IntValues(xs, bits), rest, lib);
  }

  /** An array of numbers written in decimal, of which number k is the
      first too wide for an Array(IntN) parser, fails with a range error. */
  lemma IntArrayOutOfRange(xs: seq<int>, k: nat, bits: nat, rest: string, lib: Lib)
    requires ValidIntSize(bits) && k < |xs|
    requires forall j :: 0 <= j < k ==> -(Pow2(bits - 1) as int) <= xs[j] < Pow2(bits - 1)
    requires !(-(Pow2(bits - 1) as int) <= xs[k] < Pow2(bits - 1))
    ensures ParseAt(ArrayParser(IntParser(true, bits)), "[" + Join(FormatInts(xs), ",") + "]" + rest, 0, lib).result ==
            Err(RangeErr)
  {
    var cells := FormatInts(xs);
    IntCellsRead(xs[..k], bits, lib);
    assert cells[..k] == FormatInts(xs[..k]);
    FormatIntChars(xs[k]);
    SignedFailsCell(xs[k], bits, lib);
    ArrayFailsAtCell(IntParser(true, bits), cells, IntValues(xs[..k], bits), k, RangeErr, rest, lib);
  }

  /** The quoted, escaped texts of ss, and the values a quoted string parser
      makes of them. */
  function QuotedTexts(ss: seq<string>): (r: seq<string>)
    ensures |r| == |ss| && forall j :: 0 <= j < |ss| ==> r[j] == Quote(Escape(ss[j]))
  {
    if ss == [] then [] else [Quote(Escape(ss[0]))] + QuotedTexts(ss[1..])
  }

  function StrValues(ss: seq<string>): (r: seq<Value>)
    ensures |r| == |ss| && forall j :: 0 <= j < |ss| ==> r[j] == Str(ss[j])
  {
    if ss == [] then [] else [Str(ss[0])] + StrValues(ss[1..])
  }

  /** Each string, escaped and quoted, is a cell a quoted string parser
      reads as that string. */
  lemma {:induction false} StrCellsRead(ss: seq<string>, lib: Lib)
    ensures CellsRead(StringParser(true, 0), QuotedTexts(ss), StrValues(ss), lib)
  {
    if ss != [] {
      QuotedReadsCell(ss[0], lib);
      StrCellsRead(ss[1..], lib);
    }
  }

  /** An array of strings written as the encoder writes them parses through
      an Array(String) parser to those strings, in order, whatever commas
      and quotes they hold. */
  lemma StringArrayParsed(ss: seq<string>, rest: string, lib: Lib)
    ensures ParseAt(ArrayParser(StringParser(true, 0)), "[" + Join(QuotedTexts(ss), ",") + "]" + rest, 0, lib) ==
            Parsed(Ok(Seq(StrValues(ss))), |Join(QuotedTexts(ss), ",")| + 2)
  {
    var cells := QuotedTexts(ss);
    StrCellsRead(ss, lib);
    ArrayOfCells(StringParser(true, 0), cells, StrValues(ss), rest, lib);
  }

  /** A Tuple(String, IntN) cell written as the encoder writes its parts
      parses to the string and the number, in that order. */
  lemma StringIntTupleParsed(s: string, i: int, bits: nat, rest: string, lib: Lib)
    requires ValidIntSize(bits) && -(Pow2(bits - 1) as int) <= i < Pow2(bits - 1)
    ensures ParseAt(TupleParser([StringParser(true, 0), IntParser(true, bits)]),
                    "(" + Quote(Escape(s)) + "," + FormatInt(i) + ")" + rest, 0, lib) ==
            Parsed(Ok(Record([Str(s), Int(i, bits)])), |Escape(s)| + |FormatInt(i)| + 5)
  {
    var fields := [StringParser(true, 0), IntParser(true, bits)];
    var cells := [Quote(Escape(s)), FormatInt(i)];
    var vals := [Str(s), Int(i, bits)];
    QuotedReadsCell(s, lib);
    SignedReadsCell(i, bits, lib);
    assert FieldsRead(fields, 1, cells[1..], vals[1..], lib);
    assert FieldsRead(fields, 0, cells, vals, lib);
    assert Join(cells, ",") == Quote(Escape(s)) + "," + FormatInt(i);
    TupleOfCells(fields, cells, vals, rest, lib);
    assert "(" + Join(cells, ",") + ")" + rest == "(" + Quote(Escape(s)) + "," + FormatInt(i) + ")" + rest;
  }

  // ---------------------------------------------------------------------
  // Termination of the array loop

  /** A quoted parser that returns a value other than Nothing's has consumed
      at least one rune. */
  lemma Progress(p: Parser, text: string, q: nat, lib: Lib)
    requires q <= |text| && WellFormed(p, true)
    ensures var r := ParseAt(p, text, q, lib);
            r.result.Ok? && r.result.value != Void ==> q < r.next
  {
    match p
    case IntParser(_, _) =>
      if NumberEnd(text, q) == q {
        assert text[q..q] == [];
      }
    case FloatParser(_) =>
      if NumberEnd(text, q) == q {
        assert text[q..q] == [];
      }
    case _ =>
  }

  /** No parser newDataParser builds ever reaches an array pass that consumes
      nothing: the Go loop always ends. */
  lemma {:induction false} NeverDiverges(p: Parser, quoted: bool, text: string, q: nat, lib: Lib)
    requires q <= |text| && WellFormed(p, quoted)
    ensures ParseAt(p, text, q, lib).result != Err(Diverges)
    decreases p, 0, 0
  {
    match p
    case ArrayParser(elem) =>
      if CharAt(text, q) == Some('[') {
        ElemsNeverDiverge(elem, text, q + 1, [], lib);
      }
    case TupleParser(fields) =>
      if CharAt(text, q) == Some('(') {
        FieldsNeverDiverge(fields, text, q + 1, 0, [], lib);
      }
    case _ =>
  }

  lemma {:induction false} ElemsNeverDiverge(elem: Parser, text: string, q: nat, acc: seq<Value>, lib: Lib)
    requires q <= |text| && WellFormed(elem, true)
    ensures ElemsFrom(elem, text, q, acc, lib).result != Err(Diverges)
    decreases elem, 1, |text| - q
  {
    if CharAt(text, q) != Some(']') {
      NeverDiverges(elem, true, text, q, lib);
      Progress(elem, text, q, lib);
      var e := ElemStep(elem, text, q, lib);
      if e.result.Ok? {
        ElemsNeverDiverge(elem, text, e.next, acc + [e.result.value], lib);
      }
    }
  }

  lemma {:induction false} FieldsNeverDiverge(fields: seq<Parser>, text: string, q: nat, i: nat,
                                              acc: seq<Value>, lib: Lib)
    requires q <= |text| && i <= |fields|
    requires forall j :: 0 <= j < |fields| ==> WellFormed(fields[j], true)
    ensures FieldsFrom(fields, text, q, i, acc, lib).result != Err(Diverges)
    decreases fields, 1, |fields| - i
  {
    if i < |fields| && !(i > 0 && CharAt(text, q) != Some(',')) {
      var q1 := if i > 0 then q + 1 else q;
      NeverDiverges(fields[i], true, text, q1, lib);
      var f := ParseAt(fields[i], text, q1, lib);
      if f.result.Ok? && f.result.value != Void {
        FieldsNeverDiverge(fields, text, f.next, i + 1, acc + [f.result.value], lib);
      }
    }
  }

  /** Every parser NewDataParser builds parses any text to a value or an
      error of the Go code, never to a loop without end. */
  lemma BuiltParserTerminates(t: TypeDesc, text: string, lib: Lib)
    requires NewDataParser(t, lib).Ok?
    ensures ParseAt(NewDataParser(t, lib).value, text, 0, lib).result != Err(Diverges)
  {
    NeverDiverges(NewDataParser(t, lib).value, false, text, 0, lib);
  }
}
