/** Properties of the text codec: what the encoder writes, what the decoder
    reads back from it, and that every value the decoder puts in an array
    has the Go type columnType gives the array's elements. */
module EncoderProperties {
  import opened Outcome
  import opened Values
  import opened Numbers
  import opened Helpers
  import opened Encoder

  // ---------------------------------------------------------------------
  // Scalars

  /** A string is written as quote(escape(s)), and a String or FixedString
      column reads that text back as s. */
  lemma StringRoundTrip(s: string, t: string, d: TextDecoder, lib: Lib)
    requires t == "String" || (HasPrefix(t, "FixedString") && t !in ExactNames)
    ensures Encode(Text(s)) == Ok(Quote(Escape(s)))
    ensures Decode(d, t, Quote(Escape(s)), lib) == Ok(Str(s))
  {
    UnquoteQuote(Escape(s));
    UnescapeEscape(s);
    if t != "String" {
      assert !HasPrefix(t, "DateTime") by { assert t[0] == 'F'; }
    }
  }

  /** The names of the integer columns. */
  function SignedName(bits: nat): string
  {
    match bits
    case 8 => "Int8"
    case 16 => "Int16"
    case 32 => "Int32"
    case _ => "Int64"
  }

  function UnsignedName(bits: nat): string
  {
    match bits
    case 8 => "UInt8"
    case 16 => "UInt16"
    case 32 => "UInt32"
    case _ => "UInt64"
  }

  /** The type names of the switch's own cases are decoded by that switch. */
  lemma ExactDecode(d: TextDecoder, t: string, v: string, lib: Lib)
    requires t in ExactNames
    ensures Decode(d, t, v, lib) == DecodeExact(d, t, v, lib)
  {
  }

  /** An Int column parses signed integers of its own width. */
  lemma DecodeSignedName(bits: nat, v: string, d: TextDecoder, lib: Lib)
    requires ValidIntSize(bits)
    ensures Decode(d, SignedName(bits), v, lib) == DecodeInt(v, bits)
  {
    match bits
    case 8 => ExactDecode(d, "Int8", v, lib);
    case 16 => ExactDecode(d, "Int16", v, lib);
    case 32 => ExactDecode(d, "Int32", v, lib);
    case 64 => ExactDecode(d, "Int64", v, lib);
  }

  /** A UInt column parses unsigned integers of its own width. */
  lemma DecodeUnsignedName(bits: nat, v: string, d: TextDecoder, lib: Lib)
    requires ValidIntSize(bits)
    ensures Decode(d, UnsignedName(bits), v, lib) == DecodeUInt(v, bits)
  {
    match bits
    case 8 => ExactDecode(d, "UInt8", v, lib);
    case 16 => ExactDecode(d, "UInt16", v, lib);
    case 32 => ExactDecode(d, "UInt32", v, lib);
    case 64 => ExactDecode(d, "UInt64", v, lib);
  }

  /** A signed integer is written in base 10, and an Int column of width
      `bits` reads it back when it fits and reports a range error when it
      does not. */
  lemma SignedRoundTrip(i: int, bits: nat, d: TextDecoder, lib: Lib)
    requires ValidIntSize(bits)
    ensures Encode(Signed(i)) == Ok(FormatInt(i))
    ensures Decode(d, SignedName(bits), FormatInt(i), lib) ==
            if -(Pow2(bits - 1) as int) <= i < Pow2(bits - 1) then Ok(Int(i, bits)) else Err(RangeErr)
  {
    DecodeSignedName(bits, FormatInt(i), d, lib);
    ParseFormatInt(i, bits);
  }

  /** The same for an unsigned integer and a UInt column. */
  lemma UnsignedRoundTrip(n: nat, bits: nat, d: TextDecoder, lib: Lib)
    requires ValidIntSize(bits)
    ensures Encode(Unsigned(n)) == Ok(FormatUint(n))
    ensures Decode(d, UnsignedName(bits), FormatUint(n), lib) ==
            if n < Pow2(bits) then Ok(UInt(n, bits)) else Err(RangeErr)
  {
    DecodeUnsignedName(bits, FormatUint(n), d, lib);
    ParseFormatUint(n, bits);
  }

  /** What the encoder writes for the other scalars, for []byte and for
      pointers. */
  lemma EncodeScalars(b: bool, data: string, x: Host)
    ensures Encode(Boolean(b)) == Ok(if b then "1" else "0")
    ensures Encode(Nil) == Ok("NULL") && Encode(Pointer(None)) == Ok("NULL")
    ensures Encode(Pointer(Some(x))) == Encode(x)
    ensures Encode(Bytes(data)) == Ok(data)
  {
  }

  /** A time is written as its date and clock, quoted. */
  lemma EncodeMoment(t: Instant)
    ensures Encode(Moment(t)) == Ok(FormatTime(t)) && Unquote(FormatTime(t)) == t.date + " " + t.clock
  {
  }

  /** The zero sentinels of Date and DateTime, quoted or not, give the fixed
      zero date without consulting the zone. */
  lemma DateSentinels(d: TextDecoder, t: string, sentinel: string, lib: Lib)
    requires (t == "Date" && sentinel == "0000-00-00") || (t == "DateTime" && sentinel == "0000-00-00 00:00:00")
    ensures Decode(d, t, sentinel, lib) == Ok(Time(YearZero))
    ensures Decode(d, t, Quote(sentinel), lib) == Ok(Time(YearZero))
  {
    ExactDecode(d, t, sentinel, lib);
    ExactDecode(d, t, Quote(sentinel), lib);
    assert !IsQuoted(sentinel) by { assert sentinel[0] == '0'; }
    UnquoteQuote(sentinel);
  }

  /** An Enum column gives the cell unquoted, without unescaping. */
  lemma EnumCell(t: string, v: string, d: TextDecoder, lib: Lib)
    requires HasPrefix(t, "Enum") && v != "'"
    ensures Decode(d, t, v, lib) == Ok(Str(Unquote(v)))
  {
    assert t !in ExactNames && !HasPrefix(t, "DateTime") && !HasPrefix(t, "FixedString") && !HasPrefix(t, "Array") by {
      assert t[0] == 'E';
    }
  }

  /** A type name no case matches gives the cell's bytes unchanged. */
  lemma RawCell(t: string, v: string, d: TextDecoder, lib: Lib)
    requires t !in ExactNames
    requires !HasPrefix(t, "DateTime") && !HasPrefix(t, "FixedString")
    requires !HasPrefix(t, "Array") && !HasPrefix(t, "Enum")
    ensures Decode(d, t, v, lib) == Ok(Raw(v))
  {
  }

  // ---------------------------------------------------------------------
  // Zoned DateTime

  /** With useDBLocation, the zone of `DateTime(\'zone\')` is the name
      between the first and the last border; a type name without a border
      is an error. */
  lemma ZoneFromTypeName(zone: string, d: TextDecoder, lib: Lib)
    requires d.useDBLocation
    ensures ZoneOf(d, "DateTime(\\'" + zone + "\\')", lib) == LoadLocation(lib, zone)
    ensures ZoneOf(d, "DateTime", lib) == Err(ZoneNotFound)
  {
    var t := "DateTime(\\'" + zone + "\\')";
    FirstBorder(zone);
    LastBorder(zone);
    assert t[11..11 + |zone|] == zone;
    forall j ensures !OccursAt("DateTime", TimeZoneBorder, j) {
      if 0 <= j && j + 2 <= 8 {
        assert "DateTime"[j..j + 2][0] == "DateTime"[j] != '\\';
      }
    }
  }

  /** A zoned cell with useDBLocation is parsed in the zone named in the
      type, then reported in the decoder's zone; a zone the library cannot
      load is that error. */
  lemma ZonedCell(zone: string, v: string, d: TextDecoder, lib: Lib)
    requires d.useDBLocation && v != "'"
    ensures var r := Decode(d, "DateTime(\\'" + zone + "\\')", v, lib);
            (LoadLocation(lib, zone).Err? ==> r == Err(LocationErr(zone))) &&
            (LoadLocation(lib, zone).Ok? ==>
               (r.Ok? <==> lib.layoutMatches(TimeLayout, Unquote(v))) &&
               (r.Ok? ==> r.value == Time(InZone(Wall(TimeLayout, Unquote(v), LoadLocation(lib, zone).value), d.location))))
  {
    var t := "DateTime(\\'" + zone + "\\')";
    assert t[..8] == "DateTime";
    assert t !in ExactNames by { assert |t| > 8; }
    ZoneFromTypeName(zone, d, lib);
  }

  /** Without useDBLocation, a zoned cell is parsed in the decoder's zone,
      whatever zone the type names. */
  lemma DecoderZoneCell(t: string, v: string, d: TextDecoder, lib: Lib)
    requires !d.useDBLocation && v != "'"
    requires HasPrefix(t, "DateTime") && t != "DateTime"
    ensures var r := Decode(d, t, v, lib);
            (r.Ok? <==> lib.layoutMatches(TimeLayout, Unquote(v))) &&
            (r.Ok? ==> r.value == Time(InZone(Wall(TimeLayout, Unquote(v), d.location), d.location)))
  {
    assert t !in ExactNames by { assert |t| > 8; }
  }

  /** A time the encoder writes decodes in a DateTime column as the wall
      time of its text in the decoder's zone, unless it is the zero
      sentinel. */
  lemma TimeRoundTrip(t: Instant, d: TextDecoder, lib: Lib)
    requires t.date + " " + t.clock != "0000-00-00 00:00:00"
    ensures Encode(Moment(t)).Ok?
    ensures var r := Decode(d, "DateTime", Encode(Moment(t)).value, lib);
            (r.Ok? <==> lib.layoutMatches(TimeLayout, t.date + " " + t.clock)) &&
            (r.Ok? ==> r.value == Time(Wall(TimeLayout, t.date + " " + t.clock, d.location)))
  {
    EncodeMoment(t);
    ExactDecode(d, "DateTime", FormatTime(t), lib);
  }

  /** A date formatted by formatDate decodes in a Date column as the wall
      time of the date in the decoder's zone, unless it is the zero
      sentinel. */
  lemma DateRoundTrip(t: Instant, d: TextDecoder, lib: Lib)
    requires t.date != "0000-00-00"
    ensures var r := Decode(d, "Date", FormatDate(t), lib);
            (r.Ok? <==> lib.layoutMatches(DateLayout, t.date)) &&
            (r.Ok? ==> r.value == Time(Wall(DateLayout, t.date, d.location)))
  {
    ExactDecode(d, "Date", FormatDate(t), lib);
  }

  /** The first border of `DateTime(\'zone\')` is the one after the parenthesis. */
  lemma FirstBorder(zone: string)
    ensures Index("DateTime(\\'" + zone + "\\')", TimeZoneBorder) == 9
  {
    var t := "DateTime(" + TimeZoneBorder + zone + TimeZoneBorder + ")";
    assert t == "DateTime(\\'" + zone + "\\')";
    forall j | 0 <= j < 9 ensures !OccursAt(t, TimeZoneBorder, j) {
      assert t[j] == "DateTime("[j] != '\\';
      if j + 2 <= |t| {
        assert t[j..j + 2][0] == t[j];
      }
    }
    assert t[9..11] == TimeZoneBorder;
    assert OccursAt(t, TimeZoneBorder, 9);
    var first := Index(t, TimeZoneBorder);
    assert first != -1 && OccursAt(t, TimeZoneBorder, first);
    assert 9 <= first <= 9;
  }

  /** The last border of `DateTime(\'zone\')` is the one before the parenthesis. */
  lemma LastBorder(zone: string)
    ensures LastIndex("DateTime(\\'" + zone + "\\')", TimeZoneBorder) == 11 + |zone|
  {
    var t := "DateTime(" + TimeZoneBorder + zone + TimeZoneBorder + ")";
    assert t == "DateTime(\\'" + zone + "\\')";
    var right := 11 + |zone|;
    assert |t| == right + 3 && t[right + 1] == '\'';
    forall j | right < j ensures !OccursAt(t, TimeZoneBorder, j) {
      if j + 2 <= |t| {
        assert j == right + 1;
        assert t[j..j + 2][0] == t[j];
      }
    }
    assert t[right..right + 2] == TimeZoneBorder;
    assert OccursAt(t, TimeZoneBorder, right);
    var last := LastIndex(t, TimeZoneBorder);
    assert last != -1 && OccursAt(t, TimeZoneBorder, last);
    assert right <= last <= right;
  }

  // ---------------------------------------------------------------------
  // Arrays: encoding

  /** The encodings of elements that all encode. */
  function Encodings(items: seq<Host>): (r: seq<string>)
    requires forall i :: 0 <= i < |items| ==> Encode(items[i]).Ok?
    ensures |r| == |items| && forall i :: 0 <= i < |items| ==> r[i] == Encode(items[i]).value
  {
    if items == [] then [] else [Encode(items[0]).value] + Encodings(items[1..])
  }

  lemma {:induction false} JoinSnoc(parts: seq<string>, x: string, sep: string)
    ensures Join(parts + [x], sep) == if parts == [] then x else Join(parts, sep) + sep + x
    decreases |parts|
  {
    if |parts| >= 2 {
      assert (parts + [x])[1..] == parts[1..] + [x];
      JoinSnoc(parts[1..], x, sep);
    } else if |parts| == 1 {
      assert (parts + [x])[1..] == [x];
    }
  }

  lemma {:induction false} ElemsTextJoined(items: seq<Host>, encs: seq<string>, i: nat, acc: string)
    requires i <= |items| == |encs|
    requires forall j :: 0 <= j < |items| ==> Encode(items[j]) == Ok(encs[j])
    requires acc == "[" + Join(encs[..i], ",")
    ensures ElemsText(items, i, acc) == Ok("[" + Join(encs, ",") + "]")
    decreases |items| - i
  {
    if i == |items| {
      assert encs[..i] == encs;
    } else {
      var acc' := acc + (if i > 0 then "," else "") + encs[i];
      assert acc' == "[" + Join(encs[..i + 1], ",") by {
        assert encs[..i + 1] == encs[..i] + [encs[i]];
        JoinSnoc(encs[..i], encs[i], ",");
      }
      assert ElemsText(items, i, acc) == ElemsText(items, i + 1, acc');
      ElemsTextJoined(items, encs, i + 1, acc');
    }
  }

  lemma {:induction false} ElemsTextError(items: seq<Host>, i: nat, k: nat, acc: string)
    requires i <= k < |items| && Encode(items[k]).Err?
    ensures ElemsText(items, i, acc) == Err(NotSlice)
    decreases |items| - i
  {
    if i < k && Encode(items[i]).Ok? {
      ElemsTextError(items, i + 1, k, acc + (if i > 0 then "," else "") + Encode(items[i]).value);
    }
  }

  /** encodeArray writes `[`, the element encodings joined by `,`, and `]`,
      so an empty slice is `[]`. */
  lemma ArrayTextJoined(items: seq<Host>, encs: seq<string>)
    requires |encs| == |items|
    requires forall j :: 0 <= j < |items| ==> Encode(items[j]) == Ok(encs[j])
    ensures Encode(Slice(items)) == Ok("[" + Join(encs, ",") + "]")
  {
    assert encs[..0] == [];
    ElemsTextJoined(items, encs, 0, "[");
  }

  /** When every element encodes, Encodings lists their encodings. */
  lemma EncodingsOk(items: seq<Host>)
    requires forall i :: 0 <= i < |items| ==> Encode(items[i]).Ok?
    ensures forall j :: 0 <= j < |items| ==> Encode(items[j]) == Ok(Encodings(items)[j])
  {
  }

  /** encodeArray fails when any element fails. */
  lemma ArrayTextFails(items: seq<Host>, k: nat)
    requires k < |items| && Encode(items[k]).Err?
    ensures Encode(Slice(items)) == Err(NotSlice)
  {
    ElemsTextError(items, 0, k, "[");
    assert ArrayText(Slice(items)) == ElemsText(items, 0, "[");
  }

  /** The elements a []byte stands for when it is wrapped as an array. */
  function ByteHosts(data: string): (r: seq<Host>)
    ensures |r| == |data| && forall i :: 0 <= i < |data| ==> r[i] == Unsigned(data[i] as nat)
  {
    if data == [] then [] else [Unsigned(data[0] as nat)] + ByteHosts(data[1..])
  }

  lemma {:induction false} ByteElemsAsHosts(data: string, i: nat, acc: string)
    requires i <= |data|
    ensures ElemsText(ByteHosts(data), i, acc) == Ok(ByteElemsText(data, i, acc))
    decreases |data| - i
  {
    if i < |data| {
      assert Encode(ByteHosts(data)[i]) == Ok(FormatUint(data[i] as nat));
      ByteElemsAsHosts(data, i + 1, acc + (if i > 0 then "," else "") + FormatUint(data[i] as nat));
    }
  }

  /** A wrapped []byte is encoded as the array of its bytes as numbers, a
      wrapped slice as that slice, and anything else is not an array. */
  lemma WrappedArray(x: Host)
    ensures x.Bytes? ==> Encode(ArrayArg(x)) == Encode(Slice(ByteHosts(x.data)))
    ensures x.Slice? ==> Encode(ArrayArg(x)) == Encode(x)
    ensures !x.Bytes? && !x.Slice? ==> Encode(ArrayArg(x)) == Err(NotSlice)
  {
    if x.Bytes? {
      ByteElemsAsHosts(x.data, 0, "[");
    }
  }

  // ---------------------------------------------------------------------
  // Arrays: decoding

  /** A cell of an Array column without its brackets is malformed, and `[]`
      is the empty sequence. */
  lemma ArrayCellBrackets(t: string, v: string, d: TextDecoder, lib: Lib)
    requires IsArrayName(t)
    ensures !Bracketed(v) ==> Decode(d, t, v, lib) == Err(Malformed)
    ensures v == "[]" && ArrayElemType(t, v).Ok? ==> Decode(d, t, v, lib) == Ok(Seq([]))
  {
    if v == "[]" && ArrayElemType(t, v).Ok? {
      assert ArrayItems(v) == [];
      assert DecodeArray(d, t, v, lib) == DecodeItems(d, ArrayElemType(t, v).value, [], 0, [], lib);
    }
  }

  /** A Go value has the type a column type stands for. */
  predicate HasType(v: Value, ty: ScanType)
    decreases ty
  {
    match ty
    case TimeType => v.Time?
    case UIntType(bits) => v.UInt? && v.bits == bits
    case IntType(bits) => v.Int? && v.bits == bits
    case FloatType(bits) => v.Float? && v.bits == bits
    case StringType => v.Str?
    case SliceOf(elem) => v.Seq? && forall i :: 0 <= i < |v.items| ==> HasType(v.items[i], elem)
  }

  /** Whatever Decode returns for a type name with a column type has that
      type: so setting it into the slice reflect.SliceOf(columnType(sub))
      makes never panics. */
  lemma {:induction false} DecodeHasColumnType(d: TextDecoder, t: string, v: string, lib: Lib)
    requires ColumnTypeTotal(t) && ColumnType(t).Some?
    ensures Decode(d, t, v, lib).Ok? ==> HasType(Decode(d, t, v, lib).value, ColumnType(t).value)
    decreases |t|, 1
  {
    if t !in ExactNames {
      assert ExactColumnType(t).None?;
      if HasPrefix(t, "FixedString") {
        assert !HasPrefix(t, "DateTime") by { assert t[0] == 'F'; }
        assert ColumnType(t) == Some(StringType);
      } else if HasPrefix(t, "Array") {
        assert !HasPrefix(t, "DateTime") by { assert t[0] == 'A'; }
        match ArrayElemType(t, v)
        case Err(_) =>
        case Ok(sub) =>
          assert sub == ArrayElemName(t);
          assert ColumnType(t) == Some(SliceOf(ColumnType(sub).value));
          DecodeItemsHaveType(d, sub, ArrayItems(v), 0, [], lib);
          assert Decode(d, t, v, lib) == DecodeItems(d, sub, ArrayItems(v), 0, [], lib);
      } else if HasPrefix(t, "Enum") {
        assert !HasPrefix(t, "DateTime") by { assert t[0] == 'E'; }
        assert ColumnType(t) == Some(StringType);
      }
    }
  }

  lemma {:induction false} DecodeItemsHaveType(d: TextDecoder, sub: string, items: seq<string>, i: nat,
                                               acc: seq<Value>, lib: Lib)
    requires i <= |items| && ColumnTypeTotal(sub) && ColumnType(sub).Some?
    requires forall j :: 0 <= j < |acc| ==> HasType(acc[j], ColumnType(sub).value)
    ensures var r := DecodeItems(d, sub, items, i, acc, lib);
            r.Ok? ==> forall j :: 0 <= j < |r.value.items| ==> HasType(r.value.items[j], ColumnType(sub).value)
    decreases |sub| + 1, |items| - i
  {
    if i < |items| {
      DecodeHasColumnType(d, sub, items[i], lib);
      var x := Decode(d, sub, items[i], lib);
      if x.Ok? {
        DecodeItemsHaveType(d, sub, items, i + 1, acc + [x.value], lib);
      }
    }
  }

  function Signeds(xs: seq<int>): (r: seq<Host>)
    ensures |r| == |xs| && forall i :: 0 <= i < |xs| ==> r[i] == Signed(xs[i])
  {
    if xs == [] then [] else [Signed(xs[0])] + Signeds(xs[1..])
  }

  function Ints(xs: seq<int>, bits: nat): (r: seq<Value>)
    ensures |r| == |xs| && forall i :: 0 <= i < |xs| ==> r[i] == Int(xs[i], bits)
  {
    if xs == [] then [] else [Int(xs[0], bits)] + Ints(xs[1..], bits)
  }

  predicate InSignedRange(xs: seq<int>, bits: nat)
    requires bits >= 1
  {
    forall i :: 0 <= i < |xs| ==> -(Pow2(bits - 1) as int) <= xs[i] < Pow2(bits - 1)
  }

  lemma DecodeIntItems(xs: seq<int>, bits: nat, d: TextDecoder, lib: Lib)
    requires ValidIntSize(bits) && InSignedRange(xs, bits)
    ensures DecodeItems(d, SignedName(bits), Encodings(Signeds(xs)), 0, [], lib) == Ok(Seq(Ints(xs, bits)))
  {
    var encs := Encodings(Signeds(xs));
    var ints := Ints(xs, bits);
    forall j | 0 <= j < |encs| ensures Decode(d, SignedName(bits), encs[j], lib) == Ok(ints[j]) {
      SignedRoundTrip(xs[j], bits, d, lib);
    }
    assert ints[..0] == [];
    DecodeAllItems(d, SignedName(bits), encs, ints, 0, lib);
  }

  /** When every item decodes, the Array loop collects the decoded values
      in order. */
  lemma {:induction false} DecodeAllItems(d: TextDecoder, sub: string, items: seq<string>, vals: seq<Value>,
                                          i: nat, lib: Lib)
    requires i <= |items| == |vals|
    requires forall j :: 0 <= j < |items| ==> Decode(d, sub, items[j], lib) == Ok(vals[j])
    ensures DecodeItems(d, sub, items, i, vals[..i], lib) == Ok(Seq(vals))
    decreases |items| - i
  {
    if i == |items| {
      assert vals[..i] == vals;
    } else {
      assert vals[..i + 1] == vals[..i] + [vals[i]];
      DecodeAllItems(d, sub, items, vals, i + 1, lib);
    }
  }

  /** The Array loop returns the error of the first item that fails, and
      drops the values decoded before it. */
  lemma {:induction false} DecodeItemsFail(d: TextDecoder, sub: string, items: seq<string>, k: nat, e: Error,
                                           i: nat, acc: seq<Value>, lib: Lib)
    requires i <= k < |items|
    requires forall j :: i <= j < k ==> Decode(d, sub, items[j], lib).Ok?
    requires Decode(d, sub, items[k], lib) == Err(e)
    ensures DecodeItems(d, sub, items, i, acc, lib) == Err(e)
    decreases k - i
  {
    var x := Decode(d, sub, items[i], lib);
    if i < k {
      assert x.Ok?;
      DecodeItemsFail(d, sub, items, k, e, i + 1, acc + [x.value], lib);
      assert DecodeItems(d, sub, items, i, acc, lib) == DecodeItems(d, sub, items, i + 1, acc + [x.value], lib);
    } else {
      assert x == Err(e);
    }
  }

  /** An array cell whose item k is the first that fails to decode as the
      element type decodes to that item's own error. */
  lemma ArrayItemFails(d: TextDecoder, t: string, v: string, k: nat, e: Error, lib: Lib)
    requires IsArrayName(t) && ArrayElemType(t, v).Ok? && k < |ArrayItems(v)|
    requires forall j :: 0 <= j < k ==> Decode(d, ArrayElemType(t, v).value, ArrayItems(v)[j], lib).Ok?
    requires Decode(d, ArrayElemType(t, v).value, ArrayItems(v)[k], lib) == Err(e)
    ensures Decode(d, t, v, lib) == Err(e)
  {
    DecodeArrayItems(d, t, v, lib);
    DecodeItemsFail(d, ArrayElemType(t, v).value, ArrayItems(v), k, e, 0, [], lib);
  }

  /** The Array branch accepts `Array(X)` for a scalar X with a column type
      and decodes the items as X. */
  lemma ArrayOfScalar(name: string, v: string)
    requires ExactColumnType(name).Some? && Bracketed(v)
    ensures IsArrayName("Array(" + name + ")")
    ensures ArrayElemType("Array(" + name + ")", v) == Ok(name)
  {
    var t := "Array(" + name + ")";
    assert t[..5] == "Array";
    assert t[6..|t| - 1] == name;
    assert t[0] == 'A';
  }

  /** The text encodeArray writes for integers splits back into the
      integers' texts. */
  lemma IntArrayItems(xs: seq<int>)
    ensures forall i :: 0 <= i < |Signeds(xs)| ==> Encode(Signeds(xs)[i]).Ok?
    ensures var v := "[" + Join(Encodings(Signeds(xs)), ",") + "]";
            Bracketed(v) && ArrayItems(v) == Encodings(Signeds(xs))
  {
    var encs := Encodings(Signeds(xs));
    var v := "[" + Join(encs, ",") + "]";
    forall i | 0 <= i < |encs| ensures ',' !in encs[i] {
      FormatIntChars(xs[i]);
    }
    if xs == [] {
      assert v == "[]";
    } else {
      FormatIntChars(xs[0]);
      JoinHead(encs, ",");
      assert v[1] == encs[0][0];
      assert v[1..|v| - 1] == Join(encs, ",");
      SplitJoin(encs, ',');
    }
  }

  lemma DecodeOfArrayName(d: TextDecoder, t: string, v: string, lib: Lib)
    requires IsArrayName(t)
    ensures Decode(d, t, v, lib) == DecodeArray(d, t, v, lib)
  {
  }

  lemma DecodeArrayItems(d: TextDecoder, t: string, v: string, lib: Lib)
    requires IsArrayName(t) && ArrayElemType(t, v).Ok?
    ensures Decode(d, t, v, lib) == DecodeItems(d, ArrayElemType(t, v).value, ArrayItems(v), 0, [], lib)
  {
    DecodeOfArrayName(d, t, v, lib);
  }

  /** An array of integers that fit the width reads back, through an
      `Array(IntN)` column, as the same integers. */
  lemma IntArrayRoundTrip(xs: seq<int>, bits: nat, d: TextDecoder, lib: Lib)
    requires ValidIntSize(bits) && InSignedRange(xs, bits)
    ensures Encode(Slice(Signeds(xs))).Ok?
    ensures Decode(d, "Array(" + SignedName(bits) + ")", Encode(Slice(Signeds(xs))).value, lib) ==
            Ok(Seq(Ints(xs, bits)))
  {
    IntArrayEncoded(xs);
    IntArrayDecoded(xs, bits, d, lib);
  }

  /** The text encodeArray writes for integers. */
  function IntArrayText(xs: seq<int>): string
  {
    IntArrayItems(xs);
    "[" + Join(Encodings(Signeds(xs)), ",") + "]"
  }

  lemma IntArrayEncoded(xs: seq<int>)
    ensures Encode(Slice(Signeds(xs))) == Ok(IntArrayText(xs))
  {
    var hosts := Signeds(xs);
    IntArrayItems(xs);
    EncodingsOk(hosts);
    ArrayTextJoined(hosts, Encodings(hosts));
  }

  lemma IntArrayDecoded(xs: seq<int>, bits: nat, d: TextDecoder, lib: Lib)
    requires ValidIntSize(bits) && InSignedRange(xs, bits)
    ensures Decode(d, "Array(" + SignedName(bits) + ")", IntArrayText(xs), lib) == Ok(Seq(Ints(xs, bits)))
  {
    var name := SignedName(bits);
    var v := IntArrayText(xs);
    IntArrayItems(xs);
    SignedColumn(bits);
    ArrayOfScalar(name, v);
    DecodeArrayItems(d, "Array(" + name + ")", v, lib);
    DecodeIntItems(xs, bits, d, lib);
  }

  lemma SignedColumn(bits: nat)
    requires ValidIntSize(bits)
    ensures ExactColumnType(SignedName(bits)) == Some(IntType(bits))
  {
    match bits
    case 8 =>
    case 16 =>
    case 32 =>
    case 64 =>
  }

  lemma JoinHead(parts: seq<string>, sep: string)
    requires |parts| >= 1 && |parts[0]| >= 1
    ensures |Join(parts, sep)| >= 1 && Join(parts, sep)[0] == parts[0][0]
  {
  }

  /** The encoder writes `[[1,2]]` for an array holding the array [1 2]. */
  lemma NestedArrayText()
    ensures Encode(Slice([Slice([Unsigned(1), Unsigned(2)])])) == Ok("[[1,2]]")
  {
    InnerArrayText();
    ArrayTextJoined([Slice([Unsigned(1), Unsigned(2)])], ["[1,2]"]);
    assert "[" + "[1,2]" + "]" == "[[1,2]]";
  }

  lemma InnerArrayText()
    ensures Encode(Slice([Unsigned(1), Unsigned(2)])) == Ok("[1,2]")
  {
    assert Encode(Unsigned(1)) == Ok("1") && Encode(Unsigned(2)) == Ok("2");
    assert Join(["1", "2"], ",") == "1,2" by {
      assert ["1", "2"][1..] == ["2"];
    }
    ArrayTextJoined([Unsigned(1), Unsigned(2)], ["1", "2"]);
    assert "[" + "1,2" + "]" == "[1,2]";
  }

  lemma NestedArrayItems()
    ensures Bracketed("[[1,2]]") && ArrayItems("[[1,2]]") == ["[1", "2]"]
  {
    var v := "[[1,2]]";
    var items := ["[1", "2]"];
    assert v[1..|v| - 1] == "[1,2]";
    SplitJoin(items, ',');
    assert Join(items, ",") == "[1,2]" by {
      assert items[1..] == ["2]"];
    }
  }

  lemma NestedArrayElemType()
    ensures IsArrayName("Array(Array(UInt8))")
    ensures ArrayElemType("Array(Array(UInt8))", "[[1,2]]") == Ok("Array(UInt8)")
  {
    var t := "Array(Array(UInt8))";
    var sub := "Array(UInt8)";
    assert t == "Array(" + sub + ")";
    assert t[0] == 'A';
    assert t[..5] == "Array" && t[6..|t| - 1] == sub;
    ColumnTypeArray("UInt8");
    assert "Array(" + "UInt8" + ")" == sub;
  }

  lemma HalfArrayMalformed(d: TextDecoder, lib: Lib)
    ensures Decode(d, "Array(UInt8)", "[1", lib) == Err(Malformed)
  {
    assert "Array(UInt8)"[..5] == "Array";
    assert "Array(UInt8)"[0] == 'A';
    DecodeOfArrayName(d, "Array(UInt8)", "[1", lib);
  }

  /** As written, the Array branch splits a cell on every `,`, so an array
      of arrays reads back only while each inner array has at most one
      element: the text `[[1,2]]` that the encoder writes for [[1 2]] is
      malformed for an `Array(Array(UInt8))` column. */
  lemma NestedArrayNotReadBack(d: TextDecoder, lib: Lib)
    ensures Encode(Slice([Slice([Unsigned(1), Unsigned(2)])])) == Ok("[[1,2]]")
    ensures Decode(d, "Array(Array(UInt8))", "[[1,2]]", lib) == Err(Malformed)
  {
    NestedArrayText();
    NestedArrayItems();
    NestedArrayElemType();
    HalfArrayMalformed(d, lib);
    DecodeOfArrayName(d, "Array(Array(UInt8))", "[[1,2]]", lib);
  }
}
