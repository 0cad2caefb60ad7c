/** The text codec of encoder.go: host values become SQL literal text
    (textEncoder), and a column's type name with a cell's text becomes a
    value (textDecoder). */
module Encoder {
  import opened Outcome
  import opened Values
  import opened Numbers
  import opened Helpers

  // =====================================================================
  // textEncoder

  /** A host value handed to Encode, by the Go type the encoder tells
      apart. Bytes hold one char per byte. */
  datatype Host =
    | Nil                            // the untyped nil
    | Boolean(b: bool)               // bool
    | Signed(i: int)                 // int, int8 .. int64
    | Unsigned(n: nat)               // uint, uint8 .. uint64
    | Text(s: string)                // string
    | Bytes(data: string)            // []byte
    | Moment(t: Instant)             // time.Time
    | Slice(items: seq<Host>)        // any other slice or array
    | Pointer(target: Option<Host>)  // a pointer or an interface; None is nil
    | ArrayArg(inner: Host)          // the array wrapper of types.go
    | Other(text: string)            // any other type, as fmt.Sprint prints it

  /** The values encode handles: everything Encode does not dispatch on. */
  predicate IsScalar(h: Host)
  {
    !(h.Bytes? || h.Slice? || h.Pointer? || h.ArrayArg?)
  }

  /** encode: the literal text of a scalar. */
  function EncodeScalar(h: Host): (r: string)
    requires IsScalar(h)
    ensures h.Text? ==> IsQuoted(r)
    ensures h.Signed? || h.Unsigned? || h.Boolean? ==> |r| >= 1 && r[0] != '\'' && ',' !in r
  {
    match h
    case Nil => "NULL"
    case Boolean(b) => if b then "1" else "0"
    case Signed(i) => NumberText(i)
    case Unsigned(n) => NumberText(n)
    case Text(s) => Quote(Escape(s))
    case Moment(t) => FormatTime(t)
    case Other(text) => text
  }

  /** strconv.FormatInt, with the facts about its characters the array
      decoder relies on. */
  function NumberText(i: int): (r: string)
    ensures r == FormatInt(i)
    ensures |r| >= 1 && r[0] != '\'' && ',' !in r
  {
    FormatIntChars(i);
    FormatInt(i)
  }

  /** Encode: the array wrapper and any slice go through encodeArray, a
      []byte is passed through unquoted, a nil pointer is NULL and a
      non-nil one is followed. */
  function Encode(h: Host): (r: Result<string>)
    ensures r.Err? ==> r.error == NotSlice
    ensures h.Slice? ==> r.Ok? ==> |r.value| >= 2 && r.value[0] == '[' && r.value[|r.value| - 1] == ']'
    decreases h, 1
  {
    match h
    case ArrayArg(x) => ArrayText(x)
    case Bytes(data) => Ok(data)
    case Pointer(None) => Ok("NULL")
    case Pointer(Some(x)) => Encode(x)
    case Slice(_) => ArrayText(h)
    case _ => Ok(EncodeScalar(h))
  }

  /** encodeArray: `[`, the elements' encodings separated by `,`, then `]`;
      a value that is neither a slice nor an array is an error. The bytes of
      a []byte count as uint8 elements here. */
  function ArrayText(x: Host): (r: Result<string>)
    ensures r.Ok? ==> x.Slice? || x.Bytes?
    ensures r.Ok? ==> |r.value| >= 2 && r.value[0] == '[' && r.value[|r.value| - 1] == ']'
    ensures r.Err? ==> r.error == NotSlice
    decreases x, 0
  {
    match x
    case Slice(items) => ElemsText(items, 0, "[")
    case Bytes(data) => Ok(ByteElemsText(data, 0, "["))
    case _ => Err(NotSlice)
  }

  /** The loop of encodeArray over the elements from index i on, with the
      text built so far; the first element error aborts. */
  function ElemsText(items: seq<Host>, i: nat, acc: string): (r: Result<string>)
    requires i <= |items|
    ensures r.Ok? ==> |r.value| > |acc| && r.value[..|acc|] == acc && r.value[|r.value| - 1] == ']'
    ensures r.Err? ==> r.error == NotSlice
    decreases items, |items| - i
  {
    if i == |items| then Ok(acc + "]")
    else
      match Encode(items[i])
      case Err(e) => Err(e)
      case Ok(s) =>
        var acc' := acc + (if i > 0 then "," else "") + s;
        var r := ElemsText(items, i + 1, acc');
        assert r.Ok? ==> r.value[..|acc|] == acc'[..|acc|];
        r
  }

  /** The same loop over the bytes of a []byte: each is a uint8 number. */
  function ByteElemsText(data: string, i: nat, acc: string): (r: string)
    requires i <= |data|
    ensures |r| > |acc| && r[..|acc|] == acc && r[|r| - 1] == ']'
    decreases |data| - i
  {
    if i == |data| then acc + "]"
    else
      var acc' := acc + (if i > 0 then "," else "") + FormatUint(data[i] as nat);
      var r := ByteElemsText(data, i + 1, acc');
      assert r[..|acc|] == acc'[..|acc|];
      r
  }

  /** The element encodeArray reads at index i: value.Index(i).Interface(). */
  function ElementAt(x: Host, i: nat): Host
    requires x.Slice? ==> i < |x.items|
    requires x.Bytes? ==> i < |x.data|
    requires x.Slice? || x.Bytes?
  {
    if x.Slice? then x.items[i] else Unsigned(x.data[i] as nat)
  }

  function Length(x: Host): nat
    requires x.Slice? || x.Bytes?
  {
    if x.Slice? then |x.items| else |x.data|
  }

  /** The rest of encodeArray's loop from index i on, with the text built
      so far, for either kind of slice. */
  function RestText(x: Host, i: nat, acc: string): Result<string>
    requires x.Slice? || x.Bytes?
    requires i <= Length(x)
  {
    if x.Slice? then ElemsText(x.items, i, acc) else Ok(ByteElemsText(x.data, i, acc))
  }

  /** One pass of encodeArray's loop. */
  lemma RestTextStep(x: Host, i: nat, acc: string)
    requires (x.Slice? || x.Bytes?) && i < Length(x)
    ensures var e := Encode(ElementAt(x, i));
            RestText(x, i, acc) ==
              if e.Err? then Err(e.error)
              else RestText(x, i + 1, acc + (if i > 0 then "," else "") + e.value)
  {
    if x.Bytes? {
      assert Encode(ElementAt(x, i)) == Ok(FormatUint(x.data[i] as nat));
    }
  }

  /** encodeArray, as the Go code builds it: one append per element. */
  method EncodeArray(x: Host) returns (r: Result<string>)
    ensures r == ArrayText(x)
  {
    if !(x.Slice? || x.Bytes?) {
      return Err(NotSlice);
    }
    var res := "[";
    for i := 0 to Length(x)
      invariant ArrayText(x) == RestText(x, i, res)
    {
      RestTextStep(x, i, res);
      ghost var before := res;
      if i > 0 {
        res := res + ",";
      }
      var tmp := Encode(ElementAt(x, i));
      if tmp.Err? {
        return Err(tmp.error);
      }
      res := res + tmp.value;
      assert res == before + (if i > 0 then "," else "") + tmp.value;
    }
    return Ok(res + "]");
  }

  // =====================================================================
  // textDecoder

  /** A textDecoder: the zone results are reported in, and whether the zone
      named in a `DateTime('zone')` type overrides it for parsing. */
  datatype TextDecoder = TextDecoder(location: string, useDBLocation: bool)

  /** The escaped quote that brackets a zone name in a type name. */
  const TimeZoneBorder: string := "\\'"

  /** The type names Decode matches exactly. */
  const ExactNames: set<string> := {
    "Date", "DateTime", "UInt8", "UInt16", "UInt32", "UInt64",
    "Int8", "Int16", "Int32", "Int64", "Float32", "Float64", "String" }

  /** unquote, with the panic of Go's slice s[1:0] on the one-quote text. */
  function UnquoteCell(v: string): (r: Result<string>)
    ensures r.Ok? <==> v != "'"
    ensures r.Ok? ==> r.value == Unquote(v)
  {
    if v == "'" then Err(Panic("slice bounds out of range")) else Ok(Unquote(v))
  }

  function DecodeUInt(v: string, bits: nat): (r: Result<Value>)
    ensures r.Ok? ==> r.value.UInt? && r.value.bits == bits && r.value.n < Pow2(bits)
  {
    match ParseUint(v, bits)
    case Err(e) => Err(e)
    case Ok(n) => Ok(UInt(n, bits))
  }

  function DecodeInt(v: string, bits: nat): (r: Result<Value>)
    requires bits >= 1
    ensures r.Ok? ==> r.value.Int? && r.value.bits == bits
  {
    match ParseInt(v, bits)
    case Err(e) => Err(e)
    case Ok(i) => Ok(Int(i, bits))
  }

  /** The Date and DateTime cases: the zero sentinel, unquoted, is the fixed
      UTC zero date; anything else is parsed in the decoder's zone. */
  function DecodeDate(d: TextDecoder, layout: string, sentinel: string, v: string, lib: Lib): (r: Result<Value>)
    ensures r.Ok? ==> r.value.Time? && (r.value.t == YearZero || r.value.t.Wall?)
    ensures v == "'" ==> r.Err?
    ensures v != "'" && Unquote(v) == sentinel ==> r == Ok(Time(YearZero))
    ensures v != "'" && Unquote(v) != sentinel ==>
              (r.Ok? <==> ParseInLocation(lib, layout, Unquote(v), d.location).Ok?) &&
              (r.Ok? ==> r.value == Time(ParseInLocation(lib, layout, Unquote(v), d.location).value))
  {
    match UnquoteCell(v)
    case Err(e) => Err(e)
    case Ok(uv) =>
      if uv == sentinel then Ok(Time(YearZero))
      else
        match ParseInLocation(lib, layout, uv, d.location)
        case Err(e) => Err(e)
        case Ok(t) => Ok(Time(t))
  }

  /** The cases of Decode's switch on the exact type name. */
  function DecodeExact(d: TextDecoder, t: string, v: string, lib: Lib): (r: Result<Value>)
    requires t in ExactNames
  {
    match t
    case "Date" => DecodeDate(d, DateLayout, "0000-00-00", v, lib)
    case "DateTime" => DecodeDate(d, TimeLayout, "0000-00-00 00:00:00", v, lib)
    case "UInt8" => DecodeUInt(v, 8)
    case "UInt16" => DecodeUInt(v, 16)
    case "UInt32" => DecodeUInt(v, 32)
    case "UInt64" => DecodeUInt(v, 64)
    case "Int8" => DecodeInt(v, 8)
    case "Int16" => DecodeInt(v, 16)
    case "Int32" => DecodeInt(v, 32)
    case "Int64" => DecodeInt(v, 64)
    case "Float32" =>
      (match ParseFloat(lib, v, 64)
       case Err(e) => Err(e)
       case Ok(_) => Ok(Float(v, 32)))
    case "Float64" => ParseFloat(lib, v, 64)
    case "String" =>
      (match UnquoteCell(v)
       case Err(e) => Err(e)
       case Ok(uv) => Ok(Str(Unescape(uv))))
  }

  /** The zone a zoned DateTime cell is parsed in: the decoder's own, or
      with useDBLocation the name between the first and the last border of
      the type name (a single border slices t[left+2:left] and panics). */
  function ZoneOf(d: TextDecoder, t: string, lib: Lib): (r: Result<string>)
  {
    if !d.useDBLocation then Ok(d.location)
    else
      var left := Index(t, TimeZoneBorder);
      if left == -1 then Err(ZoneNotFound)
      else
        var right := LastIndex(t, TimeZoneBorder);
        if left + |TimeZoneBorder| > right then Err(Panic("slice bounds out of range"))
        else LoadLocation(lib, t[left + |TimeZoneBorder|..right])
  }

  /** A zoned DateTime: parsed in ZoneOf, then moved to the decoder's zone. */
  function DecodeZoned(d: TextDecoder, t: string, v: string, lib: Lib): (r: Result<Value>)
    ensures r.Ok? ==> r.value.Time? && r.value.t.InZone? && r.value.t.zone == d.location
    ensures ZoneOf(d, t, lib).Err? ==> r == Err(ZoneOf(d, t, lib).error)
    ensures ZoneOf(d, t, lib).Ok? && v != "'" ==>
              var parsed := ParseInLocation(lib, TimeLayout, Unquote(v), ZoneOf(d, t, lib).value);
              (r.Ok? <==> parsed.Ok?) && (r.Ok? ==> r.value == Time(InZone(parsed.value, d.location)))
  {
    match ZoneOf(d, t, lib)
    case Err(e) => Err(e)
    case Ok(loc) =>
      match UnquoteCell(v)
      case Err(e) => Err(e)
      case Ok(uv) =>
        match ParseInLocation(lib, TimeLayout, uv, loc)
        case Err(e) => Err(e)
        case Ok(w) => Ok(Time(InZone(w, d.location)))
  }

  predicate Bracketed(v: string) { |v| > 0 && v[0] == '[' && v[|v| - 1] == ']' }

  /** The items of an array cell: split on `','` inside the outer quotes
      when the first element is quoted, otherwise on `,`; `[]` has none. */
  function ArrayItems(v: string): (r: seq<string>)
    requires Bracketed(v)
    ensures |v| <= 2 ==> r == []
    ensures |v| > 4 && v[1] == '\'' && v[|v| - 2] == '\'' ==> Join(r, "','") == v[2..|v| - 2]
    ensures |v| > 2 && !(|v| > 4 && v[1] == '\'' && v[|v| - 2] == '\'') ==> Join(r, ",") == v[1..|v| - 1]
  {
    if |v| > 4 && v[1] == '\'' && v[|v| - 2] == '\'' then Split(v[2..|v| - 2], "','")
    else if |v| > 2 then Split(v[1..|v| - 1], ",")
    else []
  }

  /** Which branch of Decode handles the type name t. */
  predicate IsArrayName(t: string)
  {
    t !in ExactNames && !HasPrefix(t, "DateTime") && !HasPrefix(t, "FixedString") && HasPrefix(t, "Array")
  }

  /** textDecoder.Decode. */
  function Decode(d: TextDecoder, t: string, v: string, lib: Lib): (r: Result<Value>)
    decreases |t|, 1
  {
    if t in ExactNames then DecodeExact(d, t, v, lib)
    else if HasPrefix(t, "DateTime") then DecodeZoned(d, t, v, lib)
    else if HasPrefix(t, "FixedString") then
      match UnquoteCell(v)
      case Err(e) => Err(e)
      case Ok(uv) => Ok(Str(Unescape(uv)))
    else if HasPrefix(t, "Array") then DecodeArray(d, t, v, lib)
    else if HasPrefix(t, "Enum") then
      match UnquoteCell(v)
      case Err(e) => Err(e)
      case Ok(uv) => Ok(Str(uv))
    else Ok(Raw(v))
  }

  /** The checks of the Array branch before its loop: a cell without
      brackets is malformed; then t[6:len(t)-1] must be in range and
      reflect.SliceOf needs a column type for it. The element type name is
      the result. */
  function ArrayElemType(t: string, v: string): (r: Result<string>)
    ensures r.Ok? ==> Bracketed(v) && |t| >= 7 && r.value == t[6..|t| - 1]
    ensures r.Ok? ==> ColumnTypeTotal(r.value) && ColumnType(r.value).Some?
    ensures !Bracketed(v) ==> r == Err(Malformed)
  {
    if !Bracketed(v) then Err(Malformed)
    else if |t| < 7 then Err(Panic("slice bounds out of range"))
    else
      var sub := t[6..|t| - 1];
      if !ColumnTypeTotal(sub) then Err(Panic("slice bounds out of range"))
      else if ColumnType(sub).None? then Err(Panic("reflect.SliceOf of a nil type"))
      else Ok(sub)
  }

  /** The Array branch of Decode. */
  function DecodeArray(d: TextDecoder, t: string, v: string, lib: Lib): (r: Result<Value>)
    decreases |t|, 0
  {
    match ArrayElemType(t, v)
    case Err(e) => Err(e)
    case Ok(sub) => DecodeItems(d, sub, ArrayItems(v), 0, [], lib)
  }

  /** The loop of the Array branch from item i on, with the values decoded
      so far; the first item error is returned. */
  function DecodeItems(d: TextDecoder, sub: string, items: seq<string>, i: nat, acc: seq<Value>, lib: Lib)
    : (r: Result<Value>)
    requires i <= |items|
    ensures r.Ok? ==> r.value.Seq? && |r.value.items| == |acc| + |items| - i && r.value.items[..|acc|] == acc
    decreases |sub| + 1, |items| - i
  {
    if i == |items| then Ok(Seq(acc))
    else
      match Decode(d, sub, items[i], lib)
      case Err(e) => Err(e)
      case Ok(x) =>
        var r := DecodeItems(d, sub, items, i + 1, acc + [x], lib);
        assert r.Ok? ==> r.value.items[..|acc|] == (acc + [x])[..|acc|];
        r
  }

  /** textDecoder.Decode as the Go code runs it: the Array branch fills a
      slice of len(items) elements in a loop, decoding each item with a
      recursive call. */
  method DecodeCell(d: TextDecoder, t: string, v: string, lib: Lib) returns (r: Result<Value>)
    ensures r == Decode(d, t, v, lib)
    decreases |t|
  {
    if !IsArrayName(t) {
      return Decode(d, t, v, lib);
    }
    var sub := ArrayElemType(t, v);
    if sub.Err? {
      return Err(sub.error);
    }
    var items := ArrayItems(v);
    var slice := new Value[|items|](_ => Void);
    for i := 0 to |items|
      invariant DecodeArray(d, t, v, lib) == DecodeItems(d, sub.value, items, i, slice[..i], lib)
    {
      var vv := DecodeCell(d, sub.value, items[i], lib);
      if vv.Err? {
        return Err(vv.error);
      }
      slice[i] := vv.value;
      assert slice[..i + 1] == slice[..i] + [vv.value];
    }
    assert slice[..] == slice[..|items|];
    return Ok(Seq(slice[..]));
  }
}
