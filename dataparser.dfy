/** The type-driven cell parser of dataparser.go. A `TypeDesc` tree is
    turned into a `Parser` (newDataParser), and a parser consumes runes from
    a scanner that can push back the rune it has just read.

    Each parsing routine exists twice: as a function over the text and a
    cursor (the specification, used by the lemmas) and as a method over a
    `Scanner` object, written as the Go code is, with its loops, and proved
    to compute exactly what the function says. */
module DataParser {
  import opened Outcome
  import opened Values
  import opened Numbers

  /** A parsed type name: `Array(Tuple(String, UInt8))` is
      TD("Array", [TD("Tuple", [TD("String", []), TD("UInt8", [])])]). */
  datatype TypeDesc = TD(name: string, args: seq<TypeDesc>)

  /** The parsers newDataParser builds. */
  datatype Parser =
    | NothingParser
    | StringParser(unquote: bool, length: int)
    | DateTimeParser(unquote: bool, layout: string, location: string)
    | IntParser(signed: bool, bitSize: nat)
    | FloatParser(bitSize: nat)
    | ArrayParser(elem: Parser)
    | TupleParser(fields: seq<Parser>)

  // =====================================================================
  // newDataParser

  /** newDateTimeParser: the zone is resolved when the parser is built. */
  function NewDateTimeParser(layout: string, locname: string, unquote: bool, lib: Lib): (r: Result<Parser>)
    ensures r.Ok? ==> r.value.DateTimeParser? && r.value.layout == layout && r.value.unquote == unquote
  {
    match LoadLocation(lib, locname)
    case Err(e) => Err(e)
    case Ok(loc) => Ok(DateTimeParser(unquote, layout, loc))
  }

  /** The type names newDataParser has a parser for. */
  const ParserNames: set<string> := {
    "Nothing", "Date", "DateTime", "UInt8", "UInt16", "UInt32", "UInt64",
    "Int8", "Int16", "Int32", "Int64", "Float32", "Float64",
    "String", "Enum8", "Enum16", "FixedString", "Array", "Tuple" }

  /** The shape of a parser newDataParser builds with `quoted` as its
      unquote flag: string and date parsers quote as asked, every element
      parser of an array or a tuple is quoted, integer and float parsers
      have a width their Parse supports, and a tuple has a field. */
  predicate WellFormed(p: Parser, quoted: bool)
  {
    match p
    case NothingParser => true
    case StringParser(u, _) => u == quoted
    case DateTimeParser(u, layout, _) => u == quoted && (layout == DateLayout || layout == TimeLayout)
    case IntParser(_, bits) => ValidIntSize(bits)
    case FloatParser(bits) => bits == 32 || bits == 64
    case ArrayParser(e) => WellFormed(e, true)
    case TupleParser(fs) => |fs| >= 1 && forall i :: 0 <= i < |fs| ==> WellFormed(fs[i], true)
  }

  /** newDataParser(t, unquote): dispatch on the type name. Element parsers
      of arrays and tuples are built with unquote set. */
  function NewParser(t: TypeDesc, unquote: bool, lib: Lib): (r: Result<Parser>)
    ensures r.Ok? ==> t.name in ParserNames && WellFormed(r.value, unquote)
    ensures t.name == "Nullable" ==> r == Err(Unsupported("Nullable"))
    ensures t.name !in ParserNames ==> r.Err? && r.error.Unsupported?
    ensures t.name == "Array" && r.Ok? ==> |t.args| == 1 && r.value.ArrayParser?
    ensures t.name == "Array" && |t.args| != 1 ==> r == Err(BadParserArgs("Array"))
    ensures t.name == "Tuple" && r.Ok? ==> r.value.TupleParser? && |r.value.fields| == |t.args| >= 1
    ensures t.name == "Tuple" && |t.args| == 0 ==> r == Err(BadParserArgs("Tuple"))
    ensures t.name == "FixedString" ==>
              (r.Ok? <==> |t.args| == 1 && Atoi(t.args[0].name).Ok?) &&
              (r.Ok? ==> r.value == StringParser(unquote, Atoi(t.args[0].name).value))
    ensures t.name == "Array" && |t.args| == 1 ==>
              (r.Ok? <==> NewParser(t.args[0], true, lib).Ok?) &&
              (r.Ok? ==> r.value == ArrayParser(NewParser(t.args[0], true, lib).value))
    ensures t.name == "Tuple" && |t.args| >= 1 ==>
              (r.Ok? <==> NewFieldParsers(t, 0, lib).Ok?) &&
              (r.Ok? ==> r.value == TupleParser(NewFieldParsers(t, 0, lib).value))
    ensures t.name == "Date" ==> r.Ok? && r.value == DateTimeParser(unquote, DateLayout, "UTC")
    ensures t.name == "DateTime" ==>
              var zone := LoadLocation(lib, if |t.args| > 0 then t.args[0].name else "UTC");
              (r.Ok? <==> zone.Ok?) && (r.Ok? ==> r.value == DateTimeParser(unquote, TimeLayout, zone.value))
    decreases t, 1
  {
    match t.name
    case "Nothing" => Ok(NothingParser)
    case "Nullable" => Err(Unsupported("Nullable"))
    case "Date" => NewDateTimeParser(DateLayout, "UTC", unquote, lib)
    case "DateTime" =>
      var locname := if |t.args| > 0 then t.args[0].name else "UTC";
      NewDateTimeParser(TimeLayout, locname, unquote, lib)
    case "UInt8" => Ok(IntParser(false, 8))
    case "UInt16" => Ok(IntParser(false, 16))
    case "UInt32" => Ok(IntParser(false, 32))
    case "UInt64" => Ok(IntParser(false, 64))
    case "Int8" => Ok(IntParser(true, 8))
    case "Int16" => Ok(IntParser(true, 16))
    case "Int32" => Ok(IntParser(true, 32))
    case "Int64" => Ok(IntParser(true, 64))
    case "Float32" => Ok(FloatParser(32))
    case "Float64" => Ok(FloatParser(64))
    case "String" => Ok(StringParser(unquote, 0))
    case "Enum8" => Ok(StringParser(unquote, 0))
    case "Enum16" => Ok(StringParser(unquote, 0))
    case "FixedString" =>
      if |t.args| != 1 then Err(BadParserArgs("FixedString"))
      else
        (match Atoi(t.args[0].name)
         case Err(_) => Err(BadParserArgs("FixedString"))
         case Ok(length) => Ok(StringParser(unquote, length)))
    case "Array" =>
      if |t.args| != 1 then Err(BadParserArgs("Array"))
      else
        (match NewParser(t.args[0], true, lib)
         case Err(e) => Err(e)
         case Ok(sub) => Ok(ArrayParser(sub)))
    case "Tuple" =>
      if |t.args| < 1 then Err(BadParserArgs("Tuple"))
      else
        (match NewFieldParsers(t, 0, lib)
         case Err(e) => Err(e)
         case Ok(subs) => Ok(TupleParser(subs)))
    case _ => Err(Unsupported(t.name))
  }

  /** The loop over a tuple's arguments from index i on: one element parser
      per argument, stopping at the first error. */
  function NewFieldParsers(t: TypeDesc, i: nat, lib: Lib): (r: Result<seq<Parser>>)
    requires i <= |t.args|
    ensures r.Ok? ==> |r.value| == |t.args| - i
    ensures r.Ok? ==> forall j :: 0 <= j < |r.value| ==> WellFormed(r.value[j], true)
    ensures r.Ok? <==> forall j :: i <= j < |t.args| ==> NewParser(t.args[j], true, lib).Ok?
    ensures r.Ok? ==> forall j :: 0 <= j < |r.value| ==> r.value[j] == NewParser(t.args[i + j], true, lib).value
    decreases t, 0, |t.args| - i
  {
    if i == |t.args| then Ok([])
    else
      match NewParser(t.args[i], true, lib)
      case Err(e) => Err(e)
      case Ok(p) =>
        match NewFieldParsers(t, i + 1, lib)
        case Err(e) => Err(e)
        case Ok(ps) => Ok([p] + ps)
  }

  /** NewDataParser: the top-level cell is not quoted. */
  function NewDataParser(t: TypeDesc, lib: Lib): (r: Result<Parser>)
    ensures r.Ok? ==> WellFormed(r.value, false)
    ensures r.Ok? && r.value.StringParser? ==> !r.value.unquote
  {
    NewParser(t, false, lib)
  }

  // =====================================================================
  // Specification of parsing: functions over the text and a cursor

  /** What a parsing routine returns, with the cursor it leaves behind. */
  datatype Parsed<+T> = Parsed(result: Result<T>, next: nat)

  /** The rune `read` returns at q: None is eof. */
  function CharAt(text: string, q: nat): Option<char>
  {
    if q < |text| then Some(text[q]) else None
  }

  /** The cursor after `read` at q: eof does not advance. */
  function After(text: string, q: nat): nat
  {
    if q < |text| then q + 1 else q
  }

  predicate IsNumberEnd(c: char) { c == ',' || c == ']' || c == ')' }

  /** readNumber stops at the end of the text or at the first `,` `]` or `)`,
      which it leaves unread; the number is everything before it. */
  function NumberEnd(text: string, q: nat): (k: nat)
    requires q <= |text|
    ensures q <= k <= |text|
    ensures forall j :: q <= j < k ==> !IsNumberEnd(text[j])
    ensures k < |text| ==> IsNumberEnd(text[k])
    decreases |text| - q
  {
    if q == |text| || IsNumberEnd(text[q]) then q else NumberEnd(text, q + 1)
  }

  /** The rune an escape sequence stands for, for the escapes of the type
      grammar: backslash, quote, b, r, n, f, t and 0. */
  function EscapeTable(c: char): Option<char>
  {
    match c
    case '\\' => Some('\\')
    case '\'' => Some('\'')
    case 'b' => Some(8 as char)
    case 'r' => Some('\r')
    case 'n' => Some('\n')
    case 'f' => Some(12 as char)
    case 't' => Some('\t')
    case '0' => Some('\0')
    case _ => None
  }

  /** readEscaped at q, just after a backslash: eof or an unknown escape is
      an error. */
  function Escaped(text: string, q: nat): (r: Parsed<char>)
    requires q <= |text|
    ensures r.next == After(text, q)
  {
    if q == |text| then Parsed(Err(EscapeErr), q)
    else match EscapeTable(text[q])
      case None => Parsed(Err(EscapeErr), q + 1)
      case Some(c) => Parsed(Ok(c), q + 1)
  }

  /** The end of readUnquoted: with a fixed length, exactly that many runes
      must have been decoded. */
  function FinishUnquoted(acc: string, length: int, q: nat): (r: Parsed<string>)
  {
    if length != 0 && |acc| != length then Parsed(Err(LengthErr(|acc|, length)), q)
    else Parsed(Ok(acc), q)
  }

  /** The loop of readUnquoted from q, with the runes decoded so far in
      `acc`: stops at eof, before a quote, or after `length` runes when
      length is not 0; a backslash starts an escape. */
  function UnquotedFrom(text: string, q: nat, length: int, acc: string): (r: Parsed<string>)
    requires q <= |text|
    ensures q <= r.next <= |text|
    ensures r.result.Ok? && length != 0 ==> |r.result.value| == length
    ensures r.result.Ok? && length == 0 ==> r.next == |text| || text[r.next] == '\''
    ensures r.result.Err? ==> r.result.error == EscapeErr || r.result.error.LengthErr?
    decreases |text| - q
  {
    if !(length == 0 || |acc| < length) || q == |text| || text[q] == '\'' then
      FinishUnquoted(acc, length, q)
    else if text[q] == '\\' then
      var e := Escaped(text, q + 1);
      if e.result.Err? then Parsed(Err(EscapeErr), e.next)
      else UnquotedFrom(text, e.next, length, acc + [e.result.value])
    else UnquotedFrom(text, q + 1, length, acc + [text[q]])
  }

  /** readString: with `unquote`, the string must be enclosed in quotes. */
  function StringAt(text: string, q: nat, length: int, unquote: bool): (r: Parsed<string>)
    requires q <= |text|
    ensures q <= r.next <= |text|
    ensures r.result.Err? ==>
              r.result.error == EscapeErr || r.result.error.LengthErr? || r.result.error.UnexpectedChar?
  {
    if unquote && CharAt(text, q) != Some('\'') then
      Parsed(Err(UnexpectedChar(CharAt(text, q), '\'')), After(text, q))
    else
      var u := UnquotedFrom(text, if unquote then q + 1 else q, length, "");
      if u.result.Err? then u
      else if unquote && CharAt(text, u.next) != Some('\'') then
        Parsed(Err(UnexpectedChar(CharAt(text, u.next), '\'')), After(text, u.next))
      else Parsed(u.result, if unquote then u.next + 1 else u.next)
  }

  /** The value intParser makes of the number's text. */
  function IntValue(signed: bool, bits: nat, repr: string): Result<Value>
  {
    if !ValidIntSize(bits) then Err(Panic("unsupported bit size"))
    else if signed then
      match ParseInt(repr, bits)
      case Err(e) => Err(e)
      case Ok(v) => Ok(Int(v, bits))
    else
      match ParseUint(repr, bits)
      case Err(e) => Err(e)
      case Ok(v) => Ok(UInt(v, bits))
  }

  /** The value dateTimeParser makes of the string it read: the zero
      sentinels give the zero time, anything else is parsed in the zone. */
  function TimeValue(lib: Lib, layout: string, location: string, s: string): Result<Value>
  {
    if s == "0000-00-00" || s == "0000-00-00 00:00:00" then Ok(Time(Zero))
    else
      match ParseInLocation(lib, layout, s, location)
      case Err(e) => Err(e)
      case Ok(t) => Ok(Time(t))
  }

  /** Parse of parser p at q. */
  function ParseAt(p: Parser, text: string, q: nat, lib: Lib): (r: Parsed<Value>)
    requires q <= |text|
    ensures q <= r.next <= |text|
    decreases p, 0, 0
  {
    match p
    case NothingParser => Parsed(Ok(Void), q)
    case StringParser(unquote, length) =>
      var s := StringAt(text, q, length, unquote);
      Parsed(if s.result.Ok? then Ok(Str(s.result.value)) else Err(s.result.error), s.next)
    case DateTimeParser(unquote, layout, location) =>
      var s := StringAt(text, q, |layout|, unquote);
      if s.result.Err? then Parsed(Err(s.result.error), s.next)
      else Parsed(TimeValue(lib, layout, location, s.result.value), s.next)
    case IntParser(signed, bits) =>
      var k := NumberEnd(text, q);
      Parsed(IntValue(signed, bits, text[q..k]), k)
    case FloatParser(bits) =>
      var k := NumberEnd(text, q);
      if bits != 32 && bits != 64 then Parsed(Err(Panic("unsupported bit size")), k)
      else Parsed(ParseFloat(lib, text[q..k], bits), k)
    case ArrayParser(elem) =>
      if CharAt(text, q) != Some('[') then Parsed(Err(UnexpectedChar(CharAt(text, q), '[')), After(text, q))
      else ElemsFrom(elem, text, q + 1, [], lib)
    case TupleParser(fields) =>
      if CharAt(text, q) != Some('(') then Parsed(Err(UnexpectedChar(CharAt(text, q), '(')), After(text, q))
      else FieldsFrom(fields, text, q + 1, 0, [], lib)
  }

  /** One pass of arrayParser.Parse's loop after the `]` test: an element is
      parsed (appending Go's nil, the Nothing value, panics in
      reflect.Append), then a `,` is consumed if present. */
  function ElemStep(elem: Parser, text: string, q: nat, lib: Lib): (r: Parsed<Value>)
    requires q <= |text|
    ensures q <= r.next <= |text|
    decreases elem, 0, 1
  {
    var e := ParseAt(elem, text, q, lib);
    if e.result.Err? then e
    else if e.result.value == Void then Parsed(Err(Panic("append of a nil value")), e.next)
    else Parsed(e.result, if CharAt(text, e.next) == Some(',') then e.next + 1 else e.next)
  }

  /** The loop of arrayParser.Parse at q, with the elements parsed so far:
      a `]` ends the array, anything else starts an element. A pass that
      consumes nothing would repeat forever in the Go code. */
  function ElemsFrom(elem: Parser, text: string, q: nat, acc: seq<Value>, lib: Lib): (r: Parsed<Value>)
    requires q <= |text|
    ensures q <= r.next <= |text|
    decreases elem, 1, |text| - q
  {
    if CharAt(text, q) == Some(']') then Parsed(Ok(Seq(acc)), q + 1)
    else
      var e := ElemStep(elem, text, q, lib);
      if e.result.Err? then Parsed(Err(e.result.error), e.next)
      else if e.next == q then Parsed(Err(Diverges), q)
      else ElemsFrom(elem, text, e.next, acc + [e.result.value], lib)
  }

  /** The loop of tupleParser.Parse over the fields from index i on: a `,`
      before every field but the first, then the field (setting a field to
      Go's nil panics), and a `)` after the last. */
  function FieldsFrom(fields: seq<Parser>, text: string, q: nat, i: nat, acc: seq<Value>, lib: Lib)
    : (r: Parsed<Value>)
    requires q <= |text| && i <= |fields|
    ensures q <= r.next <= |text|
    decreases fields, 1, |fields| - i
  {
    if i == |fields| then
      if CharAt(text, q) == Some(')') then Parsed(Ok(Record(acc)), q + 1)
      else Parsed(Err(UnexpectedChar(CharAt(text, q), ')')), After(text, q))
    else if i > 0 && CharAt(text, q) != Some(',') then
      Parsed(Err(UnexpectedChar(CharAt(text, q), ',')), After(text, q))
    else
      var q1 := if i > 0 then q + 1 else q;
      var f := ParseAt(fields[i], text, q1, lib);
      if f.result.Err? then Parsed(Err(f.result.error), f.next)
      else if f.result.value == Void then Parsed(Err(Panic("set of a nil value")), f.next)
      else FieldsFrom(fields, text, f.next, i + 1, acc + [f.result.value], lib)
  }

  // =====================================================================
  // The scanner and the parsing methods

  /** An io.RuneScanner over a text: a cursor that can step back over the
      rune the last read returned. */
  class Scanner {
    const text: string
    var pos: nat
    var canUnread: bool   // the last operation was a read that returned a rune

    ghost predicate Valid()
      reads this
    {
      pos <= |text| && (canUnread ==> pos > 0)
    }

    constructor (text: string)
      ensures Valid() && this.text == text && pos == 0 && !canUnread
    {
      this.text := text;
      pos := 0;
      canUnread := false;
    }

    /** read: the next rune, or eof (None) without advancing. */
    method Read() returns (r: Option<char>)
      requires Valid()
      modifies this
      ensures Valid()
      ensures r == CharAt(text, old(pos)) && pos == After(text, old(pos))
      ensures canUnread == r.Some?
    {
      if pos < |text| {
        r := Some(text[pos]);
        pos := pos + 1;
        canUnread := true;
      } else {
        r := None;
        canUnread := false;
      }
    }

    /** UnreadRune: steps back over the rune just read; after eof, or twice
        in a row, it does nothing. */
    method UnreadRune()
      requires Valid()
      modifies this
      ensures Valid() && !canUnread
      ensures pos == if old(canUnread) then old(pos) - 1 else old(pos)
    {
      if canUnread {
        pos := pos - 1;
        canUnread := false;
      }
    }
  }

  method ReadNumber(s: Scanner) returns (r: string)
    requires s.Valid()
    modifies s
    ensures s.Valid()
    ensures s.pos == NumberEnd(s.text, old(s.pos)) && r == s.text[old(s.pos)..s.pos]
  {
    ghost var start := s.pos;
    var builder := "";
    while true
      invariant s.Valid() && start <= s.pos
      invariant builder == s.text[start..s.pos]
      invariant NumberEnd(s.text, start) == NumberEnd(s.text, s.pos)
      decreases |s.text| - s.pos
    {
      var c := s.Read();
      if c.None? {
        break;
      }
      if IsNumberEnd(c.value) {
        s.UnreadRune();
        break;
      }
      builder := builder + [c.value];
    }
    return builder;
  }

  method ReadEscaped(s: Scanner) returns (r: Result<char>)
    requires s.Valid()
    modifies s
    ensures s.Valid()
    ensures Parsed(r, s.pos) == Escaped(s.text, old(s.pos))
  {
    var c := s.Read();
    if c.None? {
      return Err(EscapeErr);
    }
    match EscapeTable(c.value)
    case None => return Err(EscapeErr);
    case Some(e) => return Ok(e);
  }

  method ReadUnquoted(s: Scanner, length: int) returns (r: Result<string>)
    requires s.Valid()
    modifies s
    ensures s.Valid()
    ensures Parsed(r, s.pos) == UnquotedFrom(s.text, old(s.pos), length, "")
  {
    ghost var start := s.pos;
    var builder := "";
    var runesRead := 0;
    while length == 0 || runesRead < length
      invariant s.Valid() && runesRead == |builder|
      invariant UnquotedFrom(s.text, start, length, "") == UnquotedFrom(s.text, s.pos, length, builder)
      decreases |s.text| - s.pos
    {
      var c := s.Read();
      if c.None? {
        break;
      }
      var rune := c.value;
      if rune == '\\' {
        var escaped := ReadEscaped(s);
        if escaped.Err? {
          return Err(EscapeErr);
        }
        rune := escaped.value;
      } else if rune == '\'' {
        s.UnreadRune();
        break;
      }
      builder := builder + [rune];
      runesRead := runesRead + 1;
    }
    if length != 0 && runesRead != length {
      return Err(LengthErr(runesRead, length));
    }
    return Ok(builder);
  }

  method ReadString(s: Scanner, length: int, unquote: bool) returns (r: Result<string>)
    requires s.Valid()
    modifies s
    ensures s.Valid()
    ensures Parsed(r, s.pos) == StringAt(s.text, old(s.pos), length, unquote)
  {
    if unquote {
      var c := s.Read();
      if c != Some('\'') {
        return Err(UnexpectedChar(c, '\''));
      }
    }
    var str := ReadUnquoted(s, length);
    if str.Err? {
      return str;
    }
    if unquote {
      var c := s.Read();
      if c != Some('\'') {
        return Err(UnexpectedChar(c, '\''));
      }
    }
    return str;
  }

  /** DataParser.Parse of every parser kind. */
  method Parse(p: Parser, s: Scanner, lib: Lib) returns (r: Result<Value>)
    requires s.Valid()
    modifies s
    ensures s.Valid()
    ensures Parsed(r, s.pos) == ParseAt(p, s.text, old(s.pos), lib)
    decreases p
  {
    match p
    case NothingParser =>
      return Ok(Void);
    case StringParser(unquote, length) =>
      var str := ReadString(s, length, unquote);
      if str.Err? {
        return Err(str.error);
      }
      return Ok(Str(str.value));
    case DateTimeParser(unquote, layout, location) =>
      var str := ReadString(s, |layout|, unquote);
      if str.Err? {
        return Err(str.error);
      }
      return TimeValue(lib, layout, location, str.value);
    case IntParser(signed, bits) =>
      var repr := ReadNumber(s);
      return IntValue(signed, bits, repr);
    case FloatParser(bits) =>
      var repr := ReadNumber(s);
      if bits != 32 && bits != 64 {
        return Err(Panic("unsupported bit size"));
      }
      return ParseFloat(lib, repr, bits);
    case ArrayParser(elem) =>
      r := ParseArray(elem, s, lib);
    case TupleParser(fields) =>
      r := ParseTuple(fields, s, lib);
  }

  /** The body of arrayParser.Parse's loop after the `]` test. */
  method ParseElem(elem: Parser, s: Scanner, lib: Lib) returns (r: Result<Value>)
    requires s.Valid()
    modifies s
    ensures s.Valid()
    ensures Parsed(r, s.pos) == ElemStep(elem, s.text, old(s.pos), lib)
    decreases ArrayParser(elem), 0
  {
    r := Parse(elem, s, lib);
    if r.Err? {
      return;
    }
    if r.value == Void {
      return Err(Panic("append of a nil value"));
    }
    var c := s.Read();
    if c != Some(',') {
      s.UnreadRune();
    }
  }

  /** arrayParser.Parse: appends element after element to a growing slice. */
  method ParseArray(elem: Parser, s: Scanner, lib: Lib) returns (r: Result<Value>)
    requires s.Valid()
    modifies s
    ensures s.Valid()
    ensures Parsed(r, s.pos) == ParseAt(ArrayParser(elem), s.text, old(s.pos), lib)
    decreases ArrayParser(elem), 1
  {
    var c := s.Read();
    if c != Some('[') {
      return Err(UnexpectedChar(c, '['));
    }
    ghost var start := s.pos;
    var slice: seq<Value> := [];
    while true
      invariant s.Valid()
      invariant ElemsFrom(elem, s.text, start, [], lib) == ElemsFrom(elem, s.text, s.pos, slice, lib)
      decreases |s.text| - s.pos
    {
      var iterStart := s.pos;
      c := s.Read();
      s.UnreadRune();
      if c == Some(']') {
        break;
      }
      var v := ParseElem(elem, s, lib);
      if v.Err? {
        return v;
      }
      slice := slice + [v.value];
      if s.pos == iterStart {
        // the next pass would start from the same state: the Go loop never ends
        return Err(Diverges);
      }
    }
    c := s.Read();
    return Ok(Seq(slice));
  }

  /** tupleParser.Parse: sets the fields of a struct in order. */
  method ParseTuple(fields: seq<Parser>, s: Scanner, lib: Lib) returns (r: Result<Value>)
    requires s.Valid()
    modifies s
    ensures s.Valid()
    ensures Parsed(r, s.pos) == ParseAt(TupleParser(fields), s.text, old(s.pos), lib)
    decreases TupleParser(fields), 1
  {
    var c := s.Read();
    if c != Some('(') {
      return Err(UnexpectedChar(c, '('));
    }
    ghost var start := s.pos;
    var struc := new Value[|fields|](_ => Void);
    for i := 0 to |fields|
      invariant s.Valid()
      invariant FieldsFrom(fields, s.text, start, 0, [], lib) == FieldsFrom(fields, s.text, s.pos, i, struc[..i], lib)
    {
      if i > 0 {
        c := s.Read();
        if c != Some(',') {
          return Err(UnexpectedChar(c, ','));
        }
      }
      var v := Parse(fields[i], s, lib);
      if v.Err? {
        return Err(v.error);
      }
      if v.value == Void {
        return Err(Panic("set of a nil value"));
      }
      struc[i] := v.value;
      assert struc[..i + 1] == struc[..i] + [v.value];
    }
    assert struc[..] == struc[..|fields|];
    c := s.Read();
    if c != Some(')') {
      return Err(UnexpectedChar(c, ')'));
    }
    return Ok(Record(struc[..]));
  }
}
