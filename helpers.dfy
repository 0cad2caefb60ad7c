/** String helpers of the driver: SQL string escaping and quoting, the
    quoting of formatted times, Go's strings.Split / Index / LastIndex /
    HasPrefix as the codec uses them, and the map from a column's type name
    to the Go type a row value is scanned into. */
module Helpers {
  import opened Outcome
  import opened Values

  // ---------------------------------------------------------------------
  // escape / unescape

  predicate IsSpecial(c: char) { c == '\\' || c == '\'' }

  /** The replacement escape applies to one character. */
  function EscapeRune(c: char): string
  {
    if c == '\\' then "\\\\" else if c == '\'' then "\\'" else [c]
  }

  /** escape: every backslash becomes two backslashes and every single quote
      becomes backslash-quote; a string without either is returned as is. */
  function Escape(s: string): (r: string)
    ensures |r| >= |s|
  {
    if s == [] then [] else EscapeRune(s[0]) + Escape(s[1..])
  }

  /** escape changes a string exactly when it holds a backslash or a quote. */
  lemma {:induction false} EscapeUnchanged(s: string)
    ensures Escape(s) == s <==> forall i :: 0 <= i < |s| ==> !IsSpecial(s[i])
  {
    if s != [] {
      EscapeUnchanged(s[1..]);
      assert Escape(s) == EscapeRune(s[0]) + Escape(s[1..]);
      if IsSpecial(s[0]) {
        assert |Escape(s)| > |s|;
      } else {
        assert Escape(s) == s <==> Escape(s[1..]) == s[1..] by {
          assert s == [s[0]] + s[1..];
        }
        assert (forall i :: 0 <= i < |s| ==> !IsSpecial(s[i])) <==>
               (forall i :: 0 <= i < |s[1..]| ==> !IsSpecial(s[1..][i])) by {
          if forall i :: 0 <= i < |s[1..]| ==> !IsSpecial(s[1..][i]) {
            forall i | 0 <= i < |s| ensures !IsSpecial(s[i]) {
              if i > 0 { assert s[i] == s[1..][i - 1]; }
            }
          }
        }
      }
    }
  }

  /** unescape: scanning left to right, a backslash followed by a backslash
      or a quote becomes that second character; everything else is copied. */
  function Unescape(s: string): (r: string)
    ensures |r| <= |s|
  {
    if s == [] then []
    else if |s| >= 2 && s[0] == '\\' && IsSpecial(s[1]) then [s[1]] + Unescape(s[2..])
    else [s[0]] + Unescape(s[1..])
  }

  lemma {:induction false} UnescapeEscape(s: string)
    ensures Unescape(Escape(s)) == s
  {
    if s != [] {
      UnescapeEscape(s[1..]);
      var rest := Escape(s[1..]);
      assert Escape(s) == EscapeRune(s[0]) + rest;
      if IsSpecial(s[0]) {
        assert (EscapeRune(s[0]) + rest)[2..] == rest;
      } else {
        assert ([s[0]] + rest)[1..] == rest;
      }
    }
  }

  /** In an escaped string every quote is preceded by a backslash. */
  lemma {:induction false} EscapedQuotes(s: string)
    ensures forall i :: 0 <= i < |Escape(s)| && Escape(s)[i] == '\'' ==>
              i > 0 && Escape(s)[i - 1] == '\\'
  {
    if s != [] {
      EscapedQuotes(s[1..]);
      var e, rest := EscapeRune(s[0]), Escape(s[1..]);
      assert Escape(s) == e + rest;
      forall i | 0 <= i < |e + rest| && (e + rest)[i] == '\''
        ensures i > 0 && (e + rest)[i - 1] == '\\'
      {
        if i >= |e| {
          assert (e + rest)[i] == rest[i - |e|];
          if i > |e| {
            assert (e + rest)[i - 1] == rest[i - 1 - |e|];
          }
        }
      }
    }
  }

  // ---------------------------------------------------------------------
  // quote / unquote

  predicate IsQuoted(s: string)
  {
    |s| >= 2 && s[0] == '\'' && s[|s| - 1] == '\''
  }

  function Quote(s: string): (r: string)
    ensures |r| == |s| + 2 && IsQuoted(r)
  {
    "'" + s + "'"
  }

  /** unquote strips one pair of enclosing quotes. The source slices
      s[1:len(s)-1] whenever s starts and ends with a quote, which panics on
      the one-character string "'"; callers check for it first. */
  function Unquote(s: string): (r: string)
    requires s != "'"
    ensures IsQuoted(s) ==> Quote(r) == s
    ensures !IsQuoted(s) ==> r == s
  {
    if |s| > 0 && s[0] == '\'' && s[|s| - 1] == '\'' then s[1..|s| - 1] else s
  }

  lemma UnquoteQuote(s: string)
    ensures Quote(s) != "'" && Unquote(Quote(s)) == s
  {
    assert Quote(s)[1..|s| + 1] == s;
  }

  /** formatTime: the timestamp rendered with "2006-01-02 15:04:05", quoted. */
  function FormatTime(t: Instant): (r: string)
    ensures IsQuoted(r) && Unquote(r) == t.date + " " + t.clock
  {
    UnquoteQuote(t.date + " " + t.clock);
    Quote(t.date + " " + t.clock)
  }

  /** formatDate: the date rendered with "2006-01-02", quoted. */
  function FormatDate(t: Instant): (r: string)
    ensures IsQuoted(r) && Unquote(r) == t.date
  {
    UnquoteQuote(t.date);
    Quote(t.date)
  }

  // ---------------------------------------------------------------------
  // strings package

  predicate HasPrefix(s: string, prefix: string)
  {
    |prefix| <= |s| && s[..|prefix|] == prefix
  }

  predicate OccursAt(s: string, sub: string, i: int)
  {
    0 <= i && i + |sub| <= |s| && s[i..i + |sub|] == sub
  }

  /** strings.Index from position i on. */
  function IndexFrom(s: string, sub: string, i: nat): (r: int)
    requires i <= |s|
    ensures r == -1 || (i <= r && OccursAt(s, sub, r))
    ensures forall j :: i <= j && (r == -1 || j < r) ==> !OccursAt(s, sub, j)
    decreases |s| - i
  {
    if i + |sub| > |s| then -1
    else if s[i..i + |sub|] == sub then i
    else IndexFrom(s, sub, i + 1)
  }

  /** strings.Index: the first position where sub occurs, or -1. */
  function Index(s: string, sub: string): (r: int)
    ensures r == -1 <==> forall j :: !OccursAt(s, sub, j)
    ensures r != -1 ==> OccursAt(s, sub, r) && forall j :: 0 <= j < r ==> !OccursAt(s, sub, j)
  {
    IndexFrom(s, sub, 0)
  }

  /** strings.LastIndex looking at positions below `bound`. */
  function LastIndexBelow(s: string, sub: string, bound: nat): (r: int)
    requires bound <= |s| + 1
    ensures r == -1 || (r < bound && OccursAt(s, sub, r))
    ensures forall j :: r < j < bound ==> !OccursAt(s, sub, j)
    decreases bound
  {
    if bound == 0 then -1
    else if bound - 1 + |sub| <= |s| && s[bound - 1..bound - 1 + |sub|] == sub then bound - 1
    else LastIndexBelow(s, sub, bound - 1)
  }

  /** strings.LastIndex: the last position where sub occurs, or -1. */
  function LastIndex(s: string, sub: string): (r: int)
    ensures r == -1 <==> forall j :: !OccursAt(s, sub, j)
    ensures r != -1 ==> OccursAt(s, sub, r) && forall j :: r < j ==> !OccursAt(s, sub, j)
  {
    LastIndexBelow(s, sub, |s| + 1)
  }

  /** strings.Join. */
  function Join(parts: seq<string>, sep: string): string
  {
    if parts == [] then ""
    else if |parts| == 1 then parts[0]
    else parts[0] + sep + Join(parts[1..], sep)
  }

  /** The loop of strings.Split with the piece found so far: the separator
      is matched leftmost first, without overlaps. */
  function SplitFrom(s: string, sep: string, cur: string): (r: seq<string>)
    requires |sep| > 0
    ensures |r| >= 1 && Join(r, sep) == cur + s
    decreases |s|
  {
    if |s| < |sep| then [cur + s]
    else if s[..|sep|] == sep then
      var rest := SplitFrom(s[|sep|..], sep, "");
      assert s == sep + s[|sep|..];
      [cur] + rest
    else
      assert cur + s == (cur + [s[0]]) + s[1..];
      SplitFrom(s[1..], sep, cur + [s[0]])
  }

  /** strings.Split(s, sep) for a non-empty separator: joining the pieces
      with the separator gives s back. */
  function Split(s: string, sep: string): (r: seq<string>)
    requires |sep| > 0
    ensures |r| >= 1 && Join(r, sep) == s
  {
    SplitFrom(s, sep, "")
  }

  lemma {:induction false} SplitFromPiece(p: string, c: char, rest: string, cur: string)
    requires c !in p
    ensures SplitFrom(p + [c] + rest, [c], cur) == [cur + p] + SplitFrom(rest, [c], "")
    decreases |p|
  {
    var s := p + [c] + rest;
    if p == [] {
      assert s[..1] == [c] && s[1..] == rest && |s| >= 1;
      assert cur + p == cur;
    } else {
      assert s[..1] != [c] by { assert s[0] == p[0]; }
      assert s[1..] == p[1..] + [c] + rest;
      SplitFromPiece(p[1..], c, rest, cur + [p[0]]);
      assert cur + [p[0]] + p[1..] == cur + p;
    }
  }

  lemma {:induction false} SplitFromLast(p: string, c: char, cur: string)
    requires c !in p
    ensures SplitFrom(p, [c], cur) == [cur + p]
    decreases |p|
  {
    if p != [] {
      assert p[..1] != [c] by { assert p[0] in p; }
      SplitFromLast(p[1..], c, cur + [p[0]]);
      assert cur + [p[0]] + p[1..] == cur + p;
    }
  }

  /** Splitting on a one-character separator undoes Join when no piece
      contains the separator. */
  lemma {:induction false} SplitJoin(parts: seq<string>, c: char)
    requires |parts| >= 1
    requires forall i :: 0 <= i < |parts| ==> c !in parts[i]
    ensures Split(Join(parts, [c]), [c]) == parts
  {
    if |parts| == 1 {
      SplitFromLast(parts[0], c, "");
    } else {
      SplitJoin(parts[1..], c);
      assert Join(parts, [c]) == parts[0] + [c] + Join(parts[1..], [c]);
      SplitFromPiece(parts[0], c, Join(parts[1..], [c]), "");
      assert "" + parts[0] == parts[0];
    }
  }

  // ---------------------------------------------------------------------
  // columnType

  /** The Go type a column's values are scanned into. */
  datatype ScanType =
    | TimeType
    | UIntType(bits: nat)
    | IntType(bits: nat)
    | FloatType(bits: nat)
    | StringType
    | SliceOf(elem: ScanType)

  /** The element type name of "Array(X)": name[6:len(name)-1]. */
  function ArrayElemName(name: string): (r: string)
    requires |name| >= 7
    ensures |r| == |name| - 7
  {
    name[6..|name| - 1]
  }

  /** The type names columnType maps without looking at a prefix. */
  function ExactColumnType(name: string): Option<ScanType>
  {
    match name
    case "Date" => Some(TimeType)
    case "DateTime" => Some(TimeType)
    case "UInt8" => Some(UIntType(8))
    case "UInt16" => Some(UIntType(16))
    case "UInt32" => Some(UIntType(32))
    case "UInt64" => Some(UIntType(64))
    case "Int8" => Some(IntType(8))
    case "Int16" => Some(IntType(16))
    case "Int32" => Some(IntType(32))
    case "Int64" => Some(IntType(64))
    case "Float32" => Some(FloatType(32))
    case "Float64" => Some(FloatType(64))
    case "String" => Some(StringType)
    case _ => None
  }

  /** columnType does not panic on `name`: every Array prefix it meets on
      the way down is long enough for name[6:len(name)-1]. */
  predicate ColumnTypeTotal(name: string)
    decreases |name|
  {
    ExactColumnType(name).Some? || HasPrefix(name, "FixedString") || !HasPrefix(name, "Array")
    || (|name| >= 7 && ColumnTypeTotal(ArrayElemName(name)))
  }

  /** columnType: exact names first, then the FixedString, Array and Enum
      prefixes; None stands for Go's nil reflect.Type. */
  function ColumnType(name: string): Option<ScanType>
    requires ColumnTypeTotal(name)
    decreases |name|
  {
    if ExactColumnType(name).Some? then ExactColumnType(name)
    else if HasPrefix(name, "FixedString") then Some(StringType)
    else if HasPrefix(name, "Array") then
      match ColumnType(ArrayElemName(name))
      case Some(elem) => Some(SliceOf(elem))
      case None => None
    else if HasPrefix(name, "Enum") then Some(StringType)
    else None
  }

  /** Array(X) has a scan type exactly when X has one, and it is a slice of it. */
  lemma ColumnTypeArray(x: string)
    requires ColumnTypeTotal(x)
    ensures ColumnTypeTotal("Array(" + x + ")")
    ensures ColumnType("Array(" + x + ")") ==
            if ColumnType(x).Some? then Some(SliceOf(ColumnType(x).value)) else None
  {
    var name := "Array(" + x + ")";
    assert name[..5] == "Array";
    assert ArrayElemName(name) == x;
    assert ExactColumnType(name).None?;
    assert !HasPrefix(name, "FixedString") by {
      if |name| >= 11 { assert name[0] != "FixedString"[0]; }
    }
  }

  // ---------------------------------------------------------------------
  // readStringUntil / readHeader

  /** An io.Reader read one byte at a time: it yields `data` and then
      reports `endErr` on every further Read. */
  class ByteReader {
    const data: string
    const endErr: ReadError
    var pos: nat

    ghost predicate Valid()
      reads this
    {
      pos <= |data|
    }

    constructor (data: string, endErr: ReadError)
      ensures Valid() && this.data == data && this.endErr == endErr && pos == 0
    {
      this.data := data;
      this.endErr := endErr;
      pos := 0;
    }

    /** reader.Read into a one-byte buffer. */
    method Read() returns (r: Result<char>)
      requires Valid()
      modifies this`pos
      ensures Valid()
      ensures old(pos) < |data| ==> r == Ok(data[old(pos)]) && pos == old(pos) + 1
      ensures old(pos) == |data| ==> r == Err(ReadFailed(endErr)) && pos == old(pos)
    {
      if pos < |data| {
        r := Ok(data[pos]);
        pos := pos + 1;
      } else {
        r := Err(ReadFailed(endErr));
      }
    }
  }

  /** Where readStringUntil stops: the first position at or after `pos`
      holding the delimiter, or the end of the data. */
  function DelimAt(data: string, pos: nat, delim: char): (k: nat)
    requires pos <= |data|
    ensures pos <= k <= |data|
    ensures delim !in data[pos..k]
    ensures k < |data| ==> data[k] == delim
    decreases |data| - pos
  {
    if pos == |data| || data[pos] == delim then pos
    else
      var k := DelimAt(data, pos + 1, delim);
      assert data[pos..k] == [data[pos]] + data[pos + 1..k];
      k
  }

  /** The outcome of readStringUntil on the bytes from `pos` on: the bytes
      before the delimiter (which is consumed), or, when there is none,
      all remaining bytes together with the reader's error. */
  datatype LineRead = LineRead(text: string, err: Option<ReadError>, next: nat)

  function ReadLine(data: string, endErr: ReadError, pos: nat, delim: char): (r: LineRead)
    requires pos <= |data|
    ensures r.next <= |data|
  {
    var k := DelimAt(data, pos, delim);
    if k < |data| then LineRead(data[pos..k], None, k + 1)
    else LineRead(data[pos..], Some(endErr), |data|)
  }

  /** readStringUntil: appends byte after byte until the delimiter or a read
      error. */
  method ReadStringUntil(src: ByteReader, delim: char) returns (s: string, err: Option<ReadError>)
    requires src.Valid()
    modifies src`pos
    ensures src.Valid()
    ensures LineRead(s, err, src.pos) == ReadLine(src.data, src.endErr, old(src.pos), delim)
  {
    ghost var start := src.pos;
    var buf: string := [];
    while true
      invariant src.Valid() && start <= src.pos
      invariant buf == src.data[start..src.pos]
      invariant delim !in buf
      invariant DelimAt(src.data, start, delim) == DelimAt(src.data, src.pos, delim)
      decreases |src.data| - src.pos
    {
      var r := src.Read();
      if r.Err? {
        assert src.pos == |src.data|;
        return buf, Some(src.endErr);
      }
      if r.value == delim {
        return buf, None;
      }
      buf := buf + [r.value];
    }
  }

  /** What readHeader returns: the column names and the column types. */
  datatype Header = Header(names: seq<string>, types: seq<string>)

  /** readHeader on the bytes from `pos` on: the names line must end with a
      newline, the types line may also end the stream, and both split on
      tab into lists of the same length. */
  function ReadHeaderSpec(data: string, endErr: ReadError, pos: nat): (r: Result<Header>)
    requires pos <= |data|
    ensures r.Ok? ==> |r.value.names| == |r.value.types| >= 1
  {
    var first := ReadLine(data, endErr, pos, '\n');
    if first.err.Some? then Err(ReadFailed(first.err.value))
    else
      var second := ReadLine(data, endErr, first.next, '\n');
      if second.err.Some? && second.err.value != EOF then Err(ReadFailed(second.err.value))
      else
        var names := Split(first.text, "\t");
        var types := Split(second.text, "\t");
        if |names| != |types| then Err(Malformed) else Ok(Header(names, types))
  }

  /** Where the reader is left after readHeader has read both lines. */
  function HeaderEnd(data: string, endErr: ReadError, pos: nat): (k: nat)
    requires pos <= |data|
    ensures pos <= k <= |data|
  {
    var first := ReadLine(data, endErr, pos, '\n');
    if first.err.Some? then first.next else ReadLine(data, endErr, first.next, '\n').next
  }

  method ReadHeader(src: ByteReader) returns (r: Result<Header>)
    requires src.Valid()
    modifies src`pos
    ensures src.Valid()
    ensures r == ReadHeaderSpec(src.data, src.endErr, old(src.pos))
    ensures src.pos == HeaderEnd(src.data, src.endErr, old(src.pos))
  {
    var namesLine, err := ReadStringUntil(src, '\n');
    if err.Some? {
      return Err(ReadFailed(err.value));
    }
    var names := Split(namesLine, "\t");
    var typesLine, err2 := ReadStringUntil(src, '\n');
    if err2.Some? && err2.value != EOF {
      return Err(ReadFailed(err2.value));
    }
    var types := Split(typesLine, "\t");
    if |names| != |types| {
      return Err(Malformed);
    }
    return Ok(Header(names, types));
  }

  /** A header written as tab-joined names, a newline, tab-joined types and
      an optional newline is read back as those lists, when both have the
      same length and no entry holds a tab or a newline; the final newline
      may be missing only when the stream then ends with EOF. */
  lemma ReadHeaderOfJoined(names: seq<string>, types: seq<string>, endErr: ReadError,
                           finalNewline: bool, rest: string)
    requires |names| == |types| >= 1
    requires forall i :: 0 <= i < |names| ==> '\t' !in names[i] && '\n' !in names[i]
    requires forall i :: 0 <= i < |types| ==> '\t' !in types[i] && '\n' !in types[i]
    requires finalNewline || (endErr == EOF && rest == [])
    ensures ReadHeaderSpec(Join(names, "\t") + "\n" + Join(types, "\t")
                             + (if finalNewline then "\n" else "") + rest, endErr, 0)
            == Ok(Header(names, types))
  {
    var n, t := Join(names, "\t"), Join(types, "\t");
    NoCharInJoin(names, '\t', '\n');
    NoCharInJoin(types, '\t', '\n');
    SplitJoin(names, '\t');
    SplitJoin(types, '\t');
    var tail := (if finalNewline then "\n" else "") + rest;
    HeaderOfLines(n, t, tail, endErr);
    assert n + "\n" + t + (if finalNewline then "\n" else "") + rest == n + "\n" + t + tail;
  }

  /** readHeader on a names line and a types line, neither holding a
      newline, followed by a newline or by the end of an EOF stream. */
  lemma HeaderOfLines(n: string, t: string, tail: string, endErr: ReadError)
    requires '\n' !in n && '\n' !in t
    requires (|tail| > 0 && tail[0] == '\n') || (tail == [] && endErr == EOF)
    ensures ReadHeaderSpec(n + "\n" + t + tail, endErr, 0) ==
            if |Split(n, "\t")| != |Split(t, "\t")| then Err(Malformed)
            else Ok(Header(Split(n, "\t"), Split(t, "\t")))
  {
    var data := n + "\n" + t + tail;
    assert data == n + "\n" + (t + tail);
    ReadLineTerminated(n, t + tail, endErr);
    var next := |n| + 1;
    assert data[next..] == t + tail;
    if tail != [] {
      assert data[next..] == t + "\n" + tail[1..];
      ReadLineAt(data, next, t, tail[1..], endErr);
    } else {
      ReadLineLast(data, next, t, endErr);
    }
  }

  lemma ReadLineTerminated(line: string, more: string, endErr: ReadError)
    requires '\n' !in line
    ensures ReadLine(line + "\n" + more, endErr, 0, '\n') == LineRead(line, None, |line| + 1)
  {
    var data := line + "\n" + more;
    assert data[0..|line|] == line;
    DelimAtFirst(data, 0, |line|, '\n');
  }

  lemma ReadLineAt(data: string, pos: nat, line: string, more: string, endErr: ReadError)
    requires pos <= |data| && data[pos..] == line + "\n" + more && '\n' !in line
    ensures ReadLine(data, endErr, pos, '\n') == LineRead(line, None, pos + |line| + 1)
  {
    assert data[pos..pos + |line|] == line;
    assert data[pos + |line|] == data[pos..][|line|];
    DelimAtFirst(data, pos, pos + |line|, '\n');
  }

  lemma ReadLineLast(data: string, pos: nat, line: string, endErr: ReadError)
    requires pos <= |data| && data[pos..] == line && '\n' !in line
    ensures ReadLine(data, endErr, pos, '\n') == LineRead(line, Some(endErr), |data|)
  {
    assert data[pos..|data|] == line;
    DelimAtFirst(data, pos, |data|, '\n');
  }

  /** DelimAt finds position k when the bytes from pos up to k hold no
      delimiter and k is the end or a delimiter. */
  lemma {:induction false} DelimAtFirst(data: string, pos: nat, k: nat, delim: char)
    requires pos <= k <= |data|
    requires delim !in data[pos..k]
    requires k == |data| || data[k] == delim
    ensures DelimAt(data, pos, delim) == k
    decreases k - pos
  {
    if pos < k {
      assert data[pos] in data[pos..k];
      assert data[pos + 1..k] == data[pos..k][1..];
      DelimAtFirst(data, pos + 1, k, delim);
    }
  }

  /** Joining with a separator c adds no character d other than c. */
  lemma {:induction false} NoCharInJoin(parts: seq<string>, c: char, d: char)
    requires c != d
    requires forall i :: 0 <= i < |parts| ==> d !in parts[i]
    ensures d !in Join(parts, [c])
  {
    if |parts| > 1 {
      NoCharInJoin(parts[1..], c, d);
    }
  }
}
