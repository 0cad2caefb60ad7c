# go-clickhouse text codec, modelled in Dafny

This project models the value codec of the ClickHouse HTTP driver for Go. The
driver talks to the server in the TabSeparated text format. The model covers
four parts of it:

- **The cell parser (`dataparser.go`).** `newDataParser` turns a column's
  parsed type description into a tree of parsers: integers, floats, strings,
  fixed strings, dates, date-times, arrays, tuples and Nothing. Each parser
  reads one value from a rune scanner, using `readNumber`, `readUnquoted` and
  `readString`.
- **The text encoder (`encoder.go`).** It writes Go values as query literals:
  numbers, `NULL`, quoted and escaped strings, times, and arrays as `[a,b,…]`.
- **The text decoder (`encoder.go`).** It turns a cell's text back into a
  value, driven by the column's type name.
- **The helpers (`helpers.go`).** These are escape/unescape, quote/unquote,
  time formatting, `readStringUntil`, `readHeader` and `columnType`.

The model is split into these modules:

| module | file | contents |
|---|---|---|
| `Outcome` | `outcome.dfy` | Go's `(value, error)` pairs, as `Result` |
| `Values` | `values.dfy` | the values a row can hold, and the time and float libraries as parameters |
| `Numbers` | `numbers.dfy` | the subset of `strconv` the codec relies on |
| `Helpers` | `helpers.dfy` | `helpers.go` |
| `DataParser` | `dataparser.dfy` | `dataparser.go` |
| `Cells` | `cells.dfy` | where the cells of an array or tuple stand in a text |
| `DataParserProperties` | `dataparser_properties.dfy` | proofs about the parser |
| `Encoder` | `encoder.dfy` | `encoder.go` |
| `EncoderProperties` | `encoder_properties.dfy` | proofs about the encoder and decoder |

Some of the source updates state in place, and that code is modelled imperatively:

- **Scanner.** The rune scanner is a class, `DataParser.Scanner`, with a text,
  a position and the "may unread" flag of `strings.Reader`.
- **ByteReader.** The byte reader behind `readStringUntil` is the class
  `Helpers.ByteReader`.
- **Parsing.** `readNumber`, `readUnquoted`, `readString`, the `Parse`
  methods, the array and tuple loops, `encodeArray`, `readStringUntil` and
  `readHeader` are methods with loops. Each method is proved equal to a
  specification function over the text and its starting position, and the
  properties are then proved about those functions.
- **Pure code.** `escape`, `quote`, `columnType`, `Decode` and `encode` are
  functions.

A Go call that may fail becomes a `Result`:

- **Errors.** The Go errors the model distinguishes are constructors of
  `Outcome.Error`: `SyntaxErr`, `RangeErr`, `EscapeErr`, `LengthErr`,
  `UnexpectedChar`, `Malformed` and so on. A run-time panic is `Err(Panic(…))`.
- **External libraries.** The time library and `strconv.ParseFloat` are not
  modelled. Each is a parameter `lib: Lib` with a few stated facts, such as
  "UTC" and "" always loading.

Two places where the code differs from how the driver is usually described:

- **An array of Nothing panics.** An `Array(Nothing)` over `[x]` does not
  loop. `nothingParser` returns a nil value, and `reflect.Append` panics on
  it at `dataparser.go:202`. `ArrayOfNothing` states the panic, and
  `BuiltParserTerminates` proves that no parser `newDataParser` builds can
  spin in the array loop.
- **Nested arrays are not read back.** `Decode` splits an array cell at every
  comma. The encoder writes `[[1,2]]` for a nested slice, and `Decode` of
  `Array(Array(UInt8))` then sees the items `[1` and `2]` and fails with
  `ErrMalformed`. `NestedArrayNotReadBack` proves this. It is a limitation of
  the text decoder, not an off-by-one: the code makes no attempt to handle
  nesting.

## Model

| member | source | states |
|---|---|---|
| Numbers.ParseUint | dataparser.go:247 | `strconv.ParseUint(s, 10, bits)`: a result always fits `bits`; the only failures are a syntax error and a range error |
| Numbers.ParseInt | dataparser.go:256 | `strconv.ParseInt(s, 10, bits)`: a result lies in `[-2^(bits-1), 2^(bits-1))`; the only failures are a syntax error and a range error |
| Numbers.FormatIntChars | encoder.go:73-82 | `strconv.FormatInt` writes at least one character, all of them digits except a leading `-` for a negative number, and agrees with `FormatUint` for non-negative numbers |
| Numbers.FormatUintDigits | encoder.go:83-92 | `strconv.FormatUint` writes a non-empty string of decimal digits whose value is the number |
| Numbers.UintScanSpec | dataparser.go:247 | the digit scan succeeds iff every character is a digit and the value stays within the bound, and then yields the value of the digits |
| Numbers.ParseUintSpec | dataparser.go:247 | `ParseUint` succeeds exactly on a non-empty string of digits whose value is below `2^bits`, and returns that value |
| Numbers.ParseFormatUint | encoder.go:83-92 | parsing what `FormatUint` writes gives the number back if it fits `bits`, and a range error otherwise |
| Numbers.RangeErrOnDigits | dataparser.go:247 | a digit string whose value exceeds the bound is a range error, not a syntax error |
| Numbers.ParseFormatInt | encoder.go:73-82 | parsing what `FormatInt` writes gives the number back if it fits the signed width, and a range error otherwise |
| Helpers.Escape | helpers.go:17-19 | escaping never shortens a string |
| Helpers.EscapeUnchanged | helpers.go:13 | `escape` leaves a string unchanged iff it has no backslash and no single quote |
| Helpers.Unescape | helpers.go:21-23 | unescaping never lengthens a string |
| Helpers.UnescapeEscape | helpers.go:13-14 | `unescape(escape(s)) == s` for every string |
| Helpers.EscapedQuotes | helpers.go:13 | every single quote in escaped text is preceded by a backslash, so it cannot end a quoted literal |
| Helpers.Quote | helpers.go:25-27 | quoting adds exactly two characters and yields a quoted string |
| Helpers.Unquote | helpers.go:29-34 | a quoted string loses exactly its enclosing quotes; any other string is unchanged |
| Helpers.UnquoteQuote | helpers.go:25-34 | `unquote(quote(s)) == s` for every string |
| Helpers.FormatTime | helpers.go:36-38 | a formatted time is quoted, and unquoting gives the date, a space and the clock |
| Helpers.FormatDate | helpers.go:40-42 | a formatted date is quoted, and unquoting gives the date |
| Helpers.Index | encoder.go:181 | `strings.Index`: -1 iff there is no occurrence; otherwise an occurrence with none before it |
| Helpers.LastIndex | encoder.go:185 | `strings.LastIndex`: -1 iff there is no occurrence; otherwise an occurrence with none after it |
| Helpers.Split | helpers.go:64 | `strings.Split` gives at least one piece, and joining the pieces with the separator gives the input back |
| Helpers.SplitJoin | helpers.go:64 | splitting at a one-character separator undoes a join of pieces that do not contain it |
| Helpers.ArrayElemName | helpers.go:126 | `name[6:len(name)-1]` drops exactly the seven characters of `Array(` and `)` |
| Helpers.ColumnTypeArray | helpers.go:125-131 | `Array(X)` has a scan type iff X has one, and it is a slice of X's type |
| Helpers.ByteReader.constructor | helpers.go:77 | a fresh reader over the data, at its start |
| Helpers.ByteReader.Read | helpers.go:85 | a read yields the next byte and advances, or reports the end error and stays put at the end |
| Helpers.DelimAt | helpers.go:84-92 | the first position at or after the start that holds the delimiter, or the end |
| Helpers.ReadLine | helpers.go:77-93 | the position after a line read never passes the end of the data |
| Helpers.ReadStringUntil | helpers.go:77-93 | the loop returns the bytes before the delimiter, with no error if the delimiter was found and the reader's error otherwise |
| Helpers.ReadHeaderSpec | helpers.go:55-75 | a header that is read has as many names as types, and at least one of each |
| Helpers.HeaderEnd | helpers.go:55-75 | reading a header never moves past the end of the data |
| Helpers.ReadHeader | helpers.go:55-75 | `readHeader` gives what its specification gives on the reader's data, and leaves the reader at the end of the header |
| Helpers.ReadHeaderOfJoined | helpers.go:55-75 | a header written as tab-joined names and types on two lines reads back as those names and types, with or without a final newline at EOF |
| Helpers.HeaderOfLines | helpers.go:60-74 | two lines give their tab-split pieces, or `ErrMalformed` when the counts differ |
| Helpers.ReadLineTerminated | helpers.go:88-89 | a line that ends in a newline is read without error, and the reader is left after the newline |
| Helpers.ReadLineAt | helpers.go:88-89 | the same as `ReadLineTerminated`, for a line starting at any position |
| Helpers.ReadLineLast | helpers.go:85-86 | a last line without a newline is returned together with the reader's end error |
| Helpers.DelimAtFirst | helpers.go:88 | the scan stops at the first delimiter |
| Helpers.NoCharInJoin | helpers.go:64 | joining pieces that do not contain a character with another separator does not introduce it |
| DataParser.NewDateTimeParser | dataparser.go:219-229 | a built date-time parser keeps the layout and the unquote flag it was given |
| DataParser.NewParser | dataparser.go:325-384 | a parser is built only for a known type name, and is well formed. `Nullable` and unknown names are unsupported. `Array` needs exactly one argument, and `Tuple` at least one. `FixedString(N)` succeeds iff N is an integer. `Date` is UTC. `DateTime` succeeds iff its location loads. `Array(X)` succeeds iff the quoted parser for X can be built, and is the array parser over it. `Tuple(…)` succeeds iff every field parser can be built, and is the tuple parser over them |
| DataParser.NewFieldParsers | dataparser.go:368-380 | the field parsers are built iff the quoted parser of every remaining argument can be built, and then the j-th is the quoted parser of the j-th remaining argument |
| DataParser.NewDataParser | dataparser.go:321-323 | the top-level parser is well formed and a top-level string is not unquoted |
| DataParser.NumberEnd | dataparser.go:30-49 | `readNumber` stops at the first `,`, `]` or `)` after the start, or at the end |
| DataParser.Escaped | dataparser.go:62-67 | reading an escape consumes one rune if there is one |
| DataParser.UnquotedFrom | dataparser.go:51-82 | the scan stays within the text. With a length, a result has exactly that many runes. Without one, it stops at a quote or the end. The only errors are a bad escape and a wrong length |
| DataParser.StringAt | dataparser.go:84-103 | `readString` stays within the text, and fails only by a bad escape, a wrong length or a missing quote |
| DataParser.ParseAt | dataparser.go:105-313 | every parser only moves forward within the text |
| DataParser.ElemStep | dataparser.go:191-207 | one pass of the array loop moves forward within the text |
| DataParser.ElemsFrom | dataparser.go:190-216 | the array loop moves forward within the text |
| DataParser.FieldsFrom | dataparser.go:151-180 | the tuple loop moves forward within the text |
| DataParser.Scanner.constructor | dataparser.go:30 | a fresh scanner at the start of its text, with nothing to unread |
| DataParser.Scanner.Read | dataparser.go:35 | a read yields the next rune and advances, or yields eof and stays at the end; only a successful read may be unread |
| DataParser.Scanner.UnreadRune | dataparser.go:41 | an unread steps back one rune exactly when the last read succeeded |
| DataParser.ReadNumber | dataparser.go:30-49 | returns the runes from the start up to the number's end, and leaves the scanner on the delimiter |
| DataParser.ReadEscaped | dataparser.go:63 | reads an escape as the escape table says |
| DataParser.ReadUnquoted | dataparser.go:51-82 | the loop gives what `UnquotedFrom` gives, and leaves the scanner where it says |
| DataParser.ReadString | dataparser.go:84-103 | gives what `StringAt` gives |
| DataParser.Parse | dataparser.go:105-313 | every parser's `Parse` gives what `ParseAt` gives |
| DataParser.ParseElem | dataparser.go:191-207 | one pass of the array loop gives what `ElemStep` gives |
| DataParser.ParseArray | dataparser.go:183-216 | `arrayParser.Parse` gives what `ParseAt` gives for the array parser, whose results `ArrayOfCells` and whose failures `ArrayFailsAtCell` state |
| DataParser.ParseTuple | dataparser.go:151-180 | `tupleParser.Parse` gives what `ParseAt` gives for the tuple parser, whose results `TupleOfCells` states |
| DataParserProperties.UnsignedDispatch | dataparser.go:339-342 | `UInt8` to `UInt64` get an unsigned integer parser of that width |
| DataParserProperties.SignedDispatch | dataparser.go:343-346 | `Int8` to `Int64` get a signed integer parser of that width |
| DataParserProperties.ScalarDispatch | dataparser.go:327-349 | `Float32` and `Float64` get a float parser of that width; `String`, `Enum8` and `Enum16` get a string parser without a length, unquoting as asked; `Nothing` gets the Nothing parser |
| DataParserProperties.UnquotedLiteral | dataparser.go:51-82 | a stretch without quotes or backslashes, ending at a quote or the end, is taken literally |
| DataParserProperties.UnquotedStep | dataparser.go:56-74 | a plain rune is copied; a backslash followed by a special rune gives that rune |
| DataParserProperties.UnquotedEscaped | dataparser.go:51-82 | text written by `escape` and closed by a quote reads back as the original string |
| DataParserProperties.ReadStringOfEncoded | dataparser.go:84-103 | a quoted, escaped string reads back as itself, consuming exactly its text |
| DataParserProperties.QuotedStringShape | dataparser.go:85-100 | an unquoting read succeeds only on a cell that opens and closes with a quote |
| DataParserProperties.LiteralString | dataparser.go:84-103 | without unquote, the text up to the first quote or the end is taken literally |
| DataParserProperties.DateCell | dataparser.go:113-124 | a quoted date cell of the layout's length is read whole and passed to the time library |
| DataParserProperties.ShortDateCell | dataparser.go:77-78 | a quoted cell shorter than the layout is a length error |
| DataParserProperties.DateSentinels | dataparser.go:119-121 | the zero sentinels `0000-00-00` and `0000-00-00 00:00:00` give the zero time in any location |
| DataParserProperties.NumberEndAt | dataparser.go:33-46 | `readNumber` stops exactly at the first delimiter |
| DataParserProperties.IntCell | dataparser.go:240-265 | an integer cell reads the number text up to the delimiter and parses all of it |
| DataParserProperties.SignedRoundTrip | dataparser.go:240-265 | the text `FormatInt` writes reads back through a signed parser as the same number if it fits, and as a range error otherwise |
| DataParserProperties.UnsignedRoundTrip | dataparser.go:240-265 | the text `FormatUint` writes reads back through an unsigned parser as the same number if it fits, and as a range error otherwise |
| DataParserProperties.UintCell | dataparser.go:240-265 | an unsigned cell is parsed whole, at any width |
| DataParserProperties.QuotedNumberFails | dataparser.go:240-265 | a number cell that starts with a quote is a syntax error |
| DataParserProperties.ElemsShape | dataparser.go:190-216 | the array loop succeeds only when it ends on `]`, keeps the elements before it, and adds no Nothing |
| DataParserProperties.ArrayShape | dataparser.go:183-216 | an array parse succeeds only on text from `[` to `]`, and gives a sequence without Nothing values |
| DataParserProperties.IntCellAt | dataparser.go:240-265 | an integer cell with no delimiter in it, standing before a separator, is read whole and parsed |
| DataParserProperties.SignedReadsCell | dataparser.go:240-265 | a signed parser reads the text `FormatInt` writes for an in-range number as that number, wherever it stands before a separator |
| DataParserProperties.SignedFailsCell | dataparser.go:240-265 | a signed parser fails with the range error on the text `FormatInt` writes for a number outside the width, wherever it stands |
| DataParserProperties.QuotedReadsCell | dataparser.go:84-103 | a quoted string parser reads a quoted, escaped string as the original string, wherever it stands before a separator |
| DataParserProperties.CellParsed | dataparser.go:105-313 | a parser that reads a cell reads it at any position where it stands |
| DataParserProperties.ElemsFromCell | dataparser.go:191-208 | one pass of the array loop over an element keeps its value and consumes a `,` after it |
| DataParserProperties.ElemsEnd | dataparser.go:192-196 | the array loop stops at `]` with the elements parsed so far |
| DataParserProperties.ElemsNextCell | dataparser.go:191-208 | an element followed by `,` is kept and the loop goes on after the `,` |
| DataParserProperties.ElemsLastCell | dataparser.go:191-210 | an element followed by `]` is kept as the last one |
| DataParserProperties.ElemsOfCells | dataparser.go:190-216 | the array loop over cells separated by `,` and closed by `]` gives each cell's value, in order, after the ones already parsed |
| DataParserProperties.ArrayOfCells | dataparser.go:183-216 | `[` + cells joined by `,` + `]` parses to the sequence of the cells' values, consuming exactly that text |
| DataParserProperties.ElemsFailCell | dataparser.go:191-200 | when the element parser fails on the cell where the loop stands, the loop returns that error |
| DataParserProperties.ElemsFailAt | dataparser.go:190-200 | when cells 0..k-1 are read and cell k fails, the array loop returns cell k's error and no values |
| DataParserProperties.ArrayFailsAtCell | dataparser.go:183-200 | `[` + cells joined by `,` + `]` whose first k cells are read and whose cell k fails parses to cell k's error: one element's error fails the whole array |
| DataParserProperties.FieldsFromCell | dataparser.go:157-172 | one pass of the tuple loop consumes the `,` before a field and keeps the field's value |
| DataParserProperties.FieldsEnd | dataparser.go:175-179 | the tuple loop stops at `)` once every field is read |
| DataParserProperties.FieldsNextCell | dataparser.go:157-172 | field i reads its cell after the `,` and the loop goes on at the next `,` |
| DataParserProperties.FieldsLastCell | dataparser.go:157-179 | the last field reads its cell and the tuple closes at the `)` after it |
| DataParserProperties.FieldsOfCells | dataparser.go:151-180 | the tuple loop from field i over cells separated by `,` and closed by `)` gives field i + j's value of cell j, in order |
| DataParserProperties.TupleOfCells | dataparser.go:151-180 | `(` + cells joined by `,` + `)` parses to the record of what each field parser reads from its cell, consuming exactly that text |
| DataParserProperties.IntCellsRead | dataparser.go:240-265 | each in-range number's decimal text is a cell a signed parser reads as that number |
| DataParserProperties.IntArrayParsed | dataparser.go:183-216 | `[` + in-range numbers written by `FormatInt` joined by `,` + `]` parses through `Array(IntN)` to those numbers, in order |
| DataParserProperties.IntArrayOutOfRange | dataparser.go:183-216 | an `Array(IntN)` text whose item k is the first number outside the width fails with the range error |
| DataParserProperties.StrCellsRead | dataparser.go:84-103 | each quoted, escaped string is a cell a quoted string parser reads as that string |
| DataParserProperties.StringArrayParsed | dataparser.go:183-216 | strings written as the encoder writes them and joined by `,` in brackets parse through `Array(String)` to those strings, in order, whatever commas and quotes they hold |
| DataParserProperties.StringIntTupleParsed | dataparser.go:151-180 | `(` + a quoted, escaped string + `,` + a number's text + `)` parses through `Tuple(String, IntN)` to the string and the number |
| DataParserProperties.EmptyArray | dataparser.go:184-215 | `[]` is the empty sequence for any element parser |
| DataParserProperties.ArrayOfNothing | dataparser.go:197-202 | an array of Nothing over a non-empty array panics on its first element |
| DataParserProperties.FieldsShape | dataparser.go:151-180 | the tuple loop yields one non-Nothing value per remaining field, then `)` |
| DataParserProperties.TupleShape | dataparser.go:151-180 | a tuple parse succeeds only on text from `(` to `)`, with exactly one non-Nothing value per field |
| DataParserProperties.Progress | dataparser.go:30-313 | a quoted parser that returns a value other than Nothing has consumed at least one rune |
| DataParserProperties.NeverDiverges | dataparser.go:183-216 | no well-formed parser reaches an array pass that consumes nothing |
| DataParserProperties.ElemsNeverDiverge | dataparser.go:190-216 | the array loop over a well-formed element parser always ends |
| DataParserProperties.FieldsNeverDiverge | dataparser.go:151-180 | the tuple loop over well-formed field parsers never reaches an endless array pass |
| DataParserProperties.BuiltParserTerminates | dataparser.go:321-384 | every parser `NewDataParser` builds parses any text to a value or an error, never to an endless loop |
| Encoder.EncodeScalar | encoder.go:63-104 | strings come out quoted; numbers and booleans are non-empty, start with no quote and contain no comma |
| Encoder.NumberText | encoder.go:73-92 | an integer is written in decimal, non-empty, with no quote and no comma |
| Encoder.Encode | encoder.go:42-61 | the only failure is "not a slice"; a slice is written between `[` and `]` |
| Encoder.ArrayText | encoder.go:107-125 | only slices and byte strings are arrays, and they are written between `[` and `]`; anything else is "not a slice" |
| Encoder.ElemsText | encoder.go:114-124 | the loop extends the text written so far and closes it with `]` |
| Encoder.ByteElemsText | encoder.go:114-124 | the loop over a byte string extends the text and closes it with `]` |
| Encoder.RestTextStep | encoder.go:114-123 | one pass: the first failing element's error is returned, otherwise its text is appended, after a comma unless it is the first |
| Encoder.EncodeArray | encoder.go:107-125 | `encodeArray`'s loop gives what `ArrayText` gives |
| Encoder.UnquoteCell | encoder.go:169-170 | a string cell decodes to its unquoted text, and fails only on the lone `'` that `unquote` cannot slice |
| Encoder.DecodeUInt | encoder.go:142-152 | an unsigned cell gives a number of the column's width that fits it |
| Encoder.DecodeInt | encoder.go:153-163 | a signed cell gives a number of the column's width |
| Encoder.DecodeDate | encoder.go:130-141 | the lone `'` fails; the sentinel gives the zero time; any other cell gives the time the library parses from the unquoted text with the column's layout in the decoder's location, or its error |
| Encoder.DecodeZoned | encoder.go:173-201 | a zone that cannot be found or loaded is that error; otherwise the cell is parsed from its unquoted text in that zone, and an accepted time is moved into the decoder's location |
| Encoder.ArrayItems | encoder.go:207-214 | `[]` has no items; the items of a quoted array join back with `','` into the text inside the outer quotes, and the items of any other array join back with `,` into the text inside the brackets |
| Encoder.ArrayElemType | encoder.go:206-227 | an element type is `t[6:len(t)-1]` of a bracketed cell and has a scan type; an unbracketed cell is malformed |
| Encoder.DecodeItems | encoder.go:218-224 | the item loop keeps the items decoded so far and adds one per text item; `DecodeItemsFail` states its error |
| Encoder.DecodeCell | encoder.go:127-233 | `Decode` gives what the decoding function gives |
| EncoderProperties.StringRoundTrip | encoder.go:97-98 | a string is written quoted and escaped, and decodes back to itself for `String` and `FixedString` columns |
| EncoderProperties.ExactDecode | encoder.go:129-170 | a type name matched by the switch is decoded by its own case |
| EncoderProperties.DecodeSignedName | encoder.go:153-163 | `Int8` to `Int64` decode as signed integers of that width |
| EncoderProperties.DecodeUnsignedName | encoder.go:142-152 | `UInt8` to `UInt64` decode as unsigned integers of that width |
| EncoderProperties.SignedRoundTrip | encoder.go:73-82 | a signed integer decodes back from its text if it fits the column's width, and as a range error otherwise |
| EncoderProperties.UnsignedRoundTrip | encoder.go:83-92 | an unsigned integer decodes back from its text if it fits the column's width, and as a range error otherwise |
| EncoderProperties.EncodeScalars | encoder.go:46-72 | booleans are `1`/`0`; nil and a nil pointer are `NULL`; a pointer is its target; bytes are written raw |
| EncoderProperties.EncodeMoment | encoder.go:99-100 | a time is written as the quoted date and clock |
| EncoderProperties.DateSentinels | encoder.go:130-141 | the zero-date sentinels, quoted or not, decode to the zero time |
| EncoderProperties.EnumCell | encoder.go:229-231 | an `Enum…` cell decodes to its unquoted text |
| EncoderProperties.RawCell | encoder.go:232 | any other type name gives the cell's text unchanged |
| EncoderProperties.ZoneFromTypeName | encoder.go:180-191 | `DateTime('zone')` with the database location enabled loads that zone; bare `DateTime` finds no zone |
| EncoderProperties.ZonedCell | encoder.go:173-201 | with the database location enabled, `DateTime(\'zone\')` loads the zone, fails with its error if it does not load, and otherwise parses the cell in that zone and moves the time into the decoder's location |
| EncoderProperties.DecoderZoneCell | encoder.go:192-200 | without the database location, a zoned `DateTime…` cell is parsed in the decoder's own location |
| EncoderProperties.TimeRoundTrip | encoder.go:99-100 | a time other than the zero sentinel is written so that `DateTime` decodes it, when the library accepts it, to the wall time of its date and clock in the decoder's location |
| EncoderProperties.DateRoundTrip | encoder.go:130-135 | a date other than the zero sentinel, formatted by `formatDate`, decodes as `Date` to the wall time of that date in the decoder's location, when the library accepts it |
| EncoderProperties.FirstBorder | encoder.go:181 | the first `\'` in `DateTime(\'zone\')` is at position 9 |
| EncoderProperties.LastBorder | encoder.go:185 | the last `\'` in `DateTime(\'zone\')` is right after the zone |
| EncoderProperties.ElemsTextJoined | encoder.go:114-124 | the loop writes the elements' encodings joined by commas, then `]` |
| EncoderProperties.ElemsTextError | encoder.go:118-121 | the loop fails if any remaining element fails |
| EncoderProperties.ArrayTextJoined | encoder.go:107-125 | a slice is written as `[` + its elements' encodings joined by `,` + `]` |
| EncoderProperties.ArrayTextFails | encoder.go:118-121 | a slice with one element that cannot be encoded cannot be encoded |
| EncoderProperties.ByteElemsAsHosts | encoder.go:44-45 | a byte string inside an array is written like a slice of its bytes as numbers |
| EncoderProperties.WrappedArray | encoder.go:44-45 | the array wrapper encodes a byte string as a slice of numbers and a slice as itself, and rejects everything else |
| EncoderProperties.ArrayCellBrackets | encoder.go:206-227 | an unbracketed array cell is malformed, and `[]` decodes to the empty sequence |
| EncoderProperties.DecodeHasColumnType | encoder.go:127-233 | every value `Decode` returns has the Go type `columnType` gives for the type name |
| EncoderProperties.DecodeItemsHaveType | encoder.go:218-224 | every item the array loop decodes has the element's column type |
| EncoderProperties.DecodeIntItems | encoder.go:218-224 | the encodings of in-range signed integers decode back item by item |
| EncoderProperties.DecodeAllItems | encoder.go:218-224 | the loop gives the sequence of the items' decoded values when each item decodes |
| EncoderProperties.ArrayOfScalar | encoder.go:206-217 | `Array(X)` of a scalar X has element type X |
| EncoderProperties.IntArrayItems | encoder.go:207-214 | splitting the written array at commas gives back the elements' texts |
| EncoderProperties.DecodeOfArrayName | encoder.go:206 | an `Array…` type name is decoded by the array case |
| EncoderProperties.DecodeArrayItems | encoder.go:206-227 | an array cell is decoded item by item with the element type |
| EncoderProperties.DecodeItemsFail | encoder.go:218-224 | when items i..k-1 decode and item k fails, the item loop returns item k's own error and drops the values before it |
| EncoderProperties.ArrayItemFails | encoder.go:206-227 | an array cell whose item k is the first that fails to decode as the element type decodes to that item's error |
| EncoderProperties.IntArrayRoundTrip | encoder.go:107-125 | a slice of in-range signed integers is written and decodes back as `Array(IntN)` to the same numbers |
| EncoderProperties.IntArrayEncoded | encoder.go:107-125 | a slice of signed integers is written as their decimal texts joined by commas, in brackets |
| EncoderProperties.IntArrayDecoded | encoder.go:206-227 | that text decodes as `Array(IntN)` to the same numbers |
| EncoderProperties.SignedColumn | helpers.go:107-114 | `Int8` to `Int64` scan into signed Go integers of that width |
| EncoderProperties.NestedArrayText | encoder.go:107-125 | a slice holding `[1,2]` is written `[[1,2]]` |
| EncoderProperties.InnerArrayText | encoder.go:107-125 | the slice `1, 2` is written `[1,2]` |
| EncoderProperties.NestedArrayItems | encoder.go:207-214 | the items of `[[1,2]]` are `[1` and `2]` |
| EncoderProperties.NestedArrayElemType | encoder.go:216-217 | the element type of `Array(Array(UInt8))` is `Array(UInt8)` |
| EncoderProperties.HalfArrayMalformed | encoder.go:226-227 | the item `[1` is a malformed `Array(UInt8)` cell |
| EncoderProperties.NestedArrayNotReadBack | encoder.go:206-227 | what the encoder writes for a nested slice does not decode back as a nested array |

## Left out

- Floats: `strconv.ParseFloat` is the parameter `floatSyntax` of `Lib`, so the model says nothing about which texts are numbers; `Float32` cells are decoded with 64 bits, as `encoder.go:164-168` does.
- The encoder's float cases (`encoder.go:93-96`): `Host` has no float, because `strconv.FormatFloat` is not modelled. A float's text can only be passed in as `Other`, the case for values `fmt.Sprint` prints.
- The time library: `time.LoadLocation`, `time.ParseInLocation` and `Time.Format` are parameters of `Lib`. The model fixes only that "" and "UTC" load as UTC and "Local" as the local zone; whether any other name loads is the parameter `zoneExists`.
- `readEscaped` and `read` (with its `eof` rune) are called by the parser but are not in the source shown. They are modelled as assumed, in `DataParser.ReadEscaped` and `DataParser.Scanner.Read`: `read` returns the next rune or `eof`, and the escape table is `\\`, `\'`, `\b`, `\r`, `\n`, `\f`, `\t` and `\0`, and every other rune after a backslash is an escape error.
- The `Type()` methods of the parsers, which only name reflect types.
- `readResponse` (HTTP body reading) and the rest of the driver: connections, statements, rows and the type-description tokenizer. A parsed type description is the input `TypeDesc`.
- Error message texts: errors are distinguished by kind only. Most `fmt.Errorf` wrappers keep their inner error's kind.
- DataParser.StringAt: keeps the kind of the error `readUnquoted` reports (`EscapeErr` or `LengthErr`). The Go `readString` returns a new "failed to read string" error instead (`dataparser.go:92-93`), so callers can tell no more than that reading failed.
- Helpers.ByteReader: a read returns either a byte or an error, never both. An `io.Reader` may return a byte together with an error, and `readStringUntil` then drops that byte (`helpers.go:85-86`); the model does not show this loss.
- Go's fixed-width host integers: a host integer is an unbounded `int` and `int64(v)` conversions are not modelled, so a Go value that does not fit its declared type cannot arise.
- A Go function that returns both a partial value and an error is modelled as returning only the error.
- `Err(Diverges)` stands for an array pass that consumes nothing, which Go would repeat forever. `BuiltParserTerminates` proves that no parser `newDataParser` builds reaches it.
- Helpers.Unquote: requires its argument not to be the lone `'`, on which the Go slice `s[1:0]` panics; the callers in `Encoder.UnquoteCell` check for it and return an error instead.
- Helpers.ReadHeaderSpec: states only that names and types pair up; the full contents are stated by `ReadHeaderOfJoined` and `HeaderOfLines`.
- Encoder.DecodeInt: states the width of a result, not its range. The range is stated by `EncoderProperties.SignedRoundTrip` and `Numbers.ParseInt`.
- DataParser.ParseAt: its own contract states only forward progress. What each scalar parser accepts is stated by the `DataParserProperties` lemmas on cells (`IntCell`, `ReadStringOfEncoded`, `DateCell` and others). What an array or tuple parses to is stated by `ArrayOfCells` and `TupleOfCells` for any element parsers that read their cells, with the instances `IntArrayParsed`, `StringArrayParsed` and `StringIntTupleParsed`.
- DataParser.ElemStep, DataParser.ElemsFrom and DataParser.FieldsFrom: their own contracts state only forward progress. The values they collect are stated by `ElemsFromCell`, `ElemsOfCells`, `FieldsFromCell` and `FieldsOfCells`, and the error of the first failing element by `ElemsFailAt`.
- ArrayOfCells and TupleOfCells: state the result for element parsers that read each cell whole when it is followed by `,`, `]` or `)`. That premise is discharged for signed integers and quoted strings (`IntCellsRead`, `StrCellsRead`), not for nested arrays or tuples, dates or floats.
