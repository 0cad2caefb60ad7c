/** The values the codec produces, and the parts of Go's time and float
    libraries it calls, which this model takes as parameters. */
module Values {
  import opened Outcome

  /** Go's time.Time as the codec can produce it. */
  datatype Time =
    | Zero                                          // time.Time{}
    | YearZero                                      // time.Date(0, 0, 0, 0, 0, 0, 0, time.UTC)
    | Wall(layout: string, text: string, zone: string) // time.ParseInLocation(layout, text, zone)
    | InZone(t: Time, zone: string)                 // t.In(zone)

  /** A decoded cell: one tag per Go type the parsers and the decoder
      return (in place of reflect-built values). */
  datatype Value =
    | Void                                  // nil from the Nothing parser
    | Int(i: int, bits: nat)                // int8 .. int64
    | UInt(n: nat, bits: nat)               // uint8 .. uint64
    | Float(text: string, bits: nat)        // float32, float64, kept as its text
    | Str(s: string)                        // string
    | Time(t: Time)                         // time.Time
    | Seq(items: seq<Value>)                // a slice
    | Record(fields: seq<Value>)            // struct{ Field0 ...; Field1 ... }
    | Raw(bytes: string)                    // []byte passed through

  /** Library code outside the model: which zone names time.LoadLocation
      resolves from the zone database, which texts time.ParseInLocation
      accepts for a layout, and which texts strconv.ParseFloat accepts. */
  datatype Lib = Lib(
    zoneExists: string -> bool,
    layoutMatches: (string, string) -> bool,
    floatSyntax: string -> bool)

  /** A host time.Time as the encoder sees it: its date and its clock as
      time.Time.Format renders them ("2006-01-02" and "15:04:05");
      calendar and zone arithmetic are outside the model. */
  datatype Instant = Instant(date: string, clock: string)

  const DateLayout: string := "2006-01-02"
  const TimeLayout: string := "2006-01-02 15:04:05"

  /** time.LoadLocation: "" and "UTC" give UTC and "Local" the local zone
      without the zone database; any other name is looked up. */
  function LoadLocation(lib: Lib, name: string): (r: Result<string>)
    ensures name == "" || name == "UTC" ==> r == Ok("UTC")
    ensures name == "Local" ==> r == Ok("Local")
    ensures r.Ok? || r == Err(LocationErr(name))
  {
    if name == "" || name == "UTC" then Ok("UTC")
    else if name == "Local" then Ok("Local")
    else if lib.zoneExists(name) then Ok(name)
    else Err(LocationErr(name))
  }

  /** time.ParseInLocation(layout, text, zone). */
  function ParseInLocation(lib: Lib, layout: string, text: string, zone: string): Result<Time>
  {
    if lib.layoutMatches(layout, text) then Ok(Wall(layout, text, zone)) else Err(TimeFormatErr)
  }

  /** strconv.ParseFloat: the empty text is never a number. */
  function ParseFloat(lib: Lib, text: string, bits: nat): Result<Value>
  {
    if text != [] && lib.floatSyntax(text) then Ok(Float(text, bits)) else Err(SyntaxErr)
  }
}
