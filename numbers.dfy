/** Base-10 integer text as Go's strconv package reads and writes it:
    ParseUint, ParseInt and Atoi on the reading side, FormatUint and
    FormatInt on the writing side. Integers are unbounded here; the bit
    width of the Go type is an explicit parameter. */
module Numbers {
  import opened Outcome

  /** The integer widths ClickHouse columns and Go's sized integers have. */
  predicate ValidIntSize(bits: nat) { bits == 8 || bits == 16 || bits == 32 || bits == 64 }

  function Pow2(n: nat): (r: nat)
    ensures r >= 1
  {
    if n == 0 then 1 else 2 * Pow2(n - 1)
  }

  predicate IsDigit(c: char) { '0' <= c <= '9' }

  function DigitVal(c: char): nat
    requires IsDigit(c)
  {
    (c - '0') as nat
  }

  predicate AllDigits(s: string) { forall i :: 0 <= i < |s| ==> IsDigit(s[i]) }

  /** The number a string of decimal digits denotes, read left to right. */
  function DigitsValue(s: string): nat
    requires AllDigits(s)
  {
    if s == [] then 0 else DigitsValue(s[..|s| - 1]) * 10 + DigitVal(s[|s| - 1])
  }

  /** The digit loop of strconv.ParseUint in base 10: characters are taken
      left to right, the first non-digit is a syntax error and the first
      digit that takes the running value above `maxVal` is a range error. */
  function UintScan(s: string, i: nat, n: nat, maxVal: nat): (r: Result<nat>)
    requires i <= |s|
    ensures r.Ok? ==> r.value <= maxVal || (i == |s| && r.value == n)
    ensures r.Err? ==> r.error == SyntaxErr || r.error == RangeErr
    decreases |s| - i
  {
    if i == |s| then Ok(n)
    else if !IsDigit(s[i]) then Err(SyntaxErr)
    else if n * 10 + DigitVal(s[i]) > maxVal then Err(RangeErr)
    else UintScan(s, i + 1, n * 10 + DigitVal(s[i]), maxVal)
  }

  /** strconv.ParseUint(s, 10, bits). */
  function ParseUint(s: string, bits: nat): (r: Result<nat>)
    ensures r.Ok? ==> r.value < Pow2(bits)
    ensures r.Err? ==> r.error == SyntaxErr || r.error == RangeErr
  {
    if s == [] then Err(SyntaxErr) else UintScan(s, 0, 0, Pow2(bits) - 1)
  }

  /** strconv.ParseInt(s, 10, bits): one optional sign, then ParseUint of the
      rest with the same width; a syntax or range error of ParseUint is passed
      on, and the signed bounds are checked afterwards. */
  function ParseInt(s: string, bits: nat): (r: Result<int>)
    requires bits >= 1
    ensures r.Ok? ==> -(Pow2(bits - 1) as int) <= r.value < Pow2(bits - 1)
    ensures r.Err? ==> r.error == SyntaxErr || r.error == RangeErr
  {
    if s == [] then Err(SyntaxErr)
    else
      var neg := s[0] == '-';
      var rest := if s[0] == '+' || s[0] == '-' then s[1..] else s;
      match ParseUint(rest, bits)
      case Err(e) => Err(e)
      case Ok(un) =>
        var cutoff := Pow2(bits - 1);
        if !neg && un >= cutoff then Err(RangeErr)
        else if neg && un > cutoff then Err(RangeErr)
        else Ok(if neg then -(un as int) else un as int)
  }

  /** strconv.Atoi on a 64-bit platform. */
  function Atoi(s: string): Result<int>
  {
    ParseInt(s, 64)
  }

  /** The shortest decimal digits of n (strconv.FormatUint(n, 10)). */
  function FormatUint(n: nat): (r: string)
  {
    if n < 10 then ['0' + n as char] else FormatUint(n / 10) + ['0' + (n % 10) as char]
  }

  /** strconv.FormatInt(i, 10). */
  function FormatInt(i: int): (r: string)
  {
    if i < 0 then "-" + FormatUint(-i) else FormatUint(i)
  }

  // ---------------------------------------------------------------------
  // Properties

  /** FormatInt writes a minus sign only in front, then digits. */
  lemma FormatIntChars(i: int)
    ensures |FormatInt(i)| >= 1 && (i >= 0 ==> FormatInt(i) == FormatUint(i))
    ensures forall j :: 0 <= j < |FormatInt(i)| ==>
              IsDigit(FormatInt(i)[j]) || (j == 0 && i < 0 && FormatInt(i)[j] == '-')
  {
    var m := if i < 0 then -i else i;
    FormatUintDigits(m);
    var s := FormatInt(i);
    if i < 0 {
      forall j | 0 < j < |s| ensures IsDigit(s[j]) {
        assert s[j] == FormatUint(m)[j - 1];
      }
    }
  }

  lemma {:induction false} FormatUintDigits(n: nat)
    ensures |FormatUint(n)| >= 1 && AllDigits(FormatUint(n))
    ensures DigitsValue(FormatUint(n)) == n
  {
    var r := FormatUint(n);
    if n >= 10 {
      FormatUintDigits(n / 10);
      assert r[..|r| - 1] == FormatUint(n / 10);
    }
  }

  /** A longer prefix of a digit string never denotes a smaller number. */
  lemma {:induction false} DigitsValueMonotone(s: string, j: nat, k: nat)
    requires AllDigits(s) && j <= k <= |s|
    ensures DigitsValue(s[..j]) <= DigitsValue(s[..k])
  {
    if j < k {
      DigitsValueMonotone(s, j, k - 1);
      assert s[..k][..k - 1] == s[..k - 1];
    }
  }

  /** The scan, started on a prefix already read, accepts exactly the
      digit strings whose value fits, and then returns that value. */
  lemma {:induction false} UintScanSpec(s: string, i: nat, maxVal: nat)
    requires i <= |s| && AllDigits(s[..i]) && DigitsValue(s[..i]) <= maxVal
    ensures UintScan(s, i, DigitsValue(s[..i]), maxVal).Ok?
            <==> AllDigits(s) && DigitsValue(s) <= maxVal
    ensures UintScan(s, i, DigitsValue(s[..i]), maxVal).Ok? ==>
            UintScan(s, i, DigitsValue(s[..i]), maxVal).value == DigitsValue(s)
    decreases |s| - i
  {
    if i == |s| {
      assert s[..i] == s;
    } else {
      var n := DigitsValue(s[..i]);
      if !IsDigit(s[i]) {
        assert !AllDigits(s) by { assert !IsDigit(s[i]); }
      } else {
        assert s[..i + 1][..i] == s[..i];
        assert AllDigits(s[..i + 1]);
        assert DigitsValue(s[..i + 1]) == n * 10 + DigitVal(s[i]);
        if n * 10 + DigitVal(s[i]) > maxVal {
          if AllDigits(s) {
            DigitsValueMonotone(s, i + 1, |s|);
            assert s[..|s|] == s;
          }
        } else {
          UintScanSpec(s, i + 1, maxVal);
        }
      }
    }
  }

  /** ParseUint accepts exactly the non-empty digit strings whose value is
      below 2^bits, and then returns that value. */
  lemma ParseUintSpec(s: string, bits: nat)
    ensures ParseUint(s, bits).Ok? <==>
            s != [] && AllDigits(s) && DigitsValue(s) < Pow2(bits)
    ensures ParseUint(s, bits).Ok? ==> ParseUint(s, bits).value == DigitsValue(s)
  {
    if s != [] {
      assert s[..0] == [];
      UintScanSpec(s, 0, Pow2(bits) - 1);
    }
  }

  /** Reading back the text FormatUint writes gives the same number
      exactly when it fits the width. */
  lemma ParseFormatUint(n: nat, bits: nat)
    ensures ParseUint(FormatUint(n), bits) == if n < Pow2(bits) then Ok(n) else Err(RangeErr)
  {
    FormatUintDigits(n);
    ParseUintSpec(FormatUint(n), bits);
    var s := FormatUint(n);
    if n >= Pow2(bits) {
      RangeErrOnDigits(s, 0, 0, Pow2(bits) - 1);
    }
  }

  /** On a digit string whose value does not fit, the scan reports a range
      error (never a syntax error). */
  lemma {:induction false} RangeErrOnDigits(s: string, i: nat, n: nat, maxVal: nat)
    requires i <= |s| && AllDigits(s) && AllDigits(s[..i])
    requires n == DigitsValue(s[..i]) && n <= maxVal < DigitsValue(s)
    ensures UintScan(s, i, n, maxVal) == Err(RangeErr)
    decreases |s| - i
  {
    assert s[..|s|] == s;
    if i < |s| {
      assert s[..i + 1][..i] == s[..i];
      assert AllDigits(s[..i + 1]);
      if n * 10 + DigitVal(s[i]) <= maxVal {
        RangeErrOnDigits(s, i + 1, n * 10 + DigitVal(s[i]), maxVal);
      }
    }
  }

  /** Round trip of the signed text: ParseInt(FormatInt(i)) is i when i is
      in the signed range of the width, and a range error otherwise. */
  lemma ParseFormatInt(i: int, bits: nat)
    requires bits >= 1
    ensures ParseInt(FormatInt(i), bits) ==
            if -(Pow2(bits - 1) as int) <= i < Pow2(bits - 1) then Ok(i) else Err(RangeErr)
  {
    var s := FormatInt(i);
    var m := if i < 0 then -i else i;
    FormatUintDigits(m);
    assert Pow2(bits) == 2 * Pow2(bits - 1);
    if i < 0 {
      assert s[1..] == FormatUint(m);
      ParseFormatUint(m, bits);
    } else {
      var d := FormatUint(m);
      assert IsDigit(d[0]);
      ParseFormatUint(m, bits);
    }
  }
}
