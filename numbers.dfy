/** The Go `strconv` conversions the client calls: ParseInt in base 10 at
    64 bits (batch values, macro amounts), Atoi (row indices) and the
    acceptance test of ParseFloat (percentage amounts), each with the
    `*NumError` it returns on bad input. */
module Numbers {
  import opened Outcome

  const MaxUint64: int := 0xFFFF_FFFF_FFFF_FFFF
  const MaxInt64: int := 0x7FFF_FFFF_FFFF_FFFF
  const MinInt64: int := -0x8000_0000_0000_0000

  predicate IsInt64(n: int) { MinInt64 <= n <= MaxInt64 }

  /** The function that reported a conversion error. */
  datatype NumFunc = ParseIntFn | AtoiFn | ParseFloatFn

  /** strconv.ErrSyntax and strconv.ErrRange. */
  datatype NumErrKind = ErrSyntax | ErrRange

  /** strconv.NumError: the function, the text it was given, the reason. */
  datatype NumError = NumError(fn: NumFunc, num: string, err: NumErrKind)

  predicate IsDigit(ch: char) { '0' <= ch <= '9' }

  function DigitValue(ch: char): (d: nat)
    requires IsDigit(ch)
    ensures d < 10
  {
    ch as int - '0' as int
  }

  function DigitChar(d: nat): (ch: char)
    requires d < 10
    ensures IsDigit(ch) && DigitValue(ch) == d
  {
    ('0' as int + d) as char
  }

  predicate AllDigits(s: string)
  {
    forall k :: 0 <= k < |s| ==> IsDigit(s[k])
  }

  /** Value of the digit string `s` read after the digits that gave `acc`. */
  function Horner(acc: nat, s: string): nat
    requires AllDigits(s)
    decreases |s|
  {
    if s == [] then acc else Horner(acc * 10 + DigitValue(s[0]), s[1..])
  }

  /** The scan loop of strconv.ParseUint in base 10: a non-digit is a syntax
      error and the first digit that takes the value past 2^64 - 1 is a range
      error, whichever comes first. */
  function ScanUint(s: string, acc: nat): Result<nat, NumErrKind>
    requires acc <= MaxUint64
    decreases |s|
  {
    if s == [] then Success(acc)
    else if !IsDigit(s[0]) then Failure(ErrSyntax)
    else
      var n := acc * 10 + DigitValue(s[0]);
      if n > MaxUint64 then Failure(ErrRange) else ScanUint(s[1..], n)
  }

  /** strconv.ParseInt(s, 10, 64). */
  function ParseInt(s: string): (r: Result<int, NumError>)
    ensures r.Success? ==> IsInt64(r.value)
    ensures r.Failure? ==> r.error.fn == ParseIntFn && r.error.num == s
  {
    if s == "" then Failure(NumError(ParseIntFn, s, ErrSyntax))
    else
      var neg := s[0] == '-';
      var body := if s[0] == '+' || s[0] == '-' then s[1..] else s;
      if body == "" then Failure(NumError(ParseIntFn, s, ErrSyntax))
      else match ScanUint(body, 0)
        case Failure(kind) => Failure(NumError(ParseIntFn, s, kind))
        case Success(un) =>
          if !neg && un > MaxInt64 then Failure(NumError(ParseIntFn, s, ErrRange))
          else if neg && un > -MinInt64 then Failure(NumError(ParseIntFn, s, ErrRange))
          else Success(if neg then 0 - un else un as int)
  }

  /** strconv.Atoi on a 64-bit platform: ParseInt(s, 10, 0) with the error
      reported under Atoi's name. */
  function Atoi(s: string): (r: Result<int, NumError>)
    ensures r.Success? <==> ParseInt(s).Success?
    ensures r.Success? ==> r.value == ParseInt(s).value
  {
    match ParseInt(s)
    case Success(n) => Success(n)
    case Failure(e) => Failure(e.(fn := AtoiFn))
  }

  // ---------------------------------------------------------------------
  // What ParseInt accepts

  /** An optional sign followed by at least one decimal digit. */
  predicate IsDecimalText(s: string)
  {
    var body := if s != [] && (s[0] == '+' || s[0] == '-') then s[1..] else s;
    body != [] && AllDigits(body)
  }

  /** The signed value of a decimal text. */
  function DecimalValue(s: string): int
    requires IsDecimalText(s)
  {
    if s[0] == '-' then 0 - Horner(0, s[1..])
    else if s[0] == '+' then Horner(0, s[1..])
    else Horner(0, s)
  }

  lemma {:induction false} HornerGrows(acc: nat, s: string)
    requires AllDigits(s)
    ensures Horner(acc, s) >= acc
    decreases |s|
  {
    if s != [] {
      HornerGrows(acc * 10 + DigitValue(s[0]), s[1..]);
    }
  }

  /** ScanUint agrees with the mathematical value of an all-digit string,
      failing with a range error exactly when that value exceeds 2^64 - 1. */
  lemma {:induction false} ScanUintDigits(s: string, acc: nat)
    requires acc <= MaxUint64 && AllDigits(s)
    ensures ScanUint(s, acc) ==
      if Horner(acc, s) <= MaxUint64 then Success(Horner(acc, s)) else Failure(ErrRange)
    decreases |s|
  {
    if s != [] {
      var n := acc * 10 + DigitValue(s[0]);
      HornerGrows(n, s[1..]);
      if n <= MaxUint64 {
        ScanUintDigits(s[1..], n);
      }
    }
  }

  /** A string with a non-digit never scans to a value. */
  lemma {:induction false} ScanUintNonDigit(s: string, acc: nat)
    requires acc <= MaxUint64 && !AllDigits(s)
    ensures ScanUint(s, acc).Failure?
    decreases |s|
  {
    if IsDigit(s[0]) {
      var n := acc * 10 + DigitValue(s[0]);
      if n <= MaxUint64 {
        assert !AllDigits(s[1..]) by {
          var k :| 0 <= k < |s| && !IsDigit(s[k]);
          assert k > 0 && !IsDigit(s[1..][k - 1]);
        }
        ScanUintNonDigit(s[1..], n);
      }
    }
  }

  /** ParseInt succeeds exactly on decimal texts whose value fits in an
      int64, and then returns that value. */
  lemma ParseIntMeaning(s: string)
    ensures ParseInt(s).Success? <==> IsDecimalText(s) && IsInt64(DecimalValue(s))
    ensures ParseInt(s).Success? ==> ParseInt(s).value == DecimalValue(s)
  {
    if s != "" {
      var body := if s[0] == '+' || s[0] == '-' then s[1..] else s;
      if body != "" {
        if AllDigits(body) {
          ScanUintDigits(body, 0);
        } else {
          ScanUintNonDigit(body, 0);
        }
      }
    }
  }

  // ---------------------------------------------------------------------
  // Decimal formatting, the inverse of ParseInt

  /** The decimal digits of `n`, without leading zeros. */
  function Digits(n: nat): (s: string)
    ensures s != [] && AllDigits(s)
  {
    if n < 10 then [DigitChar(n)] else Digits(n / 10) + [DigitChar(n % 10)]
  }

  /** strconv.FormatInt(n, 10). */
  function FormatInt(n: int): string
  {
    if n < 0 then "-" + Digits(-n) else Digits(n)
  }

  lemma {:induction false} HornerSnoc(acc: nat, s: string, ch: char)
    requires AllDigits(s) && IsDigit(ch)
    ensures AllDigits(s + [ch])
    ensures Horner(acc, s + [ch]) == Horner(acc, s) * 10 + DigitValue(ch)
    decreases |s|
  {
    if s != [] {
      assert (s + [ch])[1..] == s[1..] + [ch];
      HornerSnoc(acc * 10 + DigitValue(s[0]), s[1..], ch);
    }
  }

  lemma {:induction false} DigitsValue(n: nat)
    ensures Horner(0, Digits(n)) == n
  {
    if n >= 10 {
      DigitsValue(n / 10);
      HornerSnoc(0, Digits(n / 10), DigitChar(n % 10));
    }
  }

  /** Every int64 survives a trip through its decimal text. */
  lemma FormatParseInt(n: int)
    requires IsInt64(n)
    ensures ParseInt(FormatInt(n)) == Success(n)
  {
    var m := if n < 0 then -n else n;
    DigitsValue(m);
    var s := FormatInt(n);
    if n < 0 {
      assert s[1..] == Digits(m);
    } else {
      assert Digits(m)[0] != '-' && Digits(m)[0] != '+';
    }
    ParseIntMeaning(s);
  }

  // ---------------------------------------------------------------------
  // Powers

  function Pow10(d: nat): (r: nat)
    ensures r > 0
  {
    if d == 0 then 1 else 10 * Pow10(d - 1)
  }

  lemma {:induction false} Pow10Mono(d: nat, e: nat)
    requires d <= e
    ensures Pow10(d) <= Pow10(e)
    decreases e
  {
    if d < e {
      Pow10Mono(d, e - 1);
    }
  }

  lemma {:induction false} Pow10Add(a: nat, b: nat)
    ensures Pow10(a + b) == Pow10(a) * Pow10(b)
    decreases a
  {
    if a > 0 {
      Pow10Add(a - 1, b);
    }
  }

  // ---------------------------------------------------------------------
  // ParseFloat

  /** Upper-case ASCII letters lowered, as strconv compares case-blind. */
  function LowerAscii(ch: char): char
  {
    if 'A' <= ch <= 'Z' then (ch as int + 32) as char else ch
  }

  function ToLowerAscii(s: string): (r: string)
    ensures |r| == |s|
  {
    seq(|s|, i requires 0 <= i < |s| => LowerAscii(s[i]))
  }

  /** equalIgnoreCase: the same length and, position by position, the same
      character once ASCII letters are lowered. */
  predicate EqualIgnoreCase(a: string, b: string)
  {
    |a| == |b| && forall i :: 0 <= i < |a| ==> LowerAscii(a[i]) == LowerAscii(b[i])
  }

  /** special: "inf" or "infinity" with or without a sign, or "nan", in
      any case, picked out by the first character. */
  predicate Special(s: string)
  {
    if s == [] then false
    else if s[0] == '+' || s[0] == '-' then
      EqualIgnoreCase(s, "+inf") || EqualIgnoreCase(s, "+infinity") ||
      EqualIgnoreCase(s, "-inf") || EqualIgnoreCase(s, "-infinity")
    else if s[0] == 'n' || s[0] == 'N' then EqualIgnoreCase(s, "nan")
    else if s[0] == 'i' || s[0] == 'I' then EqualIgnoreCase(s, "inf") || EqualIgnoreCase(s, "infinity")
    else false
  }

  /** The digits loop of readFloat from index `i`: digits and at most one
      '.'. Where it stops and whether it saw a digit, or None at a second
      '.'. */
  function ScanMantissa(s: string, i: nat, sawDot: bool, sawDigits: bool): (r: Option<(nat, bool)>)
    requires i <= |s|
    ensures r.Some? ==> i <= r.value.0 <= |s|
    decreases |s| - i
  {
    if i == |s| then Some((i, sawDigits))
    else if s[i] == '.' then
      if sawDot then None else ScanMantissa(s, i + 1, true, sawDigits)
    else if IsDigit(s[i]) then ScanMantissa(s, i + 1, sawDot, true)
    else Some((i, sawDigits))
  }

  /** The optional exponent of readFloat at index `i`: "e" or "E", an
      optional sign and at least one digit. The index after it, or None
      when the "e" does not start a well-formed exponent. */
  function ScanExponent(s: string, i: nat): Option<nat>
    requires i <= |s|
  {
    if i < |s| && (s[i] == 'e' || s[i] == 'E') then
      var j := if i + 1 < |s| && (s[i + 1] == '+' || s[i + 1] == '-') then i + 2 else i + 1;
      if j < |s| && IsDigit(s[j]) then Some(j + DigitRun(s[j..])) else None
    else Some(i)
  }

  /** A text without its leading sign, if it has one. */
  function Unsigned(s: string): (u: string)
    ensures |u| <= |s|
  {
    if s != [] && (s[0] == '+' || s[0] == '-') then s[1..] else s
  }

  /** readFloat's test on the text after the sign: a mantissa with at
      least one digit, the optional exponent, and nothing after. */
  predicate ReadUnsigned(u: string)
  {
    match ScanMantissa(u, 0, false, false)
    case None => false
    case Some((m, sawDigits)) => sawDigits && ScanExponent(u, m) == Some(|u|)
  }

  /** readFloat's syntax test. */
  predicate ReadFloat(s: string)
  {
    ReadUnsigned(Unsigned(s))
  }

  /** The digits of a mantissa from index `i`, read as one integer after
      the digits that gave `acc`, and the count of digits after the '.'
      added to `frac`; the loop of ScanMantissa. */
  function MantissaValue(s: string, i: nat, sawDot: bool, acc: nat, frac: nat): (nat, nat)
    requires i <= |s|
    decreases |s| - i
  {
    if i == |s| then (acc, frac)
    else if s[i] == '.' && !sawDot then MantissaValue(s, i + 1, true, acc, frac)
    else if IsDigit(s[i]) then
      MantissaValue(s, i + 1, sawDot, acc * 10 + DigitValue(s[i]), if sawDot then frac + 1 else frac)
    else (acc, frac)
  }

  /** The exponent digits as readFloat accumulates them: a digit is taken
      in only while the value so far is below 10000. */
  function ClampedExponent(acc: nat, ds: string): nat
    requires AllDigits(ds)
    decreases |ds|
  {
    if ds == [] then acc
    else ClampedExponent(if acc < 10000 then acc * 10 + DigitValue(ds[0]) else acc, ds[1..])
  }

  /** The signed exponent written after the mantissa that ends at `m`; 0
      when there is none. */
  function ExponentOf(u: string, m: nat): int
    requires m <= |u| && ScanExponent(u, m) == Some(|u|)
  {
    if m == |u| then 0
    else
      var j := if u[m + 1] == '+' || u[m + 1] == '-' then m + 2 else m + 1;
      DigitRunFull(u[j..]);
      var e: int := ClampedExponent(0, u[j..]);
      if u[m + 1] == '-' then -e else e
  }

  const Two64: nat := 0x1_0000_0000_0000_0000

  /** 2^960. */
  const Two960: nat := Two64 * Two64 * Two64 * Two64 * Two64 * Two64 * Two64 * Two64 *
                       Two64 * Two64 * Two64 * Two64 * Two64 * Two64 * Two64

  /** 2^1024 - 2^970 = (2^54 - 1) * 2^970: halfway between the largest
      float64, (2^53 - 1) * 2^971, and 2^1024. A magnitude at or above it
      rounds to infinity; at the midpoint, to the even neighbour, which is
      also infinity. */
  const FloatOverflow: nat := 0x3F_FFFF_FFFF_FFFF * Two960 * 0x400

  /** Whether the magnitude of an accepted literal, its digits times ten to
      the exponent less the fraction digits, rounds beyond the largest
      float64. */
  predicate Overflows(s: string)
    requires ReadFloat(s)
  {
    var u := Unsigned(s);
    var m := ScanMantissa(u, 0, false, false).value.0;
    var mv := MantissaValue(u, 0, false, 0, 0);
    var k := ExponentOf(u, m) - mv.1;
    if k >= 0 then mv.0 * Pow10(k) >= FloatOverflow
    else mv.0 >= FloatOverflow * Pow10(-k)
  }

  /** strconv.ParseFloat(s, 64), for whether it fails and with what error:
      the special values first, then readFloat's syntax, then the range of
      a float64. The value itself is not kept. */
  function ParseFloat(s: string): (r: Result<(), NumError>)
    ensures r.Failure? ==> r.error.fn == ParseFloatFn && r.error.num == s
  {
    if Special(s) then Success(())
    else if !ReadFloat(s) then Failure(NumError(ParseFloatFn, s, ErrSyntax))
    else if Overflows(s) then Failure(NumError(ParseFloatFn, s, ErrRange))
    else Success(())
  }

  // ---------------------------------------------------------------------
  // What ParseFloat accepts, as a grammar

  /** Length of the longest run of digits at the start of `s`. */
  function DigitRun(s: string): (n: nat)
    ensures n <= |s|
    ensures n < |s| ==> !IsDigit(s[n])
  {
    if s != [] && IsDigit(s[0]) then 1 + DigitRun(s[1..]) else 0
  }

  /** The run is all digits. */
  lemma {:induction false} DigitRunDigits(s: string)
    ensures AllDigits(s[..DigitRun(s)])
    decreases |s|
  {
    if s != [] && IsDigit(s[0]) {
      var n := DigitRun(s);
      DigitRunDigits(s[1..]);
      assert s[..n] == [s[0]] + s[1..][..n - 1];
    }
  }

  /** `digits [ "." digits ]` or `"." digits`, with at least one digit. */
  predicate IsMantissa(s: string)
  {
    var i := DigitRun(s);
    if i == |s| then i > 0
    else s[i] == '.' && (i > 0 || |s| > i + 1) && DigitRun(s[i + 1..]) == |s| - i - 1
  }

  /** `("e" | "E") [sign] digits`. */
  predicate IsExponent(s: string)
  {
    |s| >= 2 && (s[0] == 'e' || s[0] == 'E') &&
    var t := if s[1] == '+' || s[1] == '-' then s[2..] else s[1..];
    t != [] && AllDigits(t)
  }

  /** A mantissa followed by an optional exponent. */
  predicate IsMantissaExponent(s: string)
  {
    exists i :: 0 <= i <= |s| && IsMantissa(s[..i]) && (i == |s| || IsExponent(s[i..]))
  }

  /** The texts strconv.ParseFloat(s, 64) reads in base 10: "nan" or an
      infinity, signed or not, in any case; or an optional sign before a
      mantissa with an optional exponent. */
  predicate IsFloatText(s: string)
  {
    ToLowerAscii(s) in {"nan", "inf", "infinity", "+inf", "+infinity", "-inf", "-infinity"} ||
    IsMantissaExponent(Unsigned(s))
  }

  /** ParseFloat reports a syntax error exactly on the texts outside the
      grammar; every other failure is a range error. */
  lemma ParseFloatSyntax(s: string)
    ensures ParseFloat(s).Failure? && ParseFloat(s).error.err == ErrSyntax <==> !IsFloatText(s)
    ensures ParseFloat(s).Failure? && ParseFloat(s).error.err == ErrRange ==> IsFloatText(s)
  {
    SpecialMeaning(s);
    ReadUnsignedMeaning(Unsigned(s));
  }

  /** special accepts exactly the infinities, signed or not, and "nan". */
  lemma SpecialMeaning(s: string)
    ensures Special(s) <==> ToLowerAscii(s) in {"nan", "inf", "infinity", "+inf", "+infinity", "-inf", "-infinity"}
  {
    LowerLiteral("nan");
    LowerLiteral("inf");
    LowerLiteral("infinity");
    LowerLiteral("+inf");
    LowerLiteral("+infinity");
    LowerLiteral("-inf");
    LowerLiteral("-infinity");
    EqualIgnoreCaseLower(s, "nan");
    EqualIgnoreCaseLower(s, "inf");
    EqualIgnoreCaseLower(s, "infinity");
    EqualIgnoreCaseLower(s, "+inf");
    EqualIgnoreCaseLower(s, "+infinity");
    EqualIgnoreCaseLower(s, "-inf");
    EqualIgnoreCaseLower(s, "-infinity");
    if s != [] {
      assert ToLowerAscii(s)[0] == LowerAscii(s[0]);
    }
  }

  lemma LowerLiteral(t: string)
    requires forall i :: 0 <= i < |t| ==> !('A' <= t[i] <= 'Z')
    ensures ToLowerAscii(t) == t
  {
  }

  /** Against a lower-case text, equalIgnoreCase is equality of the
      lowered text. */
  lemma EqualIgnoreCaseLower(s: string, t: string)
    requires ToLowerAscii(t) == t
    ensures EqualIgnoreCase(s, t) <==> ToLowerAscii(s) == t
  {
    if |s| == |t| {
      if EqualIgnoreCase(s, t) {
        forall i | 0 <= i < |s| ensures ToLowerAscii(s)[i] == t[i] {
          assert ToLowerAscii(t)[i] == LowerAscii(t[i]);
        }
      }
      if ToLowerAscii(s) == t {
        forall i | 0 <= i < |s| ensures LowerAscii(s[i]) == LowerAscii(t[i]) {
          assert ToLowerAscii(s)[i] == LowerAscii(s[i]);
          assert ToLowerAscii(t)[i] == LowerAscii(t[i]);
        }
      }
    }
  }

  /** readFloat's loops accept exactly a mantissa of the grammar with an
      optional exponent. */
  lemma ReadUnsignedMeaning(u: string)
    ensures ReadUnsigned(u) <==> IsMantissaExponent(u)
  {
    if ReadUnsigned(u) {
      ReadWitness(u);
    }
    if IsMantissaExponent(u) {
      var i :| 0 <= i <= |u| && IsMantissa(u[..i]) && (i == |u| || IsExponent(u[i..]));
      WitnessRead(u, i);
    }
  }

  /** The mantissa loop runs through the leading digits in one go. */
  lemma ScanFromStart(u: string)
    ensures ScanMantissa(u, 0, false, false) == ScanMantissa(u, DigitRun(u), false, DigitRun(u) > 0)
  {
    ScanRun(u, 0, false, false);
    assert u[0..] == u;
  }

  /** Without a '.' after the `a` leading digits, the mantissa loop stops
      right after them. */
  lemma ScanUndotted(u: string, a: nat)
    requires a == DigitRun(u) && (a == |u| || u[a] != '.')
    ensures ScanMantissa(u, 0, false, false) == Some((a, a > 0))
  {
    ScanFromStart(u);
  }

  /** With a '.' after the `a` leading digits and `b` digits after it, the
      mantissa loop stops after those, failing if a second '.' follows
      them. */
  lemma ScanDotted(u: string, a: nat, b: nat)
    requires a == DigitRun(u) && a < |u| && u[a] == '.' && b == DigitRun(u[a + 1..])
    ensures ScanMantissa(u, 0, false, false) ==
            if a + 1 + b < |u| && u[a + 1 + b] == '.' then None else Some((a + 1 + b, a + 1 + b > 1))
  {
    ScanFromStart(u);
    ScanAfterDot(u, a, b);
  }

  lemma ScanAfterDot(u: string, a: nat, b: nat)
    requires a < |u| && u[a] == '.' && b == DigitRun(u[a + 1..])
    ensures ScanMantissa(u, a, false, a > 0) ==
            if a + 1 + b < |u| && u[a + 1 + b] == '.' then None else Some((a + 1 + b, a + 1 + b > 1))
  {
    var c := a + 1 + b;
    assert ScanMantissa(u, a, false, a > 0) == ScanMantissa(u, a + 1, true, a > 0);
    ScanRun(u, a + 1, true, a > 0);
    if c < |u| {
      assert u[a + 1..][b] == u[c];
    }
  }

  /** Where readFloat's mantissa loop stops, the grammar's mantissa ends. */
  lemma ReadWitness(u: string)
    requires ReadUnsigned(u)
    ensures var m := ScanMantissa(u, 0, false, false).value.0;
            IsMantissa(u[..m]) && (m == |u| || IsExponent(u[m..]))
  {
    var a := DigitRun(u);
    if a == |u| || u[a] != '.' {
      ScanUndotted(u, a);
    } else {
      ScanDotted(u, a, DigitRun(u[a + 1..]));
    }
    var m := ScanMantissa(u, 0, false, false).value.0;
    if m < |u| {
      ExponentScan(u, m);
    }
    if a == |u| || u[a] != '.' {
      DigitRunDigits(u);
      DigitRunFull(u[..a]);
    } else {
      DottedMantissa(u, a, m);
    }
  }

  /** Digits, a '.' and digits up to `c`, with a digit on either side, are
      a mantissa. */
  lemma DottedMantissa(u: string, a: nat, c: nat)
    requires a == DigitRun(u) && a < |u| && u[a] == '.'
    requires c == a + 1 + DigitRun(u[a + 1..]) && c > 1
    ensures IsMantissa(u[..c])
  {
    var t := u[..c];
    DigitRunDigits(u);
    DigitRunDigits(u[a + 1..]);
    assert t[..a] == u[..a];
    DigitRunUnique(t, a);
    assert t[a + 1..] == u[a + 1..][..c - a - 1];
    DigitRunFull(t[a + 1..]);
  }

  /** A mantissa of the grammar followed by an exponent or the end is what
      readFloat's loops read. */
  lemma WitnessRead(u: string, i: nat)
    requires i <= |u| && IsMantissa(u[..i]) && (i == |u| || IsExponent(u[i..]))
    ensures ReadUnsigned(u)
  {
    var t := u[..i];
    var d := DigitRun(t);
    DigitRunDigits(t);
    if i < |u| {
      ExponentScan(u, i);
      assert u[i..][0] == u[i];
    }
    if d == |t| {
      assert t[..d] == t;
      WitnessUndotted(u, i);
    } else {
      WitnessDotted(u, t, d, i);
    }
  }

  /** A mantissa of digits alone is read up to its end. */
  lemma WitnessUndotted(u: string, i: nat)
    requires 0 < i <= |u| && AllDigits(u[..i]) && (i < |u| ==> !IsDigit(u[i]) && u[i] != '.')
    ensures ScanMantissa(u, 0, false, false) == Some((i, true))
  {
    DigitRunUnique(u, i);
    ScanUndotted(u, i);
  }

  /** A mantissa with a '.' at `d` is read up to its end. */
  lemma WitnessDotted(u: string, t: string, d: nat, i: nat)
    requires i <= |u| && t == u[..i] && d == DigitRun(t) && d < i && AllDigits(t[..d])
    requires t[d] == '.' && (d > 0 || i > d + 1) && DigitRun(t[d + 1..]) == i - d - 1
    requires i < |u| ==> !IsDigit(u[i]) && u[i] != '.'
    ensures ScanMantissa(u, 0, false, false) == Some((i, true))
  {
    assert u[..d] == t[..d];
    assert t[d] == u[d];
    DigitRunUnique(u, d);
    DottedRun(u, t, d, i);
    ScanDotted(u, d, i - d - 1);
  }

  /** The digits after the '.' of a grammar mantissa ending at `i` are the
      whole run after the '.' in the text. */
  lemma DottedRun(u: string, t: string, d: nat, i: nat)
    requires i <= |u| && t == u[..i] && d < i && u[d] == '.'
    requires DigitRun(t[d + 1..]) == i - d - 1
    requires i < |u| ==> !IsDigit(u[i])
    ensures DigitRun(u[d + 1..]) == i - d - 1
  {
    DigitRunFull(t[d + 1..]);
    assert t[d + 1..] == u[d + 1..][..i - d - 1];
    if i < |u| {
      assert u[d + 1..][i - d - 1] == u[i];
    }
    DigitRunUnique(u[d + 1..], i - d - 1);
  }
  /** The mantissa loop runs through a run of digits in one go. */
  lemma {:induction false} ScanRun(s: string, i: nat, sawDot: bool, sawDigits: bool)
    requires i <= |s|
    ensures var n := DigitRun(s[i..]);
            ScanMantissa(s, i, sawDot, sawDigits) == ScanMantissa(s, i + n, sawDot, sawDigits || n > 0)
    decreases |s| - i
  {
    if i < |s| && IsDigit(s[i]) {
      assert s[i..][1..] == s[i + 1..];
      ScanRun(s, i + 1, sawDot, true);
    }
  }

  /** The exponent loop consumes the rest of the text exactly on a
      well-formed exponent. */
  lemma ExponentScan(u: string, m: nat)
    requires m < |u|
    ensures ScanExponent(u, m) == Some(|u|) <==> IsExponent(u[m..])
  {
    var t := u[m..];
    if (u[m] == 'e' || u[m] == 'E') && m + 1 < |u| {
      var j := if u[m + 1] == '+' || u[m + 1] == '-' then m + 2 else m + 1;
      assert (if t[1] == '+' || t[1] == '-' then t[2..] else t[1..]) == u[j..];
      DigitRunFull(u[j..]);
    }
  }

  /** A run of digits ending at the end of the text or before a non-digit
      is the longest one. */
  lemma {:induction false} DigitRunUnique(s: string, n: nat)
    requires n <= |s| && AllDigits(s[..n]) && (n < |s| ==> !IsDigit(s[n]))
    ensures DigitRun(s) == n
    decreases n
  {
    if n > 0 {
      assert s[..n][0] == s[0];
      assert s[1..][..n - 1] == s[..n][1..];
      DigitRunUnique(s[1..], n - 1);
    }
  }

  /** A text is one run of digits exactly when all of it is digits. */
  lemma DigitRunFull(s: string)
    ensures DigitRun(s) == |s| <==> AllDigits(s)
  {
    assert s[..|s|] == s;
    if AllDigits(s) {
      DigitRunUnique(s, |s|);
    }
  }

  // ---------------------------------------------------------------------
  // When ParseFloat reports a range error

  /** The largest float64 is far beyond every 64-bit integer. */
  lemma FloatOverflowBound()
    ensures FloatOverflow > MaxUint64
  {
  }

  /** Pow10Add with the two factors already known. */
  lemma Pow10Product(a: nat, pa: nat, b: nat, pb: nat)
    requires Pow10(a) == pa && Pow10(b) == pb
    ensures Pow10(a + b) == pa * pb
  {
    Pow10Add(a, b);
  }

  /** Ten to 309 or more is past the overflow threshold (10^308 is not). */
  lemma Pow10Beyond(e: nat)
    requires e >= 309
    ensures Pow10(e) > FloatOverflow
  {
    var p1: nat := 10;
    assert Pow10(1) == p1;
    var p2 := p1 * p1;
    Pow10Product(1, p1, 1, p1);
    var p4 := p2 * p2;
    Pow10Product(2, p2, 2, p2);
    var p8 := p4 * p4;
    Pow10Product(4, p4, 4, p4);
    var p16 := p8 * p8;
    Pow10Product(8, p8, 8, p8);
    var p32 := p16 * p16;
    Pow10Product(16, p16, 16, p16);
    var p64 := p32 * p32;
    Pow10Product(32, p32, 32, p32);
    var p128 := p64 * p64;
    Pow10Product(64, p64, 64, p64);
    var p256 := p128 * p128;
    Pow10Product(128, p128, 128, p128);
    var p288 := p256 * p32;
    Pow10Product(256, p256, 32, p32);
    var p304 := p288 * p16;
    Pow10Product(288, p288, 16, p16);
    var p308 := p304 * p4;
    Pow10Product(304, p304, 4, p4);
    Pow10Product(308, p308, 1, p1);
    Pow10Mono(309, e);
  }

  /** The mantissa value of a run of digits that ends at `n`, where no
      digit or '.' follows, is the run read as an integer, with no
      fraction digits. */
  lemma {:induction false} MantissaValueDigits(s: string, i: nat, n: nat, acc: nat)
    requires i <= n <= |s| && AllDigits(s[i..n]) && (n < |s| ==> !IsDigit(s[n]) && s[n] != '.')
    ensures MantissaValue(s, i, false, acc, 0) == (Horner(acc, s[i..n]), 0)
    decreases n - i
  {
    if i < n {
      assert s[i..n][0] == s[i];
      assert s[i..n][1..] == s[i + 1..n];
      MantissaValueDigits(s, i + 1, n, acc * 10 + DigitValue(s[i]));
    }
  }

  /** An int64 in base 10 is never a float64 out of range: whatever
      ParseInt accepts, ParseFloat accepts too. */
  lemma IntegerTextIsFloat(s: string)
    requires ParseInt(s).Success?
    ensures ParseFloat(s) == Success(())
  {
    ParseIntMeaning(s);
    var u := Unsigned(s);
    assert u != [] && AllDigits(u);
    DigitRunFull(u);
    ScanUndotted(u, |u|);
    assert ReadFloat(s);
    assert u[0..|u|] == u;
    MantissaValueDigits(u, 0, |u|, 0);
    assert ExponentOf(u, |u|) == 0;
    FloatOverflowBound();
    assert Horner(0, u) <= MaxUint64 by {
      assert s[0] == '-' ==> DecimalValue(s) == 0 - Horner(0, u);
      assert s[0] != '-' ==> DecimalValue(s) == Horner(0, u);
    }
  }

  /** How readFloat reads digits, "e" and unsigned exponent digits: the
      digits are the mantissa, nothing follows a point, and the exponent is
      the clamped value of the exponent digits. */
  lemma ExponentTextRead(w: string, ds: string, s: string)
    requires w != [] && AllDigits(w) && ds != [] && AllDigits(ds)
    requires s == w + "e" + ds
    ensures ReadFloat(s) && Unsigned(s) == s
    ensures ScanMantissa(s, 0, false, false) == Some((|w|, true))
    ensures MantissaValue(s, 0, false, 0, 0) == (Horner(0, w), 0)
    ensures ExponentOf(s, |w|) == ClampedExponent(0, ds)
  {
    var n := |w|;
    assert s[0] == w[0];
    assert s[..n] == w && s[n] == 'e' && s[n + 1] == ds[0];
    DigitRunUnique(s, n);
    ScanUndotted(s, n);
    ExponentDigitsScan(s, n, ds);
    MantissaValueDigits(s, 0, n, 0);
  }

  /** An "e" at `n` followed by digits to the end is an exponent that ends
      the text. */
  lemma ExponentDigitsScan(s: string, n: nat, ds: string)
    requires n < |s| && s[n] == 'e' && s[n + 1..] == ds && ds != [] && AllDigits(ds)
    ensures ScanExponent(s, n) == Some(|s|)
  {
    assert s[n + 1] == ds[0];
    DigitRunFull(ds);
  }

  /** Digits with a non-zero value, "e" and an unsigned exponent of at
      least 309 are a range error: 10^309 is beyond every float64. */
  lemma ExponentRangeError(w: string, ds: string)
    requires w != [] && AllDigits(w) && Horner(0, w) > 0
    requires ds != [] && AllDigits(ds) && ClampedExponent(0, ds) >= 309
    ensures var s := w + "e" + ds;
            ParseFloat(s) == Failure(NumError(ParseFloatFn, s, ErrRange))
  {
    var s := w + "e" + ds;
    ExponentTextRead(w, ds, s);
    LargePowerOverflows(Horner(0, w), ClampedExponent(0, ds));
  }

  lemma ScaledAtLeast(m: nat, p: nat)
    requires m > 0
    ensures m * p >= p
  {
    assert m * p == p + (m - 1) * p;
  }

  lemma LargePowerOverflows(m: nat, e: nat)
    requires m > 0 && e >= 309
    ensures m * Pow10(e) >= FloatOverflow
  {
    ScaledAtLeast(m, Pow10(e));
    Pow10Beyond(e);
  }

  /** "1e400" is beyond every float64. */
  lemma RangeErrorExample()
    ensures ParseFloat("1e400") == Failure(NumError(ParseFloatFn, "1e400", ErrRange))
  {
    assert ClampedExponent(0, "400") == 400;
    assert Horner(0, "1") == 1;
    assert "1e400" == "1" + "e" + "400";
    ExponentRangeError("1", "400");
  }
}
