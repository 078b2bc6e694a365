/** The game manager's two settings, read from configuration text with `int.TryParse`
    and falling back to a default when the value is missing or does not parse. */
module Settings {
  import opened Common

  const Int32Min: int := -0x8000_0000
  const Int32Max: int := 0x7FFF_FFFF

  /** The defaults: words of 7 letters, and a penalty of 2 points per shuffle. */
  const DefaultWordSize: int := 7
  const DefaultShufflePenalty: int := 2

  predicate IsDigit(c: char)
  {
    '0' <= c <= '9'
  }

  predicate AllDigits(s: string)
  {
    forall i | 0 <= i < |s| :: IsDigit(s[i])
  }

  /** The white space `int.TryParse` skips around a number: tab to carriage return, and
      the space. */
  predicate IsParseWhite(c: char)
  {
    '\t' <= c <= '\r' || c == ' '
  }

  /** `s` without its leading white space. */
  function TrimStart(s: string): (r: string)
    ensures r == [] || !IsParseWhite(r[0])
  {
    if s != [] && IsParseWhite(s[0]) then TrimStart(s[1..]) else s
  }

  /** `s` without its trailing white space. */
  function TrimEnd(s: string): (r: string)
    ensures r == [] || !IsParseWhite(r[|r| - 1])
  {
    if s != [] && IsParseWhite(s[|s| - 1]) then TrimEnd(s[..|s| - 1]) else s
  }

  /** The value of a string of decimal digits, most significant first. */
  function DigitsValue(s: string): nat
    requires AllDigits(s)
  {
    if s == [] then 0 else DigitsValue(s[..|s| - 1]) * 10 + (s[|s| - 1] as int - '0' as int)
  }

  /** The number in a trimmed string: an optional '+' or '-', then at least one
      decimal digit, with a value that fits a 32-bit signed integer. */
  function ParseSigned(t: string): (r: Option<int>)
    ensures r.Some? ==> Int32Min <= r.value <= Int32Max
  {
    var negative := t != [] && t[0] == '-';
    var digits := if t != [] && (t[0] == '-' || t[0] == '+') then t[1..] else t;
    if digits == [] || !AllDigits(digits) then None
    else
      var v: int := if negative then -(DigitsValue(digits) as int) else DigitsValue(digits);
      if Int32Min <= v <= Int32Max then Some(v) else None
  }

  /** `int.TryParse` with the default number style: white space around the number is
      skipped; a missing string does not parse. */
  function TryParseInt(s: Option<string>): (r: Option<int>)
    ensures r.Some? ==> Int32Min <= r.value <= Int32Max
  {
    if s.None? then None else ParseSigned(TrimEnd(TrimStart(s.value)))
  }

  /** A configured setting: the parsed value, or the default. A missing setting gives
      the default, and any other result is a 32-bit value. */
  function Setting(value: Option<string>, default: int): (r: int)
    ensures value.None? ==> r == default
    ensures r == default || Int32Min <= r <= Int32Max
  {
    var parsed := TryParseInt(value);
    if parsed.Some? then parsed.value else default
  }

  /** The decimal digits of a natural number, without leading zeros. */
  function Decimal(n: nat): (s: string)
    ensures s != [] && AllDigits(s)
  {
    if n < 10 then [('0' as int + n) as char] else Decimal(n / 10) + [('0' as int + n % 10) as char]
  }

  /** The digits of a number read back give the number. */
  lemma {:induction false} DecimalValue(n: nat)
    ensures DigitsValue(Decimal(n)) == n
  {
    var s := Decimal(n);
    if n >= 10 {
      assert s[..|s| - 1] == Decimal(n / 10);
      DecimalValue(n / 10);
    }
  }

  /** Trimming leaves `s` alone when it starts and ends with a non-space. */
  lemma TrimNothing(s: string)
    requires s != [] && !IsParseWhite(s[0]) && !IsParseWhite(s[|s| - 1])
    ensures TrimEnd(TrimStart(s)) == s
  {
    assert TrimStart(s) == s;
  }

  /** A trimmed string of digits whose value fits is that value. */
  lemma SignedOfDigits(d: string)
    requires d != [] && AllDigits(d) && DigitsValue(d) <= Int32Max
    ensures ParseSigned(d) == Some(DigitsValue(d) as int)
  {
    assert IsDigit(d[0]);
  }

  /** A '-' then digits whose value fits is the negated value. */
  lemma SignedOfNegative(d: string)
    requires d != [] && AllDigits(d) && DigitsValue(d) <= -Int32Min
    ensures ParseSigned("-" + d) == Some(-(DigitsValue(d) as int))
  {
    var t := "-" + d;
    assert t[0] == '-' && t[1..] == d;
  }

  /** A string of digits whose value fits parses to that value. */
  lemma ParseDigits(d: string)
    requires d != [] && AllDigits(d) && DigitsValue(d) <= Int32Max
    ensures TryParseInt(Some(d)) == Some(DigitsValue(d) as int)
  {
    assert IsDigit(d[0]) && IsDigit(d[|d| - 1]);
    TrimNothing(d);
    SignedOfDigits(d);
  }

  /** A '-' followed by digits whose value fits parses to the negated value. */
  lemma ParseNegativeDigits(d: string)
    requires d != [] && AllDigits(d) && DigitsValue(d) <= -Int32Min
    ensures TryParseInt(Some("-" + d)) == Some(-(DigitsValue(d) as int))
  {
    var s := "-" + d;
    assert s[0] == '-' && s[|s| - 1] == d[|d| - 1] && IsDigit(d[|d| - 1]);
    TrimNothing(s);
    SignedOfNegative(d);
  }

  /** Every 32-bit value written in decimal (with a '-' when negative) parses back to
      itself. */
  lemma ParseDecimal(v: int)
    requires Int32Min <= v <= Int32Max
    ensures v >= 0 ==> TryParseInt(Some(Decimal(v))) == Some(v)
    ensures v < 0 ==> TryParseInt(Some("-" + Decimal(-v))) == Some(v)
  {
    if v >= 0 {
      DecimalValue(v);
      ParseDigits(Decimal(v));
    } else {
      DecimalValue(-v);
      ParseNegativeDigits(Decimal(-v));
    }
  }

  /** A missing setting takes its default: word size 7 and penalty 2. */
  lemma MissingSettings()
    ensures Setting(None, DefaultWordSize) == 7 && Setting(None, DefaultShufflePenalty) == 2
  {
  }

  /** A string that starts with neither a sign nor a digit is not a number. */
  lemma NoLeadingDigit(t: string)
    requires t != [] && !IsDigit(t[0]) && t[0] != '-' && t[0] != '+'
    ensures ParseSigned(t).None?
  {
  }

  /** A setting that is not a number, or is empty, takes its default. */
  lemma UnparsableSettings()
    ensures Setting(Some("seven"), DefaultWordSize) == 7
    ensures Setting(Some(""), DefaultShufflePenalty) == 2
  {
    var t := "seven";
    assert t[0] == 's' && t[|t| - 1] == 'n';
    TrimNothing(t);
    NoLeadingDigit(t);
  }

  /** The test configuration's "3" and "2" are taken as given, and so is " 2 " once
      the spaces around it are skipped. */
  lemma ConfiguredSettings()
    ensures Setting(Some("3"), DefaultWordSize) == 3
    ensures Setting(Some("2"), DefaultShufflePenalty) == 2
    ensures Setting(Some(" 2 "), DefaultShufflePenalty) == 2
  {
    ParseDigits("3");
    assert TrimEnd(TrimStart(" 2 ")) == "2";
    ParseDigits("2");
  }
}
