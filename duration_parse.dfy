/**
 * `TimeUtil.parseDuration`: "10s", "30m", "1h", "2d" to milliseconds.
 *
 * As written, every input longer than one character loses its last character
 * before `Long.parseLong` reads it, whatever that character is; only the
 * suffixes s, m, h and d then scale the number.
 */
module DurationParse {
  import opened Wrappers
  import opened JavaLong
  import opened TimeUnits
  import opened Numerals

  /** The `NumberFormatException` that `Long.parseLong` throws. */
  datatype DurationError = InvalidDuration

  predicate IsUnitSuffix(c: char) {
    c == 's' || c == 'm' || c == 'h' || c == 'd'
  }

  /** Milliseconds per unit for the four suffixes `parseDuration` recognises. */
  function UnitMillis(c: char): (r: int)
    requires IsUnitSuffix(c)
    ensures 0 < r <= DAY
  {
    match c
    case 's' => SECOND
    case 'm' => MINUTE
    case 'h' => HOUR
    case 'd' => DAY
  }

  /** `StringUtil.chopSuffix`, taken to drop the last character. */
  function ChopSuffix(s: string): string
    requires s != []
  {
    s[..|s| - 1]
  }

  /** The part of a non-empty input that `Long.parseLong` is given. */
  function NumberPart(text: string): string
    requires text != []
  {
    if |text| > 1 then ChopSuffix(text) else text
  }

  function ParseDuration(text: string): (r: Result<int, DurationError>)
    ensures text == [] ==> r == Ok(0)
    ensures r.Ok? ==> IsLong(r.value)
    ensures r.Err? <==> text != [] && ParseLong(NumberPart(text)).None?
    ensures r.Ok? && text != [] && !IsUnitSuffix(text[|text| - 1]) ==> r == Ok(ParseLong(NumberPart(text)).value)
    ensures r.Ok? && text != [] && IsUnitSuffix(text[|text| - 1]) ==>
      r.value == ToMillis(ParseLong(NumberPart(text)).value, UnitMillis(text[|text| - 1]))
  {
    if text == [] then Ok(0)
    else
      match ParseLong(NumberPart(text))
      case None => Err(InvalidDuration)
      case Some(v) =>
        Ok(match text[|text| - 1]
           case 's' => ToMillis(v, SECOND)
           case 'm' => ToMillis(v, MINUTE)
           case 'h' => ToMillis(v, HOUR)
           case 'd' => ToMillis(v, DAY)
           case _ => v)
  }

  /**
   * A `long` followed by one of the four unit letters parses to that many
   * units in milliseconds, saturating at the ends of the `long` range.
   */
  lemma UnitSuffixScales(v: int, c: char)
    requires IsLong(v) && IsUnitSuffix(c)
    ensures ParseDuration(LongText(v) + [c]) == Ok(ToMillis(v, UnitMillis(c)))
    ensures IsLong(v * UnitMillis(c)) ==> ParseDuration(LongText(v) + [c]) == Ok(v * UnitMillis(c))
  {
    var text := LongText(v) + [c];
    assert NumberPart(text) == LongText(v);
    ParseLongText(v);
  }

  /** Any other final character, a digit included, is dropped and the rest is taken as milliseconds. */
  lemma OtherSuffixIgnored(v: int, c: char)
    requires IsLong(v) && !IsUnitSuffix(c)
    ensures ParseDuration(LongText(v) + [c]) == Ok(v)
  {
    var text := LongText(v) + [c];
    assert NumberPart(text) == LongText(v);
    ParseLongText(v);
  }

  /** A plain number of two or more digits loses its last digit. */
  lemma PlainNumberLosesLastDigit(n: nat)
    requires 10 <= n && n / 10 <= MAX_LONG
    ensures ParseDuration(Decimal(n)) == Ok(n / 10)
  {
    assert Decimal(n) == LongText(n / 10) + [DigitChar(n % 10)];
    OtherSuffixIgnored(n / 10, DigitChar(n % 10));
  }

  /** A single character is parsed whole: a digit is its own value, anything else fails. */
  lemma SingleCharacter(c: char)
    ensures ParseDuration([c]) == if IsDigit(c) then Ok(DigitValue(c) as int) else Err(InvalidDuration)
  {
    if IsDigit(c) {
      assert [c][..0] == [];
      assert AllDigits([c]) && DigitsValue([c]) == DigitValue(c);
      assert ParseLong([c]) == Some(DigitValue(c) as int);
    }
  }

  /** Sample inputs and what the code makes of them. */
  lemma ParseExamples()
    ensures ParseDuration("") == Ok(0)
    ensures ParseDuration("10s") == Ok(10000)
    ensures ParseDuration("2d") == Ok(172800000)
    ensures ParseDuration("10x") == Ok(10)
    ensures ParseDuration("500") == Ok(50)
    ensures ParseDuration("5") == Ok(5)
    ensures ParseDuration("s").Err?
    ensures ParseDuration("abm").Err?
  {
    DecimalReadBack(10);
    assert LongText(10) == "10";
    UnitSuffixScales(10, 's');
    assert "10s" == LongText(10) + ['s'];
    assert LongText(2) == "2";
    UnitSuffixScales(2, 'd');
    assert "2d" == LongText(2) + ['d'];
    OtherSuffixIgnored(10, 'x');
    assert "10x" == LongText(10) + ['x'];
    assert Decimal(500) == "500";
    PlainNumberLosesLastDigit(500);
    SingleCharacter('5');
    SingleCharacter('s');
    assert NumberPart("abm") == "ab";
  }

  /** A sign that `Long.parseLong` accepts is kept before the unit scales the number. */
  lemma SignedUnitExample()
    ensures ParseDuration("+7s") == Ok(7000)
  {
    assert NumberPart("+7s") == "+7";
    assert Unsigned("+7") == "7" && DigitsValue("7") == 7;
    assert ParseLong("+7") == Some(7);
  }

  /**
   * The parser the `default` branch evidently expects: the last character is removed
   * only when it is a unit letter, so a bare number is milliseconds, and any
   * other suffix makes the whole text fail to parse.
   */
  function ParseDurationIntended(text: string): (r: Result<int, DurationError>)
    ensures text == [] ==> r == Ok(0)
    ensures r.Ok? ==> IsLong(r.value)
  {
    if text == [] then Ok(0)
    else if |text| > 1 && IsUnitSuffix(text[|text| - 1]) then
      match ParseLong(ChopSuffix(text))
      case None => Err(InvalidDuration)
      case Some(v) => Ok(ToMillis(v, UnitMillis(text[|text| - 1])))
    else
      match ParseLong(text)
      case None => Err(InvalidDuration)
      case Some(v) => Ok(v)
  }

  /** The intended parser reads a bare `long` as that many milliseconds. */
  lemma IntendedPlainMillis(v: int)
    requires IsLong(v)
    ensures ParseDurationIntended(LongText(v)) == Ok(v)
  {
    ParseLongText(v);
    DecimalReadBack(if v < 0 then -v else v);
    var t := LongText(v);
    assert IsDigit(t[|t| - 1]);
  }

  /** The intended parser agrees with the code on every input that ends in a unit letter. */
  lemma IntendedAgreesOnUnits(text: string)
    requires |text| > 1 && IsUnitSuffix(text[|text| - 1])
    ensures ParseDurationIntended(text) == ParseDuration(text)
  {
  }

  /** The intended parser rejects a number followed by an unknown letter, which the code accepts. */
  lemma IntendedRejectsUnknownSuffix(v: int, c: char)
    requires IsLong(v) && !IsUnitSuffix(c) && !IsDigit(c)
    ensures ParseDurationIntended(LongText(v) + [c]).Err?
    ensures ParseDuration(LongText(v) + [c]) == Ok(v)
  {
    var t := LongText(v) + [c];
    assert exists i | 1 <= i < |t| :: !IsDigit(t[i]) by {
      DecimalReadBack(if v < 0 then -v else v);
      assert !IsDigit(t[|t| - 1]);
    }
    OtherSuffixIgnored(v, c);
  }
}
