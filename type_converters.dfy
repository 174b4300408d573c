/**
 * Two type converters, as their tests pin them down. A converter is
 * `TryConvert(text, out value)`: it gives back a value and whether the
 * conversion succeeded; on failure the value is the type's default. A missing
 * (null) input is `None`.
 */
module TypeConverters {
  import opened Wrappers
  import Split

  newtype byte = x: int | 0 <= x < 256

  /** The out-value and the success flag of `TryConvert`. */
  datatype Converted<T> = Converted(value: T, ok: bool)

  // ---------------------------------------------------------------------
  // StringConverter

  /** The pass-through converter: the text itself, null included. */
  function StringConverter(input: Option<string>): (r: Converted<Option<string>>)
    ensures r.ok
  {
    Converted(input, true)
  }

  /** Every input, null included, comes back unchanged, and conversion never fails. */
  lemma StringConverterPassesThrough(input: Option<string>)
    ensures StringConverter(input).ok
    ensures StringConverter(input).value == input
  {
  }

  /** The tested table: "", " " (not trimmed), "Abc" and null map to themselves. */
  lemma StringConverterTable()
    ensures StringConverter(Some("")) == Converted(Some(""), true)
    ensures StringConverter(Some(" ")) == Converted(Some(" "), true)
    ensures StringConverter(Some("Abc")) == Converted(Some("Abc"), true)
    ensures StringConverter(None) == Converted(None, true)
  {
  }

  // ---------------------------------------------------------------------
  // Decimal text

  /** `string.IsNullOrWhiteSpace` for a non-null text. */
  predicate IsBlank(s: string) {
    forall i :: 0 <= i < |s| ==> Split.IsWhiteSpace(s[i])
  }

  /** The white space `NumberStyles.Integer` allows around a number: U+0009 to U+000D and U+0020. */
  predicate IsNumberWhite(c: char) {
    c == ' ' || '\t' <= c <= '\r'
  }

  function TrimStart(s: string): string {
    if s != [] && IsNumberWhite(s[0]) then TrimStart(s[1..]) else s
  }

  function TrimEnd(s: string): string {
    if s != [] && IsNumberWhite(s[|s| - 1]) then TrimEnd(s[..|s| - 1]) else s
  }

  /** The text with the number white space around it removed. */
  function Trim(s: string): string {
    TrimEnd(TrimStart(s))
  }

  predicate IsDigit(c: char) {
    '0' <= c <= '9'
  }

  /** A non-empty run of decimal digits. */
  predicate IsDigits(s: string) {
    |s| > 0 && forall i :: 0 <= i < |s| ==> IsDigit(s[i])
  }

  /** The number a run of decimal digits denotes. */
  function DigitsValue(s: string): nat
    requires forall i :: 0 <= i < |s| ==> IsDigit(s[i])
  {
    if s == [] then 0
    else 10 * DigitsValue(s[..|s| - 1]) + DigitValue(s[|s| - 1])
  }

  function DigitValue(c: char): (d: nat)
    requires IsDigit(c)
    ensures d < 10
  {
    c as int - '0' as int
  }

  function DigitChar(d: nat): (c: char)
    requires d < 10
    ensures IsDigit(c) && DigitValue(c) == d
  {
    ('0' as int + d) as char
  }

  /** `n.ToString()`: the decimal text of a natural number, without leading zeros. */
  function DecimalText(n: nat): (t: string)
    ensures IsDigits(t)
    ensures t[0] == '0' <==> n == 0
    ensures |t| == 1 <==> n < 10
  {
    if n < 10 then [DigitChar(n)]
    else DecimalText(n / 10) + [DigitChar(n % 10)]
  }

  /** Reading back the decimal text of a number gives that number. */
  lemma {:induction false} DecimalTextRoundTrip(n: nat)
    ensures DigitsValue(DecimalText(n)) == n
  {
    if n >= 10 {
      DecimalTextRoundTrip(n / 10);
      var t := DecimalText(n);
      assert t[..|t| - 1] == DecimalText(n / 10);
    }
  }

  // ---------------------------------------------------------------------
  // NullableByteConverter

  /**
   * The converter to `byte?`: a missing or blank text is a success with no
   * value; otherwise the text, trimmed of number white space, must be decimal
   * digits denoting at most 255.
   */
  function NullableByteConverter(input: Option<string>): (r: Converted<Option<byte>>)
    ensures !r.ok ==> r.value == None
  {
    match input
    case None => Converted(None, true)
    case Some(text) =>
      if IsBlank(text) then Converted(None, true)
      else
        var digits := Trim(text);
        if IsDigits(digits) && DigitsValue(digits) <= 255 then Converted(Some(DigitsValue(digits) as byte), true)
        else Converted(None, false)
  }

  /** A missing, empty or white-space-only text converts successfully to no value. */
  lemma NullableByteBlankIsNoValue(input: Option<string>)
    requires input.None? || IsBlank(input.value)
    ensures NullableByteConverter(input) == Converted(None, true)
  {
  }

  /** The decimal text of a byte (`b.ToString()`) converts back to that byte. */
  lemma ByteTextRoundTrip(b: byte)
    ensures NullableByteConverter(Some(DecimalText(b as nat))) == Converted(Some(b), true)
  {
    var t := DecimalText(b as nat);
    DecimalTextRoundTrip(b as nat);
    assert !Split.IsWhiteSpace(t[0]);
    assert TrimStart(t) == t;
    assert TrimEnd(t) == t;
  }

  /** Decimal digits denoting more than 255 fail: the value does not fit in a byte. */
  lemma NullableByteOutOfRange(text: string)
    requires IsDigits(text) && DigitsValue(text) > 255
    ensures NullableByteConverter(Some(text)) == Converted(None, false)
  {
  }

  /**
   * The tested successes with a value: `Byte.MinValue.ToString()` and
   * `Byte.MaxValue.ToString()` give 0 and 255, and so do "0" and "255".
   */
  lemma NullableByteConverterValues()
    ensures NullableByteConverter(Some(DecimalText(0))) == Converted(Some(0), true)
    ensures NullableByteConverter(Some(DecimalText(255))) == Converted(Some(255), true)
    ensures NullableByteConverter(Some("0")) == Converted(Some(0), true)
    ensures NullableByteConverter(Some("255")) == Converted(Some(255), true)
  {
    ByteTextRoundTrip(0);
    ByteTextRoundTrip(255);
    assert DecimalText(0) == "0";
    assert DecimalText(255) == DecimalText(25) + "5" == DecimalText(2) + "55" == "255";
  }

  /** The tested successes without a value: " ", null and "". */
  lemma NullableByteConverterNoValues()
    ensures NullableByteConverter(Some(" ")) == Converted(None, true)
    ensures NullableByteConverter(None) == Converted(None, true)
    ensures NullableByteConverter(Some("")) == Converted(None, true)
  {
  }

  /** The tested failures: "a", "-1" and "256". */
  lemma NullableByteConverterFailures()
    ensures NullableByteConverter(Some("a")) == Converted(None, false)
    ensures NullableByteConverter(Some("-1")) == Converted(None, false)
    ensures NullableByteConverter(Some("256")) == Converted(None, false)
  {
    assert !Split.IsWhiteSpace('a') && !Split.IsWhiteSpace('-');
    assert "a"[0] == 'a' && "-1"[0] == '-';
    assert !IsBlank("a") && !IsBlank("-1");
    assert Trim("a") == "a" && !IsDigit('a');
    assert Trim("-1") == "-1" && !IsDigit('-');
    assert DigitsValue("256") == 256 by {
      assert "256"[..2] == "25" && "25"[..1] == "2" && "2"[..0] == "";
    }
    NullableByteOutOfRange("256");
  }
}
