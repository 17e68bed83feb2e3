/** The input normalisers of `formUtils`: each takes the text of a change
    event (the event itself is reduced to that string) and returns the
    normalised text. */
module FormUtils {
  import opened Wrappers
  import opened JsText
  import NumberUtils

  /** `normalizeStringInput`: `value.slice(0, maxLength)` when the value is
      longer than `maxLength`. */
  function NormalizeStringInput(input: string, maxLength: Option<int>): (r: string)
    ensures StartsWith(input, r)
    ensures maxLength.None? ==> r == input
    ensures maxLength.Some? && maxLength.value >= 0 ==>
      |r| == if |input| <= maxLength.value then |input| else maxLength.value
    ensures maxLength.Some? && maxLength.value < 0 ==>
      |r| == if |input| + maxLength.value < 0 then 0 else |input| + maxLength.value
    ensures AllDigits(input) ==> AllDigits(r)
  {
    if maxLength.Some? && |input| > maxLength.value then
      SliceFromZeroIsPrefix(input, maxLength.value);
      Slice(input, 0, maxLength.value)
    else input
  }

  /** The digits `normalizeIntegerInput` keeps: the trimmed input without its
      non-digits, cut to `maxLength` exactly as `normalizeStringInput` cuts. */
  function KeptDigits(input: string, maxLength: Option<int>): (r: string)
    ensures AllDigits(r)
  {
    NormalizeStringInput(KeepDigits(Trim(input)), maxLength)
  }

  /** `normalizeIntegerInput`: `String(parseInt(value) || "0")`. Below
      10^21 the result is the kept digits without leading zeros; from there
      on `String` writes exponent notation, led by the leading digit; from
      `InfinityFrom` on `parseInt` gives `Infinity`, written "Infinity". */
  function NormalizeIntegerInput(input: string, maxLength: Option<int>): (r: string)
    ensures DigitsValue(KeptDigits(input, maxLength)) < InfinityFrom ==> r != [] && IsDigit(r[0])
    ensures DigitsValue(KeptDigits(input, maxLength)) < ExponentFrom ==>
      AllDigits(r) && (r == "0" || r[0] != '0') && DigitsValue(r) == DigitsValue(KeptDigits(input, maxLength))
    ensures ExponentFrom <= DigitsValue(KeptDigits(input, maxLength)) < InfinityFrom ==>
      HasChar(r, 'e') && DigitValue(r[0]) == LeadingDigit(DigitsValue(KeptDigits(input, maxLength)))
    ensures DigitsValue(KeptDigits(input, maxLength)) >= InfinityFrom ==> r == "Infinity"
    ensures r == "0" <==> DigitsValue(KeptDigits(input, maxLength)) == 0
  {
    var kept := KeptDigits(input, maxLength);
    var parsed := ParseInt(kept);
    ParseIntOfDigits(kept);
    if parsed.None? || parsed.value == 0 then "0"
    else if parsed.value >= InfinityFrom then "Infinity"
    else
      var value := parsed.value;
      assert value >= ExponentFrom ==> IntToString(value) == ExponentNotation(value);
      IntToString(value)
  }

  lemma NormalizeIntegerInputNoDigits(input: string, maxLength: Option<int>)
    requires NoDigits(input)
    ensures NormalizeIntegerInput(input, maxLength) == "0"
  {
    KeepDigitsTrim(input);
    KeepDigitsEmptyIff(input);
  }

  /** `if (newValue.startsWith(".")) newValue = "0." + newValue.slice(1)`. */
  function LeadingZero(v: string): (r: string)
    ensures !StartsWith(r, ".")
    ensures AllDigitsOrDots(v) ==> AllDigitsOrDots(r)
    ensures AtMostOneDot(v) ==> AtMostOneDot(r)
    ensures !StartsWith(v, ".") ==> r == v
  {
    if StartsWith(v, ".") then
      var r := "0." + v[1..];
      IndexOfCharAt(v, '.', 0);
      IndexOfCharAt(r, '.', 1);
      assert r[2..] == v[1..];
      r
    else v
  }

  /** `normalizeFloatNumberInput`: `normalizeNumber` with the leading-zero
      fix applied between folding the dots and limiting the lengths. */
  function NormalizeFloatNumberInput(input: string, maxBefore: Option<int>, maxAfter: Option<int>): (r: string)
    ensures AllDigitsOrDots(r)
  {
    var cleaned := NumberUtils.CleanNumber(input);
    var parts := Split(cleaned, '.');
    SplitPartsFrom(cleaned, '.');
    NumberUtils.FoldExtraDotsKeepsFirstDot(cleaned);
    var fixed := LeadingZero(NumberUtils.FoldExtraDots(cleaned));
    NumberUtils.LimitAfterDot(NumberUtils.LimitBeforeDot(fixed, |parts[0]|, maxBefore, maxAfter), parts, maxAfter)
  }

  /** Without limits, extra dots are folded into the first and a leading dot
      gets a "0" in front. */
  lemma NormalizeFloatNumberInputWithoutLimits(input: string)
    ensures var r := NormalizeFloatNumberInput(input, None, None);
      && r == LeadingZero(NumberUtils.KeepFirstDot(NumberUtils.CleanNumber(input)))
      && AtMostOneDot(r)
      && !StartsWith(r, ".")
  {
    NumberUtils.FoldExtraDotsKeepsFirstDot(NumberUtils.CleanNumber(input));
  }

  /** A fraction longer than `maxLengthAfterDot` is cut to that length. */
  lemma NormalizeFloatNumberInputTruncatesFraction(input: string, maxBefore: Option<int>, maxAfter: nat)
    requires maxAfter > 0
    requires var parts := Split(NumberUtils.CleanNumber(input), '.'); |parts| >= 2 && |parts[1]| > maxAfter
    ensures var parts := Split(NumberUtils.CleanNumber(input), '.');
      NormalizeFloatNumberInput(input, maxBefore, Some(maxAfter)) == parts[0] + "." + parts[1][..maxAfter]
  {
  }

  const CnpjShape := "99.999.999/9999-99"
  const Cnpj15Shape := "999.999.999/9999-99"

  lemma CnpjShapeLiterals()
    ensures LiteralsNonDigits(CnpjShape) && LiteralsNonDigits(Cnpj15Shape)
  {
  }

  lemma CnpjPieceSlots()
    ensures Slots("99.") == 2 && Slots("999.") == 3 && Slots("999/") == 3
    ensures Slots("9999-") == 4 && Slots("99") == 2
  {
  }

  lemma CnpjShapeSlots()
    ensures Slots(CnpjShape) == 14
  {
    CnpjPieceSlots();
    SlotsOfPieces("99.", "999.", "999/", "9999-", "99");
    assert "99." + "999." + "999/" + "9999-" + "99" == CnpjShape;
  }

  lemma Cnpj15ShapeSlots()
    ensures Slots(Cnpj15Shape) == 15
  {
    CnpjPieceSlots();
    SlotsOfPieces("999.", "999.", "999/", "9999-", "99");
    assert "999." + "999." + "999/" + "9999-" + "99" == Cnpj15Shape;
  }

  /** `isACnpj`: `/^\d{2,3}\.\d{3}\.\d{3}\/\d{4}-\d{2}$/`. */
  function IsACnpj(text: string): (r: bool)
    ensures r ==> |text| == 18 || |text| == 19
    ensures r ==> |KeepDigits(text)| == 14 || |KeepDigits(text)| == 15
    ensures r ==> IsDigit(text[0]) && IsDigit(text[1])
  {
    CnpjShapeLiterals();
    CnpjShapeSlots();
    Cnpj15ShapeSlots();
    if MatchesShape(text, CnpjShape) then MatchedDigits(text, CnpjShape); true
    else if MatchesShape(text, Cnpj15Shape) then MatchedDigits(text, Cnpj15Shape); true
    else false
  }
}
