/** The digit tests and the free-text number normaliser of `numberUtils`.
    `formUtils` reuses the dot-folding and length-limiting steps defined here. */
module NumberUtils {
  import opened Wrappers
  import opened JsText
  import opened JsValue

  /** Position of the first match of `/\D/`, or -1 when there is none. */
  function FirstNonDigit(text: string): (r: int)
    ensures -1 <= r < |text|
    ensures r >= 0 ==> !IsDigit(text[r]) && AllDigits(text[..r])
    ensures r == -1 ==> AllDigits(text)
  {
    if text == [] then -1
    else if !IsDigit(text[0]) then 0
    else
      var k := FirstNonDigit(text[1..]);
      if k == -1 then -1 else k + 1
  }

  /** `containsOnlyDigits`: `!/\D/.test(text)`, so "" qualifies. */
  function ContainsOnlyDigits(text: string): (r: bool)
    ensures r <==> AllDigits(text)
    ensures text == [] ==> r
  {
    FirstNonDigit(text) == -1
  }

  /** The regular expression `/^\d+(\.\d{1,2})?$/` matches by splitting
      `text` at `p`: digits before, then nothing or "." and one or two digits. */
  predicate FloatSplitAt(text: string, p: int)
    requires 0 <= p <= |text|
  {
    && AllDigits(text[..p])
    && (p == |text| || (text[p] == '.' && 2 <= |text| - p <= 3 && AllDigits(text[p + 1..])))
  }

  /** `isAFloatNumber`, matched greedily: the maximal run of leading digits
      is the integer part. */
  function IsAFloatNumber(text: string): (r: bool)
    ensures r <==> exists p :: 1 <= p <= |text| && FloatSplitAt(text, p)
    ensures r ==> text != [] && IsDigit(text[0])
  {
    var n := |DigitPrefix(text)|;
    assert text[..n] == DigitPrefix(text);
    assert forall p :: n < p <= |text| ==> !AllDigits(text[..p]) by {
      forall p | n < p <= |text| ensures !AllDigits(text[..p]) {
        assert text[..p][n] == text[n];
      }
    }
    assert forall p :: 1 <= p < n ==> !FloatSplitAt(text, p) by {
      forall p | 1 <= p < n ensures !FloatSplitAt(text, p) {
        assert text[p] == DigitPrefix(text)[p];
      }
    }
    n >= 1 && FloatSplitAt(text, n)
  }

  /** Text `isAFloatNumber` accepts holds only digits and dots. */
  lemma FloatNumberCharacters(text: string)
    ensures IsAFloatNumber(text) ==> AllDigitsOrDots(text)
  {
    if IsAFloatNumber(text) {
      var p :| 1 <= p <= |text| && FloatSplitAt(text, p);
      forall i | 0 <= i < |text| ensures IsDigitOrDot(text[i]) {
        if i < p {
          assert text[..p][i] == text[i];
        } else if i > p {
          assert text[p + 1..][i - p - 1] == text[i];
        }
      }
    }
  }

  /** `isNotZero`: a strict comparison with the number 0 and the string "0",
      not a numeric test. */
  function IsNotZero(value: Value): (r: bool)
    requires value.Num? || value.Str?
    ensures value.Num? ==> (r <==> value.n != 0)
    ensures value.Str? && |value.s| != 1 ==> r
    ensures value.Str? && |value.s| == 1 ==> (r <==> value.s[0] != '0')
  {
    value != Num(0) && value != Str("0")
  }

  lemma IsNotZeroIsTextual()
    ensures IsNotZero(Str("00")) && IsNotZero(Str("0.0")) && IsNotZero(Str(""))
    ensures !IsNotZero(Num(0)) && !IsNotZero(Str("0"))
  {
  }

  /** The first dot is kept and every later dot is removed. */
  function KeepFirstDot(v: string): (r: string)
    ensures AtMostOneDot(r)
    ensures ('.' in v) <==> ('.' in r)
    ensures AllDigitsOrDots(v) ==> AllDigitsOrDots(r)
  {
    var i := IndexOfChar(v, '.');
    if i == -1 then v
    else
      var r := v[..i] + "." + RemoveDots(v[i + 1..]);
      RemoveDotsOfDigitsOrDots(v[i + 1..]);
      assert r[..i] == v[..i] && r[i] == '.';
      IndexOfCharAt(r, '.', i);
      assert r[i + 1..] == RemoveDots(v[i + 1..]);
      r
  }

  /** `if (parts.length > 2) newValue = parts[0] + "." + parts.slice(1).join("")`. */
  function FoldExtraDots(v: string): string
  {
    var parts := Split(v, '.');
    if |parts| > 2 then parts[0] + "." + Concat(parts[1..]) else v
  }

  /** Folding the parts after the first dot together keeps exactly the first dot. */
  lemma FoldExtraDotsKeepsFirstDot(v: string)
    ensures FoldExtraDots(v) == KeepFirstDot(v)
  {
    var i := IndexOfChar(v, '.');
    if i == -1 {
      assert Split(v, '.') == [v];
    } else {
      var rest := Split(v[i + 1..], '.');
      assert Split(v, '.') == [v[..i]] + rest;
      if |rest| == 1 {
        FoldOneDot(v, i);
        assert FoldExtraDots(v) == v;
      } else {
        FoldManyDots(v, i, rest);
      }
      assert KeepFirstDot(v) == v[..i] + "." + RemoveDots(v[i + 1..]);
    }
  }

  lemma FoldOneDot(v: string, i: nat)
    requires i < |v| && i == IndexOfChar(v, '.') && |Split(v[i + 1..], '.')| == 1
    ensures v[..i] + "." + RemoveDots(v[i + 1..]) == v
  {
    var tail := v[i + 1..];
    assert IndexOfChar(tail, '.') == -1;
    RemoveDotsWithoutDots(tail);
    assert v == v[..i] + "." + tail;
  }

  lemma FoldManyDots(v: string, i: nat, rest: seq<string>)
    requires i < |v| && i == IndexOfChar(v, '.')
    requires rest == Split(v[i + 1..], '.') && Split(v, '.') == [v[..i]] + rest && |rest| >= 2
    ensures FoldExtraDots(v) == v[..i] + "." + RemoveDots(v[i + 1..])
  {
    var parts := Split(v, '.');
    calc {
      FoldExtraDots(v);
      parts[0] + "." + Concat(parts[1..]);
      { assert parts[0] == v[..i] && parts[1..] == rest; }
      v[..i] + "." + Concat(rest);
      { ConcatSplitRemovesDots(v[i + 1..]); }
      v[..i] + "." + RemoveDots(v[i + 1..]);
    }
  }

  /** `maxLengthBeforeDot && parts[0].length > maxLengthBeforeDot`: the value
      is cut after `maxLengthBeforeDot` characters, a dot is put there, and the
      characters from that index up to index `maxLengthAfterDot` follow. */
  function LimitBeforeDot(v: string, intPartLength: nat, maxBefore: Option<int>, maxAfter: Option<int>): (r: string)
    ensures AllDigitsOrDots(v) ==> AllDigitsOrDots(r)
    ensures maxBefore.None? ==> r == v
  {
    if maxBefore.Some? && maxBefore.value != 0 && intPartLength > maxBefore.value then
      var mb := maxBefore.value;
      Slice(v, 0, mb) + "." + (if maxAfter.Some? then Slice(v, mb, maxAfter.value) else SliceFrom(v, mb))
    else v
  }

  /** `maxLengthAfterDot && parts[1] && parts[1].length > maxLengthAfterDot`,
      where `parts` is the split taken before the dots were folded. */
  function LimitAfterDot(v: string, parts: seq<string>, maxAfter: Option<int>): (r: string)
    requires |parts| >= 1
    requires AllDigitsOrDots(v) && forall k :: 0 <= k < |parts| ==> AllDigitsOrDots(parts[k])
    ensures AllDigitsOrDots(r)
    ensures maxAfter.None? || |parts| < 2 ==> r == v
  {
    if maxAfter.Some? && maxAfter.value != 0 && |parts| >= 2 && parts[1] != [] && |parts[1]| > maxAfter.value then
      var r := parts[0] + "." + Slice(parts[1], 0, maxAfter.value);
      assert AllDigitsOrDots(parts[0]) && AllDigitsOrDots(parts[1]);
      assert forall k :: 0 <= k < |r| ==> IsDigitOrDot(r[k]) by {
        forall k | 0 <= k < |r| ensures IsDigitOrDot(r[k]) {
          if k > |parts[0]| { assert r[k] == Slice(parts[1], 0, maxAfter.value)[k - |parts[0]| - 1]; }
        }
      }
      r
    else v
  }

  /** `newValue.trim().replace(/[^0-9.]/g, "")`. */
  function CleanNumber(newValue: string): (r: string)
    ensures AllDigitsOrDots(r)
  {
    KeepDigitsAndDots(Trim(newValue))
  }

  /** `normalizeNumber`. */
  function NormalizeNumber(newValue: string, maxBefore: Option<int>, maxAfter: Option<int>): (r: string)
    ensures AllDigitsOrDots(r)
  {
    var cleaned := CleanNumber(newValue);
    var parts := Split(cleaned, '.');
    SplitPartsFrom(cleaned, '.');
    FoldExtraDotsKeepsFirstDot(cleaned);
    LimitAfterDot(LimitBeforeDot(FoldExtraDots(cleaned), |parts[0]|, maxBefore, maxAfter), parts, maxAfter)
  }

  /** Without limits the cleaned text keeps only its first dot; a leading dot
      stays where it is (there is no leading-zero fix here). */
  lemma NormalizeNumberWithoutLimits(newValue: string)
    ensures var r := NormalizeNumber(newValue, None, None);
      && r == KeepFirstDot(CleanNumber(newValue))
      && AtMostOneDot(r)
      && (StartsWith(CleanNumber(newValue), ".") ==> StartsWith(r, "."))
  {
    var cleaned := CleanNumber(newValue);
    FoldExtraDotsKeepsFirstDot(cleaned);
    if StartsWith(cleaned, ".") {
      IndexOfCharAt(cleaned, '.', 0);
    }
  }

  /** A fraction (the text between the first and second dot) longer than
      `maxLengthAfterDot` is cut to that length, whatever the other limit. */
  lemma NormalizeNumberTruncatesFraction(newValue: string, maxBefore: Option<int>, maxAfter: nat)
    requires maxAfter > 0
    requires var parts := Split(CleanNumber(newValue), '.'); |parts| >= 2 && |parts[1]| > maxAfter
    ensures var parts := Split(CleanNumber(newValue), '.');
      NormalizeNumber(newValue, maxBefore, Some(maxAfter)) == parts[0] + "." + parts[1][..maxAfter]
  {
  }

  /** For a plain digit string longer than `maxLengthBeforeDot`, a
      `maxLengthAfterDot` not above `maxLengthBeforeDot` ends the second slice
      before it starts: everything after the integer part is dropped. */
  lemma NormalizeNumberDropsDigitsPastIntegerLimit(digits: string, maxBefore: nat, maxAfter: nat)
    requires AllDigits(digits)
    requires 0 < maxBefore < |digits| && 0 < maxAfter <= maxBefore
    ensures NormalizeNumber(digits, Some(maxBefore), Some(maxAfter)) == digits[..maxBefore] + "."
  {
    TrimUntouched(digits);
    KeepDigitsAndDotsOfDigitsOrDots(digits);
    assert CleanNumber(digits) == digits;
    assert '.' !in digits;
    assert Split(digits, '.') == [digits];
    assert FoldExtraDots(digits) == digits;
    assert Slice(digits, maxBefore, maxAfter) == [];
    assert LimitBeforeDot(digits, |digits|, Some(maxBefore), Some(maxAfter)) == digits[..maxBefore] + ".";
  }

  /** `toIntOr0`: `parseInt`, with 0 for NaN. */
  function ToIntOr0(value: string): (r: int)
    ensures ParseInt(value).Some? ==> r == ParseInt(value).value
    ensures ParseInt(value).None? ==> r == 0
  {
    ParseInt(value).GetOr(0)
  }

  lemma ToIntOr0OfDigits(value: string)
    requires AllDigits(value) && value != []
    ensures ToIntOr0(value) == DigitsValue(value)
  {
    ParseIntOfDigits(value);
  }

  /** `toIntOr0(String(n))` is `n` below 10^21; from there on `String`
      writes exponent notation and only the leading digit is read back. */
  lemma ToIntOr0OfIntToString(n: int)
    ensures -ExponentFrom < n < ExponentFrom ==> ToIntOr0(IntToString(n)) == n
    ensures n >= ExponentFrom ==> ToIntOr0(IntToString(n)) == LeadingDigit(n)
    ensures n <= -ExponentFrom ==> ToIntOr0(IntToString(n)) == -(LeadingDigit(-n) as int)
  {
    ParseIntOfIntToString(n);
  }
}
