/** `capitalizeFirstLetter` and `isEmpty` of `stringUtils`. */
module StringUtils {
  import opened JsText

  predicate IsLowerAscii(c: char) { 'a' <= c <= 'z' }

  /** `toUpperCase` of one character, on the ASCII letters. */
  function ToUpperAscii(c: char): (u: char)
    ensures IsLowerAscii(c) ==> 'A' <= u <= 'Z' && u as int == c as int - 32
    ensures !IsLowerAscii(c) ==> u == c
  {
    if IsLowerAscii(c) then (c as int - 32) as char else c
  }

  /** `str.charAt(0).toUpperCase() + str.slice(1)`: "" for "", and otherwise
      the first character upper-cased in front of the untouched rest. */
  function CapitalizeFirstLetter(str: string): (r: string)
    ensures |r| == |str|
    ensures str != [] ==> r[0] == ToUpperAscii(str[0]) && r[1..] == str[1..]
  {
    if str == [] then "" else [ToUpperAscii(str[0])] + str[1..]
  }

  /** Capitalising twice is capitalising once, a capitalised text does not
      start with a lower-case letter, and only the first character can change. */
  lemma CapitalizeFirstLetterLaws(str: string)
    ensures CapitalizeFirstLetter(CapitalizeFirstLetter(str)) == CapitalizeFirstLetter(str)
    ensures str == [] <==> CapitalizeFirstLetter(str) == []
    ensures str != [] ==> !IsLowerAscii(CapitalizeFirstLetter(str)[0])
    ensures forall i :: 0 < i < |str| ==> CapitalizeFirstLetter(str)[i] == str[i]
  {
    if str != [] {
      var r := CapitalizeFirstLetter(str);
      forall i | 0 < i < |str| ensures r[i] == str[i] {
        assert r[i] == r[1..][i - 1];
      }
    }
  }

  /** A text starting with a lower-case letter differs from its capitalised
      form only in case. */
  lemma CapitalizedLowersBack(str: string)
    requires str != [] && IsLowerAscii(str[0])
    ensures ToLowerAscii(CapitalizeFirstLetter(str)) == ToLowerAscii(str)
  {
    var c, rest := str[0], str[1..];
    assert str == [c] + rest;
    LowerCons(c, rest);
    LowerCons(ToUpperAscii(c), rest);
  }

  /** Lower-casing a text lower-cases its first character and then the rest. */
  lemma LowerCons(c: char, rest: string)
    ensures ToLowerAscii([c] + rest) == ToLowerAscii([c]) + ToLowerAscii(rest)
  {
    assert ([c] + rest)[1..] == rest;
  }

  /** `str.trim().length === 0`. */
  predicate IsEmpty(str: string) {
    |Trim(str)| == 0
  }

  /** A string is empty in this sense exactly when it is all white space, so
      such a string holds no digit. */
  lemma IsEmptyIffWhiteSpace(str: string)
    ensures IsEmpty(str) <==> AllWhiteSpace(str)
    ensures IsEmpty(str) ==> NoDigits(str)
  {
    TrimEmptyIff(str);
    if IsEmpty(str) {
      WhiteSpaceHasNoDigits(str);
    }
  }
}
