/** The bar-code helpers of `barcodeUtils`: the longest intermediate code of a
    product list, the EAN-13 check digit, and the duplicate and too-short bar
    codes of a product list. */
module BarcodeUtils {
  import opened Wrappers
  import opened JsText

  /** The code fields of a product row. */
  datatype Product = Product(codigoCintaModerna: string, codigoIntermediario: string, codigoVerificador: string)

  // ---------------------------------------------------------------------------
  // findLongestCodBarra
  // ---------------------------------------------------------------------------

  function Intermediates(products: seq<Product>): (codes: seq<string>)
    ensures |codes| == |products|
    ensures forall i :: 0 <= i < |products| ==> codes[i] == products[i].codigoIntermediario
  {
    seq(|products|, i requires 0 <= i < |products| => products[i].codigoIntermediario)
  }

  /** The position of the first of the longest codes: no code is longer, and
      every code before it is strictly shorter. */
  function EarliestLongest(codes: seq<string>): (i: nat)
    requires codes != []
    ensures i < |codes|
    ensures forall j :: 0 <= j < |codes| ==> |codes[j]| <= |codes[i]|
    ensures forall j :: 0 <= j < i ==> |codes[j]| < |codes[i]|
    decreases |codes|
  {
    if |codes| == 1 then 0
    else
      var init := codes[..|codes| - 1];
      var k := EarliestLongest(init);
      assert forall j :: 0 <= j < |init| ==> init[j] == codes[j];
      if |codes[|codes| - 1]| > |codes[k]| then |codes| - 1 else k
  }

  /** `findLongestCodBarra(productsData)`: "" for null or an empty list;
      otherwise a walk that replaces the candidate only by a strictly longer
      intermediate code, so the first of the longest wins. */
  method FindLongestCodBarra(productsData: Option<seq<Product>>) returns (longest: string)
    ensures productsData.None? || productsData.value == [] ==> longest == ""
    ensures productsData.Some? && productsData.value != [] ==>
      var codes := Intermediates(productsData.value);
      longest == codes[EarliestLongest(codes)]
  {
    if productsData.None? || |productsData.value| == 0 {
      return "";
    }
    var products := productsData.value;
    ghost var codes := Intermediates(products);
    longest := products[0].codigoIntermediario;
    var maxLength := |longest|;
    for k := 0 to |products|
      invariant maxLength == |longest|
      invariant k == 0 ==> longest == codes[0]
      invariant k > 0 ==> longest == codes[EarliestLongest(codes[..k])]
    {
      var current := products[k].codigoIntermediario;
      if |current| > maxLength {
        longest := current;
        maxLength := |current|;
      }
      assert codes[..k + 1][..k] == codes[..k];
    }
    assert codes[..|products|] == codes;
  }

  // ---------------------------------------------------------------------------
  // calculateEan13CheckDigit
  // ---------------------------------------------------------------------------

  /** The weight of the digit at position `i`: 1, 3, 1, 3, ... from the left. */
  function Weight(i: nat): nat {
    if i % 2 == 0 then 1 else 3
  }

  /** The weighted digit sum of section 7.9 of the GS1 General Specifications. */
  function WeightedSum(digits: string): nat
    requires AllDigits(digits)
  {
    if digits == [] then 0
    else WeightedSum(digits[..|digits| - 1]) + DigitValue(digits[|digits| - 1]) * Weight(|digits| - 1)
  }

  /** The data part of an EAN-13: twelve digits first. */
  predicate HasEan12(ean12: string) {
    |ean12| >= 12 && AllDigits(ean12[..12])
  }

  /** What `calculateEan13CheckDigit(ean12)` returns: the digit that brings
      the weighted sum of the first twelve characters up to a multiple of ten,
      or "NaN" when one of them is missing or not a digit (`parseInt` gives
      NaN and NaN spreads to the result). */
  function Ean13CheckDigit(ean12: string): (r: string)
    ensures HasEan12(ean12) ==> |r| == 1 && IsDigit(r[0]) && (WeightedSum(ean12[..12]) + DigitValue(r[0])) % 10 == 0
    ensures !HasEan12(ean12) ==> r == "NaN"
  {
    if HasEan12(ean12) then
      var remainder := WeightedSum(ean12[..12]) % 10;
      [DigitChar(if remainder == 0 then 0 else 10 - remainder)]
    else "NaN"
  }

  /** The check digit is the only digit that completes the sum to a multiple
      of ten, and the thirteen digits it completes have a weighted sum that
      is a multiple of ten. */
  lemma Ean13CheckDigitUnique(ean12: string, c: char)
    requires HasEan12(ean12) && IsDigit(c)
    ensures (WeightedSum(ean12[..12]) + DigitValue(c)) % 10 == 0 <==> Ean13CheckDigit(ean12) == [c]
    ensures var code := ean12[..12] + Ean13CheckDigit(ean12);
      |code| == 13 && AllDigits(code) && WeightedSum(code) % 10 == 0
  {
    var r := Ean13CheckDigit(ean12);
    var sum := WeightedSum(ean12[..12]);
    if (sum + DigitValue(c)) % 10 == 0 {
      assert DigitValue(c) == DigitValue(r[0]);
      assert c == r[0];
    }
    var code := ean12[..12] + r;
    assert code[..12] == ean12[..12];
  }

  /** `calculateEan13CheckDigit`: a sum accumulated over the first twelve
      characters, NaN (`None`) from the first character that is not a digit. */
  method CalculateEan13CheckDigit(ean12: string) returns (check: string)
    ensures check == Ean13CheckDigit(ean12)
  {
    var sum: Option<nat> := Some(0);
    for i := 0 to 12
      invariant sum.Some? <==> i <= |ean12| && AllDigits(ean12[..i])
      invariant sum.Some? ==> sum.value == WeightedSum(ean12[..i])
    {
      if sum.Some? && i < |ean12| && IsDigit(ean12[i]) {
        assert ean12[..i + 1][..i] == ean12[..i];
        sum := Some(sum.value + DigitValue(ean12[i]) * Weight(i));
      } else {
        if i < |ean12| && sum.Some? {
          assert ean12[..i + 1][i] == ean12[i];
        }
        sum := None;
      }
    }
    if sum.None? {
      return "NaN";
    }
    var remainder := sum.value % 10;
    check := [DigitChar(if remainder == 0 then 0 else 10 - remainder)];
  }

  // ---------------------------------------------------------------------------
  // validateAndCheckBarCodes
  // ---------------------------------------------------------------------------

  /** The bar code of each product: its three code fields written one after
      the other, in product order; no products when the list is null. */
  function BarCodes(productsData: Option<seq<Product>>): (codes: seq<string>)
    ensures |codes| == |productsData.GetOr([])|
    ensures forall i :: 0 <= i < |codes| ==>
      var p := productsData.value[i];
      |codes[i]| == |p.codigoCintaModerna| + |p.codigoIntermediario| + |p.codigoVerificador|
      && StartsWith(codes[i], p.codigoCintaModerna)
  {
    var products := productsData.GetOr([]);
    seq(|products|, i requires 0 <= i < |products| =>
      products[i].codigoCintaModerna + products[i].codigoIntermediario + products[i].codigoVerificador)
  }

  /** `codes.indexOf(code)`: the first position of `code`, or -1. */
  function IndexOf(codes: seq<string>, code: string): (r: int)
    ensures -1 <= r < |codes|
    ensures r == -1 <==> code !in codes
    ensures r >= 0 ==> codes[r] == code && code !in codes[..r]
  {
    if codes == [] then -1
    else if codes[0] == code then 0
    else
      var k := IndexOf(codes[1..], code);
      if k == -1 then -1
      else
        assert codes[..k + 1] == [codes[0]] + codes[1..][..k];
        k + 1
  }

  /** The first `n` codes kept by `filter((code, index) => codes.indexOf(code) !== index)`. */
  function DuplicatesUpTo(codes: seq<string>, n: nat): seq<string>
    requires n <= |codes|
  {
    if n == 0 then []
    else DuplicatesUpTo(codes, n - 1) + (if IndexOf(codes, codes[n - 1]) != n - 1 then [codes[n - 1]] else [])
  }

  /** `duplicates`: every code that appeared earlier in the list. */
  function Duplicates(codes: seq<string>): seq<string> {
    DuplicatesUpTo(codes, |codes|)
  }

  lemma RepeatedAt(codes: seq<string>, n: nat)
    requires n < |codes|
    ensures IndexOf(codes, codes[n]) != n <==> codes[n] in codes[..n]
  {
  }

  /** The same filter, written with membership in the earlier codes. */
  function RepeatsUpTo(codes: seq<string>, n: nat): seq<string>
    requires n <= |codes|
  {
    if n == 0 then []
    else RepeatsUpTo(codes, n - 1) + (if codes[n - 1] in codes[..n - 1] then [codes[n - 1]] else [])
  }

  lemma {:induction false} DuplicatesUpToIsRepeats(codes: seq<string>, n: nat)
    requires n <= |codes|
    ensures DuplicatesUpTo(codes, n) == RepeatsUpTo(codes, n)
  {
    if n > 0 {
      DuplicatesUpToIsRepeats(codes, n - 1);
      RepeatedAt(codes, n - 1);
    }
  }

  /** A code occurs among the repeats once less than in the list, and not at
      all when it does not occur. */
  lemma {:induction false} RepeatsUpToCount(codes: seq<string>, n: nat, x: string)
    requires n <= |codes|
    ensures multiset(RepeatsUpTo(codes, n))[x] == if multiset(codes[..n])[x] == 0 then 0 else multiset(codes[..n])[x] - 1
  {
    if n == 0 {
      assert codes[..n] == [];
    } else {
      RepeatsUpToCount(codes, n - 1, x);
      RepeatsCountStep(codes, n, x);
    }
  }

  /** How one more code changes its count in the list and among the repeats. */
  lemma RepeatsCountStep(codes: seq<string>, n: nat, x: string)
    requires 0 < n <= |codes|
    ensures multiset(codes[..n])[x] == multiset(codes[..n - 1])[x] + (if x == codes[n - 1] then 1 else 0)
    ensures multiset(RepeatsUpTo(codes, n))[x] ==
      multiset(RepeatsUpTo(codes, n - 1))[x] + (if x == codes[n - 1] && multiset(codes[..n - 1])[x] > 0 then 1 else 0)
  {
    var previous, last := codes[..n - 1], codes[n - 1];
    PrefixStep(codes, n);
    CountAppend(previous, last, x);
    var added: seq<string> := if last in previous then [last] else [];
    assert multiset(added)[x] == if x == last && last in previous then 1 else 0;
    MultisetAppendCount(RepeatsUpTo(codes, n - 1), added, x);
  }

  lemma MultisetAppendCount(a: seq<string>, b: seq<string>, x: string)
    ensures multiset(a + b)[x] == multiset(a)[x] + multiset(b)[x]
  {
  }

  lemma PrefixStep(codes: seq<string>, n: nat)
    requires 0 < n <= |codes|
    ensures codes[..n] == codes[..n - 1] + [codes[n - 1]]
  {
  }

  /** Appending one element adds one to its count and makes it a member. */
  lemma CountAppend(previous: seq<string>, last: string, x: string)
    ensures multiset(previous + [last])[x] == multiset(previous)[x] + (if x == last then 1 else 0)
    ensures x in previous + [last] <==> x in previous || x == last
    ensures x in previous <==> multiset(previous)[x] > 0
  {
  }

  lemma {:induction false} DuplicatesUpToNonEmpty(codes: seq<string>, n: nat)
    requires n <= |codes|
    ensures DuplicatesUpTo(codes, n) != [] <==> exists i, j :: 0 <= i < j < n && codes[i] == codes[j]
  {
    if n > 0 {
      DuplicatesUpToNonEmpty(codes, n - 1);
      RepeatedAt(codes, n - 1);
      if codes[n - 1] in codes[..n - 1] {
        var i :| 0 <= i < n - 1 && codes[..n - 1][i] == codes[n - 1];
        assert codes[i] == codes[n - 1];
      } else {
        assert forall i :: 0 <= i < n - 1 ==> codes[i] == codes[..n - 1][i] != codes[n - 1];
      }
    }
  }

  /** Each repeated code appears in `duplicates` once for each occurrence
      after its first, and `duplicates` is empty exactly when no code
      repeats. */
  lemma DuplicatesLaws(codes: seq<string>, x: string)
    ensures multiset(Duplicates(codes))[x] == if x in codes then multiset(codes)[x] - 1 else 0
    ensures Duplicates(codes) != [] <==> exists i, j :: 0 <= i < j < |codes| && codes[i] == codes[j]
  {
    DuplicatesUpToIsRepeats(codes, |codes|);
    RepeatsUpToCount(codes, |codes|, x);
    DuplicatesUpToNonEmpty(codes, |codes|);
    assert codes[..|codes|] == codes;
    assert x in codes <==> multiset(codes)[x] > 0;
  }

  /** `invalidBarCodes`: the codes shorter than 13 characters, in order. */
  function InvalidBarCodes(codes: seq<string>): (r: seq<string>)
    ensures forall i :: 0 <= i < |r| ==> |r[i]| < 13
    ensures r == [] <==> forall i :: 0 <= i < |codes| ==> |codes[i]| >= 13
  {
    if codes == [] then []
    else
      var rest := InvalidBarCodes(codes[1..]);
      assert forall i :: 1 <= i < |codes| ==> codes[i] == codes[1..][i - 1];
      (if |codes[0]| < 13 then [codes[0]] else []) + rest
  }

  /** The filter keeps the input order: filtering a concatenation is
      concatenating the filtered parts. */
  lemma {:induction false} InvalidBarCodesAppend(a: seq<string>, b: seq<string>)
    ensures InvalidBarCodes(a + b) == InvalidBarCodes(a) + InvalidBarCodes(b)
  {
    if a == [] {
      assert a + b == b;
    } else {
      assert (a + b)[1..] == a[1..] + b;
      InvalidBarCodesAppend(a[1..], b);
    }
  }

  /** Every short code is kept as often as it occurs, and no other code. */
  lemma {:induction false} InvalidBarCodesCount(codes: seq<string>, x: string)
    ensures multiset(InvalidBarCodes(codes))[x] == if |x| < 13 then multiset(codes)[x] else 0
  {
    if codes != [] {
      InvalidBarCodesCount(codes[1..], x);
      assert codes == [codes[0]] + codes[1..];
    }
  }

  /** The verdict of `validateAndCheckBarCodes`. */
  datatype BarCodeCheck = BarCodeCheck(
    hasDuplicateBarCodes: bool,
    hasAInvalidBarCode: bool,
    invalidBarCodes: seq<string>,
    duplicates: seq<string>)

  /** `validateAndCheckBarCodes(productsData)`: a repeated bar code, or one
      shorter than 13 characters, sets the corresponding flag. */
  function ValidateAndCheckBarCodes(productsData: Option<seq<Product>>): (r: BarCodeCheck)
    ensures var codes := BarCodes(productsData);
      && (r.hasDuplicateBarCodes <==> exists i, j :: 0 <= i < j < |codes| && codes[i] == codes[j])
      && (r.hasAInvalidBarCode <==> exists i :: 0 <= i < |codes| && |codes[i]| < 13)
      && r.duplicates == Duplicates(codes) && r.invalidBarCodes == InvalidBarCodes(codes)
  {
    var codes := BarCodes(productsData);
    var duplicates := Duplicates(codes);
    var invalidBarCodes := InvalidBarCodes(codes);
    DuplicatesUpToNonEmpty(codes, |codes|);
    BarCodeCheck(|duplicates| > 0, |invalidBarCodes| > 0, invalidBarCodes, duplicates)
  }
}
