/** The digit-slot mask engine of `maskUtils`: `applyMask` writes the value's
    characters into the '9' slots of a mask and copies the mask's other
    characters between them; `applyMaskToField` picks the mask for a form
    field; `removeMask`, `unmaskFields` and `maskFields` undo or apply the
    masks over a whole record. */
module MaskUtils {
  import opened Wrappers
  import opened JsText
  import opened JsValue
  import NumberUtils
  import FormUtils

  // ---------------------------------------------------------------------------
  // applyMask
  // ---------------------------------------------------------------------------

  /** What `applyMask(value, mask)` returns. A '9' of the mask takes the next
      value character; any other mask character is copied, but only while a
      value character remains, so the output stops right after the last
      value character is placed. Any value character fills a slot: the
      engine itself does not look for digits. */
  function Masked(value: string, mask: string): (r: string)
    ensures |r| <= |mask|
    ensures value == [] ==> r == []
  {
    if mask == [] || value == [] then []
    else if mask[0] == '9' then [value[0]] + Masked(value[1..], mask[1..])
    else [mask[0]] + Masked(value, mask[1..])
  }

  /** `applyMask`: one pass over the mask with the index `i` of the next
      value character. */
  method ApplyMask(value: string, mask: string) returns (masked: string)
    ensures masked == Masked(value, mask)
  {
    masked := "";
    var i := 0;
    for j := 0 to |mask|
      invariant 0 <= i <= |value|
      invariant masked + Masked(value[i..], mask[j..]) == Masked(value, mask)
    {
      MaskedStep(value, mask, i, j);
      if mask[j] == '9' && i < |value| {
        assert masked + [value[i]] + Masked(value[i + 1..], mask[j + 1..])
            == masked + ([value[i]] + Masked(value[i + 1..], mask[j + 1..]));
        masked := masked + [value[i]];
        i := i + 1;
      } else if i < |value| {
        assert masked + [mask[j]] + Masked(value[i..], mask[j + 1..])
            == masked + ([mask[j]] + Masked(value[i..], mask[j + 1..]));
        masked := masked + [mask[j]];
      }
    }
    assert mask[|mask|..] == [];
  }

  /** One step of `Masked` from value position `i` and mask position `j`. */
  lemma MaskedStep(value: string, mask: string, i: nat, j: nat)
    requires i <= |value| && j < |mask|
    ensures Masked(value[i..], mask[j..]) ==
      if i == |value| then []
      else if mask[j] == '9' then [value[i]] + Masked(value[i + 1..], mask[j + 1..])
      else [mask[j]] + Masked(value[i..], mask[j + 1..])
  {
    assert mask[j..][1..] == mask[j + 1..];
    if i < |value| {
      assert value[i..][1..] == value[i + 1..];
    }
  }

  /** How many value characters a mask consumes: one per slot, while they last. */
  function Consumed(value: string, mask: string): (n: nat)
    ensures n <= |value| && n <= Slots(mask)
    ensures n == |value| || n == Slots(mask)
  {
    if |value| < Slots(mask) then |value| else Slots(mask)
  }

  /** The characters of `r` that stand at slot positions of `mask`, in order. */
  function SlotChars(r: string, mask: string): string
    requires |r| <= |mask|
  {
    if r == [] then [] else (if mask[0] == '9' then [r[0]] else []) + SlotChars(r[1..], mask[1..])
  }

  /** The slots of the output hold exactly the first `Consumed` value
      characters, in their original order. */
  lemma {:induction false} MaskedConsumes(value: string, mask: string)
    ensures SlotChars(Masked(value, mask), mask) == value[..Consumed(value, mask)]
  {
    if mask != [] && value != [] {
      var r := Masked(value, mask);
      if mask[0] == '9' {
        MaskedConsumes(value[1..], mask[1..]);
        assert r[1..] == Masked(value[1..], mask[1..]);
        var n := Consumed(value[1..], mask[1..]);
        assert Consumed(value, mask) == n + 1;
        assert value[..n + 1] == [value[0]] + value[1..][..n];
      } else {
        MaskedConsumes(value, mask[1..]);
        assert r[1..] == Masked(value, mask[1..]);
      }
    }
  }

  /** Every position of the output that is not a slot holds the mask's own
      character there. */
  lemma {:induction false} MaskedLiterals(value: string, mask: string)
    ensures var r := Masked(value, mask);
      forall k :: 0 <= k < |r| && mask[k] != '9' ==> r[k] == mask[k]
  {
    if mask != [] && value != [] {
      var r := Masked(value, mask);
      if mask[0] == '9' {
        MaskedLiterals(value[1..], mask[1..]);
        assert r[1..] == Masked(value[1..], mask[1..]);
      } else {
        MaskedLiterals(value, mask[1..]);
        assert r[1..] == Masked(value, mask[1..]);
      }
      assert forall k :: 0 < k < |r| ==> r[k] == r[1..][k - 1] && mask[k] == mask[1..][k - 1];
    }
  }

  /** Where the output stops. A value longer than the slots fills the whole
      mask. Otherwise the output ends right after the slot taking the last
      value character: literals are emitted only while a value character
      remains. */
  lemma {:induction false} MaskedStops(value: string, mask: string)
    ensures var r := Masked(value, mask);
      && (|value| > Slots(mask) ==> |r| == |mask|)
      && (|value| <= Slots(mask) ==> Slots(mask[..|r|]) == |value| && (value != [] ==> mask[|r| - 1] == '9'))
  {
    if mask != [] && value != [] {
      var r := Masked(value, mask);
      if mask[0] == '9' {
        var r' := Masked(value[1..], mask[1..]);
        MaskedStops(value[1..], mask[1..]);
        assert r == [value[0]] + r';
        SlotsPrefixStep(mask, |r'|);
      } else {
        var r' := Masked(value, mask[1..]);
        MaskedStops(value, mask[1..]);
        assert r == [mask[0]] + r';
        SlotsPrefixStep(mask, |r'|);
        if |value| <= Slots(mask) {
          assert r' != [];
        }
      }
    }
  }

  /** Counting the slots of a prefix one character in. */
  lemma SlotsPrefixStep(mask: string, n: nat)
    requires n < |mask|
    ensures Slots(mask[..n + 1]) == (if mask[0] == '9' then 1 else 0) + Slots(mask[1..][..n])
  {
    assert mask[..n + 1][1..] == mask[1..][..n];
  }

  /** A mask with no trailing literal: empty, or ending in a slot. */
  predicate EndsInSlot(mask: string) {
    mask == [] || mask[|mask| - 1] == '9'
  }

  /** Masking only the characters the mask consumes gives the same text
      when the mask ends in a slot. */
  lemma {:induction false} MaskedConsumedPrefix(value: string, mask: string)
    requires EndsInSlot(mask)
    ensures Masked(value[..Consumed(value, mask)], mask) == Masked(value, mask)
  {
    if mask != [] && value != [] {
      var c := Consumed(value, mask);
      if mask[0] == '9' {
        MaskedConsumedPrefix(value[1..], mask[1..]);
        assert value[..c][1..] == value[1..][..Consumed(value[1..], mask[1..])];
      } else {
        assert EndsInSlot(mask[1..]);
        SlotsOfEndsInSlot(mask);
        MaskedConsumedPrefix(value, mask[1..]);
      }
    }
  }

  /** Round trip: for a digit string, taking the digits back out of the masked
      text gives the digits that went in, when the mask has no digit literals. */
  lemma {:induction false} MaskRoundTrip(digits: string, mask: string)
    requires AllDigits(digits) && LiteralsNonDigits(mask)
    ensures KeepDigits(Masked(digits, mask)) == digits[..Consumed(digits, mask)]
  {
    if mask != [] && digits != [] {
      var r := Masked(digits, mask);
      assert LiteralsNonDigits(mask[1..]) by {
        assert forall k :: 0 <= k < |mask| - 1 ==> mask[1..][k] == mask[k + 1];
      }
      if mask[0] == '9' {
        MaskRoundTrip(digits[1..], mask[1..]);
        assert r[0] == digits[0] && r[1..] == Masked(digits[1..], mask[1..]);
        var n := Consumed(digits[1..], mask[1..]);
        assert digits[..n + 1] == [digits[0]] + digits[1..][..n];
      } else {
        MaskRoundTrip(digits, mask[1..]);
        assert r[0] == mask[0] && r[1..] == Masked(digits, mask[1..]);
      }
    }
  }

  /** A mask given at least as many digits as it has slots, and ending in a
      slot, produces text of exactly the mask's shape. */
  lemma {:induction false} MaskedFillsShape(digits: string, mask: string)
    requires AllDigits(digits) && |digits| >= Slots(mask) && EndsInSlot(mask)
    ensures MatchesShape(Masked(digits, mask), mask)
  {
    if mask != [] {
      var r := Masked(digits, mask);
      SlotsOfEndsInSlot(mask);
      assert EndsInSlot(mask[1..]);
      if mask[0] == '9' {
        var r' := Masked(digits[1..], mask[1..]);
        MaskedFillsShape(digits[1..], mask[1..]);
        assert r == [digits[0]] + r';
      } else {
        var r' := Masked(digits, mask[1..]);
        MaskedFillsShape(digits, mask[1..]);
        assert r == [mask[0]] + r';
      }
      assert forall k :: 0 < k < |r| ==> r[k] == r[1..][k - 1] && mask[k] == mask[1..][k - 1];
    }
  }

  lemma {:induction false} SlotsOfEndsInSlot(mask: string)
    requires mask != [] && EndsInSlot(mask)
    ensures Slots(mask) >= 1
  {
    if mask[0] != '9' {
      SlotsOfEndsInSlot(mask[1..]);
    }
  }

  /** Conversely, text of a mask's shape is the mask applied to its own digits. */
  lemma {:induction false} ShapeIsMaskImage(s: string, mask: string)
    requires MatchesShape(s, mask) && LiteralsNonDigits(mask) && EndsInSlot(mask)
    ensures Masked(KeepDigits(s), mask) == s
  {
    if s != [] {
      MatchesShapeTail(s, mask);
      assert LiteralsNonDigits(mask[1..]) by {
        assert forall k :: 0 <= k < |mask| - 1 ==> mask[1..][k] == mask[k + 1];
      }
      assert EndsInSlot(mask[1..]);
      ShapeIsMaskImage(s[1..], mask[1..]);
      var rest := KeepDigits(s[1..]);
      if mask[0] == '9' {
        assert KeepDigits(s) == [s[0]] + rest;
        assert Masked(KeepDigits(s), mask) == [s[0]] + Masked(rest, mask[1..]);
      } else {
        assert KeepDigits(s) == rest;
        assert IsDigit(s[1..][|s| - 2]);
        KeepDigitsEmptyIff(s[1..]);
        assert Masked(rest, mask) == [mask[0]] + Masked(rest, mask[1..]);
      }
      assert s == [s[0]] + s[1..];
    }
  }

  /** A text has the shape of a mask ending in a slot exactly when it is that
      mask applied to a digit string with one digit per slot. */
  lemma MatchesShapeIffMaskImage(s: string, mask: string)
    requires LiteralsNonDigits(mask) && EndsInSlot(mask)
    ensures MatchesShape(s, mask) <==>
      exists digits :: AllDigits(digits) && |digits| == Slots(mask) && s == Masked(digits, mask)
  {
    if MatchesShape(s, mask) {
      MatchedDigits(s, mask);
      ShapeIsMaskImage(s, mask);
    }
    forall digits | AllDigits(digits) && |digits| == Slots(mask) && s == Masked(digits, mask)
      ensures MatchesShape(s, mask)
    {
      MaskedFillsShape(digits, mask);
    }
  }

  // ---------------------------------------------------------------------------
  // maskMap
  // ---------------------------------------------------------------------------

  const CpfMask := "999.999.999-99"
  const PercentMask := "99.99%"
  const FixedPhoneMask := "(99) 9999-9999"
  const CellPhoneMask := "(99) 99999-9999"
  const CnpjMask := "99.999.999/9999-99"
  const Cnpj15Mask := "999.999.999/9999-99"
  const CepMask := "99999-999"
  const PixPhoneMask := "+9999999999999"
  const PixRandomMask := "99999999-9999-9999-9999-999999999999"

  /** `maskMap`: the mask of each masked form field. */
  const MaskMap: map<string, string> := map[
    "cpf" := CpfMask,
    "comissao" := PercentMask,
    "telefone1" := FixedPhoneMask,
    "telefone2" := CellPhoneMask,
    "telefone3" := CellPhoneMask,
    "cnpj" := CnpjMask,
    "cep" := CepMask,
    "chavepix" := CpfMask
  ]

  lemma MaskLiterals()
    ensures LiteralsNonDigits(CpfMask) && LiteralsNonDigits(PercentMask)
    ensures LiteralsNonDigits(FixedPhoneMask) && LiteralsNonDigits(CellPhoneMask)
    ensures LiteralsNonDigits(CnpjMask) && LiteralsNonDigits(Cnpj15Mask) && LiteralsNonDigits(CepMask)
  {
  }

  lemma CpfMaskLiterals()
    ensures LiteralsNonDigits(CpfMask)
  {
  }

  lemma MaskPieceSlots()
    ensures Slots("999.") == 3 && Slots("999-") == 3 && Slots("99") == 2 && Slots("") == 0
    ensures Slots("(99) ") == 2 && Slots("9999-") == 4 && Slots("9999") == 4
    ensures Slots("99999") == 5 && Slots("-9999") == 4 && Slots("-999") == 3
    ensures Slots("99.") == 2 && Slots("99%") == 2
  {
  }

  lemma CpfMaskSlots()
    ensures Slots(CpfMask) == 11
  {
    MaskPieceSlots();
    SlotsOfPieces("999.", "999.", "999-", "99", "");
    assert "999." + "999." + "999-" + "99" + "" == CpfMask;
  }

  lemma PercentMaskSlots()
    ensures Slots(PercentMask) == 4
  {
    MaskPieceSlots();
    SlotsOfPieces("99.", "99%", "", "", "");
    assert "99." + "99%" + "" + "" + "" == PercentMask;
  }

  lemma FixedPhoneMaskSlots()
    ensures Slots(FixedPhoneMask) == 10
  {
    MaskPieceSlots();
    SlotsOfPieces("(99) ", "9999-", "9999", "", "");
    assert "(99) " + "9999-" + "9999" + "" + "" == FixedPhoneMask;
  }

  lemma CellPhoneMaskSlots()
    ensures Slots(CellPhoneMask) == 11
  {
    MaskPieceSlots();
    SlotsOfPieces("(99) ", "99999", "-9999", "", "");
    assert "(99) " + "99999" + "-9999" + "" + "" == CellPhoneMask;
  }

  lemma CepMaskSlots()
    ensures Slots(CepMask) == 8
  {
    MaskPieceSlots();
    SlotsOfPieces("99999", "-999", "", "", "");
    assert "99999" + "-999" + "" + "" + "" == CepMask;
  }

  lemma CnpjMaskSlots()
    ensures Slots(CnpjMask) == 14 && Slots(Cnpj15Mask) == 15
    ensures CnpjMask == FormUtils.CnpjShape && Cnpj15Mask == FormUtils.Cnpj15Shape
  {
    FormUtils.CnpjShapeSlots();
    FormUtils.Cnpj15ShapeSlots();
  }

  /** Round trip over `maskMap`: `removeMask(applyMask(d, mask))` is `d` cut to
      the mask's slot count, for every digit string `d` and every field. */
  lemma MaskMapRoundTrip(digits: string, fieldName: string)
    requires AllDigits(digits) && fieldName in MaskMap
    ensures RemoveMask(Masked(digits, MaskMap[fieldName])) == digits[..Consumed(digits, MaskMap[fieldName])]
  {
    MaskLiterals();
    MaskRoundTrip(digits, MaskMap[fieldName]);
  }

  /** `applyMask(d, maskMap.cpf)` on eleven digits is ddd.ddd.ddd-dd, and its
      digits are `d` in order. */
  lemma CpfMaskShape(digits: string)
    requires AllDigits(digits) && |digits| == 11
    ensures MatchesShape(Masked(digits, CpfMask), CpfMask)
    ensures RemoveMask(Masked(digits, CpfMask)) == digits
  {
    CpfMaskSlots();
    MaskedFillsShape(digits, CpfMask);
    CpfMaskRoundTrip(digits);
  }

  lemma CpfMaskRoundTrip(digits: string)
    requires AllDigits(digits) && |digits| == 11 && Slots(CpfMask) == 11
    ensures RemoveMask(Masked(digits, CpfMask)) == digits
  {
    CpfMaskLiterals();
    MaskRoundTrip(digits, CpfMask);
    assert Consumed(digits, CpfMask) == 11;
    assert digits[..11] == digits;
  }

  // ---------------------------------------------------------------------------
  // removeMask
  // ---------------------------------------------------------------------------

  /** `removeMask`: `value.replace(/[^\d]/g, "")`. */
  function RemoveMask(value: string): (r: string)
    ensures AllDigits(r) && |r| <= |value|
  {
    KeepDigits(value)
  }

  /** `removeMask` keeps every digit, in order, and removing twice is removing once. */
  lemma RemoveMaskLaws(a: string, b: string, c: char)
    requires IsDigit(c)
    ensures RemoveMask(RemoveMask(a)) == RemoveMask(a)
    ensures RemoveMask(a + b) == RemoveMask(a) + RemoveMask(b)
    ensures multiset(RemoveMask(a))[c] == multiset(a)[c]
  {
    KeepDigitsIdempotent(a);
    KeepDigitsAppend(a, b);
    KeepDigitsKeepsDigits(a, c);
  }

  // ---------------------------------------------------------------------------
  // applyMaskToField
  // ---------------------------------------------------------------------------

  /** An optional string argument that is given and not "" (truthy). */
  predicate Given(o: Option<string>) {
    o.Some? && o.value != []
  }

  /** The mask chosen for a PIX key type; "" (no masking) for "email" and for
      every type the switch does not name. */
  function PixMask(pixKeyType: string): (mask: string)
    ensures pixKeyType !in {"cpf", "cnpj", "phone", "random"} ==> mask == []
    ensures pixKeyType in {"cpf", "cnpj", "phone", "random"} ==> mask != [] && mask[|mask| - 1] == '9'
  {
    match pixKeyType
    case "cpf" => CpfMask
    case "cnpj" => CnpjMask
    case "phone" => PixPhoneMask
    case "random" => PixRandomMask
    case _ => ""
  }

  /** `str.padStart(2, "0")`. */
  function PadStart2(s: string): (r: string)
    ensures |s| < 2 ==> r == Repeat('0', 2 - |s|) + s
    ensures |s| >= 2 ==> r == s
  {
    if |s| < 2 then Repeat('0', 2 - |s|) + s else s
  }

  /** The value of a percentage field: the current value ("0" when absent),
      "100" when it parses to 100 or more, and an integer part shorter than
      two characters padded with "0" when there is a dot. `atLeastHundred`
      stands for `parseFloat(currentValue ?? "0") >= 100`. */
  function PercentValue(currentValue: Option<string>, atLeastHundred: bool): string
    requires currentValue.None? ==> !atLeastHundred
  {
    var value := if atLeastHundred then "100" else currentValue.GetOr("0");
    var parts := Split(value, '.');
    if |parts| >= 2 && |parts[0]| < 2 then JoinWith([PadStart2(parts[0])] + parts[1..], '.')
    else value
  }

  /** With a dot and a short integer part the percentage is the value with
      zeros in front up to two integer digits; otherwise it is the value itself. */
  lemma PercentValuePads(current: string)
    ensures var parts := Split(current, '.');
      PercentValue(Some(current), false) ==
        if |parts| >= 2 && |parts[0]| < 2 then Repeat('0', 2 - |parts[0]|) + current else current
  {
    var parts := Split(current, '.');
    if |parts| >= 2 && |parts[0]| < 2 {
      SplitJoin(current, '.');
      JoinWithNewHead(parts, PadStart2(parts[0]), '.');
    }
  }

  /** Without a current value the percentage is "0". */
  lemma PercentValueDefault()
    ensures PercentValue(None, false) == "0"
  {
    assert IndexOfChar("0", '.') == -1;
  }

  /** The mask of a field in `maskMap`, switched to the 15-digit CNPJ mask for
      a CNPJ of 15 or more characters. */
  function FieldMask(fieldValue: string, fieldName: string): (mask: string)
    requires fieldName in MaskMap
    ensures fieldName != "cnpj" ==> mask == MaskMap[fieldName]
  {
    if fieldName == "cnpj" && |fieldValue| >= 15 then Cnpj15Mask else MaskMap[fieldName]
  }

  /** What `applyMaskToField(fieldValue, fieldName, pixKeyType, currentValue)`
      returns. The mask of the field (the 15-digit CNPJ mask from 15
      characters on) is replaced by "ignore" for a percentage field, whose value
      becomes `PercentValue`; a given PIX key type then chooses the mask
      whatever the field, because no mask left at that point contains "%". */
  function FieldMasked(fieldValue: string, fieldName: string, pixKeyType: Option<string>,
                       currentValue: Option<string>, currentAtLeastHundred: bool): (r: string)
    requires currentValue.None? ==> !currentAtLeastHundred
    ensures fieldValue == [] || fieldName !in MaskMap ==> r == fieldValue
  {
    if fieldValue == [] || fieldName !in MaskMap then fieldValue
    else
      var fieldMask := FieldMask(fieldValue, fieldName);
      var percentage := HasChar(fieldMask, '%');
      var value := if percentage then PercentValue(currentValue, currentAtLeastHundred) else fieldValue;
      MaskWith(value, ChosenMask(fieldMask, pixKeyType))
  }

  /** The mask in force at the end of `applyMaskToField`: a given PIX key type
      decides it; otherwise a percentage mask becomes "ignore". */
  function ChosenMask(fieldMask: string, pixKeyType: Option<string>): string
  {
    if Given(pixKeyType) then PixMask(pixKeyType.value)
    else if HasChar(fieldMask, '%') then "ignore"
    else fieldMask
  }

  /** `mask && mask !== "ignore" ? applyMask(fieldValue, mask) : fieldValue`. */
  function MaskWith(value: string, mask: string): string
  {
    if mask != [] && mask != "ignore" then Masked(value, mask) else value
  }

  /** `applyMaskToField`, reassigning `mask` and `fieldValue` step by step. */
  method ApplyMaskToField(fieldValue: string, fieldName: string, pixKeyType: Option<string>,
                          currentValue: Option<string>, currentAtLeastHundred: bool) returns (r: string)
    requires currentValue.None? ==> !currentAtLeastHundred
    ensures r == FieldMasked(fieldValue, fieldName, pixKeyType, currentValue, currentAtLeastHundred)
  {
    if fieldValue == [] || fieldName !in MaskMap {
      return fieldValue;
    }
    var mask := MaskMap[fieldName];
    var value := fieldValue;
    if fieldName == "cnpj" {
      if |value| >= 15 {
        mask := Cnpj15Mask;
      }
    }
    ghost var fieldMask := mask;
    assert fieldMask == FieldMask(fieldValue, fieldName);
    if HasChar(mask, '%') {
      value := PercentValue(currentValue, currentAtLeastHundred);
      mask := "ignore";
      IgnoreHasNoPercent();
    }
    if Given(pixKeyType) && !HasChar(mask, '%') {
      mask := PixMask(pixKeyType.value);
    }
    assert mask == ChosenMask(fieldMask, pixKeyType);
    FieldMaskedSteps(fieldValue, fieldName, pixKeyType, currentValue, currentAtLeastHundred);
    assert FieldMasked(fieldValue, fieldName, pixKeyType, currentValue, currentAtLeastHundred) == MaskWith(value, mask);
    if mask != [] && mask != "ignore" {
      r := ApplyMask(value, mask);
    } else {
      r := value;
    }
  }

  lemma IgnoreHasNoPercent()
    ensures !HasChar("ignore", '%')
  {
    var ignore := "ignore";
    assert ignore[0] == 'i' && ignore[1] == 'g' && ignore[2] == 'n';
    assert ignore[3] == 'o' && ignore[4] == 'r' && ignore[5] == 'e';
  }

  lemma FieldMaskedSteps(fieldValue: string, fieldName: string, pixKeyType: Option<string>,
                         currentValue: Option<string>, currentAtLeastHundred: bool)
    requires currentValue.None? ==> !currentAtLeastHundred
    requires fieldValue != [] && fieldName in MaskMap
    ensures var fieldMask := FieldMask(fieldValue, fieldName);
      FieldMasked(fieldValue, fieldName, pixKeyType, currentValue, currentAtLeastHundred)
      == MaskWith(if HasChar(fieldMask, '%') then PercentValue(currentValue, currentAtLeastHundred) else fieldValue,
                  ChosenMask(fieldMask, pixKeyType))
  {
  }

  /** The CNPJ field: 14 digits get the 14-digit layout and 15 or more the
      15-digit one, and either way the result is accepted by `isACnpj`. */
  lemma CnpjFieldMask(digits: string)
    requires AllDigits(digits) && |digits| >= 14
    ensures var r := FieldMasked(digits, "cnpj", None, None, false);
      && (|digits| == 14 ==> MatchesShape(r, CnpjMask))
      && (|digits| >= 15 ==> MatchesShape(r, Cnpj15Mask))
      && FormUtils.IsACnpj(r)
  {
    CnpjMaskSlots();
    var mask := if |digits| >= 15 then Cnpj15Mask else CnpjMask;
    CnpjFieldValue(digits);
    MaskWithMask(digits, mask);
    MaskedFillsShape(digits, mask);
  }

  lemma CnpjFieldValue(value: string)
    requires value != []
    ensures FieldMasked(value, "cnpj", None, None, false)
      == MaskWith(value, if |value| >= 15 then Cnpj15Mask else CnpjMask)
  {
    var mask := if |value| >= 15 then Cnpj15Mask else CnpjMask;
    assert FieldMask(value, "cnpj") == mask by {
      assert MaskMap["cnpj"] == CnpjMask;
    }
    assert !HasChar(mask, '%');
    assert ChosenMask(mask, None) == mask;
  }

  /** Fields other than the CNPJ and the percentage keep their `maskMap` mask. */
  lemma PlainFieldValue(value: string, fieldName: string)
    requires value != [] && fieldName in MaskMap && fieldName != "cnpj" && fieldName != "comissao"
    ensures FieldMasked(value, fieldName, None, None, false) == MaskWith(value, MaskMap[fieldName])
  {
    assert !HasChar(MaskMap[fieldName], '%');
  }

  lemma MaskWithMask(value: string, mask: string)
    requires mask != [] && mask != "ignore"
    ensures MaskWith(value, mask) == Masked(value, mask)
  {
  }

  /** A given PIX key type decides the mask of any field with a mask that is
      not a percentage: "email" and unknown types leave the value as it is. */
  lemma PixKeyMask(fieldValue: string, fieldName: string, pixKeyType: string)
    requires fieldValue != [] && fieldName in MaskMap && fieldName != "comissao" && pixKeyType != []
    ensures var r := FieldMasked(fieldValue, fieldName, Some(pixKeyType), None, false);
      && (pixKeyType in {"cpf", "cnpj", "phone", "random"} ==> r == Masked(fieldValue, PixMask(pixKeyType)))
      && (pixKeyType !in {"cpf", "cnpj", "phone", "random"} ==> r == fieldValue)
  {
    assert !HasChar(MaskMap[fieldName], '%');
    assert !HasChar(Cnpj15Mask, '%');
  }

  /** Without a PIX key type the percentage field `comissao` yields its
      percentage value, whatever text was typed. */
  lemma PercentFieldIgnoresTypedText(fieldValue: string, currentValue: Option<string>, atLeastHundred: bool)
    requires fieldValue != [] && (currentValue.None? ==> !atLeastHundred)
    ensures FieldMasked(fieldValue, "comissao", None, currentValue, atLeastHundred)
      == PercentValue(currentValue, atLeastHundred)
  {
    assert PercentMask[5] == '%';
  }

  // ---------------------------------------------------------------------------
  // unmaskFields
  // ---------------------------------------------------------------------------

  /** The fields `unmaskFields` looks at, in its order. */
  const FieldsToUnmask: seq<string> := ["cep", "cpf", "telefone1", "telefone2", "telefone3", "cnpj", "chavepix"]

  /** Whether `unmaskFields` writes field `name`: its value is non-empty, and
      the PIX key is unmasked only when its key type is given and is not "email". */
  predicate Unmasks(data: map<string, string>, name: string) {
    && name in data && data[name] != []
    && (name == "chavepix" ==> "tipochave" in data && data["tipochave"] != [] && data["tipochave"] != "email")
  }

  /** `unmaskFields`: a fresh record with the digits of each listed field it unmasks. */
  method UnmaskFields(data: map<string, string>) returns (unmasked: map<string, string>)
    ensures forall name :: name in unmasked <==> name in FieldsToUnmask && Unmasks(data, name)
    ensures forall name :: name in unmasked ==> name in data && unmasked[name] == RemoveMask(data[name])
    ensures forall name :: name in unmasked ==> AllDigits(unmasked[name])
  {
    unmasked := map[];
    for k := 0 to |FieldsToUnmask|
      invariant forall name :: name in unmasked <==> name in FieldsToUnmask[..k] && Unmasks(data, name)
      invariant forall name :: name in unmasked ==> name in data && unmasked[name] == RemoveMask(data[name])
    {
      var name := FieldsToUnmask[k];
      assert FieldsToUnmask[..k + 1] == FieldsToUnmask[..k] + [name];
      if name in data && data[name] != [] {
        if name == "chavepix" {
          var pixKeyType := if "tipochave" in data then data["tipochave"] else "";
          if pixKeyType != [] && pixKeyType != "email" {
            unmasked := unmasked[name := RemoveMask(data[name])];
          }
        } else {
          unmasked := unmasked[name := RemoveMask(data[name])];
        }
      }
    }
    assert FieldsToUnmask[..|FieldsToUnmask|] == FieldsToUnmask;
  }

  // ---------------------------------------------------------------------------
  // maskFields
  // ---------------------------------------------------------------------------

  /** The values `maskFields` can read from a masked field without throwing:
      strings; null and undefined, which `applyMaskToField` hands back; and a
      number whose `String(n)` the two recognisers reject. A number they
      accept reaches `removeMask`, and `replace` is not a method of numbers. */
  predicate Maskable(v: Value) {
    || v.Str? || v.Null? || v.Undefined?
    || (v.Num? && !NumberUtils.IsAFloatNumber(ToString(v)) && !FormUtils.IsACnpj(ToString(v)))
  }

  /** The new value `maskFields` writes for one field. A masked field holding a
      float-like number or a CNPJ is stripped to its digits first, then masked
      (null and undefined become ""). A number reaches `applyMaskToField` as
      it is: the percentage field writes its default value, and any other
      mask reads no character from it (`value[i]` is undefined on a number),
      so "" is written. Any other field is stringified, except that null, and
      undefined when asked, become "". */
  function MaskedEntry(fieldName: string, v: Value, fillUndefinedOrNullWithString: bool): (r: Value)
    requires fieldName in MaskMap ==> Maskable(v)
    ensures r.Str?
    ensures fieldName !in MaskMap && v.Str? ==> r == v
    ensures v.Null? ==> r == Str("")
    ensures fieldName in MaskMap && v.Num? ==> r == Str(if HasChar(MaskMap[fieldName], '%') then "0" else "")
  {
    if fieldName in MaskMap then
      match v
      case Str(s) =>
        var unmasked := if NumberUtils.IsAFloatNumber(s) || FormUtils.IsACnpj(s) then RemoveMask(s) else s;
        Str(FieldMasked(unmasked, fieldName, None, None, false))
      case Num(_) =>
        PercentValueDefault();
        Str(if HasChar(MaskMap[fieldName], '%') then PercentValue(None, false) else "")
      case _ => Str("")
    else if (fillUndefinedOrNullWithString && v.Undefined?) || v.Null? then Str("")
    else Str(ToString(v))
  }

  /** A number may sit in a masked field exactly when it is negative or at
      least 10^21: any other number renders as a digit string, which
      `isAFloatNumber` accepts, while a negative number starts with "-" and a
      large one is written in exponent notation, which neither recogniser
      accepts. */
  lemma MaskableNumberIff(n: int)
    ensures Maskable(Num(n)) <==> n < 0 || n >= ExponentFrom
  {
    var text := IntToString(n);
    if n >= ExponentFrom {
      assert text == ExponentNotation(n);
      NumberUtils.FloatNumberCharacters(text);
      var i :| 0 <= i < |text| && text[i] == 'e';
      assert !IsDigitOrDot(text[i]);
    } else if n >= 0 {
      assert NumberUtils.FloatSplitAt(text, |text|) by {
        assert text[..|text|] == text;
      }
    } else {
      assert !IsDigit(text[0]);
    }
  }

  /** Every non-empty commission text is written back as "0": the field has
      a percentage mask and `maskFields` passes no current value. */
  lemma MaskedCommissionIsZero(s: string, fill: bool)
    requires s != []
    ensures MaskedEntry("comissao", Str(s), fill) == Str("0")
  {
    var unmasked := if NumberUtils.IsAFloatNumber(s) || FormUtils.IsACnpj(s) then RemoveMask(s) else s;
    if NumberUtils.IsAFloatNumber(s) {
      KeepDigitsEmptyIff(s);
    } else if FormUtils.IsACnpj(s) {
      assert |KeepDigits(s)| >= 14;
    }
    assert unmasked != [];
    PercentFieldIgnoresTypedText(unmasked, None, false);
    PercentValueDefault();
  }

  /** A digit string is float-like, so `maskFields` strips it (a no-op) and masks it. */
  lemma MaskedDigitsEntry(digits: string, fieldName: string, fill: bool)
    requires AllDigits(digits) && digits != [] && fieldName in MaskMap
    ensures MaskedEntry(fieldName, Str(digits), fill) == Str(FieldMasked(digits, fieldName, None, None, false))
  {
    assert NumberUtils.FloatSplitAt(digits, |digits|) by {
      assert digits[..|digits|] == digits;
    }
    KeepDigitsOfDigits(digits);
  }

  /** Eleven raw digits in the `cpf` field come out as ddd.ddd.ddd-dd. */
  lemma MaskedCpfEntry(digits: string, fill: bool)
    requires AllDigits(digits) && |digits| == 11
    ensures var r := MaskedEntry("cpf", Str(digits), fill);
      r.Str? && MatchesShape(r.s, CpfMask) && RemoveMask(r.s) == digits
  {
    MaskedDigitsEntry(digits, "cpf", fill);
    PlainFieldValue(digits, "cpf");
    MaskWithMask(digits, CpfMask);
    CpfMaskShape(digits);
  }

  /** An already masked CPF is neither float-like nor a CNPJ, so `maskFields`
      does not strip it: it masks the masked text again. */
  lemma MaskedCpfIsMaskedAgain(s: string, fill: bool)
    requires MatchesShape(s, CpfMask)
    ensures MaskedEntry("cpf", Str(s), fill) == Str(Masked(s, CpfMask))
  {
    NotFloatLikeOrCnpj(s);
    MaskedEntryOfString("cpf", s, fill);
    PlainFieldValue(s, "cpf");
    assert MaskMap["cpf"] == CpfMask;
    MaskWithMask(s, CpfMask);
  }

  /** Masking a formatted CPF again fills the digit slots with its first eleven
      characters, the dot after the third digit among them. */
  lemma RemaskedCpfSlots(s: string)
    requires MatchesShape(s, CpfMask)
    ensures SlotChars(Masked(s, CpfMask), CpfMask) == s[..11] && s[..11][3] == '.'
  {
    CpfMaskSlots();
    MaskedConsumes(s, CpfMask);
  }

  lemma MaskedEntryOfString(fieldName: string, s: string, fill: bool)
    requires fieldName in MaskMap
    ensures MaskedEntry(fieldName, Str(s), fill) == Str(FieldMasked(
      if NumberUtils.IsAFloatNumber(s) || FormUtils.IsACnpj(s) then RemoveMask(s) else s, fieldName, None, None, false))
  {
  }

  lemma NotFloatLikeOrCnpj(s: string)
    requires MatchesShape(s, CpfMask)
    ensures !NumberUtils.IsAFloatNumber(s) && !FormUtils.IsACnpj(s)
  {
    assert s[3] == '.' && IsDigit(s[0]) && IsDigit(s[1]) && IsDigit(s[2]);
    forall p | 1 <= p <= |s| ensures !NumberUtils.FloatSplitAt(s, p) {
      if p > 3 {
        assert s[..p][3] == '.';
      }
    }
  }

  /** `maskFields`: every field of the record is rewritten in place by
      `MaskedEntry`; each new value depends only on that field's old value, so
      the order of the `for ... in` walk does not matter. */
  method MaskFields(data: JsObject, fillUndefinedOrNullWithString: bool)
    requires forall name :: name in data.props && name in MaskMap ==> Maskable(data.props[name])
    modifies data
    ensures data.props.Keys == old(data.props.Keys)
    ensures forall name :: name in data.props ==>
      data.props[name] == MaskedEntry(name, old(data.props[name]), fillUndefinedOrNullWithString)
  {
    ghost var original := data.props;
    var todo := data.props.Keys;
    while todo != {}
      invariant data.props.Keys == original.Keys && todo <= original.Keys
      invariant forall name :: name in todo ==> data.props[name] == original[name]
      invariant forall name :: name in original && name !in todo ==>
        data.props[name] == MaskedEntry(name, original[name], fillUndefinedOrNullWithString)
      decreases todo
    {
      var name :| name in todo;
      data.props := data.props[name := MaskedEntry(name, data.props[name], fillUndefinedOrNullWithString)];
      todo := todo - {name};
    }
  }
}
