/** The predicates and messages behind the zod schemas of `zodUtils`. Each
    regular expression is a shape over characters ('9' for `\d`, every other
    character literal), and a schema's verdict is the list of messages it
    reports: empty when the value is accepted. */
module ZodUtils {
  import opened Wrappers
  import opened JsText
  import MaskUtils
  import FormUtils

  // ---------------------------------------------------------------------------
  // zString
  // ---------------------------------------------------------------------------

  /** The unit word ending a length message: plural above one. */
  function Unit(bound: int): string {
    if bound > 1 then "caracteres." else "caractere."
  }

  /** A length message: the prefix, the relation, the bound and its unit. */
  function LengthMessage(prefix: string, relation: string, bound: int): string {
    prefix + relation + IntToString(bound) + " " + Unit(bound)
  }

  /** The message of `schema.min(min, ...)`. */
  function MinMessage(prefix: string, min: int): string {
    LengthMessage(prefix, " deve ter mais de ", min)
  }

  /** The message of `schema.max(max, ...)`. */
  function MaxMessage(prefix: string, max: int): string {
    LengthMessage(prefix, " deve ter no máximo ", max)
  }

  /** A length message starts with the prefix and ends in its unit word, and
      that word is the plural one, ending in "s.", exactly when the bound is
      above one: the singular "caractere." is used for bounds up to one. */
  lemma LengthMessageNumber(prefix: string, relation: string, bound: int)
    ensures StartsWith(LengthMessage(prefix, relation, bound), prefix)
    ensures EndsWith(LengthMessage(prefix, relation, bound), Unit(bound))
    ensures bound > 1 <==> EndsWith(LengthMessage(prefix, relation, bound), "s.")
  {
    UnitMessageNumber(LengthMessage(prefix, relation, bound), prefix, relation, IntToString(bound), bound);
  }

  /** The same for a message with any number text. */
  lemma UnitMessageNumber(m: string, prefix: string, relation: string, number: string, bound: int)
    requires m == prefix + relation + number + " " + Unit(bound)
    ensures StartsWith(m, prefix)
    ensures EndsWith(m, Unit(bound))
    ensures bound > 1 <==> EndsWith(m, "s.")
  {
    var rest := relation + number + " ";
    assert m == prefix + (rest + Unit(bound));
    PrefixOfAppend(prefix, rest + Unit(bound));
    assert m == (prefix + rest) + Unit(bound);
    EndsWithAppend(prefix + rest, Unit(bound));
    UnitNumber(m, bound);
  }

  lemma PrefixOfAppend(a: string, b: string)
    ensures StartsWith(a + b, a)
  {
    assert (a + b)[..|a|] == a;
  }

  /** A text ending in `Unit(bound)` ends in "s." iff the bound is above one. */
  lemma UnitNumber(m: string, bound: int)
    requires EndsWith(m, Unit(bound))
    ensures bound > 1 <==> EndsWith(m, "s.")
  {
    var unit := Unit(bound);
    assert unit[|unit| - 2] == (if bound > 1 then 's' else 'e') && unit[|unit| - 1] == '.';
    if bound > 1 {
      assert unit[|unit| - 2..] == "s.";
      EndsWithTwo(m, unit);
    } else if EndsWith(m, "s.") {
      EndsWithBoth(m, unit, "s.");
    }
  }

  lemma EndsWithTwo(s: string, t: string)
    requires EndsWith(s, t) && |t| >= 2
    ensures EndsWith(s, t[|t| - 2..])
  {
    assert s[|s| - 2..] == t[|t| - 2..];
  }

  /** The messages `zString({min, max, prefix})` reports for `value`: the
      minimum check first, then the maximum check; zod runs both. */
  function StringIssues(value: string, min: Option<int>, max: Option<int>, prefix: string): (issues: seq<string>)
    ensures issues == [] <==> (min.None? || |value| >= min.value) && (max.None? || |value| <= max.value)
    ensures |issues| <= 2
    ensures min.Some? && |value| < min.value ==> issues[0] == MinMessage(prefix, min.value)
    ensures max.Some? && |value| > max.value ==> issues[|issues| - 1] == MaxMessage(prefix, max.value)
  {
    (if min.Some? && |value| < min.value then [MinMessage(prefix, min.value)] else [])
    + (if max.Some? && |value| > max.value then [MaxMessage(prefix, max.value)] else [])
  }

  // ---------------------------------------------------------------------------
  // The schemas
  // ---------------------------------------------------------------------------

  /** The patterns of the regular expressions, as shapes. */
  const CpfPattern := "999.999.999-99"
  const CepPattern := "99999-999"
  const FixedPhonePattern := "(99) 9999-9999"
  const CellPhonePattern := "(99) 99999-9999"
  const Cnpj14Pattern := "99.999.999/9999-99"
  const Cnpj15Pattern := "999.999.999/9999-99"

  const CnpjMessage := "CNPJ inválido."
  const CpfMessage := "CPF inválido."
  const CepMessage := "CEP inválido."
  const UfMessage := "A UF deve ter 2 caracteres."
  const FixedPhoneMessage := "Formato inválido para telefone fixo."
  const CellPhoneMessage := "Formato inválido para celular."

  /** The string schemas of `zodUtils`, with the options of `zString`. */
  datatype Schema =
    | ZString(min: Option<int>, max: Option<int>, prefix: string)
    | ZCnpj
    | ZCpf
    | ZCep
    | ZUf
    | ZFixedPhoneNumber
    | ZOptionalCellPhoneNumber

  /** The refinement or regular expression of each schema. */
  predicate Accepts(schema: Schema, value: string) {
    match schema
    case ZString(min, max, _) => (min.None? || |value| >= min.value) && (max.None? || |value| <= max.value)
    case ZCnpj =>
      var digits := KeepDigits(value);
      || (|digits| == 14 && MatchesShape(value, Cnpj14Pattern))
      || (|digits| == 15 && MatchesShape(value, Cnpj15Pattern))
    case ZCpf => MatchesShape(value, CpfPattern)
    case ZCep => MatchesShape(value, CepPattern)
    case ZUf => 2 <= |value| <= 2
    case ZFixedPhoneNumber => MatchesShape(value, FixedPhonePattern)
    case ZOptionalCellPhoneNumber => Trim(KeepDigits(value)) == [] || MatchesShape(value, CellPhonePattern)
  }

  /** The messages a schema reports for `value`. */
  function Issues(schema: Schema, value: string): (issues: seq<string>)
    ensures issues == [] <==> Accepts(schema, value)
    ensures !schema.ZString? && !Accepts(schema, value) ==> |issues| == 1
  {
    match schema
    case ZString(min, max, prefix) => StringIssues(value, min, max, prefix)
    case ZCnpj => if Accepts(schema, value) then [] else [CnpjMessage]
    case ZCpf => if Accepts(schema, value) then [] else [CpfMessage]
    case ZCep => if Accepts(schema, value) then [] else [CepMessage]
    case ZUf => if |value| < 2 || |value| > 2 then [UfMessage] else []
    case ZFixedPhoneNumber => if Accepts(schema, value) then [] else [FixedPhoneMessage]
    case ZOptionalCellPhoneNumber => if Accepts(schema, value) then [] else [CellPhoneMessage]
  }

  /** The patterns are the masks `maskUtils` writes, and each ends in a slot. */
  lemma PatternsAreMasks()
    ensures CpfPattern == MaskUtils.CpfMask && CepPattern == MaskUtils.CepMask
    ensures FixedPhonePattern == MaskUtils.FixedPhoneMask && CellPhonePattern == MaskUtils.CellPhoneMask
    ensures Cnpj14Pattern == MaskUtils.CnpjMask && Cnpj15Pattern == MaskUtils.Cnpj15Mask
    ensures Cnpj14Pattern == FormUtils.CnpjShape && Cnpj15Pattern == FormUtils.Cnpj15Shape
    ensures MaskUtils.EndsInSlot(CpfPattern) && MaskUtils.EndsInSlot(CepPattern)
    ensures MaskUtils.EndsInSlot(FixedPhonePattern) && MaskUtils.EndsInSlot(CellPhonePattern)
    ensures MaskUtils.EndsInSlot(Cnpj14Pattern) && MaskUtils.EndsInSlot(Cnpj15Pattern)
  {
  }

  /** `zCpf` accepts exactly what `applyMask` makes of eleven digits with the CPF mask. */
  lemma CpfAcceptsMaskImages(value: string)
    ensures Accepts(ZCpf, value) <==>
      exists digits :: AllDigits(digits) && |digits| == 11 && value == MaskUtils.Masked(digits, MaskUtils.CpfMask)
  {
    PatternsAreMasks();
    MaskUtils.MaskLiterals();
    MaskUtils.CpfMaskSlots();
    MaskUtils.MatchesShapeIffMaskImage(value, MaskUtils.CpfMask);
  }

  /** `zCep` accepts exactly the CEP mask over eight digits. */
  lemma CepAcceptsMaskImages(value: string)
    ensures Accepts(ZCep, value) <==>
      exists digits :: AllDigits(digits) && |digits| == 8 && value == MaskUtils.Masked(digits, MaskUtils.CepMask)
  {
    PatternsAreMasks();
    MaskUtils.MaskLiterals();
    MaskUtils.CepMaskSlots();
    MaskUtils.MatchesShapeIffMaskImage(value, MaskUtils.CepMask);
  }

  /** `zFixedPhoneNumber` accepts exactly the fixed-phone mask over ten digits. */
  lemma FixedPhoneAcceptsMaskImages(value: string)
    ensures Accepts(ZFixedPhoneNumber, value) <==>
      exists digits :: AllDigits(digits) && |digits| == 10 && value == MaskUtils.Masked(digits, MaskUtils.FixedPhoneMask)
  {
    PatternsAreMasks();
    MaskUtils.MaskLiterals();
    MaskUtils.FixedPhoneMaskSlots();
    MaskUtils.MatchesShapeIffMaskImage(value, MaskUtils.FixedPhoneMask);
  }

  /** `zOptionalCellPhoneNumber` accepts any text without digits, and
      otherwise exactly the cell-phone mask over eleven digits. */
  lemma CellPhoneAcceptsMaskImages(value: string)
    ensures Accepts(ZOptionalCellPhoneNumber, value) <==>
      || NoDigits(value)
      || exists digits :: AllDigits(digits) && |digits| == 11 && value == MaskUtils.Masked(digits, MaskUtils.CellPhoneMask)
  {
    PatternsAreMasks();
    MaskUtils.MaskLiterals();
    MaskUtils.CellPhoneMaskSlots();
    MaskUtils.MatchesShapeIffMaskImage(value, MaskUtils.CellPhoneMask);
    DigitsTrimEmptyIff(value);
  }

  /** The digits of a text trim to nothing exactly when there are none. */
  lemma DigitsTrimEmptyIff(value: string)
    ensures Trim(KeepDigits(value)) == [] <==> NoDigits(value)
  {
    var digits := KeepDigits(value);
    TrimEmptyIff(digits);
    KeepDigitsEmptyIff(value);
    if digits != [] {
      DigitIsNotWhiteSpace(digits[0]);
    }
  }

  /** `zCnpj` and `isACnpj` accept the same strings, all of length 18 or 19. */
  lemma CnpjAcceptsIsACnpj(value: string)
    ensures Accepts(ZCnpj, value) <==> FormUtils.IsACnpj(value)
    ensures Accepts(ZCnpj, value) ==> |value| == 18 || |value| == 19
  {
    PatternsAreMasks();
    FormUtils.CnpjShapeLiterals();
    FormUtils.CnpjShapeSlots();
    FormUtils.Cnpj15ShapeSlots();
    if MatchesShape(value, Cnpj14Pattern) {
      MatchedDigits(value, Cnpj14Pattern);
    }
    if MatchesShape(value, Cnpj15Pattern) {
      MatchedDigits(value, Cnpj15Pattern);
    }
  }

  /** `zCnpj` accepts exactly the CNPJ masks filled with 14 or 15 digits. */
  lemma CnpjAcceptsMaskImages(value: string)
    ensures Accepts(ZCnpj, value) <==>
      || (exists digits :: AllDigits(digits) && |digits| == 14 && value == MaskUtils.Masked(digits, MaskUtils.CnpjMask))
      || (exists digits :: AllDigits(digits) && |digits| == 15 && value == MaskUtils.Masked(digits, MaskUtils.Cnpj15Mask))
  {
    CnpjAcceptsIsACnpj(value);
    PatternsAreMasks();
    MaskUtils.MaskLiterals();
    MaskUtils.CnpjMaskSlots();
    MaskUtils.MatchesShapeIffMaskImage(value, MaskUtils.CnpjMask);
    MaskUtils.MatchesShapeIffMaskImage(value, MaskUtils.Cnpj15Mask);
  }

  /** `zUf` accepts exactly the strings of two characters, with one message otherwise. */
  lemma UfAcceptsTwo(value: string)
    ensures Issues(ZUf, value) == [] <==> |value| == 2
    ensures |value| != 2 ==> Issues(ZUf, value) == [UfMessage]
  {
  }
}
