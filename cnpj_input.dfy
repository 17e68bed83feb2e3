/** The `useCnpjInput` hook: it keeps the mask the CNPJ input displays and,
    on each change, stores the CNPJ re-masked by `applyMaskToField`. */
module CnpjInput {
  import opened Wrappers
  import opened JsText
  import opened MaskUtils
  import opened HookForm
  import FormUtils

  const CnpjFieldName := "cnpj"

  /** The mask the hook hands to the input for a given number of digits. */
  function DisplayMask(digitCount: nat): string {
    if digitCount > 13 then Cnpj15Mask else CnpjMask
  }

  class CnpjInput {
    var cnpjMask: string

    /** The hook starts with the 15-digit mask. */
    constructor ()
      ensures cnpjMask == Cnpj15Mask
    {
      cnpjMask := Cnpj15Mask;
    }

    /** `handleCnpjChange`: a missing masked value reads as empty; its
        digits are stored in the form masked by `applyMaskToField`, the
        display mask becomes the 15-digit one from 14 digits on, and the
        field is validated. */
    method HandleCnpjChange(maskedValue: Option<string>, form: Form)
      modifies this, form
      ensures var unmaskedCnpj := KeepDigits(maskedValue.GetOr(""));
        && form.values == old(form.values)[CnpjFieldName := FieldMasked(unmaskedCnpj, CnpjFieldName, None, None, false)]
        && cnpjMask == DisplayMask(|unmaskedCnpj|)
      ensures form.triggered == old(form.triggered) + [CnpjFieldName]
    {
      var value := maskedValue.GetOr("");
      var unmaskedCnpj := KeepDigits(value);
      var newCnpjMask := if |unmaskedCnpj| > 13 then Cnpj15Mask else CnpjMask;
      var masked := ApplyMaskToField(unmaskedCnpj, CnpjFieldName, None, None, false);
      form.SetValue(CnpjFieldName, masked);
      cnpjMask := newCnpjMask;
      form.Trigger(CnpjFieldName);
    }
  }

  /** With 14 or more digits the stored CNPJ passes `isACnpj`; at exactly 14
      digits it uses the 14-digit layout while the display mask is already
      the 15-digit one, and from 15 digits on both use the 15-digit layout. */
  lemma StoredCnpj(maskedValue: string)
    requires |KeepDigits(maskedValue)| >= 14
    ensures var digits := KeepDigits(maskedValue);
      var stored := FieldMasked(digits, CnpjFieldName, None, None, false);
      && FormUtils.IsACnpj(stored)
      && DisplayMask(|digits|) == Cnpj15Mask
      && (|digits| == 14 ==> MatchesShape(stored, CnpjMask))
      && (|digits| >= 15 ==> MatchesShape(stored, Cnpj15Mask))
  {
    CnpjFieldMask(KeepDigits(maskedValue));
  }

  /** Below 14 digits the display mask is the 14-digit one. */
  lemma ShortCnpjDisplay(digitCount: nat)
    ensures DisplayMask(digitCount) == CnpjMask <==> digitCount <= 13
  {
    assert CnpjMask != Cnpj15Mask by { assert |CnpjMask| != |Cnpj15Mask|; }
  }
}
