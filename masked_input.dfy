/** The `MaskedInput` component: on each change it strips the typed text to
    its digits, writes them into the mask's slots, shows the result, reports
    both forms to its listener and stores the masked text in the form. */
module MaskedInput {
  import opened Wrappers
  import opened JsText
  import MaskUtils
  import opened HookForm

  /** The component's own `applyMask`: the value unchanged when it or the
      mask is empty, otherwise the same slot-filling pass as `maskUtils`. */
  function LocalMasked(value: string, mask: string): (r: string)
    ensures value == [] ==> r == []
    ensures mask == [] ==> r == value
    ensures value != [] && mask != [] ==> r == MaskUtils.Masked(value, mask)
  {
    if value == [] || mask == [] then value else MaskUtils.Masked(value, mask)
  }

  method ApplyMask(value: string, mask: string) returns (masked: string)
    ensures masked == LocalMasked(value, mask)
  {
    if value == [] || mask == [] {
      return value;
    }
    masked := MaskUtils.ApplyMask(value, mask);
  }

  /** The text shown after typing `inputValue`: its digits in the mask's
      slots, or the typed text itself when there is no mask. */
  function Displayed(inputValue: string, mask: string): string {
    if mask != [] then LocalMasked(KeepDigits(inputValue), mask) else inputValue
  }

  /** Typing over a shown value shows it again: masking is stable once applied,
      for a mask whose literals are not digits and that ends in a slot. */
  lemma DisplayedIsStable(inputValue: string, mask: string)
    requires LiteralsNonDigits(mask) && MaskUtils.EndsInSlot(mask)
    ensures Displayed(Displayed(inputValue, mask), mask) == Displayed(inputValue, mask)
  {
    if mask != [] {
      var digits := KeepDigits(inputValue);
      if digits != [] {
        var shown := MaskUtils.Masked(digits, mask);
        MaskUtils.MaskRoundTrip(digits, mask);
        MaskUtils.MaskedConsumedPrefix(digits, mask);
        MaskUtils.SlotsOfEndsInSlot(mask);
        assert KeepDigits(shown) == digits[..MaskUtils.Consumed(digits, mask)];
      }
    }
  }

  /** What the listener is told of a change. */
  datatype MaskChange = MaskChange(maskedValue: string, valueWithoutMask: string)

  /** An `onChange` listener, as the list of changes it received. */
  class ChangeListener {
    var received: seq<MaskChange>

    constructor ()
      ensures received == []
    {
      received := [];
    }
  }

  class MaskedInput {
    const mask: string
    const name: string
    const maxValue: Option<int>
    const formSubmitted: bool
    const setInputValue: bool
    /** The last text `handleChange` wrote to `e.target`. */
    var elementValue: string

    /** The props, with `setInputValue` defaulting to true. */
    constructor (mask: string, name: string, maxValue: Option<int>, formSubmitted: bool, setInputValue: Option<bool>)
      ensures this.mask == mask && this.name == name && this.maxValue == maxValue
      ensures this.formSubmitted == formSubmitted && this.setInputValue == setInputValue.GetOr(true)
      ensures elementValue == []
    {
      this.mask := mask;
      this.name := name;
      this.maxValue := maxValue;
      this.formSubmitted := formSubmitted;
      this.setInputValue := setInputValue.GetOr(true);
      elementValue := [];
    }

    /** Whether the change is refused by the maximum: a non-zero maximum
        below the number the masked text reads as. */
    predicate Clamps(aboveMaxValue: bool) {
      maxValue.Some? && maxValue.value != 0 && aboveMaxValue
    }

    /** `handleChange`. `aboveMaxValue` says whether `parseFloat` of the
        masked text exceeds the maximum. Above the maximum, only the masked
        maximum is stored. Otherwise the masked text is shown, reported with
        the bare digits, and stored unless the input was told not to; it is
        validated again once the form has been submitted. */
    method HandleChange(inputValue: string, aboveMaxValue: bool, form: Form, onChange: Option<ChangeListener>)
      modifies this, form, if onChange.Some? then {onChange.value} else {}
      ensures Clamps(aboveMaxValue) ==>
        && form.values == old(form.values)[name := LocalMasked(IntToString(maxValue.value), mask)]
        && form.triggered == old(form.triggered) && elementValue == old(elementValue)
        && (onChange.Some? ==> onChange.value.received == old(onChange.value.received))
      ensures !Clamps(aboveMaxValue) ==>
        && elementValue == Displayed(inputValue, mask)
        && (onChange.Some? ==>
              onChange.value.received ==
              old(onChange.value.received) + [MaskChange(Displayed(inputValue, mask), KeepDigits(inputValue))])
        && form.values == (if setInputValue then old(form.values)[name := Displayed(inputValue, mask)] else old(form.values))
        && form.triggered == old(form.triggered) + (if setInputValue && formSubmitted then [name] else [])
    {
      var formattedInputValue := KeepDigits(inputValue);
      var maskedValue := inputValue;
      if mask != [] {
        maskedValue := ApplyMask(formattedInputValue, mask);
      }
      if maxValue.Some? && maxValue.value != 0 && aboveMaxValue {
        var clamped := ApplyMask(IntToString(maxValue.value), mask);
        form.SetValue(name, clamped);
        return;
      }
      elementValue := maskedValue;
      if onChange.Some? {
        onChange.value.received := onChange.value.received + [MaskChange(maskedValue, formattedInputValue)];
      }
      if setInputValue {
        form.SetValue(name, maskedValue);
        if formSubmitted {
          form.Trigger(name);
        }
      }
    }
  }
}
