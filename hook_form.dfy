/** The part of a react-hook-form form that the masked inputs drive: the
    field values written through `setValue` and the fields validated
    through `trigger`. */
module HookForm {
  class Form {
    var values: map<string, string>
    var triggered: seq<string>

    constructor (initial: map<string, string>)
      ensures values == initial && triggered == []
    {
      values := initial;
      triggered := [];
    }

    /** `setValue(name, value)`. */
    method SetValue(name: string, value: string)
      modifies this
      ensures values == old(values)[name := value] && triggered == old(triggered)
    {
      values := values[name := value];
    }

    /** `trigger(name)`: asks for the field to be validated. */
    method Trigger(name: string)
      modifies this
      ensures triggered == old(triggered) + [name] && values == old(values)
    {
      triggered := triggered + [name];
    }
  }
}
