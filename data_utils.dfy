/** `filterDifferentValues` of `dataUtils`: the fields of a form record that
    differ from their initial values, as sent in an update request. */
module DataUtils {
  import opened JsValue

  /** Whether `filterDifferentValues` keeps `key`: its value reads differently
      from the initial one under `String()` and is truthy. A key missing from
      `initialData` compares against `String(undefined)`. */
  predicate Kept(data: map<string, Value>, initialData: map<string, Value>, key: string)
    requires key in data
  {
    ToString(data[key]) != ToString(Get(initialData, key)) && Truthy(data[key])
  }

  /** The record `filterDifferentValues` builds. */
  function DifferentValues(data: map<string, Value>, initialData: map<string, Value>): (r: map<string, Value>)
    ensures r.Keys <= data.Keys
    ensures forall key :: key in r ==> r[key] == data[key] && Truthy(r[key])
  {
    map key | key in data && Kept(data, initialData, key) :: data[key]
  }

  /** `filterDifferentValues({data, initialData})`: a `for ... in` walk over
      the keys of `data`, copying each kept value. */
  method FilterDifferentValues(data: map<string, Value>, initialData: map<string, Value>)
    returns (validData: map<string, Value>)
    ensures validData == DifferentValues(data, initialData)
  {
    validData := map[];
    var keys := data.Keys;
    while keys != {}
      invariant keys <= data.Keys
      invariant validData == map key | key in data.Keys - keys && Kept(data, initialData, key) :: data[key]
      decreases keys
    {
      var key :| key in keys;
      if ToString(data[key]) != ToString(Get(initialData, key)) && Truthy(data[key]) {
        validData := validData[key := data[key]];
      }
      keys := keys - {key};
    }
  }

  /** A truthy value that reads differently from its initial value is kept;
      a value equal to its initial one, or falsy, is not. Filtering a record
      against itself keeps nothing, and filtering the result again against
      the same initial values keeps all of it. */
  lemma DifferentValuesLaws(data: map<string, Value>, initialData: map<string, Value>)
    ensures forall key :: key in data && Truthy(data[key]) && ToString(data[key]) != ToString(Get(initialData, key)) ==>
      key in DifferentValues(data, initialData)
    ensures forall key :: key in data && key in initialData && data[key] == initialData[key] ==>
      key !in DifferentValues(data, initialData)
    ensures forall key :: key in data && !Truthy(data[key]) ==> key !in DifferentValues(data, initialData)
    ensures DifferentValues(data, data) == map[]
    ensures DifferentValues(DifferentValues(data, initialData), initialData) == DifferentValues(data, initialData)
  {
    var once := DifferentValues(data, initialData);
    var twice := DifferentValues(once, initialData);
    assert twice.Keys == once.Keys;
    var same := DifferentValues(data, data);
    assert same.Keys == {};
  }
}
