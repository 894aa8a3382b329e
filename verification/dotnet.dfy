/** The parts of the .NET base library that the settings store relies on,
    reduced to their observable behaviour on a `Dictionary<string, string>`:
    hashing and bucket layout are abstracted into a Dafny `map`. */
module DotNet {
  import opened Wrappers

  /** A C# `string` value: `None` is `null`. Keys are never null, so they are
      plain `string`s; values may be null. */
  type Value = Option<string>

  /** A `Dictionary<string, string>`: each key maps to exactly one value. */
  type Table = map<string, Value>

  /** The exceptions that the modelled code can raise. */
  datatype Exception =
    | ArgumentException          // Dictionary.Add with a key already present
    | KeyNotFoundException       // Dictionary indexer read of an absent key
    | NullReferenceException     // member access through a null reference
    | IndexOutOfRangeException   // array index outside the array
    | JsonException              // the deserializer rejected its input text

  /** `Dictionary.Add(key, value)`: inserts a fresh entry, and throws when the
      key is already present instead of overwriting it. */
  function Add(t: Table, key: string, value: Value): (r: Result<Table, Exception>)
    ensures r.Failure? <==> key in t
    ensures r.Failure? ==> r.error == ArgumentException
    ensures r.Success? ==> r.value.Keys == t.Keys + {key} && |r.value| == |t| + 1
    ensures r.Success? ==> r.value[key] == value
    ensures r.Success? ==> forall k :: k in t ==> r.value[k] == t[k]
  {
    if key in t then Failure(ArgumentException) else Success(t[key := value])
  }

  /** The indexer assignment `dict[key] = value`: overwrites an existing entry
      or inserts a new one, and never throws. */
  function Put(t: Table, key: string, value: Value): (r: Table)
    ensures r.Keys == t.Keys + {key}
    ensures r[key] == value
    ensures forall k :: k in t && k != key ==> r[k] == t[k]
  {
    t[key := value]
  }

  /** The indexer read `dict[key]`: the stored value, or a
      `KeyNotFoundException` when the key is absent. */
  function At(t: Table, key: string): (r: Result<Value, Exception>)
    ensures r.Success? <==> key in t
    ensures r.Success? ==> r.value == t[key]
    ensures r.Failure? ==> r.error == KeyNotFoundException
  {
    if key in t then Success(t[key]) else Failure(KeyNotFoundException)
  }
}
