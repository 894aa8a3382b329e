# JSonParser settings store, modelled in Dafny

`JSonParser.Settings` is a small in-memory settings store. It keeps a private
`Dictionary<string, string>` named `_settings` and offers two operations.
`Set(key, value)` inserts a pair, or overwrites the value when the key is
already present. `Get(key)` returns the stored value, or `null` when the key
is absent. The constructor asks Json.NET to deserialize an array of
dictionaries and prints one field of it in debug builds. It never writes to
`_settings`, so every new store starts with an empty table.

The model is functional. A store is an immutable value (`Store.Settings`), and
`Set` returns the next state. A thin class (`SettingsObject.Settings`) wraps
that value again as the mutable object of the C# code. The files are:

- `wrappers.dfy` (`Wrappers`): `Option`, where `None` is a C# `null`, and
  `Result`, where `Failure` is a thrown exception.
- `dotnet.dfy` (`DotNet`): the .NET behaviour the store relies on.
  - A nullable string value, and a dictionary modelled as a `map`.
  - The exceptions the code can raise.
  - `Dictionary.Add`, which throws on a duplicate key.
  - The indexer assignment, which inserts or overwrites.
  - The indexer read, which throws on an absent key.
- `store.dfy` (`Store`):
  - The store's state and its empty initial table.
  - The constructor, with the deserializer's outcome as a parameter.
  - `Set`, both exactly as written (`TrySet`) and as a total function (`Set`).
  - `Get`.
  - Lemmas about single calls and pairs of calls.
- `history.dfy` (`History`): sequences of `Set` calls, checked against a
  reference that never builds a table.
  - Which write to a key came last.
  - Which keys were written at all.
  - The proofs that every key reads as its last write and that the table size
    equals the number of distinct keys used.
- `settings_object.dfy` (`SettingsObject`): the mutable class, each method
  specified by its functional counterpart.

The model follows the code on three points where a reader might expect otherwise:

- The loaded records never reach the live table, so a constructed store is
  always empty. The model has no "populate from source" option.
- The diagnostic line reads `contacts[1]`, which is the second record, not the
  first.
- `Debug.WriteLine` is conditional on the `DEBUG` symbol. Its argument is only
  evaluated, and can only throw, when that symbol is defined. `Construct`
  therefore takes a `debugBuild` flag.

One observation, not proved: the constructor passes a file-path literal to
`JsonConvert.DeserializeObject`. That method expects JSON text, not a path. A
text that starts with `G:` is not valid JSON, so the call would evidently throw
on every construction. The intended call was probably a file read followed by
deserialization. The model cannot show this, because it does not contain
Json.NET's parser. Instead, `Construct` covers every outcome the deserializer
could have, the throwing one included (`Unparsable`).

## Model

| member | source | states |
|---|---|---|
| DotNet.Add | JSonParser/Settings.cs:26 | `Add` fails with `ArgumentException` exactly when the key is already present. Otherwise it adds exactly that key: the size grows by one, the new key holds the value, and every old entry keeps its value. |
| DotNet.Put | JSonParser/Settings.cs:22 | The indexer assignment never fails. Afterwards the key holds the value, the key set is the old one plus the key, and all other entries are unchanged. |
| DotNet.At | JSonParser/Settings.cs:36 | The indexer read succeeds exactly when the key is present, and then returns the stored value. Otherwise it fails with `KeyNotFoundException`. |
| Store.Empty | JSonParser/Settings.cs:9 | The table made by the field initialiser has no entries, and `Get` returns `null` for every key. |
| SettingsObject.Settings.Initialised | JSonParser/Settings.cs:9 | The object's field initialiser leaves its state equal to `Store.Empty()`, the empty table. |
| Store.TraceArgument | JSonParser/Settings.cs:15 | Evaluating `contacts[1]["name"]` succeeds exactly when the array is non-null, has at least two elements, its second element is non-null and holds `"name"`. On success it returns that value. A null array or a null second element gives `NullReferenceException`. A short array gives `IndexOutOfRangeException`. A second element without `"name"` gives `KeyNotFoundException`. |
| Store.Construct | JSonParser/Settings.cs:11-16 | Construction succeeds exactly when deserialization did not throw and, in a debug build, the diagnostic expression can be evaluated. A deserializer failure surfaces as `JsonException`. Any other failure happens only in a debug build, and it is the exception that evaluating `contacts[1]["name"]` raises. Every constructed store has an empty table and answers `null` for every key, whatever was loaded. |
| Store.TrySet | JSonParser/Settings.cs:18-28 | The branch on `ContainsKey` never throws, because `Add` is only reached for a fresh key. Both branches leave the table updated at exactly that key. |
| Store.Set | JSonParser/Settings.cs:18-28 | After `Set(k, v)`, `Get(k)` returns `v`, and every other key reads as before. The key set is the old one plus `k`. The size grows by one exactly when `k` was new. |
| Store.Get | JSonParser/Settings.cs:30-40 | An absent key gives `null`. A present key gives its stored value. A non-null answer implies that the key is present. |
| Store.ReadAfterWrite | JSonParser/Settings.cs:18-40 | Reading a key right after writing it returns the written value, whether or not the key existed before. |
| Store.LastWriteWins | JSonParser/Settings.cs:20-23 | Two writes to one key leave the second value. The result equals a single write of the second value. |
| Store.WriteFrame | JSonParser/Settings.cs:18-28 | A write to one key changes neither the presence nor the value of any other key. |
| Store.WritesToDistinctKeysCommute | JSonParser/Settings.cs:18-28 | Writes to two different keys give the same store in either order. |
| Store.GetNullIff | JSonParser/Settings.cs:32-39 | `Get` returns `null` exactly when the key is absent or holds `null`. Storing `null` under a key the store does not hold leaves every `Get` answer, for every key, as it was before the write. |
| Store.HostPortSession | JSonParser/Settings.cs:18-40 | Start empty, then set host=localhost, port=8080 and port=9090. Afterwards port reads 9090, host reads localhost, timeout reads `null`, and the table has two entries. |
| History.ReplayReadsLastWrite | JSonParser/Settings.cs:18-40 | After any sequence of `Set` calls, a key reads as the value of its last write in that sequence. A key the sequence never wrote reads as it did before the sequence. |
| History.FreshStoreReadsLastWrite | JSonParser/Settings.cs:9-40 | On a new store followed by any sequence of `Set` calls, a key reads as its last written value, or `null` if it was never written. |
| History.ReplayKeys | JSonParser/Settings.cs:20-27 | A sequence of `Set` calls adds exactly the keys it writes to the key set and removes none. |
| History.FreshStoreSize | JSonParser/Settings.cs:9-27 | On a new store, the keys after any sequence of `Set` calls are exactly the keys used, so the size equals the number of distinct keys. |
| History.DistinctWritesSize | JSonParser/Settings.cs:9-27 | On a new store, `n` calls to `Set` with pairwise distinct keys leave exactly `n` entries. |
| SettingsObject.Settings.Create | JSonParser/Settings.cs:11-16 | `new Settings()` fails exactly when `Construct` fails, with the same exception. Otherwise it yields a new object with an empty table. |
| SettingsObject.Settings.Set | JSonParser/Settings.cs:18-28 | The method changes the object's state exactly as the functional `Set` does. |
| SettingsObject.Settings.Get | JSonParser/Settings.cs:30-40 | The method returns the functional `Get` of the current state and modifies nothing. A non-null answer is the stored value of a present key. |

## Left out

- The call to `JsonConvert.DeserializeObject` is foreign library code. Its outcome is the `loaded` parameter of `Construct`: it threw, it returned a null array, or it returned an array of possibly-null dictionaries. The literal path it is given is not modelled.
- The output of `Debug.WriteLine` is diagnostic only. The model keeps only the evaluation of its argument, which can throw, and drops the write to the trace channel.
- Hashing, buckets and capacity of `Dictionary` are not modelled. The table is an abstract `map`.
- A `null` key is excluded by the key type, since a Dafny `string` is never null. In C#, `ContainsKey(null)` would throw `ArgumentNullException`.
- Concurrency is not modelled, because the source has none.
- Strings containing a lone UTF-16 surrogate are not modelled. A Dafny `string` holds Unicode scalar values, so such a C# key or value cannot be written down. Key comparison is ordinal on both sides, so every other string behaves the same.
