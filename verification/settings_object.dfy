/** The store as the mutable C# object it is: one `Settings` instance whose
    table changes in place. Each method is specified by the functional
    operation of the same name in `Store`. */
module SettingsObject {
  import opened Wrappers
  import opened DotNet
  import Store

  class Settings {
    var state: Store.Settings

    /** The field initialiser alone: an empty table. */
    constructor Initialised()
      ensures state == Store.Empty()
    {
      state := Store.Empty();
    }

    /** `new Settings()`: fails as `Store.Construct` fails, and otherwise
        yields a new object with an empty table. */
    static method Create(loaded: Store.Deserialized, debugBuild: bool) returns (r: Result<Settings, Exception>)
      ensures r.Success? <==> Store.Construct(loaded, debugBuild).Success?
      ensures r.Failure? ==> r.error == Store.Construct(loaded, debugBuild).error
      ensures r.Success? ==> fresh(r.value) && |r.value.state.table| == 0
    {
      var outcome := Store.Construct(loaded, debugBuild);
      if outcome.Failure? {
        return Failure(outcome.error);
      }
      var o := new Settings.Initialised();
      return Success(o);
    }

    /** `Set(key, value)`: the only method that changes the object. */
    method Set(key: string, value: Value)
      modifies this
      ensures state == Store.Set(old(state), key, value)
    {
      state := Store.Set(state, key, value);
    }

    /** `Get(key)`: a read with no `modifies` clause, so the object is left
        as it was and a repeated call gives the same answer. */
    method Get(key: string) returns (r: Value)
      ensures r == Store.Get(state, key)
      ensures r.Some? ==> key in state.table && state.table[key] == r
    {
      r := None;
      if key in state.table {
        r := state.table[key];
      }
    }
  }
}
