/** The settings store of `JSonParser.Settings`, as immutable values: each
    operation that mutates the C# object here returns the next state. */
module Store {
  import opened Wrappers
  import opened DotNet

  /** The state of a `Settings` object: its private `_settings` table. */
  datatype Settings = Settings(table: Table)

  /** What `JsonConvert.DeserializeObject<Dictionary<string, string>[]>`
      hands back to the constructor. The deserializer itself is not modelled;
      its outcome is an input of `Construct`. */
  datatype Deserialized =
    | Unparsable                              // it threw
    | NullArray                               // it returned a null array
    | Records(items: seq<Option<Table>>)      // an array; an element may be null

  /** True when `contacts[1]["name"]` can be evaluated without an exception. */
  ghost predicate NameReadable(contacts: Deserialized)
  {
    && contacts.Records?
    && |contacts.items| >= 2
    && contacts.items[1].Some?
    && "name" in contacts.items[1].value
  }

  /** The field initialiser: a new, empty dictionary. */
  function Empty(): (s: Settings)
    ensures |s.table| == 0
    ensures forall k :: Get(s, k) == None
  {
    Settings(map[])
  }

  /** Evaluates the diagnostic expression `contacts[1]["name"]` step by step:
      the array access through a possibly null array, the element access
      through a possibly null dictionary, then the indexer read. */
  function TraceArgument(contacts: Deserialized): (r: Result<Value, Exception>)
    requires !contacts.Unparsable?
    ensures r.Success? <==> NameReadable(contacts)
    ensures r.Success? ==> r.value == contacts.items[1].value["name"]
    ensures r.Failure? && contacts.NullArray? ==> r.error == NullReferenceException
    ensures r.Failure? && contacts.Records? && |contacts.items| < 2 ==> r.error == IndexOutOfRangeException
    ensures r.Failure? && contacts.Records? && |contacts.items| >= 2 ==>
      r.error == (if contacts.items[1].None? then NullReferenceException else KeyNotFoundException)
  {
    match contacts
    case NullArray => Failure(NullReferenceException)
    case Records(items) =>
      if |items| <= 1 then Failure(IndexOutOfRangeException)
      else match items[1]
        case None => Failure(NullReferenceException)
        case Some(record) => At(record, "name")
  }

  /** The constructor. `loaded` is what the deserializer produced; when it
      threw, construction throws too. `debugBuild` says whether the
      `Debug.WriteLine` call is compiled in: it is conditional on the DEBUG
      symbol, so only then is its argument evaluated and able to throw.
      Whatever was loaded, the live table is the empty one from the field
      initialiser: the constructor never writes to it. */
  function Construct(loaded: Deserialized, debugBuild: bool): (r: Result<Settings, Exception>)
    ensures r.Success? <==> !loaded.Unparsable? && (debugBuild ==> NameReadable(loaded))
    ensures loaded.Unparsable? ==> r == Failure(JsonException)
    ensures r.Failure? && !loaded.Unparsable? ==> debugBuild && r.error == TraceArgument(loaded).error
    ensures r.Success? ==> |r.value.table| == 0
    ensures r.Success? ==> forall k :: Get(r.value, k) == None
  {
    if loaded.Unparsable? then Failure(JsonException)
    else if !debugBuild then Success(Empty())
    else match TraceArgument(loaded)
      case Failure(e) => Failure(e)
      case Success(_) => Success(Empty())
  }

  /** `Set` exactly as written: the `ContainsKey` test picks the indexer
      assignment for a present key and `Add` for an absent one, and an
      exception from either would propagate. It never throws, and both
      branches amount to updating the key in place. */
  function TrySet(s: Settings, key: string, value: Value): (r: Result<Settings, Exception>)
    ensures r.Success?
    ensures r.value.table == s.table[key := value]
  {
    if key in s.table then
      Success(Settings(Put(s.table, key, value)))
    else
      match Add(s.table, key, value)
      case Failure(e) => Failure(e)
      case Success(t) => Success(Settings(t))
  }

  /** `Set(key, value)`: insert or overwrite. Only `key` changes; the key set
      gains `key` and grows by one exactly when `key` was new. */
  function Set(s: Settings, key: string, value: Value): (s': Settings)
    ensures s'.table.Keys == s.table.Keys + {key}
    ensures |s'.table| == if key in s.table then |s.table| else |s.table| + 1
    ensures Get(s', key) == value
    ensures forall k :: k != key ==> Get(s', k) == Get(s, k)
    ensures forall k :: k in s.table && k != key ==> s'.table[k] == s.table[k]
  {
    TrySet(s, key, value).value
  }

  /** `Get(key)`: the stored value when the key is present, `null` otherwise.
      A caller cannot tell an absent key from one that holds `null`. */
  function Get(s: Settings, key: string): (r: Value)
    ensures key !in s.table ==> r == None
    ensures key in s.table ==> r == s.table[key]
    ensures r.Some? ==> key in s.table
  {
    var result := None;
    if key in s.table then At(s.table, key).value else result
  }

  /** Reading a key straight after writing it yields the written value,
      whether or not the key was present before. */
  lemma ReadAfterWrite(s: Settings, key: string, value: Value)
    ensures Get(Set(s, key, value), key) == value
    ensures key in Set(s, key, value).table
  {
  }

  /** Of two writes to the same key, the later one wins, and the result does
      not depend on the earlier value at all. */
  lemma LastWriteWins(s: Settings, key: string, v1: Value, v2: Value)
    ensures Get(Set(Set(s, key, v1), key, v2), key) == v2
    ensures Set(Set(s, key, v1), key, v2) == Set(s, key, v2)
  {
  }

  /** A write leaves every other key exactly as it was: present with the same
      value, or absent. */
  lemma WriteFrame(s: Settings, key: string, value: Value, other: string)
    requires other != key
    ensures other in Set(s, key, value).table <==> other in s.table
    ensures Get(Set(s, key, value), other) == Get(s, other)
  {
  }

  /** Writes to distinct keys commute. */
  lemma WritesToDistinctKeysCommute(s: Settings, k1: string, v1: Value, k2: string, v2: Value)
    requires k1 != k2
    ensures Set(Set(s, k1, v1), k2, v2) == Set(Set(s, k2, v2), k1, v1)
  {
    var t1 := s.table[k1 := v1][k2 := v2];
    var t2 := s.table[k2 := v2][k1 := v1];
    assert t1 == t2 by {
      assert t1.Keys == t2.Keys;
      forall k | k in t1 ensures t1[k] == t2[k] {
        if k == k1 { assert k != k2; } else if k == k2 { } else { }
      }
    }
    assert Set(s, k1, v1).table == s.table[k1 := v1];
    assert Set(s, k2, v2).table == s.table[k2 := v2];
  }

  /** `Get` answers `null` exactly for the absent keys and for the keys that
      hold `null`; storing `null` under a fresh key is invisible to `Get`. */
  lemma GetNullIff(s: Settings, key: string)
    ensures Get(s, key) == None <==> key !in s.table || s.table[key] == None
    ensures key !in s.table ==> forall k :: Get(Set(s, key, None), k) == Get(s, k)
  {
  }

  /** A sample session: two keys written, one of them twice, and a third key
      never written. */
  lemma HostPortSession()
    ensures var s := Set(Set(Set(Empty(), "host", Some("localhost")), "port", Some("8080")), "port", Some("9090"));
      && Get(s, "port") == Some("9090")
      && Get(s, "host") == Some("localhost")
      && Get(s, "timeout") == None
      && |s.table| == 2
  {
  }
}
