/** Sequences of `Set` calls on one store, compared with a reference
    description that never builds a table: which write to a key came last,
    and which keys were written at all. */
module History {
  import opened Wrappers
  import opened DotNet
  import opened Store

  /** One call `Set(key, value)`. */
  datatype Write = Write(key: string, value: Value)

  /** The state after performing the writes of `h` on `s`, in order. */
  function Replay(s: Settings, h: seq<Write>): Settings
    decreases |h|
  {
    if |h| == 0 then s else Replay(Set(s, h[0].key, h[0].value), h[1..])
  }

  /** `i` is the position of the last write to `key` in `h`. */
  ghost predicate IsLastWrite(h: seq<Write>, key: string, i: int)
  {
    && 0 <= i < |h|
    && h[i].key == key
    && forall j :: i < j < |h| ==> h[j].key != key
  }

  /** `key` is not written anywhere in `h`. */
  ghost predicate Untouched(h: seq<Write>, key: string)
  {
    forall j :: 0 <= j < |h| ==> h[j].key != key
  }

  /** No key is written twice in `h`. */
  ghost predicate DistinctKeys(h: seq<Write>)
  {
    forall i, j :: 0 <= i < j < |h| ==> h[i].key != h[j].key
  }

  /** The keys written by `h`. */
  ghost function KeysOf(h: seq<Write>): set<string>
  {
    set i | 0 <= i < |h| :: h[i].key
  }

  /** After a sequence of writes, a key reads as its last written value, or as
      it read before when the sequence never wrote it. */
  lemma {:induction false} ReplayReadsLastWrite(s: Settings, h: seq<Write>, key: string)
    ensures Untouched(h, key) ==> Get(Replay(s, h), key) == Get(s, key)
    ensures forall i :: IsLastWrite(h, key, i) ==> Get(Replay(s, h), key) == h[i].value
    decreases |h|
  {
    if |h| > 0 {
      var s' := Set(s, h[0].key, h[0].value);
      var t := h[1..];
      ReplayReadsLastWrite(s', t, key);
      assert Replay(s, h) == Replay(s', t);
      if Untouched(h, key) {
        assert Untouched(t, key) by {
          forall j | 0 <= j < |t| ensures t[j].key != key {
            assert t[j] == h[j + 1];
          }
        }
      }
      forall i | IsLastWrite(h, key, i)
        ensures Get(Replay(s, h), key) == h[i].value
      {
        if i == 0 {
          assert Untouched(t, key) by {
            forall j | 0 <= j < |t| ensures t[j].key != key {
              assert t[j] == h[j + 1];
            }
          }
        } else {
          assert IsLastWrite(t, key, i - 1) by {
            forall j | i - 1 < j < |t| ensures t[j].key != key {
              assert t[j] == h[j + 1];
            }
          }
        }
      }
    }
  }

  /** A fresh store that then receives the writes of `h` answers every key
      with its last written value, and `null` for a key never written. */
  lemma FreshStoreReadsLastWrite(h: seq<Write>, key: string)
    ensures Untouched(h, key) ==> Get(Replay(Empty(), h), key) == None
    ensures forall i :: IsLastWrite(h, key, i) ==> Get(Replay(Empty(), h), key) == h[i].value
  {
    ReplayReadsLastWrite(Empty(), h, key);
  }

  /** The keys of a non-empty sequence of writes: its first key and the keys
      of the rest. */
  lemma KeysOfFirstAndRest(h: seq<Write>)
    requires |h| > 0
    ensures KeysOf(h) == {h[0].key} + KeysOf(h[1..])
  {
  }

  /** Replaying writes adds exactly the written keys to the key set. */
  lemma {:induction false} ReplayKeys(h: seq<Write>, start: Settings)
    ensures Replay(start, h).table.Keys == start.table.Keys + KeysOf(h)
  {
    if |h| > 0 {
      var next := Set(start, h[0].key, h[0].value);
      ReplayKeys(h[1..], next);
      KeysOfFirstAndRest(h);
      assert next.table.Keys == start.table.Keys + {h[0].key};
    }
  }

  /** After any sequence of writes on a fresh store, the table holds one entry
      per distinct key used. */
  lemma FreshStoreSize(h: seq<Write>)
    ensures Replay(Empty(), h).table.Keys == KeysOf(h)
    ensures |Replay(Empty(), h).table| == |KeysOf(h)|
  {
    ReplayKeys(h, Empty());
    assert Replay(Empty(), h).table.Keys == KeysOf(h);
  }

  /** With pairwise distinct keys, the number of keys written equals the
      number of writes. */
  lemma {:induction false} DistinctKeysCount(h: seq<Write>)
    requires DistinctKeys(h)
    ensures |KeysOf(h)| == |h|
    decreases |h|
  {
    if |h| > 0 {
      var t := h[1..];
      DistinctKeysCount(t);
      KeysOfFirstAndRest(h);
      assert h[0].key !in KeysOf(t) by {
        forall i | 0 <= i < |t| ensures t[i].key != h[0].key {
          assert t[i] == h[i + 1];
        }
      }
    }
  }

  /** `n` writes with pairwise distinct keys on a fresh store leave `n`
      entries. */
  lemma DistinctWritesSize(h: seq<Write>)
    requires DistinctKeys(h)
    ensures |Replay(Empty(), h).table| == |h|
  {
    FreshStoreSize(h);
    DistinctKeysCount(h);
  }
}
