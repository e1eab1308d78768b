/** The in-memory key/value store of host/src/firmware/storage/flash.ts:
    a finite map from string keys to string values. */
module Flash {
  import opened Wrappers

  datatype FlashStore = FlashStore(data: map<string, string>)

  /** A store with no keys. */
  function Empty(): (st: FlashStore)
    ensures forall key :: Read(st, key) == None
  {
    FlashStore(map[])
  }

  /** The value stored under `key`, or `None` when the key is absent. */
  function Read(st: FlashStore, key: string): (r: Option<string>)
    ensures r.Some? <==> key in st.data
    ensures r.Some? ==> r.value == st.data[key]
  {
    if key in st.data then Some(st.data[key]) else None
  }

  /** Stores `value` under `key`, replacing any earlier value. */
  function Write(st: FlashStore, key: string, value: string): (st': FlashStore)
    ensures Read(st', key) == Some(value)
    ensures forall other :: other != key ==> Read(st', other) == Read(st, other)
    ensures st'.data.Keys == st.data.Keys + {key}
  {
    FlashStore(st.data[key := value])
  }

  /** Of two writes to the same key, the second wins. */
  lemma LastWriteWins(st: FlashStore, key: string, v1: string, v2: string)
    ensures Write(Write(st, key, v1), key, v2) == Write(st, key, v2)
  {
    assert Write(Write(st, key, v1), key, v2).data == Write(st, key, v2).data;
  }

  /** Writes to different keys commute. */
  lemma WritesCommute(st: FlashStore, k1: string, v1: string, k2: string, v2: string)
    requires k1 != k2
    ensures Write(Write(st, k1, v1), k2, v2) == Write(Write(st, k2, v2), k1, v1)
  {
    assert Write(Write(st, k1, v1), k2, v2).data == Write(Write(st, k2, v2), k1, v1).data;
  }
}
