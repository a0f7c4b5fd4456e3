/** The settings collaborator of the theme service. Its storage backend is
    not part of this model: the persisted untrusted key/value pairs are an
    immutable map from string keys to string values. */
module Settings {
  import opened Nullable

  type Store = map<string, string>

  /** retrieveUntrustedKeyValuePair: the stored value, or `None` when the key
      has never been stored. */
  function Retrieve(store: Store, key: string): (r: Option<string>)
    ensures r.Some? <==> key in store
    ensures r.Some? ==> r.value == store[key]
  {
    if key in store then Some(store[key]) else None
  }

  /** storeUntrustedKeyValuePair: the store after writing `value` at `key`.
      A later lookup of `key` sees `value`; every other key reads as before. */
  function Put(store: Store, key: string, value: string): (r: Store)
    ensures Retrieve(r, key) == Some(value)
    ensures forall k :: k != key ==> Retrieve(r, k) == Retrieve(store, k)
    ensures r.Keys == store.Keys + {key}
  {
    store[key := value]
  }
}
