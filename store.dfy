/** The storage engine as its callers in the shell and the server see it.
    `src/kvstore.rs` is not part of this model: a store is only its contents (a
    map from byte strings to byte strings) and its identifier, and every
    operation that the engine may fail (I/O, corruption, a busy lock) picks its
    outcome nondeterministically. A failed operation leaves contents and
    identifier as they were. */
module Store {
  import opened Wrappers
  import opened Bytes

  /** What `get` finds for `key`. */
  function Lookup(m: map<Bytes, Bytes>, key: Bytes): (r: Option<Bytes>)
    ensures r.Some? <==> key in m
    ensures r.Some? ==> r.value == m[key]
  {
    if key in m then Some(m[key]) else None
  }

  class KVStore {
    var data: map<Bytes, Bytes>
    var identifier: string

    constructor Restore(contents: map<Bytes, Bytes>, id: string)
      ensures data == contents && identifier == id
    {
      data := contents;
      identifier := id;
    }

    /** `KVStore::open(path, None)`: a missing file is created empty; an existing
        one comes back with whatever it holds. */
    static method Open(path: string, isNew: bool) returns (r: Result<KVStore>)
      ensures r.Ok? ==> fresh(r.value)
      ensures r.Ok? && isNew ==> r.value.data == map[]
    {
      var fails: bool :| true;
      if fails {
        var msg: string :| true;
        r := Err(msg);
      } else {
        var contents: map<Bytes, Bytes> :| isNew ==> contents == map[];
        var id: string :| true;
        var s := new KVStore.Restore(contents, id);
        r := Ok(s);
      }
    }

    /** `put(key, value)`. */
    method Put(key: Bytes, value: Bytes) returns (r: Outcome)
      modifies this
      ensures identifier == old(identifier)
      ensures data == if r.Pass? then old(data)[key := value] else old(data)
    {
      r :| true;
      if r.Pass? {
        data := data[key := value];
      }
    }

    /** `get(key)`: `Ok(None)` is a miss, not an error. */
    method Get(key: Bytes) returns (r: Result<Option<Bytes>>)
      ensures r.Ok? ==> r.value == Lookup(data, key)
    {
      var fails: bool :| true;
      if fails {
        var msg: string :| true;
        r := Err(msg);
      } else {
        r := Ok(Lookup(data, key));
      }
    }

    /** `delete(key)`. */
    method Delete(key: Bytes) returns (r: Outcome)
      modifies this
      ensures identifier == old(identifier)
      ensures data == if r.Pass? then old(data) - {key} else old(data)
    {
      r :| true;
      if r.Pass? {
        data := data - {key};
      }
    }

    /** `compact()`: rewrites the file; what `get` and `get_identifier`
        observe is the same before and after, whether or not it succeeds. */
    method Compact() returns (r: Outcome)
    {
      r :| true;
    }

    /** `get_identifier()`: infallible. */
    method GetIdentifier() returns (id: string)
      ensures id == identifier
    {
      id := identifier;
    }

    /** `set_identifier(id)`: the new identifier becomes visible only on success. */
    method SetIdentifier(id: string) returns (r: Outcome)
      modifies this
      ensures data == old(data)
      ensures identifier == if r.Pass? then id else old(identifier)
    {
      r :| true;
      if r.Pass? {
        identifier := id;
      }
    }

    /** `close()`: consumes the handle; it may report an error. */
    method Close() returns (r: Outcome)
    {
      r :| true;
    }
  }
}
