/**
 * The embedded Badger key-value engine, as far as the stores use it: one
 * transaction per call, keys in bytewise order, and the errors for a closed
 * database, the empty key and a missing key.
 */
module Badger {
  import opened Wrappers
  import opened Errors
  import opened KeyOrder
  import Text

  class DB {
    /** The committed keyspace. */
    var data: map<string, seq<byte>>
    /** Set by Close; every later transaction fails with ErrDBClosed. */
    var closed: bool

    constructor Open(contents: map<string, seq<byte>>)
      ensures data == contents && !closed
    {
      data := contents;
      closed := false;
    }

    /** `txn.Get` inside `db.View`, with the value copied out. */
    method Get(key: string) returns (r: Result<seq<byte>, Error>)
      ensures closed ==> r == Err(DBClosed)
      ensures !closed && key == [] ==> r == Err(EmptyKey)
      ensures !closed && key != [] && key !in data ==> r == Err(KeyNotFound)
      ensures !closed && key != [] && key in data ==> r == Ok(data[key])
    {
      if closed {
        r := Err(DBClosed);
      } else if key == [] {
        r := Err(EmptyKey);
      } else if key !in data {
        r := Err(KeyNotFound);
      } else {
        r := Ok(data[key]);
      }
    }

    /** `txn.Set` inside `db.Update`: the last write to a key wins. */
    method Set(key: string, value: seq<byte>) returns (err: Option<Error>)
      modifies this
      ensures closed == old(closed)
      ensures old(closed) ==> err == Some(DBClosed) && data == old(data)
      ensures !old(closed) && key == [] ==> err == Some(EmptyKey) && data == old(data)
      ensures !old(closed) && key != [] ==> err == None && data == old(data)[key := value]
    {
      if closed {
        err := Some(DBClosed);
      } else if key == [] {
        err := Some(EmptyKey);
      } else {
        data := data[key := value];
        err := None;
      }
    }

    /** `txn.Delete` inside `db.Update`: deleting a missing key is not an error. */
    method Delete(key: string) returns (err: Option<Error>)
      modifies this
      ensures closed == old(closed)
      ensures old(closed) ==> err == Some(DBClosed) && data == old(data)
      ensures !old(closed) && key == [] ==> err == Some(EmptyKey) && data == old(data)
      ensures !old(closed) && key != [] ==> err == None && data == old(data) - {key}
    {
      if closed {
        err := Some(DBClosed);
      } else if key == [] {
        err := Some(EmptyKey);
      } else {
        data := data - {key};
        err := None;
      }
    }

    method Close()
      modifies this
      ensures closed && data == old(data)
    {
      closed := true;
    }

    /** The keys that start with `prefix`. */
    function WithPrefix(prefix: string): set<string>
      reads this
    {
      set k | k in data && Text.HasPrefix(k, prefix)
    }

    /**
     * The keys an iterator visits from `Seek(prefix)` while `ValidForPrefix(prefix)`
     * holds: every key with that prefix, in ascending order.
     */
    method Scan(prefix: string) returns (r: Result<seq<string>, Error>)
      ensures closed ==> r == Err(DBClosed)
      ensures !closed ==> r == Ok(Ascending(WithPrefix(prefix)))
    {
      if closed {
        return Err(DBClosed);
      }
      var remaining := WithPrefix(prefix);
      var keys := [];
      while remaining != {}
        invariant keys + Ascending(remaining) == Ascending(WithPrefix(prefix))
        decreases |remaining|
      {
        LeastExists(remaining);
        var k :| IsLeast(k, remaining);
        AscendingFirst(remaining, k);
        keys := keys + [k];
        remaining := remaining - {k};
      }
      assert Ascending(remaining) == [];
      assert keys + [] == keys;
      r := Ok(keys);
    }
  }
}
