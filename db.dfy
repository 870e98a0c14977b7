/**
 * store/db.go: the multi-user variant. A user record lives under the bare
 * username; entries live under `user::label`.
 */
module UserDb {
  import opened Wrappers
  import opened Errors
  import opened Types
  import Models
  import Json
  import Badger
  import Text
  import KeyOrder

  /** The key `AddToStore`, `Get` and `RemoveFromStore` use for an entry. */
  function EntryKey(username: string, lbl: Label): (k: string)
    ensures Text.HasPrefix(k, username + "::")
    ensures k[|username| + 2..] == lbl
  {
    username + "::" + lbl
  }

  /** `UserExists`: a present key is true, a missing one false, any other error surfaces. */
  method UserExists(db: Badger.DB, username: string) returns (r: Result<bool, Error>)
    ensures db.closed ==> r == Err(DBClosed)
    ensures !db.closed && username == [] ==> r == Err(EmptyKey)
    ensures !db.closed && username != [] ==> r == Ok(username in db.data)
  {
    var got := db.Get(username);
    match got {
      case Ok(_) => r := Ok(true);
      case Err(e) => r := if e == KeyNotFound then Ok(false) else Err(e);
    }
  }

  class Store {
    const db: Badger.DB
    const codec: Json.Codec

    /** `NewStore` once Badger has opened the directory. */
    constructor (db: Badger.DB, codec: Json.Codec)
      ensures this.db == db && this.codec == codec
    {
      this.db := db;
      this.codec := codec;
    }

    method Close()
      modifies db
      ensures db.closed && db.data == old(db.data)
    {
      db.Close();
    }

    /**
     * `CreateUser`: refuses a username that is already a key; an error from the
     * existence check is ignored and the write is attempted anyway.
     */
    method CreateUser(user: Models.User) returns (err: Option<Error>)
      modifies db
      ensures db.closed == old(db.closed)
      ensures old(db.closed) ==> err == Some(DBClosed) && db.data == old(db.data)
      ensures !old(db.closed) && user.username == [] ==> err == Some(EmptyKey) && db.data == old(db.data)
      ensures !old(db.closed) && user.username != [] && user.username in old(db.data) ==>
                err == Some(Message("username in use")) && db.data == old(db.data)
      ensures !old(db.closed) && user.username != [] && user.username !in old(db.data) ==>
                err == None && db.data == old(db.data)[user.username := codec.encodeUser(user)]
    {
      var present := UserExists(db, user.username);
      if present == Ok(true) {
        return Some(Message("username in use"));
      }
      err := db.Set(user.username, codec.encodeUser(user));
    }

    /** `GetUser`: the record stored under the username. */
    method GetUser(username: string) returns (r: Result<Models.User, Error>)
      ensures db.closed ==> r == Err(DBClosed)
      ensures !db.closed && username == [] ==> r == Err(EmptyKey)
      ensures !db.closed && username != [] && username !in db.data ==> r == Err(KeyNotFound)
      ensures !db.closed && username != [] && username in db.data ==>
                match codec.decodeUser(db.data[username])
                case None => r == Err(BadJson)
                case Some(u) => r == Ok(u)
    {
      var got := db.Get(username);
      if got.Err? {
        return Err(got.error);
      }
      var decoded := codec.decodeUser(got.value);
      r := if decoded.None? then Err(BadJson) else Ok(decoded.value);
    }

    /** `UpdateUser`: overwrites the record of an existing user and nothing else. */
    method UpdateUser(user: Models.User) returns (err: Option<Error>)
      modifies db
      ensures db.closed == old(db.closed)
      ensures old(db.closed) ==> err == Some(DBClosed) && db.data == old(db.data)
      ensures !old(db.closed) && user.username == [] ==> err == Some(EmptyKey) && db.data == old(db.data)
      ensures !old(db.closed) && user.username != [] && user.username !in old(db.data) ==>
                err == Some(Message("user does not exist")) && db.data == old(db.data)
      ensures !old(db.closed) && user.username != [] && user.username in old(db.data) ==>
                err == None && db.data == old(db.data)[user.username := codec.encodeUser(user)]
    {
      var present := UserExists(db, user.username);
      if present.Err? {
        return Some(present.error);
      }
      if !present.value {
        return Some(Message("user does not exist"));
      }
      err := db.Set(user.username, codec.encodeUser(user));
    }

    /** `DeleteUser`: removes the username key; removing an absent one succeeds. */
    method DeleteUser(username: string) returns (err: Option<Error>)
      modifies db
      ensures db.closed == old(db.closed)
      ensures old(db.closed) ==> err == Some(DBClosed) && db.data == old(db.data)
      ensures !old(db.closed) && username == [] ==> err == Some(EmptyKey) && db.data == old(db.data)
      ensures !old(db.closed) && username != [] ==> err == None && db.data == old(db.data) - {username}
    {
      err := db.Delete(username);
    }

    /** `AddToStore`: writes the entry under `user::label`; the last write wins. */
    method AddToStore(username: string, lbl: Label, data: Data) returns (err: Option<Error>)
      modifies db
      ensures db.closed == old(db.closed)
      ensures old(db.closed) ==> err == Some(DBClosed) && db.data == old(db.data)
      ensures !old(db.closed) ==>
                err == None && db.data == old(db.data)[EntryKey(username, lbl) := codec.encodeData(data)]
    {
      err := db.Set(EntryKey(username, lbl), codec.encodeData(data));
    }

    /** `Get`: the raw bytes under `user::label`. */
    method Get(username: string, lbl: Label) returns (r: Result<seq<byte>, Error>)
      ensures db.closed ==> r == Err(DBClosed)
      ensures !db.closed && EntryKey(username, lbl) !in db.data ==> r == Err(KeyNotFound)
      ensures !db.closed && EntryKey(username, lbl) in db.data ==> r == Ok(db.data[EntryKey(username, lbl)])
    {
      r := db.Get(EntryKey(username, lbl));
    }

    /** `RemoveFromStore`: deletes `user::label`; deleting a missing entry succeeds. */
    method RemoveFromStore(username: string, lbl: Label) returns (err: Option<Error>)
      modifies db
      ensures db.closed == old(db.closed)
      ensures old(db.closed) ==> err == Some(DBClosed) && db.data == old(db.data)
      ensures !old(db.closed) ==> err == None && db.data == old(db.data) - {EntryKey(username, lbl)}
    {
      err := db.Delete(EntryKey(username, lbl));
    }

    /** `CountForUser`: the number of keys in the whole database, whatever the username. */
    method CountForUser(username: string) returns (r: Result<nat, Error>)
      ensures db.closed ==> r == Err(DBClosed)
      ensures !db.closed ==> r == Ok(|db.data.Keys|)
    {
      var scanned := db.Scan("");
      if scanned.Err? {
        return Err(scanned.error);
      }
      assert db.WithPrefix("") == db.data.Keys by {
        forall k | k in db.data
          ensures k in db.WithPrefix("")
        {
          assert k[..0] == "";
        }
      }
      KeyOrder.AscendingSorted(db.data.Keys);
      // The iterator visits every key of the database once, whatever its prefix.
      assert |scanned.value| == |db.data.Keys|;
      var count := 0;
      var i := 0;
      while i < |scanned.value|
        invariant 0 <= i <= |scanned.value| && count == i
        invariant count <= |db.data.Keys|
      {
        count := count + 1;
        i := i + 1;
      }
      r := Ok(count);
    }

    /**
     * The loop of `GetAllForUser`: the decoded values under `keys`, in order;
     * None at the first that does not decode.
     */
    method DecodeValues(keys: seq<string>) returns (r: Option<seq<Data>>)
      requires forall k :: k in keys ==> k in db.data
      ensures r.None? <==> exists k :: k in keys && codec.decodeData(db.data[k]).None?
      ensures r.Some? ==> |r.value| == |keys|
      ensures r.Some? ==> forall i :: 0 <= i < |keys| ==> codec.decodeData(db.data[keys[i]]) == Some(r.value[i])
    {
      var results: seq<Data> := [];
      var i := 0;
      while i < |keys|
        invariant 0 <= i <= |keys| && |results| == i
        invariant forall j :: 0 <= j < i ==> codec.decodeData(db.data[keys[j]]) == Some(results[j])
      {
        var decoded := codec.decodeData(db.data[keys[i]]);
        if decoded.None? {
          return None;
        }
        results := results + [decoded.value];
        i := i + 1;
      }
      forall k | k in keys
        ensures codec.decodeData(db.data[k]).Some?
      {
        var j :| 0 <= j < |keys| && keys[j] == k;
      }
      r := Some(results);
    }

    /**
     * `GetAllForUser`: the decoded entries under `user::`, in ascending key
     * order; the first value that does not decode fails the call.
     */
    method GetAllForUser(username: string) returns (r: Result<seq<Data>, Error>)
      ensures db.closed ==> r == Err(DBClosed)
      ensures !db.closed ==>
                (r.Ok? <==> forall k :: k in db.data && Text.HasPrefix(k, username + "::") ==>
                                          codec.decodeData(db.data[k]).Some?)
      ensures !db.closed && r.Err? ==> r == Err(BadJson)
      ensures r.Ok? ==>
                var keys := KeyOrder.Ascending(db.WithPrefix(username + "::"));
                && |r.value| == |keys|
                && forall i :: 0 <= i < |keys| ==> keys[i] in db.data && codec.decodeData(db.data[keys[i]]) == Some(r.value[i])
    {
      var prefix := username + "::";
      var scanned := db.Scan(prefix);
      if scanned.Err? {
        return Err(scanned.error);
      }
      var keys := scanned.value;
      KeyOrder.AscendingSorted(db.WithPrefix(prefix));
      assert forall k :: k in keys <==> k in db.data && Text.HasPrefix(k, prefix);
      var values := DecodeValues(keys);
      if values.None? {
        return Err(BadJson);
      }
      r := Ok(values.value);
    }
  }
}
