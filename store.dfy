/**
 * store/store.go: the single-owner vault. The owner record lives under the
 * sentinel key `__user__`; entries are written under `user:label`, while
 * `CountForUser` and `Get` look under `user::`.
 */
module VaultStore {
  import opened Wrappers
  import opened Errors
  import opened Types
  import Models
  import Json
  import Badger
  import Text
  import KeyOrder

  /** The key of the one owner record. */
  const UserKey: string := "__user__"

  /** `makeKey`: the key an entry is written under. */
  function MakeKey(username: string, lbl: Label): (k: string)
    ensures Text.HasPrefix(k, username + ":")
    ensures k[|username| + 1..] == lbl
    ensures |k| == |username| + 1 + |lbl|
  {
    username + ":" + lbl
  }

  /** Every entry key contains `:`, so no entry operation can reach the owner record. */
  lemma EntryKeyIsNotUserKey(username: string, lbl: Label)
    ensures MakeKey(username, lbl) != UserKey
  {
    assert MakeKey(username, lbl)[|username|] == ':';
  }

  /** Distinct labels of one user get distinct keys. */
  lemma MakeKeyInjective(username: string, lbl1: Label, lbl2: Label)
    ensures MakeKey(username, lbl1) == MakeKey(username, lbl2) <==> lbl1 == lbl2
  {
    if MakeKey(username, lbl1) == MakeKey(username, lbl2) {
      assert lbl1 == MakeKey(username, lbl1)[|username| + 1..];
    }
  }

  /**
   * The `user::` prefix of `CountForUser` and `Get` matches a key written by
   * `AddToStore` exactly when the lbl itself starts with `:`.
   */
  lemma CountPrefixMatchesOnlyColonLabels(username: string, lbl: Label)
    ensures Text.HasPrefix(MakeKey(username, lbl), username + "::") <==> (|lbl| > 0 && lbl[0] == ':')
  {
    var k := MakeKey(username, lbl);
    var p := username + "::";
    if |lbl| > 0 {
      assert k[..|p|] == username + ":" + [lbl[0]];
      if k[..|p|] == p {
        assert p[|username| + 1] == ':';
      }
    }
  }

  /**
   * The key `Get` reads for `lbl` is the key `AddToStore` wrote for exactly
   * one label: `lbl` with a `:` in front.
   */
  lemma GetReadsColonLabel(username: string, lbl: Label, written: Label)
    ensures username + "::" + lbl == MakeKey(username, written) <==> written == ":" + lbl
  {
    var g := username + "::" + lbl;
    assert g == MakeKey(username, ":" + lbl);
    MakeKeyInjective(username, written, ":" + lbl);
  }

  class Store {
    const db: Badger.DB
    const codec: Json.Codec

    /** `NewStore` once Badger has opened the directory. */
    constructor (db: Badger.DB, codec: Json.Codec)
      ensures this.db == db && this.codec == codec
    {
      this.db := db;
      this.codec := codec;
    }

    method Close()
      modifies db
      ensures db.closed && db.data == old(db.data)
    {
      db.Close();
    }

    /** `IsUser`: whether the owner record exists; a missing key is not an error. */
    method IsUser() returns (r: Result<bool, Error>)
      ensures db.closed ==> r == Err(DBClosed)
      ensures !db.closed ==> r == Ok(UserKey in db.data)
    {
      var got := db.Get(UserKey);
      match got {
        case Ok(_) => r := Ok(true);
        case Err(e) => r := if e == KeyNotFound then Ok(false) else Err(e);
      }
    }

    /** `CreateUser`: refuses a second owner whoever it is, else stores the record. */
    method CreateUser(user: Models.User) returns (err: Option<Error>)
      modifies db
      ensures db.closed == old(db.closed)
      ensures old(db.closed) ==> err == Some(DBClosed) && db.data == old(db.data)
      ensures !old(db.closed) && UserKey in old(db.data) ==>
                err == Some(Message("user already exists")) && db.data == old(db.data)
      ensures !old(db.closed) && UserKey !in old(db.data) ==>
                err == None && db.data == old(db.data)[UserKey := codec.encodeUser(user)]
    {
      var present := IsUser();
      if present.Err? {
        return Some(present.error);
      }
      if present.value {
        return Some(Message("user already exists"));
      }
      err := db.Set(UserKey, codec.encodeUser(user));
    }

    /** `GetUser`: the owner record as stored, or the lookup or decoding error. */
    method GetUser() returns (r: Result<Models.User, Error>)
      requires codec.Lawful()
      ensures db.closed ==> r == Err(DBClosed)
      ensures !db.closed && UserKey !in db.data ==> r == Err(KeyNotFound)
      ensures !db.closed && UserKey in db.data ==>
                match codec.decodeUser(db.data[UserKey])
                case None => r == Err(BadJson)
                case Some(u) => r == Ok(u)
    {
      var got := db.Get(UserKey);
      if got.Err? {
        return Err(got.error);
      }
      var decoded := codec.decodeUser(got.value);
      r := if decoded.None? then Err(BadJson) else Ok(decoded.value);
    }

    /** `UpdateUser`: overwrites the owner record, which must already exist. */
    method UpdateUser(user: Models.User) returns (err: Option<Error>)
      modifies db
      ensures db.closed == old(db.closed)
      ensures old(db.closed) ==> err == Some(DBClosed) && db.data == old(db.data)
      ensures !old(db.closed) && UserKey !in old(db.data) ==>
                err == Some(Message("user does not exist")) && db.data == old(db.data)
      ensures !old(db.closed) && UserKey in old(db.data) ==>
                err == None && db.data == old(db.data)[UserKey := codec.encodeUser(user)]
    {
      var present := IsUser();
      if present.Err? {
        return Some(present.error);
      }
      if !present.value {
        return Some(Message("user does not exist"));
      }
      err := db.Set(UserKey, codec.encodeUser(user));
    }

    /** `DeleteUser`: removes the owner record; removing an absent one succeeds. */
    method DeleteUser() returns (err: Option<Error>)
      modifies db
      ensures db.closed == old(db.closed)
      ensures old(db.closed) ==> err == Some(DBClosed) && db.data == old(db.data)
      ensures !old(db.closed) ==> err == None && db.data == old(db.data) - {UserKey}
    {
      err := db.Delete(UserKey);
    }

    /** `AddToStore`: writes the entry under `user:label`; the last write wins. */
    method AddToStore(username: string, lbl: Label, data: Data) returns (err: Option<Error>)
      modifies db
      ensures db.closed == old(db.closed)
      ensures old(db.closed) ==> err == Some(DBClosed) && db.data == old(db.data)
      ensures !old(db.closed) ==>
                err == None && db.data == old(db.data)[MakeKey(username, lbl) := codec.encodeData(data)]
    {
      err := db.Set(MakeKey(username, lbl), codec.encodeData(data));
    }

    /** `GetByLabel`: the entry stored under `user:label`. */
    method GetByLabel(username: string, lbl: Label) returns (r: Result<Data, Error>)
      ensures db.closed ==> r == Err(DBClosed)
      ensures !db.closed && MakeKey(username, lbl) !in db.data ==> r == Err(KeyNotFound)
      ensures !db.closed && MakeKey(username, lbl) in db.data ==>
                match codec.decodeData(db.data[MakeKey(username, lbl)])
                case None => r == Err(BadJson)
                case Some(d) => r == Ok(d)
    {
      var got := db.Get(MakeKey(username, lbl));
      if got.Err? {
        return Err(got.error);
      }
      var decoded := codec.decodeData(got.value);
      r := if decoded.None? then Err(BadJson) else Ok(decoded.value);
    }

    /** `RemoveFromStore`: deletes `user:label`; deleting a missing entry succeeds. */
    method RemoveFromStore(username: string, lbl: Label) returns (err: Option<Error>)
      modifies db
      ensures db.closed == old(db.closed)
      ensures old(db.closed) ==> err == Some(DBClosed) && db.data == old(db.data)
      ensures !old(db.closed) ==> err == None && db.data == old(db.data) - {MakeKey(username, lbl)}
    {
      err := db.Delete(MakeKey(username, lbl));
    }

    /**
     * The loop of `GetAllForUser`: the entries under `keys`, each keyed by what
     * follows `prefix`; None at the first value that does not decode.
     */
    method DecodeEntries(prefix: string, keys: seq<string>) returns (r: Option<map<Label, Data>>)
      requires forall k :: k in keys ==> k in db.data && Text.HasPrefix(k, prefix)
      ensures r.None? <==> exists k :: k in keys && codec.decodeData(db.data[k]).None?
      ensures r.Some? ==> forall lbl :: lbl in r.value <==> prefix + lbl in keys
      ensures r.Some? ==> forall lbl :: lbl in r.value ==> codec.decodeData(db.data[prefix + lbl]) == Some(r.value[lbl])
    {
      var result: map<Label, Data> := map[];
      var i := 0;
      while i < |keys|
        invariant 0 <= i <= |keys|
        invariant forall j :: 0 <= j < i ==> codec.decodeData(db.data[keys[j]]).Some?
        invariant forall lbl :: lbl in result <==> prefix + lbl in keys[..i]
        invariant forall lbl :: lbl in result ==> codec.decodeData(db.data[prefix + lbl]) == Some(result[lbl])
      {
        var k := keys[i];
        var decoded := codec.decodeData(db.data[k]);
        if decoded.None? {
          return None;
        }
        var lbl := k[|prefix|..];
        assert prefix + lbl == k;
        result := result[lbl := decoded.value];
        assert keys[..i + 1] == keys[..i] + [k];
        i := i + 1;
      }
      assert keys[..i] == keys;
      r := Some(result);
    }

    /**
     * `GetAllForUser`: every key starting with `user:`, mapped from the rest of
     * the key to its decoded entry; the first undecodable value fails the call.
     */
    method GetAllForUser(username: string) returns (r: Result<map<Label, Data>, Error>)
      ensures db.closed ==> r == Err(DBClosed)
      ensures !db.closed ==>
                (r.Ok? <==> forall k :: k in db.data && Text.HasPrefix(k, username + ":") ==>
                                          codec.decodeData(db.data[k]).Some?)
      ensures !db.closed && r.Err? ==> r == Err(BadJson)
      ensures r.Ok? ==> forall lbl :: lbl in r.value <==> MakeKey(username, lbl) in db.data
      ensures r.Ok? ==> forall lbl :: lbl in r.value ==>
                          codec.decodeData(db.data[MakeKey(username, lbl)]) == Some(r.value[lbl])
    {
      var prefix := username + ":";
      var scanned := db.Scan(prefix);
      if scanned.Err? {
        return Err(scanned.error);
      }
      var keys := scanned.value;
      KeyOrder.AscendingSorted(db.WithPrefix(prefix));
      assert forall k :: k in keys <==> k in db.data && Text.HasPrefix(k, prefix);
      var entries := DecodeEntries(prefix, keys);
      if entries.None? {
        return Err(BadJson);
      }
      forall lbl
        ensures prefix + lbl in keys <==> MakeKey(username, lbl) in db.data
      {
        assert (prefix + lbl)[..|prefix|] == prefix;
      }
      r := Ok(entries.value);
    }

    /** `CountForUser`: the number of keys starting with `user::`. */
    method CountForUser(username: string) returns (r: Result<nat, Error>)
      ensures db.closed ==> r == Err(DBClosed)
      ensures !db.closed ==> r == Ok(|db.WithPrefix(username + "::")|)
    {
      var scanned := db.Scan(username + "::");
      if scanned.Err? {
        return Err(scanned.error);
      }
      KeyOrder.AscendingSorted(db.WithPrefix(username + "::"));
      var count := 0;
      var i := 0;
      while i < |scanned.value|
        invariant 0 <= i <= |scanned.value| && count == i
      {
        count := count + 1;
        i := i + 1;
      }
      r := Ok(count);
    }

    /** `Get`: the raw bytes under `user::lbl`. */
    method Get(username: string, lbl: string) returns (r: Result<seq<byte>, Error>)
      ensures db.closed ==> r == Err(DBClosed)
      ensures !db.closed && username + "::" + lbl !in db.data ==> r == Err(KeyNotFound)
      ensures !db.closed && username + "::" + lbl in db.data ==> r == Ok(db.data[username + "::" + lbl])
    {
      r := db.Get(username + "::" + lbl);
    }
  }
}
