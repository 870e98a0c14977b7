/** The owner record of models/User.go. */
module Models {

  /** A `time.Time` instant; the model takes the clock reading as a parameter. */
  type Time = int

  /**
   * `User`. `password` holds the bytes of the `hash:salt` envelope text and
   * `masterKey` those of the master envelope; `masterKey` is unexported in Go.
   */
  datatype User = User(username: string, password: string, createdAt: Time, updatedAt: Time, masterKey: string)

  /** `NewUser`: both envelopes stored as given, both timestamps set to `now`. */
  function NewUser(username: string, password: string, masterKey: string, now: Time): (u: User)
    ensures u.username == username && u.password == password && u.masterKey == masterKey
    ensures u.createdAt == now && u.updatedAt == u.createdAt
  {
    User(username, password, now, now, masterKey)
  }

  /** `IsMaster`: byte equality of the stored master envelope and the supplied hash. */
  function IsMaster(user: User, computedMasterHash: string): (r: bool)
    ensures r <==> |computedMasterHash| == |user.masterKey| &&
                   forall i :: 0 <= i < |user.masterKey| ==> computedMasterHash[i] == user.masterKey[i]
  {
    user.masterKey == computedMasterHash
  }

  /** A fresh record accepts exactly the master envelope it was built with. */
  lemma NewUserIsMaster(username: string, password: string, masterKey: string, now: Time, hash: string)
    ensures IsMaster(NewUser(username, password, masterKey, now), hash) <==> hash == masterKey
  {
  }

  /**
   * What `encoding/json` keeps of a record: every exported field, and an empty
   * `masterKey`, because json skips unexported fields.
   */
  function Persisted(user: User): (p: User)
    ensures p.username == user.username && p.password == user.password
    ensures p.createdAt == user.createdAt && p.updatedAt == user.updatedAt
    ensures p.masterKey == []
  {
    user.(masterKey := [])
  }

  /** Once a record has been through the store, only the empty hash passes IsMaster. */
  lemma IsMasterAfterReload(user: User, hash: string)
    ensures IsMaster(Persisted(user), hash) <==> hash == []
  {
  }
}
