/**
 * `encoding/json` as the stores use it: an encoder and a decoder per record
 * type, with the round trip the stores rely on.
 */
module Json {
  import opened Wrappers
  import Models
  import Types

  datatype Codec = Codec(
    encodeUser: Models.User -> seq<byte>,
    decodeUser: seq<byte> -> Option<Models.User>,
    encodeData: Types.Data -> seq<byte>,
    decodeData: seq<byte> -> Option<Types.Data>)
  {
    /**
     * Decoding what was encoded gives the record back, minus the unexported
     * `masterKey`. Decoding arbitrary bytes may fail (None) or succeed.
     */
    ghost predicate Lawful() {
      && (forall u :: decodeUser(encodeUser(u)) == Some(Models.Persisted(u)))
      && (forall d :: decodeData(encodeData(d)) == Some(d))
    }
  }
}
