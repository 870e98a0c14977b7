/** The secret entry of types/data.go. */
module Types {
  import opened Wrappers

  type Time = int

  /** `Label`: the caller-chosen name of an entry. */
  type Label = string

  /** `Data`: one stored credential; `lpassword` holds the secret as raw bytes. */
  datatype Data = Data(lname: string, lpassword: seq<byte>, lurl: string, lastAccess: Time, owner: string)
}
