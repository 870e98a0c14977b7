/** The Go `error` values the core produces or passes on, one constructor per distinct error. */
module Errors {

  datatype Error =
    | KeyNotFound           // badger.ErrKeyNotFound
    | DBClosed              // badger.ErrDBClosed: a transaction on a closed database
    | EmptyKey              // badger.ErrEmptyKey: a transaction on the key ""
    | BadJson               // json.Unmarshal rejected the stored bytes
    | CorruptBase64         // base64.CorruptInputError
    | KeySize               // aes.KeySizeError: key length other than 16, 24 or 32
    | Entropy               // the random source failed
    | NotExist              // os.ErrNotExist from Stat or Open
    | IsDirectory           // opening a directory for writing
    | PermissionDenied      // opening a read-only file for writing
    | WriteFailed           // a failed WriteAt on the device
    | Message(text: string) // errors.New / fmt.Errorf with this text
}
