/** consts/consts.go: file names and lockout thresholds. */
module Consts {
  const AgreementFile: string := "agreement.rook"
  const SecretRook: string := ".secret.rook"
  const StoreFilePath: string := "storook"
  const AttemptsPath: string := ".attempts.rook"
  const RookLog: string := ".log.rook"
  const SaltSize: nat := 16
  /** `MAX_ATTEMPTS = 06`: the wipe fires once the count passes it. */
  const MaxAttempts: nat := 6
  /** `MAX_M_ATTEMPTS = 05`: the count at which the workflows refuse. */
  const MaxMAttempts: nat := 5
}
