/** The fieldless refusals, and the one failure that is not a refusal. */
module AuthErrors {
  datatype AuthError =
    | PasswordRejected
    | EntropyUnavailable
    | InvalidCredentials
    | CredentialNoLongerValid
    | PolicyMisconfigured
    | TooManyAttempts
    | NotPermitted

  datatype ServiceError = Refused(reason: AuthError) | Storage
}
