/** The failures of signing and verifying, and the signature parameter names they mention. */
module Errors {
  import opened Wrappers

  /** The signature parameters of RFC 9421 section 2.3 and of the WIMSE profile. */
  datatype ParamName =
    | Created
    | Expires
    | KeyId
    | Alg
    | Nonce
    | Tag
    | WimseAud
    | WimseSignResponse
    | WimseReqNonce

  /** What a field value that cannot be parsed did wrong. */
  datatype ParseReason =
    | MissingEquals
    | EmptyLabel
    | DuplicateLabel(name: string)
    | NotAString(token: string)
    | BadStringEscape
    | NotABoolean(raw: string)
    | NotAnInteger(raw: string)
    | InnerListNotOpened
    | InnerListNotClosed
    | NotAQuotedIdentifier(token: string)
    | ParametersNotOneLine
    | NotAByteSequence

  datatype Error =
    | MissingComponent(name: string)
    | UnsupportedComponent(id: string)
    | InvalidComponentValue(id: string)
    | MissingRequiredComponent(id: string)
    | UnsupportedAlg(found: string)
    | InvalidTimeWindow
    | TooOld
    | Parse(reason: ParseReason)
    | LabelMismatch
    | MalformedSignature
    | InvalidSignature
    | Expired
    | CreatedInFuture
    | MissingParameter(param: ParamName)
    | ForbiddenParameter(param: ParamName)
    | ForbiddenComponent(id: string)
    | WrongTag(found: string)
    | AudienceMismatch
    | RequestNonceMismatch
    | NoWimseSignature
    | AmbiguousWimseSignature

  type Outcome<+T> = Result<T, Error>
}
