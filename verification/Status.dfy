/** The S3Status values that the modelled code returns. */
module Status {
  datatype S3Status =
    | OK
    | InternalError
    | OutOfMemory
    | Interrupted
    | InvalidBucketNameTooLong
    | InvalidBucketNameFirstCharacter
    | InvalidBucketNameCharacter
    | InvalidBucketNameCharacterSequence
    | InvalidBucketNameTooShort
    | InvalidBucketNameDotQuadNotation
    | QueryParamsTooLong
    | MetaDataHeadersTooLong
    | UriTooLong
    | XmlParseFailure
    | EmailAddressTooLong
    | UserIdTooLong
    | UserDisplayNameTooLong
    | GroupUriTooLong
    | PermissionTooLong
    | TooManyGrants
    | BadGrantee
    | BadPermission
    | XmlDocumentTooLarge
    | NameLookupError
    | FailedToConnect
    | ServerFailedVerification
    | ConnectionFailed
    | AbortedByCallback
    | ErrorFromService(code: string)   // S3StatusError<code>
    | ErrorUnknown
    | HttpErrorMovedTemporarily
    | HttpErrorBadRequest
    | HttpErrorForbidden
    | HttpErrorNotFound
    | HttpErrorConflict
    | HttpErrorUnknown
    | OtherStatus(code: string)        // any other value a user's callback may return
}
