/** The exceptions the modelled code raises, catches or lets through. */
module Errors {

  datatype Error =
    /** The table client's ResourceNotFoundException (a kind of ClientError). */
    | ResourceNotFound
    /** Any other botocore ClientError, with the service's error code. */
    | ClientError(code: string)
    /** botocore's ParamValidationError, raised before a request is sent. */
    | ParamValidation
    /** A Python KeyError from subscripting a dict with a missing key. */
    | KeyError(key: string)
    /** A Python TypeError (extending a list with None, comparing two dicts, ...). */
    | TypeError
    /** Any other exception an SDK call raises (a connection error, say). */
    | Other(name: string)
}
