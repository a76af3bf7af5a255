/** The error codes the pool service raises. Every failure of the service is
    an object `{ code, message }`; failures raised by a plain `Error` (the
    credit-share helper, network clients) carry only a message and are
    modelled by `Thrown`. */
module Errors {

  datatype ErrorCode =
    // pool manager
    | PoolNotFound
    | InvalidUsageCap
    | InvalidTimeRange
    | MissingFields
    | PoolLimitExceeded
    | WalletGenerationFailed
    | WalletSaveFailed
    | InvalidPoolId
    | PoolNotActive
    | WalletNotWhitelisted
    | UsageCapExceeded
    // credit sharing
    | AlreadyCredited
    | PoolEnded
    // HTTP routes
    | InvalidApiKey
    | MissingCreatorAddress
    | MissingPassword
    | Unauthorized
    | InvalidPassword
    | InvalidAddresses
    | MissingWalletAddress
    | InvalidLink
    // top-up
    | MissingParameters
    | InvalidAmount
    | InsufficientBalance
    | TopUpFailed
    // waitlist
    | EmailExists
    // an error without a code
    | Thrown(message: string)
}
