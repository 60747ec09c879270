/** The closed vocabulary of the abuse controls: axes, flows and counted dimensions. */
module Attempts {
  datatype AttemptAxis = Account | Client | Network

  datatype AttemptFlow =
    | Register
    | LogIn
    | VerificationResend
    | VerificationComplete
    | ForgotPassword
    | ResetPassword
    | TokenRefresh

  datatype AttemptDimension =
    | RegisterAccount
    | RegisterNetwork
    | LogInAccount
    | LogInNetwork
    | VerificationResendAccount
    | VerificationResendNetwork
    | VerificationCompleteNetwork
    | ForgotPasswordAccount
    | ForgotPasswordNetwork
    | ResetPasswordNetwork
    | TokenRefreshClient
    | TokenRefreshNetwork

  const ALL_DIMENSIONS: set<AttemptDimension> := {
    RegisterAccount, RegisterNetwork, LogInAccount, LogInNetwork,
    VerificationResendAccount, VerificationResendNetwork, VerificationCompleteNetwork,
    ForgotPasswordAccount, ForgotPasswordNetwork, ResetPasswordNetwork,
    TokenRefreshClient, TokenRefreshNetwork
  }

  const DIMENSION_COUNT: nat := 12

  /** The dimensions a flow counts, in the order they are counted. */
  function Dimensions(flow: AttemptFlow): seq<AttemptDimension> {
    match flow
    case Register => [RegisterAccount, RegisterNetwork]
    case LogIn => [LogInAccount, LogInNetwork]
    case VerificationResend => [VerificationResendAccount, VerificationResendNetwork]
    case VerificationComplete => [VerificationCompleteNetwork]
    case ForgotPassword => [ForgotPasswordAccount, ForgotPasswordNetwork]
    case ResetPassword => [ResetPasswordNetwork]
    case TokenRefresh => [TokenRefreshClient, TokenRefreshNetwork]
  }

  function AxisOf(dimension: AttemptDimension): AttemptAxis {
    match dimension
    case RegisterAccount => Account
    case LogInAccount => Account
    case VerificationResendAccount => Account
    case ForgotPasswordAccount => Account
    case TokenRefreshClient => Client
    case _ => Network
  }

  /** There are exactly twelve dimensions: the first factor of the row bound. */
  lemma DimensionsAreTwelve()
    ensures |ALL_DIMENSIONS| == DIMENSION_COUNT
    ensures forall d: AttemptDimension :: d in ALL_DIMENSIONS
  {
    forall d: AttemptDimension
      ensures d in ALL_DIMENSIONS
    {
      match d
      case RegisterAccount | LogInAccount | VerificationResendAccount | ForgotPasswordAccount =>
      case TokenRefreshClient =>
      case RegisterNetwork | LogInNetwork | VerificationResendNetwork | VerificationCompleteNetwork =>
      case ForgotPasswordNetwork | ResetPasswordNetwork | TokenRefreshNetwork =>
    }
  }

  /**
   * No flow counts one dimension twice, no two flows share one, and every flow ends on a network axis; before it a
   * refresh counts a client, and any other flow with two dimensions an account.
   */
  lemma DimensionsPartitionTheFlows(f: AttemptFlow, g: AttemptFlow, i: nat, j: nat)
    requires i < |Dimensions(f)| && j < |Dimensions(g)|
    ensures Dimensions(f)[i] == Dimensions(g)[j] <==> f == g && i == j
    ensures AxisOf(Dimensions(f)[i]) == Network <==> i == |Dimensions(f)| - 1
    ensures AxisOf(Dimensions(f)[i]) == Client <==> f == TokenRefresh && i == 0
    ensures |Dimensions(f)| == if f in {VerificationComplete, ResetPassword} then 1 else 2
  {
  }
}
