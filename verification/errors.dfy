/** The numeric status codes the library reports, one per violated rule. */
module Errors {

  datatype ErrorCode =
    // suite descriptor grammar
    | InvalidSuite            // 0x01  not <Version>:<CryptoFunction>:<DataInput>
    | InvalidVersion          // 0x02  version is not OCRA-1
    | InvalidCryptoFunction   // 0x03  crypto function is not three '-' parts
    | UnsupportedAlgorithm    // 0x04  algorithm is not HOTP
    | UnsupportedHash         // 0x05  hash is not SHA1, SHA256 or SHA512
    | InvalidDigits           // 0x06  digits not 0 or 4..10
    | ChallengeShape          // 0x07  challenge body is not three characters
    | ChallengeFormat         // 0x08  challenge format is not A, N or H
    | ChallengeLength         // 0x09  challenge length outside 4..64
    | PasswordHash            // 0x0A  password hash is not SHA1, SHA256 or SHA512
    | SessionShape            // 0x0B  session body is not three characters
    | SessionLength           // 0x0C  session length outside 1..512
    | TimestampShape          // 0x0D  timestamp body is not two or three characters
    | TimestampStep           // 0x0E  time step unit is not S, M or H
    | TimestampValue          // 0x0F  time step value out of bound
    // generation
    | MissingKey              // 0x10
    | HmacSize                // 0x11  injected HMAC returned the wrong length
    | MissingCounter          // 0x12
    | MissingQuestion         // 0x13
    | NonNumericQuestion      // 0x15
    | MissingPassword         // 0x16
    | PasswordHashSize        // 0x17  injected SHA returned the wrong length
    | MissingSession          // 0x18
    | MissingTimestamp        // 0x19
    | InvalidHexDigit         // 0x1A
    // data-input slots
    | MissingFirstDataInput   // 0x1B
    | EmptyChallenge          // 0x1C
    | MissingChallenge        // 0x1D
    | UnexpectedDataInput     // 0x1E
    // the C++ runtime
    | OutOfRange              // std::out_of_range from std::string::substr; sets no status

  /** The status code the library stores for each error; the runtime's
      `out_of_range` leaves the status at 0 in both modes. */
  function Code(e: ErrorCode): (c: int)
    ensures e != OutOfRange ==> 0x01 <= c <= 0x1E && c != 0x14
    ensures e == OutOfRange <==> c == 0
  {
    match e
    case InvalidSuite => 0x01
    case InvalidVersion => 0x02
    case InvalidCryptoFunction => 0x03
    case UnsupportedAlgorithm => 0x04
    case UnsupportedHash => 0x05
    case InvalidDigits => 0x06
    case ChallengeShape => 0x07
    case ChallengeFormat => 0x08
    case ChallengeLength => 0x09
    case PasswordHash => 0x0A
    case SessionShape => 0x0B
    case SessionLength => 0x0C
    case TimestampShape => 0x0D
    case TimestampStep => 0x0E
    case TimestampValue => 0x0F
    case MissingKey => 0x10
    case HmacSize => 0x11
    case MissingCounter => 0x12
    case MissingQuestion => 0x13
    case NonNumericQuestion => 0x15
    case MissingPassword => 0x16
    case PasswordHashSize => 0x17
    case MissingSession => 0x18
    case MissingTimestamp => 0x19
    case InvalidHexDigit => 0x1A
    case MissingFirstDataInput => 0x1B
    case EmptyChallenge => 0x1C
    case MissingChallenge => 0x1D
    case UnexpectedDataInput => 0x1E
    case OutOfRange => 0
  }

  /** Distinct rules report distinct codes, so a code identifies its rule. */
  lemma CodeInjective(a: ErrorCode, b: ErrorCode)
    ensures Code(a) == Code(b) ==> a == b
  {
  }
}
