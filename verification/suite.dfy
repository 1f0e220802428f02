/** The parsed OCRA suite (`OcraSuite` in ocra.hpp:51-78) and the lengths it
    fixes for every message built from it. */
module SuiteModel {
  import opened Results

  datatype Version = Ocra1

  /** The HOTP variant named by the crypto function. */
  datatype HmacAlgorithm = HotpSha1 | HotpSha256 | HotpSha512

  /** The password hash of the `P` data input; `NoHash` means no password. */
  datatype Sha = NoHash | Sha1 | Sha256 | Sha512

  /** Challenge format letter: A(lphanumeric), N(umeric) or H(exadecimal). */
  datatype ChallengeFormat = Alphanumeric | Numeric | Hexadecimal

  datatype TimeUnit = Seconds | Minutes | Hours

  type U8 = x: int | 0 <= x < 256
  type U16 = x: int | 0 <= x < 65536

  datatype Challenge = Challenge(format: ChallengeFormat, length: U8)

  /** The time step `T<time><unit>`; `time` is the `uint8_t` the library stores. */
  datatype TimeStep = TimeStep(unit: TimeUnit, time: U8)

  /** An OCRA suite. The optional data inputs use the library's default values
      as "absent": `isCounter` false, `passwordSha` NoHash, `sessionLength` 0,
      and no time step (`timestamp.step == 0` in the library). */
  datatype Suite = Suite(
    version: Version,
    hmac: HmacAlgorithm,
    digits: nat,
    isCounter: bool,
    challenge: Challenge,
    passwordSha: Sha,
    sessionLength: U16,
    timestamp: Option<TimeStep>)

  /** The data-input part of a suite, as the slot parser produces it. */
  datatype DataInput = DataInput(
    isCounter: bool,
    challenge: Challenge,
    passwordSha: Sha,
    sessionLength: U16,
    timestamp: Option<TimeStep>)

  /** Digit counts the crypto function may name: 0 and 4..10. */
  predicate ValidDigits(d: nat)
  {
    d == 0 || 4 <= d <= 10
  }

  /** The time steps the library accepts: seconds and minutes in 1..59; the
      hour bound is never enforced, so any stored hour value passes. */
  predicate ValidTimeStep(ts: TimeStep)
  {
    match ts.unit
    case Seconds => 1 <= ts.time <= 59
    case Minutes => 1 <= ts.time <= 59
    case Hours => true
  }

  /** The time steps section 6 of RFC 6287 allows: hours are also bounded, 0..48. */
  predicate IntendedTimeStep(ts: TimeStep)
  {
    ValidTimeStep(ts) && (ts.unit == Hours ==> ts.time <= 48)
  }

  /** What a successfully validated suite satisfies: the library's ranges, with hours unbounded. */
  predicate ValidDataInput(di: DataInput)
  {
    && 4 <= di.challenge.length <= 64
    && di.sessionLength <= 512
    && (di.timestamp.Some? ==> ValidTimeStep(di.timestamp.value))
  }

  predicate ValidSuite(s: Suite)
  {
    && ValidDigits(s.digits)
    && ValidDataInput(InputOf(s))
  }

  /** A valid data input whose time step, if any, is also within the intended hour bound. */
  predicate IntendedDataInput(di: DataInput)
  {
    ValidDataInput(di) && (di.timestamp.Some? ==> IntendedTimeStep(di.timestamp.value))
  }

  predicate IntendedSuite(s: Suite)
  {
    ValidDigits(s.digits) && IntendedDataInput(InputOf(s))
  }

  function InputOf(s: Suite): DataInput
  {
    DataInput(s.isCounter, s.challenge, s.passwordSha, s.sessionLength, s.timestamp)
  }

  function MakeSuite(hmac: HmacAlgorithm, digits: nat, di: DataInput): (s: Suite)
    ensures InputOf(s) == di
  {
    Suite(Ocra1, hmac, digits, di.isCounter, di.challenge, di.passwordSha, di.sessionLength, di.timestamp)
  }

  /** Digest length of the HMAC named by the suite, in bytes. */
  function HmacLength(h: HmacAlgorithm): nat
  {
    match h
    case HotpSha1 => 20
    case HotpSha256 => 32
    case HotpSha512 => 64
  }

  /** Length of the hashed password in the message (ocra.cpp:158-161). */
  function PasswordLength(p: Sha): nat
  {
    match p
    case NoHash => 0
    case Sha1 => 20
    case Sha256 => 32
    case Sha512 => 64
  }

  /** The question always takes 128 bytes of the message. */
  const QUESTION_LENGTH: nat := 128

  /** Length of the message for a suite whose canonical text has `textLength`
      characters (ocra.cpp:164-171). */
  function MessageLength(textLength: nat, s: Suite): nat
  {
    textLength + 1
    + (if s.isCounter then 8 else 0)
    + QUESTION_LENGTH
    + PasswordLength(s.passwordSha)
    + s.sessionLength
    + (if s.timestamp.Some? then 8 else 0)
  }
}
