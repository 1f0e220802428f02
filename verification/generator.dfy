/** The `Ocra` object (ocra.cpp:139-216): built from a suite text that must
    validate, it turns parameters into a one-time password by hashing the
    message with the injected HMAC and truncating the digest. */
module Generator {
  import opened Results
  import opened Errors
  import opened Ascii
  import opened Bytes
  import opened SuiteModel
  import opened SuiteParser
  import opened SuiteText
  import opened Message
  import opened Truncation

  /** A constructed `Ocra`: the stored, upper-cased suite text (`m_suiteStr`)
      and the suite parsed from it (`m_suite`). */
  datatype Ocra = Ocra(text: string, suite: Suite)

  /** The user-supplied `HMACAlgorithm(message, key, hmac)`. */
  type HmacFunction = (seq<Byte>, seq<Byte>, HmacAlgorithm) -> seq<Byte>

  /** `Ocra(suite)` and `From(suite)`: the text is upper-cased in place and
      validated; a suite that fails validation yields no object. */
  function Create(suite: string): (r: Result<Ocra, ErrorCode>)
    ensures r.Failure? <==> Validate(suite).Failure?
    ensures r.Failure? ==> r.error == Validate(suite).error
    ensures r.Success? ==> && ValidSuite(r.value.suite)
                           && r.value.text == UpperString(suite)
                           && IsUpperCase(r.value.text)
                           && |r.value.text| == |suite|
                           && Validate(r.value.text) == Success(r.value.suite)
  {
    ValidateIgnoresCase(suite);
    var s :- Validate(suite);
    Success(Ocra(UpperString(suite), s))
  }

  /** Case does not matter: a suite and its upper-cased text build the same object. */
  lemma CreateIgnoresCase(suite: string)
    ensures Create(UpperString(suite)) == Create(suite)
  {
    ValidateIgnoresCase(suite);
    UpperStringFixpoint(suite);
  }

  /** Every suite the canonical text can spell can be built from that text,
      and the object keeps it. */
  lemma CreateFromCanonical(s: Suite)
    requires Renderable(s)
    ensures Create(ToString(s)) == Success(Ocra(ToString(s), s))
  {
    CanonicalText(s);
    UpperStringFixpoint(ToString(s));
  }

  /** `operator()`: key check, message, HMAC, digest-length check, and the
      truncation, which throws `std::out_of_range` for zero digits. */
  function Generate(o: Ocra, p: Parameters, sha: ShaFunction, hmac: HmacFunction): (r: Result<string, ErrorCode>)
    requires ValidSuite(o.suite) && QuestionFits(o.suite, p)
    ensures r.Success? ==> 4 <= o.suite.digits <= 10 && |r.value| == o.suite.digits
    ensures o.suite.challenge.format == Numeric || o.suite.digits == 0 ==> r.Failure?
  {
    if |p.key| == 0 then Failure(MissingKey)
    else
      var message :- Build(o.text, o.suite, p, sha);
      var hash := hmac(message, p.key, o.suite.hmac);
      if |hash| != HmacLength(o.suite.hmac) then Failure(HmacSize)
      else match Truncate(hash, o.suite.digits)
        case None => Failure(OutOfRange)
        case Some(otp) => Success(otp)
  }

  /** A password is `digits` decimal digits, 4 to 10 of them, spelling the
      code of the HMAC of exactly the built message modulo the `DIGITS`
      table's entry. */
  lemma GenerateShape(o: Ocra, p: Parameters, sha: ShaFunction, hmac: HmacFunction)
    requires ValidSuite(o.suite) && QuestionFits(o.suite, p)
    requires Generate(o, p, sha, hmac).Success?
    ensures var otp := Generate(o, p, sha, hmac).value;
      && o.suite.challenge.format != Numeric
      && Build(o.text, o.suite, p, sha).Success?
      && var hash := hmac(Build(o.text, o.suite, p, sha).value, p.key, o.suite.hmac);
      && |hash| == HmacLength(o.suite.hmac)
      && 4 <= o.suite.digits <= 10
      && |otp| == o.suite.digits && AllDigits(otp)
      && DecValue(otp) == DynamicBinary(hash) % Modulus(o.suite.digits)
  {
    var hash := hmac(Build(o.text, o.suite, p, sha).value, p.key, o.suite.hmac);
    TruncateSpec(hash, o.suite.digits);
  }

  /** The errors `operator()` reports, in order: the key first, then the
      message's inputs, then the injected HMAC's digest length, and last the
      exception of a zero digit count. A numeric suite never yields a
      password. */
  lemma GenerateErrors(o: Ocra, p: Parameters, sha: ShaFunction, hmac: HmacFunction)
    requires ValidSuite(o.suite) && QuestionFits(o.suite, p)
    ensures |p.key| == 0 ==> Generate(o, p, sha, hmac) == Failure(MissingKey)
    ensures |p.key| > 0 && Build(o.text, o.suite, p, sha).Failure? ==>
      Generate(o, p, sha, hmac) == Failure(Build(o.text, o.suite, p, sha).error)
    ensures Generate(o, p, sha, hmac) == Failure(HmacSize) <==>
      (&& |p.key| > 0 && Build(o.text, o.suite, p, sha).Success?
       && |hmac(Build(o.text, o.suite, p, sha).value, p.key, o.suite.hmac)| != HmacLength(o.suite.hmac))
    ensures Generate(o, p, sha, hmac) == Failure(OutOfRange) <==>
      (&& |p.key| > 0 && Build(o.text, o.suite, p, sha).Success?
       && |hmac(Build(o.text, o.suite, p, sha).value, p.key, o.suite.hmac)| == HmacLength(o.suite.hmac)
       && o.suite.digits == 0)
    ensures o.suite.challenge.format == Numeric ==> Generate(o, p, sha, hmac).Failure?
  {
    if |p.key| > 0 && Build(o.text, o.suite, p, sha).Failure? {
      BuildErrorCodes(o.text, o.suite, p, sha);
    }
  }

  /** Generation never reports a suite-descriptor error: its codes are 0x10
      to 0x1A, or the exception of a zero digit count, which sets none. */
  lemma GenerateErrorCodes(o: Ocra, p: Parameters, sha: ShaFunction, hmac: HmacFunction)
    requires ValidSuite(o.suite) && QuestionFits(o.suite, p) && Generate(o, p, sha, hmac).Failure?
    ensures var e := Generate(o, p, sha, hmac).error;
      e == OutOfRange || 0x10 <= Code(e) <= 0x1A
  {
    var e := Generate(o, p, sha, hmac).error;
    if |p.key| > 0 {
      var m := Build(o.text, o.suite, p, sha);
      if m.Failure? {
        BuildErrorCodes(o.text, o.suite, p, sha);
        assert e == m.error;
      } else {
        var hash := hmac(m.value, p.key, o.suite.hmac);
        if |hash| != HmacLength(o.suite.hmac) {
          assert e == HmacSize;
        } else if Truncate(hash, o.suite.digits).None? {
          assert e == OutOfRange;
        }
      }
    }
  }

  /** Only the key and the message reach the HMAC: parameters that build the
      same message under the same key give the same password. */
  lemma SameMessageSamePassword(o: Ocra, p: Parameters, q: Parameters, sha: ShaFunction, hmac: HmacFunction)
    requires ValidSuite(o.suite) && QuestionFits(o.suite, p) && QuestionFits(o.suite, q)
    requires p.key == q.key && |p.key| > 0
    requires Build(o.text, o.suite, p, sha) == Build(o.text, o.suite, q, sha)
    ensures Generate(o, p, sha, hmac) == Generate(o, q, sha, hmac)
  {
  }

  /** `operator()` as evidently intended: the corrected question field and
      truncation. */
  function GenerateCorrected(o: Ocra, p: Parameters, sha: ShaFunction, hmac: HmacFunction): (r: Result<string, ErrorCode>)
    requires ValidSuite(o.suite) && QuestionFits(o.suite, p)
    ensures r.Success? && o.suite.digits > 0 ==> |r.value| == o.suite.digits
    ensures r.Failure? ==> r.error != OutOfRange
  {
    if |p.key| == 0 then Failure(MissingKey)
    else
      var message :- BuildCorrected(o.text, o.suite, p, sha);
      var hash := hmac(message, p.key, o.suite.hmac);
      if |hash| != HmacLength(o.suite.hmac) then Failure(HmacSize)
      else Success(TruncateCorrected(hash, o.suite.digits))
  }

  /** A corrected password is `digits` decimal digits (or, for zero digits,
      the whole code without padding) computed from the HMAC of exactly the
      corrected message. */
  lemma GenerateCorrectedShape(o: Ocra, p: Parameters, sha: ShaFunction, hmac: HmacFunction)
    requires ValidSuite(o.suite) && QuestionFits(o.suite, p)
    requires GenerateCorrected(o, p, sha, hmac).Success?
    ensures var otp := GenerateCorrected(o, p, sha, hmac).value;
      && BuildCorrected(o.text, o.suite, p, sha).Success?
      && var hash := hmac(BuildCorrected(o.text, o.suite, p, sha).value, p.key, o.suite.hmac);
      && |hash| == HmacLength(o.suite.hmac)
      && AllDigits(otp)
      && (o.suite.digits > 0 ==> |otp| == o.suite.digits && DecValue(otp) == DynamicBinary(hash) % Pow10(o.suite.digits))
      && (o.suite.digits == 0 ==> DecValue(otp) == DynamicBinary(hash))
  {
    var hash := hmac(BuildCorrected(o.text, o.suite, p, sha).value, p.key, o.suite.hmac);
    TruncateCorrectedSpec(hash, o.suite.digits);
  }

  /** The written and the corrected generator agree on every non-numeric suite
      with 4 to 9 digits; a password the written one gives is the corrected
      one unless the code meets `INT32_MAX` with ten digits; and whenever the
      corrected one fails, so does the written one, with the same code unless
      the suite is numeric. */
  lemma GeneratorsAgree(o: Ocra, p: Parameters, sha: ShaFunction, hmac: HmacFunction)
    requires ValidSuite(o.suite) && QuestionFits(o.suite, p)
    ensures o.suite.challenge.format != Numeric && 4 <= o.suite.digits <= 9 ==>
      Generate(o, p, sha, hmac) == GenerateCorrected(o, p, sha, hmac)
    ensures Generate(o, p, sha, hmac).Success? ==>
      var hash := hmac(Build(o.text, o.suite, p, sha).value, p.key, o.suite.hmac);
      (o.suite.digits <= 9 || DynamicBinary(hash) < INT32_MAX) ==>
        GenerateCorrected(o, p, sha, hmac) == Generate(o, p, sha, hmac)
    ensures GenerateCorrected(o, p, sha, hmac).Failure? ==> Generate(o, p, sha, hmac).Failure?
    ensures GenerateCorrected(o, p, sha, hmac).Failure? && o.suite.challenge.format != Numeric ==>
      Generate(o, p, sha, hmac) == GenerateCorrected(o, p, sha, hmac)
  {
    if |p.key| > 0 && o.suite.challenge.format != Numeric {
      assert BuildCorrected(o.text, o.suite, p, sha) == Build(o.text, o.suite, p, sha);
      var m := Build(o.text, o.suite, p, sha);
      if m.Success? {
        var hash := hmac(m.value, p.key, o.suite.hmac);
        if |hash| == HmacLength(o.suite.hmac) {
          TruncationsAgree(hash, o.suite.digits);
        }
      }
    }
  }

  /** `operator()` step by step: the message, the truncation of
      ocra.cpp:194-199, `otp = binary % DIGITS[digits]` and the formatting
      loop of ocra.cpp:205-214. */
  method GenerateOtp(o: Ocra, p: Parameters, sha: ShaFunction, hmac: HmacFunction) returns (r: Result<string, ErrorCode>)
    requires ValidSuite(o.suite) && QuestionFits(o.suite, p)
    ensures r == Generate(o, p, sha, hmac)
  {
    if |p.key| == 0 {
      return Failure(MissingKey);
    }
    var message :- Build(o.text, o.suite, p, sha);
    var hash := hmac(message, p.key, o.suite.hmac);
    if |hash| != HmacLength(o.suite.hmac) {
      return Failure(HmacSize);
    }
    var digits := o.suite.digits;
    var otp := DynamicBinary(hash) % Modulus(digits);
    var text := FormatOtp(otp, digits);
    if text.None? {
      return Failure(OutOfRange);
    }
    r := Success(text.value);
  }
}
