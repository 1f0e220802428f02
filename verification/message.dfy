/** The message `Ocra::operator()` feeds to the HMAC (ocra.cpp:152-186 and
    218-355): the suite text and a zero byte, then the counter, the question,
    the hashed password, the session information and the timestamp, each
    present only when the suite asks for it. */
module Message {
  import opened Results
  import opened Errors
  import opened Ascii
  import opened Bytes
  import opened SuiteModel
  import opened HexCodec

  /** `OcraParameters` as `operator()` reads it: the HMAC key and the
      optional data inputs. */
  datatype Parameters = Parameters(
    key: seq<Byte>,
    counter: Option<U64>,
    timestamp: Option<U64>,
    question: Option<string>,
    password: Option<string>,
    sessionInfo: Option<string>)

  /** The user-supplied `ShaHashing(bytes, sha)`. */
  type ShaFunction = (seq<Byte>, Sha) -> seq<Byte>

  /** The bytes of a `std::string`, one per character. */
  function StringBytes(s: string): (bs: seq<Byte>)
    ensures |bs| == |s|
  {
    seq(|s|, i requires 0 <= i < |s| => ByteOf(s[i]))
  }

  /** `ConcatenateOcraSuite`: the stored suite text and the separating zero byte. */
  function SuiteField(text: string): (r: seq<Byte>)
    ensures |r| == |text| + 1
    ensures r[..|text|] == StringBytes(text) && r[|text|] == 0
  {
    StringBytes(text) + [0]
  }

  /** `ConcatenateCounter`: eight big-endian bytes when the suite has `C`. */
  function CounterField(s: Suite, p: Parameters): (r: Result<seq<Byte>, ErrorCode>)
    ensures r.Failure? <==> s.isCounter && p.counter.None?
    ensures r.Failure? ==> r.error == MissingCounter
    ensures r.Success? ==> |r.value| == (if s.isCounter then 8 else 0)
    ensures r.Success? && s.isCounter ==> BigEndianValue(r.value) == p.counter.value
  {
    if !s.isCounter then Success([])
    else if p.counter.None? then Failure(MissingCounter)
    else Success(Word64(p.counter.value))
  }

  /** What the library silently needs of the question to stay inside its
      buffers: an alphanumeric question fits the 128 bytes `memcpy` copies it
      into, a hexadecimal one packs into at most 128 bytes, and a numeric one
      is below 2^256, the capacity of `uint256DecToHex`'s `x[64]`. */
  predicate QuestionFits(s: Suite, p: Parameters)
  {
    p.question.Some? ==>
      var q := p.question.value;
      match s.challenge.format
      case Alphanumeric => |q| <= QUESTION_LENGTH
      case Hexadecimal => |HexWindow(q, |q|)| <= 2 * QUESTION_LENGTH
      case Numeric => AllDigits(q) ==> DecValue(q) < Pow16(64)
  }

  /** The hexadecimal digits of a numeric question, and their number. */
  function NumericHex(q: string): (r: (string, nat))
    requires AllDigits(q) && DecValue(q) < Pow16(64)
    ensures r.1 <= 64 && |r.0| == 65
    ensures r.0[..r.1] == HexText(DecValue(q)) && r.1 == |HexText(DecValue(q))|
  {
    var v := DecValue(q);
    HexTextLength(v, 64);
    (PaddedHex(v), |HexText(v)|)
  }

  /** The decoder reads exactly the hexadecimal digits of the value: no
      "0x" prefix can appear, and the padding is never reached. */
  lemma NumericWindow(q: string)
    requires AllDigits(q) && DecValue(q) < Pow16(64)
    ensures var (hex, n) := NumericHex(q);
      HexWindow(hex, n) == HexText(DecValue(q)) && AllHex(HexText(DecValue(q)))
  {
    var (hex, n) := NumericHex(q);
    HexTextValue(DecValue(q));
    HexWindowOfDigits(hex, n);
  }

  /** `ConcatenateQuestion`: an alphanumeric question is copied, a
      hexadecimal one decoded, and a numeric one checked for digits, turned
      into hexadecimal by `uint256DecToHex` and decoded with
      `questionHex.length()` as its length, which is always 65. */
  function QuestionField(s: Suite, p: Parameters): (r: Result<seq<Byte>, ErrorCode>)
    requires QuestionFits(s, p)
    ensures r.Success? ==> |r.value| == QUESTION_LENGTH
    ensures r.Failure? <==> p.question.None? || QuestionRejected(s.challenge.format, p.question.value)
    ensures r.Failure? ==> r.error == QuestionError(s.challenge.format, p.question)
  {
    if p.question.None? then Failure(MissingQuestion)
    else
      var q := p.question.value;
      match s.challenge.format
      case Alphanumeric => Success(Place(QUESTION_LENGTH, 0, StringBytes(q)))
      case Hexadecimal => HexDecode(QUESTION_LENGTH, 0, q, |q|, false)
      case Numeric =>
        if !AllDigits(q) then Failure(NonNumericQuestion)
        else
          var (hex, _) := NumericHex(q);
          PaddedHexRejected(q);
          HexDecode(QUESTION_LENGTH, 0, hex, |hex|, false)
  }

  /** When `ConcatenateQuestion` refuses a question: a hexadecimal question
      with a character read that is not a hex digit, and every numeric
      question. */
  predicate QuestionRejected(f: ChallengeFormat, q: string)
  {
    match f
    case Alphanumeric => false
    case Hexadecimal => !AllHex(HexWindow(q, |q|))
    case Numeric => true
  }

  /** The code a refused question reports: a numeric question of digits only
      fails in the decoder, so with the hexadecimal code. */
  function QuestionError(f: ChallengeFormat, q: Option<string>): ErrorCode
  {
    if q.None? then MissingQuestion
    else match f
      case Alphanumeric => MissingQuestion
      case Hexadecimal => InvalidHexDigit
      case Numeric => if AllDigits(q.value) then InvalidHexDigit else NonNumericQuestion
  }

  /** The 65 characters of a converted numeric question always hold a NUL
      among the characters the decoder reads, so decoding them fails. */
  lemma PaddedHexRejected(q: string)
    requires AllDigits(q) && DecValue(q) < Pow16(64)
    ensures var hex := NumericHex(q).0; HexDecode(QUESTION_LENGTH, 0, hex, |hex|, false) == Failure(InvalidHexDigit)
  {
    var (hex, n) := NumericHex(q);
    NumericWindow(q);
    assert hex[64] == '\0';
    var w := HexWindow(hex, |hex|);
    if CharAt(hex, 1) == 'x' {
      assert w[62] == hex[64];
    } else {
      assert w[64] == hex[64];
    }
    assert NibbleOf(hex[64]).None?;
  }

  /** The question field as evidently intended: the converted numeric
      question is decoded with the number of its hexadecimal digits. */
  function QuestionFieldCorrected(s: Suite, p: Parameters): (r: Result<seq<Byte>, ErrorCode>)
    requires QuestionFits(s, p)
    ensures r.Success? ==> |r.value| == QUESTION_LENGTH
    ensures r.Failure? <==> p.question.None? || QuestionRejectedCorrected(s.challenge.format, p.question.value)
    ensures r.Failure? ==> r.error == QuestionErrorCorrected(s.challenge.format, p.question)
  {
    if p.question.None? then Failure(MissingQuestion)
    else
      var q := p.question.value;
      match s.challenge.format
      case Alphanumeric => Success(Place(QUESTION_LENGTH, 0, StringBytes(q)))
      case Hexadecimal => HexDecode(QUESTION_LENGTH, 0, q, |q|, false)
      case Numeric =>
        if !AllDigits(q) then Failure(NonNumericQuestion)
        else
          var (hex, n) := NumericHex(q);
          NumericWindow(q);
          HexDecode(QUESTION_LENGTH, 0, hex, n, false)
  }

  /** With the corrected length, only a numeric question with a non-digit is
      refused among the numeric ones. */
  predicate QuestionRejectedCorrected(f: ChallengeFormat, q: string)
  {
    match f
    case Alphanumeric => false
    case Hexadecimal => !AllHex(HexWindow(q, |q|))
    case Numeric => !AllDigits(q)
  }

  /** The code the corrected field reports for a refused question. */
  function QuestionErrorCorrected(f: ChallengeFormat, q: Option<string>): ErrorCode
  {
    if q.None? then MissingQuestion
    else match f
      case Alphanumeric => MissingQuestion
      case Hexadecimal => InvalidHexDigit
      case Numeric => NonNumericQuestion
  }

  /** `ConcatenatePassword`: the injected hash of the password's bytes, which
      must have the length the suite's hash names. */
  function PasswordField(s: Suite, p: Parameters, sha: ShaFunction): (r: Result<seq<Byte>, ErrorCode>)
    ensures r.Success? ==> |r.value| == PasswordLength(s.passwordSha)
    ensures r == Failure(MissingPassword) <==> s.passwordSha != NoHash && p.password.None?
    ensures r == Failure(PasswordHashSize) <==> (s.passwordSha != NoHash && p.password.Some?
      && |sha(StringBytes(p.password.value), s.passwordSha)| != PasswordLength(s.passwordSha))
    ensures r.Success? && s.passwordSha != NoHash ==> r.value == sha(StringBytes(p.password.value), s.passwordSha)
  {
    if s.passwordSha == NoHash then Success([])
    else if p.password.None? then Failure(MissingPassword)
    else
      var h := sha(StringBytes(p.password.value), s.passwordSha);
      if |h| != PasswordLength(s.passwordSha) then Failure(PasswordHashSize)
      else Success(h)
  }

  /** `ConcatenateSessionInfo`: `sessionLength` characters of hexadecimal read
      right-aligned into `sessionLength` bytes; a shorter text is written from
      `sessionLength - length` on, but still read for `sessionLength`
      characters. */
  function SessionField(s: Suite, p: Parameters): (r: Result<seq<Byte>, ErrorCode>)
    ensures r.Success? ==> |r.value| == s.sessionLength
    ensures r.Failure? ==> r.error == (if p.sessionInfo.None? then MissingSession else InvalidHexDigit)
    ensures r.Failure? <==> (s.sessionLength > 0
      && (p.sessionInfo.None? || !AllHex(HexWindow(p.sessionInfo.value, s.sessionLength))))
  {
    var size := s.sessionLength;
    if size == 0 then Success([])
    else if p.sessionInfo.None? then Failure(MissingSession)
    else
      var info := p.sessionInfo.value;
      if |info| >= size then HexDecode(size, 0, info, size, true)
      else HexDecode(size, size - |info|, info, size, true)
  }

  /** `ConcatenateTimestamp`: eight big-endian bytes when the suite has `T`. */
  function TimestampField(s: Suite, p: Parameters): (r: Result<seq<Byte>, ErrorCode>)
    ensures r.Failure? <==> s.timestamp.Some? && p.timestamp.None?
    ensures r.Failure? ==> r.error == MissingTimestamp
    ensures r.Success? ==> |r.value| == (if s.timestamp.Some? then 8 else 0)
    ensures r.Success? && s.timestamp.Some? ==> BigEndianValue(r.value) == p.timestamp.value
  {
    if s.timestamp.None? then Success([])
    else if p.timestamp.None? then Failure(MissingTimestamp)
    else Success(Word64(p.timestamp.value))
  }

  /** The message from its fields, for the stored suite `text`: the fields
      in order, the first missing or malformed input stopping the build. */
  function Assemble(text: string, s: Suite, p: Parameters, sha: ShaFunction,
                    questionField: Result<seq<Byte>, ErrorCode>): Result<seq<Byte>, ErrorCode>
  {
    var counter :- CounterField(s, p);
    var question :- questionField;
    var password :- PasswordField(s, p, sha);
    var session :- SessionField(s, p);
    var time :- TimestampField(s, p);
    Success(SuiteField(text) + counter + question + password + session + time)
  }

  /** The message `operator()` builds, for the stored suite `text` and its
      parsed `s`. */
  function Build(text: string, s: Suite, p: Parameters, sha: ShaFunction): (r: Result<seq<Byte>, ErrorCode>)
    requires QuestionFits(s, p)
    ensures s.challenge.format == Numeric ==> r.Failure?
  {
    Assemble(text, s, p, sha, QuestionField(s, p))
  }

  /** The message with the corrected question field. */
  function BuildCorrected(text: string, s: Suite, p: Parameters, sha: ShaFunction): (r: Result<seq<Byte>, ErrorCode>)
    requires QuestionFits(s, p)
    ensures s.challenge.format != Numeric ==> r == Build(text, s, p, sha)
  {
    Assemble(text, s, p, sha, QuestionFieldCorrected(s, p))
  }

  /** The two question fields agree except on a numeric question of digits
      only, which the written code refuses with the hexadecimal code and the
      corrected code converts. */
  lemma QuestionFieldsAgree(s: Suite, p: Parameters)
    requires QuestionFits(s, p)
    ensures s.challenge.format != Numeric ==> QuestionField(s, p) == QuestionFieldCorrected(s, p)
    ensures QuestionField(s, p) != QuestionFieldCorrected(s, p) <==>
      s.challenge.format == Numeric && p.question.Some? && AllDigits(p.question.value)
    ensures QuestionField(s, p) != QuestionFieldCorrected(s, p) ==>
      QuestionField(s, p) == Failure(InvalidHexDigit) && QuestionFieldCorrected(s, p).Success?
  {
  }

  /** As written a numeric suite never builds a message; with the corrected
      field, it builds one exactly when the other fields allow it, and the
      written build then fails with the hexadecimal code. */
  lemma NumericSuiteNeverBuilds(text: string, s: Suite, p: Parameters, sha: ShaFunction)
    requires QuestionFits(s, p) && s.challenge.format == Numeric
    ensures Build(text, s, p, sha).Failure?
    ensures BuildCorrected(text, s, p, sha).Success? ==> Build(text, s, p, sha) == Failure(InvalidHexDigit)
    ensures p.question.Some? && AllDigits(p.question.value) && CounterField(s, p).Success?
      && PasswordField(s, p, sha).Success? && SessionField(s, p).Success? && TimestampField(s, p).Success?
      ==> BuildCorrected(text, s, p, sha).Success?
  {
  }

  /** The message has exactly the length `operator()` allocates for it. */
  lemma BuildLength(text: string, s: Suite, p: Parameters, sha: ShaFunction)
    requires QuestionFits(s, p) && Build(text, s, p, sha).Success?
    ensures |Build(text, s, p, sha).value| == MessageLength(|text|, s)
  {
  }

  /** Where each field lies in the message: the suite text and its zero byte
      first, the counter next, then the 128 question bytes, the password hash,
      the session bytes, and the timestamp in the last eight bytes. */
  lemma BuildLayout(text: string, s: Suite, p: Parameters, sha: ShaFunction)
    requires QuestionFits(s, p) && Build(text, s, p, sha).Success?
    ensures var m := Build(text, s, p, sha).value;
      var c := |text| + 1 + (if s.isCounter then 8 else 0);
      var w := c + QUESTION_LENGTH;
      var x := w + PasswordLength(s.passwordSha);
      var t := x + s.sessionLength;
      && |m| == t + (if s.timestamp.Some? then 8 else 0)
      && m[..|text|] == StringBytes(text) && m[|text|] == 0
      && (s.isCounter ==> BigEndianValue(m[|text| + 1..c]) == p.counter.value)
      && m[c..w] == QuestionField(s, p).value
      && (s.passwordSha != NoHash ==> m[w..x] == sha(StringBytes(p.password.value), s.passwordSha))
      && m[x..t] == SessionField(s, p).value
      && (s.timestamp.Some? ==> BigEndianValue(m[t..]) == p.timestamp.value)
  {
    var counter := CounterField(s, p).value;
    var question := QuestionField(s, p).value;
    var password := PasswordField(s, p, sha).value;
    var session := SessionField(s, p).value;
    var time := TimestampField(s, p).value;
    var head := SuiteField(text);
    var m := head + counter + question + password + session + time;
    assert Build(text, s, p, sha).value == m;
    Slices(head, counter, question, password, session, time);
    assert m[..|text|] == m[..|head|][..|text|];
    assert m[|text|] == m[..|head|][|text|];
  }

  /** The six parts of a concatenation, read back by position. */
  lemma Slices(a: seq<Byte>, b: seq<Byte>, c: seq<Byte>, d: seq<Byte>, e: seq<Byte>, f: seq<Byte>)
    ensures var m := a + b + c + d + e + f;
      var i1 := |a|; var i2 := i1 + |b|; var i3 := i2 + |c|; var i4 := i3 + |d|; var i5 := i4 + |e|;
      && |m| == i5 + |f|
      && m[..i1] == a && m[i1..i2] == b && m[i2..i3] == c
      && m[i3..i4] == d && m[i4..i5] == e && m[i5..] == f
  {
  }

  /** The build fails exactly when one of the fields does, and reports the
      first failing field's error in the library's order: counter, question,
      password, session, timestamp. */
  lemma BuildErrorOrder(text: string, s: Suite, p: Parameters, sha: ShaFunction)
    requires QuestionFits(s, p)
    ensures var r := Build(text, s, p, sha);
      && (CounterField(s, p).Failure? ==> r == Failure(MissingCounter))
      && ((CounterField(s, p).Success? && QuestionField(s, p).Failure?)
            ==> r == Failure(QuestionField(s, p).error))
      && ((CounterField(s, p).Success? && QuestionField(s, p).Success? && PasswordField(s, p, sha).Failure?)
            ==> r == Failure(PasswordField(s, p, sha).error))
      && ((CounterField(s, p).Success? && QuestionField(s, p).Success? && PasswordField(s, p, sha).Success?
            && SessionField(s, p).Failure?) ==> r == Failure(SessionField(s, p).error))
      && ((CounterField(s, p).Success? && QuestionField(s, p).Success? && PasswordField(s, p, sha).Success?
            && SessionField(s, p).Success? && TimestampField(s, p).Failure?) ==> r == Failure(MissingTimestamp))
      && (r.Success? <==> (CounterField(s, p).Success? && QuestionField(s, p).Success? && PasswordField(s, p, sha).Success?
            && SessionField(s, p).Success? && TimestampField(s, p).Success?))
  {
  }

  /** The message builder reports only missing or malformed inputs and the
      password hash length, codes 0x12 to 0x1A. */
  lemma BuildErrorCodes(text: string, s: Suite, p: Parameters, sha: ShaFunction)
    requires QuestionFits(s, p) && Build(text, s, p, sha).Failure?
    ensures 0x12 <= Code(Build(text, s, p, sha).error) <= 0x1A
  {
    var e := Build(text, s, p, sha).error;
    BuildFailsWithInputError(text, s, p, sha);
    InputErrorCode(e);
  }

  /** The errors the builder can report, by name. */
  predicate InputError(e: ErrorCode)
  {
    || e == MissingCounter || e == MissingQuestion || e == NonNumericQuestion
    || e == MissingPassword || e == PasswordHashSize || e == MissingSession
    || e == MissingTimestamp || e == InvalidHexDigit
  }

  lemma InputErrorCode(e: ErrorCode)
    requires InputError(e)
    ensures 0x12 <= Code(e) <= 0x1A
  {
  }

  lemma BuildFailsWithInputError(text: string, s: Suite, p: Parameters, sha: ShaFunction)
    requires QuestionFits(s, p) && Build(text, s, p, sha).Failure?
    ensures InputError(Build(text, s, p, sha).error)
  {
    var c := CounterField(s, p);
    var q := QuestionField(s, p);
    var w := PasswordField(s, p, sha);
    var x := SessionField(s, p);
    if c.Failure? {
    } else if q.Failure? {
      assert InputError(q.error);
    } else if w.Failure? {
    } else if x.Failure? {
    }
  }

  /** The parameters with every input the suite does not use cleared. */
  function Relevant(s: Suite, p: Parameters): (q: Parameters)
    ensures q.key == p.key && q.question == p.question
  {
    Parameters(
      p.key,
      if s.isCounter then p.counter else None,
      if s.timestamp.Some? then p.timestamp else None,
      p.question,
      if s.passwordSha != NoHash then p.password else None,
      if s.sessionLength > 0 then p.sessionInfo else None)
  }

  /** Inputs the suite does not ask for are never read: the message is the same
      with them cleared. */
  lemma UnusedInputsIgnored(text: string, s: Suite, p: Parameters, sha: ShaFunction)
    requires QuestionFits(s, p)
    ensures QuestionFits(s, Relevant(s, p))
    ensures Build(text, s, Relevant(s, p), sha) == Build(text, s, p, sha)
  {
    var q := Relevant(s, p);
    assert CounterField(s, q) == CounterField(s, p);
    assert QuestionField(s, q) == QuestionField(s, p);
    assert PasswordField(s, q, sha) == PasswordField(s, p, sha);
    assert SessionField(s, q) == SessionField(s, p);
    assert TimestampField(s, q) == TimestampField(s, p);
  }

  /** An alphanumeric question is copied byte for byte and the rest of its
      128 bytes stay zero. */
  lemma AlphanumericQuestion(s: Suite, p: Parameters)
    requires QuestionFits(s, p) && s.challenge.format == Alphanumeric && p.question.Some?
    ensures var r := QuestionField(s, p); var q := p.question.value;
      && r.Success?
      && r.value[..|q|] == StringBytes(q)
      && (forall k :: |q| <= k < QUESTION_LENGTH ==> r.value[k] == 0)
  {
  }

  /** With the corrected length, a numeric question is its value's hexadecimal
      text treated as a hexadecimal question. */
  lemma NumericAsHex(s: Suite, p: Parameters)
    requires QuestionFits(s, p) && s.challenge.format == Numeric && p.question.Some?
    requires AllDigits(p.question.value)
    ensures var t := HexText(DecValue(p.question.value));
      && AllHex(t) && HexValue(t) == DecValue(p.question.value)
      && QuestionFits(s.(challenge := s.challenge.(format := Hexadecimal)), p.(question := Some(t)))
      && QuestionFieldCorrected(s, p) == QuestionField(s.(challenge := s.challenge.(format := Hexadecimal)), p.(question := Some(t)))
      && QuestionFieldCorrected(s, p).Success?
  {
    var q := p.question.value;
    var t := HexText(DecValue(q));
    HexTextValue(DecValue(q));
    HexTextLength(DecValue(q), 64);
    NumericField(s, p);
    var s2 := s.(challenge := s.challenge.(format := Hexadecimal));
    var p2 := p.(question := Some(t));
    HexadecimalField(s2, p2);
  }

  /** The corrected numeric field decodes the value's hexadecimal digits. */
  lemma NumericField(s: Suite, p: Parameters)
    requires QuestionFits(s, p) && s.challenge.format == Numeric && p.question.Some?
    requires AllDigits(p.question.value)
    ensures var t := HexText(DecValue(p.question.value));
      QuestionFieldCorrected(s, p) == HexDecode(QUESTION_LENGTH, 0, t, |t|, false)
  {
    var q := p.question.value;
    var t := HexText(DecValue(q));
    var (hex, n) := NumericHex(q);
    NumericWindow(q);
    assert t[..|t|] == t;
    HexWindowOfDigits(t, |t|);
  }

  /** A hexadecimal question made of digits only fits and is decoded as it stands. */
  lemma HexadecimalField(s: Suite, p: Parameters)
    requires s.challenge.format == Hexadecimal && p.question.Some?
    requires AllHex(p.question.value) && |p.question.value| <= 64
    ensures QuestionFits(s, p)
    ensures QuestionField(s, p) == Success(Place(QUESTION_LENGTH, 0, Pack(Nibbles(p.question.value))))
  {
    var t := p.question.value;
    assert t[..|t|] == t;
    HexWindowOfDigits(t, |t|);
  }

  /** A session text shorter than `sessionLength` is always refused: the
      decoder reads `sessionLength` characters and meets the terminating NUL. */
  lemma ShortSessionFails(s: Suite, p: Parameters)
    requires s.sessionLength > 0 && p.sessionInfo.Some? && |p.sessionInfo.value| < s.sessionLength
    ensures SessionField(s, p) == Failure(InvalidHexDigit)
  {
    var info := p.sessionInfo.value;
    var m := |info|;
    var w := HexWindow(info, s.sessionLength);
    if s.sessionLength > 2 && CharAt(info, 1) == 'x' {
      assert w[m - 2] == CharAt(info, m);
    } else {
      assert w[m] == CharAt(info, m);
    }
  }

  /** A long session text is read only up to `sessionLength` characters, so
      at most half of the session bytes carry data; without a "0x" prefix
      and with an even length the second half stays zero. */
  lemma SessionReadsPrefix(s: Suite, p: Parameters)
    requires s.sessionLength > 0 && p.sessionInfo.Some? && |p.sessionInfo.value| >= s.sessionLength
    ensures var info := p.sessionInfo.value;
      SessionField(s, p) == SessionField(s, p.(sessionInfo := Some(info[..s.sessionLength])))
    ensures var info := p.sessionInfo.value; var r := SessionField(s, p);
      (r.Success? && s.sessionLength % 2 == 0 && CharAt(info, 1) != 'x') ==>
        forall k :: s.sessionLength / 2 <= k < s.sessionLength ==> r.value[k] == 0
  {
    var info := p.sessionInfo.value;
    var size := s.sessionLength;
    var short := info[..size];
    if size > 2 {
      assert CharAt(short, 1) == CharAt(info, 1);
    }
    assert HexWindow(short, size) == HexWindow(info, size);
  }

  /** `ConcatenateQuestion` step by step: the digit scan, `uint256DecToHex`
      and `StringHexToUint8` with the converted text's full length. */
  method ConcatenateQuestion(s: Suite, p: Parameters) returns (r: Result<seq<Byte>, ErrorCode>)
    requires QuestionFits(s, p)
    ensures r == QuestionField(s, p)
  {
    if p.question.None? {
      return Failure(MissingQuestion);
    }
    var q := p.question.value;
    match s.challenge.format
    case Alphanumeric =>
      r := Success(Place(QUESTION_LENGTH, 0, StringBytes(q)));
    case Hexadecimal =>
      r := StringHexToUint8(QUESTION_LENGTH, 0, q, |q|, false);
    case Numeric =>
      var i := 0;
      while i < |q|
        invariant 0 <= i <= |q|
        invariant forall k :: 0 <= k < i ==> IsDigit(q[k])
      {
        if q[i] < '0' || '9' < q[i] {
          return Failure(NonNumericQuestion);
        }
        i := i + 1;
      }
      var hex := UInt256DecToHex(q);
      r := StringHexToUint8(QUESTION_LENGTH, 0, hex, |hex|, false);
  }
}
