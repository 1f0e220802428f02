/** The suite validator (`Ocra::Validate` and its helpers, ocra.cpp:388-633).
    The suite text is upper-cased, split on ':' into version, crypto function
    and data input, and every field is checked front to back; the first
    violated rule decides the error. */
module SuiteParser {
  import opened Results
  import opened Errors
  import opened Ascii
  import opened Splitter
  import opened SuiteModel

  /** Which part of the suite an error belongs to, in checking order:
      1 shape, 2 version, 3 crypto function, 4 data input. */
  function Stage(e: ErrorCode): nat
  {
    if e.InvalidSuite? then 1
    else if e.InvalidVersion? then 2
    else if e.InvalidCryptoFunction? || e.UnsupportedAlgorithm? || e.UnsupportedHash? || e.InvalidDigits? then 3
    else 4
  }

  datatype CryptoFunction = CryptoFunction(hmac: HmacAlgorithm, digits: nat)

  function ParseHash(name: string): Option<HmacAlgorithm>
  {
    if name == "SHA1" then Some(HotpSha1)
    else if name == "SHA256" then Some(HotpSha256)
    else if name == "SHA512" then Some(HotpSha512)
    else None
  }

  /** The digit counts are matched as whole strings (ocra.cpp:445-462). */
  function ParseDigits(t: string): Option<nat>
  {
    if t == "0" then Some(0)
    else if t == "4" then Some(4)
    else if t == "5" then Some(5)
    else if t == "6" then Some(6)
    else if t == "7" then Some(7)
    else if t == "8" then Some(8)
    else if t == "9" then Some(9)
    else if t == "10" then Some(10)
    else None
  }

  /** The hash names the crypto function accepts. */
  const HASH_NAMES: set<string> := {"SHA1", "SHA256", "SHA512"}

  /** The digit counts the crypto function accepts, as text. */
  const DIGIT_NAMES: set<string> := {"0", "4", "5", "6", "7", "8", "9", "10"}

  /** `ValidateCryptoFunction`: `HOTP-SHA<x>-<t>`. */
  function ParseCryptoFunction(field: string): (r: Result<CryptoFunction, ErrorCode>)
    ensures r.Success? ==> ValidDigits(r.value.digits)
    ensures r.Failure? ==> Stage(r.error) == 3
    ensures var f := Split(field, '-', 3);
      && (r == Failure(InvalidCryptoFunction) <==> f.count != 3)
      && (r == Failure(UnsupportedAlgorithm) <==> f.count == 3 && f.items[0] != "HOTP")
      && (r == Failure(UnsupportedHash) <==> f.count == 3 && f.items[0] == "HOTP" && f.items[1] !in HASH_NAMES)
      && (r == Failure(InvalidDigits) <==>
            f.count == 3 && f.items[0] == "HOTP" && f.items[1] in HASH_NAMES && f.items[2] !in DIGIT_NAMES)
  {
    var f := Split(field, '-', 3);
    if f.count != 3 then Failure(InvalidCryptoFunction)
    else if f.items[0] != "HOTP" then Failure(UnsupportedAlgorithm)
    else match ParseHash(f.items[1])
      case None => Failure(UnsupportedHash)
      case Some(h) =>
        match ParseDigits(f.items[2])
        case None => Failure(InvalidDigits)
        case Some(d) => Success(CryptoFunction(h, d))
  }

  function FormatOf(c: char): Option<ChallengeFormat>
  {
    if c == 'A' then Some(Alphanumeric)
    else if c == 'N' then Some(Numeric)
    else if c == 'H' then Some(Hexadecimal)
    else None
  }

  /** `ValidateDataInputChallenge` on the text after 'Q': `<F><LL>`, the
      length read by `atoi` into the `uint8_t` field. */
  function ParseChallenge(body: string): (r: Result<Challenge, ErrorCode>)
    ensures r.Failure? ==> r.error.ChallengeShape? || r.error.ChallengeFormat? || r.error.ChallengeLength?
    ensures |body| != 3 <==> r == Failure(ChallengeShape)
    ensures |body| == 3 ==> (body[0] !in "ANH" <==> r == Failure(ChallengeFormat))
    ensures |body| == 3 && body[0] in "ANH" ==>
      (r == Failure(ChallengeLength) <==> !(4 <= ToU8(AtoI(body[1..])) <= 64))
    ensures r.Success? ==> && |body| == 3 && FormatOf(body[0]) == Some(r.value.format)
                           && r.value.length == ToU8(AtoI(body[1..])) && 4 <= r.value.length <= 64
  {
    if |body| != 3 then Failure(ChallengeShape)
    else match FormatOf(body[0])
      case None => Failure(ChallengeFormat)
      case Some(format) =>
        var length := ToU8(AtoI(body[1..]));
        if length < 4 || 64 < length then Failure(ChallengeLength)
        else Success(Challenge(format, length))
  }

  /** `atoi` stops at the first non-digit, so a one-digit length followed by
      any other character is accepted as that digit, e.g. `A4X` as length 4. */
  lemma ChallengeTailIgnored(f: char, a: nat, c: char)
    requires f in "ANH" && 4 <= a <= 9 && !IsDigit(c)
    ensures ParseChallenge([f, DigitChar(a), c]) == Success(Challenge(FormatOf(f).value, a))
  {
    var body := [f, DigitChar(a), c];
    assert body[1..] == [] + [DigitChar(a)] + [c];
    AtoIUnsigned([], [DigitChar(a)], [c]);
    assert DecValue([DigitChar(a)]) == a by {
      assert [DigitChar(a)][..0] == [];
    }
  }

  /** `ValidateDataInputPassword` on the text after 'P'. */
  function ParsePassword(body: string): (r: Result<Sha, ErrorCode>)
    ensures r.Success? ==> r.value != NoHash
    ensures r.Failure? ==> r.error.PasswordHash?
    ensures r.Failure? <==> body !in {"SHA1", "SHA256", "SHA512"}
  {
    if body == "SHA1" then Success(Sha1)
    else if body == "SHA256" then Success(Sha256)
    else if body == "SHA512" then Success(Sha512)
    else Failure(PasswordHash)
  }

  /** `ValidateDataInputSession` on the text after 'S': `<nnn>`, read by
      `atoi` into the `uint16_t` field, in 1..512. */
  function ParseSession(body: string): (r: Result<U16, ErrorCode>)
    ensures r.Failure? ==> r.error.SessionShape? || r.error.SessionLength?
    ensures |body| != 3 <==> r == Failure(SessionShape)
    ensures |body| == 3 ==> (r == Failure(SessionLength) <==> !(1 <= ToU16(AtoI(body)) <= 512))
    ensures r.Success? ==> r.value == ToU16(AtoI(body)) && 1 <= r.value <= 512
  {
    if |body| != 3 then Failure(SessionShape)
    else
      var n := ToU16(AtoI(body));
      if n < 1 || 512 < n then Failure(SessionLength) else Success(n)
  }

  function UnitOf(c: char): Option<TimeUnit>
  {
    if c == 'S' then Some(Seconds)
    else if c == 'M' then Some(Minutes)
    else if c == 'H' then Some(Hours)
    else None
  }

  /** `ValidateDataInputTimestamp` on the text after 'T', as the library
      writes it: the value is read by `atoi` into the `uint8_t` field, and the
      hour bound `time < 0 && 48 < time` (ocra.cpp:525) can never hold, so
      any hour value is accepted. */
  function ParseTimestamp(body: string): (r: Result<TimeStep, ErrorCode>)
    ensures r.Failure? ==> r.error.TimestampShape? || r.error.TimestampStep? || r.error.TimestampValue?
    ensures (|body| < 2 || 3 < |body|) <==> r == Failure(TimestampShape)
    ensures 2 <= |body| <= 3 ==> (body[|body| - 1] !in "SMH" <==> r == Failure(TimestampStep))
    ensures 2 <= |body| <= 3 && body[|body| - 1] in "SMH" ==>
      (r == Failure(TimestampValue) <==>
         body[|body| - 1] != 'H' && !(1 <= ToU8(AtoI(body[..|body| - 1])) <= 59))
    ensures r.Success? ==> && 2 <= |body| <= 3 && UnitOf(body[|body| - 1]) == Some(r.value.unit)
                           && r.value.time == ToU8(AtoI(body[..|body| - 1])) && ValidTimeStep(r.value)
  {
    if |body| < 2 || 3 < |body| then Failure(TimestampShape)
    else match UnitOf(body[|body| - 1])
      case None => Failure(TimestampStep)
      case Some(unit) =>
        var time := ToU8(AtoI(body[..|body| - 1]));
        if ((unit == Seconds || unit == Minutes) && (time < 1 || 59 < time)) || (time < 0 && 48 < time)
        then Failure(TimestampValue)
        else Success(TimeStep(unit, time))
  }

  /** The hour bound never fires: the rule accepts `99H`, and on its own also
      `-1H`, whose `atoi` value -1 is stored in the `uint8_t` as 255. The data
      input is split on '-' before this rule runs, so through the validator
      only the first case arises. */
  lemma HoursBoundNotEnforced()
    ensures ParseTimestamp("99H") == Success(TimeStep(Hours, 99))
    ensures ParseTimestamp("-1H") == Success(TimeStep(Hours, 255))
  {
    assert "99H"[..2] == "99";
    AtoIOfDigits("99");
    assert DecValue("99") == 99 by {
      assert "99"[..1] == "9";
      assert DecValue("9") == 9 by {
        assert "9"[..0] == "";
      }
    }
    assert "-1H"[..2] == "-1";
    assert "-1"[1..] == "1";
    AtoIOfDigits("1");
    assert DecValue("1") == 1 by {
      assert "1"[..0] == "";
    }
    assert LeadingDigits("1") == "1";
  }

  /** The timestamp rule with the evidently intended hour bound 0..48. */
  function ParseTimestampCorrected(body: string): (r: Result<TimeStep, ErrorCode>)
    ensures r.Success? ==> IntendedTimeStep(r.value)
    ensures r.Failure? ==> r.error.TimestampShape? || r.error.TimestampStep? || r.error.TimestampValue?
    ensures r.Success? <==> ParseTimestamp(body).Success? && IntendedTimeStep(ParseTimestamp(body).value)
    ensures r.Success? ==> r == ParseTimestamp(body)
    ensures r.Failure? && r.error != TimestampValue ==> r == ParseTimestamp(body)
  {
    match ParseTimestamp(body)
    case Failure(e) => Failure(e)
    case Success(ts) =>
      if ts.unit == Hours && 48 < ts.time then Failure(TimestampValue) else Success(ts)
  }

  /** The corrected rule rejects the hour values the library lets through. */
  lemma HoursBoundEnforced()
    ensures ParseTimestampCorrected("99H") == Failure(TimestampValue)
    ensures ParseTimestampCorrected("-1H") == Failure(TimestampValue)
  {
    HoursBoundNotEnforced();
  }

  /** Which hour rule the timestamp slot applies: the library's, or the
      corrected one of `ParseTimestampCorrected`. */
  datatype HourRule = AsWritten | Corrected

  function ParseTimestampBy(rule: HourRule, body: string): Result<TimeStep, ErrorCode>
  {
    if rule == AsWritten then ParseTimestamp(body) else ParseTimestampCorrected(body)
  }

  /** The time steps a rule lets through. */
  predicate Admits(rule: HourRule, ts: TimeStep)
  {
    ValidTimeStep(ts) && (rule == Corrected ==> IntendedTimeStep(ts))
  }

  predicate StartsWith(token: string, c: char)
  {
    |token| > 0 && token[0] == c
  }

  /** `InsertCounterInputData`: only the first character is looked at. */
  function CounterSlot(token: string): (r: Result<bool, ErrorCode>)
    ensures r.Failure? ==> Stage(r.error) == 4
    ensures r.Success? <==> |token| > 0
    ensures r.Success? ==> (r.value <==> StartsWith(token, 'C'))
  {
    if |token| == 0 then Failure(MissingFirstDataInput) else Success(token[0] == 'C')
  }

  /** `InsertChallengeInputData`: the challenge is mandatory. */
  function ChallengeSlot(token: string): (r: Result<Challenge, ErrorCode>)
    ensures r.Failure? ==> Stage(r.error) == 4
    ensures r == Failure(EmptyChallenge) <==> token == ""
    ensures r == Failure(MissingChallenge) <==> token != "" && token[0] != 'Q'
    ensures StartsWith(token, 'Q') ==> r == ParseChallenge(token[1..])
  {
    if |token| == 0 then Failure(EmptyChallenge)
    else if token[0] == 'Q' then ParseChallenge(token[1..])
    else Failure(MissingChallenge)
  }

  /** `InsertPasswordInputData`: consumed only when the token starts with 'P'. */
  function PasswordSlot(token: string): (r: Result<Sha, ErrorCode>)
    ensures r.Failure? ==> Stage(r.error) == 4
    ensures r.Success? ==> (r.value != NoHash <==> StartsWith(token, 'P'))
    ensures StartsWith(token, 'P') ==> r == ParsePassword(token[1..])
  {
    if StartsWith(token, 'P') then ParsePassword(token[1..]) else Success(NoHash)
  }

  /** `InsertSessionInputData`: consumed only when the token starts with 'S'. */
  function SessionSlot(token: string): (r: Result<U16, ErrorCode>)
    ensures r.Failure? ==> Stage(r.error) == 4
    ensures r.Success? ==> r.value <= 512 && (r.value > 0 <==> StartsWith(token, 'S'))
    ensures StartsWith(token, 'S') ==> r == ParseSession(token[1..])
  {
    if StartsWith(token, 'S') then ParseSession(token[1..]) else Success(0)
  }

  /** `InsertTimestampInputData`: consumed only when the token starts with 'T',
      checked by the library's rule or the corrected one. */
  function TimestampSlot(token: string, rule: HourRule): (r: Result<Option<TimeStep>, ErrorCode>)
    ensures r.Failure? ==> Stage(r.error) == 4
    ensures !StartsWith(token, 'T') ==> r == Success(None)
    ensures StartsWith(token, 'T') ==> match ParseTimestampBy(rule, token[1..])
      case Success(ts) => r == Success(Some(ts)) && Admits(rule, ts)
      case Failure(e) => r == Failure(e)
  {
    if StartsWith(token, 'T') then
      match ParseTimestampBy(rule, token[1..])
      case Success(ts) => Success(Some(ts))
      case Failure(e) => Failure(e)
    else Success(None)
  }

  /** The letters of the optional slots P, S, T a data input fills, in order. */
  function TailLetters(tail: Tail): string
  {
    (if tail.passwordSha != NoHash then "P" else "")
    + (if tail.sessionLength > 0 then "S" else "")
    + (if tail.timestamp.Some? then "T" else "")
  }

  /** The slot letters a data input consumes, in slot order C, Q, P, S, T. */
  function SlotLetters(di: DataInput): string
  {
    (if di.isCounter then "C" else "") + "Q" + TailLetters(Tail(di.passwordSha, di.sessionLength, di.timestamp))
  }

  /** The tokens from index `i` on start with the letters `l`, one each. */
  predicate LettersAt(t: seq<string>, i: nat, l: string)
  {
    i + |l| <= |t| && forall j :: 0 <= j < |l| ==> StartsWith(t[i + j], l[j])
  }

  lemma LettersAtAppend(t: seq<string>, i: nat, a: string, b: string)
    requires LettersAt(t, i, a) && LettersAt(t, i + |a|, b)
    ensures LettersAt(t, i, a + b)
  {
    forall j | 0 <= j < |a + b|
      ensures StartsWith(t[i + j], (a + b)[j])
    {
      if j >= |a| {
        assert (a + b)[j] == b[j - |a|];
        assert t[i + j] == t[i + |a| + (j - |a|)];
      }
    }
  }

  /** The optional part of a data input. */
  datatype Tail = Tail(passwordSha: Sha, sessionLength: U16, timestamp: Option<TimeStep>)

  /** `ValidateDataInput`: the tokens of `split<5>(dataInput, '-')` are offered
      to the slots C, Q, P, S, T in turn; each slot consumes the current token
      or lets the next slot see it; every token met must have been consumed. */
  function ParseDataInput(field: string, rule: HourRule): (r: Result<DataInput, ErrorCode>)
    ensures r.Success? ==> ValidDataInput(r.value)
    ensures r.Success? && rule == Corrected ==> IntendedDataInput(r.value)
    ensures r.Failure? ==> Stage(r.error) == 4
    ensures Split(field, '-', 5).items[0] == "" ==> r == Failure(MissingFirstDataInput)
    ensures r.Success? ==> var f := Split(field, '-', 5); var l := SlotLetters(r.value);
      f.count == |l| && f.count == Consumed(f.items) && LettersAt(f.items, 0, l)
  {
    var f := Split(field, '-', 5);
    LeftoverRejected(f.items, f.count, rule);
    ParseTokens(f.items, f.count, rule)
  }

  /** The slot walk over the five token slots and the token count: the
      mandatory counter-or-not and challenge slots, then the optional ones. */
  function ParseTokens(t: seq<string>, count: nat, rule: HourRule): (r: Result<DataInput, ErrorCode>)
    requires |t| == 5
    ensures r.Success? ==> ValidDataInput(r.value)
    ensures r.Success? && rule == Corrected ==> IntendedDataInput(r.value)
    ensures r.Failure? ==> Stage(r.error) == 4
    ensures t[0] == "" <==> r == Failure(MissingFirstDataInput)
    ensures var i0 := if StartsWith(t[0], 'C') then 1 else 0;
      t[0] != "" ==> && (r == Failure(EmptyChallenge) <==> t[i0] == "")
                     && (r == Failure(MissingChallenge) <==> t[i0] != "" && t[i0][0] != 'Q')
    ensures r.Success? ==> var l := SlotLetters(r.value);
      count == |l| && LettersAt(t, 0, l)
  {
    var counter :- CounterSlot(t[0]);
    var i0 := if counter then 1 else 0;
    var challenge :- ChallengeSlot(t[i0]);
    var tail :- PasswordWalk(t, count, i0 + 1, rule);
    var head := (if counter then "C" else "") + "Q";
    assert LettersAt(t, 0, head);
    LettersAtAppend(t, 0, head, TailLetters(tail));
    Success(DataInput(counter, challenge, tail.passwordSha, tail.sessionLength, tail.timestamp))
  }

  /** The errors of the slots after the challenge's: none of them is the
      missing first token or a missing challenge. */
  predicate AfterChallenge(e: ErrorCode)
  {
    e != MissingFirstDataInput && e != EmptyChallenge && e != MissingChallenge
  }

  /** The P slot at token `i`, then the rest of the walk. */
  function PasswordWalk(t: seq<string>, count: nat, i: nat, rule: HourRule): (r: Result<Tail, ErrorCode>)
    requires |t| == 5 && i <= 2
    ensures r.Failure? ==> Stage(r.error) == 4
    ensures r.Failure? ==> AfterChallenge(r.error)
    ensures r.Success? ==> r.value.sessionLength <= 512
    ensures r.Success? && r.value.timestamp.Some? ==> Admits(rule, r.value.timestamp.value)
    ensures r.Success? ==> var l := TailLetters(r.value);
      count == i + |l| && LettersAt(t, i, l)
  {
    var password :- PasswordSlot(t[i]);
    var next := if StartsWith(t[i], 'P') then i + 1 else i;
    var rest :- SessionWalk(t, count, next, rule);
    PasswordLetters(t, count, i, Tail(password, rest.0, rest.1));
    Success(Tail(password, rest.0, rest.1))
  }

  /** The letters the P slot and the rest of the walk consumed, together. */
  lemma PasswordLetters(t: seq<string>, count: nat, i: nat, tail: Tail)
    requires |t| == 5 && i <= 2
    requires tail.passwordSha != NoHash <==> StartsWith(t[i], 'P')
    requires var next := if StartsWith(t[i], 'P') then i + 1 else i;
      var l := (if tail.sessionLength > 0 then "S" else "") + (if tail.timestamp.Some? then "T" else "");
      count == next + |l| && LettersAt(t, next, l)
    ensures var l := TailLetters(tail);
      count == i + |l| && LettersAt(t, i, l)
  {
    var p := if tail.passwordSha != NoHash then "P" else "";
    var rest := (if tail.sessionLength > 0 then "S" else "") + (if tail.timestamp.Some? then "T" else "");
    assert LettersAt(t, i, p);
    LettersAtAppend(t, i, p, rest);
    assert TailLetters(tail) == p + rest;
  }

  /** The S slot at token `i`, then the rest of the walk. */
  function SessionWalk(t: seq<string>, count: nat, i: nat, rule: HourRule): (r: Result<(U16, Option<TimeStep>), ErrorCode>)
    requires |t| == 5 && i <= 3
    ensures r.Failure? ==> Stage(r.error) == 4
    ensures r.Failure? ==> AfterChallenge(r.error)
    ensures r.Success? ==> r.value.0 <= 512
    ensures r.Success? && r.value.1.Some? ==> Admits(rule, r.value.1.value)
    ensures r.Success? ==> var l := (if r.value.0 > 0 then "S" else "") + (if r.value.1.Some? then "T" else "");
      count == i + |l| && LettersAt(t, i, l)
  {
    var session :- SessionSlot(t[i]);
    var next := if StartsWith(t[i], 'S') then i + 1 else i;
    var timestamp :- TimestampWalk(t, count, next, rule);
    SessionLetters(t, count, i, session, timestamp);
    Success((session, timestamp))
  }

  /** The S slot's walk when the slot and the rest of the walk succeed. */
  lemma SessionWalkStep(t: seq<string>, count: nat, i: nat, session: U16, ts: Option<TimeStep>)
    requires |t| == 5 && i <= 3 && SessionSlot(t[i]) == Success(session)
    requires TimestampWalk(t, count, if StartsWith(t[i], 'S') then i + 1 else i, AsWritten) == Success(ts)
    ensures SessionWalk(t, count, i, AsWritten) == Success((session, ts))
  {
  }

  /** The letters the S slot and the rest of the walk consumed, together. */
  lemma SessionLetters(t: seq<string>, count: nat, i: nat, session: nat, ts: Option<TimeStep>)
    requires |t| == 5 && i <= 3
    requires session > 0 <==> StartsWith(t[i], 'S')
    requires var next := if StartsWith(t[i], 'S') then i + 1 else i;
      var l := if ts.Some? then "T" else "";
      count == next + |l| && LettersAt(t, next, l)
    ensures var l := (if session > 0 then "S" else "") + (if ts.Some? then "T" else "");
      count == i + |l| && LettersAt(t, i, l)
  {
    var s := if session > 0 then "S" else "";
    assert LettersAt(t, i, s);
    LettersAtAppend(t, i, s, if ts.Some? then "T" else "");
  }

  /** The T slot at token `i`, then the check that no token is left over. */
  function TimestampWalk(t: seq<string>, count: nat, i: nat, rule: HourRule): (r: Result<Option<TimeStep>, ErrorCode>)
    requires |t| == 5 && i <= 4
    ensures r.Failure? ==> Stage(r.error) == 4
    ensures r.Failure? ==> AfterChallenge(r.error)
    ensures TimestampSlot(t[i], rule).Failure? ==> r == Failure(TimestampSlot(t[i], rule).error)
    ensures TimestampSlot(t[i], rule).Success? ==> (r == Failure(UnexpectedDataInput) <==> count != AfterT(t, i))
    ensures r.Success? && r.value.Some? ==> Admits(rule, r.value.value)
    ensures r.Success? ==> var l := if r.value.Some? then "T" else "";
      count == i + |l| && LettersAt(t, i, l)
  {
    var timestamp :- TimestampSlot(t[i], rule);
    var next := if StartsWith(t[i], 'T') then i + 1 else i;
    if next != count then Failure(UnexpectedDataInput) else Success(timestamp)
  }

  /** Where the walk stands after the T slot at token `i`. */
  function AfterT(t: seq<string>, i: nat): nat
    requires |t| == 5 && i <= 4
  {
    if StartsWith(t[i], 'T') then i + 1 else i
  }

  /** Where the walk stands after the S and T slots from token `i` on. */
  function AfterS(t: seq<string>, i: nat): nat
    requires |t| == 5 && i <= 3
  {
    AfterT(t, if StartsWith(t[i], 'S') then i + 1 else i)
  }

  /** Where the walk stands after the P, S and T slots from token `i` on. */
  function AfterP(t: seq<string>, i: nat): nat
    requires |t| == 5 && i <= 2
  {
    AfterS(t, if StartsWith(t[i], 'P') then i + 1 else i)
  }

  /** How many tokens the five slots take, judged by first letters alone:
      the counter if the first token starts with C, always the challenge,
      then each of P, S and T whose letter comes next. */
  function Consumed(t: seq<string>): nat
    requires |t| == 5
  {
    AfterP(t, (if StartsWith(t[0], 'C') then 1 else 0) + 1)
  }

  lemma TimestampLeftover(t: seq<string>, count: nat, i: nat, rule: HourRule)
    requires |t| == 5 && i <= 4
    ensures TimestampWalk(t, count, i, rule).Success? ==> count == AfterT(t, i)
    ensures TimestampWalk(t, count, i, rule) == Failure(UnexpectedDataInput) <==>
      count != AfterT(t, i) && TimestampWalk(t, AfterT(t, i), i, rule).Success?
  {
  }

  lemma SessionLeftover(t: seq<string>, count: nat, i: nat, rule: HourRule)
    requires |t| == 5 && i <= 3
    ensures SessionWalk(t, count, i, rule).Success? ==> count == AfterS(t, i)
    ensures SessionWalk(t, count, i, rule) == Failure(UnexpectedDataInput) <==>
      count != AfterS(t, i) && SessionWalk(t, AfterS(t, i), i, rule).Success?
  {
    var next := if StartsWith(t[i], 'S') then i + 1 else i;
    TimestampLeftover(t, count, next, rule);
    TimestampLeftover(t, AfterS(t, i), next, rule);
  }

  lemma PasswordLeftover(t: seq<string>, count: nat, i: nat, rule: HourRule)
    requires |t| == 5 && i <= 2
    ensures PasswordWalk(t, count, i, rule).Success? ==> count == AfterP(t, i)
    ensures PasswordWalk(t, count, i, rule) == Failure(UnexpectedDataInput) <==>
      count != AfterP(t, i) && PasswordWalk(t, AfterP(t, i), i, rule).Success?
  {
    var next := if StartsWith(t[i], 'P') then i + 1 else i;
    SessionLeftover(t, count, next, rule);
    SessionLeftover(t, AfterP(t, i), next, rule);
  }

  /** A token left over is reported as 0x1E exactly when every slot accepted
      what it took: the walk succeeds only when `split` counted as many tokens
      as the slots consumed, and otherwise fails with 0x1E precisely when it
      would have succeeded with the right count. */
  lemma LeftoverRejected(t: seq<string>, count: nat, rule: HourRule)
    requires |t| == 5
    ensures ParseTokens(t, count, rule).Success? ==> count == Consumed(t)
    ensures ParseTokens(t, count, rule) == Failure(UnexpectedDataInput) <==>
      count != Consumed(t) && ParseTokens(t, Consumed(t), rule).Success?
  {
    if t[0] != "" {
      var i0 := if StartsWith(t[0], 'C') then 1 else 0;
      TokensThroughWalk(t, count, rule);
      TokensThroughWalk(t, Consumed(t), rule);
      if ChallengeSlot(t[i0]).Success? {
        PasswordLeftover(t, count, i0 + 1, rule);
        PasswordLeftover(t, Consumed(t), i0 + 1, rule);
      }
    }
  }

  /** Past a non-empty first token, the data input stands or falls with the
      challenge slot and then with the walk over the P, S and T slots. */
  lemma TokensThroughWalk(t: seq<string>, count: nat, rule: HourRule)
    requires |t| == 5 && t[0] != ""
    ensures var i0 := if StartsWith(t[0], 'C') then 1 else 0; var r := ParseTokens(t, count, rule);
      && (ChallengeSlot(t[i0]).Failure? ==> r == Failure(ChallengeSlot(t[i0]).error) && r.error != UnexpectedDataInput)
      && (ChallengeSlot(t[i0]).Success? ==>
            && (r.Success? <==> PasswordWalk(t, count, i0 + 1, rule).Success?)
            && (r.Failure? ==> r.error == PasswordWalk(t, count, i0 + 1, rule).error))
  {
  }

  /** The letters of a data input are strictly ordered C < Q < P < S < T, so no
      letter appears twice. */
  lemma SlotLettersDistinct(di: DataInput)
    ensures var l := SlotLetters(di);
      1 <= |l| <= 5 && forall j, k :: 0 <= j < k < |l| ==> l[j] != l[k]
  {
  }

  /** Two tokens with the same first letter are never both accepted: a repeated
      data input is an error. */
  lemma RepeatedTokenRejected(t: seq<string>, count: nat, j: nat, k: nat, rule: HourRule)
    requires |t| == 5 && j < k < 5 && k < count
    requires |t[j]| > 0 && |t[k]| > 0 && t[j][0] == t[k][0]
    ensures ParseTokens(t, count, rule).Failure?
  {
    TokenLetter(t, count, j, rule);
    TokenLetter(t, count, k, rule);
    DistinctLetters(t, count, j, k, rule);
  }

  /** An empty token among those met is an error; a trailing '-' makes one. */
  lemma EmptyTokenRejected(t: seq<string>, count: nat, j: nat, rule: HourRule)
    requires |t| == 5 && j < 5 && j < count && t[j] == ""
    ensures ParseTokens(t, count, rule).Failure?
  {
    TokenLetter(t, count, j, rule);
  }

  /** An accepted token `j` starts with the `j`-th slot letter. */
  lemma TokenLetter(t: seq<string>, count: nat, j: nat, rule: HourRule)
    requires |t| == 5 && j < count
    ensures var r := ParseTokens(t, count, rule);
      r.Success? ==> var l := SlotLetters(r.value); j < |l| && StartsWith(t[j], l[j])
  {
    var r := ParseTokens(t, count, rule);
    if r.Success? {
      var l := SlotLetters(r.value);
      assert StartsWith(t[0 + j], l[j]);
    }
  }

  /** Two different accepted positions carry different slot letters. */
  lemma DistinctLetters(t: seq<string>, count: nat, j: nat, k: nat, rule: HourRule)
    requires |t| == 5 && j < k < count
    ensures var r := ParseTokens(t, count, rule);
      r.Success? ==> var l := SlotLetters(r.value); k < |l| && l[j] != l[k]
  {
    var r := ParseTokens(t, count, rule);
    if r.Success? {
      SlotLettersDistinct(r.value);
    }
  }

  /** `Validate`: the whole suite, upper-cased first, as the library checks it. */
  function Validate(suite: string): (r: Result<Suite, ErrorCode>)
    ensures r.Success? ==> ValidSuite(r.value)
    ensures var f := Split(UpperString(suite), ':', 3);
      && (r == Failure(InvalidSuite) <==> f.count != 3)
      && (r == Failure(InvalidVersion) <==> f.count == 3 && f.items[0] != "OCRA-1")
      && (r.Failure? && Stage(r.error) == 4 ==> ParseCryptoFunction(f.items[1]).Success?)
  {
    var f := Split(UpperString(suite), ':', 3);
    if f.count != 3 then Failure(InvalidSuite)
    else if f.items[0] != "OCRA-1" then Failure(InvalidVersion)
    else
      var crypto :- ParseCryptoFunction(f.items[1]);
      var di :- ParseDataInput(f.items[2], AsWritten);
      Success(MakeSuite(crypto.hmac, crypto.digits, di))
  }

  /** After the version, the crypto function decides first, and its error is
      reported as it stands; then the data input decides; an accepted suite
      carries the HMAC, the digit count and the data input they parsed. */
  lemma ValidateStages(suite: string)
    ensures var f := Split(UpperString(suite), ':', 3); var r := Validate(suite);
      f.count == 3 && f.items[0] == "OCRA-1" ==>
        var crypto := ParseCryptoFunction(f.items[1]);
        var di := ParseDataInput(f.items[2], AsWritten);
        && (crypto.Failure? ==> r == Failure(crypto.error))
        && (crypto.Success? && di.Failure? ==> r == Failure(di.error))
        && (r.Success? <==> crypto.Success? && di.Success?)
        && (r.Success? ==> && r.value.hmac == crypto.value.hmac && r.value.digits == crypto.value.digits
                           && InputOf(r.value) == di.value)
  {
  }

  /** The validator with the corrected hour bound. */
  function ValidateCorrected(suite: string): (r: Result<Suite, ErrorCode>)
    ensures r.Success? ==> IntendedSuite(r.value)
  {
    var f := Split(UpperString(suite), ':', 3);
    if f.count != 3 then Failure(InvalidSuite)
    else if f.items[0] != "OCRA-1" then Failure(InvalidVersion)
    else
      var crypto :- ParseCryptoFunction(f.items[1]);
      var di :- ParseDataInput(f.items[2], Corrected);
      Success(MakeSuite(crypto.hmac, crypto.digits, di))
  }

  /** The corrected validator accepts exactly the suites the library accepts
      whose hour value is at most 48, and parses them alike; where it fails and
      the library does not fail the same way, it reports 0x0F. */
  lemma ValidateCorrectedAgrees(suite: string)
    ensures var a := Validate(suite); var c := ValidateCorrected(suite);
      && (c.Success? <==> a.Success? && IntendedSuite(a.value))
      && (c.Success? ==> c == a)
      && (c.Failure? ==> c == a || c.error == TimestampValue)
  {
    var f := Split(UpperString(suite), ':', 3);
    if f.count == 3 && f.items[0] == "OCRA-1" && ParseCryptoFunction(f.items[1]).Success? {
      var t := Split(f.items[2], '-', 5);
      TokensCorrectedAgree(t.items, t.count);
    }
  }

  /** The slot walk under the two hour rules. */
  lemma TokensCorrectedAgree(t: seq<string>, count: nat)
    requires |t| == 5
    ensures var a := ParseTokens(t, count, AsWritten); var c := ParseTokens(t, count, Corrected);
      && (c.Success? <==> a.Success? && IntendedDataInput(a.value))
      && (c.Success? ==> c == a)
      && (c.Failure? ==> c == a || c.error == TimestampValue)
  {
    if t[0] != "" {
      var i0 := if StartsWith(t[0], 'C') then 1 else 0;
      PasswordCorrectedAgree(t, count, i0 + 1);
    }
  }

  lemma PasswordCorrectedAgree(t: seq<string>, count: nat, i: nat)
    requires |t| == 5 && i <= 2
    ensures var a := PasswordWalk(t, count, i, AsWritten); var c := PasswordWalk(t, count, i, Corrected);
      && (c.Success? <==> a.Success? && (a.value.timestamp.Some? ==> IntendedTimeStep(a.value.timestamp.value)))
      && (c.Success? ==> c == a)
      && (c.Failure? ==> c == a || c.error == TimestampValue)
  {
    var next := if StartsWith(t[i], 'P') then i + 1 else i;
    SessionCorrectedAgree(t, count, next);
  }

  lemma SessionCorrectedAgree(t: seq<string>, count: nat, i: nat)
    requires |t| == 5 && i <= 3
    ensures var a := SessionWalk(t, count, i, AsWritten); var c := SessionWalk(t, count, i, Corrected);
      && (c.Success? <==> a.Success? && (a.value.1.Some? ==> IntendedTimeStep(a.value.1.value)))
      && (c.Success? ==> c == a)
      && (c.Failure? ==> c == a || c.error == TimestampValue)
  {
    var next := if StartsWith(t[i], 'S') then i + 1 else i;
    TimestampCorrectedAgree(t, count, next);
  }

  lemma TimestampCorrectedAgree(t: seq<string>, count: nat, i: nat)
    requires |t| == 5 && i <= 4
    ensures var a := TimestampWalk(t, count, i, AsWritten); var c := TimestampWalk(t, count, i, Corrected);
      && (c.Success? <==> a.Success? && (a.value.Some? ==> IntendedTimeStep(a.value.value)))
      && (c.Success? ==> c == a)
      && (c.Failure? ==> c == a || c.error == TimestampValue)
  {
  }

  /** The validator ignores case: upper-casing the text first changes nothing. */
  lemma ValidateIgnoresCase(suite: string)
    ensures Validate(UpperString(suite)) == Validate(suite)
  {
    UpperStringFixpoint(suite);
  }
}
