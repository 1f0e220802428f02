/** The canonical text of a suite (`OcraSuite::to_string`, ocra.cpp:56-136)
    and its round trip through the validator: every valid suite is rendered
    as a text the validator reads back to the same suite. */
module SuiteText {
  import opened Results
  import opened Errors
  import opened Ascii
  import opened Splitter
  import opened SuiteModel
  import opened SuiteParser

  /** A time step `to_string` prints as decimal digits. The timestamp rule on
      its own would accept `-1H` as hour 255, but the data input is split on
      '-' first, so the validator never sees a minus sign there and every
      step it accepts is one of these (`AcceptedIsRenderable`). */
  predicate RenderableStep(ts: TimeStep)
  {
    ValidTimeStep(ts) && ts.time <= 99
  }

  predicate RenderableInput(di: DataInput)
  {
    ValidDataInput(di) && (di.timestamp.Some? ==> RenderableStep(di.timestamp.value))
  }

  /** A valid suite whose text `to_string` writes in decimal throughout. */
  predicate Renderable(s: Suite)
  {
    ValidSuite(s) && RenderableInput(InputOf(s))
  }

  /** A timestamp token without a minus sign holds at most two digits before
      its unit, so the step it yields is at most 99. */
  lemma TimestampSlotSmall(token: string)
    requires '-' !in token
    ensures var r := TimestampSlot(token, AsWritten);
      r.Success? && r.value.Some? ==> r.value.value.time <= 99
  {
    var r := TimestampSlot(token, AsWritten);
    if r.Success? && r.value.Some? {
      var body := token[1..];
      var n := body[..|body| - 1];
      assert forall c :: c in n ==> c in token;
      AtoINonNegative(n);
      Pow10Monotone(|n|, 2);
    }
  }

  lemma TimestampWalkSmall(t: seq<string>, count: nat, i: nat)
    requires |t| == 5 && i <= 4 && AllClean(t, '-')
    ensures var r := TimestampWalk(t, count, i, AsWritten);
      r.Success? && r.value.Some? ==> r.value.value.time <= 99
  {
    assert CleanField(t[i], '-');
    TimestampSlotSmall(t[i]);
  }

  lemma SessionWalkSmall(t: seq<string>, count: nat, i: nat)
    requires |t| == 5 && i <= 3 && AllClean(t, '-')
    ensures var r := SessionWalk(t, count, i, AsWritten);
      r.Success? && r.value.1.Some? ==> r.value.1.value.time <= 99
  {
    TimestampWalkSmall(t, count, if StartsWith(t[i], 'S') then i + 1 else i);
  }

  lemma PasswordWalkSmall(t: seq<string>, count: nat, i: nat)
    requires |t| == 5 && i <= 2 && AllClean(t, '-')
    ensures var r := PasswordWalk(t, count, i, AsWritten);
      r.Success? && r.value.timestamp.Some? ==> r.value.timestamp.value.time <= 99
  {
    SessionWalkSmall(t, count, if StartsWith(t[i], 'P') then i + 1 else i);
  }

  /** Every data input the library accepts renders in decimal. */
  lemma DataInputRenderable(field: string)
    ensures var r := ParseDataInput(field, AsWritten);
      r.Success? ==> RenderableInput(r.value)
  {
    var f := Split(field, '-', 5);
    SplitItemsClean(field, '-', 5);
    if f.items[0] != "" {
      PasswordWalkSmall(f.items, f.count, if StartsWith(f.items[0], 'C') then 2 else 1);
    }
  }

  /** Every suite the library accepts renders in decimal, so the round-trip
      lemmas below, stated for renderable suites, cover all of them. */
  lemma AcceptedIsRenderable(text: string)
    ensures Validate(text).Success? ==> Renderable(Validate(text).value)
  {
    ValidateStages(text);
    var f := Split(UpperString(text), ':', 3);
    if f.count == 3 {
      DataInputRenderable(f.items[2]);
    }
  }

  /** The minus sign of `T-1H` splits the token, leaving `T` alone, which the
      timestamp rule rejects with 0x0D: the hour value 255 that the rule on its
      own gives `-1H` never reaches the validator's result. Stated for every
      suite text whose version and crypto function pass and whose data input
      is `QA08-T-1H`, such as `OCRA-1:HOTP-SHA1-6:QA08-T-1H`. */
  lemma NegativeHoursRejected(text: string)
    requires var f := Split(UpperString(text), ':', 3);
      f.count == 3 && f.items[0] == "OCRA-1" && ParseCryptoFunction(f.items[1]).Success?
      && f.items[2] == "QA08-T-1H"
    ensures Validate(text) == Failure(TimestampShape)
  {
    ValidateStages(text);
    var f := Split(UpperString(text), ':', 3);
    NegativeHoursData(f.items[2]);
  }

  /** A text with the delimiter at `i` and `j` is the join of its three parts. */
  lemma JoinAround(x: string, i: nat, j: nat, delim: char)
    requires i < j < |x| && x[i] == delim && x[j] == delim
    ensures Join([x[..i], x[i + 1..j], x[j + 1..]], delim) == x
  {
    JoinThree(x[..i], x[i + 1..j], x[j + 1..], delim);
    assert x[i + 1..] == x[i + 1..j] + [delim] + x[j + 1..];
    assert x == x[..i] + [delim] + x[i + 1..];
  }

  /** Splitting a text with the delimiter at `i` and `j` and nowhere else. */
  lemma SplitAround(x: string, i: nat, j: nat, delim: char, n: nat)
    requires i < j < |x| && x[i] == delim && x[j] == delim && delim != '\0' && 3 <= n
    requires CleanField(x[..i], delim) && CleanField(x[i + 1..j], delim) && CleanField(x[j + 1..], delim)
    ensures Split(x, delim, n) == Fields([x[..i], x[i + 1..j], x[j + 1..]] + Empties(n - 3), 3)
  {
    var fs := [x[..i], x[i + 1..j], x[j + 1..]];
    JoinAround(x, i, j, delim);
    assert FreeOf(fs, delim);
    JoinSplit(fs, delim, n);
  }

  /** The data input of the `T-1H` example splits into `QA08`, `T` and `1H`. */
  lemma NegativeHoursData(x: string)
    requires x == "QA08-T-1H"
    ensures ParseDataInput(x, AsWritten) == Failure(TimestampShape)
  {
    assert x[..4] == "QA08" && x[5..6] == "T" && x[7..] == "1H";
    ChallengeA08(x[..4]);
    assert x[5..6][1..] == "";
    DataAround(x, 4, 6);
  }

  /** A data input of three '-'-separated tokens, a challenge and then a token
      the P and S slots pass over, fails with the T slot's error on the second. */
  lemma DataAround(x: string, i: nat, j: nat)
    requires i < j < |x| && x[i] == '-' && x[j] == '-'
    requires CleanField(x[..i], '-') && CleanField(x[i + 1..j], '-') && CleanField(x[j + 1..], '-')
    requires StartsWith(x[..i], 'Q') && ChallengeSlot(x[..i]).Success?
    requires !StartsWith(x[i + 1..j], 'P') && !StartsWith(x[i + 1..j], 'S')
    requires TimestampSlot(x[i + 1..j], AsWritten).Failure?
    ensures ParseDataInput(x, AsWritten) == Failure(TimestampSlot(x[i + 1..j], AsWritten).error)
  {
    SplitAround(x, i, j, '-', 5);
  }

  lemma ChallengeA08(q: string)
    requires q == "QA08"
    ensures ChallengeSlot(q) == Success(Challenge(Alphanumeric, 8))
  {
    var d := q[2..];
    assert q[1..] == [q[1]] + d;
    assert d == "08";
    AtoIOfDigits(d);
    assert d[..1] == "0";
    assert DecValue(d[..1]) == 0 by {
      assert d[..1][..0] == "";
    }
  }

  /** Every suite valid under the intended hour bound renders in decimal. */
  lemma IntendedRenderable(s: Suite)
    requires IntendedSuite(s)
    ensures Renderable(s)
  {
  }

  function HashName(h: HmacAlgorithm): string
  {
    match h
    case HotpSha1 => "SHA1"
    case HotpSha256 => "SHA256"
    case HotpSha512 => "SHA512"
  }

  function ShaName(p: Sha): string
  {
    match p
    case NoHash => ""
    case Sha1 => "SHA1"
    case Sha256 => "SHA256"
    case Sha512 => "SHA512"
  }

  /** The `switch (digits)` of `to_string`; a count outside 0, 4..10 has no name. */
  function DigitsName(d: nat): string
  {
    if d == 0 then "0"
    else if d == 4 then "4"
    else if d == 5 then "5"
    else if d == 6 then "6"
    else if d == 7 then "7"
    else if d == 8 then "8"
    else if d == 9 then "9"
    else if d == 10 then "10"
    else ""
  }

  function FormatLetter(f: ChallengeFormat): char
  {
    match f
    case Alphanumeric => 'A'
    case Numeric => 'N'
    case Hexadecimal => 'H'
  }

  function UnitLetter(u: TimeUnit): char
  {
    match u
    case Seconds => 'S'
    case Minutes => 'M'
    case Hours => 'H'
  }

  /** `Q<format><tens><ones>`. */
  function ChallengeToken(c: Challenge): string
  {
    ['Q', FormatLetter(c.format), DigitChar(c.length / 10), DigitChar(c.length % 10)]
  }

  function PasswordToken(p: Sha): string
  {
    "P" + ShaName(p)
  }

  /** `S<hundreds><tens><ones>`. */
  function SessionToken(n: U16): string
  {
    ['S', DigitChar(n / 100), DigitChar(n % 100 / 10), DigitChar(n % 10)]
  }

  /** `T<time><unit>`, the tens digit only when the time exceeds 9. */
  function TimestampToken(ts: TimeStep): string
  {
    ['T'] + (if ts.time > 9 then [DigitChar(ts.time / 10)] else []) + [DigitChar(ts.time % 10), UnitLetter(ts.unit)]
  }

  /** `OcraSuite::to_string`, piece by piece as the library appends them. */
  function ToString(s: Suite): string
  {
    "OCRA-1" + ":HOTP-" + HashName(s.hmac) + DigitsPart(s.digits) + DataText(InputOf(s))
  }

  /** `-<t>:`, or nothing for a count the `switch` does not name. */
  function DigitsPart(d: nat): string
  {
    if ValidDigits(d) then "-" + DigitsName(d) + ":" else ""
  }

  /** The data-input part: the counter, the challenge and the optional slots. */
  function DataText(di: DataInput): string
  {
    (if di.isCounter then "C-" else "") + ChallengeToken(di.challenge) + TailText(TailOf(di))
  }

  function TailText(tail: Tail): string
  {
    OptionalPart(PasswordTokens(tail.passwordSha))
    + OptionalPart(SessionTokens(tail.sessionLength))
    + OptionalPart(TimestampTokens(tail.timestamp))
  }

  /** A present optional token with the '-' that precedes it. */
  function OptionalPart(tokens: seq<string>): string
  {
    if |tokens| == 0 then "" else "-" + tokens[0]
  }

  function PasswordTokens(p: Sha): seq<string>
  {
    if p != NoHash then [PasswordToken(p)] else []
  }

  function SessionTokens(n: U16): seq<string>
  {
    if n > 0 then [SessionToken(n)] else []
  }

  function TimestampTokens(ts: Option<TimeStep>): seq<string>
  {
    if ts.Some? then [TimestampToken(ts.value)] else []
  }

  function TailTokens(tail: Tail): seq<string>
  {
    PasswordTokens(tail.passwordSha) + SessionTokens(tail.sessionLength) + TimestampTokens(tail.timestamp)
  }

  function TailOf(di: DataInput): Tail
  {
    Tail(di.passwordSha, di.sessionLength, di.timestamp)
  }

  /** The data-input tokens of a suite in slot order. */
  function DataTokens(di: DataInput): seq<string>
  {
    (if di.isCounter then ["C"] else []) + [ChallengeToken(di.challenge)] + TailTokens(TailOf(di))
  }

  function CryptoText(h: HmacAlgorithm, d: nat): string
  {
    Join(["HOTP", HashName(h), DigitsName(d)], '-')
  }

  /** Neither the delimiter nor a NUL occurs in any of the fields. */
  predicate FreeOf(fs: seq<string>, delim: char)
  {
    forall i :: 0 <= i < |fs| ==> delim !in fs[i] && '\0' !in fs[i]
  }

  /** A rendered decimal digit is not a delimiter, a NUL or a lower-case letter. */
  lemma DigitCharPlain(d: nat)
    requires d < 10
    ensures var c := DigitChar(d); IsDigit(c) && c != ':' && c != '-' && c != '\0'
  {
  }

  /** The rendered text is the three suite fields joined with ':'. */
  lemma RenderedFields(s: Suite)
    requires Renderable(s)
    ensures ToString(s) == Join(["OCRA-1", CryptoText(s.hmac, s.digits), Join(DataTokens(InputOf(s)), '-')], ':')
  {
    var di := InputOf(s);
    var h := HashName(s.hmac);
    var d := DigitsName(s.digits);
    var crypto := CryptoText(s.hmac, s.digits);
    var data := Join(DataTokens(di), '-');
    calc {
      ToString(s);
      "OCRA-1" + ":HOTP-" + h + DigitsPart(s.digits) + DataText(di);
      { assert DigitsPart(s.digits) == ['-'] + d + [':']; }
      "OCRA-1" + ":HOTP-" + h + (['-'] + d + [':']) + DataText(di);
      { FlatRender(h, d, DataText(di)); }
      "OCRA-1" + [':'] + (("HOTP" + ['-'] + h + ['-'] + d) + [':'] + DataText(di));
      { CryptoTextJoin(s.hmac, s.digits); DataTokensJoin(di); }
      "OCRA-1" + [':'] + (crypto + [':'] + data);
      { JoinThree("OCRA-1", crypto, data, ':'); }
      Join(["OCRA-1", crypto, data], ':');
    }
  }

  /** The text regrouped around its two ':' separators. */
  lemma FlatRender(h: string, d: string, rest: string)
    ensures "OCRA-1" + ":HOTP-" + h + (['-'] + d + [':']) + rest
      == "OCRA-1" + [':'] + (("HOTP" + ['-'] + h + ['-'] + d) + [':'] + rest)
  {
  }

  lemma JoinThree(a: string, b: string, c: string, delim: char)
    ensures Join([a, b, c], delim) == a + [delim] + (b + [delim] + c)
  {
    assert [a, b, c][1..] == [b, c];
    assert [b, c][1..] == [c];
    assert Join([c], delim) == c;
    assert Join([b, c], delim) == b + [delim] + c;
  }

  lemma CryptoTextJoin(h: HmacAlgorithm, d: nat)
    ensures CryptoText(h, d) == "HOTP" + ['-'] + HashName(h) + ['-'] + DigitsName(d)
  {
    var fs := ["HOTP", HashName(h), DigitsName(d)];
    assert fs[1..] == [HashName(h), DigitsName(d)];
    assert [HashName(h), DigitsName(d)][1..] == [DigitsName(d)];
    assert Join([HashName(h), DigitsName(d)], '-') == HashName(h) + ['-'] + DigitsName(d);
    assert Join(fs, '-') == "HOTP" + ['-'] + (HashName(h) + ['-'] + DigitsName(d));
  }

  /** The data-input tokens joined with '-' are the data-input part of the text. */
  lemma DataTokensJoin(di: DataInput)
    ensures Join(DataTokens(di), '-') == DataText(di)
  {
    var q := ChallengeToken(di.challenge);
    var tail := TailOf(di);
    var pre: seq<string> := if di.isCounter then ["C"] else [];
    var preText := if di.isCounter then "C-" else "";
    TailJoin(q, tail);
    CounterJoin(pre, preText, q, TailTokens(tail), TailText(tail));
  }

  /** The counter token, when present, in front of the others. */
  lemma CounterJoin(pre: seq<string>, preText: string, q: string, rest: seq<string>, text: string)
    requires (pre == [] && preText == "") || (pre == ["C"] && preText == "C-")
    requires Join([q] + rest, '-') == q + text
    ensures Join(pre + [q] + rest, '-') == preText + q + text
  {
    if pre == [] {
      assert pre + [q] + rest == [q] + rest;
      assert preText + q == q;
    } else {
      calc {
        Join(pre + [q] + rest, '-');
        { assert pre + [q] + rest == ["C"] + ([q] + rest); assert (["C"] + ([q] + rest))[1..] == [q] + rest; }
        "C" + ['-'] + Join([q] + rest, '-');
        { Assoc("C" + ['-'], q, text); }
        "C" + ['-'] + q + text;
        { assert "C" + ['-'] == "C-"; }
        "C-" + q + text;
      }
    }
  }

  lemma Assoc<T>(a: seq<T>, b: seq<T>, c: seq<T>)
    ensures a + (b + c) == a + b + c
  {
  }

  /** The optional tokens after a first one, joined with '-'. */
  lemma TailJoin(first: string, tail: Tail)
    ensures Join([first] + TailTokens(tail), '-') == first + TailText(tail)
  {
    var q := [first];
    var pt := PasswordTokens(tail.passwordSha);
    var st := SessionTokens(tail.sessionLength);
    var tt := TimestampTokens(tail.timestamp);
    var a, b, c := OptionalPart(pt), OptionalPart(st), OptionalPart(tt);
    calc {
      Join([first] + TailTokens(tail), '-');
      { Assoc(q, pt + st, tt); Assoc(q, pt, st); }
      Join(q + pt + st + tt, '-');
      { SnocOptional(q + pt + st, tt); }
      Join(q + pt + st, '-') + c;
      { SnocOptional(q + pt, st); }
      Join(q + pt, '-') + b + c;
      { SnocOptional(q, pt); assert Join(q, '-') == first; }
      first + a + b + c;
      { Assoc(first, a + b, c); Assoc(first, a, b); }
      first + TailText(tail);
    }
  }

  /** Appending an optional token appends its part of the text. */
  lemma SnocOptional(fs: seq<string>, tokens: seq<string>)
    requires |fs| >= 1 && |tokens| <= 1
    ensures Join(fs + tokens, '-') == Join(fs, '-') + OptionalPart(tokens)
  {
    if |tokens| == 1 {
      assert tokens == [tokens[0]];
      JoinSnoc(fs, tokens[0], '-');
    } else {
      assert fs + tokens == fs;
    }
  }

  /** A rendered token holds no '-', ':' or NUL and no lower-case letter. */
  predicate PlainToken(x: string)
  {
    '-' !in x && ':' !in x && '\0' !in x && IsUpperCase(x)
  }

  lemma ChallengeTokenPlain(c: Challenge)
    requires c.length <= 64
    ensures PlainToken(ChallengeToken(c))
  {
    DigitCharPlain(c.length / 10);
    DigitCharPlain(c.length % 10);
  }

  lemma PasswordTokenPlain(p: Sha)
    ensures PlainToken(PasswordToken(p))
  {
    match p
    case NoHash => assert PasswordToken(p) == "P";
    case Sha1 => assert PasswordToken(p) == "PSHA1";
    case Sha256 => assert PasswordToken(p) == "PSHA256";
    case Sha512 => assert PasswordToken(p) == "PSHA512";
  }

  lemma SessionTokenPlain(n: U16)
    requires n <= 512
    ensures PlainToken(SessionToken(n))
  {
    DigitCharPlain(n / 100);
    DigitCharPlain(n % 100 / 10);
    DigitCharPlain(n % 10);
  }

  lemma TimestampTokenPlain(ts: TimeStep)
    requires RenderableStep(ts)
    ensures PlainToken(TimestampToken(ts))
  {
    DigitCharPlain(ts.time % 10);
    if ts.time > 9 {
      DigitCharPlain(ts.time / 10);
    }
  }

  /** The tokens of a valid data input are plain, and there are one to five. */
  lemma TokensPlain(di: DataInput)
    requires RenderableInput(di)
    ensures forall i :: 0 <= i < |DataTokens(di)| ==> PlainToken(DataTokens(di)[i])
    ensures 1 <= |DataTokens(di)| <= 5
  {
    var head := if di.isCounter then ["C"] else [];
    var pw := PasswordTokens(di.passwordSha);
    var session := SessionTokens(di.sessionLength);
    var time := TimestampTokens(di.timestamp);
    assert AllPlain(head) by {
      assert PlainToken("C");
    }
    assert AllPlain([ChallengeToken(di.challenge)]) by {
      ChallengeTokenPlain(di.challenge);
    }
    assert AllPlain(pw) by {
      PasswordTokenPlain(di.passwordSha);
    }
    assert AllPlain(session) by {
      if di.sessionLength > 0 {
        SessionTokenPlain(di.sessionLength);
      }
    }
    assert AllPlain(time) by {
      if di.timestamp.Some? {
        TimestampTokenPlain(di.timestamp.value);
      }
    }
    AllPlainConcat(pw, session);
    AllPlainConcat(pw + session, time);
    AllPlainConcat(head, [ChallengeToken(di.challenge)]);
    AllPlainConcat(head + [ChallengeToken(di.challenge)], pw + session + time);
    assert DataTokens(di) == head + [ChallengeToken(di.challenge)] + (pw + session + time);
  }

  predicate AllPlain(ts: seq<string>)
  {
    forall i :: 0 <= i < |ts| ==> PlainToken(ts[i])
  }

  lemma AllPlainConcat(a: seq<string>, b: seq<string>)
    requires AllPlain(a) && AllPlain(b)
    ensures AllPlain(a + b)
  {
    forall i | 0 <= i < |a + b|
      ensures PlainToken((a + b)[i])
    {
      if i >= |a| {
        assert (a + b)[i] == b[i - |a|];
      }
    }
  }

  /** The tokens of a slot walk sit at positions `i`, `i + 1`, ... of the five
      slots, the count ends right after them, and the slot after them is empty. */
  predicate Placed(t: seq<string>, count: nat, i: nat, tokens: seq<string>)
  {
    && i + |tokens| <= |t|
    && t[i..i + |tokens|] == tokens
    && count == i + |tokens|
    && (count < |t| ==> t[count] == "")
  }

  lemma PlacedCons(t: seq<string>, count: nat, i: nat, x: string, rest: seq<string>)
    requires Placed(t, count, i, [x] + rest)
    ensures t[i] == x && Placed(t, count, i + 1, rest)
  {
    assert t[i..i + 1 + |rest|][0] == x;
    assert t[i + 1..i + 1 + |rest|] == t[i..i + 1 + |rest|][1..];
  }

  lemma ChallengeTokenRoundTrip(c: Challenge)
    requires 4 <= c.length <= 64
    ensures ChallengeSlot(ChallengeToken(c)) == Success(c)
  {
    var body := ChallengeToken(c)[1..];
    assert body[1..] == [DigitChar(c.length / 10), DigitChar(c.length % 10)];
    AtoITwoDigits(c.length / 10, c.length % 10);
  }

  lemma SessionTokenRoundTrip(n: U16)
    requires 1 <= n <= 512
    ensures SessionSlot(SessionToken(n)) == Success(n)
  {
    var body := SessionToken(n)[1..];
    var a, b, c := n / 100, n % 100 / 10, n % 10;
    ThreeDigits(n);
    assert body == [DigitChar(a), DigitChar(b), DigitChar(c)];
    AtoIThreeDigits(a, b, c);
    assert AtoI(body) == n;
    assert ParseSession(body) == Success(n);
    assert StartsWith(SessionToken(n), 'S');
  }

  /** The three decimal digits `to_string` writes for a session length. */
  lemma ThreeDigits(n: nat)
    requires n < 1000
    ensures n / 100 < 10 && n % 100 / 10 < 10 && 100 * (n / 100) + 10 * (n % 100 / 10) + n % 10 == n
  {
  }

  lemma TimestampTokenRoundTrip(ts: TimeStep)
    requires RenderableStep(ts)
    ensures TimestampSlot(TimestampToken(ts), AsWritten) == Success(Some(ts))
    ensures IntendedTimeStep(ts) ==> TimestampSlot(TimestampToken(ts), Corrected) == Success(Some(ts))
  {
    TimestampBody(ts);
    assert StartsWith(TimestampToken(ts), 'T');
  }

  /** The text after 'T' reads back as the time step, as written and corrected. */
  lemma TimestampBody(ts: TimeStep)
    requires RenderableStep(ts)
    ensures ParseTimestamp(TimestampToken(ts)[1..]) == Success(ts)
  {
    var body := TimestampToken(ts)[1..];
    var u := UnitLetter(ts.unit);
    var digits := body[..|body| - 1];
    if ts.time > 9 {
      assert body == [DigitChar(ts.time / 10), DigitChar(ts.time % 10), u];
      assert digits == [DigitChar(ts.time / 10), DigitChar(ts.time % 10)];
      AtoITwoDigits(ts.time / 10, ts.time % 10);
    } else {
      assert body == [DigitChar(ts.time % 10), u];
      assert digits == [DigitChar(ts.time % 10)];
      AtoIOneDigit(ts.time % 10);
    }
    assert AtoI(digits) == ts.time;
    assert UnitOf(body[|body| - 1]) == Some(ts.unit);
    assert ParseTimestamp(body) == Success(ts);
  }

  lemma TimestampWalkOf(t: seq<string>, count: nat, i: nat, ts: Option<TimeStep>)
    requires |t| == 5 && i <= 4 && Placed(t, count, i, TimestampTokens(ts))
    requires ts.Some? ==> RenderableStep(ts.value)
    ensures TimestampWalk(t, count, i, AsWritten) == Success(ts)
  {
    if ts.Some? {
      PlacedCons(t, count, i, TimestampToken(ts.value), []);
      TimestampTokenRoundTrip(ts.value);
    } else {
      assert t[i] == "";
    }
  }

  lemma SessionWalkOf(t: seq<string>, count: nat, i: nat, n: U16, ts: Option<TimeStep>)
    requires |t| == 5 && i <= 3 && n <= 512 && Placed(t, count, i, SessionTokens(n) + TimestampTokens(ts))
    requires ts.Some? ==> RenderableStep(ts.value)
    ensures SessionWalk(t, count, i, AsWritten) == Success((n, ts))
  {
    var rest := TimestampTokens(ts);
    if n > 0 {
      assert SessionTokens(n) + rest == [SessionToken(n)] + rest;
      PlacedCons(t, count, i, SessionToken(n), rest);
      SessionTokenRoundTrip(n);
      assert SessionSlot(t[i]) == Success(n) && StartsWith(t[i], 'S');
      TimestampWalkOf(t, count, i + 1, ts);
      SessionWalkStep(t, count, i, n, ts);
    } else {
      assert SessionTokens(n) + rest == rest;
      if ts.Some? {
        PlacedCons(t, count, i, TimestampToken(ts.value), []);
      }
      assert !StartsWith(t[i], 'S');
      assert SessionSlot(t[i]) == Success(0);
      TimestampWalkOf(t, count, i, ts);
      SessionWalkStep(t, count, i, n, ts);
    }
  }

  lemma PasswordWalkOf(t: seq<string>, count: nat, i: nat, tail: Tail)
    requires |t| == 5 && i <= 2 && tail.sessionLength <= 512 && Placed(t, count, i, TailTokens(tail))
    requires tail.timestamp.Some? ==> RenderableStep(tail.timestamp.value)
    ensures PasswordWalk(t, count, i, AsWritten) == Success(tail)
  {
    var rest := SessionTokens(tail.sessionLength) + TimestampTokens(tail.timestamp);
    assert TailTokens(tail) == PasswordTokens(tail.passwordSha) + rest;
    if tail.passwordSha != NoHash {
      assert TailTokens(tail) == [PasswordToken(tail.passwordSha)] + rest;
      PlacedCons(t, count, i, PasswordToken(tail.passwordSha), rest);
      PasswordTokenRoundTrip(tail.passwordSha);
      SessionWalkOf(t, count, i + 1, tail.sessionLength, tail.timestamp);
    } else {
      assert TailTokens(tail) == rest;
      if tail.sessionLength > 0 {
        assert rest == [SessionToken(tail.sessionLength)] + TimestampTokens(tail.timestamp);
        PlacedCons(t, count, i, SessionToken(tail.sessionLength), TimestampTokens(tail.timestamp));
      } else if tail.timestamp.Some? {
        assert rest == [TimestampToken(tail.timestamp.value)];
        PlacedCons(t, count, i, TimestampToken(tail.timestamp.value), []);
      }
      assert !StartsWith(t[i], 'P');
      assert PasswordSlot(t[i]) == Success(NoHash);
      SessionWalkOf(t, count, i, tail.sessionLength, tail.timestamp);
    }
  }

  lemma PasswordTokenRoundTrip(p: Sha)
    requires p != NoHash
    ensures PasswordSlot(PasswordToken(p)) == Success(p)
  {
    assert PasswordToken(p)[1..] == ShaName(p);
  }

  /** The slot walk reads the rendered tokens, padded to five slots, back to
      the data input they came from. */
  lemma ParseTokensOf(di: DataInput)
    requires RenderableInput(di)
    ensures var toks := DataTokens(di);
      |toks| <= 5 && ParseTokens(toks + Empties(5 - |toks|), |toks|, AsWritten) == Success(di)
  {
    TokensPlain(di);
    var toks := DataTokens(di);
    var k := |toks|;
    var t := toks + Empties(5 - k);
    var tail := TailOf(di);
    var head := (if di.isCounter then ["C"] else []) + [ChallengeToken(di.challenge)];
    var i0 := if di.isCounter then 1 else 0;
    assert toks == head + TailTokens(tail);
    assert |head| == i0 + 1;
    assert t[0] == head[0];
    assert t[i0] == ChallengeToken(di.challenge);
    ChallengeTokenRoundTrip(di.challenge);
    assert t[i0 + 1..k] == TailTokens(tail);
    assert Placed(t, k, i0 + 1, TailTokens(tail));
    PasswordWalkOf(t, k, i0 + 1, tail);
  }

  lemma CryptoRoundTrip(h: HmacAlgorithm, d: nat)
    requires ValidDigits(d)
    ensures ParseCryptoFunction(CryptoText(h, d)) == Success(CryptoFunction(h, d))
  {
    var fs := ["HOTP", HashName(h), DigitsName(d)];
    assert Split(CryptoText(h, d), '-', 3) == Fields(fs, 3) by {
      assert FreeOf(fs, '-') by {
        CryptoFieldsPlain(h, d);
      }
      JoinSplit(fs, '-', 3);
      assert fs + Empties(0) == fs;
    }
    assert ParseHash(fs[1]) == Some(h);
    assert ParseDigits(fs[2]) == Some(d) by {
      DigitsNameParses(d);
    }
  }

  lemma CryptoFieldsPlain(h: HmacAlgorithm, d: nat)
    requires ValidDigits(d)
    ensures FreeOf(["HOTP", HashName(h), DigitsName(d)], '-')
  {
    var fs := ["HOTP", HashName(h), DigitsName(d)];
    assert '-' !in fs[0] && '\0' !in fs[0];
    assert '-' !in fs[1] && '\0' !in fs[1];
    assert '-' !in fs[2] && '\0' !in fs[2];
  }

  lemma DigitsNameParses(d: nat)
    requires ValidDigits(d)
    ensures ParseDigits(DigitsName(d)) == Some(d)
  {
    if d == 0 {
    } else if d == 4 {
    } else if d == 5 {
    } else if d == 6 {
    } else if d == 7 {
    } else if d == 8 {
    } else if d == 9 {
    } else {
      assert d == 10;
    }
  }

  /** The data-input field of a rendered suite parses back to its data input. */
  lemma DataRoundTrip(di: DataInput)
    requires RenderableInput(di)
    ensures ParseDataInput(Join(DataTokens(di), '-'), AsWritten) == Success(di)
  {
    var toks := DataTokens(di);
    TokensPlain(di);
    assert FreeOf(toks, '-');
    JoinSplit(toks, '-', 5);
    ParseTokensOf(di);
  }

  /** Rendering then validating gives the suite back: the validator accepts
      every text `to_string` produces for a valid suite, whatever its case. */
  lemma RoundTrip(s: Suite, text: string)
    requires Renderable(s) && UpperString(text) == ToString(s)
    ensures Validate(text) == Success(s)
  {
    var di := InputOf(s);
    var crypto := CryptoText(s.hmac, s.digits);
    var data := Join(DataTokens(di), '-');
    var fields := ["OCRA-1", crypto, data];
    RenderedFields(s);
    FieldsPlain(s);
    JoinSplit(fields, ':', 3);
    assert fields + Empties(0) == fields;
    assert Split(UpperString(text), ':', 3) == Fields(fields, 3);
    CryptoRoundTrip(s.hmac, s.digits);
    DataRoundTrip(di);
    assert MakeSuite(s.hmac, s.digits, di) == s;
  }

  /** Text with no ':' or NUL and no lower-case letter; '-' may occur. */
  predicate FieldChars(x: string)
  {
    ':' !in x && '\0' !in x && IsUpperCase(x)
  }

  /** The three suite fields of a valid suite hold no ':' or NUL and no
      lower-case letter. */
  lemma FieldsPlain(s: Suite)
    requires Renderable(s)
    ensures var fields := ["OCRA-1", CryptoText(s.hmac, s.digits), Join(DataTokens(InputOf(s)), '-')];
      FreeOf(fields, ':') && forall i :: 0 <= i < |fields| ==> IsUpperCase(fields[i])
  {
    var fs := ["HOTP", HashName(s.hmac), DigitsName(s.digits)];
    assert forall i :: 0 <= i < |fs| ==> PlainToken(fs[i]);
    JoinDash(fs);
    TokensPlain(InputOf(s));
    JoinDash(DataTokens(InputOf(s)));
    assert FieldChars("OCRA-1");
    ThreeFields("OCRA-1", CryptoText(s.hmac, s.digits), Join(DataTokens(InputOf(s)), '-'));
  }

  lemma ThreeFields(a: string, b: string, c: string)
    requires FieldChars(a) && FieldChars(b) && FieldChars(c)
    ensures var fields := [a, b, c];
      FreeOf(fields, ':') && forall i :: 0 <= i < |fields| ==> IsUpperCase(fields[i])
  {
    var fields := [a, b, c];
    forall i | 0 <= i < 3
      ensures FieldChars(fields[i])
    {
    }
  }

  /** Plain tokens joined with '-' give text free of ':', NUL and lower case. */
  lemma {:induction false} JoinDash(fs: seq<string>)
    requires forall i :: 0 <= i < |fs| ==> PlainToken(fs[i])
    ensures FieldChars(Join(fs, '-'))
  {
    if |fs| > 1 {
      JoinDash(fs[1..]);
      assert PlainToken(fs[0]);
      var rest := Join(fs[1..], '-');
      var j := Join(fs, '-');
      assert j == fs[0] + ['-'] + rest;
      forall k | 0 <= k < |j|
        ensures j[k] != ':' && j[k] != '\0' && !('a' <= j[k] <= 'z')
      {
        if k < |fs[0]| {
          assert j[k] == fs[0][k];
        } else if k > |fs[0]| {
          assert j[k] == rest[k - |fs[0]| - 1];
        }
      }
    } else if |fs| == 1 {
      assert PlainToken(fs[0]);
    }
  }

  /** The validator recovers the suite from its canonical text. */
  lemma CanonicalText(s: Suite)
    requires Renderable(s)
    ensures Validate(ToString(s)) == Success(s)
    ensures IsUpperCase(ToString(s))
  {
    TextUpper(s);
    UpperStringFixpoint(ToString(s));
    RoundTrip(s, ToString(s));
  }

  lemma TextUpper(s: Suite)
    requires Renderable(s)
    ensures IsUpperCase(ToString(s))
  {
    var fields := ["OCRA-1", CryptoText(s.hmac, s.digits), Join(DataTokens(InputOf(s)), '-')];
    RenderedFields(s);
    FieldsPlain(s);
    JoinUpper(fields, ':');
  }

  lemma {:induction false} JoinUpper(fs: seq<string>, delim: char)
    requires !('a' <= delim <= 'z')
    requires forall i :: 0 <= i < |fs| ==> IsUpperCase(fs[i])
    ensures IsUpperCase(Join(fs, delim))
  {
    if |fs| > 1 {
      JoinUpper(fs[1..], delim);
      var j := Join(fs, delim);
      assert j == fs[0] + [delim] + Join(fs[1..], delim);
      forall k | 0 <= k < |j|
        ensures !('a' <= j[k] <= 'z')
      {
        if k > |fs[0]| {
          assert j[k] == Join(fs[1..], delim)[k - |fs[0]| - 1];
        }
      }
    }
  }

  /** Two valid suites with the same text are the same suite. */
  lemma RenderInjective(s: Suite, u: Suite)
    requires Renderable(s) && Renderable(u) && ToString(s) == ToString(u)
    ensures s == u
  {
    CanonicalText(s);
    CanonicalText(u);
  }

  /** Validating a text the library itself rendered and rendering the result
      gives the upper-cased text back: the canonical texts are fixed points. */
  lemma CanonicalFixpoint(text: string, s: Suite)
    requires Renderable(s) && UpperString(text) == ToString(s)
    ensures Validate(text).Success? && ToString(Validate(text).value) == UpperString(text)
  {
    RoundTrip(s, text);
  }

  /** The rendering is canonical, not input-preserving: `atoi` skips white
      space, so the challenge token `QA 8` is accepted as length 8 and is
      rendered back as `QA08`; the counter slot looks only at the first
      character, so `CX` counts as `C`. */
  lemma ChallengeNotPreserved()
    ensures ChallengeSlot("QA 8") == Success(Challenge(Alphanumeric, 8))
    ensures ChallengeToken(Challenge(Alphanumeric, 8)) == "QA08"
    ensures CounterSlot("CX") == Success(true)
  {
    assert "QA 8"[1..] == "A 8";
    assert "A 8"[1..] == " 8";
    assert AtoI(" 8") == AtoI("8") by {
      assert " 8"[1..] == "8";
    }
    AtoIOneDigit(8);
    assert [DigitChar(8)] == "8";
  }

  /** The T slot on its own accepts `T-1H` with the hour value 255, which
      `to_string` would print with the character '0' + 25 as its tens digit,
      a text that reads back as hour 0. No validated suite carries that value:
      the validator splits `T-1H` apart (`NegativeHoursRejected`), and every
      suite it accepts is renderable (`AcceptedIsRenderable`). */
  lemma NegativeHoursNotRendered()
    ensures TimestampSlot("T-1H", AsWritten) == Success(Some(TimeStep(Hours, 255)))
    ensures TimestampToken(TimeStep(Hours, 255)) == "TI5H"
    ensures TimestampSlot("TI5H", AsWritten) == Success(Some(TimeStep(Hours, 0)))
  {
    HoursBoundNotEnforced();
    assert "T-1H"[1..] == "-1H";
    assert "TI5H"[1..] == "I5H";
    assert "I5H"[..2] == "I5";
    assert LeadingDigits("I5") == "";
  }
}
