/** Replies on their way through the socket: what the client's session holds after whatever part of the
    stream its login has read. */
module Delivery {
  import opened CStrings
  import opened LineInput
  import opened Options
  import opened Protocol
  import opened Service
  import opened Sessions
  import opened Streams
  import opened TokenPrefixes

  function LoginWire(c: Codes, w: Wording): Bytes {
    Wire(Reply(1, LoginOk, LoginData(c.edu, c.school, ROLE_GENERAL)), w)
  }

  /** What an earlier receive_response can have left unread of a reply without data: the end of its message.
      The messages hold no slash and no digit. */
  predicate EndOfMessage(s: Bytes) {
    Free(s, SLASH) && Free(s, {NUL}) && |s| <= 64 && forall k :: 0 <= k < |s| ==> !('0' <= s[k] <= '9')
  }

  /** The stream behind a reply: empty, or another reply. */
  predicate NextReply(later: Bytes) {
    later != [] ==> later[0] != '/' && later[0] != NUL
  }

  // ----- The status -----

  lemma {:induction false} UnsignedZero(s: Bytes)
    requires forall k :: 0 <= k < |s| && '0' <= s[k] <= '9' ==> s[k] == '0'
    ensures Unsigned(s, 0) == 0
  {
    if s != [] { UnsignedZero(s[1..]); }
  }

  lemma {:induction false} BlanksSkipped(s: Bytes)
    ensures |SkipBlanks(s)| <= |s| && SkipBlanks(s) == s[|s| - |SkipBlanks(s)|..]
  {
    if s != [] { BlanksSkipped(s[1..]); }
  }

  lemma AtoiZero(s: Bytes)
    requires forall k :: 0 <= k < |s| && '0' <= s[k] <= '9' ==> s[k] == '0'
    ensures Atoi(s) == 0
  {
    BlanksSkipped(s);
    var t := SkipBlanks(s);
    UnsignedZero(t);
    if t != [] { UnsignedZero(t[1..]); }
  }

  /** A leftover that starts with anything but white space or a plus sign spoils a status 1. */
  lemma LeftoverSpoils(leftover: Bytes)
    requires EndOfMessage(leftover) && leftover != [] && leftover[0] !in BLANKS && leftover[0] != '+'
    ensures Atoi(leftover + "1") != 1
  {
    var s := leftover + "1";
    assert s[0] == leftover[0] && SkipBlanks(s) == s;
    if s[0] == '-' { UnsignedGrows(s[1..], 0); }
  }

  lemma {:induction false} UnsignedGrows(s: Bytes, acc: int)
    requires acc >= 0
    ensures Unsigned(s, acc) >= 0
  {
    if s != [] && '0' <= s[0] <= '9' { UnsignedGrows(s[1..], 10 * acc + (s[0] as int - '0' as int)); }
  }

  // ----- The tokens -----

  lemma FirstTokenIs(p: Bytes, first: Bytes)
    requires first != [] && Free(first, SLASH) && first <= p && (|p| > |first| ==> p[|first|] == '/')
    ensures Tokens(p, SLASH) != [] && Tokens(p, SLASH)[0] == first
  {
    RunThenRest(first, p[|first|..], SLASH);
    assert p == first + p[|first|..];
  }

  lemma HeadedTokens(leftover: Bytes, text: Bytes, edu: Bytes, school: Bytes, role: Bytes)
    requires EndOfMessage(leftover) && PlainText(text) && GoodField(edu) && GoodField(school) && GoodField(role)
    requires |edu| + |school| + |role| <= 300
    ensures Tokens(leftover + Format(1, text, LoginData(edu, school, role)), SLASH)
            == [leftover + "1", text, edu, school, role]
  {
    LoginReplyTokens(text, edu, school, role);
    var rest := [text, edu, school, role];
    var fields := [leftover + "1"] + rest;
    assert fields[1..] == rest;
    assert Join(fields, DELIMITER) == leftover + "1" + DELIMITER + Join(rest, DELIMITER);
    assert Join(fields, DELIMITER) == leftover + Format(1, text, LoginData(edu, school, role));
    FieldsReturn(fields);
  }

  /** A granted reply whose role is cut or followed by more bytes. */
  lemma RolePart(text: Bytes, c: Codes, role: Bytes)
    requires PlainText(text) && GoodCodes(c) && |role| <= 8
    ensures var whole := Format(1, text, LoginData(c.edu, c.school, ROLE_GENERAL));
            |whole| >= 7 && Format(1, text, LoginData(c.edu, c.school, role)) == whole[..|whole| - 7] + role
  {
    GeneralIsGood();
    var head := [StatusDigit(1)] + DELIMITER + text + (DELIMITER + (c.edu + DELIMITER + c.school + DELIMITER));
    assert Format(1, text, LoginData(c.edu, c.school, ROLE_GENERAL)) == head + ROLE_GENERAL;
    assert Format(1, text, LoginData(c.edu, c.school, role)) == head + role;
  }

  // ----- The session after part of the stream -----

  /** The session a granted login leaves, by the number of bytes read of leftover and reply. Nothing while the
      status is not in or is spoilt; with nothing of the role a failure that has already stored the id, and
      the client tells by a nonempty id that it is logged in; with part of the role success with that part. */
  function AfterPart(session: Session, id: Bytes, c: Codes, leftover: Bytes, whole: nat, n: nat): (Session, bool)
    requires n <= |leftover| + whole
  {
    var got := n - (|leftover| + whole - 7);
    if n <= |leftover| || Atoi(leftover + "1") != 1 then (session, false)
    else if got <= 0 then (session.(id := id), false)
    else (Session(id, ROLE_GENERAL[..got], c.edu, c.school), true)
  }

  lemma LoginWithPart(session: Session, id: Bytes, c: Codes, w: Wording, leftover: Bytes, received: Bytes)
    requires ValidId(id) && GoodCodes(c) && PlainWording(w) && EndOfMessage(leftover)
    requires received <= leftover + LoginWire(c, w)
    ensures LoginEffect(session, id, received) ==
            AfterPart(session, id, c, leftover, |LoginWire(c, w)|, |received|)
  {
    var whole := LoginWire(c, w);
    LoginWireStarts(c, w);
    if |received| <= |leftover| {
      TokensOfOne(received, SLASH);
      AtoiZero(received);
    } else {
      FirstTokenIs(received, leftover + "1");
      var got := |received| - (|leftover| + |whole| - 7);
      if got <= 0 { NothingOfTheRole(c, w, leftover, received); } else { PartOfTheRole(c, w, leftover, received, got); }
    }
  }

  lemma NothingOfTheRole(c: Codes, w: Wording, leftover: Bytes, received: Bytes)
    requires GoodCodes(c) && PlainWording(w) && EndOfMessage(leftover) && received <= leftover + LoginWire(c, w)
    requires |received| <= |leftover| + |LoginWire(c, w)| - 7
    ensures |Tokens(received, SLASH)| < 5
  {
    assert PlainText(w(LoginOk));
    var next := leftover + Format(1, w(LoginOk), LoginData(c.edu, c.school, "G"));
    RolePart(w(LoginOk), c, "G");
    HeadedTokens(leftover, w(LoginOk), c.edu, c.school, "G");
    assert received <= next && received != next;
    FewerTokens(received, next, SLASH);
  }

  lemma PartOfTheRole(c: Codes, w: Wording, leftover: Bytes, received: Bytes, got: nat)
    requires GoodCodes(c) && PlainWording(w) && EndOfMessage(leftover) && received <= leftover + LoginWire(c, w)
    requires 0 < got == |received| - (|leftover| + |LoginWire(c, w)| - 7)
    ensures got <= 7 == |ROLE_GENERAL|
    ensures Tokens(received, SLASH) == [leftover + "1", w(LoginOk), c.edu, c.school, ROLE_GENERAL[..got]]
  {
    assert PlainText(w(LoginOk));
    GeneralIsGood();
    RolePart(w(LoginOk), c, ROLE_GENERAL);
    RolePart(w(LoginOk), c, ROLE_GENERAL[..got]);
    HeadedTokens(leftover, w(LoginOk), c.edu, c.school, ROLE_GENERAL[..got]);
    assert received == leftover + Format(1, w(LoginOk), LoginData(c.edu, c.school, ROLE_GENERAL[..got]));
  }

  /** With bytes of the next reply read as well, a status that is not spoilt gives a role that is too long. */
  lemma LoginWithMore(session: Session, id: Bytes, c: Codes, w: Wording, leftover: Bytes, more: Bytes)
    requires ValidId(id) && GoodCodes(c) && PlainWording(w) && EndOfMessage(leftover)
    requires more != [] && NextReply(more)
    ensures var (s, ok) := LoginEffect(session, id, leftover + LoginWire(c, w) + more);
            if Atoi(leftover + "1") != 1 then (s, ok) == (session, false)
            else ok && ROLE_GENERAL < s.role && s == Session(id, s.role, c.edu, c.school)
  {
    var received := leftover + LoginWire(c, w) + more;
    var role := ROLE_GENERAL + [more[0]];
    GeneralIsGood();
    assert PlainText(w(LoginOk));
    RolePart(w(LoginOk), c, role);
    RolePart(w(LoginOk), c, ROLE_GENERAL);
    HeadedTokens(leftover, w(LoginOk), c.edu, c.school, role);
    var p := leftover + Format(1, w(LoginOk), LoginData(c.edu, c.school, role));
    assert p == leftover + LoginWire(c, w) + [more[0]] && p <= received;
    PrefixTokens(p, received, SLASH);
    var ts := Tokens(received, SLASH);
    assert ts[0] == leftover + "1" && ts[2] == c.edu && ts[3] == c.school && role <= ts[4];
  }

  lemma LoginWireStarts(c: Codes, w: Wording)
    requires PlainWording(w) && GoodCodes(c)
    ensures StartsLikeReply(LoginWire(c, w)) && 16 <= |LoginWire(c, w)| < 1000 && LoginWire(c, w)[0] == '1'
  {
    FormatStarts(1, w(LoginOk), LoginData(c.edu, c.school, ROLE_GENERAL));
    assert PlainText(w(LoginOk));
    GeneralIsGood();
    LoginReplyTokens(w(LoginOk), c.edu, c.school, ROLE_GENERAL);
  }

  /** No part of a refusal, whatever stands before and behind it, touches the session. */
  lemma RefusalWithPart(session: Session, id: Bytes, m: Message, w: Wording, leftover: Bytes, later: Bytes,
                        received: Bytes)
    requires EndOfMessage(leftover) && PlainWording(w)
    requires received <= leftover + Wire(Reply(0, m, []), w) + later
    ensures LoginEffect(session, id, received) == (session, false)
  {
    FormatStarts(0, w(m), []);
    if |received| <= |leftover| {
      TokensOfOne(received, SLASH);
      AtoiZero(received);
    } else {
      FirstTokenIs(received, leftover + "0");
      AtoiZero(leftover + "0");
    }
  }

  /** Whatever the fields of a granted reply, each lands in its own buffer, cut to it. */
  lemma FieldsClipped(session: Session, id: Bytes, text: Bytes, edu: Bytes, school: Bytes, role: Bytes)
    requires PlainText(text) && GoodField(edu) && GoodField(school) && GoodField(role)
    requires |edu| + |school| + |role| <= 300
    ensures LoginEffect(session, id, Format(1, text, LoginData(edu, school, role))) ==
            (Session(Clip(id, 20), Clip(role, 20), Clip(edu, 50), Clip(school, 50)), true)
  {
    LoginReplyTokens(text, edu, school, role);
    AtoiOfDigit('1');
  }

  // ----- Through the socket -----

  /** handle_login from receive_response on; None is its failure. */
  function LoginAfter(session: Session, id: Bytes, response: Option<Bytes>): (Session, bool) {
    match response
    case None => (session, false)
    case Some(text) => LoginEffect(session, id, text)
  }

  lemma StreamStarts(leftover: Bytes, wire: Bytes, later: Bytes)
    requires EndOfMessage(leftover) && StartsLikeReply(wire)
    ensures DelimiterEndsAt(leftover + wire + later, |leftover| + 3)
  {
    var s := leftover + wire + later;
    assert forall k :: 0 <= k < |leftover| ==> s[k] == leftover[k];
    assert forall k :: 0 <= k < 3 ==> s[|leftover| + k] == wire[k];
  }

  /** What every delivery of a granted login does to the session, with the end of an earlier reply before it and
      further replies behind it. */
  lemma LoginByStop(session: Session, id: Bytes, c: Codes, w: Wording, leftover: Bytes, later: Bytes,
                    plan: seq<RecvStep>)
    requires ValidId(id) && GoodCodes(c) && PlainWording(w) && EndOfMessage(leftover) && NextReply(later)
    ensures var stream := leftover + LoginWire(c, w) + later;
            var whole := |LoginWire(c, w)|;
            var response := ResponseOf(Gather([], stream, plan));
            var (s, ok) := LoginAfter(session, id, response);
            match Stop(|leftover| + 3, 0, |stream|, plan)
            case None =>
              !ok && s == (if response == None || |response.value| <= |leftover| || Atoi(leftover + "1") != 1
                           then session else session.(id := id))
            case Some(n) =>
              if n <= |leftover| + whole then (s, ok) == AfterPart(session, id, c, leftover, whole, n)
              else if Atoi(leftover + "1") != 1 then (s, ok) == (session, false)
              else ok && ROLE_GENERAL < s.role && s == Session(id, s.role, c.edu, c.school)
  {
    LoginWireStarts(c, w);
    StreamStarts(leftover, LoginWire(c, w), later);
    var whole := leftover + LoginWire(c, w);
    var response := ResponseAt(whole + later, plan, |leftover| + 3);
    if response.Some? {
      var text := response.value;
      if |text| <= |whole| {
        assert text <= whole;
        LoginWithPart(session, id, c, w, leftover, text);
      } else {
        assert text == whole + text[|whole|..];
        LoginWithMore(session, id, c, w, leftover, text[|whole|..]);
      }
    }
  }

  /** Under every script: the session ends up as the server meant it exactly when nothing unread spoils the
      status and the recv() that brings the first delimiter ends where the reply does. */
  lemma LoginNeedsAllBytes(session: Session, id: Bytes, c: Codes, w: Wording, leftover: Bytes, later: Bytes,
                           plan: seq<RecvStep>)
    requires ValidId(id) && GoodCodes(c) && PlainWording(w) && EndOfMessage(leftover) && NextReply(later)
    ensures var stream := leftover + LoginWire(c, w) + later;
            LoginAfter(session, id, ResponseOf(Gather([], stream, plan)))
            == (Session(id, ROLE_GENERAL, c.edu, c.school), true)
            <==> Atoi(leftover + "1") == 1
                 && Stop(|leftover| + 3, 0, |stream|, plan) == Some(|leftover| + |LoginWire(c, w)|)
  {
    LoginByStop(session, id, c, w, leftover, later, plan);
    LoginWireStarts(c, w);
    GeneralIsGood();
    assert ROLE_GENERAL[..7] == ROLE_GENERAL;
  }

  lemma RefusalReceived(session: Session, id: Bytes, m: Message, w: Wording, leftover: Bytes, later: Bytes,
                        plan: seq<RecvStep>)
    requires EndOfMessage(leftover) && PlainWording(w)
    ensures LoginAfter(session, id, ResponseOf(Gather([], leftover + Wire(Reply(0, m, []), w) + later, plan)))
            == (session, false)
  {
    var wire := Wire(Reply(0, m, []), w);
    FormatStarts(0, w(m), []);
    StreamStarts(leftover, wire, later);
    var response := ResponseAt(leftover + wire + later, plan, |leftover| + 3);
    if response.Some? { RefusalWithPart(session, id, m, w, leftover, later, response.value); }
  }

  /** With no reply at all there is at most the leftover to read. */
  lemma NothingReceived(session: Session, id: Bytes, leftover: Bytes, plan: seq<RecvStep>)
    requires EndOfMessage(leftover)
    ensures LoginAfter(session, id, ResponseOf(Gather([], leftover, plan))) == (session, false)
  {
    GatherSound([], leftover, plan);
    assert [] + leftover == leftover;
    var text := Gather([], leftover, plan).text;
    assert text <= leftover;
    TokensOfOne(text, SLASH);
    AtoiZero(text);
  }

  /** With nothing unread before the reply and nothing behind it. */
  lemma LoginAlone(session: Session, id: Bytes, c: Codes, w: Wording, plan: seq<RecvStep>)
    requires ValidId(id) && GoodCodes(c) && PlainWording(w)
    requires Stop(3, 0, |LoginWire(c, w)|, plan) == Some(|LoginWire(c, w)|)
    ensures LoginAfter(session, id, ResponseOf(Gather([], LoginWire(c, w), plan)))
            == (Session(id, ROLE_GENERAL, c.edu, c.school), true)
  {
    AtoiOfDigit('1');
    assert [] + "1" == "1" && [] + LoginWire(c, w) + [] == LoginWire(c, w);
    LoginNeedsAllBytes(session, id, c, w, [], [], plan);
  }

  // ----- Inputs -----

  /** A first piece of one or two bytes does no harm when all the rest comes next. */
  lemma ShortFirstPiece(session: Session, id: Bytes, c: Codes, w: Wording, n: nat)
    requires ValidId(id) && GoodCodes(c) && PlainWording(w) && 1 <= n <= 2
    ensures LoginAfter(session, id, ResponseOf(Gather([], LoginWire(c, w), [Arrives(n), Arrives(BUFFER_SIZE)])))
            == (Session(id, ROLE_GENERAL, c.edu, c.school), true)
  {
    var plan := [Arrives(n), Arrives(BUFFER_SIZE)];
    LoginWireStarts(c, w);
    assert plan[1..][0] == Arrives(BUFFER_SIZE);
    assert Stop(3, n, |LoginWire(c, w)|, plan[1..]) == Some(|LoginWire(c, w)|);
    LoginAlone(session, id, c, w, plan);
  }

  /** A cut after the third byte: the login fails and the id stays behind. */
  lemma CutAtThirdByte(session: Session, id: Bytes, c: Codes, w: Wording)
    requires ValidId(id) && GoodCodes(c) && PlainWording(w)
    ensures LoginAfter(session, id, ResponseOf(Gather([], LoginWire(c, w), [Arrives(3), Arrives(BUFFER_SIZE)])))
            == (session.(id := id), false)
  {
    var plan := [Arrives(3), Arrives(BUFFER_SIZE)];
    LoginWireStarts(c, w);
    assert Stop(3, 0, |LoginWire(c, w)|, plan) == Some(3);
    AtoiOfDigit('1');
    assert [] + "1" == "1" && [] + LoginWire(c, w) + [] == LoginWire(c, w);
    LoginByStop(session, id, c, w, [], [], plan);
  }
}
