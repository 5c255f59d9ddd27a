/** The client's login and logout over its socket: the session lives in four global buffers. */
module Client {
  import opened CStrings
  import opened Options
  import opened Protocol
  import opened Accounts
  import opened Service
  import opened LineInput
  import opened Sessions
  import opened Streams
  import opened Delivery
  import opened Pieces

  /** handle_login as a function: the session afterwards and the result, for every way the sockets may behave. */
  function LoginCall(session: Session, id: Bytes, pw: Bytes, incoming: Bytes, sendPlan: seq<SendStep>,
                     ready: bool, recvPlan: seq<RecvStep>): (Session, bool)
  {
    if !Push(Print(LoginRequest(id, pw)), sendPlan).1 || !ready then (session, false)
    else LoginAfter(session, id, ResponseOf(Gather([], incoming, recvPlan)))
  }

  /** The server's first recv() ends in the password sent, and with a part of it that is the stored one: all of
      it, or a proper part and then the password sent is wrong. */
  predicate Grants(id: Bytes, stored: Bytes, pw: Bytes, recvs: seq<Read>) {
    recvs != [] && stored <= pw && Cut(Print(LoginRequest(id, pw)), recvs[0]) == LoginCut(id, stored)
  }

  /** Nothing unread spoils the status, and the recv() that brings the first delimiter ends where the reply does. */
  predicate ArrivesWhole(leftover: Bytes, stream: Bytes, reply: Bytes, plan: seq<RecvStep>) {
    |leftover| <= 64 && Atoi(leftover + "1") == 1 &&
    Stop(|leftover| + 3, 0, |stream|, plan) == Some(|leftover| + |reply|)
  }

  /** What a login does to the session, as tables, both ends of the connection and the leftover decide. */
  ghost predicate LoginOutcome(db: Db, id: Bytes, c: Credentials, pw: Bytes, session: Session, w: Wording,
                               leftover: Bytes, recvs: seq<Read>, sendPlan: seq<SendStep>, ready: bool,
                               recvPlan: seq<RecvStep>)
  {
    var msg := Print(LoginRequest(id, pw));
    var stream := leftover + WireAll(RepliesTo(db, Taken(msg, recvs)), w);
    var call := LoginCall(session, id, pw, stream, sendPlan, ready, recvPlan);
    if Grants(id, c.pw, pw, recvs) then
      call == (Session(id, ROLE_GENERAL, c.codes.edu, c.codes.school), true)
      <==> Capacity(sendPlan) >= |msg| && ready && ArrivesWhole(leftover, stream, LoginWire(c.codes, w), recvPlan)
    else call == (session, false)
  }

  /** The whole way, over both ends of the connection, after a successful registration and any run of requests
      that do not delete the id. `recvs` are the recv() calls of the server's handler, each served as a request;
      `recvPlan` those of the client; `leftover` is what an earlier reply left unread. The server grants the
      login exactly when its first recv() ends where the stored password does, be that the whole of the
      password sent or a proper part. If it does not, the session stays as it was whatever the sockets do; if it
      does, the session comes to hold the id, the latest codes and role GENERAL exactly when the request was
      taken whole, data came in time, nothing unread spoils the status, and the recv() that brings the first
      delimiter ends where the reply does. */
  lemma LoginOverSockets(db0: Db, r: Request, env0: Env, events: seq<Event>, pw: Bytes, session: Session, w: Wording,
                         leftover: Bytes, recvs: seq<Read>, sendPlan: seq<SendStep>, ready: bool,
                         recvPlan: seq<RecvStep>)
    requires r.RegisterRequest? && Printable(r) && ValidId(r.id) && ValidPassword(r.pw) && GoodEnv(env0)
    requires Serve(db0, Print(r), env0).replies == Ok(RegisterOk, [])
    requires forall k :: 0 <= k < |events| ==> GoodEvent(events[k]) && !Deletes(events[k], r.id)
    requires GoodField(pw) && |pw| < 4000 && PlainWording(w) && EndOfMessage(leftover)
    requires recvs != [] ==> recvs[0].env.faults == {}
    ensures r.school in env0.schools
    ensures var latest := Latest(Credentials(r.pw, env0.schools[r.school]), events, r.id);
            var db := ServeAll(Serve(db0, Print(r), env0).db, events);
            LoginOutcome(db, r.id, latest, pw, session, w, leftover, recvs, sendPlan, ready, recvPlan)
  {
    var c, db := RegisteredSince(db0, r, env0, events);
    StoredLogin(db, r.id, c, pw, session, w, leftover, recvs, sendPlan, ready, recvPlan);
  }

  /** The login itself, on tables that hold the credentials. */
  lemma StoredLogin(db: Db, id: Bytes, c: Credentials, pw: Bytes, session: Session, w: Wording, leftover: Bytes,
                    recvs: seq<Read>, sendPlan: seq<SendStep>, ready: bool, recvPlan: seq<RecvStep>)
    requires Stored(db, id, c) && GoodCredentials(c) && ValidId(id)
    requires GoodField(pw) && |pw| < 4000 && PlainWording(w) && EndOfMessage(leftover)
    requires recvs != [] ==> recvs[0].env.faults == {}
    ensures LoginOutcome(db, id, c, pw, session, w, leftover, recvs, sendPlan, ready, recvPlan)
  {
    PushCount(Print(LoginRequest(id, pw)), sendPlan);
    var stream := leftover + WireAll(RepliesTo(db, Taken(Print(LoginRequest(id, pw)), recvs)), w);
    if Grants(id, c.pw, pw, recvs) {
      GrantedStream(db, id, c, pw, session, w, leftover, recvs, recvPlan);
    } else {
      NotGranted(db, id, c, pw, recvs);
      RefusedStream(db, session, id, pw, w, leftover, recvs, recvPlan);
    }
  }

  lemma GrantedStream(db: Db, id: Bytes, c: Credentials, pw: Bytes, session: Session, w: Wording, leftover: Bytes,
                      recvs: seq<Read>, plan: seq<RecvStep>)
    requires Stored(db, id, c) && GoodCredentials(c) && ValidId(id) && Grants(id, c.pw, pw, recvs)
    requires GoodField(pw) && |pw| < 4000 && PlainWording(w) && EndOfMessage(leftover) && recvs[0].env.faults == {}
    ensures var stream := leftover + WireAll(RepliesTo(db, Taken(Print(LoginRequest(id, pw)), recvs)), w);
            LoginAfter(session, id, ResponseOf(Gather([], stream, plan)))
            == (Session(id, ROLE_GENERAL, c.codes.edu, c.codes.school), true)
            <==> ArrivesWhole(leftover, stream, LoginWire(c.codes, w), plan)
  {
    var stream := leftover + WireAll(RepliesTo(db, Taken(Print(LoginRequest(id, pw)), recvs)), w);
    var later := GrantedReplies(db, id, c, pw, w, leftover, recvs);
    WholeStream(session, id, c.codes, w, leftover, later, stream, plan);
  }

  lemma GrantedReplies(db: Db, id: Bytes, c: Credentials, pw: Bytes, w: Wording, leftover: Bytes, recvs: seq<Read>)
      returns (later: Bytes)
    requires Stored(db, id, c) && GoodCredentials(c) && ValidId(id) && Grants(id, c.pw, pw, recvs)
    requires GoodField(pw) && |pw| < 4000 && recvs[0].env.faults == {}
    ensures NextReply(later)
    ensures leftover + WireAll(RepliesTo(db, Taken(Print(LoginRequest(id, pw)), recvs)), w) ==
            leftover + LoginWire(c.codes, w) + later
  {
    var msg := Print(LoginRequest(id, pw));
    LoginMessage(id, pw);
    PieceServed(db, id, c, pw, Cut(msg, recvs[0]), recvs[0].env);
    later := RepliesToPieces(db, msg, recvs, w);
    assert leftover + (LoginWire(c.codes, w) + later) == leftover + LoginWire(c.codes, w) + later;
  }

  lemma WholeStream(session: Session, id: Bytes, c: Codes, w: Wording, leftover: Bytes, later: Bytes, stream: Bytes,
                    plan: seq<RecvStep>)
    requires ValidId(id) && GoodCodes(c) && PlainWording(w) && EndOfMessage(leftover) && NextReply(later)
    requires stream == leftover + LoginWire(c, w) + later
    ensures LoginAfter(session, id, ResponseOf(Gather([], stream, plan)))
            == (Session(id, ROLE_GENERAL, c.edu, c.school), true)
            <==> ArrivesWhole(leftover, stream, LoginWire(c, w), plan)
  {
    LoginNeedsAllBytes(session, id, c, w, leftover, later, plan);
  }

  /** The first piece of this login is refused. */
  predicate Refused(db: Db, id: Bytes, pw: Bytes, recvs: seq<Read>) {
    var msg := Print(LoginRequest(id, pw));
    recvs != [] ==>
      var o := Serve(db, msg[..Cut(msg, recvs[0])], recvs[0].env);
      o.db == db && |o.replies| == 1 && o.replies == Error(o.replies[0].message)
  }

  lemma RefusedStream(db: Db, session: Session, id: Bytes, pw: Bytes, w: Wording, leftover: Bytes, recvs: seq<Read>,
                      plan: seq<RecvStep>)
    requires Refused(db, id, pw, recvs)
    requires ValidId(id) && GoodField(pw) && |pw| < 4000 && PlainWording(w) && EndOfMessage(leftover)
    ensures var stream := leftover + WireAll(RepliesTo(db, Taken(Print(LoginRequest(id, pw)), recvs)), w);
            LoginAfter(session, id, ResponseOf(Gather([], stream, plan))) == (session, false)
  {
    var msg := Print(LoginRequest(id, pw));
    if recvs == [] {
      assert leftover + [] == leftover;
      NothingReceived(session, id, leftover, plan);
    } else {
      LoginMessage(id, pw);
      var later := RepliesToPieces(db, msg, recvs, w);
      var m := Serve(db, msg[..Cut(msg, recvs[0])], recvs[0].env).replies[0].message;
      var wire := Wire(Reply(0, m, []), w);
      assert leftover + (wire + later) == leftover + wire + later;
      RefusalReceived(session, id, m, w, leftover, later, plan);
    }
  }

  lemma NotGranted(db: Db, id: Bytes, c: Credentials, pw: Bytes, recvs: seq<Read>)
    requires Stored(db, id, c) && GoodCredentials(c) && ValidId(id) && !Grants(id, c.pw, pw, recvs)
    requires GoodField(pw) && |pw| < 4000 && (recvs != [] ==> recvs[0].env.faults == {})
    ensures Refused(db, id, pw, recvs)
  {
    var msg := Print(LoginRequest(id, pw));
    LoginMessage(id, pw);
    if recvs != [] { PieceServed(db, id, c, pw, Cut(msg, recvs[0]), recvs[0].env); }
  }

  /** An id without a row, never registered or deleted since, cannot log in: whatever password it sends, however
      the request is cut and whatever the sockets do, the session stays as it was. */
  lemma StrangerStaysOut(db: Db, id: Bytes, pw: Bytes, session: Session, w: Wording, leftover: Bytes,
                         recvs: seq<Read>, sendPlan: seq<SendStep>, ready: bool, recvPlan: seq<RecvStep>)
    requires id !in db.users && ValidId(id) && GoodField(pw) && |pw| < 4000
    requires PlainWording(w) && EndOfMessage(leftover) && (recvs != [] ==> recvs[0].env.faults == {})
    ensures var stream := leftover + WireAll(RepliesTo(db, Taken(Print(LoginRequest(id, pw)), recvs)), w);
            LoginCall(session, id, pw, stream, sendPlan, ready, recvPlan) == (session, false)
  {
    var msg := Print(LoginRequest(id, pw));
    LoginMessage(id, pw);
    if recvs != [] { StrangerServed(db, id, pw, Cut(msg, recvs[0]), recvs[0].env); }
    RefusedStream(db, session, id, pw, w, leftover, recvs, recvPlan);
  }

  /** A request not taken whole, or no data in time: the session is as it was. */
  lemma UnsentLeavesSession(session: Session, id: Bytes, pw: Bytes, incoming: Bytes, sendPlan: seq<SendStep>,
                            ready: bool, recvPlan: seq<RecvStep>)
    requires Capacity(sendPlan) < |Print(LoginRequest(id, pw))| || !ready
    ensures LoginCall(session, id, pw, incoming, sendPlan, ready, recvPlan) == (session, false)
  {
    PushCount(Print(LoginRequest(id, pw)), sendPlan);
  }

  /** That input end to end: "1234" is stored, "12345" is sent and arrives cut before the 5, the reply arrives
      whole, and the client is logged in. */
  lemma WrongPasswordLogsIn(db: Db, c: Codes, session: Session, w: Wording, env: Env)
    requires Stored(db, "user1", Credentials("1234", c)) && GoodCodes(c) && env.faults == {} && PlainWording(w)
    ensures var stream := WireAll(RepliesTo(db, [Event("LOGIN//user1//1234", env)]), w);
            LoginCall(session, "user1", "12345", stream, [Takes(100)], true, [Arrives(BUFFER_SIZE)])
            == (Session("user1", ROLE_GENERAL, c.edu, c.school), true)
  {
    var pw, msg, events := "12345", Print(LoginRequest("user1", "12345")), [Event("LOGIN//user1//1234", env)];
    ShortLiterals();
    LoginMessage("user1", pw);
    PushCount(msg, [Takes(100)]);
    WrongPasswordGranted(db, c, env);
    OneReplyStream(db, "LOGIN//user1//1234", env, w);
    LoginReceived(session, "user1", c, w);
    assert WireAll(RepliesTo(db, events), w) == LoginWire(c, w);
  }

  lemma OneReplyStream(db: Db, msg: Bytes, env: Env, w: Wording)
    requires |Serve(db, msg, env).replies| == 1
    ensures WireAll(RepliesTo(db, [Event(msg, env)]), w) == Wire(Serve(db, msg, env).replies[0], w)
  {
    var events := [Event(msg, env)];
    assert events[1..] == [];
    var replies := RepliesTo(db, events);
    assert replies == Serve(db, msg, env).replies && replies[1..] == [];
    assert WireAll(replies, w) == Wire(replies[0], w) + [];
  }

  lemma LoginReceived(session: Session, id: Bytes, c: Codes, w: Wording)
    requires ValidId(id) && GoodCodes(c) && PlainWording(w)
    ensures LoginAfter(session, id, ResponseOf(Gather([], LoginWire(c, w), [Arrives(BUFFER_SIZE)])))
            == (Session(id, ROLE_GENERAL, c.edu, c.school), true)
  {
    LoginWireStarts(c, w);
    OneRecvStops(|LoginWire(c, w)|);
    LoginAlone(session, id, c, w, [Arrives(BUFFER_SIZE)]);
  }

  lemma OneRecvStops(length: nat)
    requires 3 <= length < BUFFER_SIZE
    ensures Stop(3, 0, length, [Arrives(BUFFER_SIZE)]) == Some(length)
  {
  }

  class Client {
    const socket: Connection
    const id: array<char>       // current_user_id
    const role: array<char>     // current_user_role
    const edu: array<char>      // current_user_edu_office
    const school: array<char>   // current_user_school

    ghost predicate Valid()
      reads id, role, edu, school
    {
      && id.Length == MAX_ID_LEN && role.Length == MAX_ROLE_LEN
      && edu.Length == MAX_EDU_OFFICE_LEN && school.Length == MAX_SCHOOL_NAME_LEN
      && id != role && id != edu && id != school && role != edu && role != school && edu != school
      && Closed(id) && Closed(role) && Closed(edu) && Closed(school)
    }

    ghost predicate Closed(a: array<char>)
      reads a
    {
      a.Length > 0 && a[a.Length - 1] == NUL
    }

    /** The session the buffers spell. */
    ghost function View(): Session
      reads id, role, edu, school
    {
      Session(CStr(id[..]), CStr(role[..]), CStr(edu[..]), CStr(school[..]))
    }

    constructor (socket: Connection)
      ensures Valid() && View() == LOGGED_OUT && this.socket == socket
      ensures fresh(id) && fresh(role) && fresh(edu) && fresh(school)
    {
      this.socket := socket;
      id := new char[MAX_ID_LEN](_ => NUL);
      role := new char[MAX_ROLE_LEN](_ => NUL);
      edu := new char[MAX_EDU_OFFICE_LEN](_ => NUL);
      school := new char[MAX_SCHOOL_NAME_LEN](_ => NUL);
    }

    /** strncpy of all but the last byte, and the NUL written there. */
    method SetField(field: array<char>, text: Bytes)
      requires field.Length > 0 && Free(text, {NUL})
      modifies field
      ensures Closed(field) && CStr(field[..]) == Clip(text, field.Length)
    {
      var i := 0;
      while i < field.Length - 1
        invariant 0 <= i <= field.Length - 1
        invariant forall k :: 0 <= k < i ==> field[k] == if k < |text| then text[k] else NUL
      {
        field[i] := if i < |text| then text[i] else NUL;
        i := i + 1;
      }
      field[i] := NUL;
      ghost var n := |Clip(text, field.Length)|;
      SpanIs(field[..], n, {NUL});
      assert field[..][..n] == Clip(text, field.Length);
    }

    /** memset of one buffer. */
    method ClearField(field: array<char>)
      requires field.Length > 0
      modifies field
      ensures Closed(field) && CStr(field[..]) == []
    {
      forall k | 0 <= k < field.Length { field[k] := NUL; }
    }

    method HandleLogout()
      requires Valid()
      modifies id, role, edu, school
      ensures Valid() && View() == LOGGED_OUT
    {
      ClearField(id);
      ClearField(role);
      ClearField(edu);
      ClearField(school);
    }

    /** The parsing half of handle_login, in place in the response buffer. */
    method ReadReply(loginId: Bytes, response: array<char>, ghost text: Bytes) returns (ok: bool)
      requires Valid() && Free(loginId, {NUL})
      requires |text| < response.Length && response[..|text|] == text && response[|text|] == NUL && Free(text, {NUL})
      requires response != id && response != role && response != edu && response != school
      modifies id, role, edu, school, response
      ensures Valid() && (View(), ok) == LoginEffect(old(View()), loginId, text)
    {
      ghost var all := Tokens(text, SLASH);
      var tok := new Strtok(response, |text|);
      assert tok.Rest() == text;
      var status := FirstToken(tok, SLASH, all);
      if status == None || Atoi(status.value) != 1 { return false; }
      SetField(id, loginId);
      ok := ReadProfile(tok, all[1..]);
    }

    /** Message, office, school and role: all of them or nothing. */
    method ReadProfile(tok: Strtok, ghost left: seq<Bytes>) returns (ok: bool)
      requires Valid() && tok.Valid() && Tokens(tok.Rest(), SLASH) == left
      requires tok.buf != id && tok.buf != role && tok.buf != edu && tok.buf != school
      modifies role, edu, school, tok`next, tok.buf
      ensures Valid() && ok == (|left| >= 4)
      ensures View().id == old(View().id)
      ensures !ok ==> View() == old(View())
      ensures ok ==> View() == Session(old(View().id), Clip(left[3], MAX_ROLE_LEN), Clip(left[1], MAX_EDU_OFFICE_LEN),
                                       Clip(left[2], MAX_SCHOOL_NAME_LEN))
    {
      var starts := TakeTokens(tok, 4, SLASH);
      if |starts| < 4 { return false; }
      var office := StringAt(tok.buf, starts[1], left[1]);
      var name := StringAt(tok.buf, starts[2], left[2]);
      var kind := StringAt(tok.buf, starts[3], left[3]);
      StoreProfile(office, name, kind);
      ok := true;
    }

    method StoreProfile(office: Bytes, name: Bytes, kind: Bytes)
      requires Valid() && Free(office, {NUL}) && Free(name, {NUL}) && Free(kind, {NUL})
      modifies role, edu, school
      ensures Valid() && View() == Session(old(View().id), Clip(kind, MAX_ROLE_LEN), Clip(office, MAX_EDU_OFFICE_LEN),
                                           Clip(name, MAX_SCHOOL_NAME_LEN))
    {
      SetField(edu, office);
      SetField(school, name);
      SetField(role, kind);
    }

    method HandleLogin(loginId: Bytes, pw: Bytes, ready: bool) returns (ok: bool)
      requires Valid() && Free(loginId, {NUL}) && Free(socket.incoming, {NUL})
      modifies id, role, edu, school, socket
      ensures Valid()
      ensures (View(), ok) ==
              LoginCall(old(View()), loginId, pw, old(socket.incoming), old(socket.sendPlan), ready,
                        old(socket.recvPlan))
      ensures ok ==> socket.sent == old(socket.sent) + Print(LoginRequest(loginId, pw))
    {
      GatherSound([], socket.incoming, socket.recvPlan);
      ghost var incoming := socket.incoming;
      ok := socket.SendData(Print(LoginRequest(loginId, pw)));
      if !ok { return false; }
      var answer := socket.ReceiveResponse(ready);
      if answer == None { return false; }
      ghost var text := answer.value;
      assert text <= [] + incoming;
      var response := new char[BUFFER_SIZE](k requires 0 <= k => if k < |answer.value| then answer.value[k] else NUL);
      assert response[..|text|] == text;
      ok := ReadReply(loginId, response, text);
    }
  }
}
