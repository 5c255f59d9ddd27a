/** Client, wire and store together: what a login finds after any run of requests. */
module Sessions {
  import opened CStrings
  import opened Options
  import opened Protocol
  import opened Accounts
  import opened Service
  import opened LineInput
  import opened Requests

  /** One request as the server receives it, with the world's answers while it is served. */
  datatype Event = Event(msg: Bytes, env: Env)

  /** A registration whose INSERT quotes its id and password literally: they hold no quote. Every other
      statement binds its parameters. */
  predicate PlainInsert(msg: Bytes) {
    Decode(msg).Some? && Decode(msg).value.cmd.RegisterGeneral? ==>
      var p := Decode(msg).value;
      (p.id.Some? ==> '\'' !in Clip(p.id.value, MAX_ID_LEN)) && (p.pw.Some? ==> '\'' !in Clip(p.pw.value, MAX_PW_LEN))
  }

  /** A C string, and codes as NEIS returns them. */
  predicate GoodEvent(e: Event) {
    Free(e.msg, {NUL}) && PlainInsert(e.msg) && GoodEnv(e.env)
  }

  function ServeAll(db: Db, events: seq<Event>): Db
    decreases |events|
  {
    if events == [] then db else ServeAll(Serve(db, events[0].msg, events[0].env).db, events[1..])
  }

  /** The replies to those requests, oldest first. */
  function RepliesTo(db: Db, events: seq<Event>): seq<Reply>
    decreases events
  {
    if events == [] then [] else
      var o := Serve(db, events[0].msg, events[0].env);
      o.replies + RepliesTo(o.db, events[1..])
  }

  /** What the user should find at login. */
  datatype Credentials = Credentials(pw: Bytes, codes: Codes)

  predicate GoodCredentials(c: Credentials) {
    GoodField(c.pw) && |c.pw| < MAX_PW_LEN && GoodCodes(c.codes)
  }

  predicate Deletes(e: Event, id: Bytes) {
    Decode(e.msg).Some? && Decode(e.msg).value.cmd.Delete? && Decode(e.msg).value.id == Some(id)
  }

  /** The request sets new credentials for `id`: an UPDATE with all four fields whose id, cut to its field,
      is `id`, whose school is found, and that meets no database fault. */
  predicate Resets(e: Event, id: Bytes) {
    Decode(e.msg).Some? &&
    var p := Decode(e.msg).value;
    p.cmd.Update? && p.id.Some? && p.pw.Some? && p.edu.Some? && p.school.Some? &&
    Clip(p.id.value, MAX_ID_LEN) == id && p.school.value in e.env.schools && UpdateFault !in e.env.faults
  }

  /** The credentials after one request: the password cut to its field, the codes as the lookup gave them. */
  function LatestAfter(c: Credentials, e: Event, id: Bytes): Credentials {
    if Resets(e, id) then
      var p := Decode(e.msg).value;
      Credentials(Clip(p.pw.value, MAX_PW_LEN), e.env.schools[p.school.value])
    else c
  }

  function Latest(c: Credentials, events: seq<Event>, id: Bytes): Credentials
    decreases |events|
  {
    if events == [] then c else Latest(LatestAfter(c, events[0], id), events[1..], id)
  }

  predicate Stored(db: Db, id: Bytes, c: Credentials) {
    id in db.users && db.users[id] == Row(c.pw, ROLE_GENERAL, c.codes.edu, c.codes.school)
  }

  // ----- One request -----

  lemma StoredRowOf(pw: Bytes, c: Codes)
    requires GoodCodes(c)
    ensures StoredRow(pw, c) == Row(Clip(pw, MAX_PW_LEN), ROLE_GENERAL, c.edu, c.school)
  {
  }

  /** A request that does not delete `id` leaves its row as Latest says. */
  lemma RowAfterParsed(db: Db, p: Parsed, env: Env, id: Bytes, c: Credentials)
    requires Stored(db, id, c) && !(p.cmd.Delete? && p.id == Some(id)) && GoodEnv(env)
    requires !(p.cmd.Update? && p.id.Some? && Clip(p.id.value, MAX_ID_LEN) == id)
    ensures Stored(ServeParsed(db, p, env).db, id, c)
  {
    var d := Decide(db, p, env);
    match p.cmd
    case RegisterGeneral => assert d == OnRegister(db, p, env);
    case Update => assert d == OnUpdate(p, env);
    case Delete => assert d == OnDelete(p, env);
    case AddChild => assert d == OnAddChild(db, p, env);
    case DelChild => assert d == OnDelChild(db, p, env);
    case _ =>
  }

  lemma RowAfterUpdate(db: Db, e: Event, id: Bytes, c: Credentials)
    requires Stored(db, id, c) && GoodEvent(e) && Decode(e.msg).Some?
    requires var p := Decode(e.msg).value; p.cmd.Update? && p.id.Some? && Clip(p.id.value, MAX_ID_LEN) == id
    ensures Stored(Serve(db, e.msg, e.env).db, id, LatestAfter(c, e, id))
    ensures GoodCredentials(c) ==> GoodCredentials(LatestAfter(c, e, id))
  {
    var p := Decode(e.msg).value;
    assert Serve(db, e.msg, e.env) == CarryOut(db, OnUpdate(p, e.env));
    if Resets(e, id) {
      StoredRowOf(p.pw.value, e.env.schools[p.school.value]);
      ArgumentBytes(e.msg, p.pw.value);
    }
  }

  /** Every decoded argument is nonempty, slash-free and a C string. */
  lemma ArgumentBytes(msg: Bytes, arg: Bytes)
    requires Free(msg, {NUL}) && Decode(msg).Some? && Decode(msg).value.cmd.Update? && Decode(msg).value.pw == Some(arg)
    ensures GoodField(arg)
  {
    var ts := Tokens(msg, SLASH);
    TokenBytes(msg, SLASH, NUL);
    assert arg == ts[1..][1] && ts[1..][1] == ts[2];
    assert ts[2] in ts;
  }

  lemma RowAfter(db: Db, e: Event, id: Bytes, c: Credentials)
    requires Stored(db, id, c) && GoodEvent(e) && !Deletes(e, id)
    ensures Stored(Serve(db, e.msg, e.env).db, id, LatestAfter(c, e, id))
    ensures GoodCredentials(c) ==> GoodCredentials(LatestAfter(c, e, id))
  {
    var d := Decode(e.msg);
    if d.Some? {
      var p := d.value;
      if p.cmd.Update? && p.id.Some? && Clip(p.id.value, MAX_ID_LEN) == id {
        RowAfterUpdate(db, e, id, c);
      } else {
        RowAfterParsed(db, p, e.env, id, c);
        assert !Resets(e, id);
      }
    }
  }

  /** Over any run without a DELETE of `id` the store holds the latest credentials, role GENERAL. */
  lemma {:induction false} RowAfterAll(db: Db, events: seq<Event>, id: Bytes, c: Credentials)
    requires Stored(db, id, c)
    requires forall k :: 0 <= k < |events| ==> GoodEvent(events[k]) && !Deletes(events[k], id)
    ensures Stored(ServeAll(db, events), id, Latest(c, events, id))
    ensures GoodCredentials(c) ==> GoodCredentials(Latest(c, events, id))
    decreases |events|
  {
    if events != [] {
      var e := events[0];
      RowAfter(db, e, id, c);
      RowAfterAll(Serve(db, e.msg, e.env).db, events[1..], id, LatestAfter(c, e, id));
    }
  }

  // ----- Registration and login -----

  lemma ShortAlnum(s: Bytes)
    requires s != [] && forall k :: 0 <= k < |s| ==> Alnum(s[k])
    ensures GoodField(s)
  {
  }

  /** A registration that is answered REGISTER_OK has stored the row. */
  lemma RegisterStores(db: Db, r: Request, env: Env)
    requires r.RegisterRequest? && Printable(r) && ValidId(r.id) && ValidPassword(r.pw) && GoodEnv(env)
    requires Serve(db, Print(r), env).replies == Ok(RegisterOk, [])
    ensures r.id !in db.users && r.school in env.schools
    ensures Stored(Serve(db, Print(r), env).db, r.id, Credentials(r.pw, env.schools[r.school]))
  {
    DecodeOfPrint(r);
    var p := ParsedOf(RegisterGeneral, Arguments(r));
    assert p.id == Some(r.id) && p.pw == Some(r.pw) && p.edu == Some(r.edu) && p.school == Some(r.school);
    assert Serve(db, Print(r), env) == CarryOut(db, OnRegister(db, p, env));
    RegisterStoresParsed(db, p, env);
  }

  lemma RegisterStoresParsed(db: Db, p: Parsed, env: Env)
    requires p.id.Some? && p.pw.Some? && p.edu.Some? && p.school.Some? && GoodEnv(env)
    requires |p.id.value| < MAX_ID_LEN && |p.pw.value| < MAX_PW_LEN
    requires CarryOut(db, OnRegister(db, p, env)).replies == Ok(RegisterOk, [])
    ensures p.id.value !in db.users && p.school.value in env.schools
    ensures Stored(CarryOut(db, OnRegister(db, p, env)).db, p.id.value,
                   Credentials(p.pw.value, env.schools[p.school.value]))
  {
  }

  lemma LoginPrintable(id: Bytes, pw: Bytes)
    requires ValidId(id) && GoodField(pw) && |pw| < 4000
    ensures Printable(LoginRequest(id, pw))
  {
    var r := LoginRequest(id, pw);
    assert Arguments(r) == [id, pw];
    ShortAlnum(id);
    JoinThree(Name(Login), id, pw, DELIMITER);
  }

  lemma JoinThree(a: Bytes, b: Bytes, c: Bytes, sep: Bytes)
    ensures Join([a] + [b, c], sep) == a + sep + (b + sep + c)
  {
    assert ([a] + [b, c])[1..] == [b, c] && [b, c][1..] == [c];
    assert Join([c], sep) == c;
  }

  /** The reply to a login: the stored row for the stored password, a refusal for any other. */
  lemma LoginServed(db: Db, id: Bytes, c: Credentials, pw: Bytes, env: Env)
    requires Stored(db, id, c) && GoodCredentials(c) && ValidId(id) && GoodField(pw) && |pw| < 4000 && env.faults == {}
    ensures Serve(db, Print(LoginRequest(id, pw)), env).replies ==
            if pw == c.pw then Ok(LoginOk, LoginData(c.codes.edu, c.codes.school, ROLE_GENERAL))
            else Error(InvalidLogin)
  {
    var r := LoginRequest(id, pw);
    LoginPrintable(id, pw);
    DecodeOfPrint(r);
    var p := ParsedOf(Login, Arguments(r));
    assert p.id == Some(id) && p.pw == Some(pw);
    assert Serve(db, Print(r), env) == CarryOut(db, OnLogin(db, p, env));
    UserDataOf(c.pw, c.codes);
  }

  lemma UserDataOf(pw: Bytes, c: Codes)
    requires GoodCodes(c)
    ensures UserData(Row(pw, ROLE_GENERAL, c.edu, c.school)) == LoginData(c.edu, c.school, ROLE_GENERAL)
  {
    assert |LoginData(c.edu, c.school, ROLE_GENERAL)| < 256;
  }

  lemma GeneralIsGood()
    ensures GoodField(ROLE_GENERAL) && |ROLE_GENERAL| == 7
  {
  }

  /** The client's side: a login reply fills the session exactly, a refusal leaves it alone. */
  lemma LoginUnderstood(session: Session, id: Bytes, c: Codes, w: Wording)
    requires ValidId(id) && GoodCodes(c) && PlainWording(w)
    ensures LoginEffect(session, id, Wire(Reply(1, LoginOk, LoginData(c.edu, c.school, ROLE_GENERAL)), w))
         == (Session(id, ROLE_GENERAL, c.edu, c.school), true)
    ensures LoginEffect(session, id, Wire(Reply(0, InvalidLogin, []), w)) == (session, false)
  {
    GeneralIsGood();
    assert PlainText(w(LoginOk)) && PlainText(w(InvalidLogin));
    LoginReplyTokens(w(LoginOk), c.edu, c.school, ROLE_GENERAL);
    PlainReplyTokens(0, w(InvalidLogin));
    AtoiOfDigit('1');
    AtoiOfDigit('0');
  }

  /** What the tables hold after a successful registration and a run without a DELETE of the id. */
  lemma RegisteredSince(db0: Db, r: Request, env0: Env, events: seq<Event>) returns (latest: Credentials, db: Db)
    requires r.RegisterRequest? && Printable(r) && ValidId(r.id) && ValidPassword(r.pw) && GoodEnv(env0)
    requires Serve(db0, Print(r), env0).replies == Ok(RegisterOk, [])
    requires forall k :: 0 <= k < |events| ==> GoodEvent(events[k]) && !Deletes(events[k], r.id)
    ensures r.school in env0.schools
    ensures latest == Latest(Credentials(r.pw, env0.schools[r.school]), events, r.id)
    ensures db == ServeAll(Serve(db0, Print(r), env0).db, events)
    ensures Stored(db, r.id, latest) && GoodCredentials(latest)
  {
    RegisterStores(db0, r, env0);
    var c := Credentials(r.pw, env0.schools[r.school]);
    ShortAlnum(r.pw);
    var db1 := Serve(db0, Print(r), env0).db;
    RowAfterAll(db1, events, r.id, c);
    latest, db := Latest(c, events, r.id), ServeAll(db1, events);
  }

  /** End to end. After a registration of a valid id and password has been answered REGISTER_OK, and any
      run of requests without a DELETE of that id, a login with the latest password leaves the session
      holding exactly that id, the latest codes and role GENERAL; any other password leaves it unchanged. */
  lemma EndToEnd(db0: Db, r: Request, env0: Env, events: seq<Event>, pw: Bytes, env: Env, session: Session, w: Wording)
    requires r.RegisterRequest? && Printable(r) && ValidId(r.id) && ValidPassword(r.pw) && GoodEnv(env0)
    requires Serve(db0, Print(r), env0).replies == Ok(RegisterOk, [])
    requires forall k :: 0 <= k < |events| ==> GoodEvent(events[k]) && !Deletes(events[k], r.id)
    requires GoodField(pw) && |pw| < 4000 && env.faults == {} && PlainWording(w)
    ensures r.school in env0.schools
    ensures var latest := Latest(Credentials(r.pw, env0.schools[r.school]), events, r.id);
            var db := ServeAll(Serve(db0, Print(r), env0).db, events);
            var replies := Serve(db, Print(LoginRequest(r.id, pw)), env).replies;
            |replies| == 1 && GoodCredentials(latest) &&
            LoginEffect(session, r.id, Wire(replies[0], w)) ==
            if pw == latest.pw then (Session(r.id, ROLE_GENERAL, latest.codes.edu, latest.codes.school), true)
            else (session, false)
  {
    var latest, db := RegisteredSince(db0, r, env0, events);
    LoginServed(db, r.id, latest, pw, env);
    LoginUnderstood(session, r.id, latest.codes, w);
  }

  /** The printed requests a run may hold: an UPDATE of the id with a known school sets the password, cut to its
      field, and the school's codes; a DELETE of the id is the only one that deletes it. */
  lemma PrintedEvents(r: Request, env: Env, id: Bytes, c: Credentials)
    requires Printable(r) && env.faults == {}
    ensures var e := Event(Print(r), env);
            && (Deletes(e, id) <==> r == DeleteRequest(id))
            && LatestAfter(c, e, id) ==
               if r.UpdateRequest? && Clip(r.id, 20) == id && r.school in env.schools
               then Credentials(Clip(r.pw, 20), env.schools[r.school]) else c
  {
    FieldsOfPrint(r);
  }

  /** The password printed in an UPDATE logs in exactly when it is short enough to be stored whole. */
  lemma UpdatedPassword(db: Db, r: Request, c: Credentials, env: Env)
    requires r.UpdateRequest? && Printable(r) && ValidId(r.id) && Stored(db, r.id, c) && |r.pw| < 4000
    requires r.school in env.schools && GoodEnv(env) && env.faults == {}
    ensures var codes := env.schools[r.school];
            var o := Serve(db, Print(r), env);
            o.replies == Ok(UpdateOk, []) &&
            Serve(o.db, Print(LoginRequest(r.id, r.pw)), env).replies ==
            if |r.pw| < 20 then Ok(LoginOk, LoginData(codes.edu, codes.school, ROLE_GENERAL)) else Error(InvalidLogin)
  {
    PrintedUpdate(db, r, env);
    var codes := env.schools[r.school];
    assert r.pw == Arguments(r)[1];
    LoginServed(Serve(db, Print(r), env).db, r.id, Credentials(Clip(r.pw, 20), codes), r.pw, env);
  }

  /** One such password, of 20 bytes: its user is refused. */
  lemma TwentyBytePassword(db: Db, c: Credentials, id: Bytes, env: Env)
    requires Stored(db, id, c) && GoodCredentials(c) && ValidId(id)
    requires env.faults == {} && GoodEnv(env) && "s" in env.schools
    ensures var typed := "00000000000000000000";
            var update := Serve(db, Print(UpdateRequest(id, typed, "e", "s")), env);
            update.replies == Ok(UpdateOk, []) &&
            Serve(update.db, Print(LoginRequest(id, typed)), env).replies == Error(InvalidLogin)
  {
    var typed := "00000000000000000000";
    LongUpdate(id, typed);
    UpdatedPassword(db, UpdateRequest(id, typed, "e", "s"), c, env);
  }

  lemma LongUpdate(id: Bytes, typed: Bytes)
    requires ValidId(id) && typed == "00000000000000000000"
    ensures Printable(UpdateRequest(id, typed, "e", "s")) && |typed| == MAX_PW_LEN
  {
    var r := UpdateRequest(id, typed, "e", "s");
    ShortAlnum(id);
    assert GoodField(typed) && GoodField("e") && GoodField("s");
    assert Arguments(r) == [id, typed, "e", "s"];
    ShortFields(Command.Update, id, typed, "e", "s");
  }

  /** Every run of requests on sound tables keeps them sound. */
  lemma {:induction false} RequestRunsKeepSound(db: Db, events: seq<Event>)
    requires Sound(db)
    ensures Sound(ServeAll(db, events))
    decreases |events|
  {
    if events != [] {
      ServeKeepsSound(db, events[0].msg, events[0].env);
      RequestRunsKeepSound(Serve(db, events[0].msg, events[0].env).db, events[1..]);
    }
  }
}
