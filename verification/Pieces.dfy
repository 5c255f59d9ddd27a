/** A login whose bytes the server does not read at once: each recv() of the handler is served as a request
    of its own. */
module Pieces {
  import opened Accounts
  import opened CStrings
  import opened Delivery
  import opened LineInput
  import opened Options
  import opened Protocol
  import opened Requests
  import opened Service
  import opened Sessions
  import opened TokenPrefixes

  /** One recv() of the handler: up to `n` bytes, at least one, and the world while they are served. */
  datatype Read = Read(n: nat, env: Env)

  function Cut(msg: Bytes, r: Read): nat {
    Min(if r.n == 0 then 1 else r.n, Min(|msg|, BUFFER_SIZE - 1))
  }

  /** What the handler takes for requests: the message in the pieces its recv() calls cut it into. */
  function Taken(msg: Bytes, recvs: seq<Read>): seq<Event>
    decreases |recvs|
  {
    if msg == [] || recvs == [] then [] else
      var n := Cut(msg, recvs[0]);
      [Event(msg[..n], recvs[0].env)] + Taken(msg[n..], recvs[1..])
  }

  /** The bytes of several replies. */
  function WireAll(replies: seq<Reply>, w: Wording): Bytes {
    if replies == [] then [] else Wire(replies[0], w) + WireAll(replies[1..], w)
  }

  lemma WireAllStarts(replies: seq<Reply>, w: Wording)
    ensures NextReply(WireAll(replies, w))
  {
    if replies != [] { assert Wire(replies[0], w)[0] == StatusDigit(replies[0].status); }
  }

  lemma LoginMessage(id: Bytes, pw: Bytes)
    requires ValidId(id) && GoodField(pw) && |pw| < 4000
    ensures Print(LoginRequest(id, pw)) == "LOGIN//" + id + "//" + pw
  {
    LoginPrintable(id, pw);
    assert Arguments(LoginRequest(id, pw)) == [id, pw] && Name(Login) == "LOGIN";
    JoinThree(Name(Login), id, pw, DELIMITER);
    assert "LOGIN" + DELIMITER == "LOGIN//";
  }

  /** How many bytes of a login bring the id and just this much of the password. */
  function LoginCut(id: Bytes, pw: Bytes): nat {
    |id| + 9 + |pw|
  }

  /** The first piece of a login, wherever it is cut: granted exactly when it ends in the password, and with a
      part of it that is the stored one. Any other piece is refused, and none changes the tables. */
  lemma PieceServed(db: Db, id: Bytes, c: Credentials, pw: Bytes, n: nat, env: Env)
    requires Stored(db, id, c) && GoodCredentials(c) && ValidId(id) && GoodField(pw) && |pw| < 4000
    requires env.faults == {} && 0 < n <= |Print(LoginRequest(id, pw))|
    ensures var o := Serve(db, Print(LoginRequest(id, pw))[..n], env);
            o.db == db && |o.replies| == 1 &&
            if c.pw <= pw && n == LoginCut(id, c.pw)
            then o.replies == Ok(LoginOk, LoginData(c.codes.edu, c.codes.school, ROLE_GENERAL))
            else o.replies == Error(o.replies[0].message)
  {
    var msg := Print(LoginRequest(id, pw));
    LoginMessage(id, pw);
    if n < 5 {
      ShortOfCommand(db, msg[..n], env);
    } else if n <= LoginCut(id, []) {
      ShortOfPassword(db, id, pw, n, env);
    } else {
      var part := pw[..n - LoginCut(id, [])];
      LoginMessage(id, part);
      assert msg[..n] == Print(LoginRequest(id, part));
      LoginServed(db, id, c, part, env);
      LoginChangesNothing(db, msg[..n], id, part, env);
      assert c.pw <= pw && n == LoginCut(id, c.pw) <==> part == c.pw;
    }
  }

  /** A login of an id without a row is refused wherever it is cut. */
  lemma StrangerServed(db: Db, id: Bytes, pw: Bytes, n: nat, env: Env)
    requires id !in db.users && ValidId(id) && GoodField(pw) && |pw| < 4000
    requires env.faults == {} && 0 < n <= |Print(LoginRequest(id, pw))|
    ensures var o := Serve(db, Print(LoginRequest(id, pw))[..n], env);
            o.db == db && |o.replies| == 1 && o.replies == Error(o.replies[0].message)
  {
    var msg := Print(LoginRequest(id, pw));
    LoginMessage(id, pw);
    if n < 5 {
      ShortOfCommand(db, msg[..n], env);
    } else if n <= LoginCut(id, []) {
      ShortOfPassword(db, id, pw, n, env);
    } else {
      var part := pw[..n - LoginCut(id, [])];
      LoginMessage(id, part);
      assert msg[..n] == Print(LoginRequest(id, part));
      LoginPrintable(id, part);
      PrintedLogin(db, id, part, env);
    }
  }

  lemma LoginChangesNothing(db: Db, msg: Bytes, id: Bytes, pw: Bytes, env: Env)
    requires ValidId(id) && GoodField(pw) && |pw| < 4000 && msg == Print(LoginRequest(id, pw))
    ensures Serve(db, msg, env).db == db
  {
    LoginPrintable(id, pw);
    DecodeOfPrint(LoginRequest(id, pw));
    assert Serve(db, msg, env) == CarryOut(db, OnLogin(db, ParsedOf(Login, Arguments(LoginRequest(id, pw))), env));
  }

  lemma ShortOfCommand(db: Db, piece: Bytes, env: Env)
    requires piece != [] && |piece| < 5 && Free(piece, SLASH)
    ensures Serve(db, piece, env) == Outcome(db, Error(UnknownCommand))
  {
    TokensOfOne(piece, SLASH);
    assert CommandOf(piece) == Unknown;
    assert Decode(piece) == Some(ParsedOf(Unknown, []));
  }

  lemma ShortOfPassword(db: Db, id: Bytes, pw: Bytes, n: nat, env: Env)
    requires ValidId(id) && GoodField(pw) && |pw| < 4000 && 5 <= n <= LoginCut(id, [])
    requires n <= |Print(LoginRequest(id, pw))|
    ensures Serve(db, Print(LoginRequest(id, pw))[..n], env) == Outcome(db, Error(InvalidRequest))
  {
    var piece := Print(LoginRequest(id, pw))[..n];
    var next := Print(LoginRequest(id, pw[..1]));
    LoginMessage(id, pw);
    LoginMessage(id, pw[..1]);
    LoginPrintable(id, pw[..1]);
    PrintTokens(LoginRequest(id, pw[..1]));
    assert Tokens(next, SLASH) == ["LOGIN"] + [id, pw[..1]];
    assert piece <= next && piece != next;
    FewerTokens(piece, next, SLASH);
    FirstTokenIs(piece, "LOGIN");
    NoPassword(db, piece, env);
  }

  lemma NoPassword(db: Db, piece: Bytes, env: Env)
    requires var ts := Tokens(piece, SLASH); 1 <= |ts| <= 2 && ts[0] == "LOGIN"
    ensures Serve(db, piece, env) == Outcome(db, Error(InvalidRequest))
  {
    var p := ParsedOf(Login, Tokens(piece, SLASH)[1..]);
    CommandOfName(Login);
    assert Decode(piece) == Some(p) && p.pw == None;
    assert Serve(db, piece, env) == CarryOut(db, OnLogin(db, p, env));
  }

  /** All that comes back: the reply to the first piece, then those to the rest of the message. */
  lemma RepliesToPieces(db: Db, msg: Bytes, recvs: seq<Read>, w: Wording) returns (later: Bytes)
    requires msg != [] && recvs != []
    requires Serve(db, msg[..Cut(msg, recvs[0])], recvs[0].env).db == db
    requires |Serve(db, msg[..Cut(msg, recvs[0])], recvs[0].env).replies| == 1
    ensures NextReply(later)
    ensures WireAll(RepliesTo(db, Taken(msg, recvs)), w) ==
            Wire(Serve(db, msg[..Cut(msg, recvs[0])], recvs[0].env).replies[0], w) + later
  {
    var n := Cut(msg, recvs[0]);
    var o := Serve(db, msg[..n], recvs[0].env);
    var rest := RepliesTo(db, Taken(msg[n..], recvs[1..]));
    var events := Taken(msg, recvs);
    assert events[1..] == Taken(msg[n..], recvs[1..]);
    assert RepliesTo(db, events) == o.replies + rest;
    assert (o.replies + rest)[0] == o.replies[0] && (o.replies + rest)[1..] == rest;
    later := WireAll(rest, w);
    WireAllStarts(rest, w);
  }

  // ----- Inputs -----

  /** A wrong password granted: "1234" is stored, "12345" is sent, and the server's first recv() ends before
      the 5. */
  lemma WrongPasswordGranted(db: Db, c: Codes, env: Env)
    requires Stored(db, "user1", Credentials("1234", c)) && GoodCodes(c) && env.faults == {}
    ensures Print(LoginRequest("user1", "12345")) == "LOGIN//user1//1234" + "5"
    ensures Serve(db, "LOGIN//user1//1234", env).replies == Ok(LoginOk, LoginData(c.edu, c.school, ROLE_GENERAL))
  {
    ShortLiterals();
    LoginMessage("user1", "12345");
    LoginMessage("user1", "1234");
    assert "LOGIN//" + "user1" + "//" + "1234" == "LOGIN//user1//1234";
    LoginServed(db, "user1", Credentials("1234", c), "1234", env);
  }

  lemma ShortLiterals()
    ensures ValidId("user1") && GoodField("12345") && GoodField("1234")
  {
  }

  /** The right password refused: the recv() is one byte short. */
  lemma RightPasswordRefused(db: Db, id: Bytes, c: Credentials, n: nat, env: Env)
    requires Stored(db, id, c) && GoodCredentials(c) && ValidId(id) && env.faults == {}
    requires n + 1 == |Print(LoginRequest(id, c.pw))|
    ensures var replies := Serve(db, Print(LoginRequest(id, c.pw))[..n], env).replies;
            |replies| == 1 && replies == Error(replies[0].message)
  {
    LoginMessage(id, c.pw);
    PieceServed(db, id, c, c.pw, n, env);
  }
}
