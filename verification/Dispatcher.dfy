/** The handler's loop as the server runs it: recv into one buffer, strtok over it in place, the decision of
    Service.Decide, at most one statement on the database's rows, the replies. Proved against Service.Serve. */
module Dispatcher {
  import opened CStrings
  import opened Options
  import opened Protocol
  import opened Accounts
  import opened Schema
  import opened Service
  import opened Sessions

  /** The request recv() brought, as the handler reads it: up to its first NUL. */
  function Heard(e: Event): Event {
    Event(CStr(e.msg), e.env)
  }

  function AllHeard(events: seq<Event>): seq<Event>
    decreases events
  {
    if events == [] then [] else [Heard(events[0])] + AllHeard(events[1..])
  }

  /** Tables and replies once these requests, too, have been served. */
  function Running(sent: seq<Reply>, db: Db, events: seq<Event>): (Db, seq<Reply>) {
    (ServeAll(db, AllHeard(events)), sent + RepliesTo(db, AllHeard(events)))
  }

  class Server {
    const store: Database
    var sent: seq<Reply>   // the replies handed to send(), oldest first

    constructor (store: Database)
      ensures this.store == store && sent == []
    {
      this.store, sent := store, [];
    }

    method SendResponse(status: int, message: Message, data: Bytes)
      modifies this`sent
      ensures sent == old(sent) + [Reply(status, message, data)]
    {
      sent := sent + [Reply(status, message, data)];
    }

    /** The handler's loop over what successive recv() calls bring, until the client hangs up. One buffer
        serves every request; nothing an earlier one left behind is ever read. */
    method HandleClient(events: seq<Event>)
      requires store.Valid() && forall k :: 0 <= k < |events| ==>
                 0 < |events[k].msg| < BUFFER_SIZE && GoodEnv(events[k].env) && PlainInsert(CStr(events[k].msg))
      modifies this, store
      ensures store.Valid() && store.Tables() == ServeAll(old(store.Tables()), AllHeard(events))
      ensures sent == old(sent) + RepliesTo(old(store.Tables()), AllHeard(events))
    {
      var buffer := new char[BUFFER_SIZE];
      ghost var whole := Running(sent, store.Tables(), events);
      var i := 0;
      while i < |events|
        invariant 0 <= i <= |events| && store.Valid()
        invariant Running(sent, store.Tables(), events[i..]) == whole
      {
        ghost var left := events[i..];
        assert left[1..] == events[i + 1..];
        OneTurn(sent, store.Tables(), left);
        HandleTurn(buffer, events[i]);
        i := i + 1;
      }
      AllTurns(sent, store.Tables());
    }

    lemma OneTurn(sent: seq<Reply>, db: Db, events: seq<Event>)
      requires events != []
      ensures var o := Serve(db, CStr(events[0].msg), events[0].env);
              Running(sent, db, events) == Running(sent + o.replies, o.db, events[1..])
    {
      var o := Serve(db, CStr(events[0].msg), events[0].env);
      var heard := AllHeard(events);
      assert heard[0] == Heard(events[0]) && heard[1..] == AllHeard(events[1..]);
      assert sent + (o.replies + RepliesTo(o.db, heard[1..])) == sent + o.replies + RepliesTo(o.db, heard[1..]);
    }

    lemma AllTurns(sent: seq<Reply>, db: Db)
      ensures Running(sent, db, []) == (db, sent)
    {
      var none: seq<Event> := [];
      assert AllHeard(none) == [] && RepliesTo(db, none) == [] && sent + [] == sent;
    }

    method HandleTurn(buffer: array<char>, e: Event)
      requires buffer.Length == BUFFER_SIZE && 0 < |e.msg| < BUFFER_SIZE && store.Valid()
      requires GoodEnv(e.env) && PlainInsert(CStr(e.msg))
      modifies this, store, buffer
      ensures store.Valid() && store.Tables() == Serve(old(store.Tables()), CStr(e.msg), e.env).db
      ensures sent == old(sent) + Serve(old(store.Tables()), CStr(e.msg), e.env).replies
    {
      forall k | 0 <= k < |e.msg| { buffer[k] := e.msg[k]; }
      assert buffer[..|e.msg|] == e.msg;
      HandleRequest(buffer, |e.msg|, e.env);
    }

    /** From recv() to the parsed variables: the buffer ends up full of NULs, the values are Decode's. */
    method ParseRequest(buffer: array<char>, ghost msg: Bytes) returns (p: Option<Parsed>)
      requires |msg| < buffer.Length && buffer[..|msg|] == msg && Free(msg, {NUL}) && buffer[|msg|] == NUL
      modifies buffer
      ensures p == Decode(msg)
    {
      var tok := new Strtok(buffer, |msg|);
      assert tok.Rest() == msg;
      ghost var all := Tokens(msg, SLASH);
      var word := FirstToken(tok, SLASH, all);
      if word == None { return None; }
      var parsed := ParseArguments(tok, CommandOf(word.value), all[1..]);
      p := Some(parsed);
      DecodeSome(msg);
    }

    lemma DecodeSome(msg: Bytes)
      requires Tokens(msg, SLASH) != []
      ensures Decode(msg) == Some(ParsedOf(CommandOf(Tokens(msg, SLASH)[0]), Tokens(msg, SLASH)[1..]))
    {
    }

    method ParseArguments(tok: Strtok, cmd: Command, ghost args: seq<Bytes>) returns (p: Parsed)
      requires tok.Valid() && Tokens(tok.Rest(), SLASH) == args
      modifies tok`next, tok.buf
      ensures p == ParsedOf(cmd, args)
    {
      var count := if cmd.GetMeal? || cmd.GetMultiMeal? then 3 else 7;
      var starts := TakeTokens(tok, count, SLASH);
      var a0 := Argument(tok, starts, 0, args);
      var a1 := Argument(tok, starts, 1, args);
      var a2 := Argument(tok, starts, 2, args);
      if cmd.GetMeal? { return Parsed(cmd, None, None, a0, a1, a2, None, None); }
      if cmd.GetMultiMeal? { return Parsed(cmd, None, None, a0, a1, None, None, a2); }
      p := RemainingArguments(tok, starts, cmd, args, a0, a1, a2);
    }

    method RemainingArguments(tok: Strtok, starts: seq<nat>, cmd: Command, ghost args: seq<Bytes>, a0: Option<Bytes>,
                              a1: Option<Bytes>, a2: Option<Bytes>) returns (p: Parsed)
      requires |starts| == (if |args| < 7 then |args| else 7) && !cmd.GetMeal? && !cmd.GetMultiMeal?
      requires forall j :: 0 <= j < |starts| ==> PointsAt(tok, starts[j], args[j])
      requires a0 == Token(args, 0) && a1 == Token(args, 1) && a2 == Token(args, 2)
      ensures p == ParsedOf(cmd, args)
    {
      var a3 := Argument(tok, starts, 3, args);
      var a4 := Argument(tok, starts, 4, args);
      var a5 := Argument(tok, starts, 5, args);
      var a6 := Argument(tok, starts, 6, args);
      p := Parsed(cmd, a0, a1, a2, a3, a4, a5, a6);
    }

    /** The k-th pointer, NULL when strtok returned NULL. */
    method Argument(tok: Strtok, starts: seq<nat>, k: nat, ghost args: seq<Bytes>) returns (a: Option<Bytes>)
      requires |starts| <= |args| && (|starts| == |args| || k < |starts|)
      requires forall j :: 0 <= j < |starts| ==> PointsAt(tok, starts[j], args[j])
      ensures a == Token(args, k)
    {
      if k < |starts| {
        var s := StringAt(tok.buf, starts[k], args[k]);
        a := Some(s);
      } else {
        a := None;
      }
    }

    /** One turn of the handler's loop, after recv() returned `received` > 0 bytes: parse in place, decide,
        execute the one statement there may be, answer. */
    method HandleRequest(buffer: array<char>, received: nat, env: Env)
      requires buffer.Length == BUFFER_SIZE && 0 < received < BUFFER_SIZE && store.Valid()
      requires GoodEnv(env) && PlainInsert(CStr(buffer[..received]))
      modifies this, store, buffer
      ensures store.Valid()
      ensures store.Tables() == Serve(old(store.Tables()), old(CStr(buffer[..received])), env).db
      ensures sent == old(sent) + Serve(old(store.Tables()), old(CStr(buffer[..received])), env).replies
    {
      ghost var msg := CStr(buffer[..received]);
      ghost var before := buffer[..received];
      buffer[received] := NUL;
      assert buffer[..|msg|] == msg && buffer[|msg|] == NUL by {
        assert buffer[..received] == before;
        if |msg| < received { assert buffer[|msg|] == before[|msg|]; }
      }
      var p := ParseRequest(buffer, msg);
      if p == None {
        SendResponse(0, InvalidRequest, "");
      } else {
        HandleCommand(p.value, env);
      }
    }

    method HandleCommand(p: Parsed, env: Env)
      requires store.Valid()
      modifies this`sent, store
      ensures store.Valid() && store.Tables() == ServeParsed(old(store.Tables()), p, env).db
      ensures sent == old(sent) + ServeParsed(old(store.Tables()), p, env).replies
    {
      var d := Decide(store.Tables(), p, env);
      match d
      case Answer(replies) => sent := sent + replies;
      case Statement(op, done, refused) =>
        var ok := Perform(op);
        sent := sent + if ok then done else refused;
    }

    /** The statement, through its function of db_handler.c. */
    method Perform(op: Op) returns (ok: bool)
      requires store.Valid()
      modifies store
      ensures store.Valid() && (store.Tables(), ok) == Apply(old(store.Tables()), op)
    {
      match op
      case Insert(id, row) => ok := store.AddUser(id, row, false);
      case Update(id, pw, edu, school) => ok := store.Execute(op);
      case Delete(id) =>
        MeaningIsSound(Rows(store.users, store.children), store.meals);
        DeleteResult(store.Tables(), id);
        ok := store.DeleteUser(id, false);
      case Link(child, parent) => ok := store.DbAddChild(child, parent, false, false);
      case Unlink(child, parent) => ok := store.Execute(op);
    }
  }
}
