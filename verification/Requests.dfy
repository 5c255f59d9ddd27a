/** What the server does with each request, in terms of the words on the wire and of the tables. */
module Requests {
  import opened Accounts
  import opened Calendar
  import opened CStrings
  import opened Gates
  import opened Options
  import opened Protocol
  import opened Service

  /** The message splits into this command's word and these arguments. */
  predicate IsRequest(msg: Bytes, c: Command, args: seq<Bytes>) {
    Tokens(msg, SLASH) == [Name(c)] + args
  }

  lemma PrintedIsRequest(r: Request)
    requires Printable(r)
    ensures IsRequest(Print(r), CommandFor(r), Arguments(r))
  {
    PrintTokens(r);
  }

  lemma Received(db: Db, msg: Bytes, c: Command, args: seq<Bytes>, env: Env)
    requires IsRequest(msg, c, args)
    ensures Serve(db, msg, env) == CarryOut(db, Decide(db, ParsedOf(c, args), env))
  {
    CommandOfName(c);
    DecodeTokens(msg, Name(c), args);
  }

  // ----- Malformed requests -----

  /** How many arguments the command must have. */
  function Needed(c: Command): nat {
    match c
    case Login => 2
    case RegisterGeneral => 4
    case Update => 4
    case Delete => 1
    case GetChildren => 1
    case AddChild => 6
    case DelChild => 6
    case ChildMeal => 6
    case ChildMultiMeal => 7
    case GetMeal => 3
    case GetMultiMeal => 3
    case Unknown => 0
  }

  /** A request is answered "invalid request" exactly when arguments are missing, and then changes nothing. */
  lemma MissingArguments(db: Db, msg: Bytes, c: Command, args: seq<Bytes>, env: Env)
    requires IsRequest(msg, c, args) && !c.Unknown?
    ensures Serve(db, msg, env).replies == Error(InvalidRequest) <==> |args| < Needed(c)
    ensures |args| < Needed(c) ==> Serve(db, msg, env).db == db
  {
    Received(db, msg, c, args, env);
    match c
    case Login => TooFewForUser(db, c, args, env);
    case RegisterGeneral => TooFewForUser(db, c, args, env);
    case Update => TooFewForUser(db, c, args, env);
    case Delete => TooFewForUser(db, c, args, env);
    case GetMeal => TooFewForMeal(db, c, args, env);
    case GetMultiMeal => TooFewForMeal(db, c, args, env);
    case _ => TooFewForChild(db, c, args, env);
  }

  predicate Invalid(d: Decision) {
    d == Answer(Error(InvalidRequest))
  }

  lemma TooFewForUser(db: Db, c: Command, args: seq<Bytes>, env: Env)
    requires c.Login? || c.RegisterGeneral? || c.Update? || c.Delete?
    ensures var d := Decide(db, ParsedOf(c, args), env);
            if |args| < Needed(c) then Invalid(d) else CarryOut(db, d).replies != Error(InvalidRequest)
  {
  }

  lemma TooFewForMeal(db: Db, c: Command, args: seq<Bytes>, env: Env)
    requires c.GetMeal? || c.GetMultiMeal?
    ensures var d := Decide(db, ParsedOf(c, args), env);
            if |args| < Needed(c) then Invalid(d) else CarryOut(db, d).replies != Error(InvalidRequest)
  {
  }

  lemma TooFewForChild(db: Db, c: Command, args: seq<Bytes>, env: Env)
    requires c.GetChildren? || c.AddChild? || c.DelChild? || c.ChildMeal? || c.ChildMultiMeal?
    ensures var d := Decide(db, ParsedOf(c, args), env);
            if |args| < Needed(c) then Invalid(d) else CarryOut(db, d).replies != Error(InvalidRequest)
  {
  }

  /** A message of slashes alone. */
  lemma NoWord(db: Db, msg: Bytes, env: Env)
    requires Tokens(msg, SLASH) == []
    ensures Serve(db, msg, env) == Outcome(db, Error(InvalidRequest))
  {
  }

  /** A word that names no command. */
  lemma UnknownWord(db: Db, msg: Bytes, word: Bytes, args: seq<Bytes>, env: Env)
    requires Tokens(msg, SLASH) == [word] + args && forall c: Command :: !c.Unknown? ==> word != Name(c)
    ensures Serve(db, msg, env) == Outcome(db, Error(UnknownCommand))
  {
    CommandIsNamed(word);
    DecodeTokens(msg, word, args);
  }

  lemma CommandIsNamed(word: Bytes)
    ensures CommandOf(word).Unknown? || word == Name(CommandOf(word))
  {
  }

  // ----- Users -----

  /** LOGIN id pw: granted, with the row's codes and role, exactly when the id is stored with this password. */
  lemma LoginAnswered(db: Db, msg: Bytes, args: seq<Bytes>, env: Env)
    requires IsRequest(msg, Login, args) && |args| >= 2 && env.faults == {}
    ensures var id, pw := args[0], args[1];
            Serve(db, msg, env) ==
            Outcome(db, if id in db.users && db.users[id].pw == pw then Ok(LoginOk, UserData(db.users[id]))
                        else Error(InvalidLogin))
  {
    Received(db, msg, Login, args, env);
  }

  /** REGISTER_GENERAL id pw office school. */
  lemma RegisterAnswered(db: Db, msg: Bytes, args: seq<Bytes>, env: Env)
    requires IsRequest(msg, RegisterGeneral, args) && |args| >= 4 && env.faults == {}
    ensures var id, pw, school := args[0], args[1], args[3];
            var key := Clip(id, 20);
            Serve(db, msg, env) ==
            if id in db.users then Outcome(db, Error(IdDuplicate))
            else if school !in env.schools then Outcome(db, Error(SchoolNotFound))
            else if key in db.users then Outcome(db, [])
            else
              var codes := env.schools[school];
              var row := Row(Clip(pw, 20), "GENERAL", Clip(codes.edu, 50), Clip(codes.school, 50));
              Outcome(db.(users := db.users[key := row]), Ok(RegisterOk, []))
  {
    Received(db, msg, RegisterGeneral, args, env);
  }

  /** UPDATE id pw office school: exactly the row of the id gets the password and the looked-up codes, and keeps
      its role. An id without a row is told of success all the same. */
  lemma UpdateAnswered(db: Db, msg: Bytes, args: seq<Bytes>, env: Env)
    requires IsRequest(msg, Command.Update, args) && |args| >= 4 && env.faults == {}
    ensures var pw, school, key := args[1], args[3], Clip(args[0], 20);
            Serve(db, msg, env) ==
            if school !in env.schools then Outcome(db, Error(SchoolNotFound))
            else if key !in db.users then Outcome(db, Ok(UpdateOk, []))
            else
              var codes := env.schools[school];
              var row := Row(Clip(pw, 20), db.users[key].role, Clip(codes.edu, 50), Clip(codes.school, 50));
              Outcome(db.(users := db.users[key := row]), Ok(UpdateOk, []))
  {
    Received(db, msg, Command.Update, args, env);
  }

  /** DELETE id: an id that no link names loses its row, if it has one; a linked one is refused. */
  lemma DeleteAnswered(db: Db, msg: Bytes, args: seq<Bytes>, env: Env)
    requires IsRequest(msg, Command.Delete, args) && |args| >= 1 && env.faults == {} && Sound(db)
    ensures Serve(db, msg, env) ==
            if exists l :: l in db.children && (l.0 == args[0] || l.1 == args[0]) then Outcome(db, Error(DbError))
            else Outcome(db.(users := db.users - {args[0]}), Ok(DeleteOk, []))
  {
    Received(db, msg, Command.Delete, args, env);
    DeleteResult(db, args[0]);
  }

  // ----- Database faults -----

  /** A statement that meets a fault changes nothing and is never reported as done. */
  lemma FailedStatement(db: Db, msg: Bytes, c: Command, args: seq<Bytes>, env: Env)
    requires IsRequest(msg, c, args)
    requires c.RegisterGeneral? || c.Update? || c.Delete? || c.AddChild? || c.DelChild?
    requires {InsertFault, UpdateFault, DeleteFault, LinkFault, UnlinkFault} <= env.faults
    ensures Serve(db, msg, env).db == db
    ensures forall k :: 0 <= k < |Serve(db, msg, env).replies| ==> Serve(db, msg, env).replies[k].status == 0
  {
    Received(db, msg, c, args, env);
  }

  /** A login whose password check fails to run is refused; one whose row then cannot be read is told so. */
  lemma FailedLogin(db: Db, msg: Bytes, args: seq<Bytes>, env: Env)
    requires IsRequest(msg, Login, args) && |args| >= 2
    ensures VerifyFault in env.faults ==> Serve(db, msg, env) == Outcome(db, Error(InvalidLogin))
    ensures env.faults == {GetFault} ==>
              Serve(db, msg, env) ==
              Outcome(db, Error(if args[0] in db.users && db.users[args[0]].pw == args[1] then DbError
                                else InvalidLogin))
  {
    Received(db, msg, Login, args, env);
  }

  // ----- Children -----

  lemma GetChildrenAnswered(db: Db, msg: Bytes, args: seq<Bytes>, env: Env)
    requires IsRequest(msg, GetChildren, args) && |args| >= 1
    ensures Serve(db, msg, env) == Outcome(db, Error(DbError))
  {
    Received(db, msg, GetChildren, args, env);
  }

  /** ADD_CHILD takes the parent from its first argument and the child from its sixth. */
  lemma AddChildAnswered(db: Db, msg: Bytes, args: seq<Bytes>, env: Env)
    requires IsRequest(msg, AddChild, args) && |args| >= 6 && env.faults == {}
    ensures var parent, child := args[0], args[5];
            Serve(db, msg, env) ==
            if child !in db.users then Outcome(db, Error(ChildUserNotFound))
            else if parent !in db.users || (child, parent) in db.children then Outcome(db, Error(DbError))
            else Outcome(db.(children := db.children + {(child, parent)}), Ok(AddChildOk, []))
  {
    Received(db, msg, AddChild, args, env);
  }

  lemma DelChildAnswered(db: Db, msg: Bytes, args: seq<Bytes>, env: Env)
    requires IsRequest(msg, DelChild, args) && |args| >= 6 && env.faults == {}
    ensures var parent, child := args[0], args[5];
            Serve(db, msg, env) ==
            if (child, parent) in db.children
            then Outcome(db.(children := db.children - {(child, parent)}), Ok(DelChildOk, []))
            else Outcome(db, Error(InvalidChildId))
  {
    Received(db, msg, DelChild, args, env);
  }

  /** CHILD_MEAL takes the date from its fifth argument, and the meal from the cache table at the child's codes. */
  lemma ChildMealAnswered(db: Db, msg: Bytes, args: seq<Bytes>, env: Env)
    requires IsRequest(msg, ChildMeal, args) && |args| >= 6 && env.faults == {} && Sound(db)
    ensures var parent, date, child := args[0], args[4], args[5];
            Serve(db, msg, env) ==
            if (child, parent) !in db.children then Outcome(db, Error(InvalidChildId))
            else
              var key := (date, Clip(db.users[child].edu, 50), Clip(db.users[child].school, 50));
              Outcome(db, if key in db.meals then Ok(ChildMealOk, Clip(db.meals[key], 2000))
                          else Error(ChildMealNotFound))
  {
    Received(db, msg, ChildMeal, args, env);
  }

  lemma ChildMultiMealAnswered(db: Db, msg: Bytes, args: seq<Bytes>, env: Env)
    requires IsRequest(msg, ChildMultiMeal, args) && |args| >= 7 && env.faults == {}
    ensures Serve(db, msg, env) ==
            Outcome(db, if (args[5], args[0]) !in db.children then Error(InvalidChildId)
                        else if SplitPeriod(args[6]).None? then Error(InvalidDateFormat)
                        else Ok(ChildMultiMealOk, []))
  {
    Received(db, msg, ChildMultiMeal, args, env);
  }

  // ----- Meals -----

  /** GET_MEAL office school date: a school that starts with a digit is taken as a code, cut to its field like
      the office; any other is looked up. */
  lemma MealAnswered(db: Db, msg: Bytes, args: seq<Bytes>, env: Env)
    requires IsRequest(msg, GetMeal, args) && |args| >= 3
    ensures var office, school, date := args[0], args[1], args[2];
            var coded := school != [] && '0' <= school[0] <= '9';
            Serve(db, msg, env) ==
            if !coded && school !in env.schools then Outcome(db, Error(SchoolNotFound))
            else
              var q := if coded then Daily(Clip(office, 10), Clip(school, 20), date)
                       else Daily(env.schools[school].edu, env.schools[school].school, date);
              Outcome(db, if q in env.meals then Ok(MealOk, env.meals[q]) else Error(MealNotFound))
  {
    Received(db, msg, GetMeal, args, env);
  }

  /** GET_MULTI_MEAL office school period: first the period must split, then the school must be known, then, for
      two dates, the days must be seven at most, then there must be meals. */
  lemma MultiMealAnswered(db: Db, msg: Bytes, args: seq<Bytes>, env: Env)
    requires IsRequest(msg, GetMultiMeal, args) && |args| >= 3
    ensures var office, school, period := args[0], args[1], SplitPeriod(args[2]);
            var coded := school != [] && '0' <= school[0] <= '9';
            Serve(db, msg, env) ==
            if period == None then Outcome(db, Error(InvalidDateFormat))
            else if !coded && school !in env.schools then Outcome(db, Error(SchoolNotFound))
            else
              var (start, end) := period.value;
              var q := if coded then Query.Period(Clip(office, 10), Clip(school, 20), start, end)
                       else Query.Period(env.schools[school].edu, env.schools[school].school, start, end);
              var long := ValidDate(start) && ValidDate(end) && ServerRefuses(start, end, env.clock);
              Outcome(db, if !long && q in env.meals then Ok(MultiMealOk, env.meals[q]) else Error(MealNotFound))
  {
    Received(db, msg, GetMultiMeal, args, env);
  }

  // ----- As the client prints them -----

  /** Each field the client printed in the dispatcher's own variable, the others NULL. */
  lemma FieldsOfPrint(r: Request)
    requires Printable(r)
    ensures match r
            case LoginRequest(id, pw) =>
              Decode(Print(r)) == Some(Parsed(Login, Some(id), Some(pw), None, None, None, None, None))
            case RegisterRequest(id, pw, edu, school) =>
              Decode(Print(r)) ==
              Some(Parsed(RegisterGeneral, Some(id), Some(pw), Some(edu), Some(school), None, None, None))
            case UpdateRequest(id, pw, edu, school) =>
              Decode(Print(r)) ==
              Some(Parsed(Command.Update, Some(id), Some(pw), Some(edu), Some(school), None, None, None))
            case DeleteRequest(id) =>
              Decode(Print(r)) == Some(Parsed(Command.Delete, Some(id), None, None, None, None, None, None))
            case MealRequest(edu, school, date) =>
              Decode(Print(r)) == Some(Parsed(GetMeal, None, None, Some(edu), Some(school), Some(date), None, None))
            case PeriodRequest(edu, school, start, end) =>
              Decode(Print(r)) ==
              Some(Parsed(GetMultiMeal, None, None, Some(edu), Some(school), None, None, Some(start + "-" + end)))
            case ChildMealRequest(parent, child, date) =>
              Decode(Print(r)) == Some(Parsed(ChildMeal, Some(parent), Some(child), Some(date), None, None, None, None))
            case ChildPeriodRequest(parent, child, start, end) =>
              Decode(Print(r)) ==
              Some(Parsed(ChildMultiMeal, Some(parent), Some(child), Some(start), Some(end), None, None, None))
  {
    DecodeOfPrint(r);
  }

  lemma CommandWords()
    ensures Name(Login) == "LOGIN" && Name(RegisterGeneral) == "REGISTER_GENERAL" && Name(Command.Update) == "UPDATE"
    ensures Name(Command.Delete) == "DELETE" && Name(GetChildren) == "GET_CHILDREN" && Name(AddChild) == "ADD_CHILD"
    ensures Name(DelChild) == "DEL_CHILD" && Name(ChildMeal) == "CHILD_MEAL"
    ensures Name(ChildMultiMeal) == "CHILD_MULTI_MEAL" && Name(GetMeal) == "GET_MEAL"
    ensures Name(GetMultiMeal) == "GET_MULTI_MEAL"
  {
  }

  /** The command word first, then the fields in this order. */
  function Spelled(r: Request): Bytes {
    match r
    case LoginRequest(id, pw) => Name(Login) + "//" + id + "//" + pw
    case RegisterRequest(id, pw, edu, school) =>
      Name(RegisterGeneral) + "//" + id + "//" + pw + "//" + edu + "//" + school
    case UpdateRequest(id, pw, edu, school) =>
      Name(Command.Update) + "//" + id + "//" + pw + "//" + edu + "//" + school
    case DeleteRequest(id) => Name(Command.Delete) + "//" + id
    case MealRequest(edu, school, date) => Name(GetMeal) + "//" + edu + "//" + school + "//" + date
    case PeriodRequest(edu, school, start, end) =>
      Name(GetMultiMeal) + "//" + edu + "//" + school + "//" + (start + "-" + end)
    case ChildMealRequest(parent, child, date) => Name(ChildMeal) + "//" + parent + "//" + child + "//" + date
    case ChildPeriodRequest(parent, child, start, end) =>
      Name(ChildMultiMeal) + "//" + parent + "//" + child + "//" + start + "//" + end
  }

  /** The bytes of each message that fits the client's buffer. */
  lemma MessageOf(r: Request)
    requires |Payload(r)| < BUFFER_SIZE
    ensures Print(r) == Spelled(r)
  {
    PayloadOf(CommandFor(r), r);
  }

  lemma PayloadOf(c: Command, r: Request)
    requires c == CommandFor(r)
    ensures Payload(r) == Spelled(r)
  {
    var w := Name(c);
    match r
    case LoginRequest(id, pw) => JoinTwo(w, id, pw);
    case RegisterRequest(id, pw, edu, school) => JoinFour(w, id, pw, edu, school);
    case UpdateRequest(id, pw, edu, school) => JoinFour(w, id, pw, edu, school);
    case DeleteRequest(id) => JoinOne(w, id);
    case MealRequest(edu, school, date) => JoinMore(w, edu, school, date);
    case PeriodRequest(edu, school, start, end) => JoinMore(w, edu, school, start + "-" + end);
    case ChildMealRequest(parent, child, date) => JoinMore(w, parent, child, date);
    case ChildPeriodRequest(parent, child, start, end) => JoinFour(w, parent, child, start, end);
  }

  lemma JoinStep(a: Bytes, rest: seq<Bytes>)
    requires rest != []
    ensures Join([a] + rest, DELIMITER) == a + "//" + Join(rest, DELIMITER)
  {
    assert ([a] + rest)[1..] == rest;
  }

  lemma JoinOne(w: Bytes, a: Bytes)
    ensures Join([w] + [a], DELIMITER) == w + "//" + a
  {
    JoinStep(w, [a]);
  }

  lemma JoinTwo(w: Bytes, a: Bytes, b: Bytes)
    ensures Join([w] + [a, b], DELIMITER) == w + "//" + a + "//" + b
  {
    JoinStep(w, [a, b]);
    assert [a, b] == [a] + [b];
    JoinOne(a, b);
  }

  lemma JoinMore(w: Bytes, a: Bytes, b: Bytes, c: Bytes)
    ensures Join([w] + [a, b, c], DELIMITER) == w + "//" + a + "//" + b + "//" + c
  {
    JoinStep(w, [a, b, c]);
    assert [a, b, c] == [a] + [b, c];
    JoinTwo(a, b, c);
  }

  lemma JoinFour(w: Bytes, a: Bytes, b: Bytes, c: Bytes, d: Bytes)
    ensures Join([w] + [a, b, c, d], DELIMITER) == w + "//" + a + "//" + b + "//" + c + "//" + d
  {
    JoinStep(w, [a, b, c, d]);
    assert [a, b, c, d] == [a] + [b, c, d];
    JoinMore(a, b, c, d);
  }

  /** LOGIN as printed: on any tables, granted exactly when the id is stored and its password is the one sent. */
  lemma PrintedLogin(db: Db, id: Bytes, pw: Bytes, env: Env)
    requires Printable(LoginRequest(id, pw)) && env.faults == {}
    ensures Serve(db, Print(LoginRequest(id, pw)), env) ==
            Outcome(db, if id in db.users && db.users[id].pw == pw then Ok(LoginOk, UserData(db.users[id]))
                        else Error(InvalidLogin))
  {
    PrintedIsRequest(LoginRequest(id, pw));
    LoginAnswered(db, Print(LoginRequest(id, pw)), [id, pw], env);
  }

  /** UPDATE as printed, of a stored id. */
  lemma PrintedUpdate(db: Db, r: Request, env: Env)
    requires r.UpdateRequest? && Printable(r) && env.faults == {} && |r.id| < 20 && r.id in db.users
    ensures Serve(db, Print(r), env) ==
            if r.school !in env.schools then Outcome(db, Error(SchoolNotFound))
            else
              var codes := env.schools[r.school];
              var row := Row(Clip(r.pw, 20), db.users[r.id].role, Clip(codes.edu, 50), Clip(codes.school, 50));
              Outcome(db.(users := db.users[r.id := row]), Ok(UpdateOk, []))
  {
    PrintedIsRequest(r);
    UpdateAnswered(db, Print(r), Arguments(r), env);
  }

  /** DELETE as printed, and the LOGIN after it: an unlinked id is gone and cannot log in with any password; a
      linked one stays. */
  lemma PrintedDelete(db: Db, id: Bytes, pw: Bytes, env: Env)
    requires Printable(DeleteRequest(id)) && Printable(LoginRequest(id, pw)) && env.faults == {} && Sound(db)
    ensures var linked := exists l :: l in db.children && (l.0 == id || l.1 == id);
            var o := Serve(db, Print(DeleteRequest(id)), env);
            if linked then o == Outcome(db, Error(DbError))
            else
              && o == Outcome(db.(users := db.users - {id}), Ok(DeleteOk, []))
              && Serve(o.db, Print(LoginRequest(id, pw)), env) == Outcome(o.db, Error(InvalidLogin))
  {
    PrintedIsRequest(DeleteRequest(id));
    DeleteAnswered(db, Print(DeleteRequest(id)), [id], env);
    PrintedLogin(Serve(db, Print(DeleteRequest(id)), env).db, id, pw, env);
  }

  /** The bytes of each reply that fits the server's buffer. */
  lemma ReplyOf(status: int, text: Bytes, data: Bytes)
    requires (status == 0 || status == 1) && |text| + |data| < 4000
    ensures Format(status, text, data) ==
            (if status == 1 then "1//" else "0//") + text + (if data == [] then [] else "//" + data)
  {
    assert ['1'] + DELIMITER == "1//" && ['0'] + DELIMITER == "0//";
    if data == [] { assert "0//" + text + [] == "0//" + text && "1//" + text + [] == "1//" + text; }
  }

  // ----- The period argument -----

  /** The two halves a period is split into: at most ten bytes before the first '-', and after it, white space
      skipped, at most ten bytes up to white space. */
  predicate Halves(period: Bytes, a: Bytes, gap: Bytes, b: Bytes, tail: Bytes) {
    && period == a + "-" + gap + b + tail
    && 1 <= |a| <= 10 && '-' !in a && 1 <= |b| <= 10
    && (forall k :: 0 <= k < |gap| ==> gap[k] in BLANKS) && (forall k :: 0 <= k < |b| ==> b[k] !in BLANKS)
    && (|b| == 10 || tail == [] || tail[0] in BLANKS)
  }

  lemma {:induction false} SkipsGap(gap: Bytes, rest: Bytes)
    requires forall k :: 0 <= k < |gap| ==> gap[k] in BLANKS
    requires rest != [] ==> rest[0] !in BLANKS
    ensures SkipBlanks(gap + rest) == rest
  {
    if gap == [] {
      assert gap + rest == rest;
    } else {
      assert (gap + rest)[1..] == gap[1..] + rest;
      SkipsGap(gap[1..], rest);
    }
  }

  lemma {:induction false} GapOf(s: Bytes) returns (gap: Bytes)
    ensures s == gap + SkipBlanks(s) && forall k :: 0 <= k < |gap| ==> gap[k] in BLANKS
    ensures SkipBlanks(s) != [] ==> SkipBlanks(s)[0] !in BLANKS
  {
    if s != [] && s[0] in BLANKS {
      gap := GapOf(s[1..]);
      gap := [s[0]] + gap;
    } else {
      gap := [];
    }
  }

  lemma SplitsHalves(period: Bytes, a: Bytes, gap: Bytes, b: Bytes, tail: Bytes)
    requires Halves(period, a, gap, b, tail)
    ensures SplitPeriod(period) == Some((a, b))
  {
    SpanIs(period, |a|, {'-'});
    assert period[..|a|] == a && period[|a| + 1..] == gap + (b + tail);
    SkipsGap(gap, b + tail);
    var rest := b + tail;
    var m := Min(Span(rest, BLANKS), 10);
    assert |b| <= Span(rest, BLANKS);
    if |b| < 10 { SpanIs(rest, |b|, BLANKS); }
    assert m == |b| && rest[..m] == b;
  }

  lemma HalvesOf(period: Bytes, a: Bytes, b: Bytes) returns (gap: Bytes, tail: Bytes)
    requires SplitPeriod(period) == Some((a, b))
    ensures Halves(period, a, gap, b, tail)
  {
    var after, rest := SplitParts(period, a, b);
    gap, tail := HalvesFrom(period, a, b, after, rest);
  }

  lemma HalvesFrom(period: Bytes, a: Bytes, b: Bytes, after: Bytes, rest: Bytes) returns (gap: Bytes, tail: Bytes)
    requires 1 <= |a| <= 10 && '-' !in a && period == a + ['-'] + after && rest == SkipBlanks(after)
    requires 1 <= |b| == Min(Span(rest, BLANKS), 10) && b == rest[..|b|]
    ensures Halves(period, a, gap, b, tail)
  {
    gap := GapOf(after);
    tail := rest[|b|..];
    SecondHalf(rest, b, tail);
    assert rest == b + tail;
    ThreeParts(period, a, gap, b, tail, after);
  }

  lemma SplitParts(period: Bytes, a: Bytes, b: Bytes) returns (after: Bytes, rest: Bytes)
    requires SplitPeriod(period) == Some((a, b))
    ensures 1 <= |a| <= 10 && '-' !in a && period == a + ['-'] + after && rest == SkipBlanks(after)
    ensures 1 <= |b| == Min(Span(rest, BLANKS), 10) && b == rest[..|b|]
  {
    var n := Min(Span(period, {'-'}), 10);
    after := period[n + 1..];
    rest := SkipBlanks(after);
  }

  lemma SecondHalf(rest: Bytes, b: Bytes, tail: Bytes)
    requires |b| == Min(Span(rest, BLANKS), 10) && b == rest[..|b|] && tail == rest[|b|..]
    ensures forall k :: 0 <= k < |b| ==> b[k] !in BLANKS
    ensures |b| == 10 || tail == [] || tail[0] in BLANKS
  {
  }

  lemma ThreeParts(period: Bytes, a: Bytes, gap: Bytes, b: Bytes, tail: Bytes, after: Bytes)
    requires period == a + ['-'] + after && after == gap + (b + tail)
    ensures period == a + "-" + gap + b + tail
  {
  }

  /** The split succeeds exactly for the periods that have such halves, and gives them. */
  lemma SplitPeriodExactly(period: Bytes, a: Bytes, b: Bytes)
    ensures SplitPeriod(period) == Some((a, b)) <==> exists gap, tail :: Halves(period, a, gap, b, tail)
  {
    if SplitPeriod(period) == Some((a, b)) {
      var gap, tail := HalvesOf(period, a, b);
    }
    if gap, tail :| Halves(period, a, gap, b, tail) {
      SplitsHalves(period, a, gap, b, tail);
    }
  }
}
