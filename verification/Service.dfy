/** What the dispatcher does with one request: the new tables and the replies it sends. */
module Service {
  import opened CStrings
  import opened Options
  import opened Calendar
  import opened Protocol
  import opened Accounts
  import Gates

  /** An office and a school code as NEIS returns them. */
  datatype Codes = Codes(edu: Bytes, school: Bytes)

  datatype Query =
    | Daily(edu: Bytes, school: Bytes, date: Bytes)
    | Period(edu: Bytes, school: Bytes, start: Bytes, end: Bytes)

  /** Database calls that can fail for reasons of SQLite's own. */
  datatype Fault =
    | ExistsFault | VerifyFault | GetFault | InsertFault | UpdateFault | DeleteFault
    | LinkFault | UnlinkFault | RegisteredFault | MealFault

  /** What the outside world answers while one request is served: the school lookup and the meal
      service as arbitrary partial functions, the database faults, and the clock mktime goes by. */
  datatype Env = Env(schools: map<Bytes, Codes>, meals: map<Query, Bytes>, faults: set<Fault>, clock: Gates.Clock)

  datatype Outcome = Outcome(db: Db, replies: seq<Reply>)

  function Ok(message: Message, data: Bytes): seq<Reply> {
    [Reply(1, message, data)]
  }

  function Error(message: Message): seq<Reply> {
    [Reply(0, message, [])]
  }

  /** Codes that fit edu_code[10] and school_code[20] and survive the protocol and the INSERT. */
  predicate GoodCodes(c: Codes) {
    GoodField(c.edu) && |c.edu| < 10 && GoodField(c.school) && |c.school| < 20 &&
    Free(c.edu, {'\''}) && Free(c.school, {'\''})
  }

  predicate GoodEnv(env: Env) {
    forall name :: name in env.schools ==> GoodCodes(env.schools[name])
  }

  /** The user row a registration or an update writes, strncpy by strncpy. */
  function StoredRow(pw: Bytes, c: Codes): Row {
    Row(Clip(pw, MAX_PW_LEN), ROLE_GENERAL, Clip(c.edu, MAX_EDU_OFFICE_LEN), Clip(c.school, MAX_SCHOOL_NAME_LEN))
  }

  /** "%s//%s//%s" of the row get_user copied, in a buffer of 256. */
  function UserData(row: Row): Bytes {
    var edu, school := Clip(row.edu, MAX_EDU_OFFICE_LEN), Clip(row.school, MAX_SCHOOL_NAME_LEN);
    Clip(LoginData(edu, school, Clip(row.role, MAX_ROLE_LEN)), 256)
  }

  /** What a branch of the dispatcher comes to: replies at once, or one statement and the replies to its
      success and to its failure. */
  datatype Decision = Answer(replies: seq<Reply>) | Statement(op: Op, done: seq<Reply>, refused: seq<Reply>)

  function CarryOut(db: Db, d: Decision): Outcome {
    match d
    case Answer(replies) => Outcome(db, replies)
    case Statement(op, done, refused) =>
      var (db', ok) := Apply(db, op);
      Outcome(db', if ok then done else refused)
  }

  /** However the statement ends, one reply. */
  predicate AlwaysAnswers(d: Decision) {
    match d
    case Answer(replies) => |replies| == 1
    case Statement(_, done, refused) => |done| == |refused| == 1
  }

  function OnLogin(db: Db, p: Parsed, env: Env): (d: Decision)
    ensures AlwaysAnswers(d)
  {
    if p.id.None? || p.pw.None? then Answer(Error(InvalidRequest))
    else if VerifyFault in env.faults || p.id.value !in db.users || db.users[p.id.value].pw != p.pw.value then
      Answer(Error(InvalidLogin))
    else if GetFault in env.faults then Answer(Error(DbError))
    else Answer(Ok(LoginOk, UserData(db.users[p.id.value])))
  }

  /** A refused INSERT sends nothing at all. */
  function OnRegister(db: Db, p: Parsed, env: Env): Decision {
    if p.id.None? || p.pw.None? || p.edu.None? || p.school.None? then Answer(Error(InvalidRequest))
    else if ExistsFault !in env.faults && p.id.value in db.users then Answer(Error(IdDuplicate))
    else if p.school.value !in env.schools then Answer(Error(SchoolNotFound))
    else if InsertFault in env.faults then Answer([])
    else
      var row := StoredRow(p.pw.value, env.schools[p.school.value]);
      Statement(Insert(Clip(p.id.value, MAX_ID_LEN), row), Ok(RegisterOk, []), [])
  }

  function OnUpdate(p: Parsed, env: Env): (d: Decision)
    ensures AlwaysAnswers(d)
  {
    if p.id.None? || p.pw.None? || p.edu.None? || p.school.None? then Answer(Error(InvalidRequest))
    else if p.school.value !in env.schools then Answer(Error(SchoolNotFound))
    else if UpdateFault in env.faults then Answer(Error(DbError))
    else
      var row := StoredRow(p.pw.value, env.schools[p.school.value]);
      var op := Accounts.Update(Clip(p.id.value, MAX_ID_LEN), row.pw, row.edu, row.school);
      Statement(op, Ok(UpdateOk, []), Error(DbError))
  }

  function OnDelete(p: Parsed, env: Env): (d: Decision)
    ensures AlwaysAnswers(d)
  {
    if p.id.None? then Answer(Error(InvalidRequest))
    else if DeleteFault in env.faults then Answer(Error(DbError))
    else Statement(Accounts.Delete(p.id.value), Ok(DeleteOk, []), Error(DbError))
  }

  /** get_children_db selects a column the table lacks, so its statement is never prepared. */
  function OnGetChildren(p: Parsed): (d: Decision)
    ensures AlwaysAnswers(d)
  {
    Answer(if p.id.None? then Error(InvalidRequest) else Error(DbError))
  }

  function OnAddChild(db: Db, p: Parsed, env: Env): (d: Decision)
    ensures AlwaysAnswers(d)
  {
    if p.id.None? || p.child.None? then Answer(Error(InvalidRequest))
    else if ExistsFault in env.faults || p.child.value !in db.users then Answer(Error(ChildUserNotFound))
    else if LinkFault in env.faults then Answer(Error(DbError))
    else Statement(Link(p.child.value, p.id.value), Ok(AddChildOk, []), Error(DbError))
  }

  predicate Registered(db: Db, p: Parsed, env: Env) {
    p.id.Some? && p.child.Some? && RegisteredFault !in env.faults && (p.child.value, p.id.value) in db.children
  }

  function OnDelChild(db: Db, p: Parsed, env: Env): (d: Decision)
    ensures AlwaysAnswers(d)
  {
    if p.id.None? || p.child.None? then Answer(Error(InvalidRequest))
    else if !Registered(db, p, env) then Answer(Error(InvalidChildId))
    else if UnlinkFault in env.faults then Answer(Error(DbError))
    else Statement(Unlink(p.child.value, p.id.value), Ok(DelChildOk, []), Error(DbError))
  }

  function OnChildMeal(db: Db, p: Parsed, env: Env): (d: Decision)
    ensures AlwaysAnswers(d)
  {
    if p.id.None? || p.child.None? || p.date.None? then Answer(Error(InvalidRequest))
    else if !Registered(db, p, env) then Answer(Error(InvalidChildId))
    else if GetFault in env.faults || p.child.value !in db.users then Answer(Error(ChildUserNotFound))
    else
      var row := db.users[p.child.value];
      var key := (p.date.value, Clip(row.edu, MAX_EDU_OFFICE_LEN), Clip(row.school, MAX_SCHOOL_NAME_LEN));
      if MealFault !in env.faults && key in db.meals
      then Answer(Ok(ChildMealOk, Clip(db.meals[key], 2000)))
      else Answer(Error(ChildMealNotFound))
  }

  function OnChildMultiMeal(db: Db, p: Parsed, env: Env): (d: Decision)
    ensures AlwaysAnswers(d)
  {
    if p.id.None? || p.child.None? || p.period.None? then Answer(Error(InvalidRequest))
    else if !Registered(db, p, env) then Answer(Error(InvalidChildId))
    else if SplitPeriod(p.period.value).None? then Answer(Error(InvalidDateFormat))
    else Answer(Ok(ChildMultiMealOk, []))
  }

  /** A school name that starts with a digit is taken for a code; any other is looked up. */
  function CodesFor(edu: Bytes, school: Bytes, env: Env): Option<Codes> {
    if school != [] && '0' <= school[0] <= '9' then Some(Codes(Clip(edu, 10), Clip(school, 20)))
    else if school in env.schools then Some(env.schools[school])
    else None
  }

  function Fetch(q: Query, env: Env): Option<Bytes> {
    if q in env.meals then Some(env.meals[q]) else None
  }

  function OnMeal(p: Parsed, env: Env): (d: Decision)
    ensures AlwaysAnswers(d)
  {
    if p.edu.None? || p.school.None? || p.date.None? then Answer(Error(InvalidRequest)) else
      match CodesFor(p.edu.value, p.school.value, env)
      case None => Answer(Error(SchoolNotFound))
      case Some(c) =>
        match Fetch(Daily(c.edu, c.school, p.date.value), env)
        case None => Answer(Error(MealNotFound))
        case Some(meal) => Answer(Ok(MealOk, meal))
  }

  /** The server's own gate, for dates that name days. */
  predicate TooLong(start: Bytes, end: Bytes, clock: Gates.Clock) {
    ValidDate(start) && ValidDate(end) && Gates.ServerRefuses(start, end, clock)
  }

  function OnMultiMeal(p: Parsed, env: Env): (d: Decision)
    ensures AlwaysAnswers(d)
  {
    if p.edu.None? || p.school.None? || p.period.None? then Answer(Error(InvalidRequest)) else
      match SplitPeriod(p.period.value)
      case None => Answer(Error(InvalidDateFormat))
      case Some(period) =>
        match CodesFor(p.edu.value, p.school.value, env)
        case None => Answer(Error(SchoolNotFound))
        case Some(c) =>
          if TooLong(period.0, period.1, env.clock) then Answer(Error(MealNotFound)) else
            match Fetch(Query.Period(c.edu, c.school, period.0, period.1), env)
            case None => Answer(Error(MealNotFound))
            case Some(meals) => Answer(Ok(MultiMealOk, meals))
  }

  function Decide(db: Db, p: Parsed, env: Env): Decision {
    match p.cmd
    case Login => OnLogin(db, p, env)
    case RegisterGeneral => OnRegister(db, p, env)
    case Update => OnUpdate(p, env)
    case Delete => OnDelete(p, env)
    case GetChildren => OnGetChildren(p)
    case AddChild => OnAddChild(db, p, env)
    case DelChild => OnDelChild(db, p, env)
    case ChildMeal => OnChildMeal(db, p, env)
    case ChildMultiMeal => OnChildMultiMeal(db, p, env)
    case GetMeal => OnMeal(p, env)
    case GetMultiMeal => OnMultiMeal(p, env)
    case Unknown => Answer(Error(UnknownCommand))
  }

  function ServeParsed(db: Db, p: Parsed, env: Env): Outcome {
    CarryOut(db, Decide(db, p, env))
  }

  function Serve(db: Db, msg: Bytes, env: Env): Outcome {
    match Decode(msg)
    case None => Outcome(db, Error(InvalidRequest))
    case Some(p) => ServeParsed(db, p, env)
  }

  // ----- Replies -----

  /** The one way a request goes unanswered: a registration that passed the checks and whose INSERT failed. */
  predicate SilentRegistration(db: Db, p: Parsed, env: Env) {
    && p.cmd.RegisterGeneral? && p.id.Some? && p.pw.Some? && p.edu.Some? && p.school.Some?
    && (ExistsFault in env.faults || p.id.value !in db.users)
    && p.school.value in env.schools
    && (InsertFault in env.faults || Clip(p.id.value, MAX_ID_LEN) in db.users)
  }

  lemma RegisterReplies(db: Db, p: Parsed, env: Env)
    requires p.cmd.RegisterGeneral?
    ensures |ServeParsed(db, p, env).replies| == if SilentRegistration(db, p, env) then 0 else 1
  {
  }

  lemma OneReplyParsed(db: Db, p: Parsed, env: Env)
    ensures |ServeParsed(db, p, env).replies| <= 1
    ensures |ServeParsed(db, p, env).replies| == 0 <==> SilentRegistration(db, p, env)
  {
    if p.cmd.RegisterGeneral? { RegisterReplies(db, p, env); }
  }

  /** At most one reply per request, and none exactly for a registration whose INSERT failed. */
  lemma OneReply(db: Db, msg: Bytes, env: Env)
    ensures |Serve(db, msg, env).replies| <= 1
    ensures |Serve(db, msg, env).replies| == 0 <==>
            Decode(msg).Some? && SilentRegistration(db, Decode(msg).value, env)
  {
    var d := Decode(msg);
    if d.Some? { OneReplyParsed(db, d.value, env); }
  }

  /** Without database faults an id short enough for its field always gets its answer. */
  lemma AnsweredWithoutFaults(db: Db, msg: Bytes, env: Env)
    requires env.faults == {}
    requires Decode(msg).Some? && Decode(msg).value.id.Some? ==> |Decode(msg).value.id.value| < MAX_ID_LEN
    ensures |Serve(db, msg, env).replies| == 1
  {
    OneReply(db, msg, env);
  }

  /** Even without faults a registration goes unanswered: exactly when its id is too long for its field and
      what is left of it there is taken. */
  lemma SilentWithoutFaults(db: Db, p: Parsed, env: Env)
    requires env.faults == {}
    ensures ServeParsed(db, p, env).replies == [] <==>
            && p.cmd.RegisterGeneral? && p.id.Some? && p.pw.Some? && p.edu.Some? && p.school.Some?
            && |p.id.value| >= MAX_ID_LEN && p.id.value !in db.users
            && Clip(p.id.value, MAX_ID_LEN) in db.users && p.school.value in env.schools
  {
    OneReplyParsed(db, p, env);
  }

  /** So registering any long id twice in a row: the first is accepted, the second never answered. */
  lemma LongIdTwice(db: Db, r: Request, env: Env)
    requires r.RegisterRequest? && Printable(r) && |r.id| >= MAX_ID_LEN && env.faults == {}
    requires r.id !in db.users && Clip(r.id, MAX_ID_LEN) !in db.users && r.school in env.schools
    ensures var o := Serve(db, Print(r), env);
            o.replies == Ok(RegisterOk, []) && Serve(o.db, Print(r), env) == Outcome(o.db, [])
  {
    DecodeOfPrint(r);
    var p := ParsedOf(RegisterGeneral, Arguments(r));
    assert p.id == Some(r.id) && p.pw == Some(r.pw) && p.edu == Some(r.edu) && p.school == Some(r.school);
    var o := Serve(db, Print(r), env);
    assert o == CarryOut(db, OnRegister(db, p, env));
    assert Serve(o.db, Print(r), env) == CarryOut(o.db, OnRegister(o.db, p, env));
  }

  /** One such id, on the empty tables. */
  lemma TwentyByteId(env: Env)
    requires env.faults == {} && "s" in env.schools
    ensures var r := RegisterRequest("aaaaaaaaaaaaaaaaaaaa", "1234", "e", "s");
            var o := Serve(EMPTY, Print(r), env);
            o.replies == Ok(RegisterOk, []) && Serve(o.db, Print(r), env).replies == []
  {
    LongIdPrintable();
    LongIdTwice(EMPTY, RegisterRequest("aaaaaaaaaaaaaaaaaaaa", "1234", "e", "s"), env);
  }

  lemma LongIdPrintable()
    ensures Printable(RegisterRequest("aaaaaaaaaaaaaaaaaaaa", "1234", "e", "s"))
    ensures |"aaaaaaaaaaaaaaaaaaaa"| == MAX_ID_LEN
  {
    var r := RegisterRequest("aaaaaaaaaaaaaaaaaaaa", "1234", "e", "s");
    assert GoodField(r.id) && GoodField(r.pw) && GoodField(r.edu) && GoodField(r.school);
    assert Arguments(r) == [r.id, r.pw, r.edu, r.school];
    ShortFields(RegisterGeneral, r.id, r.pw, r.edu, r.school);
  }

  lemma ShortFields(c: Command, id: Bytes, pw: Bytes, edu: Bytes, school: Bytes)
    requires |id| + |pw| + |edu| + |school| < 1000
    ensures |Join([Name(c)] + [id, pw, edu, school], DELIMITER)| < BUFFER_SIZE
  {
    var args := [id, pw, edu, school];
    assert args[1..] == [pw, edu, school] && args[1..][1..] == [edu, school];
    assert args[1..][1..][1..] == [school] && ([Name(c)] + args)[1..] == args;
    assert Join([school], DELIMITER) == school;
    assert Join([edu, school], DELIMITER) == edu + DELIMITER + school;
    assert Join([pw, edu, school], DELIMITER) == pw + DELIMITER + (edu + DELIMITER + school);
    assert Join(args, DELIMITER) == id + DELIMITER + Join([pw, edu, school], DELIMITER);
    assert Join([Name(c)] + args, DELIMITER) == Name(c) + DELIMITER + Join(args, DELIMITER);
    NameLength(c);
  }

  lemma NameLength(c: Command)
    ensures |Name(c)| <= 16
  {
  }

  /** A child-meal request as the client prints it is refused as malformed and touches nothing. */
  lemma ChildRequestsRefused(db: Db, r: Request, env: Env)
    requires ChildQuery(r)
    ensures Serve(db, Print(r), env) == Outcome(db, Error(InvalidRequest))
  {
    var p := ChildIdNeverFilled(r);
    var msg := Print(r);
    assert Serve(db, msg, env) == Outcome(db, Error(InvalidRequest)) by {
      RefusedWithoutChild(db, msg, p, env);
    }
  }

  lemma RefusedWithoutChild(db: Db, msg: Bytes, p: Parsed, env: Env)
    requires Decode(msg) == Some(p) && p.child.None? && (p.cmd.ChildMeal? || p.cmd.ChildMultiMeal?)
    ensures Serve(db, msg, env) == Outcome(db, Error(InvalidRequest))
  {
    NoChildRefused(db, p, env);
  }

  lemma NoChildRefused(db: Db, p: Parsed, env: Env)
    requires p.child.None? && (p.cmd.ChildMeal? || p.cmd.ChildMultiMeal?)
    ensures ServeParsed(db, p, env) == Outcome(db, Error(InvalidRequest))
  {
  }

  /** An ordinary period query reaches the meal service with the client's own two dates, unless the
      server's day count refuses them. */
  lemma PeriodQueryServed(db: Db, r: Request, env: Env)
    requires r.PeriodRequest? && Printable(r)
    ensures Serve(db, Print(r), env) ==
            match CodesFor(r.edu, r.school, env)
            case None => Outcome(db, Error(SchoolNotFound))
            case Some(c) =>
              if TooLong(r.start, r.end, env.clock) || Query.Period(c.edu, c.school, r.start, r.end) !in env.meals
              then Outcome(db, Error(MealNotFound))
              else Outcome(db, Ok(MultiMealOk, env.meals[Query.Period(c.edu, c.school, r.start, r.end)]))
  {
    PeriodReturns(r.start, r.end);
    var p := PeriodParsed(r);
    assert Serve(db, Print(r), env) == CarryOut(db, OnMultiMeal(p, env));
  }

  lemma PeriodParsed(r: Request) returns (p: Parsed)
    requires r.PeriodRequest? && Printable(r)
    ensures Decode(Print(r)) == Some(p)
    ensures p == Parsed(GetMultiMeal, None, None, Some(r.edu), Some(r.school), None, None, Some(r.start + "-" + r.end))
  {
    var args := [r.edu, r.school, r.start + "-" + r.end];
    PrintTokens(r);
    CommandOfName(GetMultiMeal);
    DecodeTokens(Print(r), Name(GetMultiMeal), args);
    p := ParsedOf(GetMultiMeal, args);
  }

  /** What the client's check lets through, the server refuses exactly for eight days over a long month's end,
      in the years its clock knows. */
  lemma AcceptedPeriodRefused(db: Db, r: Request, env: Env)
    requires r.PeriodRequest? && Printable(r) && Gates.ClientAccepts(r.start, r.end) && Gates.GoodClock(env.clock)
    requires CodesFor(r.edu, r.school, env).Some?
    requires var c := CodesFor(r.edu, r.school, env).value;
             Query.Period(c.edu, c.school, r.start, r.end) in env.meals
    ensures var a, b := ParseDate(r.start), ParseDate(r.end);
            Serve(db, Print(r), env).replies == Error(MealNotFound) <==>
            && Gates.Known(a, env.clock) && Gates.Known(b, env.clock)
            && Gates.Elapsed(a, b) == 7 && Gates.CrossesLongMonth(a, b)
  {
    PeriodQueryServed(db, r, env);
    Gates.AcceptedThenRefused(r.start, r.end, env.clock);
  }

  // ----- The tables -----

  /** Whatever the clients send, both ends of every child link stay users. */
  lemma ServeKeepsSound(db: Db, msg: Bytes, env: Env)
    requires Sound(db)
    ensures Sound(Serve(db, msg, env).db)
  {
    var d := Decode(msg);
    if d.Some? {
      var decision := Decide(db, d.value, env);
      if decision.Statement? { ApplyKeepsSound(db, decision.op); }
    }
  }
}
