/** The wire protocol: what the client prints, what the dispatcher reads, what comes back. */
module Protocol {
  import opened CStrings
  import opened Options
  import opened Calendar

  const BUFFER_SIZE := 4096
  const MAX_ID_LEN := 20
  const MAX_PW_LEN := 20
  const MAX_ROLE_LEN := 20
  const MAX_EDU_OFFICE_LEN := 50
  const MAX_SCHOOL_NAME_LEN := 50
  const SLASH := {'/'}   // strtok reads "//" as the set of one delimiter
  const DELIMITER: Bytes := "//"
  const ROLE_GENERAL: Bytes := "GENERAL"

  // ----- Commands -----

  datatype Command =
    | Login | RegisterGeneral | Update | Delete | GetChildren | AddChild | DelChild
    | ChildMeal | ChildMultiMeal | GetMeal | GetMultiMeal | Unknown

  function Name(c: Command): Bytes {
    match c
    case Login => "LOGIN"
    case RegisterGeneral => "REGISTER_GENERAL"
    case Update => "UPDATE"
    case Delete => "DELETE"
    case GetChildren => "GET_CHILDREN"
    case AddChild => "ADD_CHILD"
    case DelChild => "DEL_CHILD"
    case ChildMeal => "CHILD_MEAL"
    case ChildMultiMeal => "CHILD_MULTI_MEAL"
    case GetMeal => "GET_MEAL"
    case GetMultiMeal => "GET_MULTI_MEAL"
    case Unknown => "?"
  }

  /** The strcmp chain of the dispatcher. */
  function CommandOf(word: Bytes): Command {
    if word == "LOGIN" then Login
    else if word == "REGISTER_GENERAL" then RegisterGeneral
    else if word == "UPDATE" then Update
    else if word == "DELETE" then Delete
    else if word == "GET_CHILDREN" then GetChildren
    else if word == "ADD_CHILD" then AddChild
    else if word == "DEL_CHILD" then DelChild
    else if word == "CHILD_MEAL" then ChildMeal
    else if word == "CHILD_MULTI_MEAL" then ChildMultiMeal
    else if word == "GET_MEAL" then GetMeal
    else if word == "GET_MULTI_MEAL" then GetMultiMeal
    else Unknown
  }

  lemma CommandOfName(c: Command)
    ensures CommandOf(Name(c)) == c
  {
  }

  lemma NameIsGood(c: Command)
    ensures GoodField(Name(c))
  {
    LongNames();
    match c
    case RegisterGeneral =>
    case ChildMultiMeal =>
    case _ => ShortNameIsGood(c);
  }

  lemma LongNames()
    ensures GoodField(Name(RegisterGeneral)) && GoodField(Name(ChildMultiMeal))
  {
  }

  lemma ShortNameIsGood(c: Command)
    requires !c.RegisterGeneral? && !c.ChildMultiMeal?
    ensures GoodField(Name(c))
  {
  }

  // ----- Requests, as the client prints them -----

  datatype Request =
    | LoginRequest(id: Bytes, pw: Bytes)
    | RegisterRequest(id: Bytes, pw: Bytes, edu: Bytes, school: Bytes)
    | UpdateRequest(id: Bytes, pw: Bytes, edu: Bytes, school: Bytes)
    | DeleteRequest(id: Bytes)
    | MealRequest(edu: Bytes, school: Bytes, date: Bytes)
    | PeriodRequest(edu: Bytes, school: Bytes, start: Bytes, end: Bytes)
    | ChildMealRequest(parent: Bytes, child: Bytes, date: Bytes)
    | ChildPeriodRequest(parent: Bytes, child: Bytes, start: Bytes, end: Bytes)

  function CommandFor(r: Request): Command {
    match r
    case LoginRequest(_, _) => Login
    case RegisterRequest(_, _, _, _) => RegisterGeneral
    case UpdateRequest(_, _, _, _) => Update
    case DeleteRequest(_) => Delete
    case MealRequest(_, _, _) => GetMeal
    case PeriodRequest(_, _, _, _) => GetMultiMeal
    case ChildMealRequest(_, _, _) => ChildMeal
    case ChildPeriodRequest(_, _, _, _) => ChildMultiMeal
  }

  /** The arguments printed after the command; the period of an ordinary query is one argument. */
  function Arguments(r: Request): seq<Bytes> {
    match r
    case LoginRequest(id, pw) => [id, pw]
    case RegisterRequest(id, pw, edu, school) => [id, pw, edu, school]
    case UpdateRequest(id, pw, edu, school) => [id, pw, edu, school]
    case DeleteRequest(id) => [id]
    case MealRequest(edu, school, date) => [edu, school, date]
    case PeriodRequest(edu, school, start, end) => [edu, school, start + "-" + end]
    case ChildMealRequest(parent, child, date) => [parent, child, date]
    case ChildPeriodRequest(parent, child, start, end) => [parent, child, start, end]
  }

  function Payload(r: Request): Bytes {
    Join([Name(CommandFor(r))] + Arguments(r), DELIMITER)
  }

  /** snprintf into the client's buffer. */
  function Print(r: Request): Bytes {
    Clip(Payload(r), BUFFER_SIZE)
  }

  // ----- Decoding -----

  /** What the dispatcher's pointers hold once strtok has been called; None is NULL. */
  datatype Parsed = Parsed(
    cmd: Command, id: Option<Bytes>, pw: Option<Bytes>, edu: Option<Bytes>, school: Option<Bytes>,
    date: Option<Bytes>, child: Option<Bytes>, period: Option<Bytes>)

  function Token(ts: seq<Bytes>, k: nat): Option<Bytes> {
    if k < |ts| then Some(ts[k]) else None
  }

  function ParsedOf(cmd: Command, ts: seq<Bytes>): Parsed {
    match cmd
    case GetMeal => Parsed(cmd, None, None, Token(ts, 0), Token(ts, 1), Token(ts, 2), None, None)
    case GetMultiMeal => Parsed(cmd, None, None, Token(ts, 0), Token(ts, 1), None, None, Token(ts, 2))
    case _ =>
      Parsed(cmd, Token(ts, 0), Token(ts, 1), Token(ts, 2), Token(ts, 3), Token(ts, 4), Token(ts, 5), Token(ts, 6))
  }

  /** A whole request; None when strtok finds no command. */
  function Decode(msg: Bytes): Option<Parsed> {
    var ts := Tokens(msg, SLASH);
    if ts == [] then None else Some(ParsedOf(CommandOf(ts[0]), ts[1..]))
  }

  /** The scanf white space. */
  const BLANKS := {' ', '\t', '\n', '\r', '\U{0B}', '\U{0C}'}

  function SkipBlanks(s: Bytes): Bytes {
    if s != [] && s[0] in BLANKS then SkipBlanks(s[1..]) else s
  }

  function Min(a: nat, b: nat): nat {
    if a < b then a else b
  }

  /** sscanf(period, "%10[^-]-%10s"): both halves, or None when fewer than two were stored. */
  function SplitPeriod(period: Bytes): Option<(Bytes, Bytes)> {
    var n := Min(Span(period, {'-'}), 10);
    if n == 0 || n == |period| || period[n] != '-' then None else
      var rest := SkipBlanks(period[n + 1..]);
      var m := Min(Span(rest, BLANKS), 10);
      if m == 0 then None else Some((period[..n], rest[..m]))
  }

  // ----- Round trips -----

  predicate GoodField(f: Bytes) {
    f != [] && Free(f, SLASH) && Free(f, {NUL})
  }

  /** Printable: nonempty slash-free arguments, a message that fits, and eight-digit period dates. */
  predicate Printable(r: Request) {
    && (forall k :: 0 <= k < |Arguments(r)| ==> GoodField(Arguments(r)[k]))
    && |Payload(r)| < BUFFER_SIZE
    && (r.PeriodRequest? ==> |r.start| == |r.end| == 8 && Digits(r.start) && Digits(r.end))
  }

  lemma PrintTokens(r: Request)
    requires Printable(r)
    ensures Tokens(Print(r), SLASH) == [Name(CommandFor(r))] + Arguments(r)
  {
    var fields := [Name(CommandFor(r))] + Arguments(r);
    NameIsGood(CommandFor(r));
    forall k | 0 <= k < |fields|
      ensures GoodField(fields[k])
    {
      if k > 0 { assert fields[k] == Arguments(r)[k - 1]; }
    }
    FieldsReturn(fields);
  }

  lemma FieldsReturn(fields: seq<Bytes>)
    requires forall k :: 0 <= k < |fields| ==> GoodField(fields[k])
    ensures Tokens(Join(fields, DELIMITER), SLASH) == fields
  {
    assert forall f :: f in fields ==> Free(f, SLASH);
    TokensOfJoin(fields, DELIMITER, SLASH);
  }

  /** The dispatcher recovers exactly the fields the client printed, each in its own variable. */
  lemma DecodeOfPrint(r: Request)
    requires Printable(r)
    ensures Decode(Print(r)) == Some(ParsedOf(CommandFor(r), Arguments(r)))
  {
    PrintTokens(r);
    CommandOfName(CommandFor(r));
    DecodeTokens(Print(r), Name(CommandFor(r)), Arguments(r));
  }

  lemma DigitsAreNotBlank(s: Bytes)
    requires |s| == 8 && Digits(s)
    ensures Span(s, BLANKS) == 8 && Span(s, {'-'}) == 8 && SkipBlanks(s) == s
  {
    SpanIs(s, 8, BLANKS);
    SpanIs(s, 8, {'-'});
  }

  /** The `start-end` argument splits back into its two dates. */
  lemma PeriodReturns(start: Bytes, end: Bytes)
    requires |start| == |end| == 8 && Digits(start) && Digits(end)
    ensures SplitPeriod(start + "-" + end) == Some((start, end))
  {
    var p := start + "-" + end;
    DigitsAreNotBlank(end);
    SpanIs(p, 8, {'-'});
    assert p[..8] == start && p[9..] == end && end[..8] == end;
  }

  /** Distinct printable requests have distinct messages. */
  lemma PrintInjective(q: Request, r: Request)
    requires Printable(q) && Printable(r) && Print(q) == Print(r)
    ensures q == r
  {
    PrintTokens(q);
    PrintTokens(r);
    CommandOfName(CommandFor(q));
    CommandOfName(CommandFor(r));
    SameHead(Name(CommandFor(q)), Arguments(q), Name(CommandFor(r)), Arguments(r));
    ArgumentsInjective(q, r);
  }

  lemma SameHead(x: Bytes, xs: seq<Bytes>, y: Bytes, ys: seq<Bytes>)
    requires [x] + xs == [y] + ys
    ensures x == y && xs == ys
  {
    assert ([x] + xs)[0] == ([y] + ys)[0] && ([x] + xs)[1..] == ([y] + ys)[1..];
  }

  lemma ArgumentsInjective(q: Request, r: Request)
    requires Printable(q) && Printable(r)
    requires CommandFor(q) == CommandFor(r) && Arguments(q) == Arguments(r)
    ensures q == r
  {
    if q.PeriodRequest? {
      assert Arguments(q)[2] == Arguments(r)[2];
      PeriodReturns(q.start, q.end);
      PeriodReturns(r.start, r.end);
    }
    assert forall k :: 0 <= k < |Arguments(q)| ==> Arguments(q)[k] == Arguments(r)[k];
  }

  /** A child-meal request that fits the client's buffer and whose fields hold no slash. */
  predicate ChildQuery(r: Request) {
    && (r.ChildMealRequest? || r.ChildPeriodRequest?)
    && (forall k :: 0 <= k < |Arguments(r)| ==> Free(Arguments(r)[k], SLASH))
    && |Payload(r)| < BUFFER_SIZE
  }

  /** The two child-meal requests put the child's id where the dispatcher expects a password: the
      variable it does test, `child_id`, stays NULL whatever the field values, even if some are empty. */
  lemma ChildIdNeverFilled(r: Request) returns (p: Parsed)
    requires ChildQuery(r)
    ensures Decode(Print(r)) == Some(p) && p.cmd == CommandFor(r) && p.child == None
    ensures p.cmd.ChildMeal? || p.cmd.ChildMultiMeal?
  {
    p := FewArguments(CommandFor(r), Arguments(r));
  }

  lemma FewArguments(c: Command, args: seq<Bytes>) returns (p: Parsed)
    requires |args| <= 5 && !c.GetMeal? && !c.GetMultiMeal?
    requires forall k :: 0 <= k < |args| ==> Free(args[k], SLASH)
    ensures Decode(Join([Name(c)] + args, DELIMITER)) == Some(p) && p.cmd == c && p.child == None
  {
    p := ParsedOf(c, NonEmpty(args));
    DecodeNamed(c, args);
  }

  lemma DecodeNamed(c: Command, args: seq<Bytes>)
    requires forall k :: 0 <= k < |args| ==> Free(args[k], SLASH)
    ensures Decode(Join([Name(c)] + args, DELIMITER)) == Some(ParsedOf(c, NonEmpty(args)))
  {
    CommandOfName(c);
    NameIsGood(c);
    TokensAfterName(Name(c), args);
    DecodeTokens(Join([Name(c)] + args, DELIMITER), Name(c), NonEmpty(args));
  }

  lemma DecodeTokens(msg: Bytes, word: Bytes, args: seq<Bytes>)
    requires Tokens(msg, SLASH) == [word] + args
    ensures Decode(msg) == Some(ParsedOf(CommandOf(word), args))
  {
    assert ([word] + args)[1..] == args;
  }

  lemma TokensAfterName(name: Bytes, args: seq<Bytes>)
    requires GoodField(name) && forall k :: 0 <= k < |args| ==> Free(args[k], SLASH)
    ensures Tokens(Join([name] + args, DELIMITER), SLASH) == [name] + NonEmpty(args)
  {
    var fields := [name] + args;
    forall f | f in fields
      ensures Free(f, SLASH)
    {
    }
    TokensOfJoin(fields, DELIMITER, SLASH);
    assert fields[1..] == args;
  }

  // ----- Replies -----

  datatype Message =
    | LoginOk | RegisterOk | UpdateOk | DeleteOk | AddChildOk
    | DelChildOk | ChildMealOk | ChildMultiMealOk | MealOk | MultiMealOk
    | DbError | InvalidRequest | UnknownCommand | InvalidLogin | IdDuplicate
    | ChildUserNotFound | InvalidChildId | ChildMealNotFound | MealNotFound | InvalidDateFormat
    | SchoolNotFound

  /** The wording of the messages: any table of short slash-free texts, as the source's is. */
  type Wording = Message -> Bytes

  ghost predicate PlainWording(w: Wording) {
    forall m :: PlainText(w(m))
  }

  datatype Reply = Reply(status: int, message: Message, data: Bytes)

  function StatusDigit(status: int): char {
    if status == 1 then '1' else '0'
  }

  /** send_response: status and message, and the data when there is any. */
  function Format(status: int, text: Bytes, data: Bytes): Bytes {
    Clip([StatusDigit(status)] + DELIMITER + text + (if data == [] then [] else DELIMITER + data), BUFFER_SIZE)
  }

  function Wire(r: Reply, w: Wording): Bytes {
    Format(r.status, w(r.message), r.data)
  }

  predicate PlainText(text: Bytes) {
    text != [] && |text| <= 64 && Free(text, SLASH) && Free(text, {NUL})
  }

  // ----- The client's reading of a reply -----

  datatype Session = Session(id: Bytes, role: Bytes, edu: Bytes, school: Bytes)

  const LOGGED_OUT := Session([], [], [], [])

  function Unsigned(s: Bytes, acc: int): int {
    if s != [] && '0' <= s[0] <= '9' then Unsigned(s[1..], 10 * acc + (s[0] as int - '0' as int)) else acc
  }

  function Atoi(s: Bytes): int {
    var t := SkipBlanks(s);
    if t != [] && t[0] == '-' then -Unsigned(t[1..], 0)
    else if t != [] && t[0] == '+' then Unsigned(t[1..], 0)
    else Unsigned(t, 0)
  }

  /** What handle_login does to the session once a response has arrived. */
  function LoginEffect(session: Session, id: Bytes, response: Bytes): (Session, bool) {
    var ts := Tokens(response, SLASH);
    if ts == [] || Atoi(ts[0]) != 1 then (session, false)
    else if |ts| < 5 then (session.(id := Clip(id, MAX_ID_LEN)), false)
    else
      var edu, school := Clip(ts[2], MAX_EDU_OFFICE_LEN), Clip(ts[3], MAX_SCHOOL_NAME_LEN);
      (Session(Clip(id, MAX_ID_LEN), Clip(ts[4], MAX_ROLE_LEN), edu, school), true)
  }

  lemma AtoiOfDigit(c: char)
    requires '0' <= c <= '9'
    ensures Atoi([c]) == c as int - '0' as int
  {
    var s := [c];
    assert SkipBlanks(s) == s && s[1..] == [];
    assert Unsigned(s, 0) == Unsigned(s[1..], c as int - '0' as int);
  }

  /** A reply without data: two tokens. */
  lemma PlainReplyTokens(status: int, text: Bytes)
    requires PlainText(text)
    ensures Tokens(Format(status, text, []), SLASH) == [[StatusDigit(status)], text]
  {
    var fields := [[StatusDigit(status)], text];
    assert fields[1..] == [text];
    assert Join(fields, DELIMITER) == Format(status, text, []);
    FieldsReturn(fields);
  }

  function LoginData(edu: Bytes, school: Bytes, role: Bytes): Bytes {
    edu + DELIMITER + school + DELIMITER + role
  }

  lemma LoginReplyTokens(text: Bytes, edu: Bytes, school: Bytes, role: Bytes)
    requires PlainText(text) && GoodField(edu) && GoodField(school) && GoodField(role)
    requires |edu| + |school| + |role| <= 300
    ensures Tokens(Format(1, text, LoginData(edu, school, role)), SLASH) == ["1", text, edu, school, role]
    ensures |Format(1, text, LoginData(edu, school, role))| == 9 + |text| + |edu| + |school| + |role|
    ensures Format(1, text, LoginData(edu, school, role)) ==
            "1" + DELIMITER + Join([text, edu, school, role], DELIMITER)
  {
    var fields := ["1", text, edu, school, role];
    assert fields[1..] == [text, edu, school, role] && fields[1..][1..] == [edu, school, role];
    assert fields[1..][1..][1..] == [school, role] && fields[1..][1..][1..][1..] == [role];
    assert Join([role], DELIMITER) == role;
    assert Join([school, role], DELIMITER) == school + DELIMITER + role;
    assert Join([edu, school, role], DELIMITER) == edu + DELIMITER + Join([school, role], DELIMITER);
    assert Join([text, edu, school, role], DELIMITER) == text + DELIMITER + Join([edu, school, role], DELIMITER);
    assert Join(fields, DELIMITER) == "1" + DELIMITER + Join([text, edu, school, role], DELIMITER);
    assert Join(fields, DELIMITER) == Format(1, text, LoginData(edu, school, role));
    FieldsReturn(fields);
  }
}
