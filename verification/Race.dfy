/** Registrations, logins and the child-link requests split into the steps other handler threads can come
    between: existence check, school lookup, INSERT and response; password check and row fetch; check and
    change of a link. Any other request of a thread is one statement. Runs start from whatever tables the
    server has opened. */
module Race {
  import opened CStrings
  import opened Options
  import opened Protocol
  import opened Accounts
  import opened Service

  datatype Registration = Registration(id: Bytes, pw: Bytes, school: Bytes)

  function Key(r: Registration): Bytes {
    Clip(r.id, MAX_ID_LEN)
  }

  /** Where a handler thread stands. */
  datatype Task =
    | Idle
    | Checked(r: Registration)
    | Resolved(r: Registration, codes: Codes)
    | Inserted(r: Registration)   // row inserted, REGISTER_OK not sent yet
    | Verified(id: Bytes)         // password found right, row not fetched yet
    | Linking(child: Bytes, parent: Bytes)     // child found, link not inserted yet
    | Unlinking(child: Bytes, parent: Bytes)   // link found, not deleted yet

  /** What happened, in order: rows inserted and removed, registrations answered, threads' other answers. */
  datatype Entry =
    | RowInserted(key: Bytes)
    | RowRemoved(key: Bytes)
    | Answered(key: Bytes, message: Message)
    | Told(t: nat, reply: Reply)

  datatype State = State(db: Db, tasks: seq<Task>, log: seq<Entry>)

  datatype Action =
    | Check(t: nat, r: Registration, fault: bool)
    | Resolve(t: nat, codes: Option<Codes>)
    | TryInsert(t: nat, fault: bool)
    | Respond(t: nat)
    | Verify(t: nat, id: Bytes, pw: Bytes, fault: bool)
    | FetchRow(t: nat, fault: bool)
    | FindChild(t: nat, child: Bytes, parent: Bytes, fault: bool)
    | AddLink(t: nat, fault: bool)
    | FindLink(t: nat, child: Bytes, parent: Bytes, fault: bool)
    | DropLink(t: nat, fault: bool)
    | Execute(t: nat, op: Op)   // UPDATE and DELETE

  function Goto(s: State, t: nat, task: Task): State
    requires t < |s.tasks|
  {
    s.(tasks := s.tasks[t := task])
  }

  function Record(s: State, e: Entry): State {
    s.(log := s.log + [e])
  }

  /** What get_user finds for a login whose password was right. */
  function LoginReply(db: Db, id: Bytes, fault: bool): Reply {
    if fault || id !in db.users then Reply(0, DbError, []) else Reply(1, LoginOk, UserData(db.users[id]))
  }

  /** What db_add_child does and the answer to it. A child that has gone meanwhile fails its second look-up or
      the foreign key, with the same answer. */
  function LinkReply(db: Db, child: Bytes, parent: Bytes, fault: bool): (Db, Reply) {
    var (db', ok) := Apply(db, Link(child, parent));
    if fault || !ok then (db, Reply(0, DbError, [])) else (db', Reply(1, AddChildOk, []))
  }

  function Step(s: State, a: Action): Option<State> {
    if a.t >= |s.tasks| then None else
      match (a, s.tasks[a.t])
      case (Check(t, r, fault), Idle) =>
        if !fault && r.id in s.db.users then Some(Record(s, Answered(Key(r), IdDuplicate)))
        else Some(Goto(s, t, Checked(r)))
      case (Resolve(t, codes), Checked(r)) =>
        if codes.None? then Some(Record(Goto(s, t, Idle), Answered(Key(r), SchoolNotFound)))
        else Some(Goto(s, t, Resolved(r, codes.value)))
      case (TryInsert(t, fault), Resolved(r, codes)) =>
        var (db, ok) := Apply(s.db, Insert(Key(r), StoredRow(r.pw, codes)));
        if fault || !ok then Some(Goto(s, t, Idle))
        else Some(Record(Goto(s, t, Inserted(r)).(db := db), RowInserted(Key(r))))
      case (Respond(t), Inserted(r)) =>
        Some(Record(Goto(s, t, Idle), Answered(Key(r), RegisterOk)))
      case (Verify(t, id, pw, fault), Idle) =>
        if fault || id !in s.db.users || s.db.users[id].pw != pw
        then Some(Record(s, Told(t, Reply(0, InvalidLogin, []))))
        else Some(Goto(s, t, Verified(id)))
      case (FetchRow(t, fault), Verified(id)) =>
        Some(Record(Goto(s, t, Idle), Told(t, LoginReply(s.db, id, fault))))
      case (FindChild(t, child, parent, fault), Idle) =>
        if fault || child !in s.db.users then Some(Record(s, Told(t, Reply(0, ChildUserNotFound, []))))
        else Some(Goto(s, t, Linking(child, parent)))
      case (AddLink(t, fault), Linking(child, parent)) =>
        var (db, reply) := LinkReply(s.db, child, parent, fault);
        Some(Record(Goto(s, t, Idle).(db := db), Told(t, reply)))
      case (FindLink(t, child, parent, fault), Idle) =>
        if fault || (child, parent) !in s.db.children then Some(Record(s, Told(t, Reply(0, InvalidChildId, []))))
        else Some(Goto(s, t, Unlinking(child, parent)))
      case (DropLink(t, fault), Unlinking(child, parent)) =>
        if fault then Some(Record(Goto(s, t, Idle), Told(t, Reply(0, DbError, []))))
        else
          var db := Apply(s.db, Unlink(child, parent)).0;
          Some(Record(Goto(s, t, Idle).(db := db), Told(t, Reply(1, DelChildOk, []))))
      case (Execute(t, op), Idle) =>
        if !op.Update? && !op.Delete? then None
        else if op.Delete? && op.id in s.db.users && Apply(s.db, op).1 then
          Some(Record(s.(db := Apply(s.db, op).0), RowRemoved(op.id)))
        else Some(s.(db := Apply(s.db, op).0))
      case _ => None
  }

  function Run(s: State, steps: seq<Action>): Option<State> {
    if steps == [] then Some(s) else
      match Run(s, steps[..|steps| - 1])
      case None => None
      case Some(s') => Step(s', steps[|steps| - 1])
  }

  /** `threads` handlers over the tables as opened. */
  function Initial(db: Db, threads: nat): State {
    State(db, seq(threads, _ => Idle), [])
  }

  function Count(log: seq<Entry>, e: Entry): nat {
    if log == [] then 0 else Count(log[..|log| - 1], e) + (if log[|log| - 1] == e then 1 else 0)
  }

  /** Threads that have inserted a row for `key` and not answered yet. */
  function Pending(tasks: seq<Task>, key: Bytes): nat {
    if tasks == [] then 0
    else Pending(tasks[..|tasks| - 1], key) + (if IsPending(tasks[|tasks| - 1], key) then 1 else 0)
  }

  predicate IsPending(task: Task, key: Bytes) {
    task.Inserted? && Key(task.r) == key
  }

  lemma {:induction false} PendingAfter(tasks: seq<Task>, t: nat, task: Task, key: Bytes)
    requires t < |tasks|
    ensures Pending(tasks[t := task], key) ==
            Pending(tasks, key) - (if IsPending(tasks[t], key) then 1 else 0) + (if IsPending(task, key) then 1 else 0)
  {
    var tasks' := tasks[t := task];
    if t == |tasks| - 1 {
      assert tasks'[..|tasks| - 1] == tasks[..|tasks| - 1];
    } else {
      PendingAfter(tasks[..|tasks| - 1], t, task, key);
      assert tasks'[..|tasks| - 1] == tasks[..|tasks| - 1][t := task];
    }
  }

  lemma CountAfter(log: seq<Entry>, e: Entry, x: Entry)
    ensures Count(log + [e], x) == Count(log, x) + (if e == x then 1 else 0)
  {
    assert (log + [e])[..|log|] == log;
  }

  function Rows(db: Db, key: Bytes): nat {
    if key in db.users then 1 else 0
  }

  /** A row is in the table exactly when rows at the start and inserted are one more than those removed. */
  predicate RowsBalanced(start: Db, s: State, key: Bytes) {
    Rows(start, key) + Count(s.log, RowInserted(key)) == Count(s.log, RowRemoved(key)) + Rows(s.db, key)
  }

  /** Every insertion has been answered REGISTER_OK once or is about to be. */
  predicate AnswersBalanced(s: State, key: Bytes) {
    Count(s.log, Answered(key, RegisterOk)) + Pending(s.tasks, key) == Count(s.log, RowInserted(key))
  }

  /** A step adds one entry at most. */
  lemma LogExtends(s: State, a: Action)
    requires Step(s, a).Some?
    ensures s.log <= Step(s, a).value.log && |Step(s, a).value.log| <= |s.log| + 1
  {
  }

  lemma CountExtended(log: seq<Entry>, log': seq<Entry>, x: Entry)
    requires log <= log' && |log'| <= |log| + 1
    ensures Count(log', x) == Count(log, x) + (if log' == log + [x] then 1 else 0)
  {
    if |log'| > |log| {
      var e := log'[|log|];
      OneLonger(log, log', e);
      CountAfter(log, e, x);
      LastEntry(log, e, x, x);
    }
  }

  lemma OneLonger(log: seq<Entry>, log': seq<Entry>, e: Entry)
    requires log <= log' && |log'| == |log| + 1 && log'[|log|] == e
    ensures log' == log + [e]
  {
  }

  lemma LogGrows(s: State, a: Action, x: Entry)
    requires Step(s, a).Some?
    ensures var s' := Step(s, a).value;
            Count(s'.log, x) == Count(s.log, x) + (if s'.log == s.log + [x] then 1 else 0)
  {
    LogExtends(s, a);
    CountExtended(s.log, Step(s, a).value.log, x);
  }

  lemma StatementRows(db: Db, op: Op, key: Bytes)
    ensures key in Apply(db, op).0.users <==>
            (key in db.users && !(op == Op.Delete(key) && Apply(db, op).1)) || (op.Insert? && op.id == key)
  {
  }

  lemma StepRows(s: State, a: Action, key: Bytes)
    requires Step(s, a).Some?
    ensures var s' := Step(s, a).value;
            if s'.log == s.log + [RowInserted(key)] then key !in s.db.users && key in s'.db.users
            else if s'.log == s.log + [RowRemoved(key)] then key in s.db.users && key !in s'.db.users
            else key in s'.db.users <==> key in s.db.users
  {
    if a.Execute? {
      StatementRows(s.db, a.op, key);
    } else if a.TryInsert? && s.tasks[a.t].Resolved? {
      var r := s.tasks[a.t].r;
      StatementRows(s.db, Insert(Key(r), StoredRow(r.pw, s.tasks[a.t].codes)), key);
    }
    var s' := Step(s, a).value;
    if |s'.log| > |s.log| { LastEntry(s.log, s'.log[|s.log|], RowInserted(key), RowRemoved(key)); }
  }

  lemma LastEntry(log: seq<Entry>, e: Entry, x: Entry, y: Entry)
    ensures log + [e] == log + [x] <==> e == x
    ensures log + [e] == log + [y] <==> e == y
  {
    assert (log + [e])[|log|] == e && (log + [x])[|log|] == x && (log + [y])[|log|] == y;
  }

  lemma StepKeepsRows(start: Db, s: State, a: Action, key: Bytes)
    requires RowsBalanced(start, s, key) && Step(s, a).Some?
    ensures RowsBalanced(start, Step(s, a).value, key)
  {
    LogGrows(s, a, RowInserted(key));
    LogGrows(s, a, RowRemoved(key));
    StepRows(s, a, key);
    LastEntry(s.log, RowInserted(key), RowRemoved(key), RowRemoved(key));
  }

  /** One more answer when a registration is answered, one more pending when its row goes in. */
  lemma StepAnswers(s: State, a: Action, key: Bytes)
    requires Step(s, a).Some?
    ensures var s' := Step(s, a).value;
            |s'.tasks| == |s.tasks| && s'.tasks == s.tasks[a.t := s'.tasks[a.t]] &&
            var was, now := IsPending(s.tasks[a.t], key), IsPending(s'.tasks[a.t], key);
            && (s'.log == s.log + [RowInserted(key)] <==> now && !was)
            && (s'.log == s.log + [Answered(key, RegisterOk)] <==> was && !now)
            && (was ==> !now)
  {
    var s' := Step(s, a).value;
    assert s.tasks[a.t := s.tasks[a.t]] == s.tasks;
    if |s'.log| > |s.log| { LastEntry(s.log, s'.log[|s.log|], RowInserted(key), Answered(key, RegisterOk)); }
  }

  lemma StepKeepsAnswers(s: State, a: Action, key: Bytes)
    requires AnswersBalanced(s, key) && Step(s, a).Some?
    ensures AnswersBalanced(Step(s, a).value, key)
  {
    var s' := Step(s, a).value;
    StepAnswers(s, a, key);
    LogGrows(s, a, RowInserted(key));
    LogGrows(s, a, Answered(key, RegisterOk));
    PendingAfter(s.tasks, a.t, s'.tasks[a.t], key);
  }

  lemma {:induction false} NothingPending(db: Db, threads: nat, key: Bytes)
    ensures Pending(Initial(db, threads).tasks, key) == 0
  {
    if threads > 0 {
      NothingPending(db, threads - 1, key);
      assert Initial(db, threads).tasks[..threads - 1] == Initial(db, threads - 1).tasks;
    }
  }

  /** In every interleaving rows inserted, rows removed, answers sent and the table agree for each key. */
  lemma {:induction false} RunsStayBalanced(db: Db, threads: nat, steps: seq<Action>, key: Bytes)
    requires Run(Initial(db, threads), steps).Some?
    ensures RowsBalanced(db, Run(Initial(db, threads), steps).value, key)
    ensures AnswersBalanced(Run(Initial(db, threads), steps).value, key)
    decreases |steps|
  {
    if steps == [] {
      NothingPending(db, threads, key);
    } else {
      RunsStayBalanced(db, threads, steps[..|steps| - 1], key);
      var s := Run(Initial(db, threads), steps[..|steps| - 1]).value;
      StepKeepsRows(db, s, steps[|steps| - 1], key);
      StepKeepsAnswers(s, steps[|steps| - 1], key);
    }
  }

  /** So at most one registration of an id succeeds more than there were deletions of it, and none more for
      an id that had its row from the start. */
  lemma AtMostOneSuccess(db: Db, threads: nat, steps: seq<Action>, key: Bytes)
    requires Run(Initial(db, threads), steps).Some?
    ensures var log := Run(Initial(db, threads), steps).value.log;
            Count(log, Answered(key, RegisterOk)) <= Count(log, RowInserted(key))
            <= Count(log, RowRemoved(key)) + (if key in db.users then 0 else 1)
  {
    RunsStayBalanced(db, threads, steps, key);
  }

  /** The state in which the log was `n` entries long. */
  lemma {:induction false} StateAt(db: Db, threads: nat, steps: seq<Action>, n: nat) returns (m: nat)
    requires Run(Initial(db, threads), steps).Some? && n <= |Run(Initial(db, threads), steps).value.log|
    ensures m <= |steps| && Run(Initial(db, threads), steps[..m]).Some?
    ensures Run(Initial(db, threads), steps[..m]).value.log == Run(Initial(db, threads), steps).value.log[..n]
    decreases |steps|
  {
    var log := Run(Initial(db, threads), steps).value.log;
    if n == |log| {
      m := |steps|;
      assert steps[..m] == steps && log[..n] == log;
    } else {
      var front := steps[..|steps| - 1];
      var log' := Run(Initial(db, threads), front).value.log;
      assert log' == log || log' == log[..|log| - 1];
      m := StateAt(db, threads, front, n);
      assert front[..m] == steps[..m] && log'[..n] == log[..n];
    }
  }

  lemma {:induction false} CountSplit(log: seq<Entry>, n: nat, e: Entry)
    requires n <= |log|
    ensures Count(log, e) == Count(log[..n], e) + Count(log[n..], e)
    decreases |log|
  {
    if n == |log| {
      assert log[..n] == log;
    } else {
      var front := log[..|log| - 1];
      CountSplit(front, n, e);
      assert front[..n] == log[..n] && front[n..] == log[n..][..|log| - 1 - n];
    }
  }

  lemma {:induction false} CountZero(log: seq<Entry>, e: Entry)
    ensures Count(log, e) == 0 <==> e !in log
  {
    if log != [] {
      CountZero(log[..|log| - 1], e);
      assert log == log[..|log| - 1] + [log[|log| - 1]];
    }
  }

  function Present(log: seq<Entry>, key: Bytes): int {
    Count(log, RowInserted(key)) - Count(log, RowRemoved(key))
  }

  lemma PrefixPresent(db: Db, threads: nat, steps: seq<Action>, key: Bytes, n: nat)
    requires Run(Initial(db, threads), steps).Some? && n <= |Run(Initial(db, threads), steps).value.log|
    ensures 0 <= Rows(db, key) + Present(Run(Initial(db, threads), steps).value.log[..n], key) <= 1
  {
    var m := StateAt(db, threads, steps, n);
    RunsStayBalanced(db, threads, steps[..m], key);
  }

  lemma Alternation(start: nat, log: seq<Entry>, key: Bytes, i: nat, j: nat)
    requires i < j < |log| && log[i] == log[j] == RowInserted(key)
    requires start + Present(log[..i], key) >= 0 && start + Present(log[..j + 1], key) <= 1
    ensures exists k :: i < k < j && log[k] == RowRemoved(key)
  {
    PresentAfterInsert(log, i, key);
    var upto, mid := Slices(log, i, j);
    PresentSplit(upto, i + 1, key);
    var k := RemovedInside(mid, key);
    assert mid[k] == log[i + 1 + k];
  }

  lemma Slices(log: seq<Entry>, i: nat, j: nat) returns (upto: seq<Entry>, mid: seq<Entry>)
    requires i < j < |log|
    ensures upto == log[..j + 1] && upto[..i + 1] == log[..i + 1] && upto[i + 1..] == mid
    ensures |mid| == j - i && mid[j - i - 1] == log[j] && forall k :: 0 <= k < |mid| ==> mid[k] == log[i + 1 + k]
  {
    upto, mid := log[..j + 1], log[i + 1..j + 1];
    assert mid[|mid| - 1] == log[j];
  }

  lemma PresentAfterInsert(log: seq<Entry>, i: nat, key: Bytes)
    requires i < |log| && log[i] == RowInserted(key)
    ensures Present(log[..i + 1], key) == Present(log[..i], key) + 1
  {
    assert log[..i + 1] == log[..i] + [log[i]];
    CountAfter(log[..i], log[i], RowInserted(key));
    CountAfter(log[..i], log[i], RowRemoved(key));
  }

  lemma PresentSplit(log: seq<Entry>, n: nat, key: Bytes)
    requires n <= |log|
    ensures Present(log, key) == Present(log[..n], key) + Present(log[n..], key)
  {
    CountSplit(log, n, RowInserted(key));
    CountSplit(log, n, RowRemoved(key));
  }

  lemma RemovedInside(mid: seq<Entry>, key: Bytes) returns (k: nat)
    requires RowInserted(key) in mid && Present(mid, key) <= 0
    ensures k < |mid| && mid[k] == RowRemoved(key)
  {
    CountZero(mid, RowInserted(key));
    CountZero(mid, RowRemoved(key));
    k :| k < |mid| && mid[k] == RowRemoved(key);
  }

  /** Between two successful registrations of an id lies a deletion of it, whatever the threads'
      existence checks saw. */
  lemma DeletionBetween(db: Db, threads: nat, steps: seq<Action>, key: Bytes, i: nat, j: nat)
    requires Run(Initial(db, threads), steps).Some?
    requires var log := Run(Initial(db, threads), steps).value.log;
             i < j < |log| && log[i] == log[j] == RowInserted(key)
    ensures var log := Run(Initial(db, threads), steps).value.log;
            exists k :: i < k < j && log[k] == RowRemoved(key)
  {
    var log := LogOf(db, threads, steps, key);
    Alternation(Rows(db, key), log, key, i, j);
  }

  lemma LogOf(db: Db, threads: nat, steps: seq<Action>, key: Bytes) returns (log: seq<Entry>)
    requires Run(Initial(db, threads), steps).Some?
    ensures log == Run(Initial(db, threads), steps).value.log
    ensures forall n :: 0 <= n <= |log| ==> 0 <= Rows(db, key) + Present(log[..n], key) <= 1
  {
    log := Run(Initial(db, threads), steps).value.log;
    forall n | 0 <= n <= |log|
      ensures 0 <= Rows(db, key) + Present(log[..n], key) <= 1
    {
      PrefixPresent(db, threads, steps, key, n);
    }
  }

  // ----- One thread at a time -----

  /** What a registration served without interruption adds to the log. */
  function Trace(before: Db, o: Outcome, key: Bytes): seq<Entry> {
    (if o.db == before then [] else [RowInserted(key)]) +
    (if o.replies == [] then [] else [Answered(key, o.replies[0].message)])
  }

  predicate Complete(p: Parsed) {
    p.cmd.RegisterGeneral? && p.id.Some? && p.pw.Some? && p.edu.Some? && p.school.Some?
  }

  /** The steps of a registration that nothing comes between. */
  function Uninterrupted(s: State, t: nat, r: Registration, env: Env): State
    requires t < |s.tasks| && s.tasks[t].Idle?
  {
    if ExistsFault !in env.faults && r.id in s.db.users then Record(s, Answered(Key(r), IdDuplicate))
    else if r.school !in env.schools then Record(s, Answered(Key(r), SchoolNotFound))
    else
      var (db, ok) := Apply(s.db, Insert(Key(r), StoredRow(r.pw, env.schools[r.school])));
      if InsertFault in env.faults || !ok then s
      else Record(Record(s.(db := db), RowInserted(Key(r))), Answered(Key(r), RegisterOk))
  }

  /** Those steps refine the request handler: same tables, same answer, thread idle again. */
  lemma UninterruptedIsServe(s: State, t: nat, p: Parsed, env: Env)
    requires t < |s.tasks| && s.tasks[t].Idle? && Complete(p)
    ensures var r := Registration(p.id.value, p.pw.value, p.school.value);
            var o := CarryOut(s.db, OnRegister(s.db, p, env));
            Uninterrupted(s, t, r, env) == State(o.db, s.tasks, s.log + Trace(s.db, o, Key(r)))
  {
    var r := Registration(p.id.value, p.pw.value, p.school.value);
    var o := CarryOut(s.db, OnRegister(s.db, p, env));
    var s' := Uninterrupted(s, t, r, env);
    if o.db == s.db {
      assert s.log + Trace(s.db, o, Key(r)) == s'.log;
    } else {
      assert s.log + [RowInserted(Key(r))] + [Answered(Key(r), RegisterOk)] == s.log + Trace(s.db, o, Key(r));
    }
  }

  /** And they are steps of this system. */
  lemma UninterruptedRuns(s: State, t: nat, r: Registration, env: Env) returns (steps: seq<Action>)
    requires t < |s.tasks| && s.tasks[t].Idle?
    ensures Run(s, steps) == Some(Uninterrupted(s, t, r, env))
    ensures forall k :: 0 <= k < |steps| ==> steps[k].t == t
  {
    var check := Check(t, r, ExistsFault in env.faults);
    steps := [check];
    var s1 := Step(s, check).value;
    RunOneMore(s, [], check, s1);
    assert [] + [check] == [check];
    if !(ExistsFault !in env.faults && r.id in s.db.users) {
      var resolve := Resolve(t, if r.school in env.schools then Some(env.schools[r.school]) else None);
      var s2 := Step(s1, resolve).value;
      RunOneMore(s, steps, resolve, s2);
      steps := steps + [resolve];
      if r.school in env.schools {
        steps := InsertRuns(s, t, r, env.schools[r.school], InsertFault in env.faults, steps, s2);
      }
      assert s.tasks[t := Checked(r)][t := Idle] == s.tasks;
    }
  }

  lemma InsertRuns(s: State, t: nat, r: Registration, codes: Codes, fault: bool, before: seq<Action>, s2: State)
      returns (steps: seq<Action>)
    requires t < |s.tasks| && s.tasks[t].Idle? && Run(s, before) == Some(s2)
    requires s2 == Goto(s, t, Resolved(r, codes)) && forall k :: 0 <= k < |before| ==> before[k].t == t
    ensures forall k :: 0 <= k < |steps| ==> steps[k].t == t
    ensures var (db, ok) := Apply(s.db, Insert(Key(r), StoredRow(r.pw, codes)));
            Run(s, steps) == Some(if fault || !ok then s
                                  else Record(Record(s.(db := db), RowInserted(Key(r))), Answered(Key(r), RegisterOk)))
  {
    var insert := TryInsert(t, fault);
    var s3 := Step(s2, insert).value;
    RunOneMore(s, before, insert, s3);
    steps := before + [insert];
    if s3.tasks[t].Inserted? {
      var s4 := Step(s3, Respond(t)).value;
      RunOneMore(s, steps, Respond(t), s4);
      steps := steps + [Respond(t)];
      assert s4.tasks == s.tasks;
    } else {
      assert s3.tasks == s.tasks;
    }
  }

  lemma RunOneMore(s: State, steps: seq<Action>, a: Action, s': State)
    requires Run(s, steps).Some? && Step(Run(s, steps).value, a) == Some(s')
    ensures Run(s, steps + [a]) == Some(s')
  {
    assert (steps + [a])[..|steps|] == steps;
  }

  /** The existence check alone would not do: two threads pass it for the same id, one row is inserted,
      and the other thread's client is never answered. */
  lemma BothPassTheCheck(db: Db, r: Registration, codes: Codes) returns (early: seq<Action>, late: seq<Action>)
    requires r.id !in db.users && Key(r) !in db.users
    ensures Run(Initial(db, 2), early) == Some(State(db, [Checked(r), Checked(r)], []))
    ensures Run(Initial(db, 2), early + late).Some?
    ensures var s := Run(Initial(db, 2), early + late).value;
            s.tasks == [Idle, Idle] && s.log == [RowInserted(Key(r)), Answered(Key(r), RegisterOk)]
  {
    early := [Check(0, r, false)] + [Check(1, r, false)];
    assert Initial(db, 2).tasks == [Idle, Idle];
    assert Run(Initial(db, 2), []) == Some(Initial(db, 2));
    TwoTasks(Idle, Idle, Checked(r));
    RunOneMore(Initial(db, 2), [], Check(0, r, false), State(db, [Checked(r), Idle], []));
    assert [] + [Check(0, r, false)] == [Check(0, r, false)];
    TwoTasks(Checked(r), Idle, Checked(r));
    RunOneMore(Initial(db, 2), [Check(0, r, false)], Check(1, r, false), State(db, [Checked(r), Checked(r)], []));
    late := OneInserts(db, r, codes, early);
  }

  lemma OneInserts(db: Db, r: Registration, codes: Codes, early: seq<Action>) returns (late: seq<Action>)
    requires Key(r) !in db.users
    requires Run(Initial(db, 2), early) == Some(State(db, [Checked(r), Checked(r)], []))
    ensures Run(Initial(db, 2), early + late).Some?
    ensures var s := Run(Initial(db, 2), early + late).value;
            s.tasks == [Idle, Idle] && s.log == [RowInserted(Key(r)), Answered(Key(r), RegisterOk)]
  {
    var db' := db.(users := db.users[Key(r) := StoredRow(r.pw, codes)]);
    var inserted, answered := RowInserted(Key(r)), Answered(Key(r), RegisterOk);
    assert [] + [inserted] == [inserted] && [inserted] + [answered] == [inserted, answered];
    var e2 := early + [Resolve(0, Some(codes))];
    TwoTasks(Checked(r), Checked(r), Resolved(r, codes));
    RunOneMore(Initial(db, 2), early, Resolve(0, Some(codes)), State(db, [Resolved(r, codes), Checked(r)], []));
    var e3 := e2 + [Resolve(1, Some(codes))];
    TwoTasks(Resolved(r, codes), Checked(r), Resolved(r, codes));
    RunOneMore(Initial(db, 2), e2, Resolve(1, Some(codes)), State(db, [Resolved(r, codes), Resolved(r, codes)], []));
    var e4 := e3 + [TryInsert(0, false)];
    TwoTasks(Resolved(r, codes), Resolved(r, codes), Inserted(r));
    RunOneMore(Initial(db, 2), e3, TryInsert(0, false), State(db', [Inserted(r), Resolved(r, codes)], [inserted]));
    var e5 := e4 + [TryInsert(1, false)];
    TwoTasks(Inserted(r), Resolved(r, codes), Idle);
    RunOneMore(Initial(db, 2), e4, TryInsert(1, false), State(db', [Inserted(r), Idle], [inserted]));
    var e6 := e5 + [Respond(0)];
    TwoTasks(Inserted(r), Idle, Idle);
    RunOneMore(Initial(db, 2), e5, Respond(0), State(db', [Idle, Idle], [inserted, answered]));
    late := e6[|early|..];
    assert early + late == e6;
  }

  lemma TwoTasks(x: Task, y: Task, z: Task)
    ensures [x, y][0 := z] == [z, y] && [x, y][1 := z] == [x, z]
  {
  }

  /** An UPDATE or DELETE in one step changes the tables as the sequential handler does. */
  lemma ExecuteIsServe(s: State, t: nat, p: Parsed, env: Env)
    requires t < |s.tasks| && s.tasks[t].Idle? && (p.cmd.Update? || p.cmd.Delete?)
    requires Decide(s.db, p, env).Statement?
    ensures var s' := Step(s, Execute(t, Decide(s.db, p, env).op));
            s'.Some? && s'.value.db == ServeParsed(s.db, p, env).db && s'.value.tasks == s.tasks
  {
  }

  // ----- A login among other threads -----

  predicate Spares(steps: seq<Action>, t: nat) {
    forall k :: 0 <= k < |steps| ==> steps[k].t != t
  }

  predicate Deletes(a: Action, id: Bytes) {
    a.Execute? && a.op == Op.Delete(id)
  }

  predicate Updates(a: Action, id: Bytes) {
    a.Execute? && a.op.Update? && a.op.id == id
  }

  lemma OtherStep(s: State, a: Action, t: nat, id: Bytes)
    requires Step(s, a).Some? && a.t != t && t < |s.tasks|
    ensures var s' := Step(s, a).value;
            |s'.tasks| == |s.tasks| && s'.tasks[t] == s.tasks[t] &&
            (id in s.db.users && !Deletes(a, id) ==>
               && id in s'.db.users && s'.db.users[id].role == s.db.users[id].role
               && (!Updates(a, id) ==> s'.db.users[id] == s.db.users[id]))
  {
  }

  lemma {:induction false} OtherSteps(s: State, steps: seq<Action>, t: nat, id: Bytes)
    requires Run(s, steps).Some? && Spares(steps, t) && t < |s.tasks|
    ensures var s' := Run(s, steps).value;
            |s'.tasks| == |s.tasks| && s'.tasks[t] == s.tasks[t] &&
            (id in s.db.users && (forall a :: a in steps ==> !Deletes(a, id)) ==>
               && id in s'.db.users && s'.db.users[id].role == s.db.users[id].role
               && ((forall a :: a in steps ==> !Updates(a, id)) ==> s'.db.users[id] == s.db.users[id]))
    decreases |steps|
  {
    if steps != [] {
      var front, last := steps[..|steps| - 1], steps[|steps| - 1];
      OtherSteps(s, front, t, id);
      OtherStep(Run(s, front).value, last, t, id);
      assert last in steps && forall a :: a in front ==> a in steps;
    }
  }

  /** What a login whose password was right is told, whatever other threads do before its row is fetched: the
      row as it then is. Unless the id was deleted meanwhile, it is granted with the role it had; unless it
      was updated either, the answer is that of a login nothing came between. */
  lemma InterleavedLogin(s: State, t: nat, p: Parsed, env: Env, between: seq<Action>)
    requires t < |s.tasks| && s.tasks[t].Idle? && p.cmd.Login? && p.id.Some? && p.pw.Some? && env.faults == {}
    requires p.id.value in s.db.users && s.db.users[p.id.value].pw == p.pw.value && Spares(between, t)
    requires Run(Goto(s, t, Verified(p.id.value)), between).Some?
    ensures Step(s, Verify(t, p.id.value, p.pw.value, false)) == Some(Goto(s, t, Verified(p.id.value)))
    ensures var id := p.id.value;
            var s' := Run(Goto(s, t, Verified(id)), between).value;
            var reply := LoginReply(s'.db, id, false);
            t < |s'.tasks| &&
            Step(s', FetchRow(t, false)) == Some(Record(Goto(s', t, Idle), Told(t, reply))) &&
            ((forall a :: a in between ==> !Deletes(a, id)) ==>
               && reply.status == 1 && s'.db.users[id].role == s.db.users[id].role
               && ((forall a :: a in between ==> !Updates(a, id)) ==>
                     [reply] == ServeParsed(s.db, p, env).replies))
  {
    OtherSteps(Goto(s, t, Verified(p.id.value)), between, t, p.id.value);
  }

  /** With an update between the two statements the login is told codes that go with another password: no
      state of the tables gives that answer to a login of its own. */
  lemma LoginMixesStates(s: State, id: Bytes, pw: Bytes, pw': Bytes, codes: Codes)
    requires s.tasks == [Idle, Idle] && id in s.db.users && s.db.users[id].pw == pw != pw'
    requires var row := StoredRow(pw', codes);
             UserData(s.db.users[id].(pw := row.pw, edu := row.edu, school := row.school)) != UserData(s.db.users[id])
    requires |pw'| < MAX_PW_LEN
    ensures var row := StoredRow(pw', codes);
            var op := Op.Update(id, row.pw, row.edu, row.school);
            var after := Apply(s.db, op).0;
            var reply := LoginReply(after, id, false);
            Run(s, [Verify(0, id, pw, false), Execute(1, op), FetchRow(0, false)])
            == Some(State(after, [Idle, Idle], s.log + [Told(0, reply)])) &&
            forall p: Parsed, env: Env :: p.cmd.Login? && p.id == Some(id) && p.pw == Some(pw) ==>
              ServeParsed(s.db, p, env).replies != [reply] && ServeParsed(after, p, env).replies != [reply]
  {
    var row := StoredRow(pw', codes);
    assert row.pw == pw';
    var op := Op.Update(id, row.pw, row.edu, row.school);
    var after := Apply(s.db, op).0;
    LoginAcrossUpdate(s, id, op, after);
    forall p: Parsed, env: Env | p.cmd.Login? && p.id == Some(id) && p.pw == Some(pw)
      ensures ServeParsed(s.db, p, env).replies != [LoginReply(after, id, false)]
      ensures ServeParsed(after, p, env).replies != [LoginReply(after, id, false)]
    {
      LoginRepliesDiffer(s.db, after, p, env);
    }
  }

  lemma LoginRepliesDiffer(before: Db, after: Db, p: Parsed, env: Env)
    requires p.cmd.Login? && p.id.Some? && p.pw.Some? && p.id.value in before.users && p.id.value in after.users
    requires UserData(before.users[p.id.value]) != UserData(after.users[p.id.value])
    requires after.users[p.id.value].pw != p.pw.value
    ensures ServeParsed(before, p, env).replies != [LoginReply(after, p.id.value, false)]
    ensures ServeParsed(after, p, env).replies != [LoginReply(after, p.id.value, false)]
  {
  }

  lemma LoginAcrossUpdate(s: State, id: Bytes, op: Op, after: Db)
    requires s.tasks == [Idle, Idle] && id in s.db.users && op.Update? && after == Apply(s.db, op).0
    ensures Run(s, [Verify(0, id, s.db.users[id].pw, false), Execute(1, op), FetchRow(0, false)])
            == Some(State(after, [Idle, Idle], s.log + [Told(0, LoginReply(after, id, false))]))
  {
    var s1 := Goto(s, 0, Verified(id));
    var s2 := s1.(db := after);
    var s3 := Record(Goto(s2, 0, Idle), Told(0, LoginReply(after, id, false)));
    VerifyStep(s, 0, id);
    UpdateStep(s1, 1, op);
    FetchStep(s2, 0, id);
    ThreeSteps(s, Verify(0, id, s.db.users[id].pw, false), Execute(1, op), FetchRow(0, false), s1, s2, s3);
    BackToIdle(s.tasks, Verified(id));
  }

  lemma BackToIdle(tasks: seq<Task>, task: Task)
    requires tasks == [Idle, Idle]
    ensures tasks[0 := task][1] == Idle && tasks[0 := task][0 := Idle] == [Idle, Idle]
  {
  }

  lemma VerifyStep(s: State, t: nat, id: Bytes)
    requires t < |s.tasks| && s.tasks[t].Idle? && id in s.db.users
    ensures Step(s, Verify(t, id, s.db.users[id].pw, false)) == Some(Goto(s, t, Verified(id)))
  {
  }

  lemma UpdateStep(s: State, t: nat, op: Op)
    requires t < |s.tasks| && s.tasks[t].Idle? && op.Update?
    ensures Step(s, Execute(t, op)) == Some(s.(db := Apply(s.db, op).0))
  {
  }

  lemma FetchStep(s: State, t: nat, id: Bytes)
    requires t < |s.tasks| && s.tasks[t] == Verified(id)
    ensures Step(s, FetchRow(t, false)) == Some(Record(Goto(s, t, Idle), Told(t, LoginReply(s.db, id, false))))
  {
  }

  lemma ThreeSteps(s: State, a: Action, b: Action, c: Action, s1: State, s2: State, s3: State)
    requires Step(s, a) == Some(s1) && Step(s1, b) == Some(s2) && Step(s2, c) == Some(s3)
    ensures Run(s, [a, b, c]) == Some(s3)
  {
    assert Run(s, []) == Some(s);
    RunOneMore(s, [], a, s1);
    assert [] + [a] == [a];
    RunOneMore(s, [a], b, s2);
    RunOneMore(s, [a] + [b], c, s3);
    assert [a] + [b] + [c] == [a, b, c];
  }

  // ----- Child links among other threads -----

  lemma StepKeepsSound(s: State, a: Action)
    requires Sound(s.db) && Step(s, a).Some?
    ensures Sound(Step(s, a).value.db)
  {
    if a.Execute? {
      ApplyKeepsSound(s.db, a.op);
    } else if a.TryInsert? {
      var task := s.tasks[a.t];
      ApplyKeepsSound(s.db, Insert(Key(task.r), StoredRow(task.r.pw, task.codes)));
    } else if a.AddLink? {
      ApplyKeepsSound(s.db, Link(s.tasks[a.t].child, s.tasks[a.t].parent));
    } else if a.DropLink? {
      ApplyKeepsSound(s.db, Unlink(s.tasks[a.t].child, s.tasks[a.t].parent));
    }
  }

  /** In every interleaving both ends of every child link stay users. */
  lemma {:induction false} RunsKeepSound(s: State, steps: seq<Action>)
    requires Sound(s.db) && Run(s, steps).Some?
    ensures Sound(Run(s, steps).value.db)
    decreases |steps|
  {
    if steps != [] {
      RunsKeepSound(s, steps[..|steps| - 1]);
      StepKeepsSound(Run(s, steps[..|steps| - 1]).value, steps[|steps| - 1]);
    }
  }

  predicate TouchesLink(a: Action, child: Bytes, parent: Bytes) {
    Deletes(a, child) || Deletes(a, parent) || a.AddLink? || a.DropLink? || a.TryInsert?
  }

  lemma {:induction false} LinkUntouched(s: State, steps: seq<Action>, child: Bytes, parent: Bytes)
    requires Run(s, steps).Some? && forall a :: a in steps ==> !TouchesLink(a, child, parent)
    ensures var db := Run(s, steps).value.db;
            && (child in db.users <==> child in s.db.users) && (parent in db.users <==> parent in s.db.users)
            && db.children == s.db.children
    decreases |steps|
  {
    if steps != [] {
      var front, last := steps[..|steps| - 1], steps[|steps| - 1];
      assert last in steps && forall a :: a in front ==> a in steps;
      LinkUntouched(s, front, child, parent);
    }
  }

  /** What an ADD_CHILD whose child was found is told, whatever comes in between: ADD_CHILD_OK exactly when child
      and parent then are users and the pair is new, and the database error otherwise, a child deleted in
      between included. Unless the two ids or a link were touched it is the answer of a request alone. */
  lemma InterleavedAddChild(s: State, t: nat, p: Parsed, env: Env, between: seq<Action>)
    requires t < |s.tasks| && s.tasks[t].Idle? && p.cmd.AddChild? && p.id.Some? && p.child.Some? && env.faults == {}
    requires p.child.value in s.db.users && Spares(between, t)
    requires Run(Goto(s, t, Linking(p.child.value, p.id.value)), between).Some?
    ensures var child, parent := p.child.value, p.id.value;
            var s' := Run(Goto(s, t, Linking(child, parent)), between).value;
            var reply := if Fits(s'.db, child, parent) then Reply(1, AddChildOk, []) else Reply(0, DbError, []);
            && Step(s, FindChild(t, child, parent, false)) == Some(Goto(s, t, Linking(child, parent)))
            && Step(s', AddLink(t, false)).Some?
            && Step(s', AddLink(t, false)).value.log == s'.log + [Told(t, reply)]
            && ((forall a :: a in between ==> !TouchesLink(a, child, parent)) ==>
                  [reply] == ServeParsed(s.db, p, env).replies)
  {
    var child, parent := p.child.value, p.id.value;
    OtherSteps(Goto(s, t, Linking(child, parent)), between, t, child);
    var s' := Run(Goto(s, t, Linking(child, parent)), between).value;
    FindChildStep(s, t, child, parent);
    AddLinkStep(s', t, child, parent);
    if forall a :: a in between ==> !TouchesLink(a, child, parent) {
      LinkUntouched(Goto(s, t, Linking(child, parent)), between, child, parent);
      AddChildAlone(s.db, p, env);
    }
  }

  predicate Fits(db: Db, child: Bytes, parent: Bytes) {
    child in db.users && parent in db.users && (child, parent) !in db.children
  }

  lemma FindChildStep(s: State, t: nat, child: Bytes, parent: Bytes)
    requires t < |s.tasks| && s.tasks[t].Idle? && child in s.db.users
    ensures Step(s, FindChild(t, child, parent, false)) == Some(Goto(s, t, Linking(child, parent)))
  {
  }

  lemma AddLinkStep(s: State, t: nat, child: Bytes, parent: Bytes)
    requires t < |s.tasks| && s.tasks[t] == Linking(child, parent)
    ensures Step(s, AddLink(t, false)) ==
            Some(if Fits(s.db, child, parent)
                 then Record(Goto(s, t, Idle).(db := s.db.(children := s.db.children + {(child, parent)})),
                             Told(t, Reply(1, AddChildOk, [])))
                 else Record(Goto(s, t, Idle), Told(t, Reply(0, DbError, []))))
  {
  }

  lemma AddChildAlone(db: Db, p: Parsed, env: Env)
    requires p.cmd.AddChild? && p.id.Some? && p.child.Some? && p.child.value in db.users && env.faults == {}
    ensures ServeParsed(db, p, env).replies ==
            if Fits(db, p.child.value, p.id.value) then Ok(AddChildOk, []) else Error(DbError)
  {
  }

  /** With the child deleted in between the request is told of a database error, which, for a stored parent and
      a new pair, neither the state before nor the state after tells a request of its own. */
  lemma AddChildMixesStates(s: State, child: Bytes, parent: Bytes)
    requires s.tasks == [Idle, Idle] && child != parent && child in s.db.users && parent in s.db.users
    requires !Linked(s.db, child)
    ensures var after := Apply(s.db, Op.Delete(child)).0;
            var run := Run(s, [FindChild(0, child, parent, false), Execute(1, Op.Delete(child)), AddLink(0, false)]);
            run.Some? && run.value.db == after &&
            run.value.log == s.log + [RowRemoved(child), Told(0, Reply(0, DbError, []))] &&
            forall p: Parsed, env: Env ::
              p.cmd.AddChild? && p.id == Some(parent) && p.child == Some(child) && env.faults == {} ==>
              && ServeParsed(s.db, p, env).replies == Ok(AddChildOk, [])
              && ServeParsed(after, p, env).replies == Error(ChildUserNotFound)
  {
    var after := Apply(s.db, Op.Delete(child)).0;
    var s1 := Goto(s, 0, Linking(child, parent));
    var s2 := Record(s1.(db := after), RowRemoved(child));
    var s3 := Record(Goto(s2, 0, Idle), Told(0, Reply(0, DbError, [])));
    FindChildStep(s, 0, child, parent);
    BackToIdle(s.tasks, Linking(child, parent));
    DeleteStep(s1, 1, child);
    AddLinkStep(s2, 0, child, parent);
    ThreeSteps(s, FindChild(0, child, parent, false), Execute(1, Op.Delete(child)), AddLink(0, false), s1, s2, s3);
    assert s.log + [RowRemoved(child)] + [Told(0, Reply(0, DbError, []))] ==
           s.log + [RowRemoved(child), Told(0, Reply(0, DbError, []))];
    forall p: Parsed, env: Env | p.cmd.AddChild? && p.id == Some(parent) && p.child == Some(child) && env.faults == {}
      ensures ServeParsed(s.db, p, env).replies == Ok(AddChildOk, [])
      ensures ServeParsed(after, p, env).replies == Error(ChildUserNotFound)
    {
      AddChildBeforeAndAfter(s.db, after, p, env);
    }
  }

  lemma DeleteStep(s: State, t: nat, id: Bytes)
    requires t < |s.tasks| && s.tasks[t].Idle? && id in s.db.users && !Linked(s.db, id)
    ensures Step(s, Execute(t, Op.Delete(id))) ==
            Some(Record(s.(db := Apply(s.db, Op.Delete(id)).0), RowRemoved(id)))
  {
  }

  lemma AddChildBeforeAndAfter(before: Db, after: Db, p: Parsed, env: Env)
    requires p.cmd.AddChild? && p.id.Some? && p.child.Some? && env.faults == {}
    requires p.child.value in before.users && p.id.value in before.users && !Linked(before, p.child.value)
    requires p.child.value !in after.users
    ensures ServeParsed(before, p, env).replies == Ok(AddChildOk, [])
    ensures ServeParsed(after, p, env).replies == Error(ChildUserNotFound)
  {
  }

  /** What a DEL_CHILD whose link was found is told: success, and the link is gone, even if another thread had
      removed it first. */
  lemma InterleavedDelChild(s: State, t: nat, child: Bytes, parent: Bytes, between: seq<Action>)
    requires t < |s.tasks| && s.tasks[t].Idle? && (child, parent) in s.db.children && Spares(between, t)
    requires Run(Goto(s, t, Unlinking(child, parent)), between).Some?
    ensures var s' := Run(Goto(s, t, Unlinking(child, parent)), between).value;
            && Step(s, FindLink(t, child, parent, false)) == Some(Goto(s, t, Unlinking(child, parent)))
            && Step(s', DropLink(t, false)).Some?
            && Step(s', DropLink(t, false)).value.log == s'.log + [Told(t, Reply(1, DelChildOk, []))]
            && Step(s', DropLink(t, false)).value.db == s'.db.(children := s'.db.children - {(child, parent)})
  {
    OtherSteps(Goto(s, t, Unlinking(child, parent)), between, t, child);
  }
}
