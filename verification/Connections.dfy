/** What the connection table's threads do next in every reachable state, and why a connection is closed. */
module Connections {
  import opened ConnectionTable
  import opened Options

  /** One step of the source's order. */
  function Next(s: State, a: Action): Option<State> {
    Step(s, a, ClearThenClose)
  }

  function Newest(s: State): int {
    |s.accepted| - 1
  }

  /** Handle and connection gone from the open ones. */
  function Closed(s: State, handle: int, c: nat): State {
    s.(os := s.os - {handle}, closed := s.closed + [c])
  }

  // Every reachable state satisfies Inv (RunKeepsInv).

  // ----- Main -----

  /** A connection that found a slot and whose thread is created is served: nothing is closed, and exactly one
      handler is added, fresh, for this connection and this slot. */
  lemma PlacedIsServed(s: State)
    requires Inv(s) && s.main.Placed? && s.main.i < MAX_CLIENTS
    ensures s.accepted != [] && s.main.sock == s.accepted[Newest(s)] == s.slots[s.main.i]
    ensures Next(s, MainDispatch(true)) ==
            Some(s.(main := Accepting, handlers := s.handlers + [Handler(Newest(s), s.main.i, Fresh)]))
  {
  }

  /** Only without a thread is it closed again, and its slot zeroed. */
  lemma FailedIsUndone(s: State)
    requires Inv(s)
    ensures s.main.Placed? && s.main.i < MAX_CLIENTS ==>
              Next(s, MainDispatch(false)) == Some(s.(main := Failing(s.main.sock, s.main.i)))
    ensures s.main.Failing? ==>
              s.accepted != [] && Next(s, MainFailClose) ==
              Some(Closed(s, s.main.sock, Newest(s)).(main := Clearing(s.main.sock, s.main.i)))
    ensures s.main.Clearing? ==>
              s.main.i < |s.slots| &&
              Next(s, MainFailClear) == Some(s.(main := Accepting, slots := s.slots[s.main.i := 0]))
  {
    if s.main.Failing? { FailedIsClosed(s); }
  }

  lemma FailedIsClosed(s: State)
    requires Inv(s) && s.main.Failing?
    ensures s.accepted != [] && Next(s, MainFailClose) ==
            Some(Closed(s, s.main.sock, Newest(s)).(main := Clearing(s.main.sock, s.main.i)))
  {
    assert Live(s, Newest(s));
  }

  /** One that found none is closed. */
  lemma FullIsClosed(s: State, created: bool)
    requires Inv(s) && s.main.Placed? && s.main.i >= MAX_CLIENTS
    ensures s.accepted != [] && s.main.sock == s.accepted[Newest(s)]
    ensures Next(s, MainDispatch(created)) == Some(Closed(s, s.main.sock, Newest(s)).(main := Accepting))
  {
    assert Live(s, Newest(s));
  }

  /** Up to there main takes any new handle, waits for the lock only, and scans for the first zero slot. */
  lemma MainGoesOn(s: State)
    requires Inv(s)
    ensures |s.slots| == MAX_CLIENTS
    ensures s.main.Accepting? ==> forall h :: h != 0 && h !in s.os ==>
              Next(s, Accept(h)) ==
              Some(s.(main := Accepted(h), accepted := s.accepted + [h], os := s.os[h := |s.accepted|]))
    ensures s.main.Accepted? && s.lock.Nobody? ==>
              Next(s, MainLock) == Some(s.(main := Scanning(s.main.sock, 0), lock := MainThread))
    ensures s.main.Scanning? ==>
              s.main.i <= MAX_CLIENTS &&
              var sock, i := s.main.sock, s.main.i;
              Next(s, MainScan) ==
              if i == MAX_CLIENTS then Some(s.(main := Unlocking(sock, i)))
              else if s.slots[i] == 0 then Some(s.(main := Unlocking(sock, i), slots := s.slots[i := sock]))
              else Some(s.(main := Scanning(sock, i + 1)))
    ensures s.main.Unlocking? ==>
              Next(s, MainUnlock) == Some(s.(main := Placed(s.main.sock, s.main.i), lock := Nobody))
  {
  }

  // ----- Handlers -----

  /** A handler goes from its start to its end: it reads the handle accepted for it, stops, waits for the lock
      only, searches up to its own slot, zeroes it, unlocks, closes its connection and exits. */
  lemma HandlerGoesOn(s: State, t: nat)
    requires Inv(s) && t < |s.handlers|
    ensures var h := s.handlers[t];
            h.conn < |s.accepted| && h.slot < |s.slots| == MAX_CLIENTS &&
            var sock := s.accepted[h.conn];
            match h.pc
            case Fresh => Next(s, HandlerStart(t)) == Some(Goto(s, t, Serving(sock)))
            case Serving(_) => Next(s, HandlerStop(t)) == Some(Goto(s, t, WantLock(sock)))
            case WantLock(_) =>
              s.lock.Nobody? ==>
                Next(s, HandlerLock(t)) == Some(Goto(s, t, Searching(sock, 0)).(lock := HandlerThread(t)))
            case Searching(_, i) =>
              i <= h.slot &&
              Next(s, HandlerSearch(t)) ==
              if i < h.slot then Some(Goto(s, t, Searching(sock, i + 1)))
              else Some(Goto(s, t, Releasing(sock)).(slots := s.slots[h.slot := 0]))
            case Releasing(_) => Next(s, HandlerUnlock(t)) == Some(Goto(s, t, Closing(sock)).(lock := Nobody))
            case Closing(_) => Next(s, HandlerClose(t)) == Some(Goto(Closed(s, sock, h.conn), t, Exited))
            case Exited => h.conn in s.closed
  {
    assert HandlerOk(s, t);
    match s.handlers[t].pc
    case Searching(_, _) => SearchMeetsOwnSlot(s, t);
    case Closing(_) => HandlerCloses(s, t);
    case _ =>
  }

  lemma HandlerCloses(s: State, t: nat)
    requires Inv(s) && t < |s.handlers| && s.handlers[t].pc.Closing?
    ensures var h := s.handlers[t];
            h.conn < |s.accepted| &&
            Next(s, HandlerClose(t)) == Some(Goto(Closed(s, s.accepted[h.conn], h.conn), t, Exited))
  {
    assert HandlerOk(s, t);
    assert Live(s, s.handlers[t].conn);
  }


  lemma SearchMeetsOwnSlot(s: State, t: nat)
    requires Inv(s) && t < |s.handlers| && s.handlers[t].pc.Searching?
    ensures var h := s.handlers[t];
            h.slot < MAX_CLIENTS && h.pc.i <= h.slot && s.slots[h.slot] == h.pc.sock &&
            forall k :: 0 <= k < h.slot ==> s.slots[k] != h.pc.sock
  {
    assert HandlerOk(s, t);
    var h := s.handlers[t];
    assert Live(s, h.conn);
    forall k | 0 <= k < h.slot
      ensures s.slots[k] != h.pc.sock
    {
      if s.slots[k] != 0 { SlotsDistinct(s, k, h.slot); }
    }
  }

  // ----- Why a connection is closed -----

  /** The run was in state `u` after `k` of its steps. */
  ghost predicate At(steps: seq<Action>, k: nat, u: State) {
    k <= |steps| && Run(INITIAL, steps[..k], ClearThenClose) == Some(u)
  }

  /** Its own handler closed it. */
  ghost predicate ClosedByHandler(steps: seq<Action>, c: nat) {
    exists k: nat, u: State :: At(steps, k, u) && k < |steps| && steps[k].HandlerClose? &&
                   steps[k].t < |u.handlers| && u.handlers[steps[k].t].conn == c
  }

  /** Main's scan for it, under the lock, ended with every slot taken. */
  ghost predicate FoundFull(steps: seq<Action>, c: nat) {
    exists k: nat, u: State :: At(steps, k, u) && u.main.Unlocking? && u.main.i == MAX_CLIENTS && Newest(u) == c &&
                   |u.slots| == MAX_CLIENTS && forall i :: 0 <= i < MAX_CLIENTS ==> Taken(u, i)
  }

  /** Its thread could not be created. */
  ghost predicate ThreadFailed(steps: seq<Action>, c: nat) {
    exists k: nat, u: State :: At(steps, k, u) && k < |steps| && steps[k] == MainDispatch(false) &&
                   u.main.Placed? && u.main.i < MAX_CLIENTS && Newest(u) == c
  }

  ghost predicate Reasoned(steps: seq<Action>, c: nat) {
    ClosedByHandler(steps, c) || FoundFull(steps, c) || ThreadFailed(steps, c)
  }

  lemma AtLonger(front: seq<Action>, a: Action, k: nat, u: State)
    requires At(front, k, u)
    ensures At(front + [a], k, u)
  {
    assert (front + [a])[..k] == front[..k];
  }

  lemma HandlerReasonLasts(front: seq<Action>, a: Action, c: nat)
    requires ClosedByHandler(front, c)
    ensures ClosedByHandler(front + [a], c)
  {
    var k: nat, u: State :| At(front, k, u) && k < |front| && front[k].HandlerClose? &&
                            front[k].t < |u.handlers| && u.handlers[front[k].t].conn == c;
    AtLonger(front, a, k, u);
    assert (front + [a])[k] == front[k];
  }

  lemma FullReasonLasts(front: seq<Action>, a: Action, c: nat)
    requires FoundFull(front, c)
    ensures FoundFull(front + [a], c)
  {
    var k: nat, u: State :| At(front, k, u) && u.main.Unlocking? && u.main.i == MAX_CLIENTS && Newest(u) == c &&
                            |u.slots| == MAX_CLIENTS && forall i :: 0 <= i < MAX_CLIENTS ==> Taken(u, i);
    AtLonger(front, a, k, u);
  }

  lemma ThreadReasonLasts(front: seq<Action>, a: Action, c: nat)
    requires ThreadFailed(front, c)
    ensures ThreadFailed(front + [a], c)
  {
    var k: nat, u: State :| At(front, k, u) && k < |front| && front[k] == MainDispatch(false) &&
                            u.main.Placed? && u.main.i < MAX_CLIENTS && Newest(u) == c;
    AtLonger(front, a, k, u);
    assert (front + [a])[k] == front[k];
  }

  lemma ReasonsLast(front: seq<Action>, a: Action, c: nat)
    ensures Reasoned(front, c) ==> Reasoned(front + [a], c)
  {
    if ClosedByHandler(front, c) { HandlerReasonLasts(front, a, c); }
    if FoundFull(front, c) { FullReasonLasts(front, a, c); }
    if ThreadFailed(front, c) { ThreadReasonLasts(front, a, c); }
  }

  /** The reasons so far, and the one in preparation. */
  ghost predicate History(s: State, steps: seq<Action>) {
    && (forall c :: c in s.closed ==> Reasoned(steps, c))
    && (s.main.Placed? && s.main.i >= MAX_CLIENTS ==> s.accepted != [] && FoundFull(steps, Newest(s)))
    && (s.main.Failing? ==> s.accepted != [] && ThreadFailed(steps, Newest(s)))
  }

  lemma StepKeepsHistory(s: State, front: seq<Action>, a: Action, s': State)
    requires Reachable(s, front) && History(s, front) && Next(s, a) == Some(s')
    ensures History(s', front + [a])
  {
    var steps := front + [a];
    assert front[..|front|] == front;
    AtLonger(front, a, |front|, s);
    RunKeepsInv(front);
    if OfHandler(a) { HandlerHistory(s, steps, a, s'); } else { MainHistory(s, front, a, s'); }
    forall c | c in s'.closed
      ensures Reasoned(steps, c)
    {
      ReasonsLast(front, a, c);
      if c !in s.closed && !OfHandler(a) {
        if s.main.Failing? { ThreadReasonLasts(front, a, c); } else { FullReasonLasts(front, a, c); }
      }
    }
    if OfHandler(a) {
      if s.main.Placed? && s.main.i >= MAX_CLIENTS { FullReasonLasts(front, a, Newest(s)); }
      if s.main.Failing? { ThreadReasonLasts(front, a, Newest(s)); }
    }
  }

  lemma HandlerHistory(s: State, steps: seq<Action>, a: Action, s': State)
    requires Inv(s) && OfHandler(a) && Next(s, a) == Some(s')
    requires steps != [] && steps[|steps| - 1] == a && At(steps, |steps| - 1, s)
    ensures s'.main == s.main && s'.accepted == s.accepted
    ensures forall c :: c in s'.closed ==> c in s.closed || ClosedByHandler(steps, c)
  {
    assert HandlerOk(s, a.t);
    if a.HandlerClose? { assert ClosedByHandler(steps, s.handlers[a.t].conn); }
  }

  lemma MainHistory(s: State, front: seq<Action>, a: Action, s': State)
    requires Reachable(s, front) && !OfHandler(a) && Next(s, a) == Some(s') && At(front + [a], |front|, s)
    ensures forall c :: c in s'.closed ==>
              || c in s.closed
              || (c == Newest(s) && (s.main.Failing? || (s.main.Placed? && s.main.i >= MAX_CLIENTS)))
    ensures s'.main.Placed? && s'.main.i >= MAX_CLIENTS ==>
              s'.accepted == s.accepted != [] && FoundFull(front + [a], Newest(s))
    ensures s'.main.Failing? ==> s'.accepted == s.accepted != [] && ThreadFailed(front + [a], Newest(s))
  {
    RunKeepsInv(front);
    var steps := front + [a];
    assert steps[|front|] == a;
    MainCloses(s, a, s');
    if s'.main.Placed? && s'.main.i >= MAX_CLIENTS {
      TurnedAwayOnlyWhenFull(s, front);
      assert FoundFull(steps, Newest(s));
    }
    if s'.main.Failing? {
      FailsWithoutThread(s, a, s');
      assert ThreadFailed(steps, Newest(s));
    }
  }

  lemma MainCloses(s: State, a: Action, s': State)
    requires Inv(s) && !OfHandler(a) && Next(s, a) == Some(s')
    ensures forall c :: c in s'.closed ==>
              || c in s.closed
              || (c == Newest(s) && (s.main.Failing? || (s.main.Placed? && s.main.i >= MAX_CLIENTS)))
  {
    if a.MainDispatch? || a.MainFailClose? { assert Live(s, Newest(s)); }
  }

  lemma FailsWithoutThread(s: State, a: Action, s': State)
    requires Inv(s) && !OfHandler(a) && Next(s, a) == Some(s') && s'.main.Failing?
    ensures a == MainDispatch(false) && s.main.Placed? && s.main.i < MAX_CLIENTS && s'.accepted == s.accepted != []
  {
  }

  lemma {:induction false} RunKeepsHistory(s: State, steps: seq<Action>)
    requires Reachable(s, steps)
    ensures History(s, steps)
    decreases |steps|
  {
    if steps != [] {
      var front, a := steps[..|steps| - 1], steps[|steps| - 1];
      var u := Run(INITIAL, front, ClearThenClose).value;
      RunKeepsHistory(u, front);
      StepKeepsHistory(u, front, a, s);
      assert front + [a] == steps;
    }
  }

  /** In every run a closed connection was closed by its own handler, or turned away after a scan that found
      every slot taken, or given up because its thread could not be created. */
  lemma ClosedForAReason(s: State, steps: seq<Action>, c: nat)
    requires Reachable(s, steps) && c in s.closed
    ensures ClosedByHandler(steps, c) || FoundFull(steps, c) || ThreadFailed(steps, c)
  {
    RunKeepsHistory(s, steps);
  }
}
