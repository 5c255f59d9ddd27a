/** The server's connection table as a step system: the accept loop and the handler threads share
    client_sockets[] and one lock; the operating system may hand out a closed handle value again.
    Runs end before shutdown. */
module ConnectionTable {
  import opened Options

  const MAX_CLIENTS := 10

  datatype Holder = Nobody | MainThread | HandlerThread(t: nat)

  /** Where main stands in its accept loop; `sock` is its client_socket, `i` its loop index. */
  datatype MainPc =
    | Accepting
    | Accepted(sock: int)
    | Scanning(sock: int, i: nat)
    | Unlocking(sock: int, i: nat)
    | Placed(sock: int, i: nat)
    | Failing(sock: int, i: nat)    // CreateThread failed: close client_sockets[i] ...
    | Clearing(sock: int, i: nat)   // ... then zero it

  datatype HandlerPc =
    | Fresh                         // has not read *arg yet
    | Serving(sock: int)
    | WantLock(sock: int)
    | Searching(sock: int, i: nat)
    | Releasing(sock: int)          // search over, lock still held
    | Closing(sock: int)
    | Exited

  /** A handler thread: the slot its argument points at, and (for the record) the connection it was started for. */
  datatype Handler = Handler(conn: nat, slot: nat, pc: HandlerPc)

  /** `accepted[c]` is the handle value of connection c, `os` the open handles, `closed` the connections
      closed so far, `strayCloses` the closes of a handle that was not open. */
  datatype State = State(
    slots: seq<int>, lock: Holder, main: MainPc, handlers: seq<Handler>,
    accepted: seq<int>, os: map<int, nat>, closed: seq<nat>, strayCloses: nat)

  const INITIAL := State([0, 0, 0, 0, 0, 0, 0, 0, 0, 0], Nobody, Accepting, [], [], map[], [], 0)

  datatype Action =
    | Accept(handle: int)
    | MainLock | MainScan | MainUnlock
    | MainDispatch(created: bool)
    | MainFailClose | MainFailClear
    | HandlerStart(t: nat) | HandlerStop(t: nat)
    | HandlerLock(t: nat) | HandlerSearch(t: nat) | HandlerUnlock(t: nat) | HandlerClose(t: nat)

  /** The order at the end of handle_client; the source clears its slot first. */
  datatype Order = ClearThenClose | CloseThenClear

  function Close(s: State, handle: int): State {
    if handle in s.os then s.(os := s.os - {handle}, closed := s.closed + [s.os[handle]])
    else s.(strayCloses := s.strayCloses + 1)
  }

  function MainStep(s: State, a: Action): Option<State>
    requires |s.slots| == MAX_CLIENTS
  {
    match (a, s.main)
    case (Accept(h), Accepting) =>
      if h != 0 && h !in s.os then
        Some(s.(main := Accepted(h), accepted := s.accepted + [h], os := s.os[h := |s.accepted|]))
      else None
    case (MainLock, Accepted(sock)) =>
      if s.lock.Nobody? then Some(s.(main := Scanning(sock, 0), lock := MainThread)) else None
    case (MainScan, Scanning(sock, i)) =>
      if i >= MAX_CLIENTS then Some(s.(main := Unlocking(sock, MAX_CLIENTS)))
      else if s.slots[i] == 0 then Some(s.(main := Unlocking(sock, i), slots := s.slots[i := sock]))
      else Some(s.(main := Scanning(sock, i + 1)))
    case (MainUnlock, Unlocking(sock, i)) =>
      Some(s.(main := Placed(sock, i), lock := Nobody))
    case (MainDispatch(created), Placed(sock, i)) =>
      if i >= MAX_CLIENTS then Some(Close(s, sock).(main := Accepting))
      else if created && s.accepted != [] then
        Some(s.(main := Accepting, handlers := s.handlers + [Handler(|s.accepted| - 1, i, Fresh)]))
      else Some(s.(main := Failing(sock, i)))
    case (MainFailClose, Failing(sock, i)) =>
      if i < MAX_CLIENTS then Some(Close(s, s.slots[i]).(main := Clearing(sock, i))) else None
    case (MainFailClear, Clearing(sock, i)) =>
      if i < MAX_CLIENTS then Some(s.(main := Accepting, slots := s.slots[i := 0])) else None
    case _ => None
  }

  function Goto(s: State, t: nat, pc: HandlerPc): State
    requires t < |s.handlers|
  {
    s.(handlers := s.handlers[t := s.handlers[t].(pc := pc)])
  }

  function HandlerStep(s: State, a: Action, t: nat, order: Order): Option<State>
    requires |s.slots| == MAX_CLIENTS && t < |s.handlers|
  {
    var h := s.handlers[t];
    match (a, h.pc)
    case (HandlerStart(_), Fresh) =>
      if h.slot < MAX_CLIENTS then Some(Goto(s, t, Serving(s.slots[h.slot]))) else None
    case (HandlerStop(_), Serving(sock)) =>
      Some(Goto(s, t, if order.ClearThenClose? then WantLock(sock) else Closing(sock)))
    case (HandlerLock(_), WantLock(sock)) =>
      if s.lock.Nobody? then Some(Goto(s, t, Searching(sock, 0)).(lock := HandlerThread(t))) else None
    case (HandlerSearch(_), Searching(sock, i)) =>
      if i >= MAX_CLIENTS then Some(Goto(s, t, Releasing(sock)))
      else if s.slots[i] == sock then Some(Goto(s, t, Releasing(sock)).(slots := s.slots[i := 0]))
      else Some(Goto(s, t, Searching(sock, i + 1)))
    case (HandlerUnlock(_), Releasing(sock)) =>
      Some(Goto(s, t, if order.ClearThenClose? then Closing(sock) else Exited).(lock := Nobody))
    case (HandlerClose(_), Closing(sock)) =>
      Some(Goto(Close(s, sock), t, if order.ClearThenClose? then Exited else WantLock(sock)))
    case _ => None
  }

  predicate OfHandler(a: Action) {
    a.HandlerStart? || a.HandlerStop? || a.HandlerLock? || a.HandlerSearch? || a.HandlerUnlock? || a.HandlerClose?
  }

  function Step(s: State, a: Action, order: Order): Option<State> {
    if |s.slots| != MAX_CLIENTS then None
    else if OfHandler(a) then (if a.t < |s.handlers| then HandlerStep(s, a, a.t, order) else None)
    else MainStep(s, a)
  }

  /** The state after a sequence of steps, None if one of them was not possible. */
  function Run(s: State, steps: seq<Action>, order: Order): Option<State> {
    if steps == [] then Some(s) else
      match Run(s, steps[..|steps| - 1], order)
      case None => None
      case Some(s') => Step(s', steps[|steps| - 1], order)
  }

  // ----- The invariant -----

  /** Connection c still has its handle open. */
  predicate Live(s: State, c: nat) {
    c < |s.accepted| && s.accepted[c] in s.os && s.os[s.accepted[c]] == c
  }

  predicate Books(s: State) {
    && |s.slots| == MAX_CLIENTS && s.strayCloses == 0
    && (forall h :: h in s.os ==> h != 0 && s.os[h] < |s.accepted| && s.accepted[s.os[h]] == h)
    && (forall c :: 0 <= c < |s.accepted| ==> (c in s.closed <==> !Live(s, c)))
    && (forall k :: 0 <= k < |s.closed| ==> s.closed[k] < |s.accepted|)
    && (forall j, k :: 0 <= j < k < |s.closed| ==> s.closed[j] != s.closed[k])
  }

  predicate AtSlot(pc: MainPc) {
    pc.Unlocking? || pc.Placed? || pc.Failing? || pc.Clearing?
  }

  /** Main is responsible for the newest connection. */
  predicate InHand(s: State) {
    !s.main.Accepting? && !s.main.Clearing?
  }

  predicate MainSlot(s: State, i: int) {
    AtSlot(s.main) && s.main.i == i
  }

  predicate MainOk(s: State)
    requires |s.slots| == MAX_CLIENTS
  {
    && (!s.main.Accepting? ==> s.accepted != [] && s.main.sock == s.accepted[|s.accepted| - 1])
    && (!s.main.Accepting? ==> forall t :: 0 <= t < |s.handlers| ==> s.handlers[t].conn != |s.accepted| - 1)
    && (InHand(s) ==> Live(s, |s.accepted| - 1))
    && (s.main.Scanning? ==> s.main.i <= MAX_CLIENTS && forall k :: 0 <= k < s.main.i ==> s.slots[k] != 0)
    && (s.main.Unlocking? && s.main.i == MAX_CLIENTS ==> forall k :: 0 <= k < MAX_CLIENTS ==> s.slots[k] != 0)
    && (AtSlot(s.main) && s.main.i != MAX_CLIENTS ==> s.main.i < MAX_CLIENTS && s.slots[s.main.i] == s.main.sock)
    && (s.main.Failing? || s.main.Clearing? ==> s.main.i < MAX_CLIENTS)
    && (s.main.Clearing? ==> s.main.sock !in s.os && s.main.sock != 0)
    && (s.lock.MainThread? <==> s.main.Scanning? || s.main.Unlocking?)
  }

  predicate HasSlot(pc: HandlerPc) {
    pc.Fresh? || pc.Serving? || pc.WantLock? || pc.Searching?
  }

  predicate HandlerOk(s: State, t: nat)
    requires t < |s.handlers| && |s.slots| == MAX_CLIENTS
  {
    var h := s.handlers[t];
    && h.conn < |s.accepted| && h.slot < MAX_CLIENTS
    && (h.pc.Exited? <==> !Live(s, h.conn))
    && (HasSlot(h.pc) ==> s.slots[h.slot] == s.accepted[h.conn])
    && (!h.pc.Fresh? && !h.pc.Exited? ==> h.pc.sock == s.accepted[h.conn])
    && (h.pc.Searching? ==> h.pc.i <= h.slot)
    && (h.pc.Searching? || h.pc.Releasing? ==> s.lock == HandlerThread(t))
  }

  predicate HandlersOk(s: State)
    requires |s.slots| == MAX_CLIENTS
  {
    && (forall t :: 0 <= t < |s.handlers| ==> HandlerOk(s, t))
    && (forall t, u :: 0 <= t < u < |s.handlers| ==> s.handlers[t].conn != s.handlers[u].conn)
    && (s.lock.HandlerThread? ==>
          && s.lock.t < |s.handlers|
          && (s.handlers[s.lock.t].pc.Searching? || s.handlers[s.lock.t].pc.Releasing?))
  }

  predicate Holds(s: State, t: int, i: int) {
    0 <= t < |s.handlers| && s.handlers[t].slot == i && HasSlot(s.handlers[t].pc)
  }

  predicate Serves(s: State, t: int, c: nat) {
    0 <= t < |s.handlers| && s.handlers[t].conn == c && !s.handlers[t].pc.Exited?
  }

  ghost predicate Owned(s: State)
    requires |s.slots| == MAX_CLIENTS
  {
    && (forall i :: 0 <= i < MAX_CLIENTS && s.slots[i] != 0 ==> MainSlot(s, i) || exists t :: Holds(s, t, i))
    && (forall c: nat :: Live(s, c) ==> (InHand(s) && c == |s.accepted| - 1) || exists t :: Serves(s, t, c))
  }

  ghost predicate Inv(s: State) {
    Books(s) && MainOk(s) && HandlersOk(s) && Owned(s)
  }

  // ----- Every step keeps it -----

  /** A nonzero slot belongs to one connection: main's newest, or one handler's. */
  lemma SlotOwner(s: State, i: int) returns (c: nat, t: int)
    requires Inv(s) && 0 <= i < MAX_CLIENTS && s.slots[i] != 0
    ensures c < |s.accepted| && s.slots[i] == s.accepted[c]
    ensures MainSlot(s, i) ==> c == |s.accepted| - 1
    ensures !MainSlot(s, i) ==> Holds(s, t, i) && s.handlers[t].conn == c
    ensures Live(s, c) || (s.main.Clearing? && s.main.i == i)
  {
    if MainSlot(s, i) {
      c, t := |s.accepted| - 1, -1;
    } else {
      t :| Holds(s, t, i);
      assert HandlerOk(s, t);
      c := s.handlers[t].conn;
    }
  }

  lemma SlotsDistinct(s: State, i: int, j: int)
    requires Inv(s) && 0 <= i < j < MAX_CLIENTS && s.slots[i] != 0
    ensures s.slots[i] != s.slots[j]
  {
    var c, t := SlotOwner(s, i);
    if s.slots[j] != 0 {
      var d, u := SlotOwner(s, j);
    }
  }

  /** Two handlers never share a slot. */
  lemma SlotsNotShared(s: State, t: nat, u: nat)
    requires Inv(s) && t < |s.handlers| && u < |s.handlers| && t != u
    requires HasSlot(s.handlers[t].pc) && HasSlot(s.handlers[u].pc)
    ensures s.handlers[t].slot != s.handlers[u].slot
  {
    assert HandlerOk(s, t) && HandlerOk(s, u);
    assert Live(s, s.handlers[t].conn) && Live(s, s.handlers[u].conn);
    var a, b := if t < u then t else u, if t < u then u else t;
    assert s.handlers[a].conn != s.handlers[b].conn;
  }

  lemma MainKeepsBooks(s: State, a: Action)
    requires Inv(s) && MainStep(s, a).Some?
    ensures Books(MainStep(s, a).value)
  {
    var s' := MainStep(s, a).value;
    if a.MainDispatch? || a.MainFailClose? {
      CloseKeepsBooks(s, s.main.sock);
    } else if a.Accept? {
      AcceptKeepsBooks(s, a.handle);
    } else {
      assert forall c :: 0 <= c < |s.accepted| ==> Live(s', c) == Live(s, c);
    }
  }

  lemma AcceptKeepsBooks(s: State, handle: int)
    requires Books(s) && s.main.Accepting? && handle != 0 && handle !in s.os
    ensures Books(MainStep(s, Accept(handle)).value)
  {
    var s' := MainStep(s, Accept(handle)).value;
    assert forall c :: 0 <= c < |s.accepted| ==> Live(s', c) == Live(s, c);
  }

  /** Closing an open handle closes its connection and no other. */
  lemma CloseKeepsBooks(s: State, handle: int)
    requires Books(s) && handle in s.os
    ensures Books(Close(s, handle))
    ensures forall c :: 0 <= c < |s.accepted| ==> Live(Close(s, handle), c) == (Live(s, c) && c != s.os[handle])
  {
    var s' := Close(s, handle);
    assert Live(s, s.os[handle]);
    assert forall c :: 0 <= c < |s.accepted| ==> Live(s', c) == (Live(s, c) && c != s.os[handle]);
    assert forall c :: c in s'.closed <==> c in s.closed || c == s.os[handle];
  }

  lemma MainKeepsMain(s: State, a: Action)
    requires Inv(s) && MainStep(s, a).Some?
    ensures MainOk(MainStep(s, a).value)
  {
    forall t | 0 <= t < |s.handlers|
      ensures s.handlers[t].conn < |s.accepted|
    {
      assert HandlerOk(s, t);
    }
  }

  lemma MainKeepsHandler(s: State, a: Action, t: nat)
    requires Inv(s) && MainStep(s, a).Some? && t < |s.handlers|
    ensures t < |MainStep(s, a).value.handlers| && MainStep(s, a).value.handlers[t] == s.handlers[t]
    ensures Books(MainStep(s, a).value) && HandlerOk(MainStep(s, a).value, t)
  {
    MainKeepsBooks(s, a);
    assert HandlerOk(s, t);
  }

  lemma MainKeepsHandlers(s: State, a: Action)
    requires Inv(s) && MainStep(s, a).Some?
    ensures Books(MainStep(s, a).value) && HandlersOk(MainStep(s, a).value)
  {
    MainKeepsBooks(s, a);
    var s' := MainStep(s, a).value;
    forall t | 0 <= t < |s'.handlers|
      ensures HandlerOk(s', t)
    {
      if t < |s.handlers| { MainKeepsHandler(s, a, t); }
    }
  }

  lemma MainKeepsOwned(s: State, a: Action)
    requires Inv(s) && MainStep(s, a).Some?
    ensures Books(MainStep(s, a).value) && Owned(MainStep(s, a).value)
  {
    MainKeepsBooks(s, a);
    var s' := MainStep(s, a).value;
    forall i | 0 <= i < MAX_CLIENTS && s'.slots[i] != 0 && !MainSlot(s', i)
      ensures exists t :: Holds(s', t, i)
    {
      if a.MainDispatch? && MainSlot(s, i) {
        assert Holds(s', |s.handlers|, i);
      } else {
        var c, t := SlotOwner(s, i);
        assert Holds(s', t, i);
      }
    }
    forall c: nat | Live(s', c) && !(InHand(s') && c == |s'.accepted| - 1)
      ensures exists t :: Serves(s', t, c)
    {
      if a.MainDispatch? && c == |s.accepted| - 1 {
        assert Serves(s', |s.handlers|, c);
      } else {
        var t :| Serves(s, t, c);
        assert Serves(s', t, c);
      }
    }
  }

  ghost predicate CanStep(s: State, a: Action) {
    Inv(s) && OfHandler(a) && a.t < |s.handlers| && HandlerStep(s, a, a.t, ClearThenClose).Some?
  }

  function Stepped(s: State, a: Action): State
    requires |s.slots| == MAX_CLIENTS && OfHandler(a) && a.t < |s.handlers|
    requires HandlerStep(s, a, a.t, ClearThenClose).Some?
  {
    HandlerStep(s, a, a.t, ClearThenClose).value
  }

  /** The search meets the handler's own slot and no other slot with that handle value. */
  lemma SearchHitsOwnSlot(s: State, t: nat)
    requires Inv(s) && t < |s.handlers| && s.handlers[t].pc.Searching?
    ensures var h := s.handlers[t];
            h.conn < |s.accepted| && h.pc.i <= h.slot < MAX_CLIENTS &&
            s.slots[h.slot] == h.pc.sock == s.accepted[h.conn] != 0
    ensures var h := s.handlers[t];
            forall i :: 0 <= i < MAX_CLIENTS && s.slots[i] == h.pc.sock ==> i == h.slot
  {
    var h := s.handlers[t];
    assert HandlerOk(s, t) && Live(s, h.conn);
    forall i | 0 <= i < MAX_CLIENTS && s.slots[i] == h.pc.sock
      ensures i == h.slot
    {
      if i < h.slot { SlotsDistinct(s, i, h.slot); }
      if h.slot < i { SlotsDistinct(s, h.slot, i); }
    }
  }

  lemma HandlerKeepsBooks(s: State, a: Action)
    requires CanStep(s, a)
    ensures Books(Stepped(s, a))
    ensures forall c :: 0 <= c < |s.accepted| ==>
            Live(Stepped(s, a), c) == (Live(s, c) && !(a.HandlerClose? && c == s.handlers[a.t].conn))
  {
    var s', h := Stepped(s, a), s.handlers[a.t];
    assert HandlerOk(s, a.t);
    if a.HandlerClose? {
      assert Live(s, h.conn);
      CloseKeepsBooks(s, h.pc.sock);
      var u := Close(s, h.pc.sock);
      assert forall c :: 0 <= c < |s.accepted| ==> Live(s', c) == Live(u, c);
    } else {
      assert forall c :: 0 <= c < |s.accepted| ==> Live(s', c) == Live(s, c);
    }
  }

  /** Handler steps leave every other slot and every other handler alone. */
  lemma HandlerFrame(s: State, a: Action)
    requires CanStep(s, a)
    ensures var s', h := Stepped(s, a), s.handlers[a.t];
            h.conn < |s.accepted| &&
            forall i :: 0 <= i < MAX_CLIENTS && s'.slots[i] != s.slots[i] ==>
              i == h.slot && s.slots[i] == s.accepted[h.conn] && s'.slots[i] == 0 && s'.handlers[a.t].pc.Releasing?
    ensures var s' := Stepped(s, a);
            |s'.handlers| == |s.handlers| && s'.accepted == s.accepted && s'.main == s.main &&
            s'.handlers[a.t].conn == s.handlers[a.t].conn && s'.handlers[a.t].slot == s.handlers[a.t].slot &&
            forall u :: 0 <= u < |s.handlers| && u != a.t ==> s'.handlers[u] == s.handlers[u]
  {
    assert HandlerOk(s, a.t);
    if a.HandlerSearch? { SearchHitsOwnSlot(s, a.t); }
  }

  lemma HandlerKeepsMain(s: State, a: Action)
    requires CanStep(s, a)
    ensures MainOk(Stepped(s, a))
  {
    HandlerKeepsBooks(s, a);
    HandlerFrame(s, a);
    var s', h := Stepped(s, a), s.handlers[a.t];
    assert HandlerOk(s, a.t);
    assert HasSlot(h.pc) ==> Live(s, h.conn);
  }

  lemma HandlerKeepsSelf(s: State, a: Action)
    requires CanStep(s, a)
    ensures HandlerOk(Stepped(s, a), a.t)
  {
    HandlerKeepsBooks(s, a);
    assert HandlerOk(s, a.t);
    if a.HandlerSearch? { SearchHitsOwnSlot(s, a.t); }
  }

  lemma HandlerKeepsOther(s: State, a: Action, u: nat)
    requires CanStep(s, a) && u < |s.handlers| && u != a.t
    ensures HandlerOk(Stepped(s, a), u)
  {
    HandlerKeepsBooks(s, a);
    HandlerFrame(s, a);
    assert HandlerOk(s, a.t) && HandlerOk(s, u);
    var h, g := s.handlers[a.t], s.handlers[u];
    if HasSlot(g.pc) && HasSlot(h.pc) { SlotsNotShared(s, a.t, u); }
  }

  lemma HandlerKeepsHandlers(s: State, a: Action)
    requires CanStep(s, a)
    ensures HandlersOk(Stepped(s, a))
  {
    var s' := Stepped(s, a);
    HandlerFrame(s, a);
    forall u | 0 <= u < |s'.handlers|
      ensures HandlerOk(s', u)
    {
      if u == a.t { HandlerKeepsSelf(s, a); } else { HandlerKeepsOther(s, a, u); }
    }
    assert HandlerOk(s, a.t);
  }

  lemma HandlerKeepsOwned(s: State, a: Action)
    requires CanStep(s, a)
    ensures Owned(Stepped(s, a))
  {
    HandlerKeepsBooks(s, a);
    HandlerFrame(s, a);
    var s', h := Stepped(s, a), s.handlers[a.t];
    assert HandlerOk(s, a.t);
    if a.HandlerSearch? { SearchHitsOwnSlot(s, a.t); }
    forall i | 0 <= i < MAX_CLIENTS && s'.slots[i] != 0 && !MainSlot(s', i)
      ensures exists t :: Holds(s', t, i)
    {
      var c, t := SlotOwner(s, i);
      assert Holds(s', t, i);
    }
    forall c: nat | Live(s', c) && !(InHand(s') && c == |s'.accepted| - 1)
      ensures exists t :: Serves(s', t, c)
    {
      var t :| Serves(s, t, c);
      assert Serves(s', t, c);
    }
  }

  lemma StepKeepsInv(s: State, a: Action)
    requires Inv(s) && Step(s, a, ClearThenClose).Some?
    ensures Inv(Step(s, a, ClearThenClose).value)
  {
    if OfHandler(a) {
      HandlerKeepsBooks(s, a);
      HandlerKeepsMain(s, a);
      HandlerKeepsHandlers(s, a);
      HandlerKeepsOwned(s, a);
    } else {
      MainKeepsHandlers(s, a);
      MainKeepsMain(s, a);
      MainKeepsOwned(s, a);
    }
  }

  lemma {:induction false} RunKeepsInv(steps: seq<Action>)
    requires Run(INITIAL, steps, ClearThenClose).Some?
    ensures Inv(Run(INITIAL, steps, ClearThenClose).value)
    decreases |steps|
  {
    if steps != [] {
      RunKeepsInv(steps[..|steps| - 1]);
      StepKeepsInv(Run(INITIAL, steps[..|steps| - 1], ClearThenClose).value, steps[|steps| - 1]);
    }
  }

  // ----- What it means for runs -----

  ghost predicate Reachable(s: State, steps: seq<Action>) {
    Run(INITIAL, steps, ClearThenClose) == Some(s)
  }

  /** In every reachable state nonzero slots hold pairwise distinct handles, and open ones, except exactly the
      slot main is about to zero after a failed CreateThread. */
  lemma SlotsHoldOpenHandles(s: State, steps: seq<Action>)
    requires Reachable(s, steps)
    ensures |s.slots| == MAX_CLIENTS
    ensures forall i, j :: 0 <= i < j < MAX_CLIENTS && s.slots[i] != 0 ==> s.slots[i] != s.slots[j]
    ensures forall i :: 0 <= i < MAX_CLIENTS && s.slots[i] != 0 ==>
              (s.slots[i] in s.os <==> !(s.main.Clearing? && s.main.i == i))
  {
    RunKeepsInv(steps);
    forall i, j | 0 <= i < j < MAX_CLIENTS && s.slots[i] != 0
      ensures s.slots[i] != s.slots[j]
    {
      SlotsDistinct(s, i, j);
    }
    forall i | 0 <= i < MAX_CLIENTS && s.slots[i] != 0
      ensures s.slots[i] in s.os <==> !(s.main.Clearing? && s.main.i == i)
    {
      var c, t := SlotOwner(s, i);
    }
  }

  /** However late a handler starts, what it reads through its argument is the handle main accepted
      for it, still open; and it works on that handle until it ends. */
  lemma HandlerReadsItsHandle(s: State, steps: seq<Action>, t: nat)
    requires Reachable(s, steps) && t < |s.handlers| && !s.handlers[t].pc.Exited?
    ensures var h := s.handlers[t]; h.conn < |s.accepted| && Live(s, h.conn)
    ensures var h := s.handlers[t];
            if h.pc.Fresh? then h.slot < |s.slots| && s.slots[h.slot] == s.accepted[h.conn]
            else h.pc.sock == s.accepted[h.conn]
  {
    RunKeepsInv(steps);
    assert HandlerOk(s, t);
  }

  /** A handler step writes at most one slot: its own, from its own handle to zero. And a handler that has
      ended its search has written it. */
  lemma HandlerReleasesItsSlot(s: State, s': State, steps: seq<Action>, a: Action)
    requires Reachable(s, steps) && OfHandler(a) && Step(s, a, ClearThenClose) == Some(s')
    ensures a.t < |s.handlers| && |s.slots| == |s'.slots| == MAX_CLIENTS
    ensures var h := s.handlers[a.t];
            h.conn < |s.accepted| && h.slot < MAX_CLIENTS &&
            if a.HandlerSearch? && s'.handlers[a.t].pc.Releasing?
            then s.slots[h.slot] == s.accepted[h.conn] && s'.slots == s.slots[h.slot := 0]
            else s'.slots == s.slots
  {
    RunKeepsInv(steps);
    assert HandlerOk(s, a.t);
    if a.HandlerSearch? { SearchHitsOwnSlot(s, a.t); }
  }

  /** No accepted handle is closed twice, none is closed by anyone but its owner, none is lost: each
      connection is closed once or is open in the hands of main or of one handler. */
  lemma ConnectionsAccounted(s: State, steps: seq<Action>, c: nat)
    requires Reachable(s, steps) && c < |s.accepted|
    ensures s.strayCloses == 0
    ensures forall j, k :: 0 <= j < k < |s.closed| ==> s.closed[j] != s.closed[k]
    ensures c in s.closed <==> !Live(s, c)
    ensures Live(s, c) <==> (InHand(s) && c == |s.accepted| - 1) || exists t :: Serves(s, t, c)
    ensures forall t, u :: Serves(s, t, c) && Serves(s, u, c) ==> t == u
    ensures InHand(s) && c == |s.accepted| - 1 ==> !exists t :: Serves(s, t, c)
  {
    RunKeepsInv(steps);
    forall t | Serves(s, t, c)
      ensures Live(s, c)
    {
      assert HandlerOk(s, t);
    }
  }

  /** Slot `i` is nonzero and a handler still holds it. */
  ghost predicate Taken(s: State, i: int)
    requires 0 <= i < |s.slots|
  {
    s.slots[i] != 0 && exists t :: Holds(s, t, i)
  }

  /** Main turns a connection away only when, while it holds the lock, every slot is taken, each by a
      different handler that has not released it. */
  lemma TurnedAwayOnlyWhenFull(s: State, steps: seq<Action>)
    requires Reachable(s, steps) && s.main.Unlocking? && s.main.i == MAX_CLIENTS
    ensures s.lock == MainThread && |s.slots| == MAX_CLIENTS
    ensures forall i :: 0 <= i < MAX_CLIENTS ==> Taken(s, i)
  {
    RunKeepsInv(steps);
    FullScan(s);
  }

  lemma FullScan(s: State)
    requires Inv(s) && s.main.Unlocking? && s.main.i == MAX_CLIENTS
    ensures forall i :: 0 <= i < MAX_CLIENTS ==> Taken(s, i)
  {
    forall i | 0 <= i < MAX_CLIENTS
      ensures Taken(s, i)
    {
      var c, t := SlotOwner(s, i);
    }
  }

  ghost function Holders(s: State, below: nat): set<int> {
    set t | 0 <= t < |s.handlers| && HasSlot(s.handlers[t].pc) && s.handlers[t].slot < below
  }

  ghost function HoldersOf(s: State, i: nat): set<int> {
    set t | 0 <= t < |s.handlers| && HasSlot(s.handlers[t].pc) && s.handlers[t].slot == i
  }

  lemma AtMostOneHolder(s: State, i: nat)
    requires Inv(s)
    ensures |HoldersOf(s, i)| <= 1
  {
    var hs := HoldersOf(s, i);
    if hs != {} {
      var t :| t in hs;
      if hs != {t} {
        var u :| u in hs && u != t;
        SlotsNotShared(s, t, u);
      }
    }
  }

  lemma {:induction false} HoldersCount(s: State, below: nat)
    requires Inv(s)
    ensures |Holders(s, below)| <= below
    decreases below
  {
    if below == 0 {
      assert Holders(s, 0) == {};
    } else {
      HoldersCount(s, below - 1);
      AtMostOneHolder(s, below - 1);
      SplitHolders(s, below - 1);
    }
  }

  lemma SplitHolders(s: State, i: nat)
    ensures Holders(s, i + 1) == Holders(s, i) + HoldersOf(s, i)
    ensures |Holders(s, i + 1)| <= |Holders(s, i)| + |HoldersOf(s, i)|
  {
    assert Holders(s, i + 1) == Holders(s, i) + HoldersOf(s, i);
    UnionSize(Holders(s, i), HoldersOf(s, i));
  }

  lemma UnionSize(a: set<int>, b: set<int>)
    ensures |a + b| <= |a| + |b|
  {
    assert a + b == a + (b - a);
  }

  /** At most MAX_CLIENTS handlers hold a slot. */
  lemma AtMostTen(s: State, steps: seq<Action>)
    requires Reachable(s, steps)
    ensures |set t | 0 <= t < |s.handlers| && HasSlot(s.handlers[t].pc)| <= MAX_CLIENTS
  {
    RunKeepsInv(steps);
    HoldersCount(s, MAX_CLIENTS);
    forall t | 0 <= t < |s.handlers|
      ensures s.handlers[t].slot < MAX_CLIENTS
    {
      assert HandlerOk(s, t);
    }
    assert Holders(s, MAX_CLIENTS) == set t | 0 <= t < |s.handlers| && HasSlot(s.handlers[t].pc);
  }

  // ----- Why the order matters -----

  ghost predicate CloseFirstReaches(s: State) {
    exists steps :: Run(INITIAL, steps, CloseThenClear) == Some(s)
  }

  lemma Go(s: State, a: Action, s': State)
    requires CloseFirstReaches(s) && Step(s, a, CloseThenClear) == Some(s')
    ensures CloseFirstReaches(s')
  {
    var steps :| Run(INITIAL, steps, CloseThenClear) == Some(s);
    assert (steps + [a])[..|steps|] == steps;
    assert Run(INITIAL, steps + [a], CloseThenClear) == Some(s');
  }

  /** The state after a connection with handle `h` has been accepted into slot `i`. */
  function Connected(s: State, h: int, i: nat): State
    requires i < |s.slots|
  {
    s.(slots := s.slots[i := h], handlers := s.handlers + [Handler(|s.accepted|, i, Fresh)],
       accepted := s.accepted + [h], os := s.os[h := |s.accepted|])
  }

  function AcceptedState(s: State, h: int, main: MainPc, lock: Holder): State {
    s.(main := main, lock := lock, accepted := s.accepted + [h], os := s.os[h := |s.accepted|])
  }

  lemma ConnectScan(s: State, h: int, i: nat)
    requires CloseFirstReaches(s) && s.main.Accepting? && s.lock.Nobody?
    requires |s.slots| == MAX_CLIENTS && h != 0 && h !in s.os && i <= 1 && (i == 1 ==> s.slots[0] != 0)
    ensures CloseFirstReaches(AcceptedState(s, h, Scanning(h, i), MainThread))
  {
    Go(s, Accept(h), AcceptedState(s, h, Accepted(h), Nobody));
    Go(AcceptedState(s, h, Accepted(h), Nobody), MainLock, AcceptedState(s, h, Scanning(h, 0), MainThread));
    if i == 1 {
      Go(AcceptedState(s, h, Scanning(h, 0), MainThread), MainScan, AcceptedState(s, h, Scanning(h, 1), MainThread));
    }
  }

  lemma Connect(s: State, h: int, i: nat)
    requires CloseFirstReaches(s) && s.main.Accepting? && s.lock.Nobody?
    requires |s.slots| == MAX_CLIENTS && h != 0 && h !in s.os
    requires i <= 1 && s.slots[i] == 0 && (i == 1 ==> s.slots[0] != 0)
    ensures CloseFirstReaches(Connected(s, h, i))
  {
    ConnectPlace(s, h, i);
    Go(AcceptedState(s, h, Placed(h, i), Nobody).(slots := s.slots[i := h]), MainDispatch(true), Connected(s, h, i));
  }

  lemma ConnectPlace(s: State, h: int, i: nat)
    requires CloseFirstReaches(s) && s.main.Accepting? && s.lock.Nobody?
    requires |s.slots| == MAX_CLIENTS && h != 0 && h !in s.os
    requires i <= 1 && s.slots[i] == 0 && (i == 1 ==> s.slots[0] != 0)
    ensures CloseFirstReaches(AcceptedState(s, h, Placed(h, i), Nobody).(slots := s.slots[i := h]))
  {
    ConnectScan(s, h, i);
    var s4 := AcceptedState(s, h, Unlocking(h, i), MainThread).(slots := s.slots[i := h]);
    Go(AcceptedState(s, h, Scanning(h, i), MainThread), MainScan, s4);
    Go(s4, MainUnlock, AcceptedState(s, h, Placed(h, i), Nobody).(slots := s.slots[i := h]));
  }

  /** Handler `t`, fresh in slot 0 or 1, starts and closes first. */
  lemma StartAndClose(s: State, t: nat) returns (s': State)
    requires CloseFirstReaches(s) && |s.slots| == MAX_CLIENTS && t < |s.handlers|
    requires s.handlers[t].pc.Fresh? && s.handlers[t].slot < MAX_CLIENTS && s.slots[s.handlers[t].slot] in s.os
    ensures CloseFirstReaches(s')
    ensures s' == Goto(Close(s, s.slots[s.handlers[t].slot]), t, WantLock(s.slots[s.handlers[t].slot]))
  {
    var sock := s.slots[s.handlers[t].slot];
    var s2 := StartAndStop(s, t, sock);
    CloseOne(s2, t, sock);
    assert Goto(s2, t, WantLock(sock)).handlers == Goto(s, t, WantLock(sock)).handlers;
    s' := Goto(Close(s2, sock), t, WantLock(sock));
  }

  lemma CloseOne(s: State, t: nat, sock: int)
    requires CloseFirstReaches(s) && |s.slots| == MAX_CLIENTS && t < |s.handlers|
    requires s.handlers[t].pc == Closing(sock)
    ensures CloseFirstReaches(Goto(Close(s, sock), t, WantLock(sock)))
  {
    Go(s, HandlerClose(t), Goto(Close(s, sock), t, WantLock(sock)));
  }

  lemma StartAndStop(s: State, t: nat, sock: int) returns (s': State)
    requires CloseFirstReaches(s) && |s.slots| == MAX_CLIENTS && t < |s.handlers|
    requires s.handlers[t].pc.Fresh? && s.handlers[t].slot < MAX_CLIENTS && sock == s.slots[s.handlers[t].slot]
    ensures CloseFirstReaches(s') && s' == Goto(s, t, Closing(sock))
  {
    var s1 := Goto(s, t, Serving(sock));
    Go(s, HandlerStart(t), s1);
    s' := Goto(s1, t, Closing(sock));
    Go(s1, HandlerStop(t), s');
    assert s'.handlers == s.handlers[t := s.handlers[t].(pc := Closing(sock))];
  }

  /** Its search finds its handle value in slot 0. */
  lemma SearchFirstSlot(s: State, t: nat) returns (s': State)
    requires CloseFirstReaches(s) && |s.slots| == MAX_CLIENTS && t < |s.handlers| && s.lock.Nobody?
    requires s.handlers[t].pc == WantLock(s.slots[0])
    ensures CloseFirstReaches(s')
    ensures s' == Goto(s, t, Releasing(s.slots[0])).(slots := s.slots[0 := 0], lock := HandlerThread(t))
  {
    var s1 := Goto(s, t, Searching(s.slots[0], 0)).(lock := HandlerThread(t));
    Go(s, HandlerLock(t), s1);
    s' := Goto(s1, t, Releasing(s.slots[0])).(slots := s.slots[0 := 0]);
    Go(s1, HandlerSearch(t), s');
    assert s'.handlers == s.handlers[t := s.handlers[t].(pc := Releasing(s.slots[0]))];
  }

  /** Were handlers to close before they clear, with handle values reused, a handler could clear the slot
      of a newer connection, and that connection's handler would then read a handle it was not given. */
  lemma CloseFirstFails() returns (s: State)
    ensures CloseFirstReaches(s)
    ensures |s.slots| == MAX_CLIENTS && |s.handlers| == |s.accepted| == 3
    ensures s.handlers[1] == Handler(1, 1, Releasing(5)) && s.slots[0] == 0 && s.slots[1] == 5
    ensures s.handlers[2] == Handler(2, 0, Serving(0)) && s.accepted[2] == 5 && Live(s, 2)
  {
    var s2 := FirstHalf();
    var s3 := StartAndClose(s2, 0);
    var s4 := SearchFirstSlot(s3, 0);
    var s5 := Goto(s4, 0, Exited).(lock := Nobody);
    Go(s4, HandlerUnlock(0), s5);
    var s6 := StartAndClose(s5, 1);
    s := SecondHalf(s6);
  }

  lemma FirstHalf() returns (s: State)
    ensures CloseFirstReaches(s)
    ensures s == State([4, 5, 0, 0, 0, 0, 0, 0, 0, 0], Nobody, Accepting, [Handler(0, 0, Fresh), Handler(1, 1, Fresh)],
                       [4, 5], map[4 := 0, 5 := 1], [], 0)
  {
    assert Run(INITIAL, [], CloseThenClear) == Some(INITIAL);
    Connect(INITIAL, 4, 0);
    s := Connected(Connected(INITIAL, 4, 0), 5, 1);
    Connect(Connected(INITIAL, 4, 0), 5, 1);
  }

  lemma SecondHalf(s6: State) returns (s: State)
    requires CloseFirstReaches(s6) && s6.slots == [0, 5, 0, 0, 0, 0, 0, 0, 0, 0]
    requires s6.lock.Nobody? && s6.main.Accepting?
    requires |s6.handlers| == 2 && s6.handlers[1] == Handler(1, 1, WantLock(5)) && |s6.accepted| == 2 && 5 !in s6.os
    ensures CloseFirstReaches(s)
    ensures |s.slots| == MAX_CLIENTS && |s.handlers| == |s.accepted| == 3
    ensures s.handlers[1] == Handler(1, 1, Releasing(5)) && s.slots[0] == 0 && s.slots[1] == 5
    ensures s.handlers[2] == Handler(2, 0, Serving(0)) && s.accepted[2] == 5 && Live(s, 2)
  {
    Connect(s6, 5, 0);
    var s7 := Connected(s6, 5, 0);
    var s8 := SearchFirstSlot(s7, 1);
    s := Goto(s8, 2, Serving(0));
    Go(s8, HandlerStart(2), s);
  }
}
