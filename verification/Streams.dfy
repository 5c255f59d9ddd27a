/** The client's socket loops. A connection carries the scripted outcomes of its select/send/recv calls;
    the theorems hold for every script, so for every way the stream may be cut into chunks. */
module Streams {
  import opened CStrings
  import opened Options
  import opened Protocol

  /** One round of the send loop: select() not ready, SOCKET_ERROR, or up to `n` bytes taken. */
  datatype SendStep = NotWritable | SendError | Takes(n: nat)

  /** One recv(): SOCKET_ERROR, orderly close, or up to `n` of the bytes that are there. */
  datatype RecvStep = RecvError | Closes | Arrives(n: nat)

  predicate HasDelimiter(s: Bytes) {
    exists i :: 0 <= i < |s| - 1 && s[i] == '/' && s[i + 1] == '/'
  }

  // ----- Sending -----

  /** Outcome of the send loop: bytes handed over, success, script left. */
  function Push(data: Bytes, plan: seq<SendStep>): (r: (nat, bool, seq<SendStep>))
    ensures r.0 <= |data| && (r.1 <==> r.0 == |data|)
    decreases |plan|
  {
    if data == [] then (0, true, plan)
    else if plan == [] then (0, false, [])
    else if !plan[0].Takes? then (0, false, plan[1..])
    else
      var n := Min(plan[0].n, |data|);
      var (m, ok, rest) := Push(data[n..], plan[1..]);
      (n + m, ok, rest)
  }

  /** `result` is `r` with `total` bytes already handed over. */
  predicate Continues(result: (nat, bool, seq<SendStep>), total: nat, r: (nat, bool, seq<SendStep>)) {
    result == (total + r.0, r.1, r.2)
  }

  function Capacity(plan: seq<SendStep>): nat {
    if plan == [] || !plan[0].Takes? then 0 else plan[0].n + Capacity(plan[1..])
  }

  /** The send succeeds exactly when the rounds before the first failure can take all of it; it never
      hands over more, and on failure hands over what they could take. */
  lemma {:induction false} PushCount(data: Bytes, plan: seq<SendStep>)
    ensures Push(data, plan).0 == Min(Capacity(plan), |data|)
    decreases |plan|
  {
    if data != [] && plan != [] && plan[0].Takes? {
      PushCount(data[Min(plan[0].n, |data|)..], plan[1..]);
    }
  }

  predicate AllTake(plan: seq<SendStep>) {
    forall k :: 0 <= k < |plan| ==> plan[k].Takes?
  }

  lemma {:induction false} CapacitySplit(a: seq<SendStep>, b: seq<SendStep>)
    requires AllTake(a)
    ensures Capacity(a + b) == Capacity(a) + Capacity(b)
  {
    if a == [] {
      assert a + b == b;
    } else {
      assert (a + b)[1..] == a[1..] + b;
      CapacitySplit(a[1..], b);
    }
  }

  lemma {:induction false} SteadyCapacity(plan: seq<SendStep>)
    requires AllTake(plan) && forall k :: 0 <= k < |plan| ==> plan[k].n >= 1
    ensures Capacity(plan) >= |plan|
  {
    if plan != [] { SteadyCapacity(plan[1..]); }
  }

  /** With a ready socket that takes something every time, all of it is sent, in however many pieces. */
  lemma SteadySend(data: Bytes, plan: seq<SendStep>)
    requires AllTake(plan) && (forall k :: 0 <= k < |plan| ==> plan[k].n >= 1) && |plan| >= |data|
    ensures Push(data, plan).1 && Push(data, plan).0 == |data|
  {
    SteadyCapacity(plan);
    PushCount(data, plan);
  }

  /** A failure before the rounds have taken everything stops it there. */
  lemma BrokenSend(data: Bytes, before: seq<SendStep>, bad: SendStep, after: seq<SendStep>)
    requires AllTake(before) && !bad.Takes?
    ensures Push(data, before + ([bad] + after)).0 == Min(Capacity(before), |data|)
    ensures Push(data, before + ([bad] + after)).1 <==> Capacity(before) >= |data|
  {
    CapacitySplit(before, [bad] + after);
    PushCount(data, before + ([bad] + after));
  }

  // ----- Receiving -----

  datatype End = Delimited | Full | AtClose | Broken

  /** What one receive_response has read, why it stopped, and what is left. */
  datatype Received = Received(text: Bytes, end: End, incoming: Bytes, plan: seq<RecvStep>)

  /** Bytes the next recv() delivers; 0 is the close, -1 the error. */
  function Delivered(incoming: Bytes, plan: seq<RecvStep>, room: nat): int
    requires room > 0
  {
    if plan == [] || plan[0].Closes? || (plan[0].Arrives? && incoming == []) then 0
    else if plan[0].RecvError? then -1
    else if plan[0].n == 0 then 1
    else Min(plan[0].n, Min(|incoming|, room))
  }

  function Gather(got: Bytes, incoming: Bytes, plan: seq<RecvStep>): Received
    decreases |plan|
  {
    var rest := if plan == [] then [] else plan[1..];
    if |got| >= BUFFER_SIZE - 1 then Received(got, Full, incoming, plan) else
      var n := Delivered(incoming, plan, BUFFER_SIZE - 1 - |got|);
      if n == -1 then Received(got, Broken, incoming, rest)
      else if n == 0 then Received(got, AtClose, incoming, rest)
      else
        var got' := got + incoming[..n];
        if HasDelimiter(got') then Received(got', Delimited, incoming[n..], rest)
        else Gather(got', incoming[n..], rest)
  }

  /** Nothing is lost, nothing invented, and each way of stopping means what it says. */
  lemma {:induction false} GatherSound(got: Bytes, incoming: Bytes, plan: seq<RecvStep>)
    requires |got| < BUFFER_SIZE && !HasDelimiter(got)
    ensures var r := Gather(got, incoming, plan);
            && got <= r.text && r.text + r.incoming == got + incoming && |r.text| < BUFFER_SIZE
            && (r.end.Delimited? <==> HasDelimiter(r.text))
            && (r.end.Delimited? ==> |got| < |r.text|)
            && (r.end.Full? ==> |r.text| == BUFFER_SIZE - 1)
    decreases |plan|
  {
    var room := BUFFER_SIZE - 1 - |got|;
    if room > 0 {
      var n := Delivered(incoming, plan, room);
      if n > 0 {
        var got' := got + incoming[..n];
        assert got' + incoming[n..] == got + incoming;
        if !HasDelimiter(got') { GatherSound(got', incoming[n..], plan[1..]); }
      }
    }
  }

  /** The steps taken are the front of the script, and the last of them accounts for a close or an error. */
  predicate EndedBy(r: Received, plan: seq<RecvStep>) {
    |r.plan| <= |plan| && r.plan == plan[|plan| - |r.plan|..] &&
    var used := |plan| - |r.plan|;
    && (r.end.AtClose? ==> r.plan == plan == [] || r.incoming == [] || (used > 0 && plan[used - 1].Closes?)
                           || (used == |plan| && r.plan == []))
    && (r.end.Broken? ==> used > 0 && plan[used - 1].RecvError?)
  }

  lemma EndedLater(r: Received, plan: seq<RecvStep>)
    requires plan != [] && EndedBy(r, plan[1..])
    ensures EndedBy(r, plan)
  {
    var rest := plan[1..];
    assert rest[|rest| - |r.plan|..] == plan[|plan| - |r.plan|..];
  }

  /** A close or an error reported is that of the last recv() made. */
  lemma {:induction false} GatherEndedBy(got: Bytes, incoming: Bytes, plan: seq<RecvStep>)
    requires |got| < BUFFER_SIZE
    ensures EndedBy(Gather(got, incoming, plan), plan)
    decreases |plan|
  {
    var room := BUFFER_SIZE - 1 - |got|;
    if room > 0 {
      var n := Delivered(incoming, plan, room);
      if n > 0 && !HasDelimiter(got + incoming[..n]) {
        GatherEndedBy(got + incoming[..n], incoming[n..], plan[1..]);
        EndedLater(Gather(got + incoming[..n], incoming[n..], plan[1..]), plan);
      }
    }
  }

  /** What the caller gets: None on error or when nothing came. */
  function ResponseOf(r: Received): Option<Bytes> {
    if r.end.Broken? || r.text == [] then None else Some(r.text)
  }

  /** Up to `calls` receive_response calls in a row, up to the first that fails. */
  function Calls(incoming: Bytes, plan: seq<RecvStep>, calls: nat): seq<Received>
    decreases calls
  {
    if calls == 0 then [] else
      var r := Gather([], incoming, plan);
      if ResponseOf(r).None? then [] else [r] + Calls(r.incoming, r.plan, calls - 1)
  }

  /** The responses of those calls, one after the other. */
  function Concat(rs: seq<Received>): Bytes {
    if rs == [] then [] else rs[0].text + Concat(rs[1..])
  }

  /** Each response contains the delimiter, fills the buffer or ends at the close. */
  predicate GoodResponse(r: Received) {
    r.text != [] && |r.text| < BUFFER_SIZE &&
    match r.end
    case Delimited => HasDelimiter(r.text)
    case Full => |r.text| == BUFFER_SIZE - 1 && !HasDelimiter(r.text)
    case AtClose => !HasDelimiter(r.text)
    case Broken => false
  }

  lemma OneResponse(incoming: Bytes, plan: seq<RecvStep>)
    requires ResponseOf(Gather([], incoming, plan)).Some?
    ensures var r := Gather([], incoming, plan); GoodResponse(r) && r.text + r.incoming == incoming
  {
    GatherSound([], incoming, plan);
    assert [] + incoming == incoming;
  }

  /** However the stream is cut, successive responses concatenate to a prefix of what the server sent,
      and what the last one left is the rest of it. */
  lemma {:induction false} ResponsesArePrefix(incoming: Bytes, plan: seq<RecvStep>, calls: nat)
    ensures var rs := Calls(incoming, plan, calls);
            && Concat(rs) + (if rs == [] then incoming else rs[|rs| - 1].incoming) == incoming
            && (forall k :: 0 <= k < |rs| ==> GoodResponse(rs[k]))
    decreases calls
  {
    if calls > 0 {
      var r := Gather([], incoming, plan);
      if ResponseOf(r).Some? {
        OneResponse(incoming, plan);
        ResponsesArePrefix(r.incoming, r.plan, calls - 1);
        PrefixStep(r, Calls(r.incoming, r.plan, calls - 1), incoming);
      }
    }
  }

  lemma PrefixStep(r: Received, more: seq<Received>, incoming: Bytes)
    requires r.text + r.incoming == incoming
    requires Concat(more) + (if more == [] then r.incoming else more[|more| - 1].incoming) == r.incoming
    ensures var rs := [r] + more; Concat(rs) + rs[|rs| - 1].incoming == incoming
  {
    var rs := [r] + more;
    assert rs[1..] == more;
    var left := if more == [] then r.incoming else more[|more| - 1].incoming;
    assert rs[|rs| - 1].incoming == left;
    assert (r.text + Concat(more)) + left == r.text + (Concat(more) + left);
  }

  /** The stream starts with a status byte and the delimiter. */
  predicate StartsLikeReply(s: Bytes) {
    |s| >= 3 && s[0] != '/' && s[1] == '/' && s[2] == '/'
  }

  lemma FormatStarts(status: int, text: Bytes, data: Bytes)
    ensures StartsLikeReply(Format(status, text, data)) && |Format(status, text, data)| < BUFFER_SIZE
  {
  }

  /** The first "//" of the stream ends with its byte number `need`. */
  predicate DelimiterEndsAt(s: Bytes, need: nat) {
    2 <= need <= |s| && need < BUFFER_SIZE && s[need - 2] == '/' && s[need - 1] == '/'
    && forall k :: 0 <= k < need - 2 ==> !(s[k] == '/' && s[k + 1] == '/')
  }

  /** Bytes read once a recv() has brought the total to `need` or more, of a stream `length` long; None when
      an error or the close comes first. */
  function Stop(need: nat, got: nat, length: nat, plan: seq<RecvStep>): (total: Option<nat>)
    requires got < need < BUFFER_SIZE
    ensures total.Some? ==> need <= total.value <= length
    decreases |plan|
  {
    if plan == [] || !plan[0].Arrives? || got >= length then None else
      var chunk := if plan[0].n == 0 then 1 else plan[0].n;
      var total := got + Min(chunk, Min(length - got, BUFFER_SIZE - 1 - got));
      if total >= need then Some(total) else Stop(need, total, length, plan[1..])
  }

  lemma ChunkSize(incoming: Bytes, plan: seq<RecvStep>, room: nat)
    requires room > 0 && plan != [] && plan[0].Arrives? && incoming != []
    ensures Delivered(incoming, plan, room) == Min(if plan[0].n == 0 then 1 else plan[0].n, Min(|incoming|, room)) > 0
  {
  }

  lemma GatherOnce(got: Bytes, incoming: Bytes, plan: seq<RecvStep>, n: nat)
    requires |got| < BUFFER_SIZE - 1 && plan != []
    requires 0 < n == Delivered(incoming, plan, BUFFER_SIZE - 1 - |got|) <= |incoming|
    ensures var got' := got + incoming[..n];
            Gather(got, incoming, plan) ==
            if HasDelimiter(got') then Received(got', Delimited, incoming[n..], plan[1..])
            else Gather(got', incoming[n..], plan[1..])
  {
  }

  lemma GatherEnds(got: Bytes, incoming: Bytes, plan: seq<RecvStep>)
    requires |got| < BUFFER_SIZE - 1 && (plan == [] || !plan[0].Arrives?)
    ensures var r := Gather(got, incoming, plan); r.text == got && !r.end.Delimited?
  {
  }

  lemma StopOnce(need: nat, got: nat, length: nat, plan: seq<RecvStep>, n: nat)
    requires got < need < BUFFER_SIZE && got < length && plan != [] && plan[0].Arrives?
    requires n == Min(if plan[0].n == 0 then 1 else plan[0].n, Min(length - got, BUFFER_SIZE - 1 - got)) > 0
    ensures Stop(need, got, length, plan) ==
            if got + n >= need then Some(got + n) else Stop(need, got + n, length, plan[1..])
  {
  }

  lemma DelimiterAt(s: Bytes, need: nat, n: nat)
    requires DelimiterEndsAt(s, need) && n <= |s|
    ensures HasDelimiter(s[..n]) <==> n >= need
  {
    if n >= need { assert s[..n][need - 2] == '/' && s[..n][need - 1] == '/'; }
  }

  lemma OneRecv(s: Bytes, m: nat, plan: seq<RecvStep>, need: nat) returns (m': nat)
    requires m < need && DelimiterEndsAt(s, need) && plan != [] && plan[0].Arrives?
    ensures m < m' <= |s|
    ensures Gather(s[..m], s[m..], plan) == if m' >= need then Received(s[..m'], Delimited, s[m'..], plan[1..])
                                            else Gather(s[..m'], s[m'..], plan[1..])
    ensures Stop(need, m, |s|, plan) == if m' >= need then Some(m') else Stop(need, m', |s|, plan[1..])
  {
    var incoming := s[m..];
    ChunkSize(incoming, plan, BUFFER_SIZE - 1 - m);
    var n := Delivered(incoming, plan, BUFFER_SIZE - 1 - m);
    m' := m + n;
    assert s[..m] + incoming[..n] == s[..m'] && incoming[n..] == s[m'..];
    DelimiterAt(s, need, m');
    GatherOnce(s[..m], incoming, plan, n);
    StopOnce(need, m, |s|, plan, n);
  }

  predicate EndsAs(r: Received, s: Bytes, need: nat, stop: Option<nat>) {
    match stop
    case Some(n) => need <= n <= |s| && r.end.Delimited? && r.text == s[..n]
    case None => |r.text| < need && !r.end.Delimited?
  }

  /** Then receive_response, `m` bytes into the stream, ends exactly there, wherever that is; short of the first
      delimiter when there is no such recv(). */
  lemma {:induction false} StopsAt(s: Bytes, m: nat, plan: seq<RecvStep>, need: nat)
    requires m < need && DelimiterEndsAt(s, need)
    ensures EndsAs(Gather(s[..m], s[m..], plan), s, need, Stop(need, m, |s|, plan))
    decreases |plan|
  {
    if plan == [] || !plan[0].Arrives? {
      GatherEnds(s[..m], s[m..], plan);
    } else {
      var m' := OneRecv(s, m, plan, need);
      if m' < need { StopsAt(s, m', plan[1..], need); }
    }
  }

  /** So, under every script, the response is the reply exactly when the stop is at the reply's end. */
  lemma ReplyArrivesWhole(w: Bytes, more: Bytes, plan: seq<RecvStep>)
    requires StartsLikeReply(w)
    ensures Gather([], w + more, plan).text == w <==> Stop(3, 0, |w + more|, plan) == Some(|w|)
  {
    assert (w + more)[..0] == [] && (w + more)[0..] == w + more && (w + more)[..|w|] == w;
    StopsAt(w + more, 0, plan, 3);
  }

  /** What receive_response makes of a stream: a part of it as long as the stop says, or, when there is none,
      something short of the first delimiter. */
  lemma ResponseAt(s: Bytes, plan: seq<RecvStep>, need: nat) returns (response: Option<Bytes>)
    requires DelimiterEndsAt(s, need)
    ensures response == ResponseOf(Gather([], s, plan))
    ensures response.Some? ==> response.value != [] && response.value <= s
    ensures match Stop(need, 0, |s|, plan)
            case None => response.Some? ==> |response.value| < need
            case Some(n) => response.Some? && |response.value| == n
  {
    response := ResponseOf(Gather([], s, plan));
    assert s[..0] == [] && s[0..] == s && [] + s == s;
    StopsAt(s, 0, plan, need);
    GatherSound([], s, plan);
  }

  /** A stream without a delimiter that ends in a close is still the response; one that breaks off is none. */
  lemma WithoutDelimiter(s: Bytes, n: nat, last: RecvStep)
    requires s != [] && |s| < BUFFER_SIZE - 1 && !HasDelimiter(s) && n >= |s| && !last.Arrives?
    ensures ResponseOf(Gather([], s, [Arrives(n), last])) == if last.Closes? then Some(s) else None
  {
    var plan := [Arrives(n), last];
    ChunkSize(s, plan, BUFFER_SIZE - 1);
    assert [] + s[..|s|] == s && s[|s|..] == [] && plan[1..] == [last];
    GatherOnce([], s, plan, |s|);
    GatherEnds(s, [], [last]);
  }

  class Connection {
    var sent: Bytes                // bytes the peer can read
    var sendPlan: seq<SendStep>
    var incoming: Bytes            // bytes the peer has sent and nobody has read
    var recvPlan: seq<RecvStep>

    constructor (incoming: Bytes, sendPlan: seq<SendStep>, recvPlan: seq<RecvStep>)
      ensures sent == [] && this.incoming == incoming && this.sendPlan == sendPlan && this.recvPlan == recvPlan
    {
      this.sent, this.incoming, this.sendPlan, this.recvPlan := [], incoming, sendPlan, recvPlan;
    }

    /** select() and send(): -1 for an error, else the bytes taken. */
    method Send(data: Bytes) returns (n: int)
      requires sendPlan != []
      modifies this`sent, this`sendPlan
      ensures sendPlan == old(sendPlan)[1..]
      ensures n == if old(sendPlan)[0].Takes? then Min(old(sendPlan)[0].n, |data|) else -1
      ensures sent == if n > 0 then old(sent) + data[..n] else old(sent)
    {
      var step := sendPlan[0];
      sendPlan := sendPlan[1..];
      if !step.Takes? { return -1; }
      n := Min(step.n, |data|);
      sent := sent + data[..n];
      if n == 0 { assert data[..n] == []; }
    }

    /** send_data: true only when every byte has been handed over, in order. */
    method SendData(data: Bytes) returns (ok: bool)
      modifies this`sent, this`sendPlan
      ensures sent == old(sent) + data[..Push(data, old(sendPlan)).0]
      ensures (ok, sendPlan) == (Push(data, old(sendPlan)).1, Push(data, old(sendPlan)).2)
      ensures ok ==> sent == old(sent) + data
      ensures ok <==> Capacity(old(sendPlan)) >= |data|
    {
      ghost var result := Push(data, sendPlan);
      PushCount(data, sendPlan);
      var total := 0;
      while total < |data|
        invariant 0 <= total <= |data|
        invariant sent == old(sent) + data[..total]
        invariant Continues(result, total, Push(data[total..], sendPlan))
        decreases |sendPlan|
      {
        if sendPlan == [] { return false; }
        total, ok := SendRound(data, total, result);
        if !ok { return; }
      }
      assert data[..total] == data;
      ok := true;
    }

    /** One round of the loop. */
    method SendRound(data: Bytes, total: nat, ghost result: (nat, bool, seq<SendStep>)) returns (total': nat, ok: bool)
      requires total < |data| && sendPlan != []
      requires Continues(result, total, Push(data[total..], sendPlan))
      modifies this`sent, this`sendPlan
      ensures total <= total' <= |data| && |sendPlan| < |old(sendPlan)|
      ensures sent == old(sent) + data[total..total']
      ensures ok ==> Continues(result, total', Push(data[total'..], sendPlan))
      ensures !ok ==> total' == total && result == (total, false, sendPlan)
    {
      ghost var rest := data[total..];
      var n := Send(data[total..]);
      if n == -1 { return total, false; }
      total', ok := total + n, true;
      assert rest[n..] == data[total'..] && rest[..n] == data[total..total'];
      if n == 0 { assert data[total..total'] == []; }
    }

    /** recv() into the free part of the buffer. */
    method Recv(buffer: array<char>, from: nat) returns (n: int)
      requires from < BUFFER_SIZE - 1 && buffer.Length == BUFFER_SIZE
      modifies this`incoming, this`recvPlan, buffer
      ensures n == Delivered(old(incoming), old(recvPlan), BUFFER_SIZE - 1 - from)
      ensures recvPlan == if old(recvPlan) == [] then [] else old(recvPlan)[1..]
      ensures n <= 0 ==> incoming == old(incoming) && buffer[..] == old(buffer[..])
      ensures n > 0 ==> from + n < BUFFER_SIZE && n <= |old(incoming)| && incoming == old(incoming)[n..]
      ensures n > 0 ==> buffer[..from] == old(buffer[..from]) && buffer[from..from + n] == old(incoming)[..n]
    {
      n := Delivered(incoming, recvPlan, BUFFER_SIZE - 1 - from);
      recvPlan := if recvPlan == [] then [] else recvPlan[1..];
      if n <= 0 { return; }
      forall k | 0 <= k < n { buffer[from + k] := incoming[k]; }
      incoming := incoming[n..];
    }

    /** One recv() of the loop, with the terminator the code writes after it. */
    method ReceiveRound(buffer: array<char>, total: nat, ghost whole: Received) returns (n: int)
      requires buffer.Length == BUFFER_SIZE && total < BUFFER_SIZE - 1
      requires Free(incoming, {NUL}) && Free(buffer[..total], {NUL})
      requires whole == Gather(buffer[..total], incoming, recvPlan)
      modifies this`incoming, this`recvPlan, buffer
      ensures -1 <= n && total + n < BUFFER_SIZE && Free(incoming, {NUL})
      ensures n == -1 ==> whole.end.Broken? && whole.incoming == incoming && whole.plan == recvPlan
      ensures n == 0 ==>
              whole == Received(old(buffer[..total]), AtClose, incoming, recvPlan) && buffer[..] == old(buffer[..])
      ensures n > 0 ==> Free(buffer[..total + n], {NUL})
      ensures n > 0 ==> whole == if HasDelimiter(buffer[..total + n])
                                 then Received(buffer[..total + n], Delimited, incoming, recvPlan)
                                 else Gather(buffer[..total + n], incoming, recvPlan)
    {
      ghost var got, before := buffer[..total], incoming;
      n := Recv(buffer, total);
      if n > 0 {
        buffer[total + n] := NUL;
        assert buffer[..total + n] == got + before[..n] by {
          assert buffer[..total + n] == buffer[..total] + buffer[total..total + n];
        }
      }
    }

    /** receive_response, once the initial select() has reported data (`ready`). */
    method ReceiveResponse(ready: bool) returns (response: Option<Bytes>)
      requires Free(incoming, {NUL})
      modifies this`incoming, this`recvPlan
      ensures !ready ==> response == None && incoming == old(incoming) && recvPlan == old(recvPlan)
      ensures ready ==> var r := Gather([], old(incoming), old(recvPlan));
              response == ResponseOf(r) && incoming == r.incoming && recvPlan == r.plan
    {
      if !ready { return None; }
      ghost var whole := Gather([], incoming, recvPlan);
      var buffer := new char[BUFFER_SIZE](_ => NUL);
      var total := 0;
      assert buffer[..total] == [];
      while total < BUFFER_SIZE - 1
        invariant 0 <= total < BUFFER_SIZE && Free(incoming, {NUL}) && Free(buffer[..total], {NUL})
        invariant whole == Gather(buffer[..total], incoming, recvPlan)
        decreases BUFFER_SIZE - total
      {
        var n := ReceiveRound(buffer, total, whole);
        if n == -1 { return None; }
        if n == 0 { return if total == 0 then None else Some(buffer[..total]); }
        total := total + n;
        if HasDelimiter(buffer[..total]) { return Some(buffer[..total]); }
      }
      response := Some(buffer[..total]);
    }
  }
}
