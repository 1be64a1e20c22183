/** Any number of concurrent send, receive and close calls on one channel.

    A state holds the channel and the point each call has reached.  A run is any
    sequence of events: a call starting, a routine being cancelled, or one call running
    its next stretch under the mutex.  Since any parked call may run at any time, every
    wake order and every spurious wake is among the runs.  A cancelled routine stays
    cancelled, and a call consults the flag where the code does: on entry and on each
    return from go_channel_wait_interruptible.
 */
module ChannelSystem {
  import opened Wrappers
  import opened ChannelSpec

  type CallId = nat

  /** An imported message; `send` names the call that imported it, which the channel
      code itself never looks at. */
  datatype Message = Message(send: CallId, node: int)

  datatype Pc =
    | SendEntry(m: Message)     // before the first cancellation test
    | SendProbe(m: Message)     // about to read `closed` under the mutex
    | SendMarshal(m: Message)   // importing the value, mutex not held
    | SendReady(m: Message)     // about to take the mutex again
    | SendBlocked(m: Message)   // parked in the first wait loop
    | SendOffered(m: Message, seqNo: nat) // parked in the second wait loop
    | SendDone(m: Message, sent: SendOutcome)
    | RecvEntry
    | RecvReady
    | RecvBlocked
    | RecvDone(received: RecvOutcome<Message>)
    | CloseEntry
    | CloseDone(ok: bool)
  {
    predicate IsSend() {
      SendEntry? || SendProbe? || SendMarshal? || SendReady? || SendBlocked? || SendOffered? || SendDone?
    }
  }

  /** `placed` and `taken` record, in order, the messages put in and taken out;
      `takenBy` names the receive call for each entry of `taken`. */
  datatype System = System(
    chan: Chan<Message>,
    calls: map<CallId, Pc>,
    cancelled: set<CallId>,
    placed: seq<Message>,
    taken: seq<Message>,
    takenBy: seq<CallId>)

  datatype Event =
    | BeginSend(c: CallId, node: int)
    | BeginReceive(c: CallId)
    | BeginClose(c: CallId)
    | Cancel(c: CallId)
    | Go(c: CallId, marshalled: bool) // `marshalled` matters only while importing

  function Init(capacity: nat): System {
    System(NewChan(capacity), map[], {}, [], [], [])
  }

  function Placed(s: System, c: CallId, m: Message, r: (Chan<Message>, SendProgress)): System {
    s.(chan := r.0,
       calls := s.calls[c := match r.1
                             case AwaitRoom => SendBlocked(m)
                             case AwaitTaken(n) => SendOffered(m, n)
                             case Returned(o) => SendDone(m, o)],
       placed := if r.1.AwaitTaken? || r.1 == Returned(Sent) then s.placed + [m] else s.placed)
  }

  function Received(s: System, c: CallId, r: (Chan<Message>, RecvProgress<Message>)): System {
    s.(chan := r.0,
       calls := s.calls[c := match r.1
                             case AwaitMessage => RecvBlocked
                             case Got(o) => RecvDone(o)],
       taken := match r.1 case Got(Took(m)) => s.taken + [m] case _ => s.taken,
       takenBy := match r.1 case Got(Took(m)) => s.takenBy + [c] case _ => s.takenBy)
  }

  /** One event; a disabled event leaves the state alone. */
  function Next(s: System, e: Event): System {
    match e
    case BeginSend(c, node) =>
      if c in s.calls then s else s.(calls := s.calls[c := SendEntry(Message(c, node))])
    case BeginReceive(c) =>
      if c in s.calls then s else s.(calls := s.calls[c := RecvEntry])
    case BeginClose(c) =>
      if c in s.calls then s else s.(calls := s.calls[c := CloseEntry])
    case Cancel(c) =>
      s.(cancelled := s.cancelled + {c})
    case Go(c, marshalled) =>
      if c !in s.calls then s else
      var stop := c in s.cancelled;
      match s.calls[c]
      case SendEntry(m) =>
        s.(calls := s.calls[c := if stop then SendDone(m, SendCancelled) else SendProbe(m)])
      case SendProbe(m) =>
        s.(calls := s.calls[c := if s.chan.closed then SendDone(m, SendClosed) else SendMarshal(m)])
      case SendMarshal(m) =>
        s.(calls := s.calls[c := if marshalled then SendReady(m) else SendDone(m, MarshalFailed)])
      case SendReady(m) =>
        Placed(s, c, m, Offer(s.chan, m))
      case SendBlocked(m) =>
        if stop then s.(calls := s.calls[c := SendDone(m, SendCancelled)])
        else Placed(s, c, m, Offer(s.chan, m))
      case SendOffered(m, n) =>
        var (ch, o) := Resume(s.chan, n, stop);
        s.(chan := ch, calls := if o.None? then s.calls else s.calls[c := SendDone(m, o.value)])
      case RecvEntry =>
        s.(calls := s.calls[c := if stop then RecvDone(RecvCancelled) else RecvReady])
      case RecvReady =>
        Received(s, c, Take(s.chan))
      case RecvBlocked =>
        if stop then s.(calls := s.calls[c := RecvDone(RecvCancelled)])
        else Received(s, c, Take(s.chan))
      case CloseEntry =>
        var (ch, ok) := Close(s.chan);
        s.(chan := ch, calls := s.calls[c := CloseDone(ok)])
      case SendDone(_, _) => s
      case RecvDone(_) => s
      case CloseDone(_) => s
  }

  function Run(s: System, events: seq<Event>): System
    decreases |events|
  {
    if events == [] then s else Run(Next(s, events[0]), events[1..])
  }

  lemma {:induction false} RunAppend(s: System, first: seq<Event>, second: seq<Event>)
    ensures Run(s, first + second) == Run(Run(s, first), second)
    decreases |first|
  {
    if first == [] {
      assert first + second == second;
    } else {
      assert (first + second)[1..] == first[1..] + second;
      RunAppend(Next(s, first[0]), first[1..], second);
    }
  }

  /** The receive calls that took the message of send call `c`. */
  ghost function Takers(s: System, c: CallId): set<CallId> {
    set r | r in s.calls && IsTaker(s.calls[r], c)
  }

  ghost predicate IsTaker(pc: Pc, c: CallId) {
    pc.RecvDone? && pc.received.Took? && pc.received.message.send == c
  }

  ghost predicate TakenOnce(s: System, c: CallId) {
    exists r :: Takers(s, c) == {r}
  }

  /** Moving one call that has not finished receiving changes `Takers` at most for the
      message it just took. */
  lemma TakersAfter(s: System, s': System, c: CallId, pc: Pc)
    requires s'.calls == s.calls[c := pc]
    requires c in s.calls ==> !s.calls[c].RecvDone?
    ensures forall k: CallId :: Takers(s', k) == if IsTaker(pc, k) then Takers(s, k) + {c} else Takers(s, k)
  {
    forall k: CallId
      ensures Takers(s', k) == if IsTaker(pc, k) then Takers(s, k) + {c} else Takers(s, k)
    {
      assert c !in Takers(s, k);
      assert forall r :: r in Takers(s', k) <==> if r == c then IsTaker(pc, k) else r in Takers(s, k);
    }
  }

  /** A finished call stays as it finished. */
  lemma {:induction false} DoneStays(s: System, events: seq<Event>, c: CallId)
    requires c in s.calls
    requires s.calls[c].SendDone? || s.calls[c].RecvDone? || s.calls[c].CloseDone?
    ensures c in Run(s, events).calls && Run(s, events).calls[c] == s.calls[c]
    decreases |events|
  {
    if events != [] {
      DoneStays(Next(s, events[0]), events[1..], c);
    }
  }
}

/** Unbuffered channels: every rendezvous happens exactly once. */
module Rendezvous {
  import opened Wrappers
  import opened ChannelSpec
  import opened ChannelSystem

  /** What the position of one call says about its message. */
  ghost predicate CallOk(s: System, c: CallId)
    requires c in s.calls
  {
    var ch, pc := s.chan, s.calls[c];
    if pc.SendOffered? then
      && pc.m.send == c && pc.seqNo <= ch.nextSeq
      && if pc.seqNo <= ch.consumedSeq then TakenOnce(s, c)
         else Takers(s, c) == {} && (ch.closed || (ch.slot == Some(pc.m) && ch.slotSeq == pc.seqNo))
    else if pc.IsSend() then
      && pc.m.send == c
      && if pc.SendDone? && pc.sent == Sent then TakenOnce(s, c) else Takers(s, c) == {}
    else if pc.RecvDone? && pc.received.Took? then
      var m := pc.received.message;
      m.send in s.calls && s.calls[m.send].IsSend() && s.calls[m.send].m == m
    else true
  }

  /** The slot belongs to one parked sender, whose sequence number nobody has consumed. */
  ghost predicate Inv(s: System) {
    var ch := s.chan;
    && ch.capacity == 0 && ch.queue == []
    && ch.consumedSeq <= ch.nextSeq
    && (ch.closed ==> ch.slot == None)
    && (ch.slot.Some? ==>
          && ch.consumedSeq < ch.slotSeq <= ch.nextSeq
          && ch.slot.value.send in s.calls
          && s.calls[ch.slot.value.send] == SendOffered(ch.slot.value, ch.slotSeq))
    && forall c :: c in s.calls ==> CallOk(s, c)
  }

  /** A call that has placed nothing and taken nothing. */
  ghost predicate Idle(pc: Pc, c: CallId) {
    && !pc.SendOffered? && (pc.SendDone? ==> pc.sent != Sent)
    && (pc.RecvDone? ==> !pc.received.Took?)
    && (pc.IsSend() ==> pc.m.send == c)
  }

  lemma NobodyTookYet(s: System, c: CallId)
    requires Inv(s) && (c !in s.calls || (Idle(s.calls[c], c)))
    ensures c !in s.calls || s.calls[c].IsSend() ==> Takers(s, c) == {}
  {
    if c in s.calls {
      assert CallOk(s, c);
    } else {
      forall r | r in s.calls ensures !IsTaker(s.calls[r], c) { assert CallOk(s, r); }
    }
  }

  /** A call starts, is turned away, or moves on without touching the channel. */
  lemma InvIdle(s: System, c: CallId, pc: Pc)
    requires Inv(s) && Idle(pc, c)
    requires c in s.calls ==>
      && Idle(s.calls[c], c) && !s.calls[c].RecvDone?
      && s.calls[c].IsSend() == pc.IsSend() && (pc.IsSend() ==> s.calls[c].m == pc.m)
    ensures Inv(s.(calls := s.calls[c := pc]))
  {
    var s' := s.(calls := s.calls[c := pc]);
    TakersAfter(s, s', c, pc);
    NobodyTookYet(s, c);
    forall k | k in s'.calls ensures CallOk(s', k) {
      if k != c { assert CallOk(s, k); }
    }
  }

  lemma InvOffer(s: System, c: CallId, m: Message)
    requires Inv(s) && m.send == c
    requires c in s.calls && (s.calls[c] == SendReady(m) || s.calls[c] == SendBlocked(m))
    ensures Inv(Placed(s, c, m, Offer(s.chan, m)))
  {
    var r := Offer(s.chan, m);
    if !r.1.AwaitTaken? {
      InvIdle(s, c, if r.1.AwaitRoom? then SendBlocked(m) else SendDone(m, r.1.outcome));
    } else {
      var s' := Placed(s, c, m, r);
      TakersAfter(s, s', c, SendOffered(m, r.1.seqNo));
      NobodyTookYet(s, c);
      forall k | k in s'.calls ensures CallOk(s', k) {
        if k != c { assert CallOk(s, k); }
      }
    }
  }

  lemma InvResume(s: System, c: CallId, m: Message, n: nat, stop: bool)
    requires Inv(s) && c in s.calls && s.calls[c] == SendOffered(m, n)
    requires Resume(s.chan, n, stop).1.Some?
    ensures var r := Resume(s.chan, n, stop);
            Inv(s.(chan := r.0, calls := s.calls[c := SendDone(m, r.1.value)]))
  {
    var r := Resume(s.chan, n, stop);
    var s' := s.(chan := r.0, calls := s.calls[c := SendDone(m, r.1.value)]);
    TakersAfter(s, s', c, SendDone(m, r.1.value));
    assert CallOk(s, c);
    forall k | k in s'.calls ensures CallOk(s', k) {
      if k != c { assert CallOk(s, k); }
    }
  }

  lemma InvTake(s: System, c: CallId)
    requires Inv(s) && c in s.calls && (s.calls[c].RecvReady? || s.calls[c].RecvBlocked?)
    ensures Inv(Received(s, c, Take(s.chan)))
  {
    var r := Take(s.chan);
    if r.1.AwaitMessage? || !r.1.outcome.Took? {
      InvIdle(s, c, if r.1.AwaitMessage? then RecvBlocked else RecvDone(r.1.outcome));
    } else {
      var s', m := Received(s, c, r), r.1.outcome.message;
      TakersAfter(s, s', c, RecvDone(Took(m)));
      assert CallOk(s, m.send);
      assert Takers(s', m.send) == {c};
      forall k | k in s'.calls ensures CallOk(s', k) {
        if k != c { assert CallOk(s, k); }
      }
    }
  }

  lemma InvClose(s: System, c: CallId)
    requires Inv(s) && c in s.calls && s.calls[c].CloseEntry?
    ensures var r := Close(s.chan); Inv(s.(chan := r.0, calls := s.calls[c := CloseDone(r.1)]))
  {
    var r := Close(s.chan);
    var s' := s.(chan := r.0, calls := s.calls[c := CloseDone(r.1)]);
    TakersAfter(s, s', c, CloseDone(r.1));
    forall k | k in s'.calls ensures CallOk(s', k) {
      if k != c { assert CallOk(s, k); }
    }
  }

  lemma InvNext(s: System, e: Event)
    requires Inv(s)
    ensures Inv(Next(s, e))
  {
    var s' := Next(s, e);
    if e.Cancel? || s'.calls == s.calls {
      InvSameCalls(s, s');
    } else {
      var pc := s'.calls[e.c];
      if !e.Go? {
        InvIdle(s, e.c, pc);
      } else {
        assert CallOk(s, e.c);
        match s.calls[e.c]
        case SendReady(m) => InvOffer(s, e.c, m);
        case SendBlocked(m) =>
          if e.c in s.cancelled { InvIdle(s, e.c, pc); } else { InvOffer(s, e.c, m); }
        case SendOffered(m, n) => InvResume(s, e.c, m, n, e.c in s.cancelled);
        case RecvReady => InvTake(s, e.c);
        case RecvBlocked =>
          if e.c in s.cancelled { InvIdle(s, e.c, pc); } else { InvTake(s, e.c); }
        case CloseEntry => InvClose(s, e.c);
        case _ => InvIdle(s, e.c, pc);
      }
    }
  }

  lemma InvSameCalls(s: System, s': System)
    requires Inv(s) && s'.calls == s.calls && s'.chan == s.chan
    ensures Inv(s')
  {
    assert forall k: CallId :: Takers(s', k) == Takers(s, k);
    forall k | k in s'.calls ensures CallOk(s', k) { assert CallOk(s, k); }
  }

  lemma {:induction false} InvRun(s: System, events: seq<Event>)
    requires Inv(s)
    ensures Inv(Run(s, events))
    decreases |events|
  {
    if events != [] {
      InvNext(s, events[0]);
      InvRun(Next(s, events[0]), events[1..]);
    }
  }

  /** In every run, a send that has returned normally was received exactly once, and a
      send that threw was received by nobody. */
  lemma SendReturnsIffTaken(events: seq<Event>, c: CallId)
    requires var s := Run(Init(0), events); c in s.calls && s.calls[c].SendDone?
    ensures var s := Run(Init(0), events);
            if s.calls[c].sent == Sent then TakenOnce(s, c) else Takers(s, c) == {}
  {
    InvRun(Init(0), events);
    assert CallOk(Run(Init(0), events), c);
  }

  /** A message whose send threw is never received later either, whatever happens next. */
  lemma ThrownIsNeverTaken(events: seq<Event>, later: seq<Event>, c: CallId)
    requires var s := Run(Init(0), events);
             c in s.calls && s.calls[c].SendDone? && s.calls[c].sent != Sent
    ensures Takers(Run(Run(Init(0), events), later), c) == {}
  {
    RunAppend(Init(0), events, later);
    DoneStays(Run(Init(0), events), later, c);
    SendReturnsIffTaken(events + later, c);
  }

  /** What a receive returns is the value some send call imported; nobody else receives
      it, and whenever that send returns, in this or any later state, it returns normally. */
  lemma ReceiptIsAnswered(events: seq<Event>, later: seq<Event>, r: CallId)
    requires var s := Run(Init(0), events);
             r in s.calls && s.calls[r].RecvDone? && s.calls[r].received.Took?
    ensures var m, s := Run(Init(0), events).calls[r].received.message, Run(Run(Init(0), events), later);
            && m.send in s.calls && s.calls[m.send].IsSend() && s.calls[m.send].m == m
            && Takers(s, m.send) == {r}
            && (s.calls[m.send].SendDone? ==> s.calls[m.send].sent == Sent)
  {
    var s := Run(Run(Init(0), events), later);
    RunAppend(Init(0), events, later);
    DoneStays(Run(Init(0), events), later, r);
    InvRun(Init(0), events + later);
    assert CallOk(s, r);
    var m := s.calls[r].received.message;
    assert r in Takers(s, m.send) && CallOk(s, m.send);
  }

  /** A waiting message and an uncancelled receive complete a rendezvous: the receive's next
      step returns the message, and from then on, whatever is closed or cancelled in between,
      the sender's next step returns normally. */
  lemma RendezvousCompletes(events: seq<Event>, r: CallId, between: seq<Event>, x: bool, y: bool)
    requires var s := Run(Init(0), events);
             && s.chan.slot.Some? && r in s.calls && r !in s.cancelled
             && (s.calls[r].RecvReady? || s.calls[r].RecvBlocked?)
    ensures var m := Run(Init(0), events).chan.slot.value;
            var s1 := Next(Run(Init(0), events), Go(r, x));
            var s3 := Next(Run(s1, between), Go(m.send, y));
            && r in s1.calls && s1.calls[r] == RecvDone(Took(m))
            && m.send in s3.calls && s3.calls[m.send] == SendDone(m, Sent)
  {
    var s := Run(Init(0), events);
    var m := s.chan.slot.value;
    InvRun(Init(0), events);
    var met := events + [Go(r, x)];
    RunAppend(Init(0), events, [Go(r, x)]);
    assert [Go(r, x)][1..] == [];
    var s1 := Next(s, Go(r, x));
    assert Run(Init(0), met) == s1;
    ReceiptIsAnswered(met, between, r);
    RunAppend(Init(0), met, between);
    InvRun(Init(0), met + between);
    var s2 := Run(s1, between);
    assert CallOk(s2, m.send);
  }
}

/** Buffered channels: conservation and first-in first-out order. */
module Buffered {
  import opened Wrappers
  import opened ChannelSpec
  import opened ChannelSystem

  ghost predicate PlacedOnce(placed: seq<Message>, m: Message) {
    exists i :: 0 <= i < |placed| && placed[i] == m
      && forall j :: 0 <= j < |placed| && placed[j].send == m.send ==> j == i
  }

  ghost predicate NeverPlaced(placed: seq<Message>, c: CallId) {
    forall j :: 0 <= j < |placed| ==> placed[j].send != c
  }

  ghost predicate CallOk(s: System, c: CallId)
    requires c in s.calls
  {
    var pc := s.calls[c];
    if pc.IsSend() then
      && pc.m.send == c && !pc.SendOffered?
      && if pc.SendDone? && pc.sent == Sent then PlacedOnce(s.placed, pc.m) else NeverPlaced(s.placed, c)
    else
      pc.RecvDone? && pc.received.Took? ==> exists i :: 0 <= i < |s.takenBy| && s.takenBy[i] == c
  }

  ghost predicate Inv(s: System) {
    && s.chan.capacity > 0 && s.chan.slot == None
    && |s.chan.queue| <= s.chan.capacity
    && s.placed == s.taken + s.chan.queue
    && |s.takenBy| == |s.taken|
    && (forall i :: 0 <= i < |s.takenBy| ==>
          s.takenBy[i] in s.calls && s.calls[s.takenBy[i]] == RecvDone(Took(s.taken[i])))
    && (forall i, j :: 0 <= i < j < |s.takenBy| ==> s.takenBy[i] != s.takenBy[j])
    && (forall i :: 0 <= i < |s.placed| ==> s.placed[i].send in s.calls)
    && (forall c :: c in s.calls ==> CallOk(s, c))
  }

  lemma InvPlace(s: System, c: CallId, m: Message)
    requires Inv(s) && m.send == c && |s.chan.queue| < s.chan.capacity
    requires c in s.calls && (s.calls[c] == SendReady(m) || s.calls[c] == SendBlocked(m))
    ensures Inv(s.(chan := s.chan.(queue := s.chan.queue + [m]), calls := s.calls[c := SendDone(m, Sent)],
                   placed := s.placed + [m]))
  {
    var s' := s.(chan := s.chan.(queue := s.chan.queue + [m]), calls := s.calls[c := SendDone(m, Sent)],
                 placed := s.placed + [m]);
    assert CallOk(s, c);
    assert s'.placed[|s.placed|] == m;
    assert s'.placed == s'.taken + s'.chan.queue;
    forall k | k in s'.calls ensures CallOk(s', k) {
      if k != c { PlaceKeepsCall(s, s', c, m, k); }
    }
  }

  /** Another call is as well off as before a message was placed. */
  lemma PlaceKeepsCall(s: System, s': System, c: CallId, m: Message, k: CallId)
    requires Inv(s) && m.send == c && k != c && k in s.calls
    requires s'.calls == s.calls[c := SendDone(m, Sent)] && s'.placed == s.placed + [m]
    requires s'.taken == s.taken && s'.takenBy == s.takenBy && s'.chan.capacity == s.chan.capacity
    requires s'.chan.closed == s.chan.closed && s'.cancelled == s.cancelled
    ensures CallOk(s', k)
  {
    assert CallOk(s, k);
    if s.calls[k].SendDone? && s.calls[k].sent.Sent? {
      var i :| 0 <= i < |s.placed| && s.placed[i] == s.calls[k].m
            && forall j :: 0 <= j < |s.placed| && s.placed[j].send == s.calls[k].m.send ==> j == i;
      assert s'.placed[i] == s.calls[k].m;
    }
  }

  lemma InvTake(s: System, c: CallId)
    requires Inv(s) && |s.chan.queue| > 0
    requires c in s.calls && (s.calls[c].RecvReady? || s.calls[c].RecvBlocked?)
    ensures Inv(Received(s, c, Take(s.chan)))
  {
    var s' := Received(s, c, Take(s.chan));
    assert s'.takenBy[|s.takenBy|] == c;
    assert s'.placed == s'.taken + s'.chan.queue;
    forall k | k in s'.calls ensures CallOk(s', k) {
      if k != c {
        assert CallOk(s, k);
        if s.calls[k].RecvDone? && s.calls[k].received.Took? {
          var i :| 0 <= i < |s.takenBy| && s.takenBy[i] == k;
          assert s'.takenBy[i] == k;
        }
      }
    }
  }

  /** A call starts, is turned away, or moves on without placing or taking. */
  lemma InvIdle(s: System, s': System, c: CallId)
    requires Inv(s) && c in s'.calls && s'.calls == s.calls[c := s'.calls[c]]
    requires s'.placed == s.placed && s'.taken == s.taken && s'.takenBy == s.takenBy
    requires s'.chan == s.chan.(closed := s'.chan.closed)
    requires c in s.calls ==>
      && !s.calls[c].SendDone? && !s.calls[c].RecvDone? && s.calls[c].IsSend() == s'.calls[c].IsSend()
      && (s.calls[c].IsSend() ==> s'.calls[c].m == s.calls[c].m)
    requires var pc := s'.calls[c];
      && !pc.SendOffered? && (pc.SendDone? ==> pc.sent != Sent)
      && (pc.RecvDone? ==> !pc.received.Took?)
      && (pc.IsSend() ==> pc.m.send == c)
    ensures Inv(s')
  {
    if c in s.calls { assert CallOk(s, c); }
    forall k | k in s'.calls ensures CallOk(s', k) {
      if k != c { assert CallOk(s, k); }
    }
  }

  lemma InvOffer(s: System, c: CallId, m: Message)
    requires Inv(s) && m.send == c
    requires c in s.calls && (s.calls[c] == SendReady(m) || s.calls[c] == SendBlocked(m))
    ensures Inv(Placed(s, c, m, Offer(s.chan, m)))
  {
    if Offer(s.chan, m).1 == Returned(Sent) { InvPlace(s, c, m); }
    else { InvIdle(s, Placed(s, c, m, Offer(s.chan, m)), c); }
  }

  lemma InvReceive(s: System, c: CallId)
    requires Inv(s) && c in s.calls && (s.calls[c].RecvReady? || s.calls[c].RecvBlocked?)
    ensures Inv(Received(s, c, Take(s.chan)))
  {
    if |s.chan.queue| > 0 { InvTake(s, c); } else { InvIdle(s, Received(s, c, Take(s.chan)), c); }
  }

  lemma InvGo(s: System, c: CallId, marshalled: bool)
    requires Inv(s) && c in s.calls
    ensures Inv(Next(s, Go(c, marshalled)))
  {
    assert CallOk(s, c);
    var s' := Next(s, Go(c, marshalled));
    var pc := s.calls[c];
    if pc.SendReady? || (pc.SendBlocked? && c !in s.cancelled) {
      InvOffer(s, c, pc.m);
    } else if pc.RecvReady? || (pc.RecvBlocked? && c !in s.cancelled) {
      InvReceive(s, c);
    } else if !(pc.SendDone? || pc.RecvDone? || pc.CloseDone?) {
      InvIdle(s, s', c);
    }
  }

  lemma InvNext(s: System, e: Event)
    requires Inv(s)
    ensures Inv(Next(s, e))
  {
    if e.Go? && e.c in s.calls {
      InvGo(s, e.c, e.marshalled);
    } else if !e.Go? && !e.Cancel? && e.c !in s.calls {
      InvIdle(s, Next(s, e), e.c);
    } else {
      var s' := Next(s, e);
      forall k | k in s'.calls ensures CallOk(s', k) { assert CallOk(s, k); }
    }
  }

  lemma {:induction false} InvRun(s: System, events: seq<Event>)
    requires Inv(s)
    ensures Inv(Run(s, events))
    decreases |events|
  {
    if events != [] {
      InvNext(s, events[0]);
      InvRun(Next(s, events[0]), events[1..]);
    }
  }

  /** In every run the messages placed are the messages taken followed by the contents,
      the contents fit, and entry i of `taken` is what receive call takenBy[i] returned. */
  lemma Conservation(capacity: nat, events: seq<Event>)
    requires capacity > 0
    ensures var s := Run(Init(capacity), events);
            && s.placed == s.taken + s.chan.queue && |s.chan.queue| <= capacity
            && |s.takenBy| == |s.taken|
            && (forall i :: 0 <= i < |s.takenBy| ==>
                  s.takenBy[i] in s.calls && s.calls[s.takenBy[i]] == RecvDone(Took(s.taken[i])))
            && (forall i, j :: 0 <= i < j < |s.takenBy| ==> s.takenBy[i] != s.takenBy[j])
            && (forall r :: r in s.calls && s.calls[r].RecvDone? && s.calls[r].received.Took? ==> r in s.takenBy)
  {
    CapacityStays(Init(capacity), events);
    InvRun(Init(capacity), events);
    var s := Run(Init(capacity), events);
    forall r | r in s.calls && s.calls[r].RecvDone? && s.calls[r].received.Took? ensures r in s.takenBy {
      assert CallOk(s, r);
    }
  }

  /** A send returned normally exactly when its message was placed, and then once; a send
      that threw, or has not got that far, placed nothing. */
  lemma SentIffPlaced(capacity: nat, events: seq<Event>, c: CallId)
    requires capacity > 0
    requires var s := Run(Init(capacity), events); c in s.calls && s.calls[c].IsSend()
    ensures var s := Run(Init(capacity), events);
            if s.calls[c].SendDone? && s.calls[c].sent == Sent then PlacedOnce(s.placed, s.calls[c].m)
            else NeverPlaced(s.placed, c)
  {
    InvRun(Init(capacity), events);
    assert CallOk(Run(Init(capacity), events), c);
  }

  lemma {:induction false} CapacityStays(s: System, events: seq<Event>)
    ensures Run(s, events).chan.capacity == s.chan.capacity
    decreases |events|
  {
    if events != [] { CapacityStays(Next(s, events[0]), events[1..]); }
  }
}

/** After close: nothing more is placed, what was buffered is delivered in order, and
    then every receive reports the channel closed. */
module AfterClose {
  import opened Wrappers
  import opened ChannelSpec
  import opened ChannelSystem
  import Rendezvous
  import Buffered

  ghost predicate ClosedSince(s: System, s': System, k: nat) {
    && k <= |s.chan.queue|
    && s'.chan == s.chan.(queue := s.chan.queue[k..])
    && s'.placed == s.placed
    && s'.taken == s.taken + s.chan.queue[..k]
  }

  /** From any reachable closed state, whatever follows only removes a prefix of the
      contents, in order, and appends exactly it to what was received. */
  lemma OnlyDrains(capacity: nat, events: seq<Event>, later: seq<Event>)
    requires Run(Init(capacity), events).chan.closed
    ensures var s := Run(Init(capacity), events);
            s.chan.slot == None && exists k :: ClosedSince(s, Run(s, later), k)
  {
    var s := Run(Init(capacity), events);
    if capacity == 0 { Rendezvous.InvRun(Init(0), events); } else { Buffered.InvRun(Init(capacity), events); }
    var k := Drains(s, later);
  }

  lemma {:induction false} Drains(s: System, events: seq<Event>) returns (k: nat)
    requires s.chan.closed && s.chan.slot == None
    requires s.chan.capacity == 0 ==> s.chan.queue == []
    ensures ClosedSince(s, Run(s, events), k)
    decreases |events|
  {
    if events == [] {
      k := 0;
    } else {
      var k0 := DrainsStep(s, events[0]);
      var k1 := Drains(Next(s, events[0]), events[1..]);
      k := k0 + k1;
      DrainsOn(s, Next(s, events[0]), Run(s, events), k0, k1);
    }
  }

  lemma DrainsOn(s: System, s1: System, s2: System, k0: nat, k1: nat)
    requires ClosedSince(s, s1, k0) && ClosedSince(s1, s2, k1)
    ensures ClosedSince(s, s2, k0 + k1)
  {
    var q := s.chan.queue;
    assert q[..k0 + k1] == q[..k0] + q[k0..][..k1];
    assert q[k0..][k1..] == q[k0 + k1..];
  }

  /** One event takes the oldest message or none. */
  lemma DrainsStep(s: System, e: Event) returns (k: nat)
    requires s.chan.closed && s.chan.slot == None
    requires s.chan.capacity == 0 ==> s.chan.queue == []
    ensures ClosedSince(s, Next(s, e), k)
  {
    k := if Next(s, e).chan.queue == s.chan.queue then 0 else 1;
    assert s.chan.queue[0..] == s.chan.queue;
  }

  /** On a closed channel an uncancelled receive always returns at its next step: with
      the oldest message while there is one, and with "closed" from then on. */
  lemma ReceiveReturns(capacity: nat, events: seq<Event>, c: CallId, marshalled: bool)
    requires var s := Run(Init(capacity), events);
             && s.chan.closed && c in s.calls && c !in s.cancelled
             && (s.calls[c].RecvReady? || s.calls[c].RecvBlocked?)
    ensures var s := Run(Init(capacity), events);
            && Next(s, Go(c, marshalled)).calls
               == s.calls[c := RecvDone(if s.chan.queue == [] then ClosedEmpty else Took(s.chan.queue[0]))]
  {
    if capacity == 0 { Rendezvous.InvRun(Init(0), events); } else { Buffered.InvRun(Init(capacity), events); }
    ClosedTake(Run(Init(capacity), events), c, marshalled);
  }

  lemma ClosedTake(s: System, c: CallId, marshalled: bool)
    requires s.chan.closed && s.chan.slot == None && (s.chan.capacity == 0 ==> s.chan.queue == [])
    requires c in s.calls && c !in s.cancelled && (s.calls[c].RecvReady? || s.calls[c].RecvBlocked?)
    ensures Next(s, Go(c, marshalled)).calls
            == s.calls[c := RecvDone(if s.chan.queue == [] then ClosedEmpty else Took(s.chan.queue[0]))]
  {
  }

  /** Once drained, every receive still under way or yet to start ends as closed, unless
      its routine was cancelled; and no send yet to place its message ends normally. */
  lemma NothingAfterDrain(capacity: nat, events: seq<Event>, later: seq<Event>, c: CallId)
    requires var s := Run(Init(capacity), events);
             && s.chan.closed && s.chan.queue == []
             && (c in s.calls ==> !s.calls[c].RecvDone? && !s.calls[c].SendDone? && !s.calls[c].SendOffered?)
    ensures var s' := Run(Run(Init(capacity), events), later);
            && (c in s'.calls && s'.calls[c].RecvDone? ==>
                  s'.calls[c].received == ClosedEmpty || (s'.calls[c].received == RecvCancelled && c in s'.cancelled))
            && (c in s'.calls && s'.calls[c].SendDone? ==> s'.calls[c].sent != Sent)
  {
    OnlyDrains(capacity, events, []);
    Late(Run(Init(capacity), events), later, c);
  }

  ghost predicate LateOk(s: System, c: CallId) {
    c in s.calls ==>
      && !s.calls[c].SendOffered?
      && (s.calls[c].SendDone? ==> s.calls[c].sent != Sent)
      && (s.calls[c].RecvDone? ==>
            s.calls[c].received == ClosedEmpty || (s.calls[c].received == RecvCancelled && c in s.cancelled))
  }

  lemma {:induction false} Late(s: System, events: seq<Event>, c: CallId)
    requires s.chan.closed && s.chan.slot == None && s.chan.queue == []
    requires LateOk(s, c)
    ensures LateOk(Run(s, events), c)
    decreases |events|
  {
    if events != [] {
      Late(Next(s, events[0]), events[1..], c);
    }
  }
}

/** What closing does, and what follows from it. */
module Closing {
  import opened Wrappers
  import opened ChannelSpec
  import opened ChannelSystem

  ghost predicate ClosedBy(s: System, c: CallId) {
    c in s.calls && s.calls[c] == CloseDone(true)
  }

  ghost predicate Refused(s: System, c: CallId) {
    c in s.calls && s.calls[c] == CloseDone(false)
  }

  ghost predicate Inv(s: System) {
    && (s.chan.closed <==> exists c :: ClosedBy(s, c))
    && (forall c, d :: ClosedBy(s, c) && ClosedBy(s, d) ==> c == d)
    && (forall c :: Refused(s, c) ==> s.chan.closed)
    && (s.chan.closed || s.chan.capacity > 0 ==> s.chan.slot == None)
  }

  lemma InvNext(s: System, e: Event)
    requires Inv(s)
    ensures Inv(Next(s, e))
  {
    if e.Go? && e.c in s.calls && s.calls[e.c].CloseEntry? {
      InvClose(s, e.c, e.marshalled);
    } else {
      var s' := Next(s, e);
      forall c ensures (ClosedBy(s', c) <==> ClosedBy(s, c)) && (Refused(s', c) <==> Refused(s, c)) {
        OthersDoNotClose(s, e, c);
      }
      SlotStaysEmpty(s, e);
    }
  }

  lemma OthersDoNotClose(s: System, e: Event, c: CallId)
    requires !(e.Go? && e.c in s.calls && s.calls[e.c].CloseEntry?)
    ensures (ClosedBy(Next(s, e), c) <==> ClosedBy(s, c)) && (Refused(Next(s, e), c) <==> Refused(s, c))
  {
  }

  lemma SlotStaysEmpty(s: System, e: Event)
    requires !(e.Go? && e.c in s.calls && s.calls[e.c].CloseEntry?)
    requires s.chan.closed || s.chan.capacity > 0 ==> s.chan.slot == None
    ensures var ch := Next(s, e).chan;
      ch.closed == s.chan.closed && (ch.closed || ch.capacity > 0 ==> ch.slot == None)
  {
  }

  lemma InvClose(s: System, c: CallId, marshalled: bool)
    requires Inv(s) && c in s.calls && s.calls[c].CloseEntry?
    ensures Inv(Next(s, Go(c, marshalled)))
  {
    var s' := Next(s, Go(c, marshalled));
    assert s'.calls == s.calls[c := CloseDone(!s.chan.closed)] && s'.chan.closed;
    forall d | d != c ensures (ClosedBy(s', d) <==> ClosedBy(s, d)) && (Refused(s', d) <==> Refused(s, d)) {}
    if s.chan.closed {
      var d :| ClosedBy(s, d);
      assert ClosedBy(s', d);
    } else {
      assert ClosedBy(s', c);
    }
  }

  lemma {:induction false} InvRun(s: System, events: seq<Event>)
    requires Inv(s)
    ensures Inv(Run(s, events))
    decreases |events|
  {
    if events != [] {
      InvNext(s, events[0]);
      InvRun(Next(s, events[0]), events[1..]);
    }
  }

  /** In every run a channel is closed exactly once some close call has succeeded.  No other
      ever does, and a refused one came after it. */
  lemma ClosedIffCloseSucceeded(capacity: nat, events: seq<Event>)
    ensures var s := Run(Init(capacity), events);
      && (s.chan.closed <==> exists c :: ClosedBy(s, c))
      && (forall c, d :: ClosedBy(s, c) && ClosedBy(s, d) ==> c == d)
      && (forall c :: Refused(s, c) ==> exists d :: d != c && ClosedBy(s, d))
  {
    InvRun(Init(capacity), events);
    var s := Run(Init(capacity), events);
    forall c | Refused(s, c) ensures exists d :: d != c && ClosedBy(s, d) {
      var d :| ClosedBy(s, d);
      assert d != c;
    }
  }

  /** Once a close call has succeeded the channel is closed and its slot empty for good. */
  lemma CloseIsForGood(capacity: nat, events: seq<Event>, later: seq<Event>, c: CallId)
    requires ClosedBy(Run(Init(capacity), events), c)
    ensures var s := Run(Run(Init(capacity), events), later); s.chan.closed && s.chan.slot == None && ClosedBy(s, c)
  {
    RunAppend(Init(capacity), events, later);
    DoneStays(Run(Init(capacity), events), later, c);
    InvRun(Init(capacity), events + later);
  }

  /** A close call answers at its one step: it succeeds exactly on an open channel, which is
      closed afterwards, with its buffered messages still there. */
  lemma CloseAnswers(capacity: nat, events: seq<Event>, c: CallId, marshalled: bool)
    requires var s := Run(Init(capacity), events); c in s.calls && s.calls[c].CloseEntry?
    ensures var s := Run(Init(capacity), events);
      var s' := Next(s, Go(c, marshalled));
      && c in s'.calls && s'.calls[c] == CloseDone(!s.chan.closed)
      && s'.chan.closed && s'.chan.slot == None && s'.chan.queue == s.chan.queue
  {
    InvRun(Init(capacity), events);
  }
}

/** Every call gets on when it can, and for no other reason ends as it does. */
module CallProgress {
  import opened Wrappers
  import opened ChannelSpec
  import opened ChannelSystem
  import Rendezvous
  import Buffered

  /** A send outside its second wait, holding the mutex in any reachable state: closed, it
      fails; with room, its message is placed; otherwise it parks.  A parked sender that was
      cancelled leaves everything as it was. */
  lemma SendStep(capacity: nat, events: seq<Event>, c: CallId, m: Message, x: bool)
    requires var s := Run(Init(capacity), events);
      c in s.calls && (s.calls[c] == SendReady(m) || s.calls[c] == SendBlocked(m))
    ensures var s := Run(Init(capacity), events);
      var s' := Next(s, Go(c, x));
      c in s'.calls &&
      if s.calls[c].SendBlocked? && c in s.cancelled then s'.calls[c] == SendDone(m, SendCancelled) && s'.chan == s.chan
      else if s.chan.closed then s'.calls[c] == SendDone(m, SendClosed) && s'.chan == s.chan
      else if capacity > 0 && |s.chan.queue| < capacity then
        && s'.calls[c] == SendDone(m, Sent) && s'.placed == s.placed + [m]
        && s'.chan == s.chan.(queue := s.chan.queue + [m])
      else if capacity == 0 && s.chan.slot == None then
        s'.calls[c].SendOffered? && s'.calls[c].m == m && s'.chan.slot == Some(m) && s'.placed == s.placed + [m]
      else s'.calls[c] == SendBlocked(m) && s'.chan == s.chan
  {
    Buffered.CapacityStays(Init(capacity), events);
    if capacity == 0 { Rendezvous.InvRun(Init(0), events); } else { Buffered.InvRun(Init(capacity), events); }
  }

  /** A sender parked with its message still in the slot: cancelled, it takes the message back
      and fails; otherwise it parks again. */
  lemma OfferedStep(events: seq<Event>, c: CallId, m: Message, n: nat, x: bool)
    requires var s := Run(Init(0), events);
      c in s.calls && s.calls[c] == SendOffered(m, n) && s.chan.slot == Some(m)
    ensures var s := Run(Init(0), events);
      var s' := Next(s, Go(c, x));
      c in s'.calls &&
      if c in s.cancelled then s'.calls[c] == SendDone(m, SendCancelled) && s'.chan == s.chan.(slot := None)
      else s' == s
  {
    Rendezvous.InvRun(Init(0), events);
    assert Rendezvous.CallOk(Run(Init(0), events), c);
    var s := Run(Init(0), events);
    assert m.send == c;
    assert s.calls == s.calls[c := s.calls[c]];
  }

  /** A sender parked on a channel that was closed before its message was taken fails. */
  lemma DroppedStep(events: seq<Event>, c: CallId, m: Message, n: nat, x: bool)
    requires var s := Run(Init(0), events);
      c in s.calls && s.calls[c] == SendOffered(m, n) && s.chan.closed && Takers(s, c) == {}
    ensures var s := Run(Init(0), events);
      var s' := Next(s, Go(c, x));
      && c in s'.calls && s'.chan == s.chan
      && s'.calls[c] == SendDone(m, if c in s.cancelled then SendCancelled else SendClosed)
  {
    Rendezvous.InvRun(Init(0), events);
    assert Rendezvous.CallOk(Run(Init(0), events), c);
  }

  /** A receive holding the mutex in any reachable state: it takes the oldest message if there
      is one, reports a closed channel if there is none, and otherwise parks. */
  lemma ReceiveStep(capacity: nat, events: seq<Event>, c: CallId, x: bool)
    requires var s := Run(Init(capacity), events);
      c in s.calls && (s.calls[c].RecvReady? || s.calls[c].RecvBlocked?)
    ensures var s := Run(Init(capacity), events);
      var s' := Next(s, Go(c, x));
      c in s'.calls &&
      if s.calls[c].RecvBlocked? && c in s.cancelled then s'.calls[c] == RecvDone(RecvCancelled) && s'.chan == s.chan
      else if |s.chan.queue| > 0 then
        && s'.calls[c] == RecvDone(Took(s.chan.queue[0])) && s'.chan == s.chan.(queue := s.chan.queue[1..])
      else if s.chan.slot.Some? then
        s'.calls[c] == RecvDone(Took(s.chan.slot.value)) && s'.chan.slot == None && s'.chan.queue == []
      else s'.calls[c] == (if s.chan.closed then RecvDone(ClosedEmpty) else RecvBlocked) && s'.chan == s.chan
  {
    Buffered.CapacityStays(Init(capacity), events);
    if capacity == 0 { Rendezvous.InvRun(Init(0), events); } else { Buffered.InvRun(Init(capacity), events); }
  }

  /** On entry a cancelled routine gives up; a send on a closed channel is refused before its
      value is imported; and `x` says whether the import succeeds. */
  lemma EntryStep(capacity: nat, events: seq<Event>, c: CallId, x: bool)
    requires var s := Run(Init(capacity), events); c in s.calls
    ensures var s := Run(Init(capacity), events);
      var pc := s.calls[c];
      var s' := Next(s, Go(c, x));
      && c in s'.calls
      && (pc.SendEntry? ==>
            s'.calls[c] == if c in s.cancelled then SendDone(pc.m, SendCancelled) else SendProbe(pc.m))
      && (pc.SendProbe? ==>
            s'.calls[c] == if s.chan.closed then SendDone(pc.m, SendClosed) else SendMarshal(pc.m))
      && (pc.SendMarshal? ==>
            s'.calls[c] == if x then SendReady(pc.m) else SendDone(pc.m, MarshalFailed))
      && (pc.RecvEntry? ==>
            s'.calls[c] == if c in s.cancelled then RecvDone(RecvCancelled) else RecvReady)
  {
  }

  // ---- why calls fail

  ghost predicate Justified(s: System, c: CallId)
    requires c in s.calls
  {
    match s.calls[c]
    case SendDone(_, o) => (o == SendCancelled ==> c in s.cancelled) && (o == SendClosed ==> s.chan.closed)
    case RecvDone(o) => (o == RecvCancelled ==> c in s.cancelled) && (o == ClosedEmpty ==> s.chan.closed)
    case _ => true
  }

  lemma JustifiedNext(s: System, e: Event, c: CallId)
    requires c in s.calls ==> Justified(s, c)
    ensures c in Next(s, e).calls ==> Justified(Next(s, e), c)
  {
  }

  lemma {:induction false} JustifiedRun(s: System, events: seq<Event>, c: CallId)
    requires c in s.calls ==> Justified(s, c)
    ensures c in Run(s, events).calls ==> Justified(Run(s, events), c)
    decreases |events|
  {
    if events != [] {
      JustifiedNext(s, events[0], c);
      JustifiedRun(Next(s, events[0]), events[1..], c);
    }
  }

  /** In every run a call reports a cancellation only if its routine was cancelled, and a
      closed channel only if the channel is closed. */
  lemma FailuresAreJustified(capacity: nat, events: seq<Event>, c: CallId)
    requires c in Run(Init(capacity), events).calls
    ensures Justified(Run(Init(capacity), events), c)
  {
    JustifiedRun(Init(capacity), events, c);
  }
}
