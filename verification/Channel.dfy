/** Go-style channels (GoRoutine012.xs with go_channel in GoRoutine012Native.h).

    `Chan` is a channel as the code under its mutex sees it, with the ring buffer
    abstracted to a queue.  The functions below are the stretches of
    `_channel_send`, `_channel_receive` and `_channel_close` between two points at
    which the mutex is released: entering a call, each return from
    go_channel_wait_interruptible, and leaving the call.
 */
module ChannelSpec {
  import opened Wrappers

  datatype Chan<M> = Chan(
    capacity: nat,
    closed: bool,
    slot: Option<M>,      // unbuffered rendezvous slot
    slotSeq: nat,
    consumedSeq: nat,
    nextSeq: nat,
    queue: seq<M>)        // buffered contents, oldest first

  function NewChan<M>(capacity: nat): Chan<M> {
    Chan(capacity, false, None, 0, 0, 0, [])
  }

  datatype SendOutcome = Sent | SendCancelled | SendClosed | MarshalFailed

  /** How a stretch of a send ends: parked before or after placing, or returned. */
  datatype SendProgress = AwaitRoom | AwaitTaken(seqNo: nat) | Returned(outcome: SendOutcome)

  datatype RecvOutcome<M> = Took(message: M) | RecvCancelled | ClosedEmpty

  datatype RecvProgress<M> = AwaitMessage | Got(outcome: RecvOutcome<M>)

  /** Test the first wait loop of a send and, when it falls through, place the message. */
  function Offer<M>(ch: Chan<M>, m: M): (Chan<M>, SendProgress) {
    if ch.capacity == 0 then
      if ch.slot.Some? && !ch.closed then (ch, AwaitRoom)
      else if ch.closed then (ch, Returned(SendClosed))
      else
        var n := ch.nextSeq + 1;
        var ch' := ch.(nextSeq := n, slot := Some(m), slotSeq := n);
        if ch'.consumedSeq < n then (ch', AwaitTaken(n)) else (ch', Returned(Sent))
    else
      if |ch.queue| == ch.capacity && !ch.closed then (ch, AwaitRoom)
      else if ch.closed then (ch, Returned(SendClosed))
      else (ch.(queue := ch.queue + [m]), Returned(Sent))
  }

  /** The second wait loop of an unbuffered send, resumed after a wake; None means the
      send parks again. */
  function Resume<M>(ch: Chan<M>, n: nat, cancelled: bool): (Chan<M>, Option<SendOutcome>) {
    if !cancelled && ch.consumedSeq < n && !ch.closed then (ch, None)
    else
      var withdraw := cancelled && ch.consumedSeq < n && ch.slot.Some? && ch.slotSeq == n;
      var ch' := if withdraw then ch.(slot := None) else ch;
      (ch', Some(if ch.consumedSeq >= n then Sent
                 else if cancelled then SendCancelled
                 else SendClosed))
  }

  /** Test the wait loop of a receive and, when it falls through, take a message. */
  function Take<M>(ch: Chan<M>): (Chan<M>, RecvProgress<M>) {
    if ch.capacity == 0 then
      if ch.slot.Some? then
        (ch.(consumedSeq := ch.slotSeq, slot := None), Got(Took(ch.slot.value)))
      else if ch.closed then (ch, Got(ClosedEmpty))
      else (ch, AwaitMessage)
    else
      if |ch.queue| > 0 then
        (ch.(queue := ch.queue[1..]), Got(Took(ch.queue[0])))
      else if ch.closed then (ch, Got(ClosedEmpty))
      else (ch, AwaitMessage)
  }

  /** Close; the flag is false for the "close of closed channel" error. */
  function Close<M>(ch: Chan<M>): (Chan<M>, bool) {
    if ch.closed then (ch, false)
    else (ch.(closed := true, slot := if ch.capacity == 0 then None else ch.slot), true)
  }
}

/** The channel's C record.  Each method is one stretch under the mutex, on the real
    fields and the real ring, and is proved equal to its ChannelSpec function. */
module ChannelNative {
  import opened Wrappers
  import opened ChannelSpec

  /** Position `i` places after `head` in a ring of `capacity` slots. */
  function Wrap(head: nat, i: nat, capacity: nat): (k: nat)
    requires head < capacity && i <= capacity
    ensures k < capacity && k == (head + i) % capacity
  {
    ModOnce(head + i, capacity);
    if head + i < capacity then head + i else head + i - capacity
  }

  lemma ModOnce(x: nat, m: nat)
    requires 0 < m && x < 2 * m
    ensures x % m == if x < m then x else x - m
  {
    if x >= m {
      assert x == 1 * m + (x - m);
      assert x / m == 1;
    }
  }

  /** The live window is `count` slots from `head`; every other slot is NULL. */
  ghost predicate RingOk<M>(ring: seq<Option<M>>, head: nat, tail: nat, count: nat) {
    && count <= |ring|
    && (|ring| == 0 ==> head == tail == 0)
    && (|ring| > 0 ==>
          && head < |ring| && tail == Wrap(head, count, |ring|)
          && (forall i {:trigger Wrap(head, i, |ring|)} :: 0 <= i < count ==> ring[Wrap(head, i, |ring|)].Some?)
          && (forall i {:trigger Wrap(head, i, |ring|)} :: count <= i < |ring| ==> ring[Wrap(head, i, |ring|)].None?))
  }

  /** The queue a ring holds, oldest first. */
  ghost function RingQueue<M>(ring: seq<Option<M>>, head: nat, tail: nat, count: nat): (q: seq<M>)
    requires RingOk(ring, head, tail, count)
    ensures |q| == count
  {
    seq(count, i requires 0 <= i < count => ring[Wrap(head, i, |ring|)].value)
  }

  lemma RingPush<M>(ring: seq<Option<M>>, head: nat, tail: nat, count: nat, m: M)
    requires RingOk(ring, head, tail, count) && count < |ring|
    ensures RingOk(ring[tail := Some(m)], head, (tail + 1) % |ring|, count + 1)
    ensures RingQueue(ring[tail := Some(m)], head, (tail + 1) % |ring|, count + 1)
         == RingQueue(ring, head, tail, count) + [m]
  {
    ModOnce(tail + 1, |ring|);
  }

  lemma RingPop<M>(ring: seq<Option<M>>, head: nat, tail: nat, count: nat)
    requires RingOk(ring, head, tail, count) && 0 < count
    ensures RingOk(ring[head := None], (head + 1) % |ring|, tail, count - 1)
    ensures ring[head].Some?
    ensures RingQueue(ring, head, tail, count)
         == [ring[head].value] + RingQueue(ring[head := None], (head + 1) % |ring|, tail, count - 1)
  {
    var n := |ring|;
    ModOnce(head + 1, n);
    var head' := (head + 1) % n;
    assert Wrap(head, 0, n) == head;
    forall i | 0 <= i < n - 1
      ensures Wrap(head', i, n) == Wrap(head, i + 1, n) != head
    {
    }
    assert Wrap(head', n - 1, n) == head;
  }

  class GoChannel<M> {
    const capacity: nat
    var closed: bool
    var slot: Option<M>
    var slotSeq: nat
    var consumedSeq: nat
    var nextSeq: nat
    const buffer: array<Option<M>>
    var head: nat
    var tail: nat
    var count: nat

    ghost predicate Valid()
      reads this, buffer
    {
      && buffer.Length == capacity
      && RingOk(buffer[..], head, tail, count)
      && (capacity > 0 ==> slot == None)
    }

    ghost function View(): Chan<M>
      requires Valid()
      reads this, buffer
    {
      Chan(capacity, closed, slot, slotSeq, consumedSeq, nextSeq, RingQueue(buffer[..], head, tail, count))
    }

    constructor (capacity: nat)
      ensures Valid() && fresh(buffer) && View() == NewChan(capacity)
    {
      this.capacity := capacity;
      closed, slot := false, None;
      slotSeq, consumedSeq, nextSeq := 0, 0, 0;
      buffer := new Option<M>[capacity](_ => None);
      head, tail, count := 0, 0, 0;
    }

    /** _channel_send from taking the mutex (or an uncancelled wake in its first loop). */
    method SendOffer(message: M) returns (r: SendProgress)
      requires Valid()
      modifies this`nextSeq, this`slot, this`slotSeq, this`tail, this`count, buffer
      ensures Valid() && (View(), r) == Offer(old(View()), message)
    {
      if capacity == 0 {
        if slot != None && !closed { return AwaitRoom; }
        if closed { return Returned(SendClosed); }
        nextSeq := nextSeq + 1;
        slot := Some(message);
        slotSeq := nextSeq;
        if consumedSeq < nextSeq { return AwaitTaken(nextSeq); }
        return Returned(Sent);
      }
      if count == capacity && !closed { return AwaitRoom; }
      if closed { return Returned(SendClosed); }
      RingPush(buffer[..], head, tail, count, message);
      buffer[tail] := Some(message);
      assert buffer[..] == old(buffer[..])[tail := Some(message)];
      tail := (tail + 1) % capacity;
      count := count + 1;
      return Returned(Sent);
    }

    /** _channel_send after a wake in its second loop. */
    method SendResume(n: nat, cancelled: bool) returns (r: Option<SendOutcome>)
      requires Valid() && capacity == 0
      modifies this`slot
      ensures Valid() && (View(), r) == Resume(old(View()), n, cancelled)
    {
      if !cancelled && consumedSeq < n && !closed { return None; }
      if cancelled && consumedSeq < n && slot != None && slotSeq == n {
        slot := None;
      }
      if consumedSeq >= n { return Some(Sent); }
      if cancelled { return Some(SendCancelled); }
      return Some(SendClosed);
    }

    /** _channel_receive from taking the mutex (or an uncancelled wake).  The source's
        "receive failed without a value" check never fires: a taken slot is not NULL. */
    method ReceiveTake() returns (r: RecvProgress<M>)
      requires Valid()
      modifies this`consumedSeq, this`slot, this`head, this`count, buffer
      ensures Valid() && (View(), r) == Take(old(View()))
    {
      if capacity == 0 {
        if slot == None && !closed { return AwaitMessage; }
        if slot != None {
          var message := slot.value;
          consumedSeq := slotSeq;
          slot := None;
          return Got(Took(message));
        }
        return Got(ClosedEmpty);
      }
      if count == 0 && !closed { return AwaitMessage; }
      if count > 0 {
        RingPop(buffer[..], head, tail, count);
        var message := buffer[head];
        buffer[head] := None;
        assert buffer[..] == old(buffer[..])[head := None];
        head := (head + 1) % capacity;
        count := count - 1;
        return Got(Took(message.value));
      }
      return Got(ClosedEmpty);
    }

    method CloseChannel() returns (ok: bool)
      requires Valid()
      modifies this`closed, this`slot
      ensures Valid() && (View(), ok) == Close(old(View()))
    {
      if closed { return false; }
      closed := true;
      if capacity == 0 { slot := None; }
      return true;
    }
  }
}
