/**
  Dispatch of admin replies and stream messages (cjdns-admin/src/conn/dispatch.rs:206-276): replies go to
  the request with their transaction id, other messages to the subscriber of their stream.

  A response slot is answered through a one-shot channel, a subscriber through a bounded queue; both
  keep here what was ever sent, and their receivers may close them or take messages at any time.
 */
module Dispatching {
  import opened Wrappers

  /** A decoded message: its metadata, and the rest of it as a number. */
  datatype Msg = Msg(txid: string, error: Option<string>, streamId: Option<string>, body: nat)

  datatype Answer = Reply(msg: Msg) | RemoteError(msg: Msg) | RepeatingTx(txid: string)

  datatype DispatchError = ResponseClosed | StreamFailed | UnknownStream | UnknownTxid

  datatype Slot = Slot(txid: string, closed: bool, answers: seq<Answer>)

  /** `log` is all that was ever put into the queue, of which `pending` are not yet taken. */
  datatype Channel = Channel(streamId: string, closed: bool, pending: nat, log: seq<Msg>)

  /** Slots and channels are numbered in the order of their making. */
  datatype State = State(requests: map<string, nat>, streams: map<string, nat>, slots: seq<Slot>, channels: seq<Channel>)

  const STREAM_QUEUE_BOUND := 0x100

  const Empty := State(map[], map[], [], [])

  ghost predicate Valid(s: State) {
    && (forall t :: t in s.requests ==>
          s.requests[t] < |s.slots| && s.slots[s.requests[t]].txid == t && s.slots[s.requests[t]].answers == [])
    && (forall t :: t in s.streams ==> s.streams[t] < |s.channels| && s.channels[s.streams[t]].streamId == t)
    && (forall i :: 0 <= i < |s.slots| ==> Proper(s.slots[i]))
  }

  /** Answered at most once, by a message with the slot's own txid or by the repeated-txid error. */
  ghost predicate Proper(slot: Slot) {
    && |slot.answers| <= 1
    && (slot.answers != [] ==>
          match slot.answers[0]
          case Reply(m) => m.txid == slot.txid && m.error.None?
          case RemoteError(m) => m.txid == slot.txid && m.error.Some?
          case RepeatingTx(t) => t == slot.txid)
  }

  /** Sending an answer has an effect only while the receiver is there. */
  function Answered(slot: Slot, a: Answer): Slot {
    if slot.closed then slot else slot.(answers := slot.answers + [a])
  }

  predicate CanSend(c: Channel) {
    !c.closed && c.pending < STREAM_QUEUE_BOUND
  }

  function Requested(s: State, txid: string): State {
    var slot := Slot(txid, false, []);
    if txid in s.requests then s.(slots := s.slots + [Answered(slot, RepeatingTx(txid))])
    else s.(slots := s.slots + [slot], requests := s.requests[txid := |s.slots|])
  }

  function Dispatched(s: State, m: Msg): State
    requires Valid(s)
  {
    if m.txid in s.requests then
      var k := s.requests[m.txid];
      var requests := s.requests - {m.txid};
      if m.error.Some? then
        s.(requests := requests, slots := s.slots[k := Answered(s.slots[k], RemoteError(m))])
      else
        var s' := s.(requests := requests, slots := s.slots[k := Answered(s.slots[k], Reply(m))]);
        if m.streamId.None? then s'
        else s'.(streams := s.streams[m.streamId.value := |s.channels|],
                 channels := s.channels + [Channel(m.streamId.value, s.slots[k].closed, 0, [])])
    else if m.streamId.Some? && m.streamId.value in s.streams then
      var c := s.streams[m.streamId.value];
      if CanSend(s.channels[c])
      then s.(channels := s.channels[c := s.channels[c].(pending := s.channels[c].pending + 1, log := s.channels[c].log + [m])])
      else s.(streams := s.streams - {m.streamId.value})
    else s
  }

  function Cleaned(s: State): State
    requires Valid(s)
  {
    s.(requests := map t | t in s.requests && !s.slots[s.requests[t]].closed :: s.requests[t],
       streams := map t | t in s.streams && !s.channels[s.streams[t]].closed :: s.streams[t])
  }

  /** Besides the three entry points: the receiving ends close, and a subscriber takes a message. */
  datatype Event =
    | Request(txid: string)
    | Incoming(msg: Msg)
    | Cleanup
    | CloseSlot(k: nat)
    | CloseChannel(c: nat)
    | Take(c: nat)

  function Step(s: State, e: Event): State
    requires Valid(s)
  {
    match e
    case Request(txid) => Requested(s, txid)
    case Incoming(m) => Dispatched(s, m)
    case Cleanup => Cleaned(s)
    case CloseSlot(k) => if k < |s.slots| then s.(slots := s.slots[k := s.slots[k].(closed := true)]) else s
    case CloseChannel(c) => if c < |s.channels| then s.(channels := s.channels[c := s.channels[c].(closed := true)]) else s
    case Take(c) =>
      if c < |s.channels| && s.channels[c].pending > 0
      then s.(channels := s.channels[c := s.channels[c].(pending := s.channels[c].pending - 1)]) else s
  }

  lemma RequestedValid(s: State, txid: string)
    requires Valid(s)
    ensures Valid(Requested(s, txid))
  {
  }

  lemma ReplyValid(s: State, m: Msg)
    requires Valid(s) && m.txid in s.requests
    ensures Valid(Dispatched(s, m))
  {
  }

  lemma StreamMessageValid(s: State, m: Msg)
    requires Valid(s) && m.txid !in s.requests
    ensures Valid(Dispatched(s, m))
  {
  }

  lemma CleanedValid(s: State)
    requires Valid(s)
    ensures Valid(Cleaned(s))
  {
  }

  lemma StepKeepsValid(s: State, e: Event)
    requires Valid(s)
    ensures Valid(Step(s, e))
  {
    match e
    case Request(txid) => RequestedValid(s, txid);
    case Incoming(m) => if m.txid in s.requests { ReplyValid(s, m); } else { StreamMessageValid(s, m); }
    case Cleanup => CleanedValid(s);
    case CloseSlot(k) =>
    case CloseChannel(c) =>
    case Take(c) =>
  }

  ghost function Run(s: State, events: seq<Event>): (r: State)
    requires Valid(s)
    ensures Valid(r)
    decreases events
  {
    if events == [] then s else StepKeepsValid(s, events[0]); Run(Step(s, events[0]), events[1..])
  }

  /** A slot keeps its txid and every answer it has been given. */
  lemma StepKeepsAnswers(s: State, e: Event, k: nat)
    requires Valid(s) && k < |s.slots|
    ensures var s' := Step(s, e);
            k < |s'.slots| && s'.slots[k].txid == s.slots[k].txid && s.slots[k].answers <= s'.slots[k].answers
  {
    if e.Incoming? {
      hide Requested, Cleaned;
      DispatchKeepsAnswers(s, e.msg, k);
    } else {
      hide Dispatched;
    }
  }

  lemma DispatchKeepsAnswers(s: State, m: Msg, k: nat)
    requires Valid(s) && k < |s.slots|
    ensures var s' := Dispatched(s, m);
            k < |s'.slots| && s'.slots[k].txid == s.slots[k].txid && s.slots[k].answers <= s'.slots[k].answers
  {
    hide Proper;
  }

  lemma {:induction false} RunKeepsAnswers(s: State, events: seq<Event>, k: nat)
    requires Valid(s) && k < |s.slots|
    ensures var r := Run(s, events);
            k < |r.slots| && r.slots[k].txid == s.slots[k].txid && s.slots[k].answers <= r.slots[k].answers
    decreases events
  {
    hide Step, Valid;
    if events != [] {
      StepKeepsValid(s, events[0]);
      StepKeepsAnswers(s, events[0], k);
      RunKeepsAnswers(Step(s, events[0]), events[1..], k);
    }
  }

  /**
    In every run a slot is answered at most once, properly, and for good: an answer that is there
    after some events is the only one after any further events.
   */
  lemma AnsweredOnce(events: seq<Event>, more: seq<Event>, k: nat)
    requires k < |Run(Empty, events).slots|
    ensures var s := Run(Empty, events);
            var r := Run(s, more);
            && Proper(s.slots[k])
            && k < |r.slots| && Proper(r.slots[k])
            && (s.slots[k].answers != [] ==> r.slots[k].answers == s.slots[k].answers)
  {
    var s := Run(Empty, events);
    RunKeepsAnswers(s, more, k);
    var r := Run(s, more);
    assert Proper(s.slots[k]) && Proper(r.slots[k]);
  }

  /** A reply answers the request with its txid and no other; with a stream it also subscribes the requester. */
  lemma ReplyGoesToItsRequest(s: State, m: Msg)
    requires Valid(s) && m.txid in s.requests
    ensures var k := s.requests[m.txid];
            var s' := Step(s, Incoming(m));
            && |s'.slots| == |s.slots| && m.txid !in s'.requests
            && (forall i :: 0 <= i < |s.slots| && i != k ==> s'.slots[i] == s.slots[i])
            && s'.slots[k] == (if s.slots[k].closed then s.slots[k]
                               else s.slots[k].(answers := [if m.error.Some? then RemoteError(m) else Reply(m)]))
            && (m.error.None? && m.streamId.Some? ==>
                  && Subscribed(s', |s.channels|)
                  && s'.channels == s.channels + [Channel(m.streamId.value, s.slots[k].closed, 0, [])])
  {
  }

  /** A message that is no reply and has no subscriber changes nothing; an error opens no stream. */
  lemma UnroutableChangesNothing(s: State, m: Msg)
    requires Valid(s)
    ensures m.txid !in s.requests && (m.streamId.None? || m.streamId.value !in s.streams) ==> Step(s, Incoming(m)) == s
    ensures m.txid in s.requests && (m.error.Some? || m.streamId.None?) ==>
              Step(s, Incoming(m)).streams == s.streams && Step(s, Incoming(m)).channels == s.channels
  {
  }

  /** Cleaning up removes exactly the requests and streams whose receivers are gone. */
  lemma CleanupKeepsOpen(s: State)
    requires Valid(s)
    ensures var s' := Step(s, Cleanup);
            && s'.slots == s.slots && s'.channels == s.channels
            && (forall t :: t in s'.requests <==> t in s.requests && !s.slots[s.requests[t]].closed)
            && (forall t :: t in s'.requests ==> s'.requests[t] == s.requests[t])
            && (forall t :: t in s'.streams <==> t in s.streams && !s.channels[s.streams[t]].closed)
            && (forall t :: t in s'.streams ==> s'.streams[t] == s.streams[t])
  {
  }

  /** Slot `k` waits for a reply with its txid. */
  ghost predicate Waiting(s: State, txid: string, k: nat) {
    && txid in s.requests && s.requests[txid] == k
    && k < |s.slots| && s.slots[k].txid == txid && !s.slots[k].closed && s.slots[k].answers == []
  }

  /** A request with a free txid waits; one with a txid in use is refused at once and disturbs nothing. */
  lemma RequestIsEntered(s: State, txid: string)
    requires Valid(s)
    ensures var s' := Step(s, Request(txid));
            && |s'.slots| == |s.slots| + 1 && s'.slots[..|s.slots|] == s.slots
            && (txid !in s.requests ==> Waiting(s', txid, |s.slots|))
            && (txid in s.requests ==> s'.requests == s.requests && s'.slots[|s.slots|].answers == [RepeatingTx(txid)])
  {
  }

  lemma StaysWaiting(s: State, e: Event, txid: string, k: nat)
    requires Valid(s) && Waiting(s, txid, k) && e != CloseSlot(k) && !(e.Incoming? && e.msg.txid == txid)
    ensures Waiting(Step(s, e), txid, k)
  {
    if e.Incoming? {
      hide Requested, Cleaned;
    } else {
      hide Dispatched;
    }
  }

  lemma {:induction false} RunStaysWaiting(s: State, events: seq<Event>, txid: string, k: nat)
    requires Valid(s) && Waiting(s, txid, k)
    requires forall e :: e in events ==> e != CloseSlot(k) && !(e.Incoming? && e.msg.txid == txid)
    ensures Waiting(Run(s, events), txid, k)
    decreases events
  {
    hide Step, Valid, Waiting;
    if events != [] {
      assert events[0] in events && forall e :: e in events[1..] ==> e in events;
      StepKeepsValid(s, events[0]);
      StaysWaiting(s, events[0], txid, k);
      RunStaysWaiting(Step(s, events[0]), events[1..], txid, k);
    }
  }

  /** In every run, a request with a free txid is answered by the next reply with that txid while its receiver is there. */
  lemma RequestIsAnswered(s: State, txid: string, events: seq<Event>, m: Msg)
    requires Valid(s) && txid !in s.requests && m.txid == txid
    requires forall e :: e in events ==> e != CloseSlot(|s.slots|) && !(e.Incoming? && e.msg.txid == txid)
    ensures Valid(Step(s, Request(txid)))
    ensures var waiting := Run(Step(s, Request(txid)), events);
            var answered := Step(waiting, Incoming(m));
            && |s.slots| < |answered.slots|
            && answered.slots[|s.slots|].answers == [if m.error.Some? then RemoteError(m) else Reply(m)]
  {
    hide Step, Valid;
    StepKeepsValid(s, Request(txid));
    RequestIsEntered(s, txid);
    RunStaysWaiting(Step(s, Request(txid)), events, txid, |s.slots|);
    ReplyGoesToItsRequest(Run(Step(s, Request(txid)), events), m);
  }

  // ---------------------------------------------------------------- what a subscriber receives

  /** Channel `c` is the current subscriber of its stream. */
  ghost predicate Subscribed(s: State, c: nat) {
    c < |s.channels| && s.channels[c].streamId in s.streams && s.streams[s.channels[c].streamId] == c
  }

  /** A message that is no reply and belongs to stream `id`. */
  ghost predicate IsStreamMessage(s: State, e: Event, id: string) {
    e.Incoming? && e.msg.txid !in s.requests && e.msg.streamId == Some(id)
  }

  /** The three ways to lose a subscription: a failed send, cleanup of a closed stream, a new subscriber. */
  ghost predicate Ends(s: State, e: Event, c: nat)
    requires c < |s.channels|
  {
    var ch := s.channels[c];
    || (IsStreamMessage(s, e, ch.streamId) && (ch.closed || ch.pending >= 256))
    || (e.Cleanup? && ch.closed)
    || (e.Incoming? && e.msg.txid in s.requests && e.msg.error.None? && e.msg.streamId == Some(ch.streamId))
  }

  /** The messages of a stream in a run, in order. */
  ghost function StreamMessages(s: State, events: seq<Event>, id: string): seq<Msg>
    requires Valid(s)
    decreases events
  {
    if events == [] then []
    else
      StepKeepsValid(s, events[0]);
      (if IsStreamMessage(s, events[0], id) then [events[0].msg] else []) + StreamMessages(Step(s, events[0]), events[1..], id)
  }

  lemma StepOfSubscribed(s: State, e: Event, c: nat)
    requires Valid(s) && Subscribed(s, c)
    ensures var s' := Step(s, e);
            var id := s.channels[c].streamId;
            && c < |s'.channels| && s'.channels[c].streamId == id
            && (Subscribed(s', c) <==> !Ends(s, e, c))
            && s'.channels[c].log ==
               if IsStreamMessage(s, e, id) && !Ends(s, e, c) then s.channels[c].log + [e.msg] else s.channels[c].log
  {
    if e.Incoming? {
      hide Requested, Cleaned, Dispatched;
      if e.msg.txid in s.requests {
        ReplyToSubscribed(s, e.msg, c);
      } else {
        MessageToSubscribed(s, e.msg, c);
      }
    } else {
      hide Dispatched, Proper;
    }
  }

  lemma ReplyToSubscribed(s: State, m: Msg, c: nat)
    requires Valid(s) && Subscribed(s, c) && m.txid in s.requests
    ensures var s' := Dispatched(s, m);
            && c < |s'.channels| && s'.channels[c] == s.channels[c]
            && (Subscribed(s', c) <==> !(m.error.None? && m.streamId == Some(s.channels[c].streamId)))
  {
    hide Proper, Answered;
  }

  lemma MessageToSubscribed(s: State, m: Msg, c: nat)
    requires Valid(s) && Subscribed(s, c) && m.txid !in s.requests
    ensures var s', ch := Dispatched(s, m), s.channels[c];
            && c < |s'.channels| && s'.channels[c].streamId == ch.streamId
            && (Subscribed(s', c) <==> !(m.streamId == Some(ch.streamId) && !CanSend(ch)))
            && s'.channels[c].log == if m.streamId == Some(ch.streamId) && CanSend(ch) then ch.log + [m] else ch.log
  {
    hide Proper;
  }

  lemma StepOfUnsubscribed(s: State, e: Event, c: nat)
    requires Valid(s) && c < |s.channels| && !Subscribed(s, c)
    ensures var s' := Step(s, e);
            && c < |s'.channels| && s'.channels[c].streamId == s.channels[c].streamId
            && !Subscribed(s', c) && s'.channels[c].log == s.channels[c].log
  {
    if e.Incoming? {
      hide Requested, Cleaned, Dispatched;
      MessageToUnsubscribed(s, e.msg, c);
    } else {
      hide Dispatched, Proper;
    }
  }

  lemma MessageToUnsubscribed(s: State, m: Msg, c: nat)
    requires Valid(s) && c < |s.channels| && !Subscribed(s, c)
    ensures var s' := Dispatched(s, m);
            c < |s'.channels| && !Subscribed(s', c) && s'.channels[c] == s.channels[c]
  {
    hide Proper, Answered;
  }

  lemma {:induction false} NothingAfterTheEnd(s: State, events: seq<Event>, c: nat)
    requires Valid(s) && c < |s.channels| && !Subscribed(s, c)
    ensures var r := Run(s, events);
            c < |r.channels| && !Subscribed(r, c) && r.channels[c].log == s.channels[c].log
    decreases events
  {
    if events != [] {
      StepKeepsValid(s, events[0]);
      StepOfUnsubscribed(s, events[0], c);
      NothingAfterTheEnd(Step(s, events[0]), events[1..], c);
    }
  }

  /** `k` is the index of the first event that ends the subscription, or the number of events if none does. */
  ghost predicate FirstEnd(s: State, events: seq<Event>, c: nat, k: nat)
    requires Valid(s)
    decreases events
  {
    && c < |s.channels|
    && if events == [] || Ends(s, events[0], c) then k == 0
       else
         StepKeepsValid(s, events[0]);
         k > 0 && FirstEnd(Step(s, events[0]), events[1..], c, k - 1)
  }

  /**
    A subscriber receives, in order and without gaps, exactly the stream's messages from its
    subscription until the first event that ends it, and nothing after that.
   */
  lemma {:induction false} SubscriberReceives(s: State, events: seq<Event>, c: nat) returns (k: nat)
    requires Valid(s) && Subscribed(s, c)
    ensures k <= |events| && FirstEnd(s, events, c, k)
    ensures c < |Run(s, events).channels|
    ensures Run(s, events).channels[c].log ==
            s.channels[c].log + StreamMessages(s, events[..k], s.channels[c].streamId)
    ensures Subscribed(Run(s, events), c) <==> k == |events|
    decreases events
  {
    hide Step, Valid, Ends, IsStreamMessage, Subscribed, StreamMessages;
    StepOfChannel(s, c);
    k := 0;
    var id, log := s.channels[c].streamId, s.channels[c].log;
    NoMessages(s, events, id, log);
    if events != [] {
      var e, rest := events[0], events[1..];
      var s' := Step(s, e);
      StepKeepsValid(s, e);
      StepOfSubscribed(s, e, c);
      if Ends(s, e, c) {
        NothingAfterTheEnd(s', rest, c);
      } else {
        var j := SubscriberReceives(s', rest, c);
        k := j + 1;
        MoreMessages(s, events, j, id, log);
      }
    }
  }

  lemma NoMessages(s: State, events: seq<Event>, id: string, log: seq<Msg>)
    requires Valid(s)
    ensures log + StreamMessages(s, events[..0], id) == log
  {
  }

  lemma MoreMessages(s: State, events: seq<Event>, j: nat, id: string, log: seq<Msg>)
    requires Valid(s) && events != [] && j < |events| && Valid(Step(s, events[0]))
    ensures var e := events[0];
            log + StreamMessages(s, events[..j + 1], id) ==
            (if IsStreamMessage(s, e, id) then log + [e.msg] else log) + StreamMessages(Step(s, e), events[1..][..j], id)
  {
    hide Valid, Step, IsStreamMessage;
    assert events[..j + 1][0] == events[0] && events[..j + 1][1..] == events[1..][..j];
  }

  lemma StepOfChannel(s: State, c: nat)
    requires Subscribed(s, c)
    ensures c < |s.channels|
  {
  }

  // ---------------------------------------------------------------- the program

  class Dispatcher {
    var requests: map<string, nat>
    var streams: map<string, nat>
    var slots: seq<Slot>
    var channels: seq<Channel>

    ghost function View(): State
      reads this
    {
      State(requests, streams, slots, channels)
    }

    constructor ()
      ensures View() == Empty && Valid(View())
    {
      requests, streams, slots, channels := map[], map[], [], [];
    }

    method Cleanup()
      requires Valid(View())
      modifies this
      ensures Valid(View()) && View() == Step(old(View()), Event.Cleanup)
    {
      CleanedValid(View());
      requests := map t | t in requests && !slots[requests[t]].closed :: requests[t];
      streams := map t | t in streams && !channels[streams[t]].closed :: streams[t];
    }

    /** Sends on a response slot; fails if its receiver is gone. */
    method Send(k: nat, a: Answer) returns (ok: bool)
      requires k < |slots|
      modifies this`slots
      ensures ok == !old(slots)[k].closed && slots == old(slots)[k := Answered(old(slots)[k], a)]
    {
      ok := !slots[k].closed;
      slots := slots[k := Answered(slots[k], a)];
    }

    /** Routes a decoded message by its txid, or else by its stream. */
    method DispatchMessage(m: Msg) returns (r: Result<(), DispatchError>)
      requires Valid(View())
      modifies this
      ensures Valid(View()) && View() == Step(old(View()), Incoming(m))
      ensures r == Err(UnknownTxid) <==> m.txid !in old(requests) && m.streamId.None?
      ensures r == Err(UnknownStream) <==>
                m.txid !in old(requests) && m.streamId.Some? && m.streamId.value !in old(streams)
      ensures r == Err(ResponseClosed) <==> m.txid in old(requests) && old(slots[requests[m.txid]].closed)
      ensures r == Err(StreamFailed) <==>
                && m.txid !in old(requests) && m.streamId.Some? && m.streamId.value in old(streams)
                && !CanSend(old(channels[streams[m.streamId.value]]))
    {
      StepKeepsValid(View(), Incoming(m));
      if m.txid in requests {
        var k := requests[m.txid];
        requests := requests - {m.txid};
        var closed := slots[k].closed;
        var response := Reply(m);
        if m.error.Some? {
          response := RemoteError(m);
        } else if m.streamId.Some? {
          var tx := |channels|;
          channels := channels + [Channel(m.streamId.value, closed, 0, [])];
          streams := streams[m.streamId.value := tx];
        }
        var ok := Send(k, response);
        r := if ok then Ok(()) else Err(ResponseClosed);
      } else if m.streamId.Some? {
        var id := m.streamId.value;
        if id in streams {
          var c := streams[id];
          var ch := channels[c];
          if CanSend(ch) {
            channels := channels[c := ch.(pending := ch.pending + 1, log := ch.log + [m])];
            r := Ok(());
          } else {
            streams := streams - {id};
            r := Err(StreamFailed);
          }
        } else {
          r := Err(UnknownStream);
        }
      } else {
        r := Err(UnknownTxid);
      }
    }

    /** Registers a new request; its slot is answered at once if the txid is taken. */
    method HandleRequest(txid: string)
      requires Valid(View())
      modifies this
      ensures Valid(View()) && View() == Step(old(View()), Request(txid))
    {
      RequestedValid(View(), txid);
      var k := |slots|;
      slots := slots + [Slot(txid, false, [])];
      if txid in requests {
        var ok := Send(k, RepeatingTx(txid));
        assert slots == old(slots) + [Answered(Slot(txid, false, []), RepeatingTx(txid))];
      } else {
        requests := requests[txid := k];
      }
    }
  }
}
