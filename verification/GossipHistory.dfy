/**
  What gossip delivers. The runs of `Gossip` are followed with a record of what was asked, of what
  the server held when it took each request, and of what the client knew when it was told of a hash.
  Every completed request is answered with what the server held at that moment under the very hash
  asked for; and when nothing is on the way any more, nothing that the server holds has been missed.
 */
module GossipHistory {
  import opened Wrappers
  import opened Announcements
  import opened Gossip

  /**
    `asked` is the hash of each request made, `taken` is what the server held when it took the
    request, `known` are the hashes the client had when it was told of them.
   */
  datatype History = History(now: System, asked: map<nat, Hash>, taken: map<nat, map<Hash, Data>>, known: set<Hash>)

  /** The hash that each request among some messages asks for. */
  ghost function Asking(ms: seq<Message>): map<nat, Hash> {
    if ms == [] then map[]
    else Asking(ms[1..]) + (if ms[0].data.GET_DATA? then map[ms[0].id := ms[0].data.hash] else map[])
  }

  /** What the client sends when it receives a message. */
  ghost function SentByClient(s: System, step: Step): seq<Message> {
    var sent := Next(s, step).toServer;
    if step.ClientReceives? && |s.toServer| <= |sent| then sent[|s.toServer|..] else []
  }

  /** The request that the server takes in a step, with what it holds then. */
  ghost function TakenByServer(s: System, step: Step): map<nat, map<Hash, Data>> {
    if step.ServerReceives? && s.toServer != [] && s.toServer[0].data.GET_DATA?
    then map[s.toServer[0].id := s.server.anns] else map[]
  }

  /** The hashes that the client is told of in a step and has already. */
  ghost function KnownByClient(s: System, step: Step): set<Hash> {
    if step.ClientReceives? && s.toClient != [] && s.toClient[0].data.INV?
    then set h | h in s.toClient[0].data.hashes && h in s.client.anns else {}
  }

  ghost function Advance(h: History, step: Step): History {
    History(Next(h.now, step), Asking(SentByClient(h.now, step)) + h.asked,
            TakenByServer(h.now, step) + h.taken, h.known + KnownByClient(h.now, step))
  }

  ghost function Trace(h: History, steps: seq<Step>): History
    decreases steps
  {
    if steps == [] then h else Trace(Advance(h, steps[0]), steps[1..])
  }

  ghost function Beginning(s: System): History {
    History(s, map[], map[], {})
  }

  /** What is held under a hash; nothing if it is not held. */
  ghost function HeldFor(anns: map<Hash, Data>, h: Hash): Data {
    if h in anns then anns[h] else []
  }

  /** The data is what was held under the hash asked for when the request was taken. */
  ghost predicate Right(asked: map<nat, Hash>, taken: map<nat, map<Hash, Data>>, id: nat, data: Data) {
    id in asked && id in taken && data == HeldFor(taken[id], asked[id])
  }

  ghost predicate AllAsked(asked: map<nat, Hash>, ms: seq<Message>) {
    forall i :: 0 <= i < |ms| && ms[i].data.GET_DATA? ==> ms[i].id in asked && asked[ms[i].id] == ms[i].data.hash
  }

  ghost predicate AllRight(asked: map<nat, Hash>, taken: map<nat, map<Hash, Data>>, ms: seq<Message>) {
    forall i :: 0 <= i < |ms| && ms[i].data.DATA? ==> Right(asked, taken, ms[i].id, ms[i].data.data)
  }

  ghost predicate AllDelivered(asked: map<nat, Hash>, taken: map<nat, map<Hash, Data>>, completed: seq<nat>, delivered: seq<Data>) {
    && |completed| == |delivered|
    && forall i :: 0 <= i < |completed| ==> Right(asked, taken, completed[i], delivered[i])
  }

  /** A request that was taken has its answer on the way or is completed. */
  ghost predicate TakenAnswered(taken: map<nat, map<Hash, Data>>, ms: seq<Message>, completed: seq<nat>) {
    forall id :: id in taken ==> id in completed || id in Answers(ms)
  }

  ghost predicate Honest(h: History) {
    && (forall id :: id in h.asked ==> id in h.now.issued && id < h.now.client.nextSeq)
    && AllAsked(h.asked, h.now.toServer)
    && AllRight(h.asked, h.taken, h.now.toClient)
    && AllDelivered(h.asked, h.taken, h.now.completed, h.now.delivered)
    && TakenAnswered(h.taken, h.now.toClient, h.now.completed)
  }

  /** Whatever the server holds is named on the way to the client, was known to it or was asked for. */
  ghost predicate NoneMissed(h: History) {
    forall x :: x in h.now.server.anns ==> x in Named(h.now.toClient) || x in h.known || x in h.asked.Values
  }

  // ---------------------------------------------------------------- answers are right

  /** What was right stays right when more has been asked and taken. */
  lemma StaysRight(asked: map<nat, Hash>, taken: map<nat, map<Hash, Data>>, asked': map<nat, Hash>, taken': map<nat, map<Hash, Data>>,
                   requests: seq<Message>, answers: seq<Message>, completed: seq<nat>, delivered: seq<Data>)
    requires forall id :: id in asked ==> id in asked' && asked'[id] == asked[id]
    requires forall id :: id in taken ==> id in taken' && taken'[id] == taken[id]
    ensures AllAsked(asked, requests) ==> AllAsked(asked', requests)
    ensures AllRight(asked, taken, answers) ==> AllRight(asked', taken', answers)
    ensures AllDelivered(asked, taken, completed, delivered) ==> AllDelivered(asked', taken', completed, delivered)
  {
    hide HeldFor;
  }

  lemma MoreMessages(asked: map<nat, Hash>, taken: map<nat, map<Hash, Data>>, ms: seq<Message>, sent: seq<Message>)
    ensures AllAsked(asked, ms) && AllAsked(asked, sent) ==> AllAsked(asked, ms + sent)
    ensures AllRight(asked, taken, ms) && AllRight(asked, taken, sent) ==> AllRight(asked, taken, ms + sent)
    ensures ms != [] && AllAsked(asked, ms) ==> AllAsked(asked, ms[1..])
    ensures ms != [] && AllRight(asked, taken, ms) ==> AllRight(asked, taken, ms[1..])
  {
    hide HeldFor;
  }

  /** The requests made for a list of hashes bear numbers never used before, one for each. */
  lemma {:induction false} NewRequests(e: Endpoint, hashes: seq<Hash>)
    requires forall id :: id in e.outstanding ==> id < e.nextSeq
    ensures var effect := RequestUnknown(e, hashes);
            && e.nextSeq <= effect.endpoint.nextSeq && e.outstanding <= effect.endpoint.outstanding
            && AllAsked(Asking(effect.sent), effect.sent)
            && (forall id :: id in Asking(effect.sent) ==>
                  && e.nextSeq <= id < effect.endpoint.nextSeq && id in effect.endpoint.outstanding
                  && Asking(effect.sent)[id] in hashes && Asking(effect.sent)[id] !in e.anns)
            && (forall h :: h in hashes && h !in e.anns ==> h in Asking(effect.sent).Values)
    decreases hashes
  {
    if hashes != [] {
      if hashes[0] in e.anns {
        NewRequests(e, hashes[1..]);
      } else {
        var e' := e.(outstanding := e.outstanding + {e.nextSeq}, nextSeq := e.nextSeq + 1);
        NewRequests(e', hashes[1..]);
        var more := RequestUnknown(e', hashes[1..]).sent;
        var sent := RequestUnknown(e, hashes).sent;
        assert sent[1..] == more;
        assert Asking(sent)[e.nextSeq] == hashes[0];
        AllAskedMore(sent);
      }
    }
  }

  lemma AllAskedMore(sent: seq<Message>)
    requires sent != [] && sent[0].data.GET_DATA? && sent[0].id !in Asking(sent[1..])
    requires AllAsked(Asking(sent[1..]), sent[1..])
    ensures AllAsked(Asking(sent), sent) && Asking(sent[1..]).Values <= Asking(sent).Values
  {
    forall i | 0 < i < |sent| && sent[i].data.GET_DATA?
      ensures sent[i].id in Asking(sent) && Asking(sent)[sent[i].id] == sent[i].data.hash
    {
      assert sent[1..][i - 1] == sent[i];
    }
    forall id | id in Asking(sent[1..])
      ensures id in Asking(sent) && Asking(sent)[id] == Asking(sent[1..])[id]
    {
    }
  }

  /** A request on its way has not been taken before. */
  lemma NotTakenBefore(h: History)
    requires Invariant(h.now) && Honest(h) && h.now.toServer != [] && h.now.toServer[0].data.GET_DATA?
    ensures h.now.toServer[0].id !in h.taken
  {
    var s, id := h.now, h.now.toServer[0].id;
    assert id in Requests(s.toServer);
    CountInSet(s.client.outstanding, id);
    assert (Requests(s.toServer) + Answers(s.toClient))[id] == multiset(s.client.outstanding)[id];
    assert id !in Answers(s.toClient) && id in s.client.outstanding;
    OutstandingIsIssued(s.completed, s.client.outstanding, s.issued);
  }

  lemma ServerAnswersRight(h: History)
    requires Invariant(h.now) && Honest(h) && h.now.toServer != []
    ensures Honest(Advance(h, ServerReceives))
  {
    hide Requests, Answers, Asking, AllDelivered, AllRight, AllAsked, HeldFor;
    var s, h' := h.now, Advance(h, ServerReceives);
    var m := s.toServer[0];
    var effect := Handle(s.server, m);
    assert ClientSends(m);
    if m.data.GET_DATA? {
      NotTakenBefore(h);
    }
    NothingAsked(h.asked);
    StaysRight(h.asked, h.taken, h'.asked, h'.taken, s.toServer, s.toClient, s.completed, s.delivered);
    OneAnswer(h, m, effect.sent);
    MoreMessages(h'.asked, h'.taken, s.toClient, effect.sent);
    MoreMessages(h'.asked, h'.taken, s.toServer, []);
    AnswersConcat(s.toClient, effect.sent);
  }

  /** The only answer that the server sends is what it holds. */
  lemma OneAnswer(h: History, m: Message, sent: seq<Message>)
    requires Honest(h) && h.now.toServer != [] && m == h.now.toServer[0] && ClientSends(m) && h.now.server.peerType == Incoming
    requires m.data.GET_DATA? ==> m.id !in h.taken
    requires sent == Handle(h.now.server, m).sent
    ensures var h' := Advance(h, ServerReceives);
            AllRight(h'.asked, h'.taken, sent) && (m.data.GET_DATA? ==> m.id in Answers(sent))
  {
    NothingAsked(h.asked);
    if m.data.GET_DATA? {
      TakenNow(h, m);
      assert sent == [Message(m.id, DATA(HeldFor(h.now.server.anns, m.data.hash)))];
    }
  }

  lemma TakenNow(h: History, m: Message)
    requires h.now.toServer != [] && m == h.now.toServer[0] && m.data.GET_DATA? && m.id !in h.taken
    ensures Advance(h, ServerReceives).taken[m.id] == h.now.server.anns
  {
    hide Next;
  }

  lemma NothingAsked(asked: map<nat, Hash>)
    ensures Asking([]) + asked == asked
  {
  }

  lemma ClientAsksRight(h: History)
    requires Invariant(h.now) && Honest(h) && h.now.toClient != [] && h.now.toClient[0].data.INV?
    ensures Honest(Advance(h, ClientReceives))
  {
    hide Requests, Answers, Asking, AllDelivered, AllAsked, AllRight, RequestUnknown, Right;
    var s, hashes := h.now, h.now.toClient[0].data.hashes;
    var effect := RequestUnknown(s.client, hashes);
    OutstandingIsIssued(s.completed, s.client.outstanding, s.issued);
    NewRequests(s.client, hashes);
    InvSaysNothing(s.client, hashes);
    var asked' := Asking(effect.sent) + h.asked;
    assert SentByClient(s, ClientReceives) == effect.sent;
    assert Advance(h, ClientReceives).asked == asked' && Advance(h, ClientReceives).taken == h.taken;
    NewlyAsked(h, effect.sent, asked');
    assert s.delivered + [] == s.delivered;
    FirstIsNoAnswer(s.toClient);
  }

  /** New requests with new numbers leave what was asked and answered before as it is. */
  lemma NewlyAsked(h: History, sent: seq<Message>, asked': map<nat, Hash>)
    requires Honest(h) && h.now.toClient != [] && asked' == Asking(sent) + h.asked
    requires AllAsked(Asking(sent), sent) && forall id :: id in Asking(sent) ==> id >= h.now.client.nextSeq
    ensures AllAsked(asked', h.now.toServer + sent) && AllRight(asked', h.taken, h.now.toClient[1..])
    ensures AllDelivered(asked', h.taken, h.now.completed, h.now.delivered)
  {
    hide Asking, AllDelivered, AllAsked, AllRight, TakenAnswered;
    var s := h.now;
    StaysRight(h.asked, h.taken, asked', h.taken, s.toServer, s.toClient, s.completed, s.delivered);
    forall id | id in Asking(sent)
      ensures id in asked' && asked'[id] == Asking(sent)[id]
    {
      assert id !in h.asked;
    }
    StaysRight(Asking(sent), map[], asked', h.taken, sent, [], [], []);
    MoreMessages(asked', h.taken, s.toServer, sent);
    MoreMessages(asked', h.taken, s.toClient, []);
  }

  lemma ClientTakesRight(h: History)
    requires Invariant(h.now) && Honest(h) && h.now.toClient != [] && !h.now.toClient[0].data.INV?
    ensures Honest(Advance(h, ClientReceives))
  {
    hide Requests, Answers, Right, Asking, AllAsked, AllRight, AllDelivered;
    var s := h.now;
    var m := s.toClient[0];
    assert ServerSends(m);
    var effect := Handle(s.client, m);
    assert SentByClient(s, ClientReceives) == effect.sent;
    NothingNew(h.asked, effect.sent);
    assert Asking(effect.sent) + h.asked == h.asked && Advance(h, ClientReceives).taken == h.taken;
    MoreMessages(h.asked, h.taken, s.toServer, effect.sent);
    MoreMessages(h.asked, h.taken, s.toClient, []);
    assert s.delivered + [] == s.delivered;
    if m.data.DATA? {
      AnswerIsOutstanding(s);
      DeliveredMore(h.asked, h.taken, s.toClient, s.completed, s.delivered);
    } else {
      FirstIsNoAnswer(s.toClient);
    }
  }

  lemma AnswerIsOutstanding(s: System)
    requires Invariant(s) && s.toClient != [] && s.toClient[0].data.DATA?
    ensures s.toClient[0].id in s.client.outstanding
    ensures forall id :: id in Answers(s.toClient) ==> id == s.toClient[0].id || id in Answers(s.toClient[1..])
  {
    var id := s.toClient[0].id;
    CountInSet(s.client.outstanding, id);
    assert id in Answers(s.toClient);
  }

  /** Answering a ping asks for nothing. */
  lemma NothingNew(asked: map<nat, Hash>, sent: seq<Message>)
    requires sent == [] || (|sent| == 1 && sent[0].data.ACK?)
    ensures AllAsked(asked, sent) && Asking(sent) == map[]
  {
    assert sent != [] ==> sent[1..] == [];
  }

  lemma DeliveredMore(asked: map<nat, Hash>, taken: map<nat, map<Hash, Data>>, ms: seq<Message>, completed: seq<nat>, delivered: seq<Data>)
    requires AllDelivered(asked, taken, completed, delivered)
    requires ms != [] && ms[0].data.DATA? && AllRight(asked, taken, ms)
    ensures AllDelivered(asked, taken, completed + [ms[0].id], delivered + [ms[0].data.data])
  {
    hide HeldFor;
  }

  lemma OtherStepsStayHonest(h: History, step: Step)
    requires Honest(h) && !step.ServerReceives? && !step.ClientReceives?
    ensures Honest(Advance(h, step))
  {
    hide Asking, AllDelivered, AllAsked, AllRight, Answers;
    var s, h' := h.now, Advance(h, step);
    NothingAsked(h.asked);
    assert h'.taken == h.taken;
    if step.ServerAnnounces? && step.hash !in s.server.anns {
      NoAnswerNoRequest(h.asked, h.taken, s.toClient, Message(0, INV([step.hash])));
    } else if step.ServerPings? {
      NoAnswerNoRequest(h.asked, h.taken, s.toClient, Message(s.server.nextSeq, PING));
    } else if step.ClientPings? {
      NoAnswerNoRequest(h.asked, h.taken, s.toServer, Message(s.client.nextSeq, PING));
    }
  }

  lemma NoAnswerNoRequest(asked: map<nat, Hash>, taken: map<nat, map<Hash, Data>>, ms: seq<Message>, m: Message)
    requires !m.data.DATA? && !m.data.GET_DATA?
    ensures AllAsked(asked, ms) ==> AllAsked(asked, ms + [m])
    ensures AllRight(asked, taken, ms) ==> AllRight(asked, taken, ms + [m])
    ensures Answers(ms + [m]) == Answers(ms)
  {
    assert AllAsked(asked, [m]) && AllRight(asked, taken, [m]);
    hide AllAsked, AllRight, Answers;
    NoAnswers(m);
    AnswersConcat(ms, [m]);
    MoreMessages(asked, taken, ms, [m]);
  }

  lemma StaysHonest(h: History, step: Step)
    requires Invariant(h.now) && Honest(h)
    ensures Honest(Advance(h, step)) && Invariant(Advance(h, step).now)
  {
    hide Honest, Invariant;
    StepKeeps(h.now, step);
    if step.ServerReceives? && h.now.toServer != [] {
      ServerAnswersRight(h);
    } else if step.ClientReceives? && h.now.toClient != [] {
      if h.now.toClient[0].data.INV? {
        ClientAsksRight(h);
      } else {
        ClientTakesRight(h);
      }
    } else if step.ServerReceives? || step.ClientReceives? {
      NothingHappens(h, step);
    } else {
      OtherStepsStayHonest(h, step);
    }
  }

  lemma NothingHappens(h: History, step: Step)
    requires (step.ServerReceives? && h.now.toServer == []) || (step.ClientReceives? && h.now.toClient == [])
    ensures Advance(h, step) == h
  {
    NothingAsked(h.asked);
    assert SentByClient(h.now, step) == [];
  }

  lemma {:induction false} TraceStaysHonest(h: History, steps: seq<Step>)
    requires Invariant(h.now) && Honest(h)
    ensures Honest(Trace(h, steps)) && Trace(h, steps).now == Run(h.now, steps)
    decreases steps
  {
    hide Honest, Invariant;
    if steps != [] {
      StaysHonest(h, steps[0]);
      TraceStaysHonest(Advance(h, steps[0]), steps[1..]);
    }
  }

  lemma BeginsHonest(s: System)
    requires Initial(s)
    ensures Honest(Beginning(s))
  {
    hide Chunks;
    var known :| s.toClient == [Message(0, HELLO(VERSION))] + Chunks(known) && forall h :: h in known <==> h in s.server.anns;
    ChunksOnlyList(known);
  }

  /** In every run, what completes a request is what was held under its hash when the server took it. */
  lemma EveryDelivery(s: System, steps: seq<Step>)
    requires Initial(s)
    ensures var h := Trace(Beginning(s), steps);
            var r := Run(s, steps);
            && h.now == r && |r.completed| == |r.delivered|
            && forall i :: 0 <= i < |r.completed| ==>
                 && r.completed[i] in h.asked && r.completed[i] in h.taken
                 && r.delivered[i] == HeldFor(h.taken[r.completed[i]], h.asked[r.completed[i]])
  {
    hide Invariant;
    InitialInvariant(s);
    BeginsHonest(s);
    TraceStaysHonest(Beginning(s), steps);
  }

  // ---------------------------------------------------------------- what is held for good is delivered

  /** The server holds `d` under `x` now and held it whenever it took a request. */
  ghost predicate AlwaysHeld(h: History, x: Hash, d: Data) {
    && x in h.now.server.anns && h.now.server.anns[x] == d
    && forall id :: id in h.taken ==> x in h.taken[id] && h.taken[id][x] == d
  }

  lemma {:induction false} TraceStaysHeld(h: History, steps: seq<Step>, x: Hash, d: Data)
    requires Invariant(h.now) && AlwaysHeld(h, x, d) && ServerForgets(x) !in steps
    ensures AlwaysHeld(Trace(h, steps), x, d)
    decreases steps
  {
    hide Invariant, AlwaysHeld;
    if steps != [] {
      StepKeeps(h.now, steps[0]);
      StaysHeld(h, steps[0], x, d);
      TraceStaysHeld(Advance(h, steps[0]), steps[1..], x, d);
    }
  }

  lemma StaysHeld(h: History, step: Step, x: Hash, d: Data)
    requires Invariant(h.now) && AlwaysHeld(h, x, d) && step != ServerForgets(x)
    ensures AlwaysHeld(Advance(h, step), x, d)
  {
    hide RequestUnknown, Requests, Answers;
    if step.ServerReceives? && h.now.toServer != [] {
      assert ClientSends(h.now.toServer[0]);
    }
  }

  /** What the server holds from the start and never forgets is what every request for it gets. */
  lemma HeldIsDelivered(s: System, steps: seq<Step>, x: Hash, d: Data)
    requires Initial(s) && x in s.server.anns && s.server.anns[x] == d && ServerForgets(x) !in steps
    ensures var h := Trace(Beginning(s), steps);
            var r := Run(s, steps);
            forall i :: 0 <= i < |r.completed| && i < |r.delivered| && r.completed[i] in h.asked && h.asked[r.completed[i]] == x ==>
              r.delivered[i] == d
  {
    hide Invariant;
    InitialInvariant(s);
    TraceStaysHeld(Beginning(s), steps, x, d);
    EveryDelivery(s, steps);
  }

  // ---------------------------------------------------------------- nothing is missed

  lemma {:induction false} NamedConcat(a: seq<Message>, b: seq<Message>)
    ensures Named(a + b) == Named(a) + Named(b)
  {
    if a == [] {
      assert a + b == b;
    } else {
      assert (a + b)[1..] == a[1..] + b;
      NamedConcat(a[1..], b);
    }
  }

  lemma BeginsWithAll(s: System)
    requires Initial(s)
    ensures NoneMissed(Beginning(s))
  {
    hide Chunks;
    var known :| s.toClient == [Message(0, HELLO(VERSION))] + Chunks(known) && forall h :: h in known <==> h in s.server.anns;
    ChunksNameAll(known);
    assert s.toClient[1..] == Chunks(known);
  }

  lemma StaysUnmissed(h: History, step: Step)
    requires Invariant(h.now) && Honest(h) && NoneMissed(h)
    ensures NoneMissed(Advance(h, step))
  {
    hide Requests, Answers, Named, RequestUnknown, Asking, Honest;
    var s := h.now;
    if step.ServerReceives? && s.toServer != [] {
      ServerNamesAsBefore(h);
    } else if step.ClientReceives? && s.toClient != [] {
      ClientHears(h);
    } else if step.ServerAnnounces? && step.hash !in s.server.anns {
      NamedConcat(s.toClient, [Message(0, INV([step.hash]))]);
      NamedOne(step.hash);
      NothingAsked(h.asked);
    } else if step.ServerPings? {
      NamedConcat(s.toClient, [Message(s.server.nextSeq, PING)]);
      NothingAsked(h.asked);
    } else {
      NothingAsked(h.asked);
    }
  }

  lemma NamedOne(x: Hash)
    ensures Named([Message(0, INV([x]))]) == [x]
  {
    assert [Message(0, INV([x]))][1..] == [];
  }

  lemma ServerNamesAsBefore(h: History)
    requires Invariant(h.now) && NoneMissed(h) && h.now.toServer != []
    ensures NoneMissed(Advance(h, ServerReceives))
  {
    hide Requests, Answers, Named, RequestUnknown, Asking;
    var s := h.now;
    assert ClientSends(s.toServer[0]);
    NamedConcat(s.toClient, Handle(s.server, s.toServer[0]).sent);
    NothingAsked(h.asked);
  }

  /** A hash that the client is told of is known to it or asked for at once. */
  lemma ClientHears(h: History)
    requires Invariant(h.now) && Honest(h) && NoneMissed(h) && h.now.toClient != []
    ensures NoneMissed(Advance(h, ClientReceives))
  {
    hide Requests, Answers, RequestUnknown, Asking, AllAsked, AllRight, AllDelivered, TakenAnswered;
    var s, h' := h.now, Advance(h, ClientReceives);
    var m := s.toClient[0];
    var effect := Handle(s.client, m);
    assert SentByClient(s, ClientReceives) == effect.sent;
    OutstandingIsIssued(s.completed, s.client.outstanding, s.issued);
    if m.data.INV? {
      NewRequests(s.client, m.data.hashes);
      StillAsked(Asking(effect.sent), h.asked);
      forall x | x in s.server.anns
        ensures x in Named(s.toClient[1..]) || x in h'.known || x in h'.asked.Values
      {
        assert x in Named(s.toClient) ==> x in m.data.hashes || x in Named(s.toClient[1..]);
      }
    } else {
      StillAsked(Asking(effect.sent), h.asked);
    }
  }

  lemma StillAsked(more: map<nat, Hash>, asked: map<nat, Hash>)
    ensures asked.Values <= (more + asked).Values
    ensures (forall id :: id in more ==> id !in asked) ==> more.Values <= (more + asked).Values
  {
    var all := more + asked;
    assert forall id :: id in asked ==> id in all && all[id] == asked[id];
    assert forall id :: id in more && id !in asked ==> id in all && all[id] == more[id];
  }

  lemma {:induction false} TraceStaysUnmissed(h: History, steps: seq<Step>)
    requires Invariant(h.now) && Honest(h) && NoneMissed(h)
    ensures NoneMissed(Trace(h, steps))
    decreases steps
  {
    hide Honest, Invariant, NoneMissed;
    if steps != [] {
      StaysHonest(h, steps[0]);
      StaysUnmissed(h, steps[0]);
      TraceStaysUnmissed(Advance(h, steps[0]), steps[1..]);
    }
  }

  /** When nothing is on the way, the client knew of or has been answered on everything that the server holds. */
  lemma NothingIsMissed(s: System, steps: seq<Step>)
    requires Initial(s)
    ensures var h := Trace(Beginning(s), steps);
            var r := Run(s, steps);
            r.toServer == [] && r.toClient == [] ==>
              forall x :: x in r.server.anns ==>
                x in h.known || exists id :: id in r.completed && id in h.asked && h.asked[id] == x
  {
    hide Invariant, Requests, Answers;
    InitialInvariant(s);
    BeginsHonest(s);
    BeginsWithAll(s);
    TraceStaysHonest(Beginning(s), steps);
    TraceStaysUnmissed(Beginning(s), steps);
    QuietMeansDone(s, steps);
  }
}
