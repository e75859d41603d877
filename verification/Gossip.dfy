/**
  The gossip of announcements between two supernodes (cjdns-snode/src/peer.rs:112-298,
  peer/peer.rs:56-62): the accepting side lists hashes with INV, the connecting side asks for unknown
  ones with GET_DATA and is answered with DATA. Handlers are atomic steps, each direction of the
  connection is a first-in first-out channel, and the sequence counter does not wrap.
 */
module Gossip {
  import opened Wrappers
  import opened Announcements

  type Data = seq<Byte>

  datatype MessageData =
    | HELLO(version: nat)
    | OLLEH(version: nat)
    | PING
    | ACK
    | GET_DATA(hash: Hash)
    | DATA(data: Data)
    | INV(hashes: seq<Hash>)

  datatype Message = Message(id: nat, data: MessageData)

  datatype PeerType = Incoming | Outgoing

  datatype PeerError = BadHello | UnexpectedData

  /** One side of a connection: the requests it waits for, what it knows and its next sequence number. */
  datatype Endpoint = Endpoint(peerType: PeerType, outstanding: set<nat>, anns: map<Hash, Data>, nextSeq: nat)

  /** What handling a message does. */
  datatype Effect = Effect(endpoint: Endpoint, sent: seq<Message>, delivered: seq<Data>, error: Option<PeerError>)

  /** Asks for each hash that is not known. */
  function RequestUnknown(e: Endpoint, hashes: seq<Hash>): Effect
    decreases hashes
  {
    if hashes == [] then Effect(e, [], [], None)
    else if hashes[0] in e.anns then RequestUnknown(e, hashes[1..])
    else
      var e' := e.(outstanding := e.outstanding + {e.nextSeq}, nextSeq := e.nextSeq + 1);
      var more := RequestUnknown(e', hashes[1..]);
      more.(sent := [Message(e.nextSeq, GET_DATA(hashes[0]))] + more.sent)
  }

  function Handle(e: Endpoint, m: Message): Effect {
    match m.data
    case HELLO(_) => Effect(e, [], [], if e.peerType.Outgoing? then None else Some(BadHello))
    case OLLEH(_) => Effect(e, [], [], if e.peerType.Outgoing? then Some(BadHello) else None)
    case GET_DATA(hash) =>
      Effect(e, [Message(m.id, DATA(if hash in e.anns then e.anns[hash] else []))], [], None)
    case PING => Effect(e, [Message(m.id, ACK)], [], None)
    case ACK => Effect(e, [], [], None)
    case INV(hashes) => if e.peerType.Outgoing? then RequestUnknown(e, hashes) else Effect(e, [], [], None)
    case DATA(data) =>
      if !e.peerType.Outgoing? then Effect(e, [], [], None)
      else if m.id in e.outstanding then Effect(e.(outstanding := e.outstanding - {m.id}), [], [data], None)
      else Effect(e, [], [], Some(UnexpectedData))
  }

  // ---------------------------------------------------------------- the program

  /** A connection to a peer supernode; `queue` is all that has been sent on it. */
  class Peer {
    const peerType: PeerType
    var outstandingReqs: set<nat>
    var queue: seq<Message>

    constructor (peerType: PeerType)
      ensures this.peerType == peerType && outstandingReqs == {} && queue == []
    {
      this.peerType, outstandingReqs, queue := peerType, {}, [];
    }

    method SendMsg(m: Message)
      modifies this`queue
      ensures queue == old(queue) + [m]
    {
      queue := queue + [m];
    }

    method AddPendingReq(seqNum: nat)
      modifies this`outstandingReqs
      ensures outstandingReqs == old(outstandingReqs) + {seqNum}
    {
      outstandingReqs := outstandingReqs + {seqNum};
    }

    /** True if the request was outstanding; it no longer is. */
    method CompleteReq(seqNum: nat) returns (known: bool)
      modifies this`outstandingReqs
      ensures known == (seqNum in old(outstandingReqs))
      ensures outstandingReqs == old(outstandingReqs) - {seqNum}
    {
      known := seqNum in outstandingReqs;
      outstandingReqs := outstandingReqs - {seqNum};
    }
  }

  class Peers {
    var anns: map<Hash, Data>
    var msgIdSeq: nat

    constructor (seed: nat)
      ensures anns == map[] && msgIdSeq == seed
    {
      anns, msgIdSeq := map[], seed;
    }

    ghost function View(p: Peer): Endpoint
      reads this, p
    {
      Endpoint(p.peerType, p.outstandingReqs, anns, msgIdSeq)
    }

    method HandleInv(p: Peer, hashes: seq<Hash>)
      modifies this`msgIdSeq, p
      ensures var effect := RequestUnknown(old(View(p)), hashes);
              View(p) == effect.endpoint && p.queue == old(p.queue) + effect.sent
    {
      ghost var spec := RequestUnknown(View(p), hashes);
      for k := 0 to |hashes|
        invariant anns == old(anns)
        invariant var rest := RequestUnknown(View(p), hashes[k..]);
                  rest.endpoint == spec.endpoint && p.queue + rest.sent == old(p.queue) + spec.sent
      {
        assert hashes[k..][0] == hashes[k] && hashes[k..][1..] == hashes[k + 1..];
        if hashes[k] !in anns {
          var seqNum := msgIdSeq;
          msgIdSeq := msgIdSeq + 1;
          p.AddPendingReq(seqNum);
          p.SendMsg(Message(seqNum, GET_DATA(hashes[k])));
        }
      }
    }

    /** Refines `Handle`: same new state, same messages sent, same data passed on, same error. */
    method HandleMessage(p: Peer, m: Message) returns (delivered: seq<Data>, error: Option<PeerError>)
      modifies this`msgIdSeq, p
      ensures var effect := Handle(old(View(p)), m);
              && View(p) == effect.endpoint && p.queue == old(p.queue) + effect.sent
              && delivered == effect.delivered && error == effect.error
      ensures error == Some(BadHello) <==> (m.data.HELLO? && p.peerType == PeerType.Incoming) || (m.data.OLLEH? && p.peerType == PeerType.Outgoing)
      ensures error == Some(UnexpectedData) <==> m.data.DATA? && p.peerType == PeerType.Outgoing && m.id !in old(p.outstandingReqs)
      ensures delivered == if m.data.DATA? && p.peerType == PeerType.Outgoing && m.id in old(p.outstandingReqs) then [m.data.data] else []
      ensures m.data.PING? ==> p.queue == old(p.queue) + [Message(m.id, ACK)]
      ensures m.data.GET_DATA? ==>
                p.queue == old(p.queue) + [Message(m.id, DATA(if m.data.hash in anns then anns[m.data.hash] else []))]
      ensures !m.data.PING? && !m.data.GET_DATA? && !(m.data.INV? && p.peerType == PeerType.Outgoing) ==> p.queue == old(p.queue)
    {
      hide RequestUnknown;
      delivered, error := [], None;
      if m.data.HELLO? || m.data.OLLEH? {
        var isOutgoingPeer := p.peerType == PeerType.Outgoing;
        var isOutgoingHello := m.data.HELLO?;
        if isOutgoingHello != isOutgoingPeer {
          error := Some(BadHello);
          return;
        }
      }
      match m.data
      case HELLO(_) | OLLEH(_) =>
      case GET_DATA(hash) =>
        var ann := if hash in anns then anns[hash] else [];
        p.SendMsg(Message(m.id, DATA(ann)));
      case PING =>
        p.SendMsg(Message(m.id, ACK));
      case ACK =>
      case INV(hashes) =>
        if p.peerType == PeerType.Outgoing {
          InvSaysNothing(View(p), hashes);
          HandleInv(p, hashes);
        }
      case DATA(data) =>
        if p.peerType == PeerType.Outgoing {
          var knownId := p.CompleteReq(m.id);
          if !knownId {
            error := Some(UnexpectedData);
            return;
          }
          delivered := [data];
        }
    }

    /** What the accepting side sends first: a greeting and all the hashes it knows. */
    method Incoming(p: Peer, hashList: seq<Hash>)
      modifies p
      ensures p.queue == old(p.queue) + ([Message(0, HELLO(VERSION))] + Chunks(hashList))
      ensures p.outstandingReqs == old(p.outstandingReqs)
    {
      p.SendMsg(Message(0, HELLO(VERSION)));
      var rest := hashList;
      while rest != []
        invariant p.queue + Chunks(rest) == old(p.queue) + ([Message(0, HELLO(VERSION))] + Chunks(hashList))
        invariant p.outstandingReqs == old(p.outstandingReqs)
        decreases |rest|
      {
        var n := if |rest| < INV_CHUNK then |rest| else INV_CHUNK;
        NextChunk(rest, n);
        p.SendMsg(Message(0, INV(rest[..n])));
        rest := rest[n..];
      }
    }

    method Outgoing(p: Peer)
      modifies p
      ensures p.queue == old(p.queue) + [Message(0, OLLEH(VERSION))] && p.outstandingReqs == old(p.outstandingReqs)
    {
      p.SendMsg(Message(0, OLLEH(VERSION)));
    }

    /** Adds an announcement that is new, and tells every accepted connection of it, no other. */
    method AddAnn(hash: Hash, binary: Data, peers: seq<Peer>)
      requires forall i, j :: 0 <= i < j < |peers| ==> peers[i] != peers[j]
      modifies this`anns, set p | p in peers
      ensures anns == if hash in old(anns) then old(anns) else old(anns)[hash := binary]
      ensures forall p :: p in peers ==>
                p.queue == old(p.queue) + (if hash !in old(anns) && p.peerType == PeerType.Incoming then [Message(0, INV([hash]))] else [])
    {
      if hash in anns {
        return;
      }
      anns := anns[hash := binary];
      for k := 0 to |peers|
        invariant anns == old(anns)[hash := binary]
        invariant forall i :: 0 <= i < k ==>
          peers[i].queue == old(peers[i].queue) + (if peers[i].peerType == PeerType.Incoming then [Message(0, INV([hash]))] else [])
        invariant forall i :: k <= i < |peers| ==> peers[i].queue == old(peers[i].queue)
      {
        if peers[k].peerType == PeerType.Incoming {
          peers[k].SendMsg(Message(0, INV([hash])));
        }
      }
    }
  }

  lemma NextChunk(hashes: seq<Hash>, n: nat)
    requires hashes != [] && n == if |hashes| < INV_CHUNK then |hashes| else INV_CHUNK
    ensures Chunks(hashes) == [Message(0, INV(hashes[..n]))] + Chunks(hashes[n..])
  {
    if |hashes| <= INV_CHUNK {
      assert hashes[..n] == hashes && hashes[n..] == [];
    }
  }

  lemma {:induction false} InvSaysNothing(e: Endpoint, hashes: seq<Hash>)
    ensures var effect := RequestUnknown(e, hashes);
            effect.delivered == [] && effect.error == None
    decreases hashes
  {
    if hashes != [] {
      InvSaysNothing(e, hashes[1..]);
      InvSaysNothing(e.(outstanding := e.outstanding + {e.nextSeq}, nextSeq := e.nextSeq + 1), hashes[1..]);
    }
  }

  // ---------------------------------------------------------------- the two supernodes together

  const VERSION := 1
  const INV_CHUNK := 128

  /** The known hashes in chunks, as the accepting side sends them at the start. */
  function Chunks(hashes: seq<Hash>): (r: seq<Message>)
    decreases |hashes|
  {
    if hashes == [] then []
    else if |hashes| <= INV_CHUNK then [Message(0, INV(hashes))]
    else [Message(0, INV(hashes[..INV_CHUNK]))] + Chunks(hashes[INV_CHUNK..])
  }

  /**
    The connecting side (`client`), the accepting side (`server`) and the messages on the way.
    `issued` are the requests made so far, `completed` those answered, in order.
   */
  datatype System = System(
    client: Endpoint, server: Endpoint, toServer: seq<Message>, toClient: seq<Message>,
    issued: set<nat>, completed: seq<nat>, delivered: seq<Data>, failed: bool)

  ghost predicate Initial(s: System) {
    && s.client.peerType == Outgoing && s.client.outstanding == {}
    && s.server.peerType == Incoming
    && s.toServer == [Message(0, OLLEH(VERSION))]
    && (exists known ::
          s.toClient == [Message(0, HELLO(VERSION))] + Chunks(known) && forall h :: h in known <==> h in s.server.anns)
    && s.issued == {} && s.completed == [] && s.delivered == [] && !s.failed
  }

  datatype Step =
    | ServerReceives
    | ClientReceives
    | ServerAnnounces(hash: Hash, data: Data)
    | ServerForgets(hash: Hash)
    | ClientLearns(hash: Hash, data: Data)
    | ClientForgets(hash: Hash)
    | ServerPings
    | ClientPings
    | ClientUsesSequence

  function Next(s: System, step: Step): System {
    match step
    case ServerReceives =>
      if s.toServer == [] then s
      else
        var effect := Handle(s.server, s.toServer[0]);
        s.(server := effect.endpoint, toServer := s.toServer[1..], toClient := s.toClient + effect.sent,
           failed := s.failed || effect.error.Some?)
    case ClientReceives =>
      if s.toClient == [] then s
      else
        var m := s.toClient[0];
        var effect := Handle(s.client, m);
        s.(client := effect.endpoint, toClient := s.toClient[1..], toServer := s.toServer + effect.sent,
           issued := s.issued + (effect.endpoint.outstanding - s.client.outstanding),
           completed := if m.data.DATA? && m.id in s.client.outstanding then s.completed + [m.id] else s.completed,
           delivered := s.delivered + effect.delivered,
           failed := s.failed || effect.error.Some?)
    case ServerAnnounces(hash, data) =>
      if hash in s.server.anns then s
      else s.(server := s.server.(anns := s.server.anns[hash := data]), toClient := s.toClient + [Message(0, INV([hash]))])
    case ServerForgets(hash) => s.(server := s.server.(anns := s.server.anns - {hash}))
    case ClientLearns(hash, data) => s.(client := s.client.(anns := s.client.anns[hash := data]))
    case ClientForgets(hash) => s.(client := s.client.(anns := s.client.anns - {hash}))
    case ServerPings =>
      s.(server := s.server.(nextSeq := s.server.nextSeq + 1), toClient := s.toClient + [Message(s.server.nextSeq, PING)])
    case ClientPings =>
      s.(client := s.client.(nextSeq := s.client.nextSeq + 1), toServer := s.toServer + [Message(s.client.nextSeq, PING)])
    case ClientUsesSequence => s.(client := s.client.(nextSeq := s.client.nextSeq + 1))
  }

  function Run(s: System, steps: seq<Step>): System
    decreases steps
  {
    if steps == [] then s else Run(Next(s, steps[0]), steps[1..])
  }

  /** Ids of the requests on the way to the server. */
  ghost function Requests(ms: seq<Message>): multiset<nat> {
    if ms == [] then multiset{}
    else (if ms[0].data.GET_DATA? then multiset{ms[0].id} else multiset{}) + Requests(ms[1..])
  }

  /** Ids of the answers on the way to the client. */
  ghost function Answers(ms: seq<Message>): multiset<nat> {
    if ms == [] then multiset{}
    else (if ms[0].data.DATA? then multiset{ms[0].id} else multiset{}) + Answers(ms[1..])
  }

  predicate ClientSends(m: Message) {
    m.data.OLLEH? || m.data.GET_DATA? || m.data.PING? || m.data.ACK?
  }

  predicate ServerSends(m: Message) {
    m.data.HELLO? || m.data.INV? || m.data.DATA? || m.data.PING? || m.data.ACK?
  }

  /**
    The outstanding requests are exactly those on the way to the server or back, each once; and
    every request ever issued is either outstanding or completed, never both, never twice.
   */
  ghost predicate Invariant(s: System) {
    && s.client.peerType == Outgoing && s.server.peerType == Incoming && !s.failed
    && (forall i :: 0 <= i < |s.toServer| ==> ClientSends(s.toServer[i]))
    && (forall i :: 0 <= i < |s.toClient| ==> ServerSends(s.toClient[i]))
    && Requests(s.toServer) + Answers(s.toClient) == multiset(s.client.outstanding)
    && multiset(s.completed) + multiset(s.client.outstanding) == multiset(s.issued)
    && (forall id :: id in s.issued ==> id < s.client.nextSeq)
    && |s.delivered| == |s.completed|
  }

  lemma {:induction false} RequestsConcat(a: seq<Message>, b: seq<Message>)
    ensures Requests(a + b) == Requests(a) + Requests(b)
  {
    if a == [] {
      assert a + b == b;
    } else {
      assert (a + b)[1..] == a[1..] + b;
      RequestsConcat(a[1..], b);
    }
  }

  lemma {:induction false} AnswersConcat(a: seq<Message>, b: seq<Message>)
    ensures Answers(a + b) == Answers(a) + Answers(b)
  {
    if a == [] {
      assert a + b == b;
    } else {
      assert (a + b)[1..] == a[1..] + b;
      AnswersConcat(a[1..], b);
    }
  }

  lemma {:induction false} ChunksOnlyList(hashes: seq<Hash>)
    ensures Answers(Chunks(hashes)) == multiset{}
    ensures forall i :: 0 <= i < |Chunks(hashes)| ==> Chunks(hashes)[i].data.INV?
    decreases |hashes|
  {
    if |hashes| > INV_CHUNK {
      ChunksOnlyList(hashes[INV_CHUNK..]);
    }
  }

  /** The hashes that a list of INV messages names, in order. */
  ghost function Named(ms: seq<Message>): seq<Hash> {
    if ms == [] then [] else (if ms[0].data.INV? then ms[0].data.hashes else []) + Named(ms[1..])
  }

  /** The chunks name every known hash once more, in order, at most 128 at a time. */
  lemma {:induction false} ChunksNameAll(hashes: seq<Hash>)
    ensures Named(Chunks(hashes)) == hashes
    ensures forall i :: 0 <= i < |Chunks(hashes)| ==>
              Chunks(hashes)[i].data.INV? && 0 < |Chunks(hashes)[i].data.hashes| <= 128
    ensures forall i :: 0 <= i < |Chunks(hashes)| - 1 ==> |Chunks(hashes)[i].data.hashes| == 128
    decreases |hashes|
  {
    hide Named;
    NamedNone();
    if |hashes| > INV_CHUNK {
      var rest := Chunks(hashes[INV_CHUNK..]);
      ChunksNameAll(hashes[INV_CHUNK..]);
      NamedFirst(hashes[..INV_CHUNK], rest);
      assert hashes[..INV_CHUNK] + hashes[INV_CHUNK..] == hashes;
    } else if hashes != [] {
      NamedFirst(hashes, []);
      assert [Message(0, INV(hashes))] + [] == [Message(0, INV(hashes))];
    }
  }

  lemma NamedNone()
    ensures Named([]) == []
  {
  }

  lemma NamedFirst(hashes: seq<Hash>, rest: seq<Message>)
    ensures Named([Message(0, INV(hashes))] + rest) == hashes + Named(rest)
  {
    assert ([Message(0, INV(hashes))] + rest)[1..] == rest;
  }

  lemma CountInSet(s: set<nat>, x: nat)
    ensures multiset(s)[x] == if x in s then 1 else 0
  {
  }

  lemma AddToSet(s: set<nat>, x: nat)
    requires x !in s
    ensures multiset(s + {x}) == multiset(s) + multiset{x}
  {
  }

  lemma UnionOfSets(s: set<nat>, t: set<nat>)
    requires s !! t
    ensures multiset(s + t) == multiset(s) + multiset(t)
  {
  }

  lemma InitialInvariant(s: System)
    requires Initial(s)
    ensures Invariant(s)
  {
    hide Chunks, Answers;
    var known :| s.toClient == [Message(0, HELLO(VERSION))] + Chunks(known) && forall h :: h in known <==> h in s.server.anns;
    ChunksOnlyList(known);
    NoAnswers(Message(0, HELLO(VERSION)));
    AnswersConcat([Message(0, HELLO(VERSION))], Chunks(known));
    assert Answers(s.toClient) == multiset{};
    assert s.toServer[1..] == [] && Requests(s.toServer) == multiset{};
    assert forall i :: 0 < i < |s.toClient| ==> s.toClient[i] == Chunks(known)[i - 1];
  }

  /** New requests take new numbers: what is asked for is what becomes outstanding, each once. */
  lemma {:induction false} RequestUnknownIssues(e: Endpoint, hashes: seq<Hash>)
    requires forall id :: id in e.outstanding ==> id < e.nextSeq
    ensures var effect := RequestUnknown(e, hashes);
            && effect.endpoint.peerType == e.peerType && e.outstanding <= effect.endpoint.outstanding
            && e.nextSeq <= effect.endpoint.nextSeq
            && (forall id :: id in effect.endpoint.outstanding ==> id < effect.endpoint.nextSeq)
            && (forall id :: id in effect.endpoint.outstanding - e.outstanding ==> id >= e.nextSeq)
            && (forall i :: 0 <= i < |effect.sent| ==> effect.sent[i].data.GET_DATA?)
            && multiset(e.outstanding) + Requests(effect.sent) == multiset(effect.endpoint.outstanding)
            && effect.delivered == [] && effect.error == None
    decreases hashes
  {
    if hashes != [] {
      if hashes[0] in e.anns {
        RequestUnknownIssues(e, hashes[1..]);
      } else {
        var e' := e.(outstanding := e.outstanding + {e.nextSeq}, nextSeq := e.nextSeq + 1);
        RequestUnknownIssues(e', hashes[1..]);
        var more := RequestUnknown(e', hashes[1..]);
        var first := Message(e.nextSeq, GET_DATA(hashes[0]));
        assert ([first] + more.sent)[1..] == more.sent;
        AddToSet(e.outstanding, e.nextSeq);
        forall id | id in more.endpoint.outstanding - e.outstanding
          ensures id >= e.nextSeq
        {
          assert id == e.nextSeq || id in more.endpoint.outstanding - e'.outstanding;
        }
      }
    }
  }

  lemma ServerReceivesKeeps(s: System)
    requires Invariant(s) && s.toServer != []
    ensures Invariant(Next(s, ServerReceives))
  {
    var m := s.toServer[0];
    var effect := Handle(s.server, m);
    assert ClientSends(m);
    AnswersConcat(s.toClient, effect.sent);
    if m.data.GET_DATA? {
      assert Answers(effect.sent) == multiset{m.id} by {
        assert effect.sent[1..] == [];
      }
    } else {
      assert Answers(effect.sent) == multiset{};
    }
  }

  lemma ClientReceivesKeeps(s: System)
    requires Invariant(s) && s.toClient != []
    ensures Invariant(Next(s, ClientReceives))
  {
    hide Requests, Answers, Handle;
    var m := s.toClient[0];
    assert ServerSends(m);
    if m.data.INV? {
      ClientReceivesInv(s);
    } else if m.data.DATA? {
      ClientReceivesData(s);
    } else {
      ClientReceivesOther(s);
    }
  }

  lemma ClientReceivesInv(s: System)
    requires Invariant(s) && s.toClient != [] && s.toClient[0].data.INV?
    ensures Invariant(Next(s, ClientReceives))
  {
    hide RequestUnknown, Requests;
    var m := s.toClient[0];
    var effect := Handle(s.client, m);
    RequestsConcat(s.toServer, effect.sent);
    OutstandingIsIssued(s.completed, s.client.outstanding, s.issued);
    RequestUnknownIssues(s.client, m.data.hashes);
    InvKeeps(s, effect.endpoint);
    assert Answers(s.toClient) == Answers(s.toClient[1..]);
    assert s.delivered + [] == s.delivered;
  }

  lemma ClientReceivesData(s: System)
    requires Invariant(s) && s.toClient != [] && s.toClient[0].data.DATA?
    ensures Invariant(Next(s, ClientReceives))
  {
    var m := s.toClient[0];
    assert Answers(s.toClient) == multiset{m.id} + Answers(s.toClient[1..]);
    hide Requests, Answers;
    DataKeeps(Requests(s.toServer), Answers(s.toClient[1..]), m.id, s.completed, s.client.outstanding, s.issued);
    assert s.toServer + [] == s.toServer;
  }

  lemma FirstIsNoAnswer(ms: seq<Message>)
    requires ms != [] && !ms[0].data.DATA?
    ensures Answers(ms) == Answers(ms[1..])
  {
  }

  lemma NoRequests(id: nat)
    ensures Requests([]) == multiset{} && Requests([Message(id, ACK)]) == multiset{} && Requests([Message(id, PING)]) == multiset{}
  {
    assert [Message(id, ACK)][1..] == [] && [Message(id, PING)][1..] == [];
  }

  lemma NoAnswers(m: Message)
    requires !m.data.DATA?
    ensures Answers([m]) == multiset{}
  {
    assert [m][1..] == [];
  }

  lemma ClientReceivesOther(s: System)
    requires Invariant(s) && s.toClient != []
    requires s.toClient[0].data.HELLO? || s.toClient[0].data.PING? || s.toClient[0].data.ACK?
    ensures Invariant(Next(s, ClientReceives))
  {
    hide Requests, Answers, RequestUnknown;
    var m := s.toClient[0];
    var effect := Handle(s.client, m);
    FirstIsNoAnswer(s.toClient);
    NoRequests(m.id);
    RequestsConcat(s.toServer, effect.sent);
    assert s.issued + (s.client.outstanding - s.client.outstanding) == s.issued;
    assert s.delivered + [] == s.delivered;
  }

  lemma OutstandingIsIssued(completed: seq<nat>, outstanding: set<nat>, issued: set<nat>)
    requires multiset(completed) + multiset(outstanding) == multiset(issued)
    ensures outstanding <= issued
    ensures forall id :: id in completed <==> id in issued && id !in outstanding
  {
    forall id: nat
      ensures id in outstanding ==> id in issued
      ensures id in completed <==> id in issued && id !in outstanding
    {
      CountInSet(outstanding, id);
      CountInSet(issued, id);
      assert (multiset(completed) + multiset(outstanding))[id] == multiset(completed)[id] + multiset(outstanding)[id];
      assert id in completed <==> multiset(completed)[id] > 0;
    }
  }

  lemma InvKeeps(s: System, e: Endpoint)
    requires multiset(s.completed) + multiset(s.client.outstanding) == multiset(s.issued)
    requires s.client.outstanding <= e.outstanding && s.client.nextSeq <= e.nextSeq
    requires forall id :: id in s.issued ==> id < s.client.nextSeq
    requires forall id :: id in e.outstanding - s.client.outstanding ==> s.client.nextSeq <= id < e.nextSeq
    ensures var issued' := s.issued + (e.outstanding - s.client.outstanding);
            && multiset(s.completed) + multiset(e.outstanding) == multiset(issued')
            && forall id :: id in issued' ==> id < e.nextSeq
  {
    var added := e.outstanding - s.client.outstanding;
    assert e.outstanding == s.client.outstanding + added && s.issued !! added;
    UnionOfSets(s.client.outstanding, added);
    UnionOfSets(s.issued, added);
  }

  lemma DataKeeps(requests: multiset<nat>, answers: multiset<nat>, id: nat,
                  completed: seq<nat>, outstanding: set<nat>, issued: set<nat>)
    requires requests + (multiset{id} + answers) == multiset(outstanding)
    requires multiset(completed) + multiset(outstanding) == multiset(issued)
    ensures id in outstanding
    ensures requests + answers == multiset(outstanding - {id})
    ensures multiset(completed + [id]) + multiset(outstanding - {id}) == multiset(issued)
    ensures issued + ((outstanding - {id}) - outstanding) == issued
  {
    CountInSet(outstanding, id);
    assert (requests + (multiset{id} + answers))[id] >= 1;
    var rest := outstanding - {id};
    assert outstanding == rest + {id};
    AddToSet(rest, id);
    assert multiset(outstanding) == multiset(rest) + multiset{id};
    assert requests + answers == (requests + (multiset{id} + answers)) - multiset{id};
    assert multiset(completed + [id]) == multiset(completed) + multiset{id};
  }

  lemma QuietStepKeeps(s: System, step: Step)
    requires Invariant(s) && !step.ServerReceives? && !step.ClientReceives?
    ensures Invariant(Next(s, step))
  {
    hide Requests, Answers, Handle;
    var s' := Next(s, step);
    if |s'.toClient| > |s.toClient| {
      var m := s'.toClient[|s.toClient|];
      assert s'.toClient == s.toClient + [m];
      AnswersConcat(s.toClient, [m]);
      NoAnswers(m);
    }
    if |s'.toServer| > |s.toServer| {
      var m := s'.toServer[|s.toServer|];
      assert s'.toServer == s.toServer + [m];
      RequestsConcat(s.toServer, [m]);
      NoRequests(m.id);
    }
  }

  lemma StepKeeps(s: System, step: Step)
    requires Invariant(s)
    ensures Invariant(Next(s, step))
  {
    hide Invariant, Handle;
    match step
    case ServerReceives => if s.toServer != [] { ServerReceivesKeeps(s); }
    case ClientReceives => if s.toClient != [] { ClientReceivesKeeps(s); }
    case _ => QuietStepKeeps(s, step);
  }

  lemma {:induction false} RunKeeps(s: System, steps: seq<Step>)
    requires Invariant(s)
    ensures Invariant(Run(s, steps))
    decreases steps
  {
    hide Invariant, Next;
    if steps != [] {
      StepKeeps(s, steps[0]);
      RunKeeps(Next(s, steps[0]), steps[1..]);
    }
  }

  /**
    In every run: the outstanding requests are the disjoint union of those on the way there and back,
    no handler reaches an error, and no request is completed twice.
   */
  lemma EveryRun(s: System, steps: seq<Step>)
    requires Initial(s)
    ensures var r := Run(s, steps);
            && Requests(r.toServer) + Answers(r.toClient) == multiset(r.client.outstanding)
            && !r.failed
            && (forall i, j :: 0 <= i < j < |r.completed| ==> r.completed[i] != r.completed[j])
            && (forall id :: id in r.completed ==> id !in r.client.outstanding)
            && |r.delivered| == |r.completed|
  {
    InitialInvariant(s);
    RunKeeps(s, steps);
    var r := Run(s, steps);
    OutstandingIsIssued(r.completed, r.client.outstanding, r.issued);
    CompletedOnce(r.completed, r.client.outstanding, r.issued);
  }

  /** When nothing is on the way, nothing is outstanding: every request issued has been completed. */
  lemma QuietMeansDone(s: System, steps: seq<Step>)
    requires Initial(s)
    ensures var r := Run(s, steps);
            r.toServer == [] && r.toClient == [] ==>
              r.client.outstanding == {} && forall id :: id in r.issued <==> id in r.completed
  {
    InitialInvariant(s);
    RunKeeps(s, steps);
    var r := Run(s, steps);
    OutstandingIsIssued(r.completed, r.client.outstanding, r.issued);
    if r.toServer == [] && r.toClient == [] {
      assert multiset(r.client.outstanding) == multiset{};
      assert forall id :: id in r.client.outstanding ==> multiset(r.client.outstanding)[id] > 0;
    }
  }

  lemma CompletedOnce(completed: seq<nat>, outstanding: set<nat>, issued: set<nat>)
    requires multiset(completed) + multiset(outstanding) == multiset(issued)
    ensures forall i, j :: 0 <= i < j < |completed| ==> completed[i] != completed[j]
  {
    forall i, j | 0 <= i < j < |completed|
      ensures completed[i] != completed[j]
    {
      var x := completed[i];
      CountInSet(issued, x);
      assert completed == completed[..i] + [x] + completed[i + 1..];
      assert completed[i + 1..] == completed[i + 1..j] + [completed[j]] + completed[j + 1..];
      assert multiset(completed) == multiset(completed[..i]) + multiset{x} +
             (multiset(completed[i + 1..j]) + multiset{completed[j]} + multiset(completed[j + 1..]));
      assert (multiset(completed) + multiset(outstanding))[x] <= 1;
    }
  }
}
