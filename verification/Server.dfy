/**
  The announcement store of a supernode: the list of announcements offered to other supernodes
  (cjdns-snode/src/peer/ann_list.rs, peer.rs:112-130), the table of nodes (server/nodes.rs) and the
  handling of an announcement (server.rs:296-452). Each call is one atomic step.
 */
module Servers {
  import opened Wrappers
  import opened Schemes
  import opened Announcements
  import opened Compaction
  import opened Links
  import opened NodeTables

  ghost predicate Distinct(hashes: seq<Hash>) {
    forall i, j :: 0 <= i < j < |hashes| ==> hashes[i] != hashes[j]
  }

  function Removing(hashes: seq<Hash>, hash: Hash): (r: seq<Hash>)
    ensures forall h :: h in r <==> h in hashes && h != hash
  {
    Filter((h: Hash) => h != hash, hashes)
  }

  lemma {:induction false} RemovingDistinct(hashes: seq<Hash>, hash: Hash)
    requires Distinct(hashes)
    ensures Distinct(Removing(hashes, hash))
  {
    if hashes != [] {
      assert Distinct(hashes[1..]);
      RemovingDistinct(hashes[1..], hash);
      assert hashes[0] !in hashes[1..];
    }
  }

  class AnnList {
    var annByHash: map<Hash, seq<Byte>>
    var ordered: seq<Hash>

    /** The ordered list holds every key of the map once. */
    ghost predicate Valid()
      reads this
    {
      Distinct(ordered) && forall h :: h in annByHash <==> h in ordered
    }

    constructor ()
      ensures Valid() && annByHash == map[] && ordered == []
    {
      annByHash, ordered := map[], [];
    }

    /** Lists a hash; that every hash is listed once lasts exactly if it was not listed yet. */
    method Add(hash: Hash, binary: seq<Byte>)
      requires Valid()
      modifies this
      ensures annByHash == old(annByHash)[hash := binary] && ordered == old(ordered) + [hash]
      ensures Valid() <==> hash !in old(annByHash)
    {
      if hash in annByHash {
        var i :| 0 <= i < |ordered| && ordered[i] == hash;
        assert (ordered + [hash])[i] == (ordered + [hash])[|ordered|];
      }
      ordered := ordered + [hash];
      annByHash := annByHash[hash := binary];
    }

    method Remove(hash: Hash)
      requires Valid()
      modifies this
      ensures Valid() && annByHash == old(annByHash) - {hash} && ordered == Removing(old(ordered), hash)
    {
      RemovingDistinct(ordered, hash);
      ordered := Removing(ordered, hash);
      annByHash := annByHash - {hash};
    }

    /** Adds an announcement unless its hash is listed already. */
    method AddAnn(hash: Hash, binary: seq<Byte>) returns (added: bool)
      requires Valid()
      modifies this
      ensures Valid() && added == (hash !in old(annByHash))
      ensures annByHash == if added then old(annByHash)[hash := binary] else old(annByHash)
      ensures ordered == if added then old(ordered) + [hash] else old(ordered)
    {
      for k := 0 to |ordered|
        invariant forall i :: 0 <= i < k ==> ordered[i] != hash
        invariant Valid() && annByHash == old(annByHash) && ordered == old(ordered)
      {
        if ordered[k] == hash {
          return false;
        }
      }
      Add(hash, binary);
      return true;
    }
  }

  /** What happens to an announcement; a reset without a version makes the program panic before it changes anything. */
  datatype Outcome =
    | Accepted
    | OldAnnouncement
    | UnknownNode
    | NoEncodingScheme
    | UnwrapPanic

  function VersionFrom(entities: seq<Entity>): Option<nat> {
    if entities == [] then None
    else if entities[0].NodeProtocolVersion? then Some(entities[0].version)
    else VersionFrom(entities[1..])
  }

  function SchemeFrom(entities: seq<Entity>): Option<Scheme> {
    if entities == [] then None
    else if entities[0].EncodingScheme? then Some(entities[0].scheme)
    else SchemeFrom(entities[1..])
  }

  const GLOBAL_TIMEOUT := 20 * 60 * 60 * 1000 + AGREED_TIMEOUT

  class Server {
    var nodes: Nodes
    const anns: AnnList
    ghost var heard: Heard

    /** What the parts of a step keep between them. */
    ghost predicate Stored()
      reads this, anns
    {
      && anns.Valid()
      && (forall ip :: ip in nodes ==> nodes[ip].ipv6 == ip && ValidNode(nodes[ip]))
      && AllLive(anns.annByHash, nodes)
      && Remembers(nodes, heard)
    }

    /** What every step keeps. */
    ghost predicate Valid()
      reads this, anns
    {
      Stored() && LinksFollow(nodes, heard)
    }

    constructor ()
      ensures Valid() && nodes == map[]
    {
      nodes, heard := map[], map[];
      anns := new AnnList();
    }

    /** Withdraws everything a node stands on. */
    method ForgetNode(n: Node)
      requires anns.Valid()
      modifies anns
      ensures anns.Valid() && Narrowed(old(anns.annByHash), anns.annByHash)
      ensures forall h :: h in anns.annByHash <==> h in old(anns.annByHash) && !Holds(n, h)
    {
      hide AnnList.Valid;
      for k := 0 to |n.announcements|
        invariant anns.Valid()
        invariant anns.annByHash == old(anns.annByHash) - HashSet(n.announcements[..k])
      {
        assert n.announcements[..k + 1] == n.announcements[..k] + [n.announcements[k]];
        assert HashSet(n.announcements[..k + 1]) == HashSet(n.announcements[..k]) + {n.announcements[k].hash};
        anns.Remove(n.announcements[k].hash);
      }
      assert n.announcements[..|n.announcements|] == n.announcements;
      if n.resetMsg.Some? {
        anns.Remove(n.resetMsg.value.hash);
      }
      HashesOf(n);
    }

    /** Withdraws dropped announcements, but for the reset message. */
    method WithdrawDropped(dropped: seq<Announcement>, resetMsg: Option<Announcement>)
      requires anns.Valid()
      modifies anns
      ensures anns.Valid() && Narrowed(old(anns.annByHash), anns.annByHash)
      ensures forall h :: h in anns.annByHash <==>
                h in old(anns.annByHash) && !(exists a :: a in dropped && Some(a) != resetMsg && a.hash == h)
    {
      for k := 0 to |dropped|
        invariant anns.Valid() && Narrowed(old(anns.annByHash), anns.annByHash)
        invariant forall h :: h in anns.annByHash <==>
          h in old(anns.annByHash) && !(exists a :: a in dropped[..k] && Some(a) != resetMsg && a.hash == h)
      {
        assert dropped[..k + 1] == dropped[..k] + [dropped[k]];
        if Some(dropped[k]) != resetMsg {
          anns.Remove(dropped[k].hash);
        }
      }
      assert dropped[..|dropped|] == dropped;
    }

    /** Enters an announcement of a known node and compacts the node's list. */
    method AddAnnouncement(ip: Ip, ann: Announcement)
      requires Stored() && ip in nodes && nodes[ip].timestamp <= ann.timestamp
      modifies this, anns
      ensures Stored()
      ensures nodes == old(nodes)[ip := old(nodes)[ip].(
                announcements := Retained([ann] + old(nodes)[ip].announcements, ann, ann.timestamp),
                timestamp := ann.timestamp)]
      ensures heard == old(heard)[ip := [ann] + old(heard)[ip]]
      ensures Narrowed(old(anns.annByHash), anns.annByHash)
      ensures forall h :: h in anns.annByHash <==> h in old(anns.annByHash) && !Superseded(ann, old(nodes)[ip], h)
    {
      hide Retained, Dropped, ValidTable, AnnList.Valid, Remembers, AllLive, Narrowed;
      KnownIsHeard(nodes, heard, ip);
      var node := nodes[ip];
      var all := [ann] + node.announcements;
      var kept, dropped := Retain(all, ann, ann.timestamp);
      RetainedNewestFirst(all, ann, ann.timestamp);
      CurrentStaysFirst(node.announcements, ann);
      RetainedOrDropped(all, ann, ann.timestamp);
      WithdrawDropped(dropped, node.resetMsg);
      RemembersMore(nodes, heard, ip, ann, node.(announcements := kept, timestamp := ann.timestamp));
      nodes := nodes[ip := node.(announcements := kept, timestamp := ann.timestamp)];
      heard := heard[ip := [ann] + heard[ip]];
      StillLive(old(nodes), ip, ann, kept, dropped, old(anns.annByHash), anns.annByHash);
    }

    /** Starts a node anew from a reset announcement; what it stood on before is withdrawn. */
    method ResetNode(ann: Announcement) returns (r: Outcome)
      requires Stored() && ann.isReset
      modifies this, anns
      ensures Stored()
      ensures r == UnwrapPanic <==> FirstIn(VersionClass, ann.entities).None?
      ensures r == NoEncodingScheme <==>
                FirstIn(VersionClass, ann.entities).Some? && FirstIn(SchemeClass, ann.entities).None? && ann.nodeIp !in old(nodes)
      ensures r in {Accepted, UnwrapPanic, NoEncodingScheme}
      ensures r != Accepted ==> nodes == old(nodes) && anns.annByHash == old(anns.annByHash) && heard == old(heard)
      ensures r == Accepted ==>
                && ann.nodeIp in nodes && nodes == old(nodes)[ann.nodeIp := nodes[ann.nodeIp]]
                && Restarted(old(nodes), ann, nodes[ann.nodeIp]) && nodes[ann.nodeIp].links == map[]
                && heard == old(heard)[ann.nodeIp := [ann]] && Narrowed(old(anns.annByHash), anns.annByHash)
                && forall h :: h in anns.annByHash <==>
                     h in old(anns.annByHash) && !(ann.nodeIp in old(nodes) && Holds(old(nodes)[ann.nodeIp], h))
    {
      hide VersionFrom, SchemeFrom, AnnList.Valid, Remembers, FirstIn, AllLive, Holds, Narrowed;
      FromIsFirst(ann.entities);
      var version := VersionFrom(ann.entities);
      if version.None? {
        return UnwrapPanic;
      }
      var announced := SchemeFrom(ann.entities);
      if announced.None? && ann.nodeIp !in nodes {
        return NoEncodingScheme;
      }
      var scheme := if announced.Some? then announced.value else nodes[ann.nodeIp].scheme;
      var node := Node(version.value, ann.nodePubKey, ann.nodeIp, scheme, map[], ann.timestamp, [ann], Some(ann));
      NothingNarrowed(anns.annByHash);
      if ann.nodeIp in nodes {
        ForgetNode(nodes[ann.nodeIp]);
      }
      RemembersReset(nodes, heard, ann.nodeIp, ann, node);
      nodes, heard := nodes[ann.nodeIp := node], heard[ann.nodeIp := [ann]];
      LiveWithout(old(nodes), ann.nodeIp, node, old(anns.annByHash), anns.annByHash);
      return Accepted;
    }

    /**
      Handles a parsed announcement. An accepted one is at the head of its node's list, its peers
      are in the node's link table and its text is offered to other supernodes; any other changes nothing.
     */
    method HandleAnnounce(ann: Announcement) returns (r: Outcome)
      requires Valid()
      modifies this, anns
      ensures Valid()
      ensures r == OldAnnouncement <==> ann.nodeIp in old(nodes) && old(nodes)[ann.nodeIp].timestamp > ann.timestamp
      ensures r == UnknownNode <==> ann.nodeIp !in old(nodes) && !ann.isReset
      ensures r == UnwrapPanic <==> r != OldAnnouncement && ann.isReset && FirstIn(VersionClass, ann.entities).None?
      ensures r == NoEncodingScheme <==>
                && ann.isReset && FirstIn(VersionClass, ann.entities).Some?
                && FirstIn(SchemeClass, ann.entities).None? && ann.nodeIp !in old(nodes)
      ensures r != Accepted ==> nodes == old(nodes) && anns.annByHash == old(anns.annByHash) && heard == old(heard)
      ensures old(AllRoutable(nodes)) && ProperAnnouncement(ann) ==> AllRoutable(nodes)
      ensures old(AllOffered(anns.annByHash, nodes) && Apart(nodes)) && Unheard(ann, old(nodes)) ==>
                AllOffered(anns.annByHash, nodes) && Apart(nodes)
      ensures r == Accepted ==>
                && (!ann.isReset ==> ann.nodeIp in old(heard)) && heard == HeardWith(ann, old(heard))
                && Updated(old(nodes), ann, nodes)
                && (forall h :: h in anns.annByHash <==>
                      h == ann.hash || (h in old(anns.annByHash) && !Withdrawn(ann, old(nodes), h)))
    {
      hide AnnList.Valid, Superseded, Retained, Reflects, ValidTable, NewestFirst, Remembers, LinksFollow, Updated,
        AllRoutable, ProperAnnouncement, AllLive, AllOffered, Apart, Unheard, FirstIn, Holds, StartedFrom, Narrowed;
      var ip := ann.nodeIp;
      if ip in nodes && nodes[ip].timestamp > ann.timestamp {
        return OldAnnouncement;
      }
      KnownIsHeard(nodes, heard, ip);
      if ann.isReset {
        r := ResetNode(ann);
        if r != Accepted {
          return;
        }
      } else if ip in nodes {
        AddAnnouncement(ip, ann);
        CurrentStaysFirst(old(nodes)[ip].announcements, ann);
      } else {
        return UnknownNode;
      }
      ghost var entered := nodes;
      EnterPeers(ip, ann);
      IsUpdated(old(nodes), ann, entered, nodes);
      LinksFollowStep(old(nodes), old(heard), ann, nodes);
      if AllRoutable(old(nodes)) && ProperAnnouncement(ann) {
        StaysRoutable(old(nodes), ann, nodes);
      }
      if AllOffered(old(anns.annByHash), old(nodes)) && Apart(old(nodes)) && Unheard(ann, old(nodes)) {
        StaysOffered(old(nodes), ann, nodes, old(anns.annByHash), anns.annByHash);
      }
      return Accepted;
    }

    /** Enters the peers of an announcement that heads its node's list, and offers its text. */
    method EnterPeers(ip: Ip, ann: Announcement)
      requires Stored() && ip in nodes && nodes[ip].announcements[0] == ann
      modifies this, anns
      ensures Stored() && heard == old(heard)
      ensures ip in nodes && ValidTable(nodes[ip].links)
      ensures nodes == old(nodes)[ip := old(nodes)[ip].(links := nodes[ip].links)]
      ensures Reflects(old(nodes)[ip].links, ann.entities, ann.timestamp, nodes[ip].links)
      ensures anns.annByHash.Keys == old(anns.annByHash).Keys + {ann.hash}
    {
      hide AnnList.Valid, Reflects, ValidTable, NewestFirst, Remembers, AllLive;
      var links := UpdateLinks(nodes[ip].links, ann);
      SetLinks(ip, links);
      var node := nodes[ip];
      var hasAnn := ann in node.announcements || node.resetMsg == Some(ann);
      if hasAnn {
        Offer(ip, ann);
      }
    }

    method SetLinks(ip: Ip, links: LinkTable)
      requires Stored() && ip in nodes && ValidTable(links)
      modifies this
      ensures Stored() && nodes == old(nodes)[ip := old(nodes)[ip].(links := links)] && heard == old(heard)
    {
      hide AnnList.Valid, ValidTable, Remembers, AllLive;
      RemembersLinks(nodes, heard, ip, nodes[ip].(links := links));
      LiveWithLinks(nodes, ip, nodes[ip].(links := links), anns.annByHash);
      nodes := nodes[ip := nodes[ip].(links := links)];
    }

    method Offer(ip: Ip, ann: Announcement)
      requires Stored() && ip in nodes && StandsOn(nodes[ip], ann)
      modifies anns
      ensures Stored() && anns.annByHash.Keys == old(anns.annByHash).Keys + {ann.hash}
      ensures ann.hash !in old(anns.annByHash) ==> anns.annByHash[ann.hash] == ann.binary
    {
      hide AnnList.Valid, ValidNode, Remembers;
      var added := anns.AddAnn(ann.hash, ann.binary);
      assert ann.hash in anns.annByHash && (added ==> Live(ann.hash, ann.binary, nodes));
    }

    /** Drops the nodes not heard of for too long, with everything they stand on. */
    method KeepTableClean(now: int)
      requires Valid()
      modifies this, anns
      ensures Valid()
      ensures nodes == map ip | ip in old(nodes) && old(nodes)[ip].timestamp >= now - 73200000 :: old(nodes)[ip]
      ensures old(AllRoutable(nodes)) ==> AllRoutable(nodes)
      ensures heard == map ip | ip in old(heard) && ip in nodes :: old(heard)[ip]
      ensures old(AllOffered(anns.annByHash, nodes) && Apart(nodes)) ==> AllOffered(anns.annByHash, nodes) && Apart(nodes)
      ensures WithoutGone(old(anns.annByHash), anns.annByHash, old(nodes), nodes)
    {
      hide AnnList.Valid, Holds, ValidNode, Remembers, LinksFollow, AllLive, WithoutGone, AllRoutable, CleanedBut, AllOffered, Apart, Narrowed;
      NothingNarrowed(anns.annByHash);
      NoneGone(anns.annByHash, nodes);
      var minTime := now - GLOBAL_TIMEOUT;
      var todo := nodes.Keys;
      CleanedNone(nodes, minTime);
      while todo != {}
        invariant todo <= nodes.Keys && anns.Valid() && heard == old(heard) && Narrowed(old(anns.annByHash), anns.annByHash)
        invariant CleanedBut(old(nodes), nodes, todo, minTime)
        invariant WithoutGone(old(anns.annByHash), anns.annByHash, old(nodes), nodes)
        decreases todo
      {
        var ip :| ip in todo;
        assert todo == (todo - {ip}) + {ip};
        todo := todo - {ip};
        CleanedMore(old(nodes), nodes, todo, ip, minTime);
        if nodes[ip].timestamp < minTime {
          ghost var listed, known := anns.annByHash, nodes;
          ForgetNode(nodes[ip]);
          nodes := nodes - {ip};
          NarrowedMore(old(anns.annByHash), listed, anns.annByHash);
          GoneMore(old(anns.annByHash), listed, anns.annByHash, old(nodes), known, ip);
        }
      }
      CleanedAll(old(nodes), nodes, minTime);
      LiveAfterForgetting(old(nodes), nodes, old(anns.annByHash), anns.annByHash);
      RemembersFewer(old(nodes), heard, nodes);
      RoutableFewer(old(nodes), nodes);
      if AllOffered(old(anns.annByHash), old(nodes)) && Apart(old(nodes)) {
        OfferedFewer(old(nodes), nodes, old(anns.annByHash), anns.annByHash);
      }
      heard := map ip | ip in heard && ip in nodes :: heard[ip];
    }
  }

  /**
    However many announcements came in and were compacted away: what the table says of a node at any
    time from now on is what all that was heard from it since its reset says, and so are
    its links; its key, version and scheme are those of that reset.
   */
  lemma TableIsHistory(server: Server, ip: Ip, c: Class, time: int)
    requires server.Valid() && ip in server.nodes && time >= server.nodes[ip].timestamp
    ensures ip in server.heard
    ensures Announced(c, server.nodes[ip].announcements, time) == Announced(c, server.heard[ip], time)
    ensures LinksAsSaid(server.nodes[ip].links, server.heard[ip])
    ensures server.heard[ip] != [] && StartedFrom(server.nodes[ip], server.heard[ip][|server.heard[ip]| - 1])
  {
    hide Compacted, Announced, NewestFirst, LinksAsSaid, StartedFrom;
    assert RemembersNode(server.nodes[ip], server.heard[ip]);
    CompactedAnnouncesTheSame(c, server.heard[ip], time);
  }

  /** What a reset announcement starts, but for the links. */
  ghost predicate Restarted(before: Nodes, ann: Announcement, n: Node) {
    && n.ipv6 == ann.nodeIp && n.timestamp == ann.timestamp && n.announcements == [ann] && n.resetMsg == Some(ann)
    && StartedFrom(n, ann)
    && (FirstIn(SchemeClass, ann.entities).None? ==> ann.nodeIp in before && n.scheme == before[ann.nodeIp].scheme)
  }

  lemma IsUpdated(before: Nodes, ann: Announcement, entered: Nodes, after: Nodes)
    requires var ip := ann.nodeIp;
             && ip in entered && entered == before[ip := entered[ip]]
             && ip in after && after == entered[ip := entered[ip].(links := after[ip].links)] && ValidTable(after[ip].links)
             && Reflects(entered[ip].links, ann.entities, ann.timestamp, after[ip].links) && entered[ip].ipv6 == ip
             && if ann.isReset then Restarted(before, ann, entered[ip]) && entered[ip].links == map[]
                else ip in before && before[ip].timestamp <= ann.timestamp && entered[ip] == before[ip].(
                       announcements := Retained([ann] + before[ip].announcements, ann, ann.timestamp), timestamp := ann.timestamp)
    ensures Updated(before, ann, after)
  {
    hide Reflects, ValidTable, FirstIn, Retained;
  }

  lemma {:induction false} FromIsFirst(entities: seq<Entity>)
    ensures FirstIn(VersionClass, entities) ==
            if VersionFrom(entities).Some? then Some(NodeProtocolVersion(VersionFrom(entities).value)) else None
    ensures FirstIn(SchemeClass, entities) ==
            if SchemeFrom(entities).Some? then Some(EncodingScheme(SchemeFrom(entities).value)) else None
  {
    if entities != [] {
      FromIsFirst(entities[1..]);
    }
  }

  /** Every hash of a node is one in its list or that of its reset message. */
  lemma HashesOf(n: Node)
    ensures forall h :: Holds(n, h) <==> h in HashSet(n.announcements) || (n.resetMsg.Some? && n.resetMsg.value.hash == h)
  {
    forall h
      ensures Holds(n, h) <==> h in HashSet(n.announcements) || (n.resetMsg.Some? && n.resetMsg.value.hash == h)
    {
      if h in HashSet(n.announcements) {
        var a :| a in n.announcements && a.hash == h;
        assert StandsOn(n, a);
      }
      if n.resetMsg.Some? && n.resetMsg.value.hash == h {
        assert StandsOn(n, n.resetMsg.value);
      }
    }
  }

  lemma NothingNarrowed(stored: map<Hash, seq<Byte>>)
    ensures Narrowed(stored, stored)
  {
  }

  lemma NarrowedMore(a: map<Hash, seq<Byte>>, b: map<Hash, seq<Byte>>, c: map<Hash, seq<Byte>>)
    requires Narrowed(a, b) && Narrowed(b, c)
    ensures Narrowed(a, c)
  {
  }
}
