/**
  The table of nodes that a supernode keeps (cjdns-snode/src/server/nodes.rs), as values: what a node
  holds, how it follows from all that was heard of it, and which announcements are offered to others.
 */
module NodeTables {
  import opened Wrappers
  import opened Schemes
  import opened Announcements
  import opened Compaction
  import opened Links

  datatype Node = Node(
    version: nat, key: seq<Byte>, ipv6: Ip, scheme: Scheme, links: LinkTable, timestamp: nat,
    announcements: seq<Announcement>, resetMsg: Option<Announcement>)

  ghost predicate ValidNode(n: Node) {
    && n.announcements != []
    && NewestFirst(n.announcements)
    && n.timestamp == n.announcements[0].timestamp
    && ValidTable(n.links)
  }

  type Nodes = map<Ip, Node>

  /** A node that routes can go through: a valid scheme and proper links. */
  ghost predicate Routable(n: Node) {
    ValidScheme(n.scheme) && ProperTable(n.links)
  }

  ghost predicate AllRoutable(nodes: Nodes) {
    forall ip :: ip in nodes ==> Routable(nodes[ip]) && nodes[ip].ipv6 == ip
  }

  /** What the types of a parsed announcement guarantee: valid schemes, labels that are not zero. */
  ghost predicate ProperAnnouncement(ann: Announcement) {
    && (forall e :: e in ann.entities && e.EncodingScheme? ==> ValidScheme(e.scheme))
    && (forall e :: e in ann.entities && e.Peer? ==> ProperPeer(e.peer))
  }

  /** The announcements a node stands on: its list and the reset message it began with. */
  ghost predicate StandsOn(n: Node, a: Announcement) {
    a in n.announcements || n.resetMsg == Some(a)
  }

  ghost predicate Holds(n: Node, hash: Hash) {
    exists a :: StandsOn(n, a) && a.hash == hash
  }

  ghost function HashSet(anns: seq<Announcement>): set<Hash> {
    set a | a in anns :: a.hash
  }

  /** What is offered under a hash is the text of an announcement that a known node stands on. */
  ghost predicate AllLive(stored: map<Hash, seq<Byte>>, nodes: Nodes) {
    forall h :: h in stored ==> Live(h, stored[h], nodes)
  }

  ghost predicate Live(h: Hash, data: seq<Byte>, nodes: Nodes) {
    exists ip, a :: ip in nodes && StandsOn(nodes[ip], a) && a.hash == h && a.binary == data
  }

  /** What has been accepted from each known node since its last reset, newest first. */
  type Heard = map<Ip, seq<Announcement>>

  /** Each node's list is what compaction leaves of all that was heard from it. */
  ghost predicate Remembers(nodes: Nodes, heard: Heard) {
    && heard.Keys == nodes.Keys
    && forall ip :: ip in nodes ==> RemembersNode(nodes[ip], heard[ip])
  }

  ghost predicate RemembersNode(n: Node, heard: seq<Announcement>) {
    && heard != [] && NewestFirst(heard)
    && n.timestamp == heard[0].timestamp && n.announcements == Compacted(heard)
    && n.resetMsg == Some(heard[|heard| - 1]) && StartedFrom(n, heard[|heard| - 1])
  }

  /** Key, version and scheme of a node are those of its reset message; a scheme that names none is not told by it. */
  ghost predicate StartedFrom(n: Node, reset: Announcement) {
    && reset.isReset && n.key == reset.nodePubKey && n.ipv6 == reset.nodeIp
    && FirstIn(VersionClass, reset.entities) == Some(NodeProtocolVersion(n.version))
    && (FirstIn(SchemeClass, reset.entities).Some? ==>
          FirstIn(SchemeClass, reset.entities) == Some(EncodingScheme(n.scheme)))
  }

  /** An accepted announcement is heard; a reset starts over. */
  ghost function HeardWith(ann: Announcement, heard: Heard): Heard
    requires !ann.isReset ==> ann.nodeIp in heard
  {
    heard[ann.nodeIp := if ann.isReset then [ann] else [ann] + heard[ann.nodeIp]]
  }

  /** The last word on a link in all that was heard, and when it was said. */
  ghost function LastSaid(heard: seq<Announcement>, ip: Ip, num: nat): Option<(PeerData, nat)> {
    if heard == [] then None
    else
      var last := LastMention(heard[0].entities, ip, num);
      if last.Some? then Some((last.value, heard[0].timestamp)) else LastSaid(heard[1..], ip, num)
  }

  /** The link is as last said: there with what was said of it, or not there if withdrawn or never heard of. */
  ghost predicate AsSaid(link: Option<Link>, said: Option<(PeerData, nat)>) {
    if said.None? || said.value.0.lab.None? then link.None?
    else link.Some? && Carries(link.value, said.value.0, said.value.1)
  }

  ghost predicate LinksAsSaid(links: LinkTable, heard: seq<Announcement>) {
    forall ip, num {:trigger Lookup(links, ip, num)} :: AsSaid(Lookup(links, ip, num), LastSaid(heard, ip, num))
  }

  ghost predicate LinksFollow(nodes: Nodes, heard: Heard) {
    forall ip :: ip in nodes && ip in heard ==> LinksAsSaid(nodes[ip].links, heard[ip])
  }

  lemma LinksSaidMore(before: LinkTable, heard: seq<Announcement>, ann: Announcement, after: LinkTable)
    requires LinksAsSaid(before, heard) && Reflects(before, ann.entities, ann.timestamp, after)
    ensures LinksAsSaid(after, [ann] + heard)
  {
    hide Lookup, LastMention, Carries, AllAgree, Ages;
    var more := [ann] + heard;
    assert more[0] == ann && more[1..] == heard;
    forall ip, num
      ensures AsSaid(Lookup(after, ip, num), LastSaid(more, ip, num))
    {
      var was := Lookup(before, ip, num);
      assert Reflected(was, ann.entities, ip, num, ann.timestamp, Lookup(after, ip, num));
    }
  }

  lemma NoLinksSaid()
    ensures LinksAsSaid(map[], [])
  {
  }

  lemma LinksFollowStep(nodes: Nodes, heard: Heard, ann: Announcement, nodes': Nodes)
    requires heard.Keys == nodes.Keys && LinksFollow(nodes, heard) && Updated(nodes, ann, nodes')
    ensures !ann.isReset ==> ann.nodeIp in heard
    ensures LinksFollow(nodes', HeardWith(ann, heard))
  {
    hide Reflects, LinksAsSaid, Retained, ValidTable, FirstIn, StartedFrom;
    var links := nodes'[ann.nodeIp].links;
    if ann.isReset {
      NoLinksSaid();
      assert [ann] + [] == [ann];
      LinksSaidMore(map[], [], ann, links);
    } else {
      LinksSaidMore(nodes[ann.nodeIp].links, heard[ann.nodeIp], ann, links);
    }
  }

  lemma RemembersReset(nodes: Nodes, heard: Heard, ip: Ip, ann: Announcement, n: Node)
    requires Remembers(nodes, heard) && n.announcements == [ann] && n.timestamp == ann.timestamp
    requires n.resetMsg == Some(ann) && StartedFrom(n, ann)
    ensures Remembers(nodes[ip := n], heard[ip := [ann]])
  {
    hide RemembersNode;
    assert RemembersNode(n, [ann]) by {
      ResetIsRemembered(ann, n);
    }
  }

  lemma ResetIsRemembered(ann: Announcement, n: Node)
    requires n.announcements == [ann] && n.timestamp == ann.timestamp && n.resetMsg == Some(ann) && StartedFrom(n, ann)
    ensures RemembersNode(n, [ann])
  {
    hide Compacted, StartedFrom;
    CompactedReset(ann);
  }

  lemma RemembersMore(nodes: Nodes, heard: Heard, ip: Ip, ann: Announcement, n: Node)
    requires Remembers(nodes, heard) && ip in nodes && nodes[ip].timestamp <= ann.timestamp && n.timestamp == ann.timestamp
    requires n == nodes[ip].(announcements := n.announcements, timestamp := n.timestamp)
    requires n.announcements == Retained([ann] + nodes[ip].announcements, ann, ann.timestamp)
    ensures Remembers(nodes[ip := n], heard[ip := [ann] + heard[ip]])
  {
    hide RemembersNode;
    NodeRemembersMore(nodes[ip], heard[ip], ann, n);
  }

  lemma NodeRemembersMore(was: Node, heard: seq<Announcement>, ann: Announcement, n: Node)
    requires RemembersNode(was, heard) && was.timestamp <= ann.timestamp && n.timestamp == ann.timestamp
    requires n == was.(announcements := n.announcements, timestamp := n.timestamp)
    requires n.announcements == Retained([ann] + was.announcements, ann, ann.timestamp)
    ensures RemembersNode(n, [ann] + heard)
  {
    hide Retained, FirstIn, NewestFirst;
    var more := [ann] + heard;
    assert more[0] == ann && more[1..] == heard && more[|more| - 1] == heard[|heard| - 1];
    NewerInFront(ann, heard);
  }

  lemma NewerInFront(ann: Announcement, heard: seq<Announcement>)
    requires heard != [] && NewestFirst(heard) && heard[0].timestamp <= ann.timestamp
    ensures NewestFirst([ann] + heard)
  {
  }

  lemma RemembersFewer(nodes: Nodes, heard: Heard, nodes': Nodes)
    requires Remembers(nodes, heard) && nodes'.Keys <= nodes.Keys && forall ip :: ip in nodes' ==> nodes'[ip] == nodes[ip]
    requires LinksFollow(nodes, heard)
    ensures Remembers(nodes', map ip | ip in heard && ip in nodes' :: heard[ip])
    ensures LinksFollow(nodes', map ip | ip in heard && ip in nodes' :: heard[ip])
  {
    hide RemembersNode, LinksAsSaid;
  }

  lemma KnownIsHeard(nodes: Nodes, heard: Heard, ip: Ip)
    requires Remembers(nodes, heard)
    ensures heard.Keys == nodes.Keys
  {
  }

  lemma RemembersLinks(nodes: Nodes, heard: Heard, ip: Ip, n: Node)
    requires Remembers(nodes, heard) && ip in nodes
    requires n == nodes[ip].(links := n.links)
    ensures Remembers(nodes[ip := n], heard)
  {
    hide Compacted, FirstIn;
    assert RemembersNode(nodes[ip], heard[ip]);
  }

  /**
    Exactly the node of an accepted announcement changes: a reset starts it anew, with the scheme
    announced or else the one known before; any other announcement is entered and compacted. Its links are
    as the announcement says.
   */
  ghost predicate Updated(before: Nodes, ann: Announcement, after: Nodes) {
    var ip := ann.nodeIp;
    && ip in after && after == before[ip := after[ip]] && ValidTable(after[ip].links)
    && after[ip].ipv6 == ip && after[ip].timestamp == ann.timestamp
    && if ann.isReset then
         && after[ip].announcements == [ann] && after[ip].resetMsg == Some(ann) && StartedFrom(after[ip], ann)
         && (FirstIn(SchemeClass, ann.entities).None? ==> ip in before && after[ip].scheme == before[ip].scheme)
         && Reflects(map[], ann.entities, ann.timestamp, after[ip].links)
       else
         && ip in before && before[ip].timestamp <= ann.timestamp
         && after[ip] == before[ip].(announcements := Retained([ann] + before[ip].announcements, ann, ann.timestamp),
                                     timestamp := ann.timestamp, links := after[ip].links)
         && Reflects(before[ip].links, ann.entities, ann.timestamp, after[ip].links)
  }

  /** Announcements as the parser lets them through keep every node fit for routes. */
  lemma StaysRoutable(before: Nodes, ann: Announcement, after: Nodes)
    requires AllRoutable(before) && ProperAnnouncement(ann) && Updated(before, ann, after)
    ensures AllRoutable(after)
  {
    hide Retained, ValidScheme, ProperTable, ValidTable, Reflects, FirstIn;
    var links := after[ann.nodeIp].links;
    if ann.isReset {
      FirstIsEntity(SchemeClass, ann.entities);
      NoLinksProper();
      ReflectsProper(map[], ann.entities, ann.timestamp, links);
    } else {
      ReflectsProper(before[ann.nodeIp].links, ann.entities, ann.timestamp, links);
    }
  }

  lemma {:induction false} FirstIsEntity(c: Class, entities: seq<Entity>)
    ensures FirstIn(c, entities).Some? ==> FirstIn(c, entities).value in entities
  {
    if entities != [] {
      FirstIsEntity(c, entities[1..]);
    }
  }

  lemma NoLinksProper()
    ensures ProperTable(map[])
  {
  }

  /** The announcement makes the node drop one with this hash that it does not stand on as its reset message. */
  ghost predicate Superseded(ann: Announcement, node: Node, h: Hash) {
    exists a :: a in Dropped([ann] + node.announcements, ann, ann.timestamp) && Some(a) != node.resetMsg && a.hash == h
  }

  /** What an accepted announcement takes out of the offered hashes. */
  ghost predicate Withdrawn(ann: Announcement, nodes: Nodes, h: Hash) {
    && ann.nodeIp in nodes
    && if ann.isReset then Holds(nodes[ann.nodeIp], h) else Superseded(ann, nodes[ann.nodeIp], h)
  }

  /** `after` holds the same under what is left of the hashes of `before`. */
  ghost predicate Narrowed(before: map<Hash, seq<Byte>>, after: map<Hash, seq<Byte>>) {
    forall h :: h in after ==> h in before && after[h] == before[h]
  }

  /** Replacing a node after everything it stands on was withdrawn leaves no hash without a holder. */
  lemma LiveWithout(nodes: Nodes, ip: Ip, n: Node, before: map<Hash, seq<Byte>>, after: map<Hash, seq<Byte>>)
    requires AllLive(before, nodes) && Narrowed(before, after)
    requires forall h :: h in after ==> !(ip in nodes && Holds(nodes[ip], h))
    ensures AllLive(after, nodes[ip := n])
  {
    hide StandsOn;
    var nodes' := nodes[ip := n];
    forall h | h in after
      ensures Live(h, after[h], nodes')
    {
      assert Live(h, before[h], nodes);
      var i, a :| i in nodes && StandsOn(nodes[i], a) && a.hash == h && a.binary == before[h];
      assert i in nodes' && nodes'[i] == nodes[i];
    }
  }

  /** The nodes left are those heard of in time, and those still to be looked at. */
  ghost predicate CleanedBut(nodes: Nodes, left: Nodes, todo: set<Ip>, minTime: int) {
    && left.Keys <= nodes.Keys
    && (forall ip :: ip in left ==> left[ip] == nodes[ip])
    && (forall ip :: ip in nodes ==> (ip in left <==> ip in todo || nodes[ip].timestamp >= minTime))
  }

  lemma CleanedNone(nodes: Nodes, minTime: int)
    ensures CleanedBut(nodes, nodes, nodes.Keys, minTime)
  {
  }

  lemma CleanedMore(nodes: Nodes, left: Nodes, todo: set<Ip>, ip: Ip, minTime: int)
    requires CleanedBut(nodes, left, todo + {ip}, minTime) && ip in left && ip !in todo
    ensures ip in nodes && left[ip] == nodes[ip]
    ensures CleanedBut(nodes, if left[ip].timestamp < minTime then left - {ip} else left, todo, minTime)
  {
  }

  lemma CleanedAll(nodes: Nodes, left: Nodes, minTime: int)
    requires CleanedBut(nodes, left, {}, minTime)
    ensures left == map ip | ip in nodes && nodes[ip].timestamp >= minTime :: nodes[ip]
    ensures left.Keys <= nodes.Keys && forall ip :: ip in left ==> left[ip] == nodes[ip]
  {
  }

  /** `after` is `before` without what the nodes stand on that are not `left`. */
  ghost predicate WithoutGone(before: map<Hash, seq<Byte>>, after: map<Hash, seq<Byte>>, nodes: Nodes, left: Nodes) {
    forall h :: h in after <==> h in before && !(exists ip :: ip in nodes && ip !in left && Holds(nodes[ip], h))
  }

  lemma NoneGone(stored: map<Hash, seq<Byte>>, nodes: Nodes)
    ensures WithoutGone(stored, stored, nodes, nodes)
  {
  }

  lemma GoneMore(before: map<Hash, seq<Byte>>, listed: map<Hash, seq<Byte>>, after: map<Hash, seq<Byte>>, nodes: Nodes, left: Nodes, ip: Ip)
    requires WithoutGone(before, listed, nodes, left) && ip in nodes && ip in left
    requires forall h :: h in after <==> h in listed && !Holds(nodes[ip], h)
    ensures WithoutGone(before, after, nodes, left - {ip})
  {
    hide Holds;
  }

  lemma RoutableFewer(nodes: Nodes, left: Nodes)
    requires forall ip :: ip in left ==> ip in nodes && left[ip] == nodes[ip]
    ensures AllRoutable(nodes) ==> AllRoutable(left)
  {
    hide Routable;
  }

  /** So does forgetting nodes together with everything they stand on. */
  lemma LiveAfterForgetting(nodes: Nodes, nodes': Nodes, before: map<Hash, seq<Byte>>, after: map<Hash, seq<Byte>>)
    requires AllLive(before, nodes) && forall ip :: ip in nodes' ==> ip in nodes && nodes'[ip] == nodes[ip]
    requires Narrowed(before, after) && WithoutGone(before, after, nodes, nodes')
    ensures AllLive(after, nodes')
  {
    hide StandsOn;
    forall h | h in after
      ensures Live(h, after[h], nodes')
    {
      assert Live(h, before[h], nodes);
      var i, a :| i in nodes && StandsOn(nodes[i], a) && a.hash == h && a.binary == before[h];
      assert Holds(nodes[i], h);
      assert i in nodes' && nodes'[i] == nodes[i];
    }
  }

  /** Withdrawing the dropped announcements leaves no hash without a holder. */
  lemma StillLive(nodes: Nodes, ip: Ip, ann: Announcement, kept: seq<Announcement>, dropped: seq<Announcement>,
                  before: map<Hash, seq<Byte>>, after: map<Hash, seq<Byte>>)
    requires ip in nodes && AllLive(before, nodes) && Narrowed(before, after)
    requires forall a :: a in [ann] + nodes[ip].announcements <==> a in kept || a in dropped
    requires forall h :: h in after ==> !(exists a :: a in dropped && Some(a) != nodes[ip].resetMsg && a.hash == h)
    ensures AllLive(after, nodes[ip := nodes[ip].(announcements := kept, timestamp := ann.timestamp)])
  {
    var node := nodes[ip];
    var node' := node.(announcements := kept, timestamp := ann.timestamp);
    var nodes' := nodes[ip := node'];
    forall h | h in after
      ensures Live(h, after[h], nodes')
    {
      assert Live(h, before[h], nodes);
      var i, a :| i in nodes && StandsOn(nodes[i], a) && a.hash == h && a.binary == before[h];
      assert i in nodes';
      assert a in node.announcements ==> a in [ann] + node.announcements;
      assert StandsOn(nodes'[i], a);
    }
  }

  /** A node with other links stands on the same announcements. */
  lemma LiveWithLinks(nodes: Nodes, ip: Ip, n: Node, stored: map<Hash, seq<Byte>>)
    requires AllLive(stored, nodes) && ip in nodes && n == nodes[ip].(links := n.links)
    ensures AllLive(stored, nodes[ip := n])
  {
    var nodes' := nodes[ip := n];
    forall h | h in stored
      ensures Live(h, stored[h], nodes')
    {
      assert Live(h, stored[h], nodes);
      var i, a :| i in nodes && StandsOn(nodes[i], a) && a.hash == h && a.binary == stored[h];
      assert i in nodes' && StandsOn(nodes'[i], a);
    }
  }

  // ---------------------------------------------------------------- what is offered

  /** Every announcement that a known node stands on is offered. */
  ghost predicate AllOffered(stored: map<Hash, seq<Byte>>, nodes: Nodes) {
    forall ip, a :: ip in nodes && StandsOn(nodes[ip], a) ==> a.hash in stored
  }

  /** No announcement is in a list twice, and no two have one hash. */
  ghost predicate Apart(nodes: Nodes) {
    && (forall ip :: ip in nodes ==> NoneTwice(nodes[ip].announcements))
    && (forall ip, jp, a, b :: ip in nodes && jp in nodes && StandsOn(nodes[ip], a) && StandsOn(nodes[jp], b) && a.hash == b.hash ==>
          ip == jp && a == b)
  }

  /** The announcement is new: nothing that a node stands on has its hash. */
  ghost predicate Unheard(ann: Announcement, nodes: Nodes) {
    forall ip :: ip in nodes ==> !Holds(nodes[ip], ann.hash)
  }

  /** New announcements keep everything offered: only what is dropped for good is withdrawn. */
  lemma StaysOffered(nodes: Nodes, ann: Announcement, nodes': Nodes, before: map<Hash, seq<Byte>>, after: map<Hash, seq<Byte>>)
    requires Apart(nodes) && AllOffered(before, nodes) && Unheard(ann, nodes) && Updated(nodes, ann, nodes')
    requires forall h :: h in after <==> h == ann.hash || (h in before && !Withdrawn(ann, nodes, h))
    ensures Apart(nodes') && AllOffered(after, nodes')
  {
    hide Updated, StandsOn, Withdrawn;
    StaysApart(nodes, ann, nodes');
    NewNodeStandsOn(nodes, ann, nodes');
    forall jp, a | jp in nodes' && StandsOn(nodes'[jp], a)
      ensures a.hash in after
    {
      if a != ann {
        KeptIsNotWithdrawn(nodes, ann, nodes', jp, a);
      }
    }
  }

  lemma StaysApart(nodes: Nodes, ann: Announcement, nodes': Nodes)
    requires Apart(nodes) && Unheard(ann, nodes) && Updated(nodes, ann, nodes')
    ensures Apart(nodes')
  {
    hide StandsOn, Updated;
    NewNodeStandsOn(nodes, ann, nodes');
    OthersStay(nodes, ann, nodes');
    forall ip, jp, a, b | ip in nodes' && jp in nodes' && StandsOn(nodes'[ip], a) && StandsOn(nodes'[jp], b) && a.hash == b.hash
      ensures ip == jp && a == b
    {
      assert a != ann ==> StandsOn(nodes[ip], a) && Holds(nodes[ip], a.hash);
      assert b != ann ==> StandsOn(nodes[jp], b) && Holds(nodes[jp], b.hash);
    }
  }

  lemma OthersStay(nodes: Nodes, ann: Announcement, nodes': Nodes)
    requires Updated(nodes, ann, nodes')
    ensures forall ip :: ip in nodes' && ip != ann.nodeIp ==> ip in nodes && nodes'[ip] == nodes[ip]
  {
    hide Reflects, ValidTable, FirstIn, StartedFrom, Retained;
  }

  /** What the node of an accepted announcement stands on: the announcement and some of what it stood on before. */
  lemma NewNodeStandsOn(nodes: Nodes, ann: Announcement, nodes': Nodes)
    requires Apart(nodes) && Unheard(ann, nodes) && Updated(nodes, ann, nodes')
    ensures forall jp, a :: jp in nodes' && StandsOn(nodes'[jp], a) ==>
              (jp == ann.nodeIp && a == ann) || (a != ann && jp in nodes && StandsOn(nodes[jp], a))
    ensures NoneTwice(nodes'[ann.nodeIp].announcements)
  {
    hide Reflects, ValidTable, FirstIn, StartedFrom, Retained;
    var ip := ann.nodeIp;
    if !ann.isReset {
      var all := [ann] + nodes[ip].announcements;
      assert forall i :: 0 <= i < |nodes[ip].announcements| ==> StandsOn(nodes[ip], nodes[ip].announcements[i]);
      assert NoneTwice(all);
      RetainedOrDropped(all, ann, ann.timestamp);
      RetainedNoneTwice(all, ann, ann.timestamp);
    }
  }

  lemma KeptIsNotWithdrawn(nodes: Nodes, ann: Announcement, nodes': Nodes, jp: Ip, a: Announcement)
    requires Apart(nodes) && Unheard(ann, nodes) && Updated(nodes, ann, nodes')
    requires jp in nodes' && StandsOn(nodes'[jp], a) && jp in nodes && StandsOn(nodes[jp], a) && a != ann
    ensures !Withdrawn(ann, nodes, a.hash)
  {
    hide Reflects, ValidTable, FirstIn, StartedFrom, Retained, Dropped;
    var ip := ann.nodeIp;
    if ann.isReset {
      NoneWithItsHash(nodes, jp, a, ip);
    } else {
      hide Apart, Unheard;
      var all := [ann] + nodes[ip].announcements;
      NewIsNoneTwice(nodes, ann, ip);
      RetainedOrDropped(all, ann, ann.timestamp);
      RetainedNoneTwice(all, ann, ann.timestamp);
      hide NoneTwice;
      forall d | d in Dropped(all, ann, ann.timestamp) && Some(d) != nodes[ip].resetMsg
        ensures d.hash != a.hash
      {
        assert d in all && (d == ann || StandsOn(nodes[ip], d));
        HashTellsApart(nodes, ann, ip, jp, a, d);
      }
    }
  }

  lemma NewIsNoneTwice(nodes: Nodes, ann: Announcement, ip: Ip)
    requires Apart(nodes) && Unheard(ann, nodes) && ip in nodes
    ensures NoneTwice([ann] + nodes[ip].announcements)
  {
    var anns := nodes[ip].announcements;
    assert forall i :: 0 <= i < |anns| ==> StandsOn(nodes[ip], anns[i]) && Holds(nodes[ip], anns[i].hash);
  }

  /** An announcement with the hash of one that a node stands on is that one. */
  lemma HashTellsApart(nodes: Nodes, ann: Announcement, ip: Ip, jp: Ip, a: Announcement, d: Announcement)
    requires Apart(nodes) && Unheard(ann, nodes) && ip in nodes && jp in nodes && StandsOn(nodes[jp], a)
    requires d == ann || StandsOn(nodes[ip], d)
    ensures a.hash == d.hash ==> a == d && d != ann && ip == jp
  {
    assert Holds(nodes[jp], a.hash);
  }

  lemma NoneWithItsHash(nodes: Nodes, jp: Ip, a: Announcement, ip: Ip)
    requires Apart(nodes) && jp in nodes && StandsOn(nodes[jp], a) && ip != jp
    ensures ip in nodes ==> !Holds(nodes[ip], a.hash)
  {
    hide StandsOn;
  }

  /**
    An announcement that was heard twice is withdrawn by the next one that leaves it standing: the
    second copy is dropped, and its hash with it, while the first copy stays.
   */
  lemma TwiceHeard(n: Node, a: Announcement, next: Announcement)
    requires n.announcements == [a, a] && n.resetMsg != Some(a) && a != next
    requires a.timestamp >= next.timestamp - AGREED_TIMEOUT && !(Classes(a.entities) <= Classes(next.entities))
    ensures a in Retained([next] + n.announcements, next, next.timestamp) && Superseded(next, n, a.hash)
  {
    var t, all := next.timestamp, [next, a, a];
    assert [next] + n.announcements == all;
    assert all[..2] == [next, a] && all[..2][..1] == [next] && all[..2][..1][..0] == [];
    assert Covered([next], t) == Classes(next.entities);
    assert Covered([next, a], t) == Classes(next.entities) + Classes(a.entities);
    assert [next][..0] == [] && [next, a][..1] == [next];
    assert Retained([next], next, t) == [next];
    assert Stays(a, Covered([next], t), next, t) && !Stays(a, Covered([next, a], t), next, t);
    assert Retained([next, a], next, t) == Retained([next], next, t) + [a];
    assert Retained(all, next, t) == Retained([next, a], next, t) + [];
    assert a in Dropped(all, next, t);
  }

  /** Forgetting nodes keeps the announcements of the others offered. */
  lemma OfferedFewer(nodes: Nodes, nodes': Nodes, before: map<Hash, seq<Byte>>, after: map<Hash, seq<Byte>>)
    requires Apart(nodes) && AllOffered(before, nodes) && WithoutGone(before, after, nodes, nodes')
    requires forall ip :: ip in nodes' ==> ip in nodes && nodes'[ip] == nodes[ip]
    ensures Apart(nodes') && AllOffered(after, nodes')
  {
    hide StandsOn;
    forall ip, a | ip in nodes' && StandsOn(nodes'[ip], a)
      ensures a.hash in after
    {
      forall jp | jp in nodes && jp !in nodes'
        ensures !Holds(nodes[jp], a.hash)
      {
        NoneWithItsHash(nodes, ip, a, jp);
      }
    }
  }
}
