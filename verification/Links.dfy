/** The table of links into a node, by neighbour (cjdns-snode/src/server.rs:326-372, server/link.rs:42-58). */
module Links {
  import opened Wrappers
  import opened Bits
  import opened Announcements

  /** `value` is the quality of the link, which link-state samples accumulate. */
  datatype Link = Link(
    lab: nat, encodingFormNumber: nat, peerNum: nat, createTime: nat, mtu: nat, flags: nat, time: nat, value: real)

  type LinkTable = map<Ip, seq<Link>>

  ghost predicate DistinctNumbers(links: seq<Link>) {
    forall i, j :: 0 <= i < j < |links| ==> links[i].peerNum != links[j].peerNum
  }

  /** No neighbour has an empty list, or two links with one number. */
  ghost predicate ValidTable(table: LinkTable) {
    forall ip :: ip in table ==> table[ip] != [] && DistinctNumbers(table[ip])
  }

  function MakeLink(p: PeerData, ann: Announcement): Link
    requires p.lab.Some?
  {
    Link(p.lab.value, p.encodingFormNumber, p.peerNum, ann.timestamp, p.mtu, p.flags, ann.timestamp, 0.0)
  }

  /** The link of a neighbour with a given number. */
  function Find(links: seq<Link>, num: nat): (r: Option<Link>)
    ensures r.Some? ==> r.value in links && r.value.peerNum == num
    ensures r.None? ==> forall l :: l in links ==> l.peerNum != num
  {
    if links == [] then None
    else if links[0].peerNum == num then Some(links[0])
    else Find(links[1..], num)
  }

  function Lookup(table: LinkTable, ip: Ip, num: nat): Option<Link> {
    if ip in table then Find(table[ip], num) else None
  }

  function Without(links: seq<Link>, num: nat): (r: seq<Link>)
    ensures forall l :: l in r <==> l in links && l.peerNum != num
  {
    Filter((l: Link) => l.peerNum != num, links)
  }

  lemma HeadNumberUnique(links: seq<Link>)
    requires links != [] && DistinctNumbers(links)
    ensures DistinctNumbers(links[1..]) && forall l :: l in links[1..] ==> l.peerNum != links[0].peerNum
  {
  }

  lemma WithoutStep(links: seq<Link>, num: nat)
    requires links != []
    ensures var rest := Without(links[1..], num);
            Without(links, num) == if links[0].peerNum != num then [links[0]] + rest else rest
  {
  }

  lemma {:induction false} WithoutDistinct(links: seq<Link>, num: nat)
    requires DistinctNumbers(links)
    ensures DistinctNumbers(Without(links, num))
  {
    hide Without;
    if links != [] {
      HeadNumberUnique(links);
      WithoutStep(links, num);
      WithoutDistinct(links[1..], num);
    }
  }

  lemma {:induction false} FindWithout(links: seq<Link>, num: nat, n: nat)
    ensures Find(Without(links, num), n) == if n == num then None else Find(links, n)
  {
    hide Without;
    if links != [] {
      WithoutStep(links, num);
      FindWithout(links[1..], num, n);
      var rest := Without(links[1..], num);
      assert ([links[0]] + rest)[1..] == rest;
    }
  }

  /** Where the loop over the stored links ends: at the first link with the number, or at the end. */
  method IndexOf(links: seq<Link>, num: nat) returns (k: nat)
    ensures k <= |links|
    ensures forall i :: 0 <= i < k ==> links[i].peerNum != num
    ensures k < |links| ==> links[k].peerNum == num
  {
    k := 0;
    while k < |links|
      invariant k <= |links| && forall i :: 0 <= i < k ==> links[i].peerNum != num
    {
      if links[k].peerNum == num {
        return;
      }
      k := k + 1;
    }
  }

  lemma {:induction false} FindAt(links: seq<Link>, k: nat, num: nat)
    requires k <= |links| && (forall i :: 0 <= i < k ==> links[i].peerNum != num)
    requires k < |links| ==> links[k].peerNum == num
    ensures Find(links, num) == if k < |links| then Some(links[k]) else None
  {
    if k > 0 {
      FindAt(links[1..], k - 1, num);
    }
  }

  lemma {:induction false} FindAfterUpdate(links: seq<Link>, k: nat, l: Link, num: nat)
    requires k < |links| && links[k].peerNum == l.peerNum && DistinctNumbers(links)
    ensures DistinctNumbers(links[k := l])
    ensures Find(links[k := l], num) == if num == l.peerNum then Some(l) else Find(links, num)
    decreases k
  {
    if k == 0 {
      assert links[0 := l][1..] == links[1..];
    } else {
      assert DistinctNumbers(links[1..]);
      FindAfterUpdate(links[1..], k - 1, l, num);
      assert links[k := l][1..] == links[1..][k - 1 := l];
    }
  }

  lemma {:induction false} FindAfterPush(links: seq<Link>, l: Link, num: nat)
    requires forall i :: 0 <= i < |links| ==> links[i].peerNum != l.peerNum
    ensures Find(links + [l], num) == if num == l.peerNum then Some(l) else Find(links, num)
  {
    if links != [] {
      FindAfterPush(links[1..], l, num);
      assert (links + [l])[1..] == links[1..] + [l];
    }
  }

  lemma DistinctAfterPush(links: seq<Link>, l: Link)
    requires DistinctNumbers(links) && forall i :: 0 <= i < |links| ==> links[i].peerNum != l.peerNum
    ensures DistinctNumbers(links + [l])
  {
  }

  /** The link carries what was announced for it at `time`. */
  ghost predicate Carries(l: Link, p: PeerData, time: nat) {
    && p.lab == Some(l.lab) && l.encodingFormNumber == p.encodingFormNumber && l.peerNum == p.peerNum
    && l.flags == p.flags && l.mtu == p.mtu && l.time == time
  }

  /** The announced peer is the link as it is stored: same label, same form. */
  ghost predicate Agrees(l: Link, p: PeerData) {
    p.lab == Some(l.lab) && p.encodingFormNumber == l.encodingFormNumber
  }

  /** A link that is only refreshed keeps its value and the time it was created; any other starts anew. */
  ghost predicate Ages(before: Option<Link>, same: bool, time: nat, l: Link) {
    if before.Some? && same then l.value == before.value.value && l.createTime == before.value.createTime
    else l.value == 0.0 && l.createTime == time
  }

  /** What one announced peer does to the table, seen link by link. */
  ghost predicate Applied(before: LinkTable, p: PeerData, ann: Announcement, after: LinkTable) {
    forall ip, num {:trigger Lookup(after, ip, num)} ::
      var was, link := Lookup(before, ip, num), Lookup(after, ip, num);
      if ip != p.ipv6 || num != p.peerNum then link == was
      else if p.lab.None? then link.None?
      else
        && link.Some? && Carries(link.value, p, ann.timestamp)
        && Ages(was, was.Some? && Agrees(was.value, p), ann.timestamp, link.value)
  }

  /** Enters one announced peer: a withdrawal removes the link, an announcement merges or adds it. */
  method ApplyPeer(table: LinkTable, p: PeerData, ann: Announcement) returns (table': LinkTable)
    requires ValidTable(table)
    ensures ValidTable(table') && Applied(table, p, ann, table')
    ensures p.lab.Some? ==> p.ipv6 in table'
    ensures p.lab.Some? && p.ipv6 in table ==>
              |table[p.ipv6]| <= |table'[p.ipv6]| <= |table[p.ipv6]| + 1 &&
              forall i :: 0 <= i < |table[p.ipv6]| ==> table'[p.ipv6][i].peerNum == table[p.ipv6][i].peerNum
  {
    if p.lab.None? {
      if p.ipv6 in table {
        var links := Without(table[p.ipv6], p.peerNum);
        WithoutDistinct(table[p.ipv6], p.peerNum);
        forall num {
          FindWithout(table[p.ipv6], p.peerNum, num);
        }
        table' := if links == [] then table - {p.ipv6} else table[p.ipv6 := links];
      } else {
        table' := table;
      }
      return;
    }
    var newLink := MakeLink(p, ann);
    if p.ipv6 in table {
      var stored := table[p.ipv6];
      var k := IndexOf(stored, p.peerNum);
      FindAt(stored, k, p.peerNum);
      if k < |stored| {
        var l := newLink;
        if stored[k].lab == newLink.lab && stored[k].encodingFormNumber == newLink.encodingFormNumber {
          // only small changes, if any
          l := stored[k].(flags := newLink.flags, mtu := newLink.mtu, time := newLink.time);
        }
        forall num {
          FindAfterUpdate(stored, k, l, num);
        }
        table' := table[p.ipv6 := stored[k := l]];
      } else {
        forall num {
          FindAfterPush(stored, newLink, num);
        }
        DistinctAfterPush(stored, newLink);
        table' := table[p.ipv6 := stored + [newLink]];
      }
    } else {
      table' := table[p.ipv6 := [newLink]];
    }
  }

  predicate Mentions(e: Entity, ip: Ip, num: nat) {
    e.Peer? && e.peer.ipv6 == ip && e.peer.peerNum == num
  }

  /** The last word of an announcement on a neighbour and number. */
  ghost function LastMention(entities: seq<Entity>, ip: Ip, num: nat): (r: Option<PeerData>)
    ensures r.Some? ==> Entity.Peer(r.value) in entities && r.value.ipv6 == ip && r.value.peerNum == num
  {
    if entities == [] then None
    else
      var n := |entities| - 1;
      if Mentions(entities[n], ip, num) then Some(entities[n].peer) else LastMention(entities[..n], ip, num)
  }

  /** Every word of an announcement on a neighbour and number agrees with the link as it is stored. */
  ghost predicate AllAgree(entities: seq<Entity>, ip: Ip, num: nat, l: Option<Link>) {
    l.Some? && forall e :: e in entities && Mentions(e, ip, num) ==> Agrees(l.value, e.peer)
  }

  /**
    Each link an announcement mentions is there as last announced, or gone if withdrawn; it keeps its
    value and age exactly if it was there and never announced otherwise. Other links are as before.
   */
  ghost predicate Reflects(before: LinkTable, entities: seq<Entity>, time: nat, after: LinkTable) {
    forall ip, num {:trigger Lookup(after, ip, num)} ::
      Reflected(Lookup(before, ip, num), entities, ip, num, time, Lookup(after, ip, num))
  }

  ghost predicate Reflected(was: Option<Link>, entities: seq<Entity>, ip: Ip, num: nat, time: nat, link: Option<Link>) {
    var last := LastMention(entities, ip, num);
    if last.None? then link == was
    else if last.value.lab.None? then link.None?
    else
      && link.Some? && Carries(link.value, last.value, time)
      && Ages(was, AllAgree(entities, ip, num, was), time, link.value)
  }

  method UpdateLinks(table: LinkTable, ann: Announcement) returns (table': LinkTable)
    requires ValidTable(table)
    ensures ValidTable(table') && Reflects(table, ann.entities, ann.timestamp, table')
  {
    hide ValidTable, Lookup, Reflects, Applied;
    table' := table;
    NothingReflected(table, ann.timestamp);
    for k := 0 to |ann.entities|
      invariant ValidTable(table') && Reflects(table, ann.entities[..k], ann.timestamp, table')
    {
      var before, e := table', ann.entities[k];
      if e.Peer? {
        table' := ApplyPeer(table', e.peer, ann);
        ReflectsMore(table, ann.entities[..k], before, e.peer, ann, table');
      } else {
        ReflectsOther(table, ann.entities[..k], e, ann.timestamp, table');
      }
      assert ann.entities[..k + 1] == ann.entities[..k] + [e];
    }
    assert ann.entities[..|ann.entities|] == ann.entities;
  }

  lemma NothingReflected(table: LinkTable, time: nat)
    ensures Reflects(table, [], time, table)
  {
  }

  lemma LastMentionMore(entities: seq<Entity>, e: Entity, ip: Ip, num: nat, was: Option<Link>)
    ensures LastMention(entities + [e], ip, num) ==
            if Mentions(e, ip, num) then Some(e.peer) else LastMention(entities, ip, num)
    ensures AllAgree(entities + [e], ip, num, was) <==>
            AllAgree(entities, ip, num, was) && (Mentions(e, ip, num) ==> Agrees(was.value, e.peer))
  {
    assert (entities + [e])[..|entities|] == entities;
    assert e in entities + [e];
    assert forall x :: x in entities ==> x in entities + [e];
  }

  lemma {:induction false} UnmentionedAgrees(entities: seq<Entity>, ip: Ip, num: nat, was: Option<Link>)
    ensures var last := LastMention(entities, ip, num);
            && (last.None? && was.Some? ==> AllAgree(entities, ip, num, was))
            && (last.Some? && AllAgree(entities, ip, num, was) ==> Agrees(was.value, last.value))
  {
    if entities != [] {
      var n := |entities| - 1;
      UnmentionedAgrees(entities[..n], ip, num, was);
      assert entities[..n] + [entities[n]] == entities;
      LastMentionMore(entities[..n], entities[n], ip, num, was);
    }
  }

  lemma ReflectsOther(start: LinkTable, entities: seq<Entity>, e: Entity, time: nat, after: LinkTable)
    requires Reflects(start, entities, time, after) && !e.Peer?
    ensures Reflects(start, entities + [e], time, after)
  {
    hide Lookup, LastMention, AllAgree, Carries, Ages;
    forall ip, num
      ensures Reflected(Lookup(start, ip, num), entities + [e], ip, num, time, Lookup(after, ip, num))
    {
      LastMentionMore(entities, e, ip, num, Lookup(start, ip, num));
      assert Reflected(Lookup(start, ip, num), entities, ip, num, time, Lookup(after, ip, num));
    }
  }

  lemma ReflectsMore(start: LinkTable, entities: seq<Entity>, before: LinkTable, p: PeerData, ann: Announcement, after: LinkTable)
    requires Reflects(start, entities, ann.timestamp, before) && Applied(before, p, ann, after)
    ensures Reflects(start, entities + [Entity.Peer(p)], ann.timestamp, after)
  {
    hide Lookup, LastMention, AllAgree;
    forall ip, num
      ensures Reflected(Lookup(start, ip, num), entities + [Entity.Peer(p)], ip, num, ann.timestamp, Lookup(after, ip, num))
    {
      var first, was, link := Lookup(start, ip, num), Lookup(before, ip, num), Lookup(after, ip, num);
      assert Reflected(first, entities, ip, num, ann.timestamp, was);
      LastMentionMore(entities, Entity.Peer(p), ip, num, first);
      UnmentionedAgrees(entities, ip, num, first);
    }
  }

  // ---------------------------------------------------------------- links that routes can be made of

  /** Bits of the labels that routes are made of. */
  const WIDTH := 64

  ghost predicate ProperLink(l: Link) {
    0 < l.lab < Pow2(WIDTH) && l.peerNum < Pow2(WIDTH) && l.value >= 0.0
  }

  ghost predicate ProperTable(table: LinkTable) {
    forall ip, l :: ip in table && l in table[ip] ==> ProperLink(l)
  }

  /** What the types of a parsed announcement guarantee of a peer. */
  ghost predicate ProperPeer(p: PeerData) {
    p.peerNum < Pow2(WIDTH) && (p.lab.Some? ==> 0 < p.lab.value < Pow2(WIDTH))
  }

  lemma {:induction false} FindsOwn(links: seq<Link>, l: Link)
    requires DistinctNumbers(links) && l in links
    ensures Find(links, l.peerNum) == Some(l)
  {
    if links[0] != l {
      assert l in links[1..];
      HeadNumberUnique(links);
      FindsOwn(links[1..], l);
    }
  }

  /** Proper links and a proper announcement make proper links. */
  lemma ReflectsProper(before: LinkTable, entities: seq<Entity>, time: nat, after: LinkTable)
    requires Reflects(before, entities, time, after) && ProperTable(before) && ValidTable(after)
    requires forall e :: e in entities && e.Peer? ==> ProperPeer(e.peer)
    ensures ProperTable(after)
  {
    hide LastMention, Pow2, AllAgree;
    forall ip, l | ip in after && l in after[ip]
      ensures ProperLink(l)
    {
      FindsOwn(after[ip], l);
      assert Lookup(after, ip, l.peerNum) == Some(l);
      var was := Lookup(before, ip, l.peerNum);
      assert Reflected(was, entities, ip, l.peerNum, time, Some(l));
      assert was.Some? ==> ProperLink(was.value);
    }
  }
}
