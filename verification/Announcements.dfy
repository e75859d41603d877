/**
  Announcements and their compaction (cjdns-snode/src/server.rs:387-452 and
  cjdns-snode/src/server/utils.rs). A node keeps the announcements that still say something:
  newest first, each the latest word on some entity class.
 */
module Announcements {
  import opened Wrappers
  import opened Schemes

  type Ip = nat
  type Hash = seq<Byte>

  /** A peer of the announcing node; no label means that the route is withdrawn. */
  datatype PeerData = PeerData(ipv6: Ip, lab: Option<nat>, peerNum: nat, encodingFormNumber: nat, mtu: nat, flags: nat)

  datatype Entity =
    | NodeProtocolVersion(version: nat)
    | EncodingScheme(scheme: Scheme)
    | Peer(peer: PeerData)
    | LinkState(nodeId: nat, samples: seq<nat>)

  /** Timestamps are in milliseconds. */
  datatype Announcement = Announcement(
    timestamp: nat, isReset: bool, entities: seq<Entity>, nodePubKey: seq<Byte>, nodeIp: Ip,
    binary: seq<Byte>, hash: Hash)

  const AGREED_TIMEOUT := 20 * 60 * 1000

  predicate IsEphemeral(e: Entity) {
    e.LinkState?
  }

  /** Does `newer` say anew what `older` says? */
  predicate IsReplacement(older: Entity, newer: Entity) {
    match (older, newer)
    case (NodeProtocolVersion(_), NodeProtocolVersion(_)) => true
    case (EncodingScheme(_), EncodingScheme(_)) => true
    case (Peer(p), Peer(q)) => p.peerNum == q.peerNum
    case _ => false
  }

  /** What an entity speaks about. */
  datatype Class = VersionClass | SchemeClass | PeerClass(peerNum: nat)

  function ClassOf(e: Entity): (c: Option<Class>) {
    match e
    case NodeProtocolVersion(_) => Some(VersionClass)
    case EncodingScheme(_) => Some(SchemeClass)
    case Peer(p) => Some(PeerClass(p.peerNum))
    case LinkState(_, _) => None
  }

  /** Replacement is having the same class. */
  lemma ReplacementIsSameClass(older: Entity, newer: Entity)
    ensures IsEphemeral(older) <==> ClassOf(older).None?
    ensures IsReplacement(older, newer) <==> ClassOf(older).Some? && ClassOf(older) == ClassOf(newer)
  {
  }

  ghost function Classes(entities: seq<Entity>): set<Class> {
    set e | e in entities && ClassOf(e).Some? :: ClassOf(e).value
  }

  predicate Expired(a: Announcement, time: int) {
    a.timestamp < time - AGREED_TIMEOUT
  }

  /** The classes that the unexpired announcements of a list speak about. */
  ghost function Covered(anns: seq<Announcement>, time: int): set<Class> {
    if anns == [] then {}
    else
      var init, last := anns[..|anns| - 1], anns[|anns| - 1];
      Covered(init, time) + if Expired(last, time) then {} else Classes(last.entities)
  }

  /** An announcement stays if it is the one just made or adds a class to those `covered` by newer ones. */
  ghost predicate Stays(a: Announcement, covered: set<Class>, current: Announcement, time: int) {
    !Expired(a, time) && (a == current || !(Classes(a.entities) <= covered))
  }

  ghost function Retained(anns: seq<Announcement>, current: Announcement, time: int): seq<Announcement> {
    if anns == [] then []
    else
      var init, last := anns[..|anns| - 1], anns[|anns| - 1];
      Retained(init, current, time) + if Stays(last, Covered(init, time), current, time) then [last] else []
  }

  ghost function Dropped(anns: seq<Announcement>, current: Announcement, time: int): seq<Announcement> {
    if anns == [] then []
    else
      var init, last := anns[..|anns| - 1], anns[|anns| - 1];
      Dropped(init, current, time) + if Stays(last, Covered(init, time), current, time) then [] else [last]
  }

  // ---------------------------------------------------------------- what compaction preserves

  /** The first entity of a class in an announcement. */
  ghost function FirstIn(c: Class, entities: seq<Entity>): Option<Entity> {
    if entities == [] then None
    else if ClassOf(entities[0]) == Some(c) then Some(entities[0])
    else FirstIn(c, entities[1..])
  }

  /** The announced state: the first word on a class among the unexpired announcements, newest first. */
  ghost function Announced(c: Class, anns: seq<Announcement>, time: int): Option<Entity> {
    if anns == [] then None
    else
      var init, last := anns[..|anns| - 1], anns[|anns| - 1];
      var newer := Announced(c, init, time);
      if newer.Some? || Expired(last, time) then newer else FirstIn(c, last.entities)
  }

  lemma {:induction false} FirstInIffClass(c: Class, entities: seq<Entity>)
    ensures FirstIn(c, entities).Some? <==> c in Classes(entities)
  {
    if entities != [] {
      FirstInIffClass(c, entities[1..]);
      assert Classes(entities) == Classes(entities[1..]) + Classes([entities[0]]) by {
        assert entities == [entities[0]] + entities[1..];
      }
    }
  }

  lemma {:induction false} AnnouncedIffCovered(c: Class, anns: seq<Announcement>, time: int)
    ensures Announced(c, anns, time).Some? <==> c in Covered(anns, time)
  {
    if anns != [] {
      AnnouncedIffCovered(c, anns[..|anns| - 1], time);
      FirstInIffClass(c, anns[|anns| - 1].entities);
    }
  }

  /** Compaction keeps the announced state: every class is answered by the same entity as before. */
  lemma {:induction false} RetainedAnnouncesTheSame(c: Class, anns: seq<Announcement>, current: Announcement, time: int)
    ensures Announced(c, Retained(anns, current, time), time) == Announced(c, anns, time)
  {
    if anns != [] {
      var init, last := anns[..|anns| - 1], anns[|anns| - 1];
      var kept := Retained(init, current, time);
      RetainedAnnouncesTheSame(c, init, current, time);
      AnnouncedIffCovered(c, init, time);
      FirstInIffClass(c, last.entities);
      if Stays(last, Covered(init, time), current, time) {
        assert (kept + [last])[..|kept|] == kept;
      } else {
        assert kept + [] == kept;
      }
    }
  }

  /** Nothing superfluous stays: an older announcement is kept only as the first holder of some class. */
  lemma {:induction false} RetainedIsJustified(anns: seq<Announcement>, current: Announcement, time: int, k: nat)
      returns (j: nat, c: Class)
    requires k < |Retained(anns, current, time)|
    ensures j < |anns| && anns[j] == Retained(anns, current, time)[k] && anns[j].timestamp >= time - 1200000
    ensures anns[j] != current ==> c in Classes(anns[j].entities) && c !in Covered(anns[..j], time)
  {
    var init, last := anns[..|anns| - 1], anns[|anns| - 1];
    if k < |Retained(init, current, time)| {
      j, c := RetainedIsJustified(init, current, time, k);
      assert init[..j] == anns[..j];
    } else {
      j := |anns| - 1;
      c := VersionClass;
      if last != current {
        c :| c in Classes(last.entities) && c !in Covered(init, time);
      }
    }
  }

  /** Nothing that says something first is lost: the newest announcement of a class within 20 minutes is kept. */
  lemma {:induction false} FirstHolderStays(anns: seq<Announcement>, current: Announcement, time: int, j: nat, c: Class)
    requires j < |anns| && anns[j].timestamp >= time - 1200000 && c in Classes(anns[j].entities)
    requires forall i :: 0 <= i < j ==> anns[i].timestamp < time - 1200000 || c !in Classes(anns[i].entities)
    ensures anns[j] in Retained(anns, current, time)
  {
    var init, last := anns[..|anns| - 1], anns[|anns| - 1];
    if j < |init| {
      FirstHolderStays(init, current, time, j, c);
    } else {
      NotCovered(init, time, c);
    }
  }

  lemma {:induction false} NotCovered(anns: seq<Announcement>, time: int, c: Class)
    requires forall i :: 0 <= i < |anns| ==> anns[i].timestamp < time - 1200000 || c !in Classes(anns[i].entities)
    ensures c !in Covered(anns, time)
  {
    if anns != [] {
      NotCovered(anns[..|anns| - 1], time, c);
    }
  }

  /** Conservation: every announcement is either retained or dropped. */
  lemma {:induction false} RetainedOrDropped(anns: seq<Announcement>, current: Announcement, time: int)
    ensures |anns| == |Retained(anns, current, time)| + |Dropped(anns, current, time)|
    ensures forall a :: a in anns <==> a in Retained(anns, current, time) || a in Dropped(anns, current, time)
  {
    hide Stays, Covered;
    if anns != [] {
      var init, last := anns[..|anns| - 1], anns[|anns| - 1];
      RetainedOrDropped(init, current, time);
      assert anns == init + [last];
    }
  }

  ghost predicate NoneTwice(anns: seq<Announcement>) {
    forall i, j :: 0 <= i < j < |anns| ==> anns[i] != anns[j]
  }

  /** Of announcements that differ, none is both kept and dropped, and none kept twice. */
  lemma {:induction false} RetainedNoneTwice(anns: seq<Announcement>, current: Announcement, time: int)
    requires NoneTwice(anns)
    ensures NoneTwice(Retained(anns, current, time))
    ensures forall a :: a in Retained(anns, current, time) ==> a !in Dropped(anns, current, time)
  {
    hide Stays, Covered;
    if anns != [] {
      var init, last := anns[..|anns| - 1], anns[|anns| - 1];
      RetainedNoneTwice(init, current, time);
      RetainedOrDropped(init, current, time);
      assert last !in init;
    }
  }

  ghost predicate NewestFirst(anns: seq<Announcement>) {
    forall i, j :: 0 <= i < j < |anns| ==> anns[i].timestamp >= anns[j].timestamp
  }

  lemma {:induction false} RetainedNewestFirst(anns: seq<Announcement>, current: Announcement, time: int)
    requires NewestFirst(anns)
    ensures NewestFirst(Retained(anns, current, time))
    ensures forall a :: a in Retained(anns, current, time) ==> a in anns
  {
    if anns != [] {
      var init, last := anns[..|anns| - 1], anns[|anns| - 1];
      RetainedNewestFirst(init, current, time);
      forall a | a in Retained(init, current, time)
        ensures a in anns && a.timestamp >= last.timestamp
      {
        var i :| 0 <= i < |init| && init[i] == a;
        assert anns[i] == a;
      }
    }
  }

  /** The announcement just made is at the head of what is retained. */
  lemma {:induction false} CurrentStaysFirst(older: seq<Announcement>, current: Announcement)
    ensures var kept := Retained([current] + older, current, current.timestamp);
            kept != [] && kept[0] == current
  {
    var all := [current] + older;
    if older == [] {
      assert all[..0] == [];
    } else {
      CurrentStaysFirst(older[..|older| - 1], current);
      assert all[..|all| - 1] == [current] + older[..|older| - 1];
    }
  }

  // ---------------------------------------------------------------- the program

  method IsAnnounced(e: Entity, announced: seq<Entity>) returns (known: bool)
    ensures known <==> exists j :: 0 <= j < |announced| && IsReplacement(e, announced[j])
  {
    for k := 0 to |announced|
      invariant forall j :: 0 <= j < k ==> !IsReplacement(e, announced[j])
    {
      if IsReplacement(e, announced[k]) {
        return true;
      }
    }
    return false;
  }

  /** Scans one announcement: `safe` says whether it adds a class to the entities announced so far. */
  method Justify(entities: seq<Entity>, announced: seq<Entity>) returns (safe: bool, announced': seq<Entity>)
    ensures safe <==> !(Classes(entities) <= Classes(announced))
    ensures Classes(announced') == Classes(announced) + Classes(entities)
  {
    safe, announced' := false, announced;
    for k := 0 to |entities|
      invariant Classes(announced') == Classes(announced) + Classes(entities[..k])
      invariant safe <==> !(Classes(entities[..k]) <= Classes(announced))
    {
      var e := entities[k];
      assert entities[..k + 1] == entities[..k] + [e];
      ClassesOfMore(entities[..k], e);
      if !IsEphemeral(e) {
        var known := IsAnnounced(e, announced');
        KnownIffClass(e, announced');
        if !known {
          ClassesOfMore(announced', e);
          safe := true;
          announced' := announced' + [e];
        }
      }
    }
    assert entities[..|entities|] == entities;
  }

  lemma ClassesOfMore(entities: seq<Entity>, e: Entity)
    ensures Classes(entities + [e]) == Classes(entities) + (if IsEphemeral(e) then {} else {ClassOf(e).value})
  {
  }

  lemma KnownIffClass(e: Entity, announced: seq<Entity>)
    requires !IsEphemeral(e)
    ensures (exists j :: 0 <= j < |announced| && IsReplacement(e, announced[j])) <==> ClassOf(e).value in Classes(announced)
  {
    if ClassOf(e).value in Classes(announced) {
      var f :| f in announced && ClassOf(f) == ClassOf(e);
      var j :| 0 <= j < |announced| && announced[j] == f;
      assert IsReplacement(e, announced[j]);
    }
    forall j | 0 <= j < |announced| && IsReplacement(e, announced[j])
      ensures ClassOf(e).value in Classes(announced)
    {
      assert announced[j] in announced;
    }
  }

  /** Filters the list, newest first, collecting the entities announced on the way. */
  method Retain(anns: seq<Announcement>, current: Announcement, time: int)
      returns (kept: seq<Announcement>, dropped: seq<Announcement>)
    ensures kept == Retained(anns, current, time) && dropped == Dropped(anns, current, time)
  {
    hide Classes, Expired;
    kept, dropped := [], [];
    var announced: seq<Entity> := [];
    NoClasses();
    for k := 0 to |anns|
      invariant kept == Retained(anns[..k], current, time) && dropped == Dropped(anns[..k], current, time)
      invariant Classes(announced) == Covered(anns[..k], time)
    {
      var a := anns[k];
      assert anns[..k + 1][..k] == anns[..k] && anns[..k + 1][k] == a;
      if Expired(a, time) {
        dropped := dropped + [a];
      } else {
        var safe;
        safe, announced := Justify(a.entities, announced);
        if safe || a == current {
          kept := kept + [a];
        } else {
          dropped := dropped + [a];
        }
      }
    }
    assert anns[..|anns|] == anns;
  }

  lemma NoClasses()
    ensures Classes([]) == {}
  {
  }
}
