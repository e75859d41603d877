/**
  Compaction over a whole history. A node's list is compacted with every announcement
  (cjdns-snode/src/server.rs:387-452); nothing that an answer could depend on is ever lost: at any
  later time, the compacted list and the full history agree on who announced what last.
 */
module Compaction {
  import opened Wrappers
  import opened Announcements

  /** The newest unexpired announcement that says something about a class. */
  ghost function Holder(c: Class, anns: seq<Announcement>, time: int): (r: Option<Announcement>)
    ensures r.Some? ==> r.value in anns && !Expired(r.value, time) && c in Classes(r.value.entities)
  {
    if anns == [] then None
    else
      var init, last := anns[..|anns| - 1], anns[|anns| - 1];
      var newer := Holder(c, init, time);
      if newer.Some? || Expired(last, time) || c !in Classes(last.entities) then newer else Some(last)
  }

  /** What a list announces is what its holder says. */
  lemma {:induction false} AnnouncedByHolder(c: Class, anns: seq<Announcement>, time: int)
    ensures var h := Holder(c, anns, time);
            Announced(c, anns, time) == if h.Some? then FirstIn(c, h.value.entities) else None
  {
    if anns != [] {
      AnnouncedByHolder(c, anns[..|anns| - 1], time);
      FirstInIffClass(c, anns[|anns| - 1].entities);
      AnnouncedIffCovered(c, anns[..|anns| - 1], time);
      HolderIffCovered(c, anns[..|anns| - 1], time);
    }
  }

  lemma {:induction false} HolderIffCovered(c: Class, anns: seq<Announcement>, time: int)
    ensures Holder(c, anns, time).Some? <==> c in Covered(anns, time)
  {
    if anns != [] {
      HolderIffCovered(c, anns[..|anns| - 1], time);
    }
  }

  /** One compaction keeps the holder of every class. */
  lemma {:induction false} RetainedKeepsHolder(c: Class, anns: seq<Announcement>, current: Announcement, time: int)
    ensures Holder(c, Retained(anns, current, time), time) == Holder(c, anns, time)
  {
    if anns != [] {
      var init, last := anns[..|anns| - 1], anns[|anns| - 1];
      var kept := Retained(init, current, time);
      RetainedKeepsHolder(c, init, current, time);
      HolderIffCovered(c, init, time);
      if Stays(last, Covered(init, time), current, time) {
        assert (kept + [last])[..|kept|] == kept;
      } else {
        assert kept + [] == kept;
      }
    }
  }

  /** As time goes by a holder expires or stays; no older announcement takes its place. */
  lemma {:induction false} HolderLater(c: Class, anns: seq<Announcement>, time: int, later: int)
    requires NewestFirst(anns) && time <= later
    ensures var h := Holder(c, anns, time);
            Holder(c, anns, later) == if h.Some? && !Expired(h.value, later) then h else None
  {
    if anns != [] {
      var init, last := anns[..|anns| - 1], anns[|anns| - 1];
      HolderLater(c, init, time, later);
      var newer := Holder(c, init, time);
      if newer.Some? {
        var i :| 0 <= i < |init| && init[i] == newer.value;
        assert anns[i].timestamp >= last.timestamp;
      }
    }
  }

  lemma {:induction false} HolderAtHead(c: Class, a: Announcement, older: seq<Announcement>, time: int)
    ensures Holder(c, [a] + older, time) ==
            if !Expired(a, time) && c in Classes(a.entities) then Some(a) else Holder(c, older, time)
  {
    var all := [a] + older;
    if older == [] {
      assert all[..0] == [];
    } else {
      HolderAtHead(c, a, older[..|older| - 1], time);
      assert all[..|all| - 1] == [a] + older[..|older| - 1];
    }
  }

  /** The list that is left of a history, newest first, after compacting with every announcement in turn. */
  ghost function Compacted(history: seq<Announcement>): seq<Announcement> {
    if history == [] then []
    else Retained([history[0]] + Compacted(history[1..]), history[0], history[0].timestamp)
  }

  lemma {:induction false} CompactedInOrder(history: seq<Announcement>)
    requires NewestFirst(history)
    ensures NewestFirst(Compacted(history))
    ensures forall a :: a in Compacted(history) ==> a in history
  {
    if history != [] {
      var rest := history[1..];
      CompactedInOrder(rest);
      var kept := Compacted(rest);
      var all := [history[0]] + kept;
      forall j | 0 <= j < |kept|
        ensures history[0].timestamp >= kept[j].timestamp
      {
        assert kept[j] in rest;
        var i :| 0 <= i < |rest| && rest[i] == kept[j];
        assert history[i + 1] == rest[i];
      }
      assert NewestFirst(all);
      RetainedNewestFirst(all, history[0], history[0].timestamp);
    }
  }

  /** From the time of the last announcement on, compacted list and full history have the same holders. */
  lemma {:induction false} CompactedKeepsHolders(c: Class, history: seq<Announcement>, time: int)
    requires NewestFirst(history) && (history != [] ==> time >= history[0].timestamp)
    ensures Holder(c, Compacted(history), time) == Holder(c, history, time)
    decreases history
  {
    if history != [] {
      var a, rest := history[0], history[1..];
      var all := [a] + Compacted(rest);
      CompactedKeepsHolders(c, rest, a.timestamp);
      RetainedKeepsHolder(c, all, a, a.timestamp);
      HolderAtHead(c, a, Compacted(rest), a.timestamp);
      HolderAtHead(c, a, rest, a.timestamp);
      assert history == [a] + rest;
      CompactedInOrder(history);
      HolderLater(c, history, a.timestamp, time);
      HolderLater(c, Compacted(history), a.timestamp, time);
    }
  }

  /** So compaction never changes what a node is taken to have announced, however often it is done. */
  lemma CompactedAnnouncesTheSame(c: Class, history: seq<Announcement>, time: int)
    requires NewestFirst(history) && (history != [] ==> time >= history[0].timestamp)
    ensures Announced(c, Compacted(history), time) == Announced(c, history, time)
  {
    CompactedKeepsHolders(c, history, time);
    AnnouncedByHolder(c, history, time);
    AnnouncedByHolder(c, Compacted(history), time);
  }

  /** A history that begins with a reset is compacted to the reset alone. */
  lemma CompactedReset(a: Announcement)
    ensures Compacted([a]) == [a]
  {
    assert [a] + Compacted([a][1..]) == [a] + [] == [a];
    CurrentStaysFirst([], a);
    RetainedOrDropped([a], a, a.timestamp);
  }
}
