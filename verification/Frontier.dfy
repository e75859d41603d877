/**
  The priority queue of the path search (cjdns-snode/src/pathsearch/frontier.rs):
  a vector sorted by descending cost and ascending tag, and an index from tag to
  position which is patched on every shift of the vector.

  A tag is the 128-bit address of a node read as a number. Costs are reals: the
  finite floating-point numbers the server uses are embedded in them with their order.
 */
module Frontiers {
  import opened Wrappers

  type Tag = nat

  datatype Entry = Entry(tag: Tag, cost: real)

  /** The order of the queue: cost descending, then tag ascending. */
  predicate Before(a: Entry, b: Entry) {
    a.cost > b.cost || (a.cost == b.cost && a.tag < b.tag)
  }

  ghost predicate Sorted(q: seq<Entry>) {
    forall i, j :: 0 <= i < j < |q| ==> Before(q[i], q[j])
  }

  /** `index` maps exactly the tags of `q` to their positions. */
  ghost predicate Indexes(index: map<Tag, nat>, q: seq<Entry>) {
    FindsAll(index, q) && FindsOnly(index, q)
  }

  ghost predicate FindsAll(index: map<Tag, nat>, q: seq<Entry>) {
    forall i :: 0 <= i < |q| ==> q[i].tag in index && index[q[i].tag] == i
  }

  ghost predicate FindsOnly(index: map<Tag, nat>, q: seq<Entry>) {
    forall t :: t in index ==> index[t] < |q| && q[index[t]].tag == t
  }

  /** The finite map from tag to cost that an indexed queue stands for. */
  ghost function Costs(index: map<Tag, nat>, q: seq<Entry>): map<Tag, real>
    requires Indexes(index, q)
  {
    map t | t in index :: q[index[t]].cost
  }

  function Inserted(q: seq<Entry>, i: nat, e: Entry): (r: seq<Entry>)
    requires i <= |q|
  {
    q[..i] + [e] + q[i..]
  }

  function Removed(q: seq<Entry>, i: nat): (r: seq<Entry>)
    requires i < |q|
  {
    q[..i] + q[i + 1..]
  }

  /** Every position from `i` on moves one to the right. */
  function ShiftedUp(index: map<Tag, nat>, i: nat): (r: map<Tag, nat>) {
    map t | t in index :: if index[t] >= i then index[t] + 1 else index[t]
  }

  /** Every position from `i` on moves one to the left. */
  function ShiftedDown(index: map<Tag, nat>, i: nat): (r: map<Tag, nat>)
    requires forall t :: t in index ==> index[t] != 0 || i != 0
  {
    map t | t in index :: if index[t] >= i then index[t] - 1 else index[t]
  }

  lemma InsertedSorted(q: seq<Entry>, i: nat, e: Entry)
    requires Sorted(q) && i <= |q|
    requires forall j :: 0 <= j < i ==> Before(q[j], e)
    requires forall j :: i <= j < |q| ==> Before(e, q[j])
    ensures Sorted(Inserted(q, i, e))
  {
  }

  /** Patching the index on insertion keeps it the inverse of the queue. */
  lemma InsertedIndexes(index: map<Tag, nat>, q: seq<Entry>, i: nat, e: Entry)
    requires Indexes(index, q) && i <= |q| && e.tag !in index
    ensures Indexes(ShiftedUp(index, i)[e.tag := i], Inserted(q, i, e))
    ensures Costs(ShiftedUp(index, i)[e.tag := i], Inserted(q, i, e)) == Costs(index, q)[e.tag := e.cost]
  {
    hide Inserted, FindsAll;
    InsertedFinds(index, q, i, e);
    InsertedAt(q, i, e);
  }

  lemma InsertedFinds(index: map<Tag, nat>, q: seq<Entry>, i: nat, e: Entry)
    requires FindsAll(index, q) && i <= |q| && e.tag !in index
    ensures FindsAll(ShiftedUp(index, i)[e.tag := i], Inserted(q, i, e))
  {
    hide Inserted;
    InsertedAt(q, i, e);
    var r, index' := Inserted(q, i, e), ShiftedUp(index, i)[e.tag := i];
    forall j | 0 <= j < |r|
      ensures r[j].tag in index' && index'[r[j].tag] == j
    {
      assert j != i ==> r[j] == q[if j < i then j else j - 1];
    }
  }

  lemma InsertedAt(q: seq<Entry>, i: nat, e: Entry)
    requires i <= |q|
    ensures var r := Inserted(q, i, e);
            && |r| == |q| + 1 && r[i] == e
            && (forall j :: 0 <= j < i ==> r[j] == q[j])
            && (forall j :: i < j < |r| ==> r[j] == q[j - 1])
  {
  }

  /** A tag that the index does not know has an entry of its own in the order. */
  lemma QueuedOnce(index: map<Tag, nat>, q: seq<Entry>, i: nat, e: Entry)
    requires Sorted(q) && Indexes(index, q) && i <= |q| && e.tag !in index
    requires forall j :: 0 <= j < i ==> Before(q[j], e)
    requires forall j :: i <= j < |q| ==> !Before(q[j], e)
    ensures Sorted(Inserted(q, i, e))
  {
    assert forall j :: i <= j < |q| ==> q[j].tag != e.tag;
    InsertedSorted(q, i, e);
  }

  /** No index can find two entries with one tag. */
  lemma QueuedTwice(index: map<Tag, nat>, q: seq<Entry>, i: nat, e: Entry)
    requires Indexes(index, q) && i <= |q| && e.tag in index
    ensures forall index' :: !Indexes(index', Inserted(q, i, e))
  {
    var r, k := Inserted(q, i, e), index[e.tag];
    var k' := if k < i then k else k + 1;
    assert k' != i && r[i].tag == r[k'].tag;
  }

  /** Patching the index on removal keeps it the inverse of the queue. */
  lemma RemovedIndexes(index: map<Tag, nat>, q: seq<Entry>, i: nat)
    requires Indexes(index, q) && i < |q|
    ensures var rest := index - {q[i].tag};
            && (forall t :: t in rest ==> rest[t] != 0 || i != 0)
            && Indexes(ShiftedDown(rest, i), Removed(q, i))
            && Costs(ShiftedDown(rest, i), Removed(q, i)) == Costs(index, q) - {q[i].tag}
  {
  }

  lemma RemovedSorted(q: seq<Entry>, i: nat)
    requires Sorted(q) && i < |q|
    ensures Sorted(Removed(q, i))
  {
  }

  class Frontier {
    var queue: seq<Entry>
    var index: map<Tag, nat>

    ghost predicate Valid()
      reads this
    {
      Sorted(queue) && Indexes(index, queue)
    }

    ghost function View(): map<Tag, real>
      requires Valid()
      reads this
    {
      Costs(index, queue)
    }

    constructor ()
      ensures Valid() && View() == map[]
    {
      queue := [];
      index := map[];
    }

    /** Binary search for the first position whose entry does not precede `item`. */
    method InsertionPos(item: Entry) returns (pos: nat)
      requires Sorted(queue)
      ensures pos <= |queue|
      ensures forall i :: 0 <= i < pos ==> Before(queue[i], item)
      ensures forall i :: pos <= i < |queue| ==> !Before(queue[i], item)
    {
      pos := 0;
      var hi := |queue|;
      while pos < hi
        invariant pos <= hi <= |queue|
        invariant forall i :: 0 <= i < pos ==> Before(queue[i], item)
        invariant forall i :: hi <= i < |queue| ==> !Before(queue[i], item)
      {
        var mid := (pos + hi) / 2;
        if Before(queue[mid], item) {
          pos := mid + 1;
        } else {
          hi := mid;
        }
      }
    }

    /** Inserts an entry; the index can follow exactly if the tag was not queued yet. */
    method Push(tag: Tag, cost: real)
      requires Valid()
      modifies this
      ensures exists i :: 0 <= i <= |old(queue)| && queue == Inserted(old(queue), i, Entry(tag, cost))
      ensures Valid() <==> tag !in old(View())
      ensures Valid() ==> View() == old(View())[tag := cost]
    {
      hide Indexes, Sorted, Inserted, ShiftedUp, Before;
      var item := Entry(tag, cost);
      var i := InsertionPos(item);
      if tag in index {
        QueuedTwice(index, queue, i, item);
      } else {
        QueuedOnce(index, queue, i, item);
        InsertedIndexes(index, queue, i, item);
      }
      queue := Inserted(queue, i, item);
      index := ShiftedUp(index, i);
      index := index[tag := i];
    }

    /** Removes an entry of least cost; of several, the one with the greatest tag. */
    method Pop() returns (r: Option<Entry>)
      requires Valid()
      modifies this
      ensures Valid()
      ensures r.None? <==> old(View()) == map[]
      ensures r.None? ==> View() == old(View())
      ensures r.Some? ==> r.value.tag in old(View()) && old(View())[r.value.tag] == r.value.cost
      ensures r.Some? ==> View() == old(View()) - {r.value.tag}
      ensures r.Some? ==> forall t :: t in old(View()) ==> r.value.cost <= old(View())[t]
      ensures r.Some? ==> forall t :: t in old(View()) && old(View())[t] == r.value.cost ==> t <= r.value.tag
    {
      if |queue| == 0 {
        assert index == map[];
        return None;
      }
      var n := |queue| - 1;
      var last := queue[n];
      assert last.tag in View();
      forall t | t in index
        ensures last.cost <= View()[t] && (View()[t] == last.cost ==> t <= last.tag)
      {
        assert index[t] < n ==> Before(queue[index[t]], queue[n]);
      }
      RemovedSorted(queue, n);
      RemovedIndexes(index, queue, n);
      assert Removed(queue, n) == queue[..n];
      assert ShiftedDown(index - {last.tag}, n) == index - {last.tag};
      queue := queue[..n];
      index := index - {last.tag};
      return Some(last);
    }

    /** Takes a queued tag out, wherever it stands. */
    method Remove(tag: Tag)
      requires Valid() && tag in View()
      modifies this
      ensures Valid() && View() == old(View()) - {tag}
    {
      var i := index[tag];
      RemovedSorted(queue, i);
      RemovedIndexes(index, queue, i);
      queue := Removed(queue, i);
      index := index - {tag};
      index := ShiftedDown(index, i);
    }

    /** Inserts an absent tag, or lowers the cost of a queued one; `updated` says whether it did. */
    method TryInsertOrDecreaseCost(tag: Tag, newCost: real) returns (updated: bool)
      requires Valid()
      modifies this
      ensures Valid()
      ensures updated <==> (tag in old(View()) ==> newCost < old(View())[tag])
      ensures View() == if updated then old(View())[tag := newCost] else old(View())
    {
      if tag in index {
        var i := index[tag];
        if newCost < queue[i].cost {
          Remove(tag);
          Push(tag, newCost);
          updated := true;
        } else {
          updated := false;
        }
      } else {
        Push(tag, newCost);
        updated := true;
      }
    }
  }
}
