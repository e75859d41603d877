/**
  Least-cost path search (cjdns-snode/src/pathsearch/dijkstra.rs).

  Adding a weight to a cost is a parameter `plus` with two laws only: adding a
  non-negative weight never lowers a cost, and it keeps the order of costs. Exact addition
  has both. Rounded floating-point addition has both on the numbers it is defined for, and
  rounding both arguments up to such numbers first extends it to a lawful function on all
  reals. Associativity is not assumed, so the cost of a walk is the left fold of its weights,
  as the program computes it.
 */
module PathSearch {
  import opened Wrappers
  import opened Frontiers

  datatype Link = Link(to: Tag, weight: real)

  type Graph = map<Tag, seq<Link>>

  ghost predicate NonNegative(g: Graph) {
    forall u, l :: u in g && l in g[u] ==> l.weight >= 0.0
  }

  ghost predicate Lawful(plus: (real, real) -> real) {
    && (forall x, w :: w >= 0.0 ==> x <= plus(x, w))
    && (forall x, y, w {:trigger plus(x, w), plus(y, w)} :: x <= y && w >= 0.0 ==> plus(x, w) <= plus(y, w))
  }

  /** A walk from a fixed start node, built one link at a time at its end. */
  datatype Walk = Start | Step(init: Walk, weight: real, to: Tag)

  ghost function End(s: Tag, w: Walk): Tag {
    if w.Start? then s else w.to
  }

  ghost predicate IsWalk(g: Graph, s: Tag, w: Walk) {
    w.Step? ==>
      && IsWalk(g, s, w.init)
      && End(s, w.init) in g
      && Link(w.to, w.weight) in g[End(s, w.init)]
  }

  ghost function Cost(plus: (real, real) -> real, w: Walk): real {
    if w.Start? then 0.0 else plus(Cost(plus, w.init), w.weight)
  }

  /** The nodes of a walk, last node first. */
  ghost function RevNodes(s: Tag, w: Walk): (r: seq<Tag>)
    ensures r != [] && r[0] == End(s, w) && r[|r| - 1] == s
  {
    if w.Start? then [s] else [w.to] + RevNodes(s, w.init)
  }

  ghost predicate Reachable(g: Graph, s: Tag, t: Tag) {
    exists w :: IsWalk(g, s, w) && End(s, w) == t
  }

  /** `w` is a walk to `t` that costs no more than any walk to `t`. */
  ghost predicate Cheapest(g: Graph, plus: (real, real) -> real, s: Tag, t: Tag, w: Walk) {
    && IsWalk(g, s, w) && End(s, w) == t
    && forall v :: IsWalk(g, s, v) && End(s, v) == t ==> Cost(plus, w) <= Cost(plus, v)
  }

  /** What the path search promises: a cheapest walk read backwards, or nothing if there is none. */
  ghost predicate ShortestReversePath(g: Graph, plus: (real, real) -> real, s: Tag, t: Tag, path: seq<Tag>) {
    && (path == [] <==> s == t || !Reachable(g, s, t))
    && (path != [] ==> exists w :: Cheapest(g, plus, s, t, w) && RevNodes(s, w) == path)
  }

  /** Waypoints paired with the node they lead to. */
  type Tree = seq<(Tag, seq<Tag>)>

  ghost predicate ListedOnce(tree: Tree) {
    forall i, j :: 0 <= i < j < |tree| ==> tree[i].0 != tree[j].0
  }

  ghost function Listed(tree: Tree): set<Tag> {
    set i | 0 <= i < |tree| :: tree[i].0
  }

  lemma ListedMore(tree: Tree, entry: (Tag, seq<Tag>))
    ensures Listed(tree + [entry]) == Listed(tree) + {entry.0}
    ensures ListedOnce(tree) && entry.0 !in Listed(tree) ==> ListedOnce(tree + [entry])
  {
    var more := tree + [entry];
    assert more[|tree|] == entry;
    forall i | 0 <= i < |tree|
      ensures more[i] == tree[i] && tree[i].0 in Listed(tree) && tree[i].0 in Listed(more)
    {
      assert more[i].0 in Listed(more);
    }
  }

  /** `waypoints` are the nodes strictly inside a cheapest walk from `s` to `t`, in order. */
  ghost predicate LeadsTo(g: Graph, plus: (real, real) -> real, s: Tag, t: Tag, waypoints: seq<Tag>) {
    exists w :: Cheapest(g, plus, s, t, w) && RevNodes(s, w) == [t] + Reversed(waypoints) + [s]
  }

  /** Exactly the other nodes that `s` reaches, each once, each with a cheapest walk to it. */
  ghost predicate IsSearchTree(g: Graph, plus: (real, real) -> real, s: Tag, tree: Tree) {
    && ListedOnce(tree)
    && (forall t :: t in Listed(tree) <==> t != s && Reachable(g, s, t))
    && (forall i :: 0 <= i < |tree| ==> LeadsTo(g, plus, s, tree[i].0, tree[i].1))
  }

  /** Every node that a search from `s` can meet. */
  ghost function Universe(g: Graph, s: Tag): set<Tag> {
    {s} + (set u, l | u in g && l in g[u] :: l.to)
  }

  /**
    State of the search between two pops: `best` gives, for each explored or queued node,
    a walk that realises its cost and follows the `previous` pointers.
   */
  ghost predicate Tracked(g: Graph, plus: (real, real) -> real, s: Tag,
                          explored: set<Tag>, frontier: map<Tag, real>, previous: map<Tag, Tag>,
                          best: map<Tag, Walk>)
  {
    && best.Keys == explored + frontier.Keys
    && explored !! frontier.Keys
    && s in best && best[s] == Start
    && (s in explored || best.Keys == {s})
    && Walks(g, s, best)
    && Chained(s, explored, previous, best)
    && Priced(plus, explored, frontier, best)
  }

  ghost predicate Walks(g: Graph, s: Tag, best: map<Tag, Walk>) {
    forall t :: t in best ==> IsWalk(g, s, best[t]) && End(s, best[t]) == t
  }

  /** The last link of each walk in `best` comes from the explored node that `previous` names. */
  ghost predicate Chained(s: Tag, explored: set<Tag>, previous: map<Tag, Tag>, best: map<Tag, Walk>) {
    && previous.Keys == best.Keys - {s}
    && explored <= best.Keys
    && forall t :: t in previous ==>
         previous[t] in explored && best[t].Step? && best[t].init == best[previous[t]]
  }

  /** Queued costs are those of the walks found, and explored nodes cost no more than queued ones. */
  ghost predicate Priced(plus: (real, real) -> real, explored: set<Tag>, frontier: map<Tag, real>,
                         best: map<Tag, Walk>)
  {
    && explored + frontier.Keys <= best.Keys
    && (forall t :: t in frontier ==> frontier[t] == Cost(plus, best[t]))
    && (forall u, t :: u in explored && t in frontier ==> Cost(plus, best[u]) <= frontier[t])
  }

  /** The link `u -> l.to` cannot improve on what has been found. */
  ghost predicate Settled(plus: (real, real) -> real, best: map<Tag, Walk>, u: Tag, l: Link)
    requires u in best
  {
    l.to in best && Cost(plus, best[l.to]) <= plus(Cost(plus, best[u]), l.weight)
  }

  ghost predicate SettledNode(g: Graph, plus: (real, real) -> real, best: map<Tag, Walk>, u: Tag) {
    && u in best
    && (u in g ==> forall l :: l in g[u] ==> Settled(plus, best, u, l))
  }

  /** Every link out of a node of `nodes` is settled. */
  ghost predicate Closed(g: Graph, plus: (real, real) -> real, nodes: set<Tag>, best: map<Tag, Walk>) {
    forall u :: u in nodes ==> SettledNode(g, plus, best, u)
  }

  ghost predicate Optimal(g: Graph, plus: (real, real) -> real, s: Tag, nodes: set<Tag>, best: map<Tag, Walk>) {
    forall u :: u in nodes ==> u in best && Cheapest(g, plus, s, u, best[u])
  }

  /** The invariant of the main loop. */
  ghost predicate Search(g: Graph, plus: (real, real) -> real, s: Tag,
                         explored: set<Tag>, frontier: map<Tag, real>, previous: map<Tag, Tag>,
                         best: map<Tag, Walk>)
  {
    && Tracked(g, plus, s, explored, frontier, previous, best)
    && Closed(g, plus, explored, best)
    && Optimal(g, plus, s, explored, best)
    && best.Keys <= Universe(g, s)
  }

  /**
    The heart of the argument: any walk either stays in explored territory, where `best` is no
    worse, or it has to cost at least as much as something that is still queued.
   */
  lemma {:induction false} WalkBound(g: Graph, plus: (real, real) -> real, s: Tag,
                  explored: set<Tag>, frontier: map<Tag, real>, previous: map<Tag, Tag>,
                  best: map<Tag, Walk>, w: Walk) returns (queued: Option<Tag>)
    requires NonNegative(g) && Lawful(plus)
    requires Tracked(g, plus, s, explored, frontier, previous, best)
    requires Closed(g, plus, explored, best)
    requires IsWalk(g, s, w)
    ensures queued.None? ==> End(s, w) in explored && Cost(plus, best[End(s, w)]) <= Cost(plus, w)
    ensures queued.Some? ==> queued.value in frontier && frontier[queued.value] <= Cost(plus, w)
  {
    if w.Start? {
      queued := if s in explored then None else Some(s);
    } else {
      queued := WalkBound(g, plus, s, explored, frontier, previous, best, w.init);
      var u := End(s, w.init);
      assert w.weight >= 0.0;
      if queued.None? {
        assert SettledNode(g, plus, best, u) && Settled(plus, best, u, Link(w.to, w.weight));
        assert plus(Cost(plus, best[u]), w.weight) <= plus(Cost(plus, w.init), w.weight);
        queued := if w.to in explored then None else Some(w.to);
      }
    }
  }

  /** A queued node of least cost has been reached by a cheapest walk. */
  lemma LeastIsCheapest(g: Graph, plus: (real, real) -> real, s: Tag,
                        explored: set<Tag>, frontier: map<Tag, real>, previous: map<Tag, Tag>,
                        best: map<Tag, Walk>, t: Tag)
    requires NonNegative(g) && Lawful(plus)
    requires Tracked(g, plus, s, explored, frontier, previous, best)
    requires Closed(g, plus, explored, best)
    requires t in frontier && forall x :: x in frontier ==> frontier[t] <= frontier[x]
    ensures Cheapest(g, plus, s, t, best[t])
  {
    forall v | IsWalk(g, s, v) && End(s, v) == t
      ensures Cost(plus, best[t]) <= Cost(plus, v)
    {
      var queued := WalkBound(g, plus, s, explored, frontier, previous, best, v);
    }
  }

  /** With an empty frontier, the explored nodes are exactly the reachable ones. */
  lemma ExploredIsReachable(g: Graph, plus: (real, real) -> real, s: Tag,
                            explored: set<Tag>, previous: map<Tag, Tag>, best: map<Tag, Walk>, t: Tag)
    requires NonNegative(g) && Lawful(plus)
    requires Tracked(g, plus, s, explored, map[], previous, best)
    requires Closed(g, plus, explored, best)
    ensures t in explored <==> Reachable(g, s, t)
  {
    if t in explored {
      assert IsWalk(g, s, best[t]) && End(s, best[t]) == t;
    }
    forall w | IsWalk(g, s, w) && End(s, w) == t
      ensures t in explored
    {
      var queued := WalkBound(g, plus, s, explored, map[], previous, best, w);
    }
  }

  /** `best'` knows at least as much as `best`, at no higher cost, and agrees with it on `fixed`. */
  ghost predicate Improves(plus: (real, real) -> real, fixed: set<Tag>, best: map<Tag, Walk>, best': map<Tag, Walk>) {
    && best.Keys <= best'.Keys
    && (forall t :: t in best ==> Cost(plus, best'[t]) <= Cost(plus, best[t]))
    && (forall t :: t in fixed && t in best ==> best'[t] == best[t])
  }

  lemma ImprovesItself(plus: (real, real) -> real, fixed: set<Tag>, best: map<Tag, Walk>)
    ensures Improves(plus, fixed, best, best)
  {
  }

  lemma ImprovesTransitive(plus: (real, real) -> real, fixed: set<Tag>,
                           a: map<Tag, Walk>, b: map<Tag, Walk>, c: map<Tag, Walk>)
    requires Improves(plus, fixed, a, b) && Improves(plus, fixed, b, c)
    ensures Improves(plus, fixed, a, c)
  {
  }

  ghost predicate AllSettled(plus: (real, real) -> real, best: map<Tag, Walk>, u: Tag, links: seq<Link>) {
    u in best && forall l :: l in links ==> Settled(plus, best, u, l)
  }

  lemma NoneSettled(plus: (real, real) -> real, best: map<Tag, Walk>, u: Tag)
    requires u in best
    ensures AllSettled(plus, best, u, [])
  {
  }

  lemma StaysSettled(plus: (real, real) -> real, fixed: set<Tag>, best: map<Tag, Walk>, best': map<Tag, Walk>,
                     u: Tag, links: seq<Link>, n: Link)
    requires u in fixed && Improves(plus, fixed, best, best') && AllSettled(plus, best, u, links)
    requires u in best' && Settled(plus, best', u, n)
    ensures AllSettled(plus, best', u, links + [n])
  {
    hide Cost;
  }

  lemma AllSettledIsSettled(g: Graph, plus: (real, real) -> real, best: map<Tag, Walk>, u: Tag)
    requires u in best && (u in g ==> AllSettled(plus, best, u, g[u]))
    ensures SettledNode(g, plus, best, u)
  {
    hide Settled;
  }

  lemma LinkInUniverse(g: Graph, s: Tag, u: Tag, l: Link)
    requires u in g && l in g[u]
    ensures l.to in Universe(g, s)
  {
  }

  lemma StaysClosed(g: Graph, plus: (real, real) -> real, nodes: set<Tag>, fixed: set<Tag>,
                    best: map<Tag, Walk>, best': map<Tag, Walk>)
    requires Closed(g, plus, nodes, best) && nodes <= fixed && Improves(plus, fixed, best, best')
    ensures Closed(g, plus, nodes, best')
  {
  }

  /** Moving the least queued node to the explored ones. */
  lemma Popped(g: Graph, plus: (real, real) -> real, s: Tag,
               explored: set<Tag>, frontier: map<Tag, real>, previous: map<Tag, Tag>,
               best: map<Tag, Walk>, e: Entry)
    requires e.tag !in frontier && forall t :: t in frontier ==> e.cost <= frontier[t]
    requires Tracked(g, plus, s, explored, frontier[e.tag := e.cost], previous, best)
    ensures Tracked(g, plus, s, explored + {e.tag}, frontier, previous, best)
    ensures LastExplored(plus, explored + {e.tag}, best, e)
  {
    hide Walks, Cost;
    PoppedPriced(plus, explored, frontier, best, e);
    PoppedChained(s, explored, previous, best, e.tag);
    hide Priced, Chained;
  }

  lemma PoppedPriced(plus: (real, real) -> real, explored: set<Tag>, frontier: map<Tag, real>, best: map<Tag, Walk>, e: Entry)
    requires e.tag !in frontier && forall t :: t in frontier ==> e.cost <= frontier[t]
    requires Priced(plus, explored, frontier[e.tag := e.cost], best)
    ensures Priced(plus, explored + {e.tag}, frontier, best)
    ensures e.tag in best && e.cost == Cost(plus, best[e.tag])
    ensures forall u :: u in explored ==> u in best && Cost(plus, best[u]) <= e.cost
  {
    hide Cost;
    var before := frontier[e.tag := e.cost];
    assert e.tag in before && before[e.tag] == e.cost;
    assert forall t :: t in frontier ==> t in before && before[t] == frontier[t];
  }

  lemma PoppedChained(s: Tag, explored: set<Tag>, previous: map<Tag, Tag>, best: map<Tag, Walk>, t: Tag)
    requires Chained(s, explored, previous, best) && t in best
    ensures Chained(s, explored + {t}, previous, best)
  {
  }

  lemma StaysOptimal(g: Graph, plus: (real, real) -> real, s: Tag, nodes: set<Tag>,
                     best: map<Tag, Walk>, best': map<Tag, Walk>)
    requires Optimal(g, plus, s, nodes, best) && Improves(plus, nodes, best, best')
    ensures Optimal(g, plus, s, nodes, best')
  {
  }

  /** From the state before a pop to the state in which the popped node's links are relaxed. */
  lemma BeforeRelax(g: Graph, plus: (real, real) -> real, s: Tag,
                    explored: set<Tag>, frontier: map<Tag, real>, previous: map<Tag, Tag>,
                    best: map<Tag, Walk>, e: Entry)
    requires NonNegative(g) && Lawful(plus)
    requires e.tag !in frontier && forall t :: t in frontier ==> e.cost <= frontier[t]
    requires Search(g, plus, s, explored, frontier[e.tag := e.cost], previous, best)
    ensures Tracked(g, plus, s, explored + {e.tag}, frontier, previous, best)
    ensures LastExplored(plus, explored + {e.tag}, best, e)
    ensures Optimal(g, plus, s, explored + {e.tag}, best)
    ensures e.tag !in explored && e.tag in Universe(g, s)
  {
    Popped(g, plus, s, explored, frontier, previous, best, e);
    LeastIsCheapest(g, plus, s, explored, frontier[e.tag := e.cost], previous, best, e.tag);
  }

  /** From the state after the links have been relaxed to the state before the next pop. */
  lemma AfterRelax(g: Graph, plus: (real, real) -> real, s: Tag,
                   explored: set<Tag>, u: Tag, frontier: map<Tag, real>, previous: map<Tag, Tag>,
                   best: map<Tag, Walk>, best': map<Tag, Walk>)
    requires Closed(g, plus, explored, best) && Optimal(g, plus, s, explored + {u}, best)
    requires Improves(plus, explored + {u}, best, best') && SettledNode(g, plus, best', u)
    requires Tracked(g, plus, s, explored + {u}, frontier, previous, best')
    requires best'.Keys <= Universe(g, s)
    ensures Search(g, plus, s, explored + {u}, frontier, previous, best')
  {
    hide Tracked;
    StaysClosed(g, plus, explored, explored + {u}, best, best');
    StaysOptimal(g, plus, s, explored + {u}, best, best');
  }

  lemma RelaxedChained(s: Tag, explored: set<Tag>, previous: map<Tag, Tag>, best: map<Tag, Walk>, u: Tag, n: Link)
    requires Chained(s, explored, previous, best)
    requires u in explored && n.to !in explored && n.to != s
    ensures Chained(s, explored, previous[n.to := u], best[n.to := Step(best[u], n.weight, n.to)])
  {
  }

  lemma RelaxedPriced(plus: (real, real) -> real, explored: set<Tag>, frontier: map<Tag, real>,
                      best: map<Tag, Walk>, u: Tag, n: Link, cost: real)
    requires Priced(plus, explored, frontier, best)
    requires u in explored && forall x :: x in explored ==> Cost(plus, best[x]) <= Cost(plus, best[u])
    requires n.to !in explored
    requires cost == Cost(plus, Step(best[u], n.weight, n.to)) && Cost(plus, best[u]) <= cost
    ensures Priced(plus, explored, frontier[n.to := cost], best[n.to := Step(best[u], n.weight, n.to)])
  {
  }

  /** `e` is an explored node that costs at least as much as every explored node. */
  ghost predicate LastExplored(plus: (real, real) -> real, explored: set<Tag>, best: map<Tag, Walk>, e: Entry) {
    && e.tag in explored && explored <= best.Keys && e.cost == Cost(plus, best[e.tag])
    && forall x :: x in explored ==> Cost(plus, best[x]) <= e.cost
  }

  /** Relaxing a link out of an explored node keeps the state of the search. */
  lemma Relaxed(g: Graph, plus: (real, real) -> real, s: Tag,
                explored: set<Tag>, frontier: map<Tag, real>, previous: map<Tag, Tag>, best: map<Tag, Walk>,
                u: Tag, n: Link, cost: real)
    requires Lawful(plus) && n.weight >= 0.0
    requires Tracked(g, plus, s, explored, frontier, previous, best)
    requires u in explored && forall x :: x in explored ==> Cost(plus, best[x]) <= Cost(plus, best[u])
    requires u in g && n in g[u] && n.to !in explored
    requires cost == plus(Cost(plus, best[u]), n.weight)
    requires n.to in frontier ==> cost < frontier[n.to]
    ensures var best' := best[n.to := Step(best[u], n.weight, n.to)];
            && Tracked(g, plus, s, explored, frontier[n.to := cost], previous[n.to := u], best')
            && Improves(plus, explored, best, best')
            && Settled(plus, best', u, n)
  {
    var w := Step(best[u], n.weight, n.to);
    assert Cost(plus, w) == cost;
    RelaxedPriced(plus, explored, frontier, best, u, n, cost);
    RelaxedChained(s, explored, previous, best, u, n);
    assert n.to in best ==> n.to in frontier;
  }

  lemma Begin(g: Graph, plus: (real, real) -> real, s: Tag)
    ensures Search(g, plus, s, {}, map[s := 0.0], map[], map[s := Start])
  {
  }

  lemma NotFound(g: Graph, plus: (real, real) -> real, s: Tag,
                 explored: set<Tag>, previous: map<Tag, Tag>, best: map<Tag, Walk>, t: Tag)
    requires NonNegative(g) && Lawful(plus)
    requires Search(g, plus, s, explored, map[], previous, best) && t !in explored
    ensures ShortestReversePath(g, plus, s, t, [])
  {
    ExploredIsReachable(g, plus, s, explored, previous, best, t);
  }

  lemma Found(g: Graph, plus: (real, real) -> real, s: Tag,
              explored: set<Tag>, frontier: map<Tag, real>, previous: map<Tag, Tag>,
              best: map<Tag, Walk>, t: Tag, rev: seq<Tag>)
    requires NonNegative(g) && Lawful(plus)
    requires Search(g, plus, s, explored, frontier, previous, best)
    requires t in frontier && forall x :: x in frontier ==> frontier[t] <= frontier[x]
    requires rev + [s] == RevNodes(s, best[t])
    ensures ShortestReversePath(g, plus, s, t, if rev == [] then [] else rev + [s])
  {
    LeastIsCheapest(g, plus, s, explored, frontier, previous, best, t);
    assert rev == [] <==> s == t by {
      assert t != s ==> t in previous;
      assert |rev| + 1 == |RevNodes(s, best[t])|;
    }
  }

  lemma {:induction false} NoLinks(plus: (real, real) -> real, s: Tag, t: Tag)
    ensures ShortestReversePath(map[], plus, s, t, [])
  {
    forall w | IsWalk(map[], s, w)
      ensures w == Start
    {
    }
    if s == t {
      assert End(s, Start) == t;
    }
  }

  lemma NoTree(plus: (real, real) -> real, s: Tag)
    ensures IsSearchTree(map[], plus, s, [])
  {
    forall t | t != s
      ensures !Reachable(map[], s, t)
    {
      NoLinks(plus, s, t);
    }
  }

  /** Each entry of the tree is the inside of the walk found to its node. */
  ghost predicate Traced(s: Tag, best: map<Tag, Walk>, tree: Tree) {
    forall i :: 0 <= i < |tree| ==>
      tree[i].0 in best && RevNodes(s, best[tree[i].0]) == [tree[i].0] + Reversed(tree[i].1) + [s]
  }

  lemma NothingTraced(s: Tag, best: map<Tag, Walk>)
    ensures Traced(s, best, []) && ListedOnce([]) && Listed([]) == {}
  {
  }

  lemma TracedMore(s: Tag, best: map<Tag, Walk>, tree: Tree, entry: (Tag, seq<Tag>))
    requires Traced(s, best, tree) && entry.0 in best
    requires RevNodes(s, best[entry.0]) == [entry.0] + Reversed(entry.1) + [s]
    ensures Traced(s, best, tree + [entry])
  {
    hide RevNodes, Reversed;
  }

  lemma WholeTree(g: Graph, plus: (real, real) -> real, s: Tag, explored: set<Tag>,
                  previous: map<Tag, Tag>, best: map<Tag, Walk>, tree: Tree)
    requires NonNegative(g) && Lawful(plus)
    requires Search(g, plus, s, explored, map[], previous, best)
    requires ListedOnce(tree) && Listed(tree) == previous.Keys
    requires Traced(s, best, tree)
    ensures IsSearchTree(g, plus, s, tree)
  {
    forall t
      ensures t in Listed(tree) <==> t != s && Reachable(g, s, t)
    {
      ExploredIsReachable(g, plus, s, explored, previous, best, t);
    }
    forall i | 0 <= i < |tree|
      ensures LeadsTo(g, plus, s, tree[i].0, tree[i].1)
    {
      assert Cheapest(g, plus, s, tree[i].0, best[tree[i].0]);
    }
  }

  /** The nodes of a walk before its end node `t`, last node first; at the start itself, the start. */
  ghost function NodesBefore(s: Tag, t: Tag, w: Walk): seq<Tag> {
    if t == s then [s] else RevNodes(s, w)[1..]
  }

  lemma FirstBefore(s: Tag, w: Walk)
    requires w.Step? && w.to != s
    ensures RevNodes(s, w) == [w.to] + ([] + NodesBefore(s, w.to, w))
  {
  }

  lemma NextBefore(s: Tag, w: Walk)
    requires w.Step? && w.to != s && (w.init.Start? <==> End(s, w.init) == s)
    ensures var t := End(s, w.init);
            NodesBefore(s, w.to, w) == if t == s then NodesBefore(s, t, w.init) else [t] + NodesBefore(s, t, w.init)
  {
    assert RevNodes(s, w)[1..] == RevNodes(s, w.init);
  }

  lemma LastBefore(s: Tag, w: Walk)
    ensures NodesBefore(s, s, w) == [s]
  {
  }

  class Dijkstra {
    var nodes: Graph
    const plus: (real, real) -> real

    ghost predicate Valid()
      reads this
    {
      NonNegative(nodes) && Lawful(plus)
    }

    constructor (plus: (real, real) -> real)
      requires Lawful(plus)
      ensures Valid() && nodes == map[] && this.plus == plus
    {
      this.plus := plus;
      nodes := map[];
    }

    /** Sets the links out of a node; the weights must not be negative (dijkstra.rs:31). */
    method AddNode(tag: Tag, links: seq<Link>)
      requires Valid()
      requires forall l :: l in links ==> l.weight >= 0.0
      modifies this
      ensures Valid() && nodes == old(nodes)[tag := links]
    {
      nodes := nodes[tag := links];
    }

    /** Relaxes one link out of the node explored last. */
    method RelaxLink(s: Tag, frontier: Frontier, e: Entry, n: Link, explored: set<Tag>,
                     previous: map<Tag, Tag>, ghost best: map<Tag, Walk>)
      returns (previous': map<Tag, Tag>, ghost best': map<Tag, Walk>)
      requires Valid() && frontier.Valid()
      requires Tracked(nodes, plus, s, explored, frontier.View(), previous, best)
      requires LastExplored(plus, explored, best, e)
      requires e.tag in nodes && n in nodes[e.tag]
      modifies frontier
      ensures frontier.Valid()
      ensures Tracked(nodes, plus, s, explored, frontier.View(), previous', best')
      ensures Improves(plus, explored, best, best')
      ensures LastExplored(plus, explored, best', e) && Settled(plus, best', e.tag, n)
      ensures best'.Keys <= best.Keys + {n.to}
    {
      previous', best' := previous, best;
      if n.to !in explored {
        var cost := plus(e.cost, n.weight);
        ghost var view := frontier.View();
        var updated := frontier.TryInsertOrDecreaseCost(n.to, cost);
        if updated {
          Relaxed(nodes, plus, s, explored, view, previous, best, e.tag, n, cost);
          previous' := previous[n.to := e.tag];
          best' := best[n.to := Step(best[e.tag], n.weight, n.to)];
        }
      }
    }

    /** Relaxes all the links out of a node that has just been explored. */
    method Relax(s: Tag, frontier: Frontier, e: Entry, explored: set<Tag>,
                 previous: map<Tag, Tag>, ghost best: map<Tag, Walk>)
      returns (previous': map<Tag, Tag>, ghost best': map<Tag, Walk>)
      requires Valid() && frontier.Valid()
      requires Tracked(nodes, plus, s, explored, frontier.View(), previous, best)
      requires LastExplored(plus, explored, best, e)
      modifies frontier
      ensures frontier.Valid()
      ensures Tracked(nodes, plus, s, explored, frontier.View(), previous', best')
      ensures Improves(plus, explored, best, best')
      ensures SettledNode(nodes, plus, best', e.tag)
      ensures best'.Keys <= best.Keys + Universe(nodes, s)
    {
      hide Tracked, Lawful, NonNegative, Improves, AllSettled, Universe, SettledNode, Costs;
      previous', best' := previous, best;
      ImprovesItself(plus, explored, best);
      NoneSettled(plus, best, e.tag);
      if e.tag in nodes {
        var neighbors := nodes[e.tag];
        for k := 0 to |neighbors|
          invariant frontier.Valid()
          invariant Tracked(nodes, plus, s, explored, frontier.View(), previous', best')
          invariant Improves(plus, explored, best, best')
          invariant LastExplored(plus, explored, best', e)
          invariant best'.Keys <= best.Keys + Universe(nodes, s)
          invariant AllSettled(plus, best', e.tag, neighbors[..k])
        {
          ghost var before := best';
          LinkInUniverse(nodes, s, e.tag, neighbors[k]);
          previous', best' := RelaxLink(s, frontier, e, neighbors[k], explored, previous', best');
          ImprovesTransitive(plus, explored, best, before, best');
          StaysSettled(plus, explored, before, best', e.tag, neighbors[..k], neighbors[k]);
          assert neighbors[..k + 1] == neighbors[..k] + [neighbors[k]];
        }
        assert neighbors[..|neighbors|] == neighbors;
      }
      AllSettledIsSettled(nodes, plus, best', e.tag);
    }

    /** Explores the node that has just been popped. */
    method Explore(s: Tag, frontier: Frontier, e: Entry, explored: set<Tag>,
                   previous: map<Tag, Tag>, ghost best: map<Tag, Walk>)
      returns (explored': set<Tag>, previous': map<Tag, Tag>, ghost best': map<Tag, Walk>)
      requires Valid() && frontier.Valid() && e.tag !in frontier.View()
      requires forall t :: t in frontier.View() ==> e.cost <= frontier.View()[t]
      requires Search(nodes, plus, s, explored, frontier.View()[e.tag := e.cost], previous, best)
      modifies frontier
      ensures frontier.Valid()
      ensures explored' == explored + {e.tag} && e.tag !in explored && e.tag in Universe(nodes, s)
      ensures Search(nodes, plus, s, explored', frontier.View(), previous', best')
    {
      hide Tracked, Optimal, Improves, SettledNode, Costs, Lawful;
      BeforeRelax(nodes, plus, s, explored, frontier.View(), previous, best, e);
      explored' := explored + {e.tag};
      previous', best' := Relax(s, frontier, e, explored', previous, best);
      AfterRelax(nodes, plus, s, explored, e.tag, frontier.View(), previous', best, best');
    }

    /** Follows the `previous` pointers from `t` back to the start, which is left out. */
    method TraceBack(s: Tag, t: Tag, explored: set<Tag>, ghost frontier: map<Tag, real>,
                     previous: map<Tag, Tag>, ghost best: map<Tag, Walk>)
      returns (rev: seq<Tag>)
      requires Tracked(nodes, plus, s, explored, frontier, previous, best)
      requires t in explored || t in frontier
      ensures rev + [s] == RevNodes(s, best[t])
    {
      hide Priced, IsWalk, Reversed;
      rev := [];
      var cur := t;
      while cur in previous
        invariant cur in best && rev + RevNodes(s, best[cur]) == RevNodes(s, best[t])
        decreases best[cur]
      {
        rev := rev + [cur];
        cur := previous[cur];
      }
    }

    method ReversePath(from: Tag, to: Tag) returns (path: seq<Tag>)
      requires Valid()
      ensures ShortestReversePath(nodes, plus, from, to, path)
    {
      hide Lawful, NonNegative, ShortestReversePath, Tracked, Closed, Optimal, Costs;
      path := [];
      if nodes == map[] {
        NoLinks(plus, from, to);
        return;
      }
      var explored: set<Tag> := {};
      var previous: map<Tag, Tag> := map[];
      ghost var best: map<Tag, Walk> := map[from := Start];
      Begin(nodes, plus, from);
      var frontier := new Frontier();
      frontier.Push(from, 0.0);
      while true
        invariant frontier.Valid() && fresh(frontier)
        invariant Search(nodes, plus, from, explored, frontier.View(), previous, best)
        invariant to !in explored
        decreases Universe(nodes, from) - explored
      {
        ghost var view := frontier.View();
        var top := frontier.Pop();
        if top.None? {
          NotFound(nodes, plus, from, explored, previous, best, to);
          return;
        }
        var e := top.value;
        assert frontier.View()[e.tag := e.cost] == view;
        if e.tag == to {
          path := TraceBack(from, to, explored, view, previous, best);
          Found(nodes, plus, from, explored, view, previous, best, to, path);
          if path != [] {
            path := path + [from];
          }
          return;
        }
        explored, previous, best := Explore(from, frontier, e, explored, previous, best);
      }
    }

    method Path(from: Tag, to: Tag) returns (path: seq<Tag>)
      requires Valid()
      ensures ShortestReversePath(nodes, plus, from, to, Reversed(path))
    {
      var rev := ReversePath(from, to);
      path := Reversed(rev);
      ReversedTwice(rev);
    }

    /** The waypoints between the start and `t`: both ends are left out, the order is forward. */
    method Waypoints(s: Tag, t: Tag, explored: set<Tag>, previous: map<Tag, Tag>, ghost best: map<Tag, Walk>)
      returns (path: seq<Tag>)
      requires Tracked(nodes, plus, s, explored, map[], previous, best) && t in previous
      ensures [t] + Reversed(path) + [s] == RevNodes(s, best[t])
    {
      hide Priced, IsWalk, Reversed, RevNodes, NodesBefore;
      var rev := [];
      var cur := t;
      FirstBefore(s, best[t]);
      while cur in previous
        invariant cur in best
        invariant [t] + (rev + NodesBefore(s, cur, best[cur])) == RevNodes(s, best[t])
        decreases best[cur]
      {
        ghost var rest := NodesBefore(s, cur, best[cur]);
        NextBefore(s, best[cur]);
        cur := previous[cur];
        if cur != s {
          assert rev + ([cur] + NodesBefore(s, cur, best[cur])) == (rev + [cur]) + NodesBefore(s, cur, best[cur]);
          rev := rev + [cur];
        }
      }
      LastBefore(s, best[s]);
      assert [t] + rev + [s] == [t] + (rev + [s]);
      path := Reversed(rev);
      ReversedTwice(rev);
    }

    /** Traces every entry of `previous` back, in any order. */
    method BuildTree(s: Tag, explored: set<Tag>, previous: map<Tag, Tag>, ghost best: map<Tag, Walk>)
      returns (tree: Tree)
      requires Valid() && Search(nodes, plus, s, explored, map[], previous, best)
      ensures IsSearchTree(nodes, plus, s, tree)
    {
      hide Lawful, NonNegative, Closed, Optimal, IsSearchTree, Walks, Priced, Traced, ListedOnce, Reversed;
      tree := [];
      NothingTraced(s, best);
      var todo := previous.Keys;
      while todo != {}
        invariant todo <= previous.Keys
        invariant ListedOnce(tree) && Listed(tree) == previous.Keys - todo
        invariant Traced(s, best, tree)
      {
        var t :| t in todo;
        var path := Waypoints(s, t, explored, previous, best);
        ListedMore(tree, (t, path));
        TracedMore(s, best, tree, (t, path));
        tree := tree + [(t, path)];
        todo := todo - {t};
      }
      WholeTree(nodes, plus, s, explored, previous, best, tree);
    }

    method PathSearchTree(start: Tag) returns (tree: Tree)
      requires Valid()
      ensures IsSearchTree(nodes, plus, start, tree)
    {
      hide Lawful, NonNegative, Tracked, Closed, Optimal, Costs;
      tree := [];
      if nodes == map[] {
        NoTree(plus, start);
        return;
      }
      var explored: set<Tag> := {};
      var previous: map<Tag, Tag> := map[];
      ghost var best: map<Tag, Walk> := map[start := Start];
      Begin(nodes, plus, start);
      var frontier := new Frontier();
      frontier.Push(start, 0.0);
      while true
        invariant frontier.Valid() && fresh(frontier)
        invariant Search(nodes, plus, start, explored, frontier.View(), previous, best)
        decreases Universe(nodes, start) - explored
      {
        ghost var view := frontier.View();
        var top := frontier.Pop();
        if top.None? {
          break;
        }
        var e := top.value;
        assert frontier.View()[e.tag := e.cost] == view;
        explored, previous, best := Explore(start, frontier, e, explored, previous, best);
      }
      tree := BuildTree(start, explored, previous, best);
    }
  }
}
