/**
  Route computation of the supernode (cjdns-snode/src/server/route.rs): a graph of the nodes that is
  rebuilt now and then, least-cost paths on it, labels spliced hop by hop, and a cache of answers.
  The nodes may change at any time between calls.
 */
module Routes {
  import opened Wrappers
  import opened Bits
  import opened Schemes
  import opened Splicing
  import opened ReEncoding
  import LabelBuilding
  import opened Frontiers
  import PathSearch
  import opened Announcements
  import opened Links
  import opened NodeTables

  const REBUILD_INTERVAL := 3000

  /** `inverseFormNum` is the form of the way back that the label had to match. */
  datatype Hop = Hop(lab: nat, origLabel: nat, scheme: Scheme, inverseFormNum: nat)

  datatype Route = Route(lab: nat, hops: seq<Hop>, path: seq<Ip>)

  datatype RoutingError =
    | NoInput
    | PathIsEmpty
    | RoutingLabelTryNewFailed
    | GetEncodingFormFailed(e: SpliceError)
    | ReEncodeFailed(e: SpliceError)
    | NoNodeByIp
    | NoInwardLinksByIp
    | SpliceFailed(e: SpliceError)

  lemma SchemeFits(s: Scheme)
    requires ValidScheme(s)
    ensures Fits(WIDTH, s)
  {
    forall i | 0 <= i < |s|
      ensures s[i].Size() < WIDTH
    {
      assert s[i].Valid();
    }
  }

  // ---------------------------------------------------------------- the label of a path

  /** The first link that `node` has announced from `from`. */
  function FirstLink(node: Node, from: Ip): Option<Link> {
    if from in node.links && node.links[from] != [] then Some(node.links[from][0]) else None
  }

  /** The hop from `last` to `node`, and the form that the next hop has to match. */
  ghost function HopBetween(last: Node, node: Node, formNum: nat, useOld: bool): Result<(Hop, nat), RoutingError>
    requires Fits(WIDTH, last.scheme)
  {
    var greta := FirstLink(node, last.ipv6);
    if greta.None? then Err(NoInwardLinksByIp)
    else if useOld then
      var lab := greta.value.lab;
      var form := EncodingForm(lab, last.scheme);
      if form.Err? then Err(GetEncodingFormFailed(form.error))
      else
        var r := if form.value < formNum then ReEncode(WIDTH, lab, last.scheme, Some(formNum)) else Ok(lab);
        if r.Err? then Err(ReEncodeFailed(r.error))
        else Ok((Hop(r.value, lab, last.scheme, formNum), greta.value.encodingFormNumber))
    else
      var yury := FirstLink(last, node.ipv6);
      if yury.None? then Err(NoInwardLinksByIp)
      else
        var lab, back := yury.value.peerNum, greta.value.peerNum;
        if lab == 0 || back == 0 then Err(RoutingLabelTryNewFailed)
        else
          var form, backForm := EncodingForm(lab, node.scheme), EncodingForm(back, last.scheme);
          if form.Err? then Err(GetEncodingFormFailed(form.error))
          else if backForm.Err? then Err(GetEncodingFormFailed(backForm.error))
          else
            var r := if form.value < formNum then ReEncode(WIDTH, lab, last.scheme, Some(formNum)) else Ok(lab);
            if r.Err? then Err(ReEncodeFailed(r.error))
            else Ok((Hop(r.value, lab, last.scheme, formNum), backForm.value))
  }

  // what a hop is, on the links that the two nodes have announced

  ghost predicate Linked(n: Node, from: Ip) {
    from in n.links && n.links[from] != []
  }

  /** The label may go out as it is, or can be widened to form `formNum` of the scheme. */
  ghost predicate CanWiden(lab: nat, s: Scheme, form: nat, formNum: nat)
    requires Fits(WIDTH, s)
  {
    form < formNum ==> ReEncode(WIDTH, lab, s, Some(formNum)).Ok?
  }

  /** When there is a hop from `last` to `node`; the newer variant asks both nodes for their links. */
  ghost predicate CanHop(last: Node, node: Node, formNum: nat, useOld: bool)
    requires Fits(WIDTH, last.scheme)
  {
    && Linked(node, last.ipv6)
    && if useOld then
         var lab := node.links[last.ipv6][0].lab;
         && EncodingForm(lab, last.scheme).Ok?
         && CanWiden(lab, last.scheme, EncodingForm(lab, last.scheme).value, formNum)
       else
         && Linked(last, node.ipv6)
         && var lab, back := last.links[node.ipv6][0].peerNum, node.links[last.ipv6][0].peerNum;
            && lab > 0 && back > 0 && EncodingForm(lab, node.scheme).Ok? && EncodingForm(back, last.scheme).Ok?
            && CanWiden(lab, last.scheme, EncodingForm(lab, node.scheme).value, formNum)
  }

  /** The label of the hop is the one announced, or that one widened to the form asked for. */
  ghost predicate Goes(hop: Hop, form: nat)
    requires Fits(WIDTH, hop.scheme)
  {
    if form >= hop.inverseFormNum then hop.lab == hop.origLabel
    else hop.inverseFormNum < |hop.scheme| && KeepsMeaning(WIDTH, hop.origLabel, hop.lab, hop.scheme, hop.inverseFormNum)
  }

  /** The hop uses the link that `node` announced from `last`, or, in the newer variant, the one of `last` to `node`. */
  ghost predicate IsHop(last: Node, node: Node, formNum: nat, useOld: bool, hop: Hop)
    requires Fits(WIDTH, last.scheme) && CanHop(last, node, formNum, useOld)
  {
    && hop.scheme == last.scheme && hop.inverseFormNum == formNum
    && if useOld then
         hop.origLabel == node.links[last.ipv6][0].lab && Goes(hop, EncodingForm(hop.origLabel, last.scheme).value)
       else
         hop.origLabel == last.links[node.ipv6][0].peerNum && Goes(hop, EncodingForm(hop.origLabel, node.scheme).value)
  }

  /** The form that the hop from `last` to `node` asks the next hop for: that of the way back. */
  ghost function AsksFor(last: Node, node: Node, useOld: bool): nat {
    if !Linked(node, last.ipv6) then 0
    else
      var link := node.links[last.ipv6][0];
      if useOld then link.encodingFormNumber
      else if EncodingForm(link.peerNum, last.scheme).Ok? then EncodingForm(link.peerNum, last.scheme).value else 0
  }

  lemma HopBetweenIs(last: Node, node: Node, formNum: nat, useOld: bool)
    requires Routable(last) && Routable(node) && Fits(WIDTH, last.scheme)
    ensures var r := HopBetween(last, node, formNum, useOld);
            && (r.Ok? <==> CanHop(last, node, formNum, useOld))
            && (r.Ok? ==> IsHop(last, node, formNum, useOld, r.value.0) && r.value.1 == AsksFor(last, node, useOld))
            && (r == Err(NoInwardLinksByIp) <==> !Linked(node, last.ipv6) || (!useOld && !Linked(last, node.ipv6)))
  {
    hide EncodingForm, ReEncode, ValidScheme, ProperTable, KeepsMeaning;
    if HopBetween(last, node, formNum, useOld).Ok? {
      var hop := HopBetween(last, node, formNum, useOld).value.0;
      if EncodingForm(hop.origLabel, ReadBy(last, node, useOld)).value < formNum {
        ReEncodeRequested(hop.origLabel, last.scheme, formNum);
        ReEncodeKeepsMeaning(WIDTH, hop.origLabel, last.scheme, formNum);
      }
    }
  }

  /** The form that hop `i` of a path is asked for: none in particular for the first. */
  ghost function AskedOf(nodes: Nodes, path: seq<Ip>, i: nat, useOld: bool): nat
    requires i < |path| && forall k :: 0 <= k <= i ==> path[k] in nodes
  {
    if i == 0 then 0 else AsksFor(nodes[path[i - 1]], nodes[path[i]], useOld)
  }

  /** All nodes of the path are known, and there is a hop from each to the next. */
  ghost predicate PathLinked(nodes: Nodes, path: seq<Ip>, k: nat, useOld: bool)
    requires AllRoutable(nodes) && k <= |path|
  {
    && (forall i :: 0 <= i < k ==> path[i] in nodes)
    && forall i :: 0 <= i < k - 1 ==>
         && Fits(WIDTH, nodes[path[i]].scheme)
         && CanHop(nodes[path[i]], nodes[path[i + 1]], AskedOf(nodes, path, i, useOld), useOld)
  }

  /** Hop `i` leads from node `i` of the path to the next one and is what the hop before it asks for. */
  ghost predicate HopsFollow(nodes: Nodes, path: seq<Ip>, k: nat, useOld: bool, hops: seq<Hop>)
    requires AllRoutable(nodes) && k <= |path| && PathLinked(nodes, path, k, useOld)
  {
    && |hops| == (if k == 0 then 0 else k - 1)
    && forall i :: 0 <= i < |hops| ==>
         && Fits(WIDTH, nodes[path[i]].scheme)
         && IsHop(nodes[path[i]], nodes[path[i + 1]], AskedOf(nodes, path, i, useOld), useOld, hops[i])
  }

  /** The hops of a path are there exactly if the path is linked, and then follow it. */
  lemma {:induction false} HopsUpToIs(nodes: Nodes, path: seq<Ip>, k: nat, useOld: bool)
    requires AllRoutable(nodes) && k <= |path|
    ensures var r := HopsUpTo(nodes, path, k, useOld);
            && (r.Ok? <==> PathLinked(nodes, path, k, useOld))
            && (r.Ok? ==> HopsFollow(nodes, path, k, useOld, r.value.0))
            && (r.Ok? && k > 0 ==> r.value.1 == AskedOf(nodes, path, k - 1, useOld))
            && (k == 0 ==> r == Ok(([], 0)))
  {
    hide HopBetween, CanHop, IsHop, AsksFor, Routable;
    if k > 0 {
      HopsUpToIs(nodes, path, k - 1, useOld);
      if k > 1 && HopsUpTo(nodes, path, k - 1, useOld).Ok? && path[k - 1] in nodes {
        var last, node := nodes[path[k - 2]], nodes[path[k - 1]];
        LastHopFits(last);
        HopBetweenIs(last, node, AskedOf(nodes, path, k - 2, useOld), useOld);
      }
    }
  }

  lemma LastHopFits(last: Node)
    requires Routable(last)
    ensures Fits(WIDTH, last.scheme)
  {
    SchemeFits(last.scheme);
  }

  /** The hops along a path, each matching the way back of the one before it, and the form for the next. */
  ghost function HopsAlong(nodes: Nodes, path: seq<Ip>, useOld: bool): Result<(seq<Hop>, nat), RoutingError>
    requires AllRoutable(nodes)
  {
    HopsUpTo(nodes, path, |path|, useOld)
  }

  /** The hops between the first `k` nodes of a path. */
  ghost function HopsUpTo(nodes: Nodes, path: seq<Ip>, k: nat, useOld: bool): (r: Result<(seq<Hop>, nat), RoutingError>)
    requires AllRoutable(nodes) && k <= |path|
    ensures r.Ok? && k > 0 ==> path[k - 1] in nodes
  {
    if k == 0 then Ok(([], 0))
    else
      var before := HopsUpTo(nodes, path, k - 1, useOld);
      if before.Err? then before
      else if path[k - 1] !in nodes then Err(NoNodeByIp)
      else if k == 1 then before
      else OneMore(before.value, nodes[path[k - 2]], nodes[path[k - 1]], useOld)
  }

  ghost function OneMore(before: (seq<Hop>, nat), last: Node, node: Node, useOld: bool):
    (r: Result<(seq<Hop>, nat), RoutingError>)
    requires Routable(last)
    ensures r.Ok? ==> |r.value.0| == |before.0| + 1
  {
    SchemeFits(last.scheme);
    var next := HopBetween(last, node, before.1, useOld);
    if next.Err? then Err(next.error)
    else Ok((before.0 + [next.value.0], next.value.1))
  }

  function HopLabels(hops: seq<Hop>): (r: seq<nat>)
    ensures |r| == |hops| && forall i :: 0 <= i < |hops| ==> r[i] == hops[i].lab
  {
    seq(|hops|, i requires 0 <= i < |hops| => hops[i].lab)
  }

  /** Unsplicing the label by the hop labels in order ends at the self-reference. */
  ghost predicate Consumed(lab: nat, hops: seq<Hop>) {
    && lab > 0 && (forall i :: 0 <= i < |hops| ==> hops[i].lab > 0)
    && UnspliceAll(lab, HopLabels(hops)) == Ok(1)
  }

  lemma FirstLinkProper(node: Node, from: Ip)
    requires Routable(node)
    ensures FirstLink(node, from).Some? ==> ProperLink(FirstLink(node, from).value)
  {
  }

  lemma HopLabelInWord(last: Node, node: Node, formNum: nat, useOld: bool)
    requires Routable(last) && Routable(node) && Fits(WIDTH, last.scheme)
    requires HopBetween(last, node, formNum, useOld).Ok?
    ensures IsLabel(WIDTH, HopBetween(last, node, formNum, useOld).value.0.lab)
  {
    hide EncodingForm, ReEncode, ValidScheme;
    var hop := HopBetween(last, node, formNum, useOld).value.0;
    FirstLinkProper(node, last.ipv6);
    FirstLinkProper(last, node.ipv6);
    if hop.lab != hop.origLabel {
      ReEncodeRequested(hop.origLabel, last.scheme, formNum);
      LabelBuilding.ReEncodedForm(WIDTH, hop.origLabel, last.scheme, formNum);
    }
  }

  lemma ReEncodeRequested(lab: nat, s: Scheme, k: nat)
    requires Fits(WIDTH, s) && ReEncode(WIDTH, lab, s, Some(k)).Ok?
    ensures k < |s|
  {
    hide EncodingForm, Director, Assemble;
  }

  /** The self-reference in front of a route changes nothing. */
  lemma {:induction false} SelfReferenceFirst(labels: seq<nat>)
    requires labels != [] && forall i :: 0 <= i < |labels| ==> labels[i] > 0
    ensures JoinAll([1] + labels) == JoinAll(labels)
  {
    var all, n := [1] + labels, |labels| - 1;
    assert all[..|all| - 1] == [1] + labels[..n];
    if n == 0 {
      assert labels[..n] == [];
      JoinUnit(labels[0]);
    } else {
      hide Join;
      SelfReferenceFirst(labels[..n]);
    }
  }

  /** Whether the labels of some hops fit into one label together. */
  ghost predicate FitTogether(hops: seq<Hop>)
    requires forall i :: 0 <= i < |hops| ==> hops[i].lab > 0
  {
    HsbSum([1] + Reversed(HopLabels(hops))) <= 59
  }

  ghost predicate InWord(hops: seq<Hop>) {
    forall i :: 0 <= i < |hops| ==> IsLabel(WIDTH, hops[i].lab)
  }

  lemma HopsUpToNext(nodes: Nodes, path: seq<Ip>, k: nat, useOld: bool)
    requires AllRoutable(nodes) && k < |path| && HopsUpTo(nodes, path, k, useOld).Ok?
    ensures var before := HopsUpTo(nodes, path, k, useOld).value;
            HopsUpTo(nodes, path, k + 1, useOld) ==
              if path[k] !in nodes then Err(NoNodeByIp)
              else if k == 0 then Ok(before)
              else OneMore(before, nodes[path[k - 1]], nodes[path[k]], useOld)
  {
    hide OneMore, Routable;
  }

  lemma {:induction false} HopsUpToError(nodes: Nodes, path: seq<Ip>, k: nat, useOld: bool)
    requires AllRoutable(nodes) && k <= |path| && HopsUpTo(nodes, path, k, useOld).Err?
    ensures HopsAlong(nodes, path, useOld) == HopsUpTo(nodes, path, k, useOld)
    decreases |path| - k
  {
    hide OneMore, Routable;
    if k < |path| {
      HopsUpToError(nodes, path, k + 1, useOld);
    }
  }

  /** The loop along the path. */
  method ComputeHops(nodes: Nodes, path: seq<Ip>, useOld: bool) returns (r: Result<seq<Hop>, RoutingError>)
    requires AllRoutable(nodes)
    ensures var spec := HopsAlong(nodes, path, useOld);
            r == if spec.Ok? then Ok(spec.value.0) else Err(spec.error)
    ensures r.Ok? ==> InWord(r.value)
    ensures r.Ok? <==> PathLinked(nodes, path, |path|, useOld)
    ensures r.Ok? ==> HopsFollow(nodes, path, |path|, useOld, r.value)
  {
    hide Routable, HopBetween, HopsUpTo, PathLinked, HopsFollow;
    HopsUpToIs(nodes, path, |path|, useOld);
    var last: Option<Node> := None;
    var hops: seq<Hop> := [];
    var formNum: nat := 0;
    HopsUpToNothing(nodes, path, useOld);
    for k := 0 to |path|
      invariant k == 0 <==> last.None?
      invariant last.Some? ==> path[k - 1] in nodes && last.value == nodes[path[k - 1]]
      invariant HopsUpTo(nodes, path, k, useOld) == Ok((hops, formNum))
      invariant InWord(hops)
    {
      HopsUpToNext(nodes, path, k, useOld);
      if path[k] !in nodes {
        HopsUpToError(nodes, path, k + 1, useOld);
        return Err(NoNodeByIp);
      }
      var node := nodes[path[k]];
      if last.Some? {
        var next := ComputeHop(last.value, node, formNum, useOld);
        if next.Err? {
          HopsUpToError(nodes, path, k + 1, useOld);
          return Err(next.error);
        }
        hops := hops + [next.value.0];
        formNum := next.value.1;
      }
      last := Some(node);
    }
    return Ok(hops);
  }

  lemma HopsUpToNothing(nodes: Nodes, path: seq<Ip>, useOld: bool)
    requires AllRoutable(nodes)
    ensures HopsUpTo(nodes, path, 0, useOld) == Ok(([], 0))
  {
  }

  method ComputeRoutingLabel(nodes: Nodes, path: seq<Ip>, useOld: bool) returns (r: Result<(nat, seq<Hop>), RoutingError>)
    requires AllRoutable(nodes)
    ensures HopsAlong(nodes, path, useOld).Ok? <==> PathLinked(nodes, path, |path|, useOld)
    ensures var spec := HopsAlong(nodes, path, useOld);
            if spec.Err? then r == Err(spec.error)
            else
              var hops := spec.value.0;
              && InWord(hops)
              && (r.Ok? <==> hops != [] && FitTogether(hops))
              && PathLinked(nodes, path, |path|, useOld) && HopsFollow(nodes, path, |path|, useOld, hops)
              && (r.Ok? ==> r.value.1 == hops && Consumed(r.value.0, hops))
              && (r.Err? ==> r.error == SpliceFailed(if hops == [] then NotEnoughArguments else LabelTooLong))
  {
    hide AllRoutable, HopsAlong, JoinAll, HsbSum, UnspliceAll, PathLinked, HopsFollow;
    var found := ComputeHops(nodes, path, useOld);
    if found.Err? {
      return Err(found.error);
    }
    var hops := found.value;
    var labels := HopLabels(hops);
    var spliced := Splice(WIDTH, [1] + Reversed(labels));
    if spliced.Err? {
      return Err(SpliceFailed(spliced.error));
    }
    SelfReferenceFirst(Reversed(labels));
    UnspliceWholeRoute(labels);
    return Ok((spliced.value, hops));
  }

  /** One round of the loop, in either of its two variants. */
  method ComputeHop(last: Node, node: Node, formNum: nat, useOld: bool) returns (r: Result<(Hop, nat), RoutingError>)
    requires Routable(last) && Routable(node)
    ensures Fits(WIDTH, last.scheme) && r == HopBetween(last, node, formNum, useOld)
    ensures r.Ok? ==> IsLabel(WIDTH, r.value.0.lab)
    ensures r.Ok? <==> CanHop(last, node, formNum, useOld)
    ensures r.Ok? ==> IsHop(last, node, formNum, useOld, r.value.0) && r.value.1 == AsksFor(last, node, useOld)
    ensures r == Err(NoInwardLinksByIp) <==> !Linked(node, last.ipv6) || (!useOld && !Linked(last, node.ipv6))
  {
    SchemeFits(last.scheme);
    HopBetweenIs(last, node, formNum, useOld);
    hide CanHop, IsHop, AsksFor;
    if HopBetween(last, node, formNum, useOld).Ok? {
      HopLabelInWord(last, node, formNum, useOld);
    }
    hide EncodingForm, ReEncode, Routable, ValidScheme;
    var greta := FirstLink(node, last.ipv6);
    if greta.None? {
      return Err(NoInwardLinksByIp);
    }
    var lab, nextForm;
    var form;
    if useOld {
      lab, nextForm := greta.value.lab, greta.value.encodingFormNumber;
      form := EncodingForm(lab, last.scheme);
      if form.Err? {
        return Err(GetEncodingFormFailed(form.error));
      }
    } else {
      var yury := FirstLink(last, node.ipv6);
      if yury.None? {
        return Err(NoInwardLinksByIp);
      }
      lab := yury.value.peerNum;
      if lab == 0 || greta.value.peerNum == 0 {
        return Err(RoutingLabelTryNewFailed);
      }
      form := EncodingForm(lab, node.scheme);
      if form.Err? {
        return Err(GetEncodingFormFailed(form.error));
      }
      var backForm := EncodingForm(greta.value.peerNum, last.scheme);
      if backForm.Err? {
        return Err(GetEncodingFormFailed(backForm.error));
      }
      nextForm := backForm.value;
    }
    var used := lab;
    if form.value < formNum {
      var reEncoded := ReEncode(WIDTH, lab, last.scheme, Some(formNum));
      if reEncoded.Err? {
        return Err(ReEncodeFailed(reEncoded.error));
      }
      used := reEncoded.value;
    }
    return Ok((Hop(used, lab, last.scheme, formNum), nextForm));
  }

  /** The scheme by which the form of a hop's announced label is told. */
  function ReadBy(last: Node, node: Node, useOld: bool): Scheme {
    if useOld then last.scheme else node.scheme
  }

  /** The form of the label in the scheme of the node that switches it is no lower than asked for. */
  ghost predicate MatchesWayBack(lab: nat, s: Scheme, formNum: nat) {
    EncodingForm(lab, s).Ok? && EncodingForm(lab, s).value >= formNum
  }

  /** A hop matches the way back exactly when its announced label does already, or is seen not to. */
  lemma HopMatchesIff(last: Node, node: Node, formNum: nat, useOld: bool)
    requires Routable(last) && Routable(node) && Fits(WIDTH, last.scheme) && PrefixFree(last.scheme)
    requires HopBetween(last, node, formNum, useOld).Ok?
    ensures var hop := HopBetween(last, node, formNum, useOld).value.0;
            && EncodingForm(hop.origLabel, ReadBy(last, node, useOld)).Ok?
            && (MatchesWayBack(hop.lab, last.scheme, formNum) <==>
                || MatchesWayBack(hop.origLabel, last.scheme, formNum)
                || EncodingForm(hop.origLabel, ReadBy(last, node, useOld)).value < formNum)
  {
    hide EncodingForm, ReEncode, ValidScheme, PrefixFree;
    var hop := HopBetween(last, node, formNum, useOld).value.0;
    if EncodingForm(hop.origLabel, ReadBy(last, node, useOld)).value < formNum {
      ReEncodeRequested(hop.origLabel, last.scheme, formNum);
      LabelBuilding.ReEncodedForm(WIDTH, hop.origLabel, last.scheme, formNum);
    }
  }

  /** So it always does in the older variant, and in the newer one between nodes of one scheme. */
  lemma HopMatchesWayBack(last: Node, node: Node, formNum: nat, useOld: bool)
    requires Routable(last) && Routable(node) && Fits(WIDTH, last.scheme) && PrefixFree(last.scheme)
    requires useOld || node.scheme == last.scheme
    requires HopBetween(last, node, formNum, useOld).Ok?
    ensures MatchesWayBack(HopBetween(last, node, formNum, useOld).value.0.lab, last.scheme, formNum)
  {
    hide EncodingForm, ReEncode, ValidScheme, PrefixFree, HopBetween;
    HopMatchesIff(last, node, formNum, useOld);
  }

  /** Two schemes that number the same two forms differently: label 1 is in form 0 of one and in form 1 of the other. */
  const ODD_FIRST: Scheme := [Form(4, 1, 1), Form(4, 1, 0)]
  const EVEN_FIRST: Scheme := [Form(4, 1, 0), Form(4, 1, 1)]

  lemma OneInBoth()
    ensures ValidScheme(ODD_FIRST) && PrefixFree(ODD_FIRST) && EncodingForm(1, ODD_FIRST) == Ok(0)
    ensures ValidScheme(EVEN_FIRST) && EncodingForm(1, EVEN_FIRST) == Ok(1)
  {
    hide EncodingForm, Low, Pow2, PrefixFree, ValidScheme;
    OneBitPrefixes(ODD_FIRST);
    OneBitPrefixes(EVEN_FIRST);
    OneBit();
    FormByPrefix(1, ODD_FIRST, 0);
    FormByPrefix(1, EVEN_FIRST, 1);
  }

  /** A chain of three nodes, 0 - 1 - 2, all links numbered 1, the schemes alternating. */
  function Chain(): Nodes {
    var link := Link(1, 0, 1, 0, 0, 0, 0, 0.0);
    map[
      0 := Node(0, [], 0, EVEN_FIRST, map[1 := [link]], 0, [], None),
      1 := Node(0, [], 1, ODD_FIRST, map[0 := [link], 2 := [link]], 0, [], None),
      2 := Node(0, [], 2, EVEN_FIRST, map[1 := [link]], 0, [], None)
    ]
  }

  lemma ChainRoutable()
    ensures AllRoutable(Chain())
  {
    hide ValidScheme, ProperTable, EncodingForm, PrefixFree;
    OneInBoth();
    ChainLinks();
    assert Routable(Chain()[0]) && Routable(Chain()[1]) && Routable(Chain()[2]);
  }

  lemma ChainLinks()
    ensures forall ip :: ip in Chain() ==> ProperTable(Chain()[ip].links)
  {
    hide Pow2;
    assert 1 < Pow2(WIDTH) by {
      Pow2Monotone(1, WIDTH);
      OneBit();
    }
  }

  /** Each hop of the chain is entered as announced; the second asks for form 1 and is read to have it. */
  lemma ChainHops()
    ensures AllRoutable(Chain())
    ensures HopsAlong(Chain(), [0, 1, 2], false) == Ok(([Hop(1, 1, EVEN_FIRST, 0), Hop(1, 1, ODD_FIRST, 1)], 0))
  {
    hide HopsUpTo, OneMore, AllRoutable, EncodingForm;
    var nodes, path := Chain(), [0, 1, 2];
    ChainRoutable();
    HopsUpToNothing(nodes, path, false);
    HopsUpToNext(nodes, path, 0, false);
    assert HopsUpTo(nodes, path, 1, false) == Ok(([], 0));
    FirstHop();
    HopsUpToNext(nodes, path, 1, false);
    assert HopsUpTo(nodes, path, 2, false) == Ok(([Hop(1, 1, EVEN_FIRST, 0)], 1));
    SecondHop();
    HopsUpToNext(nodes, path, 2, false);
    var first := [Hop(1, 1, EVEN_FIRST, 0)];
    assert first + [Hop(1, 1, ODD_FIRST, 1)] == [Hop(1, 1, EVEN_FIRST, 0), Hop(1, 1, ODD_FIRST, 1)];
  }

  lemma FirstHop()
    ensures Routable(Chain()[0]) && OneMore(([], 0), Chain()[0], Chain()[1], false) == Ok(([Hop(1, 1, EVEN_FIRST, 0)], 1))
  {
    hide ValidScheme, EncodingForm, ReEncode, Routable;
    ChainRoutable();
    OneInBoth();
    SchemeFits(EVEN_FIRST);
    assert [] + [Hop(1, 1, EVEN_FIRST, 0)] == [Hop(1, 1, EVEN_FIRST, 0)];
  }

  lemma SecondHop()
    ensures var before := [Hop(1, 1, EVEN_FIRST, 0)];
            && Routable(Chain()[1])
            && OneMore((before, 1), Chain()[1], Chain()[2], false) == Ok((before + [Hop(1, 1, ODD_FIRST, 1)], 0))
  {
    hide ValidScheme, EncodingForm, ReEncode, Routable;
    ChainRoutable();
    OneInBoth();
    SchemeFits(ODD_FIRST);
  }

  /**
    The newer variant reads the label of the node `last` with the scheme of `node`. Where the two
    schemes number the same forms differently, a label that should be widened is left alone: along
    the chain, the way back of the first hop asks the second for form 1, and it goes out in form 0.
   */
  lemma NewVariantCanMismatch()
    ensures AllRoutable(Chain()) && PrefixFree(ODD_FIRST)
    ensures HopsAlong(Chain(), [0, 1, 2], false).Ok?
    ensures var hops := HopsAlong(Chain(), [0, 1, 2], false).value.0;
            && |hops| == 2 && hops[1].scheme == ODD_FIRST && hops[1].inverseFormNum == 1
            && !MatchesWayBack(hops[1].lab, hops[1].scheme, hops[1].inverseFormNum)
  {
    hide HopsAlong, AllRoutable, EncodingForm, PrefixFree, ValidScheme;
    ChainHops();
    OneInBoth();
  }

  // ---------------------------------------------------------------- the graph

  /** The highest value among parallel links. */
  function MaxValue(links: seq<Link>): (r: real)
    requires links != []
    ensures (exists l :: l in links && l.value == r) && forall l :: l in links ==> l.value <= r
  {
    var n := |links| - 1;
    assert links[n] in links;
    if n == 0 then links[0].value
    else
      var before := MaxValue(links[..n]);
      assert forall l :: l in links ==> l in links[..n] || l == links[n];
      assert forall l :: l in links[..n] ==> l in links;
      if before <= links[n].value then links[n].value else before
  }

  /** The reciprocal, exact or rounded, of a positive value is not negative. */
  ghost predicate Reciprocal(recip: real -> real) {
    forall x :: x > 0.0 ==> recip(x) >= 0.0
  }

  /** What a link without any value yet counts as. */
  const LEAST_VALUE := 0.00000000000000000001

  function LinkCost(recip: real -> real, links: seq<Link>): real
    requires links != []
  {
    var best := MaxValue(links);
    recip(if best == 0.0 then LEAST_VALUE else best)
  }

  /** The weight is the reciprocal of the greatest value among the links. */
  ghost predicate CostOfBest(recip: real -> real, links: seq<Link>, weight: real) {
    exists best :: best in links && (forall l :: l in links ==> l.value <= best.value) &&
      weight == recip(if best.value == 0.0 then 0.00000000000000000001 else best.value)
  }

  lemma LinkCostIs(recip: real -> real, links: seq<Link>, weight: real)
    requires links != []
    ensures CostOfBest(recip, links, weight) <==> weight == LinkCost(recip, links)
  {
    hide MaxValue;
    var greatest := MaxValue(links);
    var best :| best in links && best.value == greatest;
  }

  /** With a falling reciprocal, better links never cost more; but links worth less than nothing counts for do. */
  lemma BetterCostsLess(recip: real -> real, a: seq<Link>, b: seq<Link>)
    requires a != [] && b != [] && forall x, y :: 0.0 < x <= y ==> recip(y) <= recip(x)
    requires forall l :: l in a || l in b ==> l.value >= 0.0
    requires MaxValue(a) <= MaxValue(b)
    ensures MaxValue(a) > 0.0 || MaxValue(b) == 0.0 || MaxValue(b) >= LEAST_VALUE ==> LinkCost(recip, b) <= LinkCost(recip, a)
    ensures MaxValue(a) == 0.0 && 0.0 < MaxValue(b) < LEAST_VALUE ==> LinkCost(recip, a) <= LinkCost(recip, b)
  {
    assert a[0] in a && b[0] in b;
  }

  /** `nip` and `pip` have each announced links from the other. */
  predicate Mutual(nodes: Nodes, nip: Ip, pip: Ip)
    requires nip in nodes
  {
    && pip in nodes[nip].links && nodes[nip].links[pip] != []
    && pip in nodes && nip in nodes[pip].links
  }

  /**
    The links in `out` are those of `nip` to the nodes of `done`: to each known node it has announced
    links from and that has announced it in turn, at the cost of the best link.
   */
  ghost predicate Outward(nodes: Nodes, recip: real -> real, nip: Ip, done: set<Ip>, out: seq<PathSearch.Link>)
    requires nip in nodes
  {
    forall l :: l in out <==>
      && l.to in done && l.to in nodes[nip].links && nodes[nip].links[l.to] != []
      && l.to in nodes && nip in nodes[l.to].links
      && CostOfBest(recip, nodes[nip].links[l.to], l.weight)
  }

  ghost predicate IsGraphOf(g: PathSearch.Graph, nodes: Nodes, recip: real -> real) {
    && g.Keys == nodes.Keys
    && forall nip :: nip in nodes ==> Outward(nodes, recip, nip, nodes[nip].links.Keys, g[nip])
  }

  lemma CostIsNotNegative(recip: real -> real, links: seq<Link>)
    requires Reciprocal(recip) && links != [] && forall l :: l in links ==> ProperLink(l)
    ensures LinkCost(recip, links) >= 0.0
  {
    assert links[0] in links;
  }

  method BuildOutward(nodes: Nodes, recip: real -> real, nip: Ip) returns (out: seq<PathSearch.Link>)
    requires AllRoutable(nodes) && Reciprocal(recip) && nip in nodes
    ensures Outward(nodes, recip, nip, nodes[nip].links.Keys, out)
    ensures forall l :: l in out ==> l.weight >= 0.0
  {
    hide CostOfBest, LinkCost;
    var links := nodes[nip].links;
    out := [];
    var todo := links.Keys;
    while todo != {}
      invariant todo <= links.Keys
      invariant Outward(nodes, recip, nip, links.Keys - todo, out)
      invariant forall l :: l in out ==> l.weight >= 0.0
    {
      var pip :| pip in todo;
      todo := todo - {pip};
      if Mutual(nodes, nip, pip) {
        assert Routable(nodes[nip]);
        CostIsNotNegative(recip, links[pip]);
        forall weight {
          LinkCostIs(recip, links[pip], weight);
        }
        out := out + [PathSearch.Link(pip, LinkCost(recip, links[pip]))];
      }
    }
  }

  method BuildNodeGraph(nodes: Nodes, plus: (real, real) -> real, recip: real -> real) returns (d: PathSearch.Dijkstra)
    requires AllRoutable(nodes) && PathSearch.Lawful(plus) && Reciprocal(recip)
    ensures fresh(d) && d.Valid() && d.plus == plus && IsGraphOf(d.nodes, nodes, recip)
  {
    hide AllRoutable, Reciprocal, PathSearch.Lawful, Outward;
    d := new PathSearch.Dijkstra(plus);
    var todo := nodes.Keys;
    while todo != {}
      invariant todo <= nodes.Keys && d.nodes.Keys == nodes.Keys - todo && d.Valid() && d.plus == plus
      invariant forall nip :: nip in d.nodes ==> Outward(nodes, recip, nip, nodes[nip].links.Keys, d.nodes[nip])
    {
      var nip :| nip in todo;
      todo := todo - {nip};
      var out := BuildOutward(nodes, recip, nip);
      d.AddNode(nip, out);
    }
  }

  // ---------------------------------------------------------------- the cache of routes

  /** The nodes and the variant that a route was computed with. */
  datatype Basis = Basis(nodes: Nodes, useOld: bool)

  /** The route follows a cheapest path of the graph by announced links, and its label is used up by its hops. */
  ghost predicate GoodRoute(g: PathSearch.Graph, plus: (real, real) -> real, src: Ip, dst: Ip, basis: Basis, route: Route) {
    && route.path != []
    && PathSearch.ShortestReversePath(g, plus, dst, src, route.path)
    && Consumed(route.lab, route.hops)
    && GoodHops(basis, route.path, route.hops)
  }

  ghost predicate GoodHops(basis: Basis, path: seq<Ip>, hops: seq<Hop>) {
    && AllRoutable(basis.nodes) && PathLinked(basis.nodes, path, |path|, basis.useOld)
    && HopsFollow(basis.nodes, path, |path|, basis.useOld, hops)
  }

  /** Cached routes by destination and source. */
  type Cache = map<(Ip, Ip), Option<Route>>

  ghost predicate GoodCache(g: PathSearch.Graph, plus: (real, real) -> real, cache: Cache, seen: map<(Ip, Ip), Basis>) {
    forall key :: key in cache && cache[key].Some? ==>
      key in seen && GoodRoute(g, plus, key.1, key.0, seen[key], cache[key].value)
  }

  class Routing {
    var lastRebuild: nat
    var routeCache: Cache
    var dijkstra: PathSearch.Dijkstra?
    const plus: (real, real) -> real
    const recip: real -> real

    /** The nodes as they were at the last rebuild. */
    ghost var built: Nodes

    /** What each cached route was computed with. */
    ghost var seen: map<(Ip, Ip), Basis>

    ghost predicate Valid()
      reads this, dijkstra
    {
      && PathSearch.Lawful(plus) && Reciprocal(recip)
      && if dijkstra == null then routeCache == map[]
         else
           && dijkstra.Valid() && dijkstra.plus == plus
           && IsGraphOf(dijkstra.nodes, built, recip)
           && GoodCache(dijkstra.nodes, plus, routeCache, seen)
    }

    constructor (now: nat, plus: (real, real) -> real, recip: real -> real)
      requires PathSearch.Lawful(plus) && Reciprocal(recip)
      ensures Valid() && dijkstra == null && lastRebuild == now && this.plus == plus && this.recip == recip
    {
      lastRebuild, routeCache, dijkstra := now, map[], null;
      this.plus, this.recip := plus, recip;
      built, seen := map[], map[];
    }

    method Rebuild(nodes: Nodes, now: nat)
      requires AllRoutable(nodes) && Valid()
      modifies this
      ensures Valid() && dijkstra != null && fresh(dijkstra)
      ensures built == nodes && lastRebuild == now && routeCache == map[] && seen == old(seen)
    {
      hide AllRoutable, Reciprocal, PathSearch.Lawful, GoodRoute, IsGraphOf;
      routeCache := map[];
      dijkstra := BuildNodeGraph(nodes, plus, recip);
      built, lastRebuild := nodes, now;
    }

    method ComputeRoute(nodes: Nodes, src: Ip, dst: Ip, useOld: bool) returns (r: Result<Route, RoutingError>)
      requires AllRoutable(nodes) && Valid() && dijkstra != null
      ensures r == Err(PathIsEmpty) <==> src == dst || !PathSearch.Reachable(dijkstra.nodes, dst, src)
      ensures r.Ok? ==> GoodRoute(dijkstra.nodes, plus, src, dst, Basis(nodes, useOld), r.value)
      ensures r != Err(NoInput)
      ensures exists path ::
                && PathSearch.ShortestReversePath(dijkstra.nodes, plus, dst, src, path)
                && (r.Ok? <==> path != [] && PathLinked(nodes, path, |path|, useOld) && Spliceable(nodes, path, useOld))
    {
      hide AllRoutable, HopsUpTo, Consumed, PathSearch.Cheapest, PathSearch.Reachable, PathSearch.ShortestReversePath, FitTogether, IsGraphOf, GoodCache, PathLinked, HopsFollow;
      var path := dijkstra.ReversePath(dst, src);
      EmptyPath(dijkstra.nodes, plus, dst, src, path);
      if path == [] {
        return Err(PathIsEmpty);
      }
      LongEnough(dijkstra.nodes, plus, dst, src, path);
      HopsOfLength(nodes, path, useOld);
      var computed := ComputeRoutingLabel(nodes, path, useOld);
      if computed.Err? {
        OnlyHopErrors(nodes, path, |path|, useOld);
        return Err(computed.error);
      }
      return Ok(Route(computed.value.0, computed.value.1, path));
    }

    method GetRouteImpl(nodes: Nodes, src: Ip, dst: Ip, now: nat, useOld: bool) returns (r: Result<Route, RoutingError>)
      requires AllRoutable(nodes) && Valid()
      modifies this
      ensures Valid() && dijkstra != null && now <= lastRebuild + 3000
      ensures if old(dijkstra) == null || old(lastRebuild) + 3000 < now
              then built == nodes && lastRebuild == now && fresh(dijkstra)
              else built == old(built) && lastRebuild == old(lastRebuild) && dijkstra == old(dijkstra)
      ensures r.Ok? ==> (dst, src) in seen && GoodRoute(dijkstra.nodes, plus, src, dst, seen[(dst, src)], r.value)
      ensures var cached := if old(dijkstra) == null || old(lastRebuild) + 3000 < now then map[] else old(routeCache);
              && routeCache == cached[(dst, src) := if r.Ok? then Some(r.value) else None]
              && if (dst, src) in cached && cached[(dst, src)].Some?
                 then r == Ok(cached[(dst, src)].value) && seen == old(seen)
                 else seen == old(seen)[(dst, src) := Basis(nodes, useOld)]
      ensures r == Err(PathIsEmpty) <==> src == dst || !PathSearch.Reachable(dijkstra.nodes, dst, src)
      ensures r != Err(NoInput)
    {
      hide AllRoutable, HopsAlong, Consumed, PathSearch.Cheapest, PathSearch.Reachable, IsGraphOf, PathSearch.Lawful, PathSearch.NonNegative, Reciprocal, GoodRoute, GoodCache, PathLinked, Spliceable;
      if lastRebuild + REBUILD_INTERVAL < now || dijkstra == null {
        Rebuild(nodes, now);
      }
      var key := (dst, src);
      if key in routeCache && routeCache[key].Some? {
        CachedIsGood(dijkstra.nodes, plus, routeCache, seen, key);
        return Ok(routeCache[key].value);
      }
      r := ComputeRoute(nodes, src, dst, useOld);
      CacheMore(dijkstra.nodes, plus, routeCache, seen, key, Basis(nodes, useOld), r);
      routeCache := routeCache[key := if r.Ok? then Some(r.value) else None];
      seen := seen[key := Basis(nodes, useOld)];
    }
  }

  lemma CachedIsGood(g: PathSearch.Graph, plus: (real, real) -> real, cache: Cache, seen: map<(Ip, Ip), Basis>, key: (Ip, Ip))
    requires GoodCache(g, plus, cache, seen) && key in cache && cache[key].Some?
    ensures key in seen && GoodRoute(g, plus, key.1, key.0, seen[key], cache[key].value)
    ensures key.1 != key.0 && PathSearch.Reachable(g, key.0, key.1)
    ensures cache[key := Some(cache[key].value)] == cache
  {
    hide PathSearch.ShortestReversePath, Consumed, GoodHops;
    EmptyPath(g, plus, key.0, key.1, cache[key].value.path);
  }

  lemma CacheMore(g: PathSearch.Graph, plus: (real, real) -> real, cache: Cache, seen: map<(Ip, Ip), Basis>, key: (Ip, Ip),
                  basis: Basis, r: Result<Route, RoutingError>)
    requires GoodCache(g, plus, cache, seen) && (r.Ok? ==> GoodRoute(g, plus, key.1, key.0, basis, r.value))
    ensures GoodCache(g, plus, cache[key := if r.Ok? then Some(r.value) else None], seen[key := basis])
  {
    hide GoodRoute;
  }

  /** A path between two nodes has at least its two ends. */
  lemma LongEnough(g: PathSearch.Graph, plus: (real, real) -> real, s: Ip, t: Ip, path: seq<Ip>)
    requires PathSearch.ShortestReversePath(g, plus, s, t, path) && path != []
    ensures |path| >= 2
  {
    hide PathSearch.Reachable, PathSearch.IsWalk, PathSearch.Cost;
    var w :| PathSearch.Cheapest(g, plus, s, t, w) && PathSearch.RevNodes(s, w) == path;
    assert path[0] == t && path[|path| - 1] == s;
  }

  lemma EmptyPath(g: PathSearch.Graph, plus: (real, real) -> real, s: Ip, t: Ip, path: seq<Ip>)
    requires PathSearch.ShortestReversePath(g, plus, s, t, path)
    ensures path == [] <==> t == s || !PathSearch.Reachable(g, s, t)
  {
    hide PathSearch.Reachable, PathSearch.Cheapest;
  }

  lemma HopsOfLength(nodes: Nodes, path: seq<Ip>, useOld: bool)
    requires AllRoutable(nodes) && path != []
    ensures HopsAlong(nodes, path, useOld).Ok? ==> |HopsAlong(nodes, path, useOld).value.0| == |path| - 1
  {
    hide HopsUpTo, IsHop, CanHop;
    HopsUpToIs(nodes, path, |path|, useOld);
  }

  /** The labels of the hops along the path fit into one label together. */
  ghost predicate Spliceable(nodes: Nodes, path: seq<Ip>, useOld: bool)
    requires AllRoutable(nodes)
  {
    && HopsAlong(nodes, path, useOld).Ok?
    && InWord(HopsAlong(nodes, path, useOld).value.0) && FitTogether(HopsAlong(nodes, path, useOld).value.0)
  }

  /** Whether two entries describe one node; links, times and announcements do not matter, and all are of one type. */
  predicate SameNode(a: Node, b: Node) {
    a.version == b.version && a.key == b.key && a.ipv6 == b.ipv6 && a.scheme == b.scheme
  }

  /** The label of every answer is used up by its hops; only a node's route to itself has none. */
  method GetRoute(routing: Routing, nodes: Nodes, src: Option<Node>, dst: Option<Node>, now: nat, useOld: bool)
    returns (r: Result<Route, RoutingError>)
    requires AllRoutable(nodes) && routing.Valid()
    modifies routing
    ensures routing.Valid() && (r == Err(NoInput) <==> src.None? || dst.None?)
    ensures r.Ok? ==> src.Some? && dst.Some? && Consumed(r.value.lab, r.value.hops)
    ensures src.Some? && dst.Some? ==>
              (r == Ok(Route(1, [], [])) <==>
               src.value.(links := map[], timestamp := 0, announcements := [], resetMsg := None) ==
               dst.value.(links := map[], timestamp := 0, announcements := [], resetMsg := None))
    ensures r.Ok? && r.value != Route(1, [], []) ==>
              && routing.dijkstra != null && (dst.value.ipv6, src.value.ipv6) in routing.seen
              && GoodRoute(routing.dijkstra.nodes, routing.plus, src.value.ipv6, dst.value.ipv6,
                           routing.seen[(dst.value.ipv6, src.value.ipv6)], r.value)
  {
    hide AllRoutable, PathSearch.ShortestReversePath, IsGraphOf, GoodCache, GoodHops;
    if src.None? || dst.None? {
      return Err(NoInput);
    }
    if SameNode(src.value, dst.value) {
      return Ok(Route(1, [], []));
    }
    r := routing.GetRouteImpl(nodes, src.value.ipv6, dst.value.ipv6, now, useOld);
  }

  /** A path that has been found is never answered with the errors for missing nodes or paths. */
  lemma {:induction false} OnlyHopErrors(nodes: Nodes, path: seq<Ip>, k: nat, useOld: bool)
    requires AllRoutable(nodes) && k <= |path|
    ensures HopsUpTo(nodes, path, k, useOld) != Err(PathIsEmpty) && HopsUpTo(nodes, path, k, useOld) != Err(NoInput)
  {
    hide EncodingForm, ReEncode, Routable;
    if k > 0 {
      OnlyHopErrors(nodes, path, k - 1, useOld);
    }
  }
}
