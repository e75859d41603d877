/**
  Splicing and unsplicing of routing labels (cjdns-core/src/splice.rs:56-73 and 379-409).

  A label is a route: its highest set bit ends it, the bits below are the directors of its hops,
  the first hop lowest. Splicing puts one route on top of another.
 */
module Splicing {
  import opened Bits
  import opened Wrappers
  import opened Schemes

  /** Route `a` taken after route `b`: the end bit of `b` makes room for the whole of `a`. */
  ghost function Join(a: nat, b: nat): (r: nat)
    requires a > 0 && b > 0
    ensures r > 0
  {
    a * Pow2(Hsb(b)) + (b - Pow2(Hsb(b)))
  }

  /** The last label is the first hop. */
  ghost function JoinAll(labels: seq<nat>): (r: nat)
    requires labels != [] && forall i :: 0 <= i < |labels| ==> labels[i] > 0
    ensures r > 0
  {
    var n := |labels| - 1;
    if n == 0 then labels[0] else Join(JoinAll(labels[..n]), labels[n])
  }

  ghost function HsbSum(labels: seq<nat>): nat
    requires forall i :: 0 <= i < |labels| ==> labels[i] > 0
  {
    if labels == [] then 0 else HsbSum(labels[..|labels| - 1]) + Hsb(labels[|labels| - 1])
  }

  /** What splicing must give: the joined route, if there are labels enough and it fits the payload. */
  ghost function Spliced(width: nat, labels: seq<nat>): Result<nat, SpliceError>
    requires width >= 5 && forall i :: 0 <= i < |labels| ==> labels[i] > 0
  {
    if |labels| < 2 then Err(NotEnoughArguments)
    else if HsbSum(labels) <= Payload(width) - 1 then Ok(JoinAll(labels))
    else Err(LabelTooLong)
  }

  lemma JoinParts(a: nat, b: nat)
    requires a > 0 && b > 0
    ensures Join(a, b) == Up(a, Hsb(b)) + Low(b, Hsb(b))
    ensures b == Pow2(Hsb(b)) + Low(b, Hsb(b))
  {
    var h := Hsb(b);
    UpIsTimes(a, h);
    Parts(1, h, b - Pow2(h));
  }

  lemma HsbOfJoin(a: nat, b: nat)
    requires a > 0 && b > 0
    ensures Hsb(Join(a, b)) == Hsb(a) + Hsb(b)
  {
    hide Join, Up, Low, Hsb;
    var h := Hsb(b);
    JoinParts(a, b);
    UpMonotone(Pow2(Hsb(a)), a, h);
    UpTwice(1, Hsb(a), h);
    UpBelow(a, h, Low(b, h), Hsb(a) + 1);
    HsbUnique(Join(a, b), Hsb(a) + h);
  }

  /** Splicing is associative: a route may be spliced together in any grouping. */
  lemma JoinAssociative(a: nat, b: nat, c: nat)
    requires a > 0 && b > 0 && c > 0
    ensures Join(Join(a, b), c) == Join(a, Join(b, c))
  {
    hide Join, Up, Low, Hsb;
    var hb, hc := Hsb(b), Hsb(c);
    HsbOfJoin(b, c);
    JoinParts(a, b);
    JoinParts(b, c);
    JoinParts(Join(a, b), c);
    JoinParts(a, Join(b, c));
    UpSum(Up(a, hb), Low(b, hb), hc);
    UpSum(Pow2(hb), Low(b, hb), hc);
    UpTwice(a, hb, hc);
    UpTwice(1, hb, hc);
  }

  /** The self-reference 1 is the empty route. */
  lemma JoinUnit(a: nat)
    requires a > 0
    ensures Join(1, a) == a && Join(a, 1) == a
  {
  }

  lemma XorOne(a: nat)
    ensures Xor(a, 1) == if a % 2 == 0 then a + 1 else a - 1
    ensures a > 0 ==> Xor(a, 1) < Pow2(Hsb(a) + 1)
  {
    XorZero(a / 2);
  }

  /** The xor-and-shift of the program joins, as long as the result fits the word. */
  lemma XorShiftJoins(width: nat, a: nat, b: nat)
    requires a > 0 && b > 0 && Hsb(a) + Hsb(b) < width
    ensures Xor(Shl(width, Xor(a, 1), Hsb(b)), b) == Join(a, b)
  {
    hide Join, Up, Low, Hsb, Xor, Shl;
    var h, x, low := Hsb(b), Xor(a, 1), Low(b, Hsb(b));
    ShiftFits(width, a, h);
    JoinParts(a, b);
    assert Up(x, h) + 0 == Up(x, h) && Up(1, h) + low == b;
    XorParts(x, 1, h, 0, low);
    XorOneTwice(a);
    XorZero(low);
  }

  /** Nothing leaves the word when a route is shifted up. */
  lemma ShiftFits(width: nat, a: nat, h: nat)
    requires a > 0 && Hsb(a) + h < width
    ensures Shl(width, Xor(a, 1), h) == Up(Xor(a, 1), h)
  {
    hide Up, Low, Hsb, Xor;
    XorOne(a);
    UpBelow(Xor(a, 1), h, 0, Hsb(a) + 1);
    Pow2Monotone(Hsb(a) + 1 + h, width);
    LowFits(Up(Xor(a, 1), h), width);
  }

  method Splice(width: nat, labels: seq<nat>) returns (r: Result<nat, SpliceError>)
    requires width >= 5 && forall i :: 0 <= i < |labels| ==> labels[i] > 0 && labels[i] < Pow2(width)
    ensures r == Spliced(width, labels)
    ensures r.Ok? ==> IsLabel(width, r.value)
    ensures r == Err(NotEnoughArguments) <==> |labels| < 2
    ensures r.Ok? <==> |labels| >= 2 && HsbSum(labels) <= width - 5
  {
    hide Join, JoinAll, HsbSum, Up, Low, Xor, Hsb, Pow2, Shl, IsLabel;
    if |labels| < 2 {
      return Err(NotEnoughArguments);
    }
    var resultBits := labels[0];
    PrefixOfOne(labels);
    for k := 1 to |labels|
      invariant resultBits == JoinAll(labels[..k])
      invariant Hsb(resultBits) == HsbSum(labels[..k])
      invariant k > 1 ==> HsbSum(labels[..k]) <= Payload(width) - 1
    {
      var addon := labels[k];
      var bitlen := Hsb(addon);
      PrefixStep(labels, k);
      if Hsb(resultBits) + bitlen > Payload(width) - 1 {
        HsbSumGrows(labels, k + 1);
        return Err(LabelTooLong);
      }
      XorShiftJoins(width, resultBits, addon);
      HsbOfJoin(resultBits, addon);
      resultBits := Xor(Shl(width, Xor(resultBits, 1), bitlen), addon);
    }
    assert labels[..|labels|] == labels;
    ShortIsLabel(width, resultBits);
    r := if resultBits != 0 then Ok(resultBits) else Err(TryNewFailed);
  }

  lemma ShortIsLabel(width: nat, lab: nat)
    requires lab > 0 && Hsb(lab) < width
    ensures IsLabel(width, lab)
  {
    Pow2Monotone(Hsb(lab) + 1, width);
  }

  lemma PrefixOfOne(labels: seq<nat>)
    requires labels != [] && forall i :: 0 <= i < |labels| ==> labels[i] > 0
    ensures JoinAll(labels[..1]) == labels[0] && HsbSum(labels[..1]) == Hsb(labels[0])
  {
    assert labels[..1][..0] == [];
  }

  lemma PrefixStep(labels: seq<nat>, k: nat)
    requires 0 < k < |labels| && forall i :: 0 <= i < |labels| ==> labels[i] > 0
    ensures JoinAll(labels[..k + 1]) == Join(JoinAll(labels[..k]), labels[k])
    ensures HsbSum(labels[..k + 1]) == HsbSum(labels[..k]) + Hsb(labels[k])
  {
    assert labels[..k + 1][..k] == labels[..k];
  }

  lemma {:induction false} HsbSumGrows(labels: seq<nat>, k: nat)
    requires k <= |labels| && forall i :: 0 <= i < |labels| ==> labels[i] > 0
    ensures HsbSum(labels[..k]) <= HsbSum(labels)
  {
    if k == |labels| {
      assert labels[..k] == labels;
    } else {
      HsbSumGrows(labels[..|labels| - 1], k);
      assert labels[..|labels| - 1][..k] == labels[..k];
    }
  }

  predicate RoutesThrough(destination: nat, midPath: nat)
    requires destination > 0 && midPath > 0
  {
    var mask := Pow2(Hsb(midPath)) - 1;
    Hsb(destination) >= Hsb(midPath) && And(destination, mask) == And(midPath, mask)
  }

  function Unsplice(destination: nat, midPath: nat): (r: Result<nat, SpliceError>)
    requires destination > 0 && midPath > 0
    ensures r.Ok? ==> r.value > 0
  {
    if !RoutesThrough(destination, midPath) then Err(RoutesThroughFailed)
    else
      var bits := Shr(destination, Hsb(midPath));
      if bits != 0 then Ok(bits) else Err(HighestSetBitIsBroken)
  }

  /** Unsplicing undoes splicing. */
  lemma UnspliceOfJoin(a: nat, b: nat)
    requires a > 0 && b > 0
    ensures RoutesThrough(Join(a, b), b) && Unsplice(Join(a, b), b) == Ok(a)
  {
    hide Join, Up, Low, Hsb, And, Shr;
    var h := Hsb(b);
    JoinParts(a, b);
    HsbOfJoin(a, b);
    Parts(a, h, Low(b, h));
    AndMask(Join(a, b), h);
    AndMask(b, h);
  }

  /** Splicing undoes unsplicing. */
  lemma JoinOfUnsplice(d: nat, m: nat)
    requires d > 0 && m > 0 && RoutesThrough(d, m)
    ensures Unsplice(d, m).Ok? && Join(Unsplice(d, m).value, m) == d
  {
    var h := Hsb(m);
    AndMask(d, h);
    AndMask(m, h);
    Recompose(d, h);
    if Shr(d, h) == 0 {
      UpIsTimes(0, h);
      Pow2Monotone(h, Hsb(d));
      assert false;
    }
    JoinParts(Shr(d, h), m);
  }

  /** A route goes through the end of another one exactly when it is an extension of it. */
  /** Unsplicing solves for the rest of the route: it finds exactly the route that, joined with the hop, is the destination. */
  lemma UnspliceSolves(d: nat, m: nat, c: nat)
    requires d > 0 && m > 0 && c > 0
    ensures Unsplice(d, m) == Ok(c) <==> Join(c, m) == d
    ensures Unsplice(d, m).Err? <==> !RoutesThrough(d, m)
  {
    hide Join, RoutesThrough;
    UnspliceOfJoin(c, m);
    if RoutesThrough(d, m) {
      JoinOfUnsplice(d, m);
    }
  }

  lemma RoutesThroughIffExtends(d: nat, m: nat)
    requires d > 0 && m > 0
    ensures RoutesThrough(d, m) <==> exists c: nat :: c > 0 && Join(c, m) == d
  {
    if RoutesThrough(d, m) {
      JoinOfUnsplice(d, m);
    }
    forall c: nat | c > 0 && Join(c, m) == d
      ensures RoutesThrough(d, m)
    {
      UnspliceOfJoin(c, m);
    }
  }

  lemma RoutesThroughBothWays(a: nat, b: nat)
    requires a > 0 && b > 0 && RoutesThrough(a, b) && RoutesThrough(b, a)
    ensures a == b
  {
    JoinOfUnsplice(a, b);
    var x := Unsplice(a, b).value;
    HsbOfJoin(x, b);
    assert Hsb(x) == 0 && x == 1;
    JoinUnit(b);
  }

  /** `RoutesThrough` is a partial order on routes. */
  lemma RoutesThroughOrder(a: nat, b: nat, c: nat)
    requires a > 0 && b > 0 && c > 0
    ensures RoutesThrough(a, a)
    ensures RoutesThrough(a, b) && RoutesThrough(b, a) ==> a == b
    ensures RoutesThrough(a, b) && RoutesThrough(b, c) ==> RoutesThrough(a, c)
  {
    hide Join, RoutesThrough, Up, Low;
    UnspliceOfJoin(1, a);
    JoinUnit(a);
    if RoutesThrough(a, b) && RoutesThrough(b, a) {
      RoutesThroughBothWays(a, b);
    }
    if RoutesThrough(a, b) && RoutesThrough(b, c) {
      JoinOfUnsplice(a, b);
      JoinOfUnsplice(b, c);
      var x, y := Unsplice(a, b).value, Unsplice(b, c).value;
      JoinAssociative(x, y, c);
      UnspliceOfJoin(Join(x, y), c);
    }
  }

  lemma SplicePair(width: nat, a: nat, b: nat)
    requires width >= 5 && a > 0 && b > 0
    ensures Spliced(width, [a, b]) == if Hsb(a) + Hsb(b) <= Payload(width) - 1 then Ok(Join(a, b)) else Err(LabelTooLong)
  {
    hide Join, Up;
    assert [a, b][..1] == [a] && [a][..0] == [];
    assert HsbSum([a, b]) == HsbSum([a]) + Hsb(b) && HsbSum([a]) == Hsb(a);
    assert JoinAll([a]) == a && JoinAll([a, b]) == Join(JoinAll([a]), b);
  }

  /** `splice` of an unspliced route and its beginning gives the route back, if it fits the payload. */
  lemma SpliceOfUnsplice(width: nat, d: nat, m: nat)
    requires width >= 5 && d > 0 && m > 0 && RoutesThrough(d, m)
    ensures Unsplice(d, m).Ok?
    ensures Spliced(width, [Unsplice(d, m).value, m]) ==
            if Hsb(d) <= Payload(width) - 1 then Ok(d) else Err(LabelTooLong)
  {
    hide Join, RoutesThrough, Unsplice;
    JoinOfUnsplice(d, m);
    var u := Unsplice(d, m).value;
    HsbOfJoin(u, m);
    SplicePair(width, u, m);
  }

  /** Unsplices by each label in turn. */
  function UnspliceAll(lab: nat, path: seq<nat>): (r: Result<nat, SpliceError>)
    requires lab > 0 && forall i :: 0 <= i < |path| ==> path[i] > 0
    decreases path
  {
    if path == [] then Ok(lab)
    else match Unsplice(lab, path[0])
      case Ok(rest) => UnspliceAll(rest, path[1..])
      case Err(e) => Err(e)
  }

  /** Walking a spliced route hop by hop uses it up: what is left is the self-reference. */
  lemma {:induction false} UnspliceWholeRoute(path: seq<nat>)
    requires path != [] && forall i :: 0 <= i < |path| ==> path[i] > 0
    ensures UnspliceAll(JoinAll(Reversed(path)), path) == Ok(1)
  {
    hide Join, JoinAll, Unsplice;
    var first, rest := path[0], path[1..];
    JoinedBackwards(path);
    if |path| == 1 {
      UnspliceOfJoin(1, first);
    } else {
      UnspliceOfJoin(JoinAll(Reversed(rest)), first);
      UnspliceWholeRoute(rest);
    }
  }

  /** A route joined from its last hop to its first is the rest of it, continued by the first hop. */
  lemma JoinedBackwards(path: seq<nat>)
    requires path != [] && forall i :: 0 <= i < |path| ==> path[i] > 0
    ensures JoinAll(Reversed(path)) == Join(if |path| == 1 then 1 else JoinAll(Reversed(path[1..])), path[0])
  {
    hide Join;
    var back := Reversed(path);
    if |path| == 1 {
      JoinUnit(path[0]);
    } else {
      assert back[..|path| - 1] == Reversed(path[1..]);
    }
  }
}
