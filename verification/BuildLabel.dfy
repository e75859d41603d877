/** Building the label of a whole path from the labels of its hops (cjdns-core/src/splice.rs:316-365). */
module LabelBuilding {
  import opened Bits
  import opened Wrappers
  import opened Schemes
  import opened Splicing
  import opened ReEncoding

  /** A node on a path: its labels towards the previous and the next node. */
  datatype PathHop = PathHop(labelP: Option<nat>, labelN: Option<nat>, scheme: Scheme)

  ghost predicate IsOptLabel(width: nat, l: Option<nat>) {
    l.Some? ==> IsLabel(width, l.value)
  }

  ghost predicate WellFormedHop(width: nat, hop: PathHop) {
    && IsOptLabel(width, hop.labelP) && IsOptLabel(width, hop.labelN)
    && ValidScheme(hop.scheme) && Fits(width, hop.scheme)
  }

  /** The label used at a middle hop: re-encoded if the return label takes a wider form. */
  function HopLabel(width: nat, hop: PathHop): Result<nat, SpliceError>
    requires width >= 5 && Fits(width, hop.scheme)
  {
    if hop.labelP.None? || hop.labelN.None? then Err(BadArgument)
    else match EncodingForm(hop.labelP.value, hop.scheme)
      case Err(e) => Err(e)
      case Ok(p) =>
        match EncodingForm(hop.labelN.value, hop.scheme)
        case Err(e) => Err(e)
        case Ok(n) =>
          if hop.scheme[p].Size() > hop.scheme[n].Size()
          then ReEncode(width, hop.labelN.value, hop.scheme, Some(p))
          else Ok(hop.labelN.value)
  }

  /** Both labels are there and in some form, and the way forth can be widened where that is needed. */
  ghost predicate UsableHop(width: nat, hop: PathHop)
    requires width >= 5 && Fits(width, hop.scheme)
  {
    && hop.labelP.Some? && hop.labelN.Some?
    && EncodingForm(hop.labelP.value, hop.scheme).Ok? && EncodingForm(hop.labelN.value, hop.scheme).Ok?
    && (WiderBack(hop) ==> ReEncode(width, hop.labelN.value, hop.scheme, Some(EncodingForm(hop.labelP.value, hop.scheme).value)).Ok?)
  }

  /** The way back takes a wider form than the way forth. */
  ghost predicate WiderBack(hop: PathHop)
    requires hop.labelP.Some? && hop.labelN.Some?
    requires EncodingForm(hop.labelP.value, hop.scheme).Ok? && EncodingForm(hop.labelN.value, hop.scheme).Ok?
  {
    hop.scheme[EncodingForm(hop.labelP.value, hop.scheme).value].Size() >
    hop.scheme[EncodingForm(hop.labelN.value, hop.scheme).value].Size()
  }

  /** The label that leads on from a middle hop: its own, or its own in the wider form of the way back. */
  ghost predicate LeadsOn(width: nat, hop: PathHop, lab: nat)
    requires width >= 5 && Fits(width, hop.scheme) && UsableHop(width, hop)
  {
    if !WiderBack(hop) then lab == hop.labelN.value
    else KeepsMeaning(width, hop.labelN.value, lab, hop.scheme, EncodingForm(hop.labelP.value, hop.scheme).value)
  }

  lemma HopLabelIs(width: nat, hop: PathHop)
    requires width >= 11 && ValidScheme(hop.scheme) && Fits(width, hop.scheme)
    ensures HopLabel(width, hop).Ok? <==> UsableHop(width, hop)
    ensures HopLabel(width, hop).Ok? ==> LeadsOn(width, hop, HopLabel(width, hop).value)
    ensures hop.labelP.None? || hop.labelN.None? ==> HopLabel(width, hop) == Err(BadArgument)
  {
    hide EncodingForm, ReEncode, ValidScheme, KeepsMeaning;
    if HopLabel(width, hop).Ok? && WiderBack(hop) {
      ReEncodeKeepsMeaning(width, hop.labelN.value, hop.scheme, EncodingForm(hop.labelP.value, hop.scheme).value);
    }
  }

  /** Exactly the ends of the path lack a label, and every middle hop has usable ones. */
  ghost predicate Buildable(width: nat, hops: seq<PathHop>)
    requires width >= 5 && forall i :: 0 <= i < |hops| ==> WellFormedHop(width, hops[i])
  {
    var n := |hops| - 1;
    && n >= 1
    && hops[0].labelN.Some? && hops[0].labelP.None?
    && hops[n].labelP.Some? && hops[n].labelN.None?
    && forall i :: 1 <= i < n ==> WellFormedHop(width, hops[i]) && UsableHop(width, hops[i])
  }

  /** The labels along the path: the first hop's, then what leads on from each middle hop. */
  ghost predicate PathOf(width: nat, hops: seq<PathHop>, path: seq<nat>)
    requires width >= 5 && (forall i :: 0 <= i < |hops| ==> WellFormedHop(width, hops[i])) && Buildable(width, hops)
  {
    && |path| == |hops| - 1 && path[0] == hops[0].labelN.value
    && forall i :: 1 <= i < |path| ==> WellFormedHop(width, hops[i]) && LeadsOn(width, hops[i], path[i])
  }

  lemma AssembledInWord(width: nat, rest: nat, dir: nat, want: Form)
    requires width >= 5 && want.prefix < Pow2(want.prefixLen) && Assemble(width, rest, dir, want).Ok?
    ensures IsLabel(width, Assemble(width, rest, dir, want).value)
  {
    hide Up, Low, Or;
    var withDir := Or(Shl(width, rest, want.bitCount), dir);
    Pow2Monotone(want.prefixLen, width);
    OrParts(0, 0, width, Shl(width, withDir, want.prefixLen), want.prefix);
  }

  /** Any requested form is the form of the result, whether or not the director fits it. */
  lemma ReEncodedForm(width: nat, lab: nat, s: Scheme, k: nat)
    requires width >= 11 && ValidScheme(s) && Fits(width, s) && k < |s|
    requires ReEncode(width, lab, s, Some(k)).Ok?
    ensures IsLabel(width, ReEncode(width, lab, s, Some(k)).value)
    ensures PrefixFree(s) ==> EncodingForm(ReEncode(width, lab, s, Some(k)).value, s) == Ok(k)
  {
    hide Up, Low, Or, Director, Rest, EncodingForm, PrefixFree, Assemble, Distinguishable;
    assert s[k].Valid();
    var j := EncodingForm(lab, s).value;
    var rest, dir := Rest(lab, s[j]), Director(width, lab, s[j]);
    if s == V358 {
      hide V358;
      V358Unfolds(width, lab, j, k);
      dir := Converted(j, k, dir);
    } else {
      ReEncodeUnfolds(width, lab, s, j, Some(k));
    }
    AssembledInWord(width, rest, dir, s[k]);
    AssembledPrefix(width, rest, dir, s[k]);
    if PrefixFree(s) {
      FormByPrefix(ReEncode(width, lab, s, Some(k)).value, s, k);
    }
  }

  /** With prefix-free schemes the forward form of a middle hop is as wide as its return form. */
  lemma ForwardAtLeastAsWide(width: nat, hop: PathHop)
    requires width >= 11 && WellFormedHop(width, hop) && HopLabel(width, hop).Ok?
    ensures IsLabel(width, HopLabel(width, hop).value)
    ensures PrefixFree(hop.scheme) ==>
              && EncodingForm(hop.labelP.value, hop.scheme).Ok?
              && EncodingForm(HopLabel(width, hop).value, hop.scheme).Ok?
              && hop.scheme[EncodingForm(HopLabel(width, hop).value, hop.scheme).value].Size() >=
                 hop.scheme[EncodingForm(hop.labelP.value, hop.scheme).value].Size()
  {
    hide EncodingForm, ReEncode, PrefixFree, ValidScheme;
    var p := EncodingForm(hop.labelP.value, hop.scheme).value;
    var n := EncodingForm(hop.labelN.value, hop.scheme).value;
    if hop.scheme[p].Size() > hop.scheme[n].Size() {
      ReEncodedForm(width, hop.labelN.value, hop.scheme, p);
    }
  }

  method BuildLabel(width: nat, hops: seq<PathHop>) returns (r: Result<(nat, seq<nat>), SpliceError>)
    requires width >= 11 && forall i :: 0 <= i < |hops| ==> WellFormedHop(width, hops[i])
    ensures |hops| < 2 <==> r == Err(NotEnoughArguments)
    ensures |hops| >= 2 && (hops[0].labelN.None? || hops[0].labelP.Some?) ==> r == Err(BadArgument)
    ensures |hops| >= 2 && (hops[|hops| - 1].labelP.None? || hops[|hops| - 1].labelN.Some?) ==> r == Err(BadArgument)
    ensures r.Ok? ==> Buildable(width, hops) && PathOf(width, hops, r.value.1)
    ensures r.Ok? ==> r.value.0 > 0 && (forall i :: 0 <= i < |r.value.1| ==> r.value.1[i] > 0)
    ensures r.Ok? ==> UnspliceAll(r.value.0, r.value.1) == Ok(1)
    ensures Buildable(width, hops) ==> exists path ::
              && PathOf(width, hops, path) && (forall i :: 0 <= i < |path| ==> path[i] > 0)
              && (r.Ok? <==> |path| == 1 || HsbSum(Reversed(path)) <= width - 5)
              && (r.Ok? ==> path == r.value.1) && (r.Err? ==> r.error == LabelTooLong)
  {
    hide UnspliceAll, JoinAll, HsbSum, ReEncode, EncodingForm, ValidScheme, Distinguishable, Pow2, UsableHop, LeadsOn, HopLabel, Hsb;
    if |hops| < 2 {
      return Err(NotEnoughArguments);
    }
    var n := |hops| - 1;
    var first, last := hops[0], hops[n];
    if first.labelN.None? || last.labelP.None? || first.labelP.Some? || last.labelN.Some? {
      return Err(BadArgument);
    }
    var retPath := [first.labelN.value];
    for k := 1 to n
      invariant |retPath| == k && retPath[0] == first.labelN.value
      invariant forall i :: 1 <= i < k ==> WellFormedHop(width, hops[i]) && UsableHop(width, hops[i]) && LeadsOn(width, hops[i], retPath[i])
      invariant forall i :: 0 <= i < k ==> IsLabel(width, retPath[i])
    {
      HopLabelIs(width, hops[k]);
      var hopLabel := HopLabel(width, hops[k]);
      if hopLabel.Err? {
        assert !UsableHop(width, hops[k]);
        HopLabelError(width, hops[k]);
        return Err(hopLabel.error);
      }
      ForwardAtLeastAsWide(width, hops[k]);
      retPath := retPath + [hopLabel.value];
    }
    assert Buildable(width, hops) && PathOf(width, hops, retPath);
    UnspliceWholeRoute(retPath);
    if |retPath| > 1 {
      var spliced := Splice(width, Reversed(retPath));
      if spliced.Err? {
        return Err(spliced.error);
      }
      return Ok((spliced.value, retPath));
    }
    SingleRoute(retPath);
    return Ok((first.labelN.value, retPath));
  }

  lemma SingleRoute(path: seq<nat>)
    requires |path| == 1 && path[0] > 0
    ensures Reversed(path) == path && JoinAll(path) == path[0]
  {
  }

  lemma HopLabelError(width: nat, hop: PathHop)
    requires width >= 5 && Fits(width, hop.scheme) && HopLabel(width, hop).Err?
    ensures HopLabel(width, hop).error != NotEnoughArguments
  {
    hide Director, Rest, Or, Up, Low, Hsb;
  }
}
