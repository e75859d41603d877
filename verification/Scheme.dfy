/**
  Encoding schemes and their forms (the data part of cjdns-core/src/encoding.rs), and how a label
  is read with a scheme (cjdns-core/src/splice.rs:94-168).
 */
module Schemes {
  import opened Bits
  import opened Wrappers

  datatype SpliceError =
    | LabelTooLong
    | NotEnoughArguments
    | BadArgument
    | CannotFindForm
    | CannotReencode
    | TryNewFailed
    | RoutesThroughFailed
    | HighestSetBitIsBroken

  /** A director takes `bitCount` bits above a prefix of `prefixLen` bits. */
  datatype Form = Form(bitCount: nat, prefixLen: nat, prefix: nat) {
    function Size(): nat { bitCount + prefixLen }

    /** What the constructor lets through; its shift takes the prefix length modulo 32. */
    predicate Built() {
      1 <= bitCount <= 31 && prefixLen < 256 && prefix < Pow2(prefixLen % 32)
    }

    predicate Valid() {
      1 <= bitCount <= 31 && prefixLen <= 31 && prefix < Pow2(prefixLen)
    }
  }

  type Scheme = seq<Form>

  datatype SchemeError =
    | InvalidFormsAmount
    | SingleFormWithPrefix
    | MultiFormBadPrefix
    | BitCountNotSorted
    | TooBigForm
    | DuplicatePrefix

  const FORM_MAX_BIT_SIZE := 59

  /** Sizes in range, widths ascending and prefix values distinct: what several forms together must be. */
  ghost predicate Distinguishable(s: Scheme) {
    && (forall i :: 0 <= i < |s| ==> 1 <= s[i].prefixLen <= 31 && s[i].Size() <= FORM_MAX_BIT_SIZE)
    && (forall i, j :: 0 <= i < j < |s| ==> s[i].bitCount <= s[j].bitCount)
    && (forall i, j :: 0 <= i < j < |s| ==> s[i].prefix != s[j].prefix)
  }

  /** What `validate` accepts of forms that were built with `EncodingSchemeForm::try_new`. */
  ghost predicate ValidScheme(s: Scheme) {
    && 1 <= |s| <= 31
    && (forall i :: 0 <= i < |s| ==> s[i].Valid())
    && (if |s| == 1 then s[0].prefixLen == 0 else Distinguishable(s))
  }

  lemma DistinguishableStep(s: Scheme, k: nat)
    requires k < |s| && Distinguishable(s[..k])
    ensures Distinguishable(s[..k + 1]) <==>
            && 1 <= s[k].prefixLen <= 31 && s[k].Size() <= FORM_MAX_BIT_SIZE
            && (k > 0 ==> s[k - 1].bitCount <= s[k].bitCount)
            && s[k].prefix !in (set i | 0 <= i < k :: s[i].prefix)
  {
    var t, u := s[..k], s[..k + 1];
    assert forall i :: 0 <= i < k ==> u[i] == t[i] == s[i];
    assert u[k] == s[k];
  }

  lemma DistinguishableParts(s: Scheme, k: nat)
    requires k <= |s| && Distinguishable(s)
    ensures Distinguishable(s[..k])
  {
  }

  /** What is wrong with form `k`, by the first test it fails. */
  ghost predicate IsFault(forms: seq<Form>, k: nat, e: SchemeError)
    requires k < |forms|
  {
    var f := forms[k];
    if f.prefixLen == 0 || f.prefixLen > 31 then e == MultiFormBadPrefix
    else if k > 0 && forms[k - 1].bitCount > f.bitCount then e == BitCountNotSorted
    else if f.bitCount + f.prefixLen > 59 then e == TooBigForm
    else e == DuplicatePrefix && exists i :: 0 <= i < k && forms[i].prefix == f.prefix
  }

  /** Forms are accepted exactly when they make up a valid scheme. */
  method Validate(forms: seq<Form>) returns (r: Result<(), SchemeError>)
    requires forall i :: 0 <= i < |forms| ==> forms[i].Built()
    ensures r.Ok? <==> ValidScheme(forms)
    ensures r == Err(InvalidFormsAmount) <==> |forms| == 0 || |forms| > 31
    ensures r == Err(SingleFormWithPrefix) <==> |forms| == 1 && forms[0].prefixLen != 0
    ensures r.Err? && 1 < |forms| <= 31 ==> exists k :: 0 <= k < |forms| && Distinguishable(forms[..k]) && IsFault(forms, k, r.error)
  {
    hide Distinguishable, Form.Built, Form.Valid;
    BuiltIsValid(forms);
    if |forms| == 0 || |forms| > 31 {
      return Err(InvalidFormsAmount);
    }
    if |forms| == 1 {
      var form := forms[0];
      if form.prefixLen != 0 || form.prefix != 0 {
        return Err(SingleFormWithPrefix);
      }
      return Ok(());
    }
    var lastBitCount := 0;
    var usedPrefixes: set<nat> := {};
    NoForms();
    for k := 0 to |forms|
      invariant Distinguishable(forms[..k])
      invariant lastBitCount == if k == 0 then 0 else forms[k - 1].bitCount
      invariant usedPrefixes == set i | 0 <= i < k :: forms[i].prefix
    {
      var form := forms[k];
      DistinguishableStep(forms, k);
      if Distinguishable(forms) {
        DistinguishableParts(forms, k + 1);
      }
      if form.prefixLen == 0 || form.prefixLen > 31 {
        return Err(MultiFormBadPrefix);
      }
      if lastBitCount > form.bitCount {
        return Err(BitCountNotSorted);
      }
      lastBitCount := form.bitCount;
      if form.Size() > FORM_MAX_BIT_SIZE {
        return Err(TooBigForm);
      }
      if form.prefix in usedPrefixes {
        return Err(DuplicatePrefix);
      }
      usedPrefixes := usedPrefixes + {form.prefix};
    }
    assert forms[..|forms|] == forms;
    return Ok(());
  }

  /** Of what the constructor lets through, the prefix lengths decide what is valid. */
  lemma BuiltIsValid(forms: seq<Form>)
    requires forall i :: 0 <= i < |forms| ==> forms[i].Built()
    ensures forall i :: 0 <= i < |forms| ==> (forms[i].Valid() <==> forms[i].prefixLen <= 31)
    ensures forall i :: 0 <= i < |forms| && forms[i].prefixLen == 0 ==> forms[i].prefix == 0
    ensures Distinguishable(forms) ==> forall i :: 0 <= i < |forms| ==> forms[i].prefixLen <= 31
  {
    forall i | 0 <= i < |forms|
      ensures forms[i].Valid() <==> forms[i].prefixLen <= 31
      ensures forms[i].prefixLen == 0 ==> forms[i].prefix == 0
    {
      assert forms[i].Built();
      assert forms[i].prefixLen <= 31 ==> forms[i].prefixLen % 32 == forms[i].prefixLen;
    }
  }

  lemma ValidIsBuilt(forms: seq<Form>)
    requires forall i :: 0 <= i < |forms| ==> forms[i].Valid()
    ensures forall i :: 0 <= i < |forms| ==> forms[i].Built()
  {
    forall i | 0 <= i < |forms|
      ensures forms[i].Built()
    {
      assert forms[i].Valid() && forms[i].prefixLen % 32 == forms[i].prefixLen;
    }
  }

  lemma NoForms()
    ensures Distinguishable([])
  {
  }

  const V358: Scheme := [Form(3, 1, 1), Form(5, 2, 2), Form(8, 2, 0)]

  /** A non-zero word of the given width. */
  ghost predicate IsLabel(width: nat, lab: nat) {
    0 < lab < Pow2(width)
  }

  /** Bits a label payload may take: four are reserved. */
  function Payload(width: nat): nat
    requires width >= 5
  {
    width - 4
  }

  /** Every form of the scheme is narrower than the word. */
  ghost predicate Fits(width: nat, s: Scheme) {
    forall i :: 0 <= i < |s| ==> s[i].Size() < width
  }

  predicate Matches(form: Form, lab: nat) {
    form.prefixLen == 0 || And(lab, Pow2(form.prefixLen) - 1) == form.prefix
  }

  /** Index of the first form at or after `i` whose prefix the label carries. */
  function FormFrom(lab: nat, s: Scheme, i: nat): (r: Result<nat, SpliceError>)
    requires i <= |s|
    ensures r.Ok? ==> i <= r.value < |s| && Matches(s[r.value], lab)
    ensures r.Ok? ==> forall j :: i <= j < r.value ==> !Matches(s[j], lab)
    ensures r.Err? ==> r.error == CannotFindForm && forall j :: i <= j < |s| ==> !Matches(s[j], lab)
    decreases |s| - i
  {
    if i == |s| then Err(CannotFindForm)
    else if Matches(s[i], lab) then Ok(i)
    else FormFrom(lab, s, i + 1)
  }

  /** Index of the form used for the first director of the label. */
  function EncodingForm(lab: nat, s: Scheme): (r: Result<nat, SpliceError>)
    ensures r.Ok? ==> r.value < |s| && Matches(s[r.value], lab)
  {
    FormFrom(lab, s, 0)
  }

  /** Shifts the director down by way of the top of the word, which cuts off what is above it. */
  function Director(width: nat, lab: nat, form: Form): nat
    requires form.Size() <= width
  {
    var padding := width - form.bitCount - form.prefixLen;
    Shr(Shl(width, lab, padding), padding + form.prefixLen)
  }

  /** The part of the label above its first director. */
  function Rest(lab: nat, form: Form): nat {
    Shr(lab, form.Size())
  }

  /** No prefix is the beginning of another one. */
  ghost predicate PrefixFree(s: Scheme) {
    forall i, j :: 0 <= i < |s| && 0 <= j < |s| && i != j && s[i].prefixLen <= s[j].prefixLen ==>
      s[i].prefix != Low(s[j].prefix, s[i].prefixLen)
  }

  /** In a prefix-free scheme the low bits alone decide the form. */
  lemma FormByPrefix(lab: nat, s: Scheme, k: nat)
    requires ValidScheme(s) && PrefixFree(s) && k < |s|
    ensures EncodingForm(lab, s) == Ok(k) <==> Low(lab, s[k].prefixLen) == s[k].prefix
  {
    forall i | 0 <= i < |s|
      ensures Matches(s[i], lab) <==> Low(lab, s[i].prefixLen) == s[i].prefix
    {
      AndMask(lab, s[i].prefixLen);
    }
    if Low(lab, s[k].prefixLen) == s[k].prefix {
      forall j | 0 <= j < |s| && j != k
        ensures !Matches(s[j], lab)
      {
        if s[j].prefixLen <= s[k].prefixLen {
          LowTwice(lab, s[j].prefixLen, s[k].prefixLen);
        } else {
          LowTwice(lab, s[k].prefixLen, s[j].prefixLen);
        }
      }
      var r := EncodingForm(lab, s);
    }
  }

  /** The director is the field of `bitCount` bits above the prefix. */
  lemma DirectorIsField(width: nat, lab: nat, form: Form)
    requires form.Size() <= width
    ensures Director(width, lab, form) == Low(Shr(lab, form.prefixLen), form.bitCount)
  {
    hide Up, Low, Shr;
    var size := form.Size();
    var padding := width - size;
    // the shift up keeps the low `size` bits, moved up by `padding`
    Recompose(lab, size);
    UpSum(Up(Shr(lab, size), size), Low(lab, size), padding);
    UpTwice(Shr(lab, size), size, padding);
    UpBelow(Low(lab, size), padding, 0, size);
    UpIsTimes(0, padding);
    Parts(Shr(lab, size), width, Up(Low(lab, size), padding));
    assert Shl(width, lab, padding) == Up(Low(lab, size), padding);
    // the shift down drops the padding and the prefix
    ShrTwice(Up(Low(lab, size), padding), padding, form.prefixLen);
    Parts(Low(lab, size), padding, 0);
    ShrOfLow(lab, form.prefixLen, form.bitCount);
  }

  lemma {:induction false} ShrOfLow(x: nat, m: nat, n: nat)
    ensures Shr(Low(x, n + m), m) == Low(Shr(x, m), n)
  {
    if m > 0 {
      ShrOfLow(x / 2, m - 1, n);
    }
  }

  /** A label is its rest, its director and its prefix side by side. */
  lemma LabelParts(width: nat, lab: nat, form: Form)
    requires form.Size() <= width
    ensures lab == Up(Up(Rest(lab, form), form.bitCount) + Director(width, lab, form), form.prefixLen)
                     + Low(lab, form.prefixLen)
  {
    hide Up, Low, Shr, Director;
    DirectorIsField(width, lab, form);
    Recompose(lab, form.prefixLen);
    Recompose(Shr(lab, form.prefixLen), form.bitCount);
    ShrTwice(lab, form.prefixLen, form.bitCount);
  }

  /** Rest, director and prefix are recovered from a label assembled from them. */
  lemma AssembledParts(width: nat, rest: nat, dir: nat, form: Form)
    requires form.Size() <= width && dir < Pow2(form.bitCount) && form.prefix < Pow2(form.prefixLen)
    ensures var lab := Up(Up(rest, form.bitCount) + dir, form.prefixLen) + form.prefix;
            && Low(lab, form.prefixLen) == form.prefix
            && Director(width, lab, form) == dir
            && Rest(lab, form) == rest
  {
    hide Up, Low, Shr, Director;
    var lab := Up(Up(rest, form.bitCount) + dir, form.prefixLen) + form.prefix;
    DirectorIsField(width, lab, form);
    Parts(Up(rest, form.bitCount) + dir, form.prefixLen, form.prefix);
    Parts(rest, form.bitCount, dir);
    ShrTwice(lab, form.prefixLen, form.bitCount);
  }

  /** The label with a director in a form below the rest of the route. */
  function LabelIn(form: Form, rest: nat, dir: nat): nat {
    Up(Up(rest, form.bitCount) + dir, form.prefixLen) + form.prefix
  }

  /** With prefix-free forms, a label assembled in a form is read in that form. */
  lemma AssembledReads(width: nat, s: Scheme, rest: nat, dir: nat, k: nat)
    requires ValidScheme(s) && PrefixFree(s) && k < |s| && s[k].Size() <= width && dir < Pow2(s[k].bitCount)
    ensures var lab := LabelIn(s[k], rest, dir);
            EncodingForm(lab, s) == Ok(k) && Director(width, lab, s[k]) == dir && Rest(lab, s[k]) == rest
  {
    hide Up, Low, Director, Rest, EncodingForm, PrefixFree, Distinguishable;
    assert s[k].Valid();
    AssembledParts(width, rest, dir, s[k]);
    FormByPrefix(LabelIn(s[k], rest, dir), s, k);
  }

  /** Two forms told apart by one bit make up a prefix-free scheme. */
  lemma OneBitPrefixes(s: Scheme)
    requires |s| == 2 && s[0].prefixLen == s[1].prefixLen == 1 && {s[0].prefix, s[1].prefix} == {0, 1}
    requires 1 <= s[0].bitCount <= s[1].bitCount <= 31
    ensures ValidScheme(s) && PrefixFree(s)
  {
    hide Pow2, Low;
    assert s[0].prefix + s[1].prefix == 1 by {
      assert s[0].prefix in {0, 1} && s[1].prefix in {0, 1} && 0 in {s[0].prefix, s[1].prefix} && 1 in {s[0].prefix, s[1].prefix};
    }
    OneBit();
  }

  lemma OneBit()
    ensures Pow2(1) == 2 && Low(0, 1) == 0 && Low(1, 1) == 1
  {
  }
}
