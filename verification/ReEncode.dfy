/**
  Re-encoding the first director of a label in another form of its scheme
  (cjdns-core/src/splice.rs:159-168 and 199-255).
 */
module ReEncoding {
  import opened Bits
  import opened Wrappers
  import opened Schemes

  /** Bits that a director needs; zero needs one. */
  function DirectorBits(dir: nat): nat {
    if dir == 0 then 1 else Hsb(dir) + 1
  }

  /** Index, from `i` on, of the first narrowest form that has room for the director. */
  function ShortestFrom(dir: nat, s: Scheme, i: nat): (r: Result<nat, SpliceError>)
    requires i <= |s|
    ensures r.Ok? ==> i <= r.value < |s| && s[r.value].bitCount >= DirectorBits(dir)
    ensures r.Ok? ==> forall j :: i <= j < |s| && s[j].bitCount >= DirectorBits(dir) ==> s[r.value].bitCount <= s[j].bitCount
    ensures r.Ok? ==> forall j :: i <= j < r.value && s[j].bitCount >= DirectorBits(dir) ==> s[r.value].bitCount < s[j].bitCount
    ensures r.Err? ==> r.error == CannotFindForm && forall j :: i <= j < |s| ==> s[j].bitCount < DirectorBits(dir)
    decreases |s| - i
  {
    if i == |s| then Err(CannotFindForm)
    else
      var tail := ShortestFrom(dir, s, i + 1);
      if s[i].bitCount >= DirectorBits(dir) && (tail.Err? || s[i].bitCount <= s[tail.value].bitCount) then Ok(i)
      else tail
  }

  function DesiredForm(dir: nat, s: Scheme, desired: Option<nat>): (r: Result<nat, SpliceError>)
    ensures r.Ok? ==> r.value < |s|
  {
    match desired
    case Some(num) => if num >= |s| then Err(BadArgument) else Ok(num)
    case None => ShortestFrom(dir, s, 0)
  }

  /** Builds [rest][director][prefix]; nothing checks that the director fits its field. */
  function Assemble(width: nat, rest: nat, dir: nat, want: Form): Result<nat, SpliceError>
    requires width >= 5
  {
    if BitLength(rest) + want.bitCount + want.prefixLen > Payload(width) then Err(LabelTooLong)
    else
      var withDir := Or(Shl(width, rest, want.bitCount), dir);
      var bits := Or(Shl(width, withDir, want.prefixLen), want.prefix);
      if bits != 0 then Ok(bits) else Err(TryNewFailed)
  }

  /** Form 0 of the 3-5-8 scheme counts its directors from one. */
  predicate IsZeroForm(form: Form) {
    form == V358[0]
  }

  function ReEncode(width: nat, lab: nat, s: Scheme, desired: Option<nat>): Result<nat, SpliceError>
    requires width >= 5 && Fits(width, s)
  {
    match EncodingForm(lab, s)
    case Err(e) => Err(e)
    case Ok(j) =>
      var form := s[j];
      var dir := Director(width, lab, form);
      match DesiredForm(dir, s, desired)
      case Err(e) => Err(e)
      case Ok(k) =>
        var want := s[k];
        if s == V358 then
          // the form that decides the correction may differ from the one whose sizes are used
          var adjusted := if IsZeroForm(want) && dir == 7 then V358[1] else want;
          if IsZeroForm(form) && dir == 0 then Err(CannotReencode)
          else
            var plain := if IsZeroForm(form) then dir - 1 else dir;
            Assemble(width, Rest(lab, form), if IsZeroForm(adjusted) then plain + 1 else plain, want)
        else
          Assemble(width, Rest(lab, form), dir, want)
  }

  /** Shifting left in a word drops the bits that do not fit above the shift. */
  lemma ShlIsUp(width: nat, a: nat, n: nat)
    requires n <= width
    ensures Shl(width, a, n) == Up(Low(a, width - n), n)
  {
    hide Up, Low, Shr;
    var m := width - n;
    Recompose(a, m);
    UpSum(Up(Shr(a, m), m), Low(a, m), n);
    UpTwice(Shr(a, m), m, n);
    UpBelow(Low(a, m), n, 0, m);
    Parts(Shr(a, m), width, Up(Low(a, m), n));
  }

  /** Whatever the director, the result carries the wanted prefix. */
  lemma AssembledPrefix(width: nat, rest: nat, dir: nat, want: Form)
    requires width >= 5 && want.prefix < Pow2(want.prefixLen) && Assemble(width, rest, dir, want).Ok?
    ensures Low(Assemble(width, rest, dir, want).value, want.prefixLen) == want.prefix
  {
    hide Up, Low, Shr, Or;
    var withDir := Or(Shl(width, rest, want.bitCount), dir);
    ShlIsUp(width, withDir, want.prefixLen);
    var high := Low(withDir, width - want.prefixLen);
    OrDisjoint(high, want.prefixLen, want.prefix);
    Parts(high, want.prefixLen, want.prefix);
  }

  /** A director that fits is placed exactly between the rest and the prefix. */
  lemma AssembledExactly(width: nat, rest: nat, dir: nat, want: Form)
    requires width >= 5 && want.prefix < Pow2(want.prefixLen) && dir < Pow2(want.bitCount)
    requires BitLength(rest) + want.Size() <= Payload(width)
    ensures var bits := Up(Up(rest, want.bitCount) + dir, want.prefixLen) + want.prefix;
            && Assemble(width, rest, dir, want) == (if bits != 0 then Ok(bits) else Err(TryNewFailed))
            && bits < Pow2(BitLength(rest) + want.Size())
  {
    hide Up, Low, Or, Hsb;
    var n, b, p := BitLength(rest), want.bitCount, want.prefixLen;
    UpBelow(rest, b, dir, n);
    UpBelow(rest, b, 0, n);
    Pow2Monotone(n + b, width);
    LowFits(Up(rest, b), width);
    OrDisjoint(rest, b, dir);
    var withDir := Up(rest, b) + dir;
    UpBelow(withDir, p, want.prefix, n + b);
    UpBelow(withDir, p, 0, n + b);
    Pow2Monotone(n + b + p, width);
    LowFits(Up(withDir, p), width);
    OrDisjoint(withDir, p, want.prefix);
  }

  /** Outside the 3-5-8 scheme, re-encoding reads the parts of the label and assembles them anew. */
  lemma ReEncodeUnfolds(width: nat, lab: nat, s: Scheme, j: nat, desired: Option<nat>)
    requires width >= 5 && Fits(width, s) && s != V358
    requires EncodingForm(lab, s) == Ok(j)
    ensures var dir := Director(width, lab, s[j]);
            ReEncode(width, lab, s, desired) ==
            match DesiredForm(dir, s, desired)
            case Err(e) => Err(e)
            case Ok(k) => Assemble(width, Rest(lab, s[j]), dir, s[k])
  {
    hide Assemble, Director, Rest, EncodingForm, DesiredForm;
  }

  /**
    Re-encoding to a form that the director fits succeeds exactly when the result fits the payload
    (and is not the zero word), and then changes the form and nothing else.
   */
  lemma ReEncodeExact(width: nat, lab: nat, s: Scheme, j: nat, k: nat)
    requires width >= 5 && ValidScheme(s) && Fits(width, s) && PrefixFree(s) && s != V358
    requires EncodingForm(lab, s) == Ok(j) && k < |s|
    requires Director(width, lab, s[j]) < Pow2(s[k].bitCount)
    ensures var rest, dir := Rest(lab, s[j]), Director(width, lab, s[j]);
            var r := ReEncode(width, lab, s, Some(k));
            && (r.Ok? <==> BitLength(rest) + s[k].Size() <= Payload(width) && (rest > 0 || dir > 0 || s[k].prefix > 0))
            && (r.Ok? ==>
                  && EncodingForm(r.value, s) == Ok(k)
                  && Director(width, r.value, s[k]) == dir
                  && Rest(r.value, s[k]) == rest
                  && 0 < r.value < Pow2(Payload(width)))
  {
    hide Up, Low, Director, Rest, EncodingForm, PrefixFree, Distinguishable, Assemble, Hsb;
    var rest, dir, want := Rest(lab, s[j]), Director(width, lab, s[j]), s[k];
    ReEncodeUnfolds(width, lab, s, j, Some(k));
    assert want.Valid();
    if BitLength(rest) + want.Size() <= Payload(width) {
      AssembledExactly(width, rest, dir, want);
      AssembledParts(width, rest, dir, want);
      Pow2Monotone(BitLength(rest) + want.Size(), Payload(width));
      var bits := Up(Up(rest, want.bitCount) + dir, want.prefixLen) + want.prefix;
      FormByPrefix(bits, s, k);
      AssembledZero(rest, dir, want);
    } else {
      AssembleTooLong(width, rest, dir, want);
    }
  }

  lemma AssembledZero(rest: nat, dir: nat, want: Form)
    ensures Up(Up(rest, want.bitCount) + dir, want.prefixLen) + want.prefix == 0 <==>
            rest == 0 && dir == 0 && want.prefix == 0
  {
    UpIsTimes(0, want.bitCount);
    UpIsTimes(0, want.prefixLen);
    assert rest <= Up(rest, want.bitCount);
  }

  lemma AssembleTooLong(width: nat, rest: nat, dir: nat, want: Form)
    requires width >= 5 && BitLength(rest) + want.Size() > Payload(width)
    ensures Assemble(width, rest, dir, want) == Err(LabelTooLong)
  {
  }

  /** Re-encoding back to the original form restores the label whenever that form fits the payload. */
  lemma ReEncodeBack(width: nat, lab: nat, s: Scheme, j: nat, k: nat)
    requires width >= 5 && ValidScheme(s) && Fits(width, s) && PrefixFree(s) && s != V358
    requires lab > 0 && EncodingForm(lab, s) == Ok(j) && k < |s|
    requires Director(width, lab, s[j]) < Pow2(s[k].bitCount)
    requires ReEncode(width, lab, s, Some(k)).Ok?
    ensures ReEncode(width, ReEncode(width, lab, s, Some(k)).value, s, Some(j)) ==
            if BitLength(Rest(lab, s[j])) + s[j].Size() <= Payload(width) then Ok(lab) else Err(LabelTooLong)
  {
    hide Up, Low, Director, Rest, EncodingForm, PrefixFree, Distinguishable, Assemble, Hsb;
    var rest, dir := Rest(lab, s[j]), Director(width, lab, s[j]);
    var r := ReEncode(width, lab, s, Some(k)).value;
    assert s[j].Valid();
    ReEncodeExact(width, lab, s, j, k);
    ReEncodeUnfolds(width, r, s, k, Some(j));
    DirectorIsField(width, lab, s[j]);
    if BitLength(rest) + s[j].Size() <= Payload(width) {
      WholeLabel(width, s, lab, j);
    } else {
      AssembleTooLong(width, rest, dir, s[j]);
    }
  }

  /** With a bit above the first director, the form fits exactly when the label is payload-sized. */
  lemma PayloadSized(width: nat, lab: nat, form: Form)
    requires width >= 5 && Rest(lab, form) > 0
    ensures BitLength(Rest(lab, form)) + form.Size() <= Payload(width) <==> lab < Pow2(Payload(width))
  {
    hide Up, Low, Shr, Pow2, Hsb;
    HsbOfShifted(lab, form.Size());
    LengthFits(lab, Payload(width));
  }

  lemma HsbOfShifted(x: nat, n: nat)
    requires Shr(x, n) > 0
    ensures x > 0 && Hsb(x) == Hsb(Shr(x, n)) + n
  {
    hide Up, Low, Shr;
    var rest := Shr(x, n);
    Recompose(x, n);
    UpMonotone(Pow2(Hsb(rest)), rest, n);
    UpTwice(1, Hsb(rest), n);
    UpBelow(rest, n, Low(x, n), Hsb(rest) + 1);
    HsbUnique(x, Hsb(rest) + n);
  }

  /** The errors that do not depend on the size of the result. */
  lemma ReEncodeErrors(width: nat, lab: nat, s: Scheme, k: nat)
    requires width >= 5 && Fits(width, s)
    ensures EncodingForm(lab, s).Err? ==> ReEncode(width, lab, s, Some(k)) == ReEncode(width, lab, s, None) == Err(CannotFindForm)
    ensures EncodingForm(lab, s).Ok? && k >= |s| ==> ReEncode(width, lab, s, Some(k)) == Err(BadArgument)
  {
    hide Director, Assemble;
    var r := FormFrom(lab, s, 0);
  }

  /** Without a request the label goes to the first of the narrowest forms that hold its director, if there is one. */
  lemma CanonicalIsNarrowest(width: nat, lab: nat, s: Scheme, j: nat)
    requires width >= 5 && ValidScheme(s) && Fits(width, s) && PrefixFree(s) && s != V358
    requires EncodingForm(lab, s) == Ok(j)
    ensures var dir := Director(width, lab, s[j]);
            var r := ReEncode(width, lab, s, None);
            && (r == Err(CannotFindForm) <==> forall i :: 0 <= i < |s| ==> dir >= Pow2(s[i].bitCount))
            && (r.Ok? ==>
                  && EncodingForm(r.value, s).Ok?
                  && var k := EncodingForm(r.value, s).value;
                     && dir < Pow2(s[k].bitCount) && Director(width, r.value, s[k]) == dir && Rest(r.value, s[k]) == Rest(lab, s[j])
                     && (forall i :: 0 <= i < |s| && dir < Pow2(s[i].bitCount) ==> s[k].bitCount <= s[i].bitCount)
                     && (forall i :: 0 <= i < k && dir < Pow2(s[i].bitCount) ==> s[k].bitCount < s[i].bitCount))
  {
    hide Up, Low, Director, Rest, EncodingForm, PrefixFree, Distinguishable, Assemble, ReEncode, DirectorBits, Pow2;
    var dir := Director(width, lab, s[j]);
    var narrowest := ShortestFrom(dir, s, 0);
    forall i | 0 <= i < |s|
      ensures dir < Pow2(s[i].bitCount) <==> DirectorBits(dir) <= s[i].bitCount
    {
      assert s[i].Valid();
      FitsBits(dir, s[i].bitCount);
    }
    ReEncodeUnfolds(width, lab, s, j, None);
    if narrowest.Ok? {
      AssembleErrors(width, Rest(lab, s[j]), dir, s[narrowest.value]);
      ReEncodeUnfolds(width, lab, s, j, Some(narrowest.value));
      ReEncodeExact(width, lab, s, j, narrowest.value);
    }
  }

  lemma AssembleErrors(width: nat, rest: nat, dir: nat, want: Form)
    requires width >= 5
    ensures Assemble(width, rest, dir, want) != Err(CannotFindForm)
  {
    hide Or, Up, Low;
  }

  /** The director survives re-encoding exactly when it fits the requested form. */
  lemma DirectorKeptIffFits(width: nat, lab: nat, s: Scheme, j: nat, k: nat)
    requires width >= 5 && ValidScheme(s) && Fits(width, s) && PrefixFree(s) && s != V358
    requires EncodingForm(lab, s) == Ok(j) && k < |s|
    requires ReEncode(width, lab, s, Some(k)).Ok?
    ensures Director(width, ReEncode(width, lab, s, Some(k)).value, s[k]) == Director(width, lab, s[j]) <==>
            Director(width, lab, s[j]) < Pow2(s[k].bitCount)
  {
    hide Up, Low, Director, Rest, EncodingForm, PrefixFree, Distinguishable, Assemble, ReEncode;
    if Director(width, lab, s[j]) < Pow2(s[k].bitCount) {
      ReEncodeExact(width, lab, s, j, k);
    } else {
      DirectorIsField(width, ReEncode(width, lab, s, Some(k)).value, s[k]);
    }
  }

  const V48: Scheme := [Form(4, 1, 1), Form(8, 1, 0)]

  /**
    Director 200 of the wide form of the 4-8 scheme, asked into the narrow one, becomes director 8;
    its upper bits run into the rest of the route.
   */
  lemma DirectorIsLost()
    ensures ValidScheme(V48) && PrefixFree(V48) && Fits(64, V48)
    ensures EncodingForm(912, V48) == Ok(1) && Director(64, 912, V48[1]) == 200 && Rest(912, V48[1]) == 1
    ensures ReEncode(64, 912, V48, Some(0)) == Ok(433)
    ensures EncodingForm(433, V48) == Ok(0) && Director(64, 433, V48[0]) == 8 && Rest(433, V48[0]) == 13
  {
    hide Director, Rest, EncodingForm, PrefixFree, ValidScheme, ReEncode, Assemble;
    V48Reads();
    assert V48[1] != V358[1];
    ReEncodeUnfolds(64, 912, V48, 1, Some(0));
    LostInAssembly();
  }

  lemma V48Reads()
    ensures ValidScheme(V48) && PrefixFree(V48) && Fits(64, V48)
    ensures EncodingForm(912, V48) == Ok(1) && Director(64, 912, V48[1]) == 200 && Rest(912, V48[1]) == 1
    ensures EncodingForm(433, V48) == Ok(0) && Director(64, 433, V48[0]) == 8 && Rest(433, V48[0]) == 13
  {
    hide Up, Low, Director, Rest, EncodingForm, PrefixFree, ValidScheme, Pow2, LabelIn;
    OneBitPrefixes(V48);
    V48Numbers();
    AssembledReads(64, V48, 1, 200, 1);
    AssembledReads(64, V48, 13, 8, 0);
  }

  lemma V48Numbers()
    ensures LabelIn(V48[1], 1, 200) == 912 && LabelIn(V48[0], 13, 8) == 433
    ensures Pow2(1) == 2 && Pow2(4) == 16 && Pow2(8) == 256
  {
    assert Up(1, 5) == 32;
    assert Up(1, 8) == 256;
    assert Up(Up(1, 8) + 200, 1) + 0 == 912 && Up(Up(13, 4) + 8, 1) + 1 == 433;
  }

  lemma LostInAssembly()
    ensures Assemble(64, 1, 200, V48[0]) == Ok(433)
  {
    hide Up, Low;
    assert BitLength(1) == 1;
    assert Up(1, 4) == 16 && Up(216, 1) == 432 by {
      LostNumbers();
    }
    ShlSmall(1, 4, 16);
    ShlSmall(216, 1, 432);
    LostBits();
  }

  lemma LostNumbers()
    ensures Up(1, 4) == 16 && Up(216, 1) == 432 && Pow2(9) == 512
  {
    assert Up(1, 5) == 32;
  }

  lemma ShlSmall(a: nat, n: nat, r: nat)
    requires Up(a, n) == r < 512
    ensures Shl(64, a, n) == r
  {
    hide Up, Low;
    LostNumbers();
    Pow2Monotone(9, 64);
    LowFits(r, 64);
  }

  lemma LostBits()
    ensures Or(16, 200) == 216 && Or(432, 1) == 433
  {
    hide Or;
    OrZero(6);
    OrStep(0, 6, 1, 0);
    OrStep(1, 12, 0, 1);
    OrStep(2, 25, 0, 0);
    OrStep(4, 50, 0, 0);
    OrStep(8, 100, 0, 0);
    OrZero(216);
    OrStep(216, 0, 0, 1);
  }

  /** The canonical form is the narrowest that holds the director, and a detour does not change it. */
  lemma CanonicalAfterDetour(width: nat, lab: nat, s: Scheme, j: nat, k: nat)
    requires width >= 5 && ValidScheme(s) && Fits(width, s) && PrefixFree(s) && s != V358
    requires EncodingForm(lab, s) == Ok(j) && k < |s|
    requires Director(width, lab, s[j]) < Pow2(s[k].bitCount)
    requires ReEncode(width, lab, s, Some(k)).Ok?
    ensures ReEncode(width, ReEncode(width, lab, s, Some(k)).value, s, None) == ReEncode(width, lab, s, None)
    ensures ReEncode(width, lab, s, None) != Err(CannotFindForm)
  {
    hide Up, Low, Director, Rest, EncodingForm, PrefixFree, Distinguishable, Hsb;
    ReEncodeExact(width, lab, s, j, k);
    ReEncodeUnfolds(width, lab, s, j, None);
    ReEncodeUnfolds(width, ReEncode(width, lab, s, Some(k)).value, s, k, None);
    var dir := Director(width, lab, s[j]);
    FitsBits(dir, s[k].bitCount);
  }

  lemma FitsBits(dir: nat, n: nat)
    requires n >= 1
    ensures dir < Pow2(n) <==> DirectorBits(dir) <= n
  {
    LengthFits(dir, n);
  }

  lemma V358Forms()
    ensures forall i :: 0 <= i < 3 ==> V358[i].Valid()
    ensures forall width :: width >= 11 ==> Fits(width, V358)
  {
    assert Pow2(1) == 2 && Pow2(2) == 4;
  }

  lemma V358Facts()
    ensures ValidScheme(V358) && PrefixFree(V358)
  {
    hide Pow2, Low;
    V358Forms();
    V358Prefixes();
  }

  lemma V358Prefixes()
    ensures Low(2, 1) == 0 && Low(0, 1) == 0 && Low(2, 2) == 2 && Low(0, 2) == 0
  {
    hide Pow2;
  }

  /** The director that the 3-5-8 scheme writes in form `k` for director `dir` of form `j`. */
  function Converted(j: nat, k: nat, dir: nat): nat
    requires j == 0 ==> dir > 0
  {
    var plain := if j == 0 then dir - 1 else dir;
    if k == 0 && dir != 7 then plain + 1 else plain
  }

  lemma V358Unfolds(width: nat, lab: nat, j: nat, k: nat)
    requires width >= 11 && k < 3
    requires EncodingForm(lab, V358) == Ok(j)
    ensures Fits(width, V358)
    ensures var dir := Director(width, lab, V358[j]);
            ReEncode(width, lab, V358, Some(k)) ==
            if j == 0 && dir == 0 then Err(CannotReencode)
            else Assemble(width, Rest(lab, V358[j]), Converted(j, k, dir), V358[k])
  {
    hide Assemble, Director, Rest, EncodingForm;
  }

  /** A converted director that fits changes form and keeps the rest of the route. */
  lemma V358Exact(width: nat, lab: nat, j: nat, k: nat)
    requires width >= 11 && k < 3 && Fits(width, V358)
    requires EncodingForm(lab, V358) == Ok(j)
    requires ReEncode(width, lab, V358, Some(k)).Ok?
    ensures var dir := Director(width, lab, V358[j]);
            var r := ReEncode(width, lab, V358, Some(k)).value;
            && (j == 0 ==> dir > 0)
            && EncodingForm(r, V358) == Ok(k)
            && (Converted(j, k, dir) < Pow2(V358[k].bitCount) ==>
                  Director(width, r, V358[k]) == Converted(j, k, dir) && Rest(r, V358[k]) == Rest(lab, V358[j]))
  {
    hide Up, Low, Director, Rest, EncodingForm, PrefixFree, ValidScheme, Hsb, Or;
    V358Facts();
    V358Unfolds(width, lab, j, k);
    var rest, dir, want := Rest(lab, V358[j]), Director(width, lab, V358[j]), V358[k];
    var conv := Converted(j, k, dir);
    V358Forms();
    AssembledPrefix(width, rest, conv, want);
    FormByPrefix(ReEncode(width, lab, V358, Some(k)).value, V358, k);
    if conv < Pow2(want.bitCount) {
      AssembledExactly(width, rest, conv, want);
      AssembledParts(width, rest, conv, want);
    }
  }

  /**
    What re-encoding to form `k` keeps: the rest of the route, and the director, which the 3-5-8
    scheme converts, wherever the form takes it.
   */
  ghost predicate KeepsMeaning(width: nat, orig: nat, lab: nat, s: Scheme, k: nat)
    requires Fits(width, s) && k < |s|
  {
    && EncodingForm(orig, s).Ok?
    && var j := EncodingForm(orig, s).value;
       var dir := Director(width, orig, s[j]);
       var there := if s != V358 then dir else if j == 0 && dir == 0 then 0 else Converted(j, k, dir);
       PrefixFree(s) && there < Pow2(s[k].bitCount) ==>
         EncodingForm(lab, s) == Ok(k) && Director(width, lab, s[k]) == there && Rest(lab, s[k]) == Rest(orig, s[j])
  }

  lemma ReEncodeKeepsMeaning(width: nat, orig: nat, s: Scheme, k: nat)
    requires width >= 11 && ValidScheme(s) && Fits(width, s) && k < |s| && ReEncode(width, orig, s, Some(k)).Ok?
    ensures KeepsMeaning(width, orig, ReEncode(width, orig, s, Some(k)).value, s, k)
  {
    hide Director, Rest, EncodingForm, PrefixFree, ValidScheme, ReEncode, Converted, Pow2;
    ReEncodeErrors(width, orig, s, k);
    var j := EncodingForm(orig, s).value;
    if s == V358 {
      V358Exact(width, orig, j, k);
    } else if PrefixFree(s) && Director(width, orig, s[j]) < Pow2(s[k].bitCount) {
      ReEncodeExact(width, orig, s, j, k);
    }
  }

  /** What a caller can check before converting: directors that another form can take and give back. */
  predicate Convertible(j: nat, k: nat, dir: nat) {
    if k == 0 then dir <= 6 else j == 2 && k == 1 ==> dir <= 31
  }

  /** A convertible director fits, and converting it back gives the director one started from. */
  lemma ConvertedBack(j: nat, k: nat, dir: nat)
    requires j < 3 && k < 3 && dir < Pow2(V358[j].bitCount) && (j == 0 ==> dir > 0)
    ensures Convertible(j, k, dir) ==>
              && Converted(j, k, dir) < Pow2(V358[k].bitCount)
              && (k == 0 ==> Converted(j, k, dir) > 0)
              && Converted(k, j, Converted(j, k, dir)) == dir
    ensures !Convertible(j, k, dir) ==>
              forall e :: 0 <= e < Pow2(V358[k].bitCount) && (k == 0 ==> e > 0) && (j == 0 ==> e == 6) ==>
                Converted(k, j, e) != dir && Converted(k, j, e) < Pow2(V358[j].bitCount)
  {
    assert Pow2(3) == 8 && Pow2(5) == 32 && Pow2(8) == 256 by {
      assert Pow2(6) == 64;
    }
  }

  /**
    In the 3-5-8 scheme, converting the first director to form `k` and back restores the label
    exactly when the director is convertible. Directors 1 to 7 of form 0 always are, other
    than to form 0 itself; director 7 never survives a conversion to form 0.
   */
  lemma V358RoundTrip(width: nat, lab: nat, j: nat, k: nat)
    requires width >= 11 && k < 3 && Fits(width, V358)
    requires lab > 0 && EncodingForm(lab, V358) == Ok(j)
    requires BitLength(Rest(lab, V358[j])) + V358[j].Size() <= Payload(width)
    requires ReEncode(width, lab, V358, Some(k)).Ok?
    ensures ReEncode(width, ReEncode(width, lab, V358, Some(k)).value, V358, Some(j)) == Ok(lab) <==>
            Convertible(j, k, Director(width, lab, V358[j]))
  {
    hide Director, Rest, EncodingForm, ReEncode, Convertible, BitLength;
    var r := ReEncode(width, lab, V358, Some(k)).value;
    V358Exact(width, lab, j, k);
    if Convertible(j, k, Director(width, lab, V358[j])) {
      V358Return(width, lab, r, j, k);
    } else if ReEncode(width, r, V358, Some(j)) == Ok(lab) {
      V358NoReturn(width, lab, r, j, k);
    }
  }

  lemma V358Return(width: nat, lab: nat, r: nat, j: nat, k: nat)
    requires width >= 11 && k < 3 && Fits(width, V358)
    requires lab > 0 && EncodingForm(lab, V358) == Ok(j)
    requires BitLength(Rest(lab, V358[j])) + V358[j].Size() <= Payload(width)
    requires ReEncode(width, lab, V358, Some(k)) == Ok(r) && Convertible(j, k, Director(width, lab, V358[j]))
    ensures ReEncode(width, r, V358, Some(j)) == Ok(lab)
  {
    hide Up, Low, Shr, Director, Rest, EncodingForm, PrefixFree, ValidScheme, Assemble, ReEncode, Converted, Convertible, Pow2, BitLength;
    var dir := Director(width, lab, V358[j]);
    V358Facts();
    V358Exact(width, lab, j, k);
    V358Unfolds(width, r, k, j);
    DirectorIsField(width, lab, V358[j]);
    ConvertedBack(j, k, dir);
    WholeLabel(width, V358, lab, j);
  }

  /** A label that fits the payload is what its parts assemble to. */
  lemma WholeLabel(width: nat, s: Scheme, lab: nat, j: nat)
    requires width >= 5 && ValidScheme(s) && PrefixFree(s) && Fits(width, s)
    requires lab > 0 && EncodingForm(lab, s) == Ok(j)
    requires BitLength(Rest(lab, s[j])) + s[j].Size() <= Payload(width)
    ensures Assemble(width, Rest(lab, s[j]), Director(width, lab, s[j]), s[j]) == Ok(lab)
  {
    hide Up, Low, Shr, Director, Rest, EncodingForm, PrefixFree, Assemble, Pow2, BitLength, Distinguishable;
    var dir, rest := Director(width, lab, s[j]), Rest(lab, s[j]);
    assert s[j].Valid();
    DirectorIsField(width, lab, s[j]);
    AssembledExactly(width, rest, dir, s[j]);
    LabelParts(width, lab, s[j]);
    FormByPrefix(lab, s, j);
  }

  lemma V358NoReturn(width: nat, lab: nat, r: nat, j: nat, k: nat)
    requires width >= 11 && k < 3 && Fits(width, V358)
    requires EncodingForm(lab, V358) == Ok(j) && ReEncode(width, lab, V358, Some(k)) == Ok(r)
    requires EncodingForm(r, V358) == Ok(k) && ReEncode(width, r, V358, Some(j)) == Ok(lab)
    ensures Convertible(j, k, Director(width, lab, V358[j]))
  {
    hide Up, Low, Director, Rest, EncodingForm, ReEncode, Converted, Convertible, Pow2, Shr;
    var dir := Director(width, lab, V358[j]);
    V358Exact(width, lab, j, k);
    V358Exact(width, r, k, j);
    DirectorIsField(width, lab, V358[j]);
    DirectorIsField(width, r, V358[k]);
    if !Convertible(j, k, dir) {
      ConvertedBack(j, k, dir);
      NotConvertibleFromZero(j, k, dir);
    }
  }

  lemma NotConvertibleFromZero(j: nat, k: nat, dir: nat)
    requires j < 3 && k < 3 && dir < Pow2(V358[j].bitCount) && (j == 0 ==> dir > 0)
    requires !Convertible(j, k, dir)
    ensures j == 0 ==> k == 0 && dir == 7 && Converted(j, k, dir) == 6 && 6 < Pow2(V358[0].bitCount)
  {
    assert Pow2(3) == 8;
  }

  /**
    The smallest instance of the loss: director 7 of form 1, with nothing above it but the end of
    the route, goes to form 0 and comes back as director 6.
   */
  lemma SevenIsLost()
    ensures Fits(64, V358)
    ensures ReEncode(64, 158, V358, Some(0)) == Ok(31) && ReEncode(64, 31, V358, Some(1)) == Ok(154)
  {
    hide Pow2, ReEncode, BitLength, V358Label, Converted;
    SevenInNumbers();
    V358Moves(64, 1, 7, 1, 0);
    V358Moves(64, 1, 7, 0, 1);
  }

  /** The label with director `dir` in form `j` below the rest of the route. */
  function V358Label(rest: nat, dir: nat, j: nat): nat
    requires j < 3
  {
    LabelIn(V358[j], rest, dir)
  }

  lemma V358LabelReads(width: nat, rest: nat, dir: nat, j: nat)
    requires width >= 11 && j < 3 && dir < Pow2(V358[j].bitCount)
    ensures EncodingForm(V358Label(rest, dir, j), V358) == Ok(j) && V358[j].Size() <= width
    ensures Director(width, V358Label(rest, dir, j), V358[j]) == dir && Rest(V358Label(rest, dir, j), V358[j]) == rest
  {
    hide Up, Low, Director, Rest, EncodingForm, PrefixFree, ValidScheme, Pow2, LabelIn;
    V358Facts();
    AssembledReads(width, V358, rest, dir, j);
  }

  /** Where there is room, re-encoding writes the converted director and nothing else. */
  lemma V358Moves(width: nat, rest: nat, dir: nat, j: nat, k: nat)
    requires width >= 11 && Fits(width, V358) && j < 3 && k < 3 && rest > 0
    requires dir < Pow2(V358[j].bitCount) && (j == 0 ==> dir > 0) && Converted(j, k, dir) < Pow2(V358[k].bitCount)
    requires BitLength(rest) + V358[k].Size() <= Payload(width)
    ensures ReEncode(width, V358Label(rest, dir, j), V358, Some(k)) == Ok(V358Label(rest, Converted(j, k, dir), k))
  {
    hide Up, Director, Rest, EncodingForm, Pow2, ReEncode, Converted, Assemble, BitLength;
    var lab := V358Label(rest, dir, j);
    V358LabelReads(width, rest, dir, j);
    V358Unfolds(width, lab, j, k);
    assert V358[k].prefix < Pow2(V358[k].prefixLen) by {
      V358Forms();
    }
    AssembledExactly(width, rest, Converted(j, k, dir), V358[k]);
    AssembledZero(rest, Converted(j, k, dir), V358[k]);
  }

  lemma SevenInNumbers()
    ensures V358Label(1, 7, 1) == 158 && V358Label(1, 7, 0) == 31 && V358Label(1, 6, 1) == 154 && V358Label(1, 6, 0) == 29
    ensures Converted(1, 0, 7) == 7 && Converted(0, 1, 7) == 6 && Converted(0, 0, 7) == 6
    ensures Pow2(3) == 8 && Pow2(5) == 32 && BitLength(1) == 1
  {
    assert Up(Up(1, 5) + 7, 2) + 2 == 158 && Up(Up(1, 3) + 7, 1) + 1 == 31;
    assert Up(Up(1, 5) + 6, 2) + 2 == 154 && Up(Up(1, 3) + 6, 1) + 1 == 29;
  }

  // ---------------------------------------------------------------- the canonical form in the 3-5-8 scheme

  /** The form of the 3-5-8 scheme that is narrowest for a director as it stands in the label. */
  function Narrowest(dir: nat): nat {
    if dir < 8 then 0 else if dir < 32 then 1 else 2
  }

  /** The director that a form of the 3-5-8 scheme means. */
  function Plain(j: nat, dir: nat): int {
    if j == 0 then dir - 1 else dir
  }

  lemma V358Director(width: nat, lab: nat, j: nat)
    requires width >= 11 && EncodingForm(lab, V358) == Ok(j) && Fits(width, V358)
    ensures j < 3 && Director(width, lab, V358[j]) < 256 && (j == 0 ==> Director(width, lab, V358[j]) < 8)
    ensures ShortestFrom(Director(width, lab, V358[j]), V358, 0) == Ok(Narrowest(Director(width, lab, V358[j])))
  {
    hide Low, Shr, Director, EncodingForm, DirectorBits;
    var dir := Director(width, lab, V358[j]);
    DirectorIsField(width, lab, V358[j]);
    V358Powers();
    FitsBits(dir, 3);
    FitsBits(dir, 5);
    FitsBits(dir, 8);
  }

  lemma V358Powers()
    ensures Pow2(3) == 8 && Pow2(5) == 32 && Pow2(8) == 256
  {
    assert Pow2(6) == 64;
  }

  /** Asking for no form is asking for the narrowest one. */
  lemma V358None(width: nat, lab: nat, j: nat)
    requires width >= 11 && EncodingForm(lab, V358) == Ok(j) && Fits(width, V358)
    ensures ReEncode(width, lab, V358, None) == ReEncode(width, lab, V358, Some(Narrowest(Director(width, lab, V358[j]))))
  {
    hide Assemble, Director, Rest, EncodingForm, ShortestFrom;
    V358Director(width, lab, j);
  }

  lemma NarrowestTakes(j: nat, dir: nat)
    requires j < 3 && dir < 256 && (j == 0 ==> 0 < dir < 8)
    ensures Converted(j, Narrowest(dir), dir) < Pow2(V358[Narrowest(dir)].bitCount)
    ensures Plain(Narrowest(dir), Converted(j, Narrowest(dir), dir)) == Plain(j, dir) <==> dir != 7
  {
    V358Powers();
  }

  /** The canonical form keeps the rest of the route, and the director exactly unless it stands as 7 in the label. */
  lemma V358CanonicalKeeps(width: nat, lab: nat, j: nat)
    requires width >= 11 && EncodingForm(lab, V358) == Ok(j) && Fits(width, V358)
    requires ReEncode(width, lab, V358, None).Ok?
    ensures var r, dir := ReEncode(width, lab, V358, None).value, Director(width, lab, V358[j]);
            var k := Narrowest(dir);
            && EncodingForm(r, V358) == Ok(k)
            && Rest(r, V358[k]) == Rest(lab, V358[j])
            && (Plain(k, Director(width, r, V358[k])) == Plain(j, dir) <==> dir != 7)
  {
    hide ReEncode, Director, Rest, EncodingForm, ShortestFrom, Converted, Plain, Narrowest, Pow2, V358;
    var dir := Director(width, lab, V358[j]);
    V358None(width, lab, j);
    V358Director(width, lab, j);
    NarrowestInRange(dir);
    V358Exact(width, lab, j, Narrowest(dir));
    NarrowestTakes(j, dir);
  }

  lemma NarrowestInRange(dir: nat)
    ensures Narrowest(dir) < 3
  {
  }

  /** A form in between changes the canonical form exactly where form 0 is left or entered with a 7. */
  predicate DetourMatters(j: nat, k: nat, dir: nat) {
    (j == 0 && k != 0 && dir == 7) || (j != 0 && k == 0 && dir >= 6)
  }

  lemma DetourInNumbers(j: nat, k: nat, dir: nat)
    requires j < 3 && k < 3 && dir < 256 && (j == 0 ==> 0 < dir < 8)
    requires Converted(j, k, dir) < Pow2(V358[k].bitCount)
    ensures k == 0 ==> Converted(j, k, dir) > 0
    ensures var e := Converted(j, k, dir);
            if DetourMatters(j, k, dir)
            then Narrowest(dir) == Narrowest(e) == 0 && Converted(k, 0, e) < 8 && Converted(j, 0, dir) < 8 &&
                 Converted(k, 0, e) != Converted(j, 0, dir)
            else Narrowest(e) == Narrowest(dir) && Converted(k, Narrowest(e), e) == Converted(j, Narrowest(dir), dir)
  {
    V358Powers();
  }

  /** Canonical after a detour over form `k` is canonical without it, exactly unless the detour matters. */
  lemma V358CanonicalAfterDetour(width: nat, lab: nat, j: nat, k: nat)
    requires width >= 11 && k < 3 && Fits(width, V358)
    requires EncodingForm(lab, V358) == Ok(j) && ReEncode(width, lab, V358, Some(k)).Ok?
    requires var dir := Director(width, lab, V358[j]);
             (j == 0 ==> dir > 0) && Converted(j, k, dir) < Pow2(V358[k].bitCount)
    ensures ReEncode(width, ReEncode(width, lab, V358, Some(k)).value, V358, None) == ReEncode(width, lab, V358, None) <==>
            !DetourMatters(j, k, Director(width, lab, V358[j]))
  {
    hide ReEncode, Director, Rest, EncodingForm, ShortestFrom, Converted, Narrowest, Pow2, DetourMatters, Assemble, V358;
    var r, dir := ReEncode(width, lab, V358, Some(k)).value, Director(width, lab, V358[j]);
    V358Exact(width, lab, j, k);
    V358Director(width, lab, j);
    var rest, e := Rest(lab, V358[j]), Director(width, r, V358[k]);
    DetourInNumbers(j, k, dir);
    V358None(width, lab, j);
    V358None(width, r, k);
    NarrowestInRange(dir);
    NarrowestInRange(e);
    V358Unfolds(width, lab, j, Narrowest(dir));
    V358Unfolds(width, r, k, Narrowest(e));
    if DetourMatters(j, k, dir) {
      V358Unfolds(width, lab, j, k);
      ZeroFormHasRoom(width, rest, Converted(j, k, dir), k);
      ZeroFormTells(width, rest, Converted(j, 0, dir), Converted(k, 0, e));
    }
  }

  /** What fits in any form with a rest above it fits in form 0. */
  lemma ZeroFormHasRoom(width: nat, rest: nat, dir: nat, k: nat)
    requires width >= 5 && k < 3 && Assemble(width, rest, dir, V358[k]).Ok?
    ensures BitLength(rest) + V358[0].Size() <= Payload(width)
  {
  }

  lemma ZeroFormTells(width: nat, rest: nat, a: nat, b: nat)
    requires width >= 11 && BitLength(rest) + V358[0].Size() <= Payload(width) && a < 8 && b < 8 && a != b
    ensures Assemble(width, rest, a, V358[0]) != Assemble(width, rest, b, V358[0])
  {
    hide Up, Low, Assemble, Director, Pow2, BitLength;
    V358Powers();
    V358Forms();
    AssembledExactly(width, rest, a, V358[0]);
    AssembledExactly(width, rest, b, V358[0]);
    AssembledParts(width, rest, a, V358[0]);
    AssembledParts(width, rest, b, V358[0]);
  }

  /** Label 31 is where canonical re-encoding of 158 ends, and is not left alone by it: it moves on to 29. */
  lemma CanonicalTwice()
    ensures Fits(64, V358)
    ensures ReEncode(64, 158, V358, None) == Ok(31) && ReEncode(64, 31, V358, None) == Ok(29)
  {
    hide Pow2, ReEncode, BitLength, V358Label, Converted, EncodingForm, Director, Rest;
    SevenInNumbers();
    V358Moves(64, 1, 7, 1, 0);
    V358LabelReads(64, 1, 7, 1);
    V358None(64, 158, 1);
    V358Moves(64, 1, 7, 0, 0);
    V358LabelReads(64, 1, 7, 0);
    V358None(64, 31, 0);
  }
}
