/**
  The bit-packed form of encoding schemes (cjdns-core/src/encoding.rs:49-169).

  A byte vector is read as one little-endian number; a form is a word of 10 + prefixLen bits
  in it: five bits of prefix length, five bits of bit count, then the prefix.
 */
module SchemeCodec {
  import opened Bits
  import opened Wrappers
  import opened Schemes

  /** `Panic` stands for the arithmetic underflows and failed expectations of the decoder. */
  datatype CodecError = BadEncodingForm | BadSerializedData | Panic

  /** The little-endian value of a byte vector. */
  ghost function Value(bytes: seq<Byte>): nat {
    if bytes == [] then 0
    else Value(bytes[..|bytes| - 1]) + Up(bytes[|bytes| - 1], 8 * (|bytes| - 1))
  }

  lemma SmallPowers()
    ensures Pow2(0) == 1 && Pow2(5) == 32 && Pow2(8) == 256
  {
    assert Pow2(3) == 8;
  }

  function FormBits(f: Form): nat {
    10 + f.prefixLen
  }

  ghost function FormWord(f: Form): nat {
    Up(Up(f.prefix, 5) + f.bitCount, 5) + f.prefixLen
  }

  ghost function TotalBits(s: Scheme): nat {
    if s == [] then 0 else FormBits(s[0]) + TotalBits(s[1..])
  }

  /** The words of the forms side by side, the first one lowest. */
  ghost function Packed(s: Scheme): nat {
    if s == [] then 0 else FormWord(s[0]) + Up(Packed(s[1..]), FormBits(s[0]))
  }

  /** The packed words, in as few bytes as will hold them. */
  ghost predicate Serialization(s: Scheme, bytes: seq<Byte>) {
    Value(bytes) == Packed(s) && TotalBits(s) <= 8 * |bytes| < TotalBits(s) + 8
  }

  lemma {:induction false} PackedMore(s: Scheme, f: Form)
    ensures Packed(s + [f]) == Packed(s) + Up(FormWord(f), TotalBits(s))
    ensures TotalBits(s + [f]) == TotalBits(s) + FormBits(f)
  {
    hide Up, FormWord;
    if s == [] {
      assert [f][1..] == [];
      UpByZero(FormWord(f));
      UpIsTimes(0, FormBits(f));
    } else {
      assert (s + [f])[1..] == s[1..] + [f];
      PackedMore(s[1..], f);
      UpSum(Packed(s[1..]), Up(FormWord(f), TotalBits(s[1..])), FormBits(s[0]));
      UpTwice(FormWord(f), TotalBits(s[1..]), FormBits(s[0]));
    }
  }

  lemma FormWordParts(f: Form)
    requires f.Valid()
    ensures FormWord(f) < Pow2(FormBits(f))
    ensures Low(FormWord(f), 5) == f.prefixLen
    ensures Low(Shr(FormWord(f), 5), 5) == f.bitCount
    ensures Shr(FormWord(f), 10) == f.prefix
  {
    hide Up, Low, Shr;
    SmallPowers();
    Parts(Up(f.prefix, 5) + f.bitCount, 5, f.prefixLen);
    Parts(f.prefix, 5, f.bitCount);
    ShrTwice(FormWord(f), 5, 5);
    UpBelow(f.prefix, 5, f.bitCount, f.prefixLen);
    UpBelow(Up(f.prefix, 5) + f.bitCount, 5, f.prefixLen, f.prefixLen + 5);
  }

  /** Reads forms off the low end of `n`, which has `left` bits; under ten bits are padding. */
  function DecodeForms(n: nat, left: nat): Result<Scheme, CodecError>
    decreases left
  {
    if left < 10 then Err(Panic)
    else
      var prefixLen := Low(n, 5);
      var bitCount := Low(Shr(n, 5), 5);
      if left - 10 < prefixLen || bitCount == 0 then Err(Panic)
      else
        var form := Form(bitCount, prefixLen, Low(Shr(n, 10), prefixLen));
        if left - 10 - prefixLen < 10 then Ok([form])
        else match DecodeForms(Shr(n, 10 + prefixLen), left - 10 - prefixLen)
          case Ok(forms) => Ok([form] + forms)
          case Err(e) => Err(e)
  }

  /** What the decoder makes of any bytes. */
  ghost function Deserialized(bytes: seq<Byte>): Result<Scheme, CodecError> {
    if |bytes| < 2 then Err(BadSerializedData)
    else match DecodeForms(Value(bytes), 8 * |bytes|)
      case Err(e) => Err(e)
      case Ok(forms) => if ValidScheme(forms) then Ok(forms) else Err(BadSerializedData)
  }

  /** The low part of a sum is not touched by what is added above it. */
  lemma LowOfSum(a: nat, b: nat, n: nat, m: nat)
    requires a < Pow2(n) && m <= n
    ensures Low(a + Up(b, n), m) == Low(a, m)
    ensures Low(a + Up(b, n), n) == a && Shr(a + Up(b, n), n) == b
  {
    hide Up, Low, Shr;
    Parts(b, n, a);
    LowTwice(a + Up(b, n), m, n);
  }

  lemma {:induction false} ShrOfSum(a: nat, b: nat, n: nat, m: nat)
    requires m <= n
    ensures Shr(a + Up(b, n), m) == Shr(a, m) + Up(b, n - m)
  {
    hide Up;
    if m > 0 {
      Halve(b, n, a);
      assert (a + Up(b, n)) / 2 == a / 2 + Up(b, n - 1);
      ShrOfSum(a / 2, b, n - 1, m - 1);
    }
  }

  lemma {:induction false} DecodePacked(s: Scheme, left: nat)
    requires s != [] && forall i :: 0 <= i < |s| ==> s[i].Valid()
    requires TotalBits(s) <= left < TotalBits(s) + 8
    ensures DecodeForms(Packed(s), left) == Ok(s)
  {
    hide Up, Low, Shr, FormWord;
    var f, rest := s[0], s[1..];
    var n, above := Packed(s), Packed(rest);
    var k := FormBits(f);
    assert s == [f] + rest;
    FirstForm(f, above);
    if rest == [] {
      assert s == [f];
    } else {
      assert TotalBits(rest) >= 10 by {
        assert rest[0] == s[1];
      }
      DecodePacked(rest, left - k);
    }
  }

  /** The low bits are those of the two parts they consist of. */
  lemma LowSplit(x: nat, a: nat, b: nat)
    ensures Low(x, a + b) == Low(x, a) + Up(Low(Shr(x, a), b), a)
  {
    hide Low, Shr, Up;
    var low := Low(x, a + b);
    Recompose(low, a);
    LowTwice(x, a, a + b);
    ShrOfLow(x, a, b);
  }

  /** A number that begins with packed forms is those forms and what is above them. */
  lemma StartsPacked(n: nat, f: Form, rest: Scheme)
    requires Low(n, TotalBits([f] + rest)) == Packed([f] + rest)
    ensures n == FormWord(f) + Up(Shr(n, FormBits(f)), FormBits(f)) || FormWord(f) >= Pow2(FormBits(f))
    ensures FormWord(f) < Pow2(FormBits(f)) ==> Low(Shr(n, FormBits(f)), TotalBits(rest)) == Packed(rest)
  {
    hide Low, Shr, Up, FormWord;
    var k, t := FormBits(f), TotalBits(rest);
    assert ([f] + rest)[1..] == rest;
    LowSplit(n, k, t);
    Recompose(n, k);
    if FormWord(f) < Pow2(k) {
      Parts(Low(Shr(n, k), t), k, Low(n, k));
      Parts(Packed(rest), k, FormWord(f));
    }
  }

  /** What the decoder reads is what the bits say: exactly the forms that are packed in the low bits, with less than ten left. */
  lemma {:induction false} DecodeIff(n: nat, left: nat, s: Scheme)
    ensures DecodeForms(n, left) == Ok(s) <==>
            && s != [] && (forall i :: 0 <= i < |s| ==> s[i].Valid())
            && TotalBits(s) <= left < TotalBits(s) + 10 && Low(n, TotalBits(s)) == Packed(s)
    decreases left
  {
    if DecodeForms(n, left) == Ok(s) {
      DecodedIsPacked(n, left);
    }
    if s != [] && (forall i :: 0 <= i < |s| ==> s[i].Valid()) && TotalBits(s) <= left < TotalBits(s) + 10 && Low(n, TotalBits(s)) == Packed(s) {
      PackedIsDecoded(n, left, s);
    }
  }

  lemma {:induction false} PackedIsDecoded(n: nat, left: nat, s: Scheme)
    requires s != [] && forall i :: 0 <= i < |s| ==> s[i].Valid()
    requires TotalBits(s) <= left < TotalBits(s) + 10 && Low(n, TotalBits(s)) == Packed(s)
    ensures DecodeForms(n, left) == Ok(s)
    decreases |s|
  {
    hide Up, Low, Shr, FormWord;
    var f, rest := s[0], s[1..];
    assert s == [f] + rest;
    FormWordParts(f);
    StartsPacked(n, f, rest);
    FirstForm(f, Shr(n, FormBits(f)));
    if rest == [] {
      assert s == [f];
    } else {
      assert TotalBits(rest) >= 10 by {
        assert rest[0] == s[1];
      }
      PackedIsDecoded(Shr(n, FormBits(f)), left - FormBits(f), rest);
    }
  }

  lemma {:induction false} DecodedIsPacked(n: nat, left: nat)
    requires DecodeForms(n, left).Ok?
    ensures var s := DecodeForms(n, left).value;
            && s != [] && (forall i :: 0 <= i < |s| ==> s[i].Valid())
            && TotalBits(s) <= left < TotalBits(s) + 10 && Low(n, TotalBits(s)) == Packed(s)
    decreases left
  {
    hide Up, Low, Shr;
    SmallPowers();
    var p, b := Low(n, 5), Low(Shr(n, 5), 5);
    var f, k := Form(b, p, Low(Shr(n, 10), p)), 10 + p;
    var s := DecodeForms(n, left).value;
    WordIsLow(n);
    if left - k < 10 {
      assert s == [f] && [f][1..] == [];
      PackedOne(f);
    } else {
      DecodedIsPacked(Shr(n, k), left - k);
      var rest := DecodeForms(Shr(n, k), left - k).value;
      assert s == [f] + rest && s[1..] == rest;
      LowSplit(n, k, TotalBits(rest));
    }
  }

  lemma PackedOne(f: Form)
    ensures Packed([f]) == FormWord(f) && TotalBits([f]) == FormBits(f)
  {
    hide FormWord;
    assert [f][1..] == [];
    UpIsTimes(0, FormBits(f));
  }

  lemma WordIsLow(n: nat)
    ensures var p := Low(n, 5);
            FormWord(Form(Low(Shr(n, 5), 5), p, Low(Shr(n, 10), p))) == Low(n, 10 + p)
  {
    hide Low, Shr, Up;
    var p := Low(n, 5);
    LowSplit(n, 5, 5 + p);
    LowSplit(Shr(n, 5), 5, p);
    ShrTwice(n, 5, 5);
    UpSum(Low(Shr(n, 5), 5), Up(Low(Shr(n, 10), p), 5), 5);
    UpTwice(Low(Shr(n, 10), p), 5, 5);
  }

  /** The lowest form of a packed scheme is the one that is read, and the rest is what is above it. */
  lemma FirstForm(f: Form, above: nat)
    requires f.Valid()
    ensures var n := FormWord(f) + Up(above, FormBits(f));
            && Low(n, 5) == f.prefixLen
            && Low(Shr(n, 5), 5) == f.bitCount
            && Low(Shr(n, 10), f.prefixLen) == f.prefix
            && Shr(n, FormBits(f)) == above
  {
    hide Up, Low, Shr, FormWord;
    var w, k := FormWord(f), FormBits(f);
    FormWordParts(f);
    LowOfSum(w, above, k, 5);
    ShrOfSum(w, above, k, 5);
    ShrOfSum(w, above, k, 10);
    Recompose(Shr(w, 5), 5);
    ShrBelow(w, 5, k - 5);
    LowOfSum(Shr(w, 5), above, k - 5, 5);
    LowOfSum(f.prefix, above, f.prefixLen, f.prefixLen);
  }

  lemma {:induction false} ShrBelow(w: nat, n: nat, m: nat)
    requires w < Pow2(m + n)
    ensures Shr(w, n) < Pow2(m)
  {
    if n > 0 {
      Halve(0, m + n, w);
      ShrBelow(w / 2, n - 1, m);
    }
  }

  /** Decoding undoes packing: every valid scheme comes back, and the final padding is never read as a form. */
  lemma RoundTrip(s: Scheme, bytes: seq<Byte>)
    requires ValidScheme(s) && Serialization(s, bytes)
    ensures Deserialized(bytes) == Ok(s)
  {
    hide Distinguishable, DecodeForms, Packed, Value;
    DecodePacked(s, 8 * |bytes|);
    assert TotalBits(s) >= 10;
  }

  /** The bytes that are accepted for a scheme: a valid one, packed in their low bits, with less than ten bits behind it. */
  lemma DeserializedIff(bytes: seq<Byte>, s: Scheme)
    ensures Deserialized(bytes) == Ok(s) <==>
            && |bytes| >= 2 && ValidScheme(s)
            && TotalBits(s) <= 8 * |bytes| < TotalBits(s) + 10 && Low(Value(bytes), TotalBits(s)) == Packed(s)
  {
    hide Distinguishable, DecodeForms, Packed, Value, Low, TotalBits;
    DecodeIff(Value(bytes), 8 * |bytes|, s);
  }

  // ---------------------------------------------------------------- the encoder

  /** `bytes` holds exactly `pos` bits: full bytes, then one that is partly used. */
  ghost predicate Holds(bytes: seq<Byte>, pos: nat) {
    && 8 * |bytes| < pos + 8 && pos <= 8 * |bytes|
    && (bytes != [] ==> bytes[|bytes| - 1] < Pow2(pos - 8 * (|bytes| - 1)))
  }

  /** Setting a clear bit of the last byte adds that bit's weight to the value. */
  lemma SetBit(bytes: seq<Byte>, k: nat)
    requires bytes != [] && k < 8 && bytes[|bytes| - 1] < Pow2(k)
    ensures var last := |bytes| - 1;
            var b := Or(bytes[last], Pow2(k));
            && b < Pow2(k + 1) <= 256
            && Value(bytes[last := b]) == Value(bytes) + Pow2(8 * last + k)
  {
    hide Up, Or;
    var last := |bytes| - 1;
    SmallPowers();
    Pow2Monotone(k + 1, 8);
    OrParts(0, 1, k, bytes[last], 0);
    OrZero(1);
    OrZero(bytes[last]);
    UpIsTimes(0, k);
    UpSum(bytes[last], Pow2(k), 8 * last);
    UpTwice(1, k, 8 * last);
    Halve(1, k + 1, 0);
    var b := Or(bytes[last], Pow2(k));
    assert bytes[last := b][..last] == bytes[..last];
  }

  lemma PushZero(bytes: seq<Byte>)
    ensures Value(bytes + [0]) == Value(bytes)
  {
    UpIsTimes(0, 8 * |bytes|);
    assert (bytes + [0])[..|bytes|] == bytes;
  }

  /** Emits the `count` low bits of a word, lowest first. */
  method PushBits(word: nat, count: nat, bytes: seq<Byte>, pos: nat) returns (bytes': seq<Byte>, acc: nat)
    requires Holds(bytes, pos)
    ensures Holds(bytes', pos + count)
    ensures Value(bytes') == Value(bytes) + Up(Low(word, count), pos)
    ensures acc == Shr(word, count)
  {
    hide Up, Low, Shr, Value, Holds;
    acc, bytes' := word, bytes;
    LowShrZero(word);
    UpIsTimes(0, pos);
    for i := 0 to count
      invariant Holds(bytes', pos + i)
      invariant Value(bytes') == Value(bytes) + Up(Low(word, i), pos)
      invariant acc == Shr(word, i)
    {
      NextBit(word, i);
      UpSum(Low(word, i), Up(acc % 2, i), pos);
      UpTwice(acc % 2, i, pos);
      bytes' := PushBit(bytes', pos + i, acc % 2);
      acc := acc / 2;
    }
  }

  /** Emits one bit, into a new byte if the last one is full. */
  method PushBit(bytes: seq<Byte>, pos: nat, bit: nat) returns (bytes': seq<Byte>)
    requires Holds(bytes, pos) && bit < 2
    ensures Holds(bytes', pos + 1) && Value(bytes') == Value(bytes) + Up(bit, pos)
  {
    hide Up, Value, Or;
    bytes' := bytes;
    if pos % 8 == 0 {
      PushZero(bytes');
      bytes' := bytes' + [0];
    }
    var last := |bytes'| - 1;
    PartialByte(bytes', pos);
    if bit == 1 {
      SetBit(bytes', pos % 8);
      bytes' := bytes'[last := Or(bytes'[last], Pow2(pos % 8))];
    } else {
      UpIsTimes(0, pos);
    }
  }

  lemma LowShrZero(word: nat)
    ensures Low(word, 0) == 0 && Shr(word, 0) == word
  {
  }

  /** One more low bit. */
  lemma {:induction false} NextBit(word: nat, i: nat)
    ensures Low(word, i + 1) == Low(word, i) + Up(Shr(word, i) % 2, i)
    ensures Shr(word, i + 1) == Shr(word, i) / 2
  {
    if i > 0 {
      NextBit(word / 2, i - 1);
    }
  }

  lemma PartialByte(bytes: seq<Byte>, at: nat)
    requires 8 * |bytes| > at >= 8 * (|bytes| - 1)
    requires at % 8 == 0 ==> bytes != [] && bytes[|bytes| - 1] == 0
    requires at % 8 != 0 ==> bytes != [] && bytes[|bytes| - 1] < Pow2(at - 8 * (|bytes| - 1))
    ensures at == 8 * (|bytes| - 1) + at % 8
    ensures bytes[|bytes| - 1] < Pow2(at % 8) && Pow2(at % 8) <= Pow2(at % 8 + 1)
  {
    Pow2Monotone(at % 8, at % 8 + 1);
  }

  method Serialize(s: Scheme) returns (r: Result<seq<Byte>, CodecError>)
    requires forall i :: 0 <= i < |s| ==> s[i].prefixLen <= 31 ==> s[i].prefix < Pow2(s[i].prefixLen)
    ensures r.Ok? <==> forall i :: 0 <= i < |s| ==> s[i].Valid()
    ensures r.Ok? ==> Serialization(s, r.value)
    ensures r.Err? ==> r.error == BadEncodingForm
  {
    hide Value, Up, Or, Holds, Packed, TotalBits, FormWord, Low, Shr;
    var bytes: seq<Byte> := [];
    var pos: nat := 0;
    NothingPacked();
    for k := 0 to |s|
      invariant forall i :: 0 <= i < k ==> s[i].Valid()
      invariant Holds(bytes, pos) && pos == TotalBits(s[..k]) && Value(bytes) == Packed(s[..k])
    {
      var form := s[k];
      if form.prefixLen > 31 || form.bitCount < 1 || form.bitCount > 31 {
        return Err(BadEncodingForm);
      }
      var acc := 0;
      if form.prefixLen > 0 {
        acc := Or(acc, form.prefix);
      }
      acc := Up(acc, 5);
      acc := Or(acc, form.bitCount);
      acc := Up(acc, 5);
      acc := Or(acc, form.prefixLen);
      WordByOr(form);
      PackedMore(s[..k], form);
      assert s[..k + 1] == s[..k] + [form];
      bytes, acc := PushBits(acc, FormBits(form), bytes, pos);
      assert acc == 0;
      pos := pos + FormBits(form);
    }
    assert s[..|s|] == s;
    WholeBytes(s, bytes, pos);
    return Ok(bytes);
  }

  lemma WholeBytes(s: Scheme, bytes: seq<Byte>, pos: nat)
    requires Holds(bytes, pos) && pos == TotalBits(s) && Value(bytes) == Packed(s)
    ensures Serialization(s, bytes)
  {
    hide Value, Packed, TotalBits;
  }

  lemma NothingPacked()
    ensures Value([]) == 0 && Packed([]) == 0 && TotalBits([]) == 0 && Holds([], 0)
  {
  }

  /** Shifting and or-ing builds the word of a form, which has no bits beyond the ones emitted. */
  lemma WordByOr(f: Form)
    requires f.Valid()
    ensures Or(Up(Or(Up(if f.prefixLen > 0 then Or(0, f.prefix) else 0, 5), f.bitCount), 5), f.prefixLen) == FormWord(f)
    ensures Low(FormWord(f), FormBits(f)) == FormWord(f) && Shr(FormWord(f), FormBits(f)) == 0
  {
    hide Up, Or, Low, Shr;
    SmallPowers();
    OrZero(f.prefix);
    OrDisjoint(f.prefix, 5, f.bitCount);
    OrDisjoint(Up(f.prefix, 5) + f.bitCount, 5, f.prefixLen);
    FormWordParts(f);
    LowFits(FormWord(f), FormBits(f));
  }

  // ---------------------------------------------------------------- the decoder

  lemma {:induction false} ValueBelow(bytes: seq<Byte>)
    ensures Value(bytes) < Pow2(8 * |bytes|)
  {
    hide Up;
    SmallPowers();
    if bytes != [] {
      var last := |bytes| - 1;
      ValueBelow(bytes[..last]);
      UpBelow(bytes[last], 8 * last, Value(bytes[..last]), 8);
    }
  }

  lemma {:induction false} ByteOfValue(bytes: seq<Byte>, b: nat)
    requires b < |bytes|
    ensures Low(Shr(Value(bytes), 8 * b), 8) == bytes[b]
  {
    hide Up, Low, Shr;
    SmallPowers();
    var last := |bytes| - 1;
    var low := Value(bytes[..last]);
    ValueBelow(bytes[..last]);
    if b == last {
      Parts(bytes[last], 8 * last, low);
      LowFits(bytes[last], 8);
    } else {
      ByteOfValue(bytes[..last], b);
      ShrOfSum(low, bytes[last], 8 * last, 8 * b);
      ShrBelow(low, 8 * b, 8 * last - 8 * b);
      LowOfSum(Shr(low, 8 * b), bytes[last], 8 * last - 8 * b, 8);
    }
  }

  lemma {:induction false} AndPow2(a: nat, k: nat)
    ensures And(a, Pow2(k)) == 0 <==> Shr(a, k) % 2 == 0
  {
    if k == 0 {
      AndZero(a / 2);
    } else {
      AndPow2(a / 2, k - 1);
    }
  }

  /** Testing a bit of a byte with a mask tests that bit of the whole value. */
  lemma TestBit(bytes: seq<Byte>, b: nat, bit: nat)
    requires b < |bytes| && bit < 8
    ensures And(bytes[b], Shr(128, bit)) == 0 <==> Shr(Value(bytes), 8 * b + (7 - bit)) % 2 == 0
  {
    hide Up, Shr, And, Value, Low, Pow2;
    var k := 7 - bit;
    ByteOfValue(bytes, b);
    MaskOfBit(bit);
    AndPow2(bytes[b], k);
    BitOfByte(Shr(Value(bytes), 8 * b), k);
    ShrTwice(Value(bytes), 8 * b, k);
  }

  lemma MaskOfBit(bit: nat)
    requires bit < 8
    ensures Shr(128, bit) == Pow2(7 - bit)
  {
    hide Up, Shr;
    var k := 7 - bit;
    SmallPowers();
    Halve(1, 8, 0);
    UpTwice(1, k, bit);
    Parts(Pow2(k), bit, 0);
  }

  lemma BitOfByte(x: nat, k: nat)
    requires k < 8
    ensures Shr(Low(x, 8), k) % 2 == Shr(x, k) % 2
  {
    hide Low, Shr;
    ShrOfLow(x, k, 8 - k);
    LowStep(Shr(x, k), 8 - k);
  }

  /** Reads `amount` bits, counting positions from the top bit of the last byte. */
  method ReadBits(data: seq<Byte>, position: nat, amount: nat) returns (acc: nat)
    requires amount <= 32 && position + amount <= 8 * |data|
    ensures acc == Low(Shr(Value(data), 8 * |data| - position - amount), amount)
  {
    hide Low, Shr, Value, And;
    acc := 0;
    var pos, total := position, 8 * |data|;
    LowShrZero(Shr(Value(data), total - position));
    while pos < position + amount
      invariant position <= pos <= position + amount
      invariant acc == Low(Shr(Value(data), total - pos), pos - position)
    {
      var curByte, curBit := |data| - 1 - pos / 8, pos % 8;
      TestBit(data, curByte, curBit);
      assert 8 * curByte + (7 - curBit) == total - pos - 1;
      BitBelow(Value(data), total - pos, pos - position);
      acc := 2 * acc;
      if And(data[curByte], Shr(128, curBit)) != 0 {
        acc := acc + 1;
      }
      pos := pos + 1;
    }
  }

  lemma BitBelow(v: nat, t: nat, c: nat)
    requires t > 0
    ensures Low(Shr(v, t - 1), c + 1) == 2 * Low(Shr(v, t), c) + Shr(v, t - 1) % 2
  {
    NextBit(v, t - 1);
  }

  function Appended(forms: Scheme, more: Result<Scheme, CodecError>): Result<Scheme, CodecError> {
    if more.Ok? then Ok(forms + more.value) else more
  }

  method Deserialize(bytes: seq<Byte>) returns (r: Result<Scheme, CodecError>)
    ensures r == Deserialized(bytes)
  {
    hide Low, Shr, Value, Distinguishable, DecodeForms, Form.Built;
    if |bytes| < 2 {
      return Err(BadSerializedData);
    }
    var forms: Scheme := [];
    var total := 8 * |bytes|;
    var curPos := total;
    ghost var v := Value(bytes);
    LowShrZero(v);
    AppendedNone(DecodeForms(v, total));
    while true
      invariant 10 <= curPos <= total
      invariant forall i :: 0 <= i < |forms| ==> forms[i].Valid()
      invariant DecodeForms(v, total) == Appended(forms, DecodeForms(Shr(v, total - curPos), curPos))
      decreases curPos
    {
      ghost var n, left := Shr(v, total - curPos), curPos;
      ShrTwice(v, total - curPos, 5);
      ShrTwice(v, total - curPos, 10);
      var prefixLen := ReadBits(bytes, curPos - 5, 5);
      var bitCount := ReadBits(bytes, curPos - 10, 5);
      curPos := curPos - 10;
      SmallPowers();
      DecodePanics(n, left);
      if curPos < prefixLen {
        return Err(Panic);
      }
      curPos := curPos - prefixLen;
      ShrTwice(v, total - left, 10 + prefixLen);
      var prefix := ReadBits(bytes, curPos, prefixLen);
      if bitCount == 0 {
        return Err(Panic);
      }
      var form := Form(bitCount, prefixLen, prefix);
      DecodeOne(n, left);
      ghost var before := forms;
      forms := forms + [form];
      if curPos < 10 {
        break;
      }
      AppendedStep(before, form, DecodeForms(Shr(v, total - curPos), curPos));
    }
    ValidIsBuilt(forms);
    var valid := Validate(forms);
    r := if valid.Ok? then Ok(forms) else Err(BadSerializedData);
  }

  lemma AppendedNone(more: Result<Scheme, CodecError>)
    ensures Appended([], more) == more
  {
    if more.Ok? {
      assert [] + more.value == more.value;
    }
  }

  lemma AppendedStep(forms: Scheme, form: Form, more: Result<Scheme, CodecError>)
    ensures Appended(forms, Appended([form], more)) == Appended(forms + [form], more)
  {
    if more.Ok? {
      assert forms + ([form] + more.value) == (forms + [form]) + more.value;
    }
  }

  lemma DecodePanics(n: nat, left: nat)
    requires left >= 10
    ensures left - 10 < Low(n, 5) || Low(Shr(n, 5), 5) == 0 ==> DecodeForms(n, left) == Err(Panic)
  {
    hide Low, Shr;
  }

  lemma DecodeOne(n: nat, left: nat)
    requires left >= 10 && left - 10 >= Low(n, 5) && Low(Shr(n, 5), 5) > 0
    ensures var p := Low(n, 5);
            var form := Form(Low(Shr(n, 5), 5), p, Low(Shr(n, 10), p));
            DecodeForms(n, left) ==
            if left - 10 - p < 10 then Ok([form]) else Appended([form], DecodeForms(Shr(n, 10 + p), left - 10 - p))
  {
    hide Low, Shr;
  }

  /** The bytes that go over the wire for the 4-8 and the 3-5-8 scheme. */
  lemma KnownSchemes()
    ensures Serialization([Form(4, 1, 1), Form(8, 1, 0)], [0x81, 0x0c, 0x08])
    ensures Serialization(V358, [0x61, 0x14, 0x45, 0x81, 0x00])
  {
    hide Up, Value, Packed, TotalBits;
    KnownShifts();
    KnownValues();
    KnownPacked();
  }

  lemma KnownShifts()
    ensures forall a: nat :: Up(a, 5) == 32 * a && Up(a, 10) == 1024 * a && Up(a, 11) == 2048 * a && Up(a, 12) == 4096 * a
    ensures forall a: nat :: Up(a, 8) == 256 * a && Up(a, 16) == 65536 * a && Up(a, 24) == 16777216 * a
    ensures Up(0, 32) == 0
  {
    assert Pow2(4) == 16 && Pow2(5) == 32;
    assert Pow2(8) == 256;
    assert Pow2(10) == 1024 && Pow2(11) == 2048 && Pow2(12) == 4096;
    assert Pow2(16) == 65536 by {
      UpTwice(1, 8, 8);
      UpIsTimes(256, 8);
    }
    assert Pow2(24) == 16777216 by {
      UpTwice(1, 16, 8);
      UpIsTimes(65536, 8);
    }
    hide Up;
    forall a: nat, n: nat {
      UpIsTimes(a, n);
    }
  }

  lemma KnownValues()
    requires forall a: nat :: Up(a, 8) == 256 * a && Up(a, 16) == 65536 * a && Up(a, 24) == 16777216 * a
    requires Up(0, 32) == 0
    ensures Value([0x81, 0x0c, 0x08]) == 0x080c81 && Value([0x61, 0x14, 0x45, 0x81, 0x00]) == 0x81451461
  {
    hide Up;
    OneByte(0x81);
    OneByteMore([0x81], 0x0c);
    OneByteMore([0x81, 0x0c], 0x08);
    OneByte(0x61);
    OneByteMore([0x61], 0x14);
    OneByteMore([0x61, 0x14], 0x45);
    OneByteMore([0x61, 0x14, 0x45], 0x81);
    OneByteMore([0x61, 0x14, 0x45, 0x81], 0x00);
    assert [0x61] + [0x14] == [0x61, 0x14] && [0x61, 0x14] + [0x45] == [0x61, 0x14, 0x45];
    assert [0x61, 0x14, 0x45] + [0x81] == [0x61, 0x14, 0x45, 0x81];
    assert [0x61, 0x14, 0x45, 0x81] + [0x00] == [0x61, 0x14, 0x45, 0x81, 0x00];
    assert Value([0x61, 0x14, 0x45]) == 0x451461 && Value([0x61, 0x14, 0x45, 0x81]) == 0x81451461;
  }

  lemma OneByte(b: Byte)
    ensures Value([b]) == b
  {
    assert [b][..0] == [];
    UpByZero(b);
  }

  lemma OneByteMore(bytes: seq<Byte>, b: Byte)
    ensures Value(bytes + [b]) == Value(bytes) + Up(b, 8 * |bytes|)
  {
    hide Up;
    assert (bytes + [b])[..|bytes|] == bytes;
  }

  lemma KnownPacked()
    requires forall a: nat :: Up(a, 5) == 32 * a && Up(a, 10) == 1024 * a && Up(a, 11) == 2048 * a && Up(a, 12) == 4096 * a
    ensures Packed([Form(4, 1, 1), Form(8, 1, 0)]) == 0x080c81 && TotalBits([Form(4, 1, 1), Form(8, 1, 0)]) == 22
    ensures Packed(V358) == 0x81451461 && TotalBits(V358) == 35
  {
    hide Up;
    NothingPacked();
    assert [Form(4, 1, 1), Form(8, 1, 0)][1..] == [Form(8, 1, 0)] && [Form(8, 1, 0)][1..] == [];
    assert V358[1..] == [Form(5, 2, 2), Form(8, 2, 0)] && V358[1..][1..] == [Form(8, 2, 0)] && [Form(8, 2, 0)][1..] == [];
  }
}
