/**
  Bencoding (the "bencoding" section of BEP 3) with the alignment pad of cjdns
  (cjdns-bencode/src/standard.rs): the encoding, the parser as a function of its input, and the
  proof that the parser undoes the encoding.
 */
module Bencode {
  import opened Wrappers
  import opened Objects

  datatype ParseError =
    | Eof
    | NoBody
    | BadCharacter
    | IntegerOverflow
    | LengthOverflow
    | LeadingZeros
    | NegativeZero
    | TooDeep
    | CapacityPanic

  /** The constant parameters of a parser. */
  datatype Config = Config(maxRecursion: nat, acceptPad: bool)

  const D: Byte := 'd' as int
  const E: Byte := 'e' as int
  const I: Byte := 'i' as int
  const L: Byte := 'l' as int
  const COLON: Byte := ':' as int
  const MINUS: Byte := '-' as int

  // ---------------------------------------------------------------- encoding

  function EncodeBytes(s: seq<Byte>): seq<Byte> {
    Decimal(|s|) + [COLON] + s
  }

  function EncodeInt(n: int): seq<Byte> {
    [I] + SignedDecimal(n) + [E]
  }

  function Encode(o: Object): (r: seq<Byte>)
    ensures r != []
    decreases o, 1
  {
    match o
    case Bytes(s) => EncodeBytes(s)
    case Integer(n) => EncodeInt(n)
    case List(items) => [L] + EncodeItems(items) + [E]
    case Dict(entries) => [D] + EncodeEntries(entries) + [E]
  }

  function EncodeItems(items: seq<Object>): seq<Byte>
    decreases items, 0
  {
    if items == [] then [] else Encode(items[0]) + EncodeItems(items[1..])
  }

  function EncodeEntries(entries: seq<Entry>): seq<Byte>
    decreases entries, 0
  {
    if entries == [] then []
    else EncodeBytes(entries[0].key) + Encode(entries[0].value) + EncodeEntries(entries[1..])
  }

  /** Zeros needed so that `len` bytes become a multiple of the alignment. */
  function Padding(len: nat, align: nat): (p: nat)
    ensures align > 1 ==> (len + p) % align == 0 && p < align
    ensures align <= 1 ==> p == 0
  {
    if align <= 1 then 0 else PaddingWorks(len, align); (align - len % align) % align
  }

  lemma PaddingWorks(len: nat, align: nat)
    requires align > 1
    ensures (len + (align - len % align) % align) % align == 0
  {
    if len % align > 0 {
      PaddingNeeded(len, align);
    }
  }

  lemma PaddingNeeded(len: nat, align: nat)
    requires align > 1 && len % align > 0
    ensures (align - len % align) % align == align - len % align
    ensures (len + (align - len % align)) % align == 0
  {
    var q, r := len / align, len % align;
    assert len + (align - r) == (q + 1) * align;
    MultipleMod(q + 1, align);
  }

  lemma MultipleMod(q: nat, m: nat)
    requires m > 0
    ensures (q * m) % m == 0
  {
    var x := q * m;
    var d := q - x / m;
    assert d * m == x % m;
    if d > 0 {
      Product(d, m);
    } else if d < 0 {
      Product(-d, m);
    }
  }

  lemma Product(d: nat, m: nat)
    requires d > 0
    ensures d * m >= m
  {
  }

  /** What is written in front of `tail`: a dictionary gets zeros before its first key, so that all of it aligns. */
  function EncodeAligned(o: Object, align: nat, tail: seq<Byte>): seq<Byte> {
    if o.Dict? then
      var body := EncodeEntries(o.entries) + [E] + tail;
      [D] + Zeros(Padding(|body| + 1, align)) + body
    else Encode(o) + tail
  }

  // ---------------------------------------------------------------- parsing

  /** The digits of an integer up to its end mark; `byte` has been read already. */
  function IntDigits(num: nat, byte: Byte, rest: seq<Byte>): (r: Parsed<nat, ParseError>)
    ensures r.Done? ==> |r.rest| <= |rest|
    decreases |rest|
  {
    if byte == E then Done(num, rest)
    else if !IsDigit(byte) then Failed(BadCharacter)
    else
      var n := num * 10 + Digit(byte);
      if n > I64_MAX then Failed(IntegerOverflow)
      else if rest == [] then Failed(Eof)
      else if n == 0 && rest[0] != E then Failed(LeadingZeros)
      else IntDigits(n, rest[0], rest[1..])
  }

  function ParseInt(s: seq<Byte>): (r: Parsed<int, ParseError>)
    ensures r.Done? ==> |r.rest| <= |s|
  {
    if s == [] then Failed(Eof)
    else
      var negative := s[0] == MINUS;
      var s' := if negative then s[1..] else s;
      if s' == [] then Failed(Eof)
      else if s'[0] == E then Failed(NoBody)
      else match IntDigits(0, s'[0], s'[1..])
        case Failed(e) => Failed(e)
        case Done(n, rest) =>
          var num: int := n;
          if !negative then Done(num, rest)
          else if num == 0 then Failed(NegativeZero)
          else Done(-num, rest)
  }

  /** The digits of a length up to the colon. */
  function LengthDigits(len: nat, byte: Byte, rest: seq<Byte>, pad: bool): (r: Parsed<nat, ParseError>)
    ensures r.Done? ==> |r.rest| <= |rest|
    decreases |rest|
  {
    if byte == COLON then Done(len, rest)
    else if !IsDigit(byte) then Failed(BadCharacter)
    else
      var n := len * 10 + Digit(byte);
      if n > USIZE_MAX then Failed(LengthOverflow)
      else if rest == [] then Failed(Eof)
      else if rest[0] != COLON && n == 0 && !pad then Failed(LeadingZeros)
      else LengthDigits(n, rest[0], rest[1..], pad)
  }

  function ParseBytes(byte: Byte, rest: seq<Byte>, pad: bool): (r: Parsed<seq<Byte>, ParseError>)
    ensures r.Done? ==> |r.rest| <= |rest|
  {
    match LengthDigits(0, byte, rest, pad)
    case Failed(e) => Failed(e)
    case Done(len, rest) =>
      if len > ISIZE_MAX then Failed(CapacityPanic)
      else if len > |rest| then Failed(Eof)
      else Done(rest[..len], rest[len..])
  }

  function Parse(c: Config, s: seq<Byte>, depth: nat): (r: Parsed<Object, ParseError>)
    ensures r.Done? ==> |r.rest| < |s|
    decreases |s|, 0
  {
    if s == [] then Failed(Eof) else ParseWith(c, s[0], s[1..], depth)
  }

  /** A value whose first byte has been read. */
  function ParseWith(c: Config, chr: Byte, s: seq<Byte>, depth: nat): (r: Parsed<Object, ParseError>)
    ensures r.Done? ==> |r.rest| <= |s|
    decreases |s|, 2
  {
    if depth > c.maxRecursion then Failed(TooDeep)
    else if chr == L then
      match ParseItems(c, s, depth + 1, [])
      case Done(items, rest) => Done(List(items), rest)
      case Failed(e) => Failed(e)
    else if chr == D then
      match ParseEntries(c, s, depth + 1, [], c.acceptPad && depth == 0)
      case Done(entries, rest) => Done(Dict(entries), rest)
      case Failed(e) => Failed(e)
    else if chr == I then
      match ParseInt(s)
      case Done(n, rest) => Done(Integer(n), rest)
      case Failed(e) => Failed(e)
    else if IsDigit(chr) then
      match ParseBytes(chr, s, false)
      case Done(b, rest) => Done(Bytes(b), rest)
      case Failed(e) => Failed(e)
    else Failed(BadCharacter)
  }

  function ParseItems(c: Config, s: seq<Byte>, depth: nat, items: seq<Object>): (r: Parsed<seq<Object>, ParseError>)
    ensures r.Done? ==> |r.rest| <= |s|
    decreases |s|, 1
  {
    if s == [] then Failed(Eof)
    else if s[0] == E then Done(items, s[1..])
    else match ParseWith(c, s[0], s[1..], depth)
      case Failed(e) => Failed(e)
      case Done(item, rest) => ParseItems(c, rest, depth, items + [item])
  }

  function ParseEntries(c: Config, s: seq<Byte>, depth: nat, entries: seq<Entry>, pad: bool): (r: Parsed<seq<Entry>, ParseError>)
    ensures r.Done? ==> |r.rest| <= |s|
    decreases |s|, 1
  {
    if s == [] then Failed(Eof)
    else if s[0] == E then Done(entries, s[1..])
    else match ParseBytes(s[0], s[1..], pad)
      case Failed(e) => Failed(e)
      case Done(key, rest) =>
        match Parse(c, rest, depth)
        case Failed(e) => Failed(e)
        case Done(value, rest) => ParseEntries(c, rest, depth, Insert(entries, key, value), false)
  }

  // ---------------------------------------------------------------- parsing undoes encoding

  /** Nested within the depth limit and free of the one integer whose magnitude overflows. */
  ghost predicate Parseable(c: Config, o: Object, depth: nat) {
    && depth <= c.maxRecursion
    && match o
       case Bytes(_) => true
       case Integer(n) => n != I64_MIN
       case List(items) => forall i :: 0 <= i < |items| ==> Parseable(c, items[i], depth + 1)
       case Dict(entries) => forall i :: 0 <= i < |entries| ==> Parseable(c, entries[i].value, depth + 1)
  }

  lemma {:induction false} IntDigitsOf(num: nat, digits: seq<Byte>, tail: seq<Byte>)
    requires AllDigits(digits) && digits != [] && num <= I64_MAX
    requires num > 0 || digits[0] != ZERO || |digits| == 1
    ensures var s := digits + [E] + tail;
            IntDigits(num, s[0], s[1..]) ==
            if DigitsValue(num, digits) <= I64_MAX then Done(DigitsValue(num, digits), tail) else Failed(IntegerOverflow)
    decreases digits
  {
    var s := digits + [E] + tail;
    var n := num * 10 + Digit(digits[0]);
    if |digits| == 1 {
      assert s[1..] == [E] + tail && digits[1..] == [];
      assert ([E] + tail)[1..] == tail;
      assert DigitsValue(n, []) == n;
    } else if n <= I64_MAX {
      assert s[1..] == digits[1..] + [E] + tail;
      IntDigitsOf(n, digits[1..], tail);
    }
  }

  lemma ParseIntOf(n: int, tail: seq<Byte>)
    requires I64_MIN <= n <= I64_MAX
    ensures ParseInt(SignedDecimal(n) + [E] + tail) == if n == I64_MIN then Failed(IntegerOverflow) else Done(n, tail)
  {
    hide IntDigits, DigitsValue, Decimal;
    var m := if n < 0 then -n else n;
    DecimalValue(m);
    IntDigitsOf(0, Decimal(m), tail);
    var body := Decimal(m) + [E] + tail;
    if n < 0 {
      var s := [MINUS] + Decimal(m) + [E] + tail;
      assert s == [MINUS] + body && s[1..] == body;
    }
  }

  lemma {:induction false} LengthDigitsOf(len: nat, digits: seq<Byte>, tail: seq<Byte>, pad: bool)
    requires AllDigits(digits) && digits != [] && DigitsValue(len, digits) <= USIZE_MAX
    requires len > 0 || digits[0] != ZERO || |digits| == 1 || pad
    ensures var s := digits + [COLON] + tail;
            LengthDigits(len, s[0], s[1..], pad) == Done(DigitsValue(len, digits), tail)
    decreases digits
  {
    var s := digits + [COLON] + tail;
    var n := len * 10 + Digit(digits[0]);
    if |digits| == 1 {
      assert s[1..] == [COLON] + tail && digits[1..] == [];
      assert ([COLON] + tail)[1..] == tail;
      assert DigitsValue(n, []) == n;
    } else {
      assert s[1..] == digits[1..] + [COLON] + tail;
      LengthDigitsOf(n, digits[1..], tail, pad);
    }
  }

  /** A byte string parses back, also behind padding zeros where those are accepted. */
  lemma ParseBytesOf(b: seq<Byte>, tail: seq<Byte>, pad: bool, z: nat)
    requires |b| <= I64_MAX && (z > 0 ==> pad)
    ensures var s := Zeros(z) + EncodeBytes(b) + tail;
            s != [] && IsDigit(s[0]) && ParseBytes(s[0], s[1..], pad) == Done(b, tail)
  {
    var digits := Zeros(z) + Decimal(|b|);
    var s := Zeros(z) + EncodeBytes(b) + tail;
    assert s == digits + [COLON] + (b + tail);
    DecimalValue(|b|);
    ZerosAddNothing(z, Decimal(|b|));
    assert z == 0 ==> digits == Decimal(|b|);
    LengthDigitsOf(0, digits, b + tail, pad);
    assert (b + tail)[..|b|] == b && (b + tail)[|b|..] == tail;
  }

  lemma EncodeStart(o: Object)
    ensures Encode(o)[0] != E
  {
  }

  lemma {:induction false} ParseOfEncode(c: Config, o: Object, depth: nat, tail: seq<Byte>)
    requires WellFormed(o)
    ensures Parseable(c, o, depth) ==> Parse(c, Encode(o) + tail, depth) == Done(o, tail)
    ensures !Parseable(c, o, depth) ==> Parse(c, Encode(o) + tail, depth).Failed?
    decreases o, 1
  {
    hide Parse, EncodeItems, EncodeEntries, EncodeBytes, EncodeInt, Ascending;
    match o
    case Bytes(b) =>
      ParseBytesCase(c, b, depth, tail);
    case Integer(n) =>
      ParseIntCase(c, n, depth, tail);
    case List(items) =>
      ParseListOf(c, items, depth, tail);
    case Dict(entries) =>
      ParseDictOf(c, entries, depth, tail);
  }

  lemma {:induction false} ParseListOf(c: Config, items: seq<Object>, depth: nat, tail: seq<Byte>)
    requires forall i :: 0 <= i < |items| ==> WellFormed(items[i])
    ensures var good := depth <= c.maxRecursion && forall i :: 0 <= i < |items| ==> Parseable(c, items[i], depth + 1);
            var r := Parse(c, Encode(List(items)) + tail, depth);
            if good then r == Done(List(items), tail) else r.Failed?
    decreases items, 1
  {
    hide Parse, ParseItems, EncodeItems, WellFormed, Parseable;
    var x := EncodeItems(items) + [E] + tail;
    assert Encode(List(items)) + tail == [L] + x && [] + items == items;
    ParseListCase(c, x, depth);
    ParseItemsOf(c, items, depth + 1, [], tail);
  }

  lemma {:induction false} ParseDictOf(c: Config, entries: seq<Entry>, depth: nat, tail: seq<Byte>)
    requires forall i :: 0 <= i < |entries| ==> |entries[i].key| <= I64_MAX && WellFormed(entries[i].value)
    requires Ascending(entries)
    ensures var good := depth <= c.maxRecursion && forall i :: 0 <= i < |entries| ==> Parseable(c, entries[i].value, depth + 1);
            var r := Parse(c, Encode(Dict(entries)) + tail, depth);
            if good then r == Done(Dict(entries), tail) else r.Failed?
    decreases entries, 1
  {
    hide Parse, ParseEntries, EncodeEntries, WellFormed, Parseable, Ascending;
    var x := EncodeEntries(entries) + [E] + tail;
    assert Encode(Dict(entries)) + tail == [D] + x && [] + entries == entries;
    ParseDictCase(c, x, depth);
    NoZeros(entries, tail);
    ParseEntriesOf(c, entries, depth + 1, [], c.acceptPad && depth == 0, 0, tail);
  }

  lemma ParseBytesCase(c: Config, b: seq<Byte>, depth: nat, tail: seq<Byte>)
    requires |b| <= I64_MAX
    ensures Parse(c, EncodeBytes(b) + tail, depth) ==
            if depth > c.maxRecursion then Failed(TooDeep) else Done(Bytes(b), tail)
  {
    hide ParseBytes, EncodeBytes;
    ParseBytesOf(b, tail, false, 0);
    assert Zeros(0) + EncodeBytes(b) + tail == EncodeBytes(b) + tail;
  }

  lemma ParseIntCase(c: Config, n: int, depth: nat, tail: seq<Byte>)
    requires I64_MIN <= n <= I64_MAX
    ensures Parse(c, EncodeInt(n) + tail, depth) ==
            if depth > c.maxRecursion then Failed(TooDeep)
            else if n == I64_MIN then Failed(IntegerOverflow)
            else Done(Integer(n), tail)
  {
    hide ParseInt, SignedDecimal;
    ParseIntOf(n, tail);
    var s := EncodeInt(n) + tail;
    assert s[1..] == SignedDecimal(n) + [E] + tail;
  }

  lemma ParseListCase(c: Config, x: seq<Byte>, depth: nat)
    ensures Parse(c, [L] + x, depth) ==
            if depth > c.maxRecursion then Failed(TooDeep)
            else match ParseItems(c, x, depth + 1, [])
              case Done(items, rest) => Done(List(items), rest)
              case Failed(e) => Failed(e)
  {
    hide ParseItems;
    assert ([L] + x)[1..] == x;
  }

  lemma ParseDictCase(c: Config, x: seq<Byte>, depth: nat)
    ensures Parse(c, [D] + x, depth) ==
            if depth > c.maxRecursion then Failed(TooDeep)
            else match ParseEntries(c, x, depth + 1, [], c.acceptPad && depth == 0)
              case Done(entries, rest) => Done(Dict(entries), rest)
              case Failed(e) => Failed(e)
  {
    hide ParseEntries;
    assert ([D] + x)[1..] == x;
  }

  lemma {:induction false} ParseItemsOf(c: Config, items: seq<Object>, depth: nat, acc: seq<Object>, tail: seq<Byte>)
    requires forall i :: 0 <= i < |items| ==> WellFormed(items[i])
    ensures var good := forall i :: 0 <= i < |items| ==> Parseable(c, items[i], depth);
            var r := ParseItems(c, EncodeItems(items) + [E] + tail, depth, acc);
            if good then r == Done(acc + items, tail) else r.Failed?
    decreases items, 0
  {
    hide ParseWith, Encode, WellFormed, Parseable;
    var s := EncodeItems(items) + [E] + tail;
    if items == [] {
      assert s[1..] == tail && acc + [] == acc;
    } else {
      var rest := EncodeItems(items[1..]) + [E] + tail;
      assert s == Encode(items[0]) + rest;
      EncodeStart(items[0]);
      ParseOfEncode(c, items[0], depth, rest);
      if Parseable(c, items[0], depth) {
        ParseItemsOf(c, items[1..], depth, acc + [items[0]], tail);
        assert acc + [items[0]] + items[1..] == acc + items;
      }
    }
  }

  lemma {:induction false} ParseEntriesOf(c: Config, entries: seq<Entry>, depth: nat, acc: seq<Entry>, pad: bool, z: nat,
                                          tail: seq<Byte>)
    requires forall i :: 0 <= i < |entries| ==> |entries[i].key| <= I64_MAX && WellFormed(entries[i].value)
    requires Ascending(acc + entries) && (z > 0 ==> pad && entries != [])
    ensures var good := forall i :: 0 <= i < |entries| ==> Parseable(c, entries[i].value, depth);
            var r := ParseEntries(c, Zeros(z) + EncodeEntries(entries) + [E] + tail, depth, acc, pad);
            if good then r == Done(acc + entries, tail) else r.Failed?
    decreases entries, 0
  {
    hide ParseBytes, Parse, Encode, EncodeBytes, WellFormed, Parseable, Insert, Ascending, ParseEntries, EncodeEntries, Zeros;
    if entries == [] {
      EntriesEnd(c, depth, acc, pad, tail);
    } else {
      var e := entries[0];
      var rest := EncodeEntries(entries[1..]) + [E] + tail;
      FirstEntry(entries, z, tail);
      ParseBytesOf(e.key, Encode(e.value) + rest, pad, z);
      ParseOfEncode(c, e.value, depth, rest);
      EntryStep(c, Zeros(z) + EncodeBytes(e.key) + (Encode(e.value) + rest), depth, acc, pad, e.key, Encode(e.value) + rest);
      if Parseable(c, e.value, depth) {
        assert acc + [e] + entries[1..] == acc + entries;
        AscendingPrefix(acc + entries, |acc| + 1);
        assert (acc + entries)[..|acc| + 1] == acc + [e];
        InsertLast(acc, e);
        ParseEntriesOf(c, entries[1..], depth, acc + [e], false, 0, tail);
        NoZeros(entries[1..], tail);
      }
    }
  }

  lemma EntriesEnd(c: Config, depth: nat, acc: seq<Entry>, pad: bool, tail: seq<Byte>)
    ensures ParseEntries(c, Zeros(0) + EncodeEntries([]) + [E] + tail, depth, acc, pad) == Done(acc + [], tail)
  {
    var s := Zeros(0) + EncodeEntries([]) + [E] + tail;
    assert s == [E] + tail && s[1..] == tail && acc + [] == acc;
  }

  lemma FirstEntry(entries: seq<Entry>, z: nat, tail: seq<Byte>)
    requires entries != []
    ensures Zeros(z) + EncodeEntries(entries) + [E] + tail ==
            Zeros(z) + EncodeBytes(entries[0].key) +
            (Encode(entries[0].value) + (EncodeEntries(entries[1..]) + [E] + tail))
  {
    hide Zeros, EncodeBytes, Encode;
  }

  lemma NoZeros(entries: seq<Entry>, tail: seq<Byte>)
    ensures Zeros(0) + EncodeEntries(entries) + [E] + tail == EncodeEntries(entries) + [E] + tail
  {
    hide EncodeEntries;
    assert Zeros(0) == [];
  }

  /** One round of the loop over the entries. */
  lemma EntryStep(c: Config, s: seq<Byte>, depth: nat, acc: seq<Entry>, pad: bool, key: seq<Byte>, rest: seq<Byte>)
    requires s != [] && s[0] != E && ParseBytes(s[0], s[1..], pad) == Done(key, rest)
    ensures var member := Parse(c, rest, depth);
            ParseEntries(c, s, depth, acc, pad) ==
            if member.Failed? then Failed(member.error)
            else ParseEntries(c, member.rest, depth, Insert(acc, key, member.value), false)
  {
    hide ParseBytes, Parse;
  }

  /** Zeros that no key follows are not a length. */
  lemma {:induction false} PadAloneFails(z: nat, tail: seq<Byte>, pad: bool)
    requires z > 0
    ensures var s := Zeros(z) + [E] + tail;
            LengthDigits(0, s[0], s[1..], pad).Failed?
  {
    var s := Zeros(z) + [E] + tail;
    if z == 1 {
      assert s[1..] == [E] + tail;
    } else {
      assert s[1..] == Zeros(z - 1) + [E] + tail;
      PadAloneFails(z - 1, tail, pad);
    }
  }

  /** Where padding is not accepted, zeros before a key are refused. */
  lemma PadRefused(z: nat, b: seq<Byte>, tail: seq<Byte>)
    requires z > 0
    ensures var s := Zeros(z) + EncodeBytes(b) + tail;
            LengthDigits(0, s[0], s[1..], false) == Failed(LeadingZeros)
  {
    var s := Zeros(z) + EncodeBytes(b) + tail;
    assert s[0] == ZERO && IsDigit(s[1]);
  }

  /** No zeros are needed before the first key of a root dictionary, or they are accepted and there is a key. */
  ghost predicate PadAccepted(c: Config, o: Object, align: nat, behind: nat) {
    o.Dict? && Padding(|EncodeEntries(o.entries)| + 2 + behind, align) > 0 ==> c.acceptPad && o.entries != []
  }

  /**
    With alignment a root dictionary makes the whole message a multiple of the alignment, and the
    parser gives the value back exactly when the value is parseable and any zeros that were
    needed stand before a key and are accepted.
   */
  lemma ParseOfAligned(c: Config, o: Object, align: nat, tail: seq<Byte>)
    requires WellFormed(o) && o.Dict?
    ensures var s := EncodeAligned(o, align, tail);
            && (align > 1 ==> |s| % align == 0)
            && (if Parseable(c, o, 0) && PadAccepted(c, o, align, |tail|)
                then Parse(c, s, 0) == Done(o, tail) else Parse(c, s, 0).Failed?)
  {
    hide Encode, EncodeEntries, Parse, ParseEntries, ParseBytes, WellFormed, Zeros, Padding;
    var entries := o.entries;
    var body := EncodeEntries(entries) + [E] + tail;
    var z := Padding(|body| + 1, align);
    var s := EncodeAligned(o, align, tail);
    var x := Zeros(z) + EncodeEntries(entries) + [E] + tail;
    assert s == [D] + x && |s| == |body| + 1 + z;
    ParseDictCase(c, x, 0);
    if z == 0 || (c.acceptPad && entries != []) {
      EntriesWellFormed(o);
      assert [] + entries == entries;
      ParseEntriesOf(c, entries, 1, [], c.acceptPad, z, tail);
    } else {
      PadFails(entries, z, tail, c.acceptPad);
      KeyFails(c, x, c.acceptPad);
    }
  }

  /** Whatever the value: the parser gives back what was written and leaves what was behind it, or fails. */
  lemma ParseOfWritten(c: Config, o: Object, align: nat, tail: seq<Byte>)
    requires WellFormed(o)
    ensures var r := Parse(c, EncodeAligned(o, align, tail), 0);
            if Parseable(c, o, 0) && PadAccepted(c, o, align, |tail|) then r == Done(o, tail) else r.Failed?
  {
    hide Parse, Encode, WellFormed, Parseable, Padding;
    if o.Dict? {
      ParseOfAligned(c, o, align, tail);
    } else {
      ParseOfEncode(c, o, 0, tail);
    }
  }

  /** The empty dictionary aligned to 8 bytes is d000000e, which no parser accepts. */
  lemma PaddedEmptyRoot(c: Config)
    ensures EncodeAligned(Dict([]), 8, []) == [D] + Zeros(6) + [E]
    ensures Parse(c, EncodeAligned(Dict([]), 8, []), 0).Failed?
  {
    hide Parse, Zeros;
    assert EncodeEntries([]) + [E] + [] == [E];
    assert WellFormed(Dict([]));
    ParseOfAligned(c, Dict([]), 8, []);
  }

  lemma KeyFails(c: Config, x: seq<Byte>, pad: bool)
    requires x != [] && x[0] != E && ParseBytes(x[0], x[1..], pad).Failed?
    ensures ParseEntries(c, x, 1, [], pad).Failed?
  {
  }

  lemma EntriesWellFormed(o: Object)
    requires WellFormed(o) && o.Dict?
    ensures Ascending(o.entries)
    ensures forall i :: 0 <= i < |o.entries| ==> |o.entries[i].key| <= I64_MAX && WellFormed(o.entries[i].value)
  {
  }

  lemma PadFails(entries: seq<Entry>, z: nat, tail: seq<Byte>, pad: bool)
    requires z > 0 && (entries == [] || !pad)
    ensures var s := Zeros(z) + EncodeEntries(entries) + [E] + tail;
            s[0] != E && ParseBytes(s[0], s[1..], pad).Failed?
  {
    hide Encode, EncodeBytes, LengthDigits, Zeros;
    var s := Zeros(z) + EncodeEntries(entries) + [E] + tail;
    if entries == [] {
      assert s == Zeros(z) + [E] + tail;
      PadAloneFails(z, tail, pad);
    } else {
      var rest := Encode(entries[0].value) + EncodeEntries(entries[1..]) + [E] + tail;
      assert s == Zeros(z) + EncodeBytes(entries[0].key) + rest;
      PadRefused(z, entries[0].key, rest);
    }
  }
}
