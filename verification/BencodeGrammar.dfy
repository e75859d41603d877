/**
  The language of the bencode parser (cjdns-bencode/src/standard.rs:26-158), stated without the
  parser: a text is accepted exactly if it spells a tree, and the value is what the tree means.
  Keys may come in any order and more than once; the last value counts. A bare colon is taken for an
  empty key, and zeros may stand before the first key of the root where padding is accepted.
 */
module BencodeGrammar {
  import opened Wrappers
  import opened Objects
  import opened Bencode

  datatype Raw =
    | RawBytes(bytes: seq<Byte>)
    | RawInt(number: int)
    | RawList(items: seq<Raw>)
    | RawDict(members: seq<Member>)

  datatype Member = Member(zeros: nat, bare: bool, key: seq<Byte>, value: Raw)

  // ---------------------------------------------------------------- spelling

  ghost function TextOf(raw: Raw): seq<Byte>
    decreases raw, 1
  {
    match raw
    case RawBytes(b) => EncodeBytes(b)
    case RawInt(n) => EncodeInt(n)
    case RawList(items) => [L] + (TextItems(items) + [E])
    case RawDict(members) => [D] + (TextMembers(members) + [E])
  }

  ghost function TextItems(items: seq<Raw>): seq<Byte>
    decreases items, 0
  {
    if items == [] then [] else TextOf(items[0]) + TextItems(items[1..])
  }

  ghost function KeyText(m: Member): seq<Byte> {
    if m.bare then [COLON] else Zeros(m.zeros) + EncodeBytes(m.key)
  }

  ghost function TextMembers(members: seq<Member>): seq<Byte>
    decreases members, 0
  {
    if members == [] then [] else KeyText(members[0]) + TextOf(members[0].value) + TextMembers(members[1..])
  }

  // ---------------------------------------------------------------- meaning

  ghost function MeaningOf(raw: Raw): Object
    decreases raw, 1
  {
    match raw
    case RawBytes(b) => Bytes(b)
    case RawInt(n) => Integer(n)
    case RawList(items) => List(MeaningItems(items))
    case RawDict(members) => Dict(InsertAll([], PairsOf(members)))
  }

  ghost function MeaningItems(items: seq<Raw>): seq<Object>
    decreases items, 0
  {
    if items == [] then [] else [MeaningOf(items[0])] + MeaningItems(items[1..])
  }

  /** The entries as they are read, one after the other. */
  ghost function PairsOf(members: seq<Member>): seq<Entry>
    decreases members, 0
  {
    if members == [] then [] else [Entry(members[0].key, MeaningOf(members[0].value))] + PairsOf(members[1..])
  }

  // ---------------------------------------------------------------- which trees are legal

  ghost predicate LegalKey(m: Member, pad: bool) {
    |m.key| <= ISIZE_MAX && (m.bare ==> m.key == [] && m.zeros == 0) && (m.zeros > 0 ==> pad)
  }

  ghost predicate Legal(c: Config, raw: Raw, depth: nat) {
    && depth <= c.maxRecursion
    && match raw
       case RawBytes(b) => |b| <= ISIZE_MAX
       case RawInt(n) => -I64_MAX <= n <= I64_MAX
       case RawList(items) => forall i :: 0 <= i < |items| ==> Legal(c, items[i], depth + 1)
       case RawDict(members) =>
         forall i :: 0 <= i < |members| ==>
           LegalKey(members[i], c.acceptPad && depth == 0 && i == 0) && Legal(c, members[i].value, depth + 1)
  }

  // ---------------------------------------------------------------- what is spelled is accepted

  lemma TextStart(raw: Raw)
    ensures TextOf(raw) != [] && TextOf(raw)[0] != E
  {
    hide TextItems, TextMembers, SignedDecimal;
  }

  lemma KeyParses(m: Member, pad: bool, tail: seq<Byte>)
    requires LegalKey(m, pad)
    ensures var s := KeyText(m) + tail;
            s != [] && s[0] != E && ParseBytes(s[0], s[1..], pad) == Done(m.key, tail)
  {
    hide EncodeBytes, Zeros;
    var s := KeyText(m) + tail;
    if m.bare {
      assert s[1..] == tail && tail[..0] == [] && tail[0..] == tail;
    } else {
      ParseBytesOf(m.key, tail, pad, m.zeros);
    }
  }

  lemma {:induction false} ParseOfText(c: Config, raw: Raw, depth: nat, tail: seq<Byte>)
    requires Legal(c, raw, depth)
    ensures Parse(c, TextOf(raw) + tail, depth) == Done(MeaningOf(raw), tail)
    decreases raw, 1
  {
    hide Parse, ParseItems, ParseEntries, TextItems, TextMembers, EncodeBytes, EncodeInt, MeaningItems, PairsOf, InsertAll;
    match raw
    case RawBytes(b) =>
      ParseBytesCase(c, b, depth, tail);
    case RawInt(n) =>
      ParseIntCase(c, n, depth, tail);
    case RawList(items) =>
      var x := TextItems(items) + [E] + tail;
      assert TextOf(raw) + tail == [L] + x;
      ParseListCase(c, x, depth);
      ItemsOfText(c, items, depth + 1, [], tail);
      assert [] + MeaningItems(items) == MeaningItems(items);
    case RawDict(members) =>
      var x := TextMembers(members) + [E] + tail;
      assert TextOf(raw) + tail == [D] + x;
      ParseDictCase(c, x, depth);
      MembersOfText(c, members, depth + 1, [], c.acceptPad && depth == 0, tail);
  }

  lemma {:induction false} ItemsOfText(c: Config, items: seq<Raw>, depth: nat, acc: seq<Object>, tail: seq<Byte>)
    requires forall i :: 0 <= i < |items| ==> Legal(c, items[i], depth)
    ensures ParseItems(c, TextItems(items) + [E] + tail, depth, acc) == Done(acc + MeaningItems(items), tail)
    decreases items, 0
  {
    hide ParseWith, TextOf, MeaningOf, Legal, TextItems;
    var s := TextItems(items) + [E] + tail;
    if items == [] {
      NoItemsText();
      assert s == [E] + tail && s[1..] == tail && acc + [] == acc;
    } else {
      var item, rest := items[0], TextItems(items[1..]) + [E] + tail;
      ItemsText(items, tail);
      TextStart(item);
      ParseOfText(c, item, depth, rest);
      ItemsOfText(c, items[1..], depth, acc + [MeaningOf(item)], tail);
      assert acc + [MeaningOf(item)] + MeaningItems(items[1..]) == acc + MeaningItems(items);
    }
  }

  lemma ItemsText(items: seq<Raw>, tail: seq<Byte>)
    requires items != []
    ensures TextItems(items) + [E] + tail == TextOf(items[0]) + (TextItems(items[1..]) + [E] + tail)
  {
    hide TextOf;
    Regroup(TextOf(items[0]), TextItems(items[1..]), [E]);
    Regroup(TextOf(items[0]), TextItems(items[1..]) + [E], tail);
  }

  lemma NoItemsText()
    ensures TextItems([]) == []
  {
  }

  lemma {:induction false} MembersOfText(c: Config, members: seq<Member>, depth: nat, acc: seq<Entry>, pad: bool, tail: seq<Byte>)
    requires forall i :: 0 <= i < |members| ==> LegalKey(members[i], pad && i == 0) && Legal(c, members[i].value, depth)
    ensures ParseEntries(c, TextMembers(members) + [E] + tail, depth, acc, pad) == Done(InsertAll(acc, PairsOf(members)), tail)
    decreases members, 0
  {
    hide ParseBytes, Parse, TextOf, KeyText, MeaningOf, Legal, Insert, ParseEntries, LegalKey;
    if members == [] {
      NoMembersText(c, depth, acc, pad, tail);
    } else {
      var m := members[0];
      var rest := TextMembers(members[1..]) + [E] + tail;
      var s := KeyText(m) + (TextOf(m.value) + rest);
      assert TextMembers(members) + [E] + tail == s;
      assert LegalKey(m, pad && 0 == 0);
      KeyParses(m, pad, TextOf(m.value) + rest);
      ParseOfText(c, m.value, depth, rest);
      EntryStep(c, s, depth, acc, pad, m.key, TextOf(m.value) + rest);
      MembersOfText(c, members[1..], depth, Insert(acc, m.key, MeaningOf(m.value)), false, tail);
      var pairs := PairsOf(members);
      assert pairs[0] == Entry(m.key, MeaningOf(m.value)) && pairs[1..] == PairsOf(members[1..]);
    }
  }

  lemma NoMembersText(c: Config, depth: nat, acc: seq<Entry>, pad: bool, tail: seq<Byte>)
    ensures ParseEntries(c, TextMembers([]) + [E] + tail, depth, acc, pad) == Done(acc, tail)
  {
    var s := TextMembers([]) + [E] + tail;
    assert s == [E] + tail && s[1..] == tail;
  }

  // ---------------------------------------------------------------- what is accepted is spelled

  lemma {:induction false} IntDigitsBack(num: nat, byte: Byte, rest: seq<Byte>) returns (digits: seq<Byte>)
    requires IntDigits(num, byte, rest).Done? && num <= I64_MAX
    ensures AllDigits(digits) && [byte] + rest == digits + [E] + IntDigits(num, byte, rest).rest
    ensures IntDigits(num, byte, rest).value == DigitsValue(num, digits) <= I64_MAX
    ensures num == 0 && |digits| > 1 ==> digits[0] != ZERO
    ensures byte == E <==> digits == []
    decreases |rest|
  {
    if byte == E {
      digits := [];
    } else {
      var more := IntDigitsBack(num * 10 + Digit(byte), rest[0], rest[1..]);
      digits := [byte] + more;
      assert digits[1..] == more && [rest[0]] + rest[1..] == rest;
    }
  }

  lemma ParseIntBack(s: seq<Byte>)
    requires ParseInt(s).Done?
    ensures var n := ParseInt(s).value;
            -I64_MAX <= n <= I64_MAX && s == SignedDecimal(n) + [E] + ParseInt(s).rest
  {
    hide IntDigits, DigitsValue, Decimal, SignedDecimal, AllDigits;
    var negative, n, rest := s[0] == MINUS, ParseInt(s).value, ParseInt(s).rest;
    var s' := if negative then s[1..] else s;
    var digits := IntDigitsBack(0, s'[0], s'[1..]);
    DecimalUnique(digits);
    var tail := [E] + rest;
    assert s' == digits + tail by {
      assert [s'[0]] + s'[1..] == s';
      Regroup(digits, [E], rest);
    }
    WithSign(s, negative, digits, tail);
    SignedText(n, negative, digits);
    Regroup(SignedDecimal(n), [E], rest);
  }

  lemma Regroup(a: seq<Byte>, b: seq<Byte>, c: seq<Byte>)
    ensures a + b + c == a + (b + c)
  {
  }

  lemma WithSign(s: seq<Byte>, negative: bool, digits: seq<Byte>, tail: seq<Byte>)
    requires s != [] && (if negative then s[0] == MINUS && s[1..] == digits + tail else s == digits + tail)
    ensures s == (if negative then [MINUS] + digits else digits) + tail
  {
    if negative {
      assert s == [MINUS] + s[1..];
      Regroup([MINUS], digits, tail);
    }
  }

  lemma SignedText(n: int, negative: bool, digits: seq<Byte>)
    requires if negative then n < 0 && Decimal(-n) == digits else n >= 0 && Decimal(n) == digits
    ensures SignedDecimal(n) == if negative then [MINUS] + digits else digits
  {
    hide Decimal;
  }

  lemma {:induction false} LengthDigitsBack(len: nat, byte: Byte, rest: seq<Byte>, pad: bool) returns (digits: seq<Byte>)
    requires LengthDigits(len, byte, rest, pad).Done?
    ensures AllDigits(digits) && [byte] + rest == digits + [COLON] + LengthDigits(len, byte, rest, pad).rest
    ensures LengthDigits(len, byte, rest, pad).value == DigitsValue(len, digits)
    ensures len == 0 && |digits| > 1 && !pad ==> digits[0] != ZERO
    ensures byte == COLON <==> digits == []
    decreases |rest|
  {
    hide AllDigits;
    if byte == COLON {
      digits := [];
      NoDigits();
    } else {
      var more := LengthDigitsBack(len * 10 + Digit(byte), rest[0], rest[1..], pad);
      digits := [byte] + more;
      MoreDigits(byte, more);
      assert digits[1..] == more && [rest[0]] + rest[1..] == rest;
      Regroup(more, [COLON], LengthDigits(len, byte, rest, pad).rest);
      Regroup([byte], more, [COLON]);
      Regroup([byte], more + [COLON], LengthDigits(len, byte, rest, pad).rest);
    }
  }

  lemma NoDigits()
    ensures AllDigits([])
  {
  }

  lemma MoreDigits(byte: Byte, more: seq<Byte>)
    requires IsDigit(byte) && AllDigits(more)
    ensures AllDigits([byte] + more)
  {
  }

  lemma ParseBytesBack(byte: Byte, rest: seq<Byte>, pad: bool) returns (m: Member)
    requires ParseBytes(byte, rest, pad).Done?
    ensures LegalKey(m, pad) && m.key == ParseBytes(byte, rest, pad).value && m.value == RawInt(0)
    ensures [byte] + rest == KeyText(m) + ParseBytes(byte, rest, pad).rest
    ensures m.bare <==> byte == COLON
  {
    hide LengthDigits, Decimal, DigitsValue, Zeros;
    var text, after := ParseBytes(byte, rest, pad).value, ParseBytes(byte, rest, pad).rest;
    var digits := LengthDigitsBack(0, byte, rest, pad);
    var left := LengthDigits(0, byte, rest, pad).rest;
    assert left == text + after;
    if byte == COLON {
      m := Member(0, true, [], RawInt(0));
      EmptyLength();
      assert text == [];
      assert [byte] + rest == [COLON] + left;
    } else {
      var z := ZerosAndDecimal(digits);
      m := Member(z, false, text, RawInt(0));
      assert digits + [COLON] + (text + after) == Zeros(z) + (Decimal(|text|) + [COLON] + text) + after;
    }
  }

  lemma EmptyLength()
    ensures DigitsValue(0, []) == 0
  {
  }

  lemma {:induction false} TextOfParse(c: Config, s: seq<Byte>, depth: nat) returns (raw: Raw)
    requires Parse(c, s, depth).Done?
    ensures Legal(c, raw, depth) && s == TextOf(raw) + Parse(c, s, depth).rest && Parse(c, s, depth).value == MeaningOf(raw)
    decreases |s|, 0
  {
    hide ParseItems, ParseEntries, ParseInt, ParseBytes, TextItems, TextMembers, MeaningItems, PairsOf, InsertAll, EncodeBytes, SignedDecimal, KeyText, Legal;
    var chr, x, after := s[0], s[1..], Parse(c, s, depth).rest;
    assert s == [chr] + x;
    if chr == L {
      var items := ItemsOfParse(c, x, depth + 1, []);
      raw := RawList(items);
      assert [] + MeaningItems(items) == MeaningItems(items);
      assert s == [L] + (TextItems(items) + [E]) + after;
      ListIsLegal(c, items, depth);
    } else if chr == D {
      var members := MembersOfParse(c, x, depth + 1, [], c.acceptPad && depth == 0);
      raw := RawDict(members);
      assert s == [D] + (TextMembers(members) + [E]) + after;
      DictIsLegal(c, members, depth);
    } else if chr == I {
      ParseIntBack(x);
      raw := RawInt(ParseInt(x).value);
      assert s == [I] + SignedDecimal(ParseInt(x).value) + [E] + after;
      LeafIsLegal(c, raw, depth);
    } else {
      var m := ParseBytesBack(chr, x, false);
      raw := RawBytes(m.key);
      PlainKey(m, after);
      LeafIsLegal(c, raw, depth);
    }
  }

  lemma PlainKey(m: Member, after: seq<Byte>)
    requires LegalKey(m, false) && !m.bare
    ensures KeyText(m) == EncodeBytes(m.key) && |m.key| <= ISIZE_MAX
  {
    hide EncodeBytes;
    assert Zeros(0) + EncodeBytes(m.key) == EncodeBytes(m.key);
  }

  lemma LeafIsLegal(c: Config, raw: Raw, depth: nat)
    requires depth <= c.maxRecursion
    requires (raw.RawBytes? && |raw.bytes| <= ISIZE_MAX) || (raw.RawInt? && -I64_MAX <= raw.number <= I64_MAX)
    ensures Legal(c, raw, depth)
  {
  }

  lemma ListIsLegal(c: Config, items: seq<Raw>, depth: nat)
    requires depth <= c.maxRecursion && forall i :: 0 <= i < |items| ==> Legal(c, items[i], depth + 1)
    ensures Legal(c, RawList(items), depth)
  {
  }

  lemma DictIsLegal(c: Config, members: seq<Member>, depth: nat)
    requires depth <= c.maxRecursion
    requires forall i :: 0 <= i < |members| ==>
               LegalKey(members[i], c.acceptPad && depth == 0 && i == 0) && Legal(c, members[i].value, depth + 1)
    ensures Legal(c, RawDict(members), depth)
  {
  }

  lemma {:induction false} ItemsOfParse(c: Config, s: seq<Byte>, depth: nat, acc: seq<Object>) returns (items: seq<Raw>)
    requires ParseItems(c, s, depth, acc).Done?
    ensures forall i :: 0 <= i < |items| ==> Legal(c, items[i], depth)
    ensures s == TextItems(items) + [E] + ParseItems(c, s, depth, acc).rest
    ensures ParseItems(c, s, depth, acc).value == acc + MeaningItems(items)
    decreases |s|, 1
  {
    hide ParseWith, TextOf, MeaningOf, Legal;
    if s[0] == E {
      items := [];
      assert s == [E] + s[1..] && acc + [] == acc;
    } else {
      WithFirst(c, s, depth);
      var raw := TextOfParse(c, s, depth);
      var after := Parse(c, s, depth).rest;
      var more := ItemsOfParse(c, after, depth, acc + [MeaningOf(raw)]);
      items := [raw] + more;
      assert items[1..] == more;
      assert acc + [MeaningOf(raw)] + MeaningItems(more) == acc + MeaningItems(items);
      assert s == TextOf(raw) + TextItems(more) + [E] + ParseItems(c, s, depth, acc).rest;
    }
  }

  lemma WithFirst(c: Config, s: seq<Byte>, depth: nat)
    requires s != []
    ensures Parse(c, s, depth) == ParseWith(c, s[0], s[1..], depth)
  {
    hide ParseWith;
  }

  lemma {:induction false} MembersOfParse(c: Config, s: seq<Byte>, depth: nat, acc: seq<Entry>, pad: bool) returns (members: seq<Member>)
    requires ParseEntries(c, s, depth, acc, pad).Done?
    ensures forall i :: 0 <= i < |members| ==> LegalKey(members[i], pad && i == 0) && Legal(c, members[i].value, depth)
    ensures s == TextMembers(members) + [E] + ParseEntries(c, s, depth, acc, pad).rest
    ensures ParseEntries(c, s, depth, acc, pad).value == InsertAll(acc, PairsOf(members))
    decreases |s|, 1
  {
    hide ParseBytes, Parse, TextOf, KeyText, MeaningOf, Legal, Insert, LegalKey, TextMembers;
    if s[0] == E {
      members := [];
      assert TextMembers([]) == [] by {
        NoText();
      }
      assert s == [E] + s[1..] && [] + [E] + s[1..] == [E] + s[1..];
    } else {
      var m := ParseBytesBack(s[0], s[1..], pad);
      assert s == [s[0]] + s[1..];
      var after := ParseBytes(s[0], s[1..], pad).rest;
      var raw := TextOfParse(c, after, depth);
      var rest := Parse(c, after, depth).rest;
      var more := MembersOfParse(c, rest, depth, Insert(acc, m.key, MeaningOf(raw)), false);
      var first := m.(value := raw);
      SameKey(m, raw, pad);
      members := [first] + more;
      assert members[1..] == more;
      var pairs := PairsOf(members);
      assert pairs[0] == Entry(m.key, MeaningOf(raw)) && pairs[1..] == PairsOf(more);
      MembersText(first, more, ParseEntries(c, s, depth, acc, pad).rest);
      MembersLegal(c, members, depth, pad);
    }
  }

  lemma NoText()
    ensures TextMembers([]) == []
  {
  }

  lemma MembersText(m: Member, more: seq<Member>, tail: seq<Byte>)
    ensures TextMembers([m] + more) + [E] + tail == KeyText(m) + (TextOf(m.value) + (TextMembers(more) + [E] + tail))
  {
    hide KeyText, TextOf;
    assert ([m] + more)[1..] == more;
  }

  lemma SameKey(m: Member, raw: Raw, pad: bool)
    ensures KeyText(m.(value := raw)) == KeyText(m) && (LegalKey(m, pad) ==> LegalKey(m.(value := raw), pad))
  {
  }

  lemma MembersLegal(c: Config, members: seq<Member>, depth: nat, pad: bool)
    requires members != [] && LegalKey(members[0], pad) && Legal(c, members[0].value, depth)
    requires forall i :: 0 <= i < |members[1..]| ==> LegalKey(members[1..][i], false) && Legal(c, members[1..][i].value, depth)
    ensures forall i :: 0 <= i < |members| ==> LegalKey(members[i], pad && i == 0) && Legal(c, members[i].value, depth)
  {
    hide Legal;
    forall i | 0 < i < |members|
      ensures LegalKey(members[i], pad && i == 0) && Legal(c, members[i].value, depth)
    {
      assert members[i] == members[1..][i - 1];
    }
  }

  /** A text is accepted, with a value and a rest, exactly if it spells a legal tree that means the value. */
  lemma AcceptedIffSpelled(c: Config, s: seq<Byte>, o: Object, rest: seq<Byte>)
    ensures Parse(c, s, 0) == Done(o, rest) <==>
            exists raw :: Legal(c, raw, 0) && s == TextOf(raw) + rest && o == MeaningOf(raw)
  {
    hide Parse, Legal, TextOf, MeaningOf;
    if Parse(c, s, 0) == Done(o, rest) {
      var raw := TextOfParse(c, s, 0);
    }
    forall raw | Legal(c, raw, 0) && s == TextOf(raw) + rest && o == MeaningOf(raw)
      ensures Parse(c, s, 0) == Done(o, rest)
    {
      ParseOfText(c, raw, 0, rest);
    }
  }

  /** A colon alone is read as an empty key: d:i1ee is the dictionary that d0:i1ee is. */
  lemma BareColon(c: Config)
    requires c.maxRecursion >= 1
    ensures Parse(c, [D, COLON] + EncodeInt(1) + [E], 0) == Done(Dict([Entry([], Integer(1))]), [])
  {
    hide EncodeInt, Parse;
    var m := Member(0, true, [], RawInt(1));
    var raw := RawDict([m]);
    assert [m][1..] == [];
    assert Legal(c, RawInt(1), 1) && LegalKey(m, c.acceptPad && 0 == 0 && 0 == 0);
    assert TextMembers([m]) == [COLON] + EncodeInt(1);
    assert TextOf(raw) + [] == [D, COLON] + EncodeInt(1) + [E];
    assert PairsOf([m]) == [Entry([], Integer(1))];
    assert [Entry([], Integer(1))][1..] == [];
    ParseOfText(c, raw, 0, []);
  }

  /** A dictionary that was read is in order and holds exactly the keys read, each with its last value. */
  lemma DictIsLast(members: seq<Member>)
    ensures var entries := MeaningOf(RawDict(members)).entries;
            && Ascending(entries)
            && forall e: Entry :: e in entries <==> LastValue(PairsOf(members), e.key) == Some(e.value)
  {
    hide InsertAll, PairsOf, LastValue, Ascending;
    CollectedIsLast(PairsOf(members));
  }

  /** The text of -1 is i-1e and that of 20 is i20e. */
  lemma KnownInts()
    ensures EncodeInt(-1) == [105, 45, 49, 101] && EncodeInt(20) == [105, 50, 48, 101]
  {
    assert Decimal(1) == [49] && Decimal(2) == [50] && Decimal(20) == Decimal(2) + [48];
  }

  /** A list stands between its marks: l..e. */
  lemma KnownList(item: Object)
    ensures Encode(List([item])) == [108] + Encode(item) + [101]
  {
    assert [item][1..] == [] && EncodeItems([]) == [];
    hide Encode;
    assert EncodeItems([item]) == Encode(item) + [];
    OneList([item]);
  }

  lemma OneList(items: seq<Object>)
    ensures Encode(List(items)) == [L] + EncodeItems(items) + [E]
  {
    hide EncodeItems;
  }

  /** So does a dictionary, and strings carry their length: d4:spam..e. */
  lemma KnownEncoding(value: Object)
    ensures Encode(Dict([Entry([115, 112, 97, 109], value)])) == [100] + ([52, 58, 115, 112, 97, 109] + Encode(value)) + [101]
  {
    var e := Entry([115, 112, 97, 109], value);
    KnownString();
    assert [e][1..] == [] && EncodeEntries([]) == [];
    hide Encode, EncodeBytes;
    assert EncodeEntries([e]) == EncodeBytes(e.key) + Encode(value) + [];
    OneDict([e]);
  }

  lemma OneDict(entries: seq<Entry>)
    ensures Encode(Dict(entries)) == [D] + EncodeEntries(entries) + [E]
  {
    hide EncodeEntries;
  }

  lemma KnownString()
    ensures EncodeBytes([115, 112, 97, 109]) == [52, 58, 115, 112, 97, 109]
  {
    assert Decimal(4) == [52];
  }
}
