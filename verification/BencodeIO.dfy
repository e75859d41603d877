/**
  The bencode parser and serializer as programs (cjdns-bencode/src/standard.rs): a parser that
  consumes a reader and counts its depth, and a serializer that writes a message back to front.
 */
module BencodeIO {
  import opened Wrappers
  import opened Objects
  import opened Bencode
  import opened Messages

  class Parser {
    var input: seq<Byte>
    var depth: nat
    const c: Config

    constructor (input: seq<Byte>, c: Config)
      ensures this.input == input && depth == 0 && this.c == c
    {
      this.input, depth, this.c := input, 0, c;
    }

    method ReadByte() returns (r: Result<Byte, ParseError>)
      modifies this`input
      ensures old(input) == [] ==> r == Err(Eof) && input == []
      ensures old(input) != [] ==> r == Ok(old(input)[0]) && input == old(input)[1..]
    {
      if input == [] {
        return Err(Eof);
      }
      r := Ok(input[0]);
      input := input[1..];
    }

    method ReadInt() returns (r: Result<int, ParseError>)
      modifies this`input
      ensures Agrees(ParseInt(old(input)), r, input)
    {
      var next := ReadByte();
      if next.Err? {
        return Err(next.error);
      }
      var byte := next.value;
      var isNegative := byte == MINUS;
      if isNegative {
        next := ReadByte();
        if next.Err? {
          return Err(next.error);
        }
        byte := next.value;
      }
      if byte == E {
        return Err(NoBody);
      }
      var num: nat := 0;
      ghost var spec := IntDigits(0, byte, input);
      while byte != E
        invariant IntDigits(num, byte, input) == spec
        decreases |input|, byte != E
      {
        if !IsDigit(byte) {
          return Err(BadCharacter);
        }
        num := num * 10 + Digit(byte);
        if num > I64_MAX {
          return Err(IntegerOverflow);
        }
        next := ReadByte();
        if next.Err? {
          return Err(next.error);
        }
        byte := next.value;
        if num == 0 && byte != E {
          return Err(LeadingZeros);
        }
      }
      if isNegative {
        if num == 0 {
          return Err(NegativeZero);
        }
        var n: int := num;
        return Ok(-n);
      }
      return Ok(num);
    }

    method ReadStringWithByte(first: Byte, acceptZeroPad: bool) returns (r: Result<seq<Byte>, ParseError>)
      modifies this`input
      ensures Agrees(ParseBytes(first, old(input), acceptZeroPad), r, input)
    {
      var len: nat := 0;
      var byte := first;
      ghost var spec := LengthDigits(0, byte, input, acceptZeroPad);
      while byte != COLON
        invariant LengthDigits(len, byte, input, acceptZeroPad) == spec
        decreases |input|, byte != COLON
      {
        if !IsDigit(byte) {
          return Err(BadCharacter);
        }
        len := len * 10 + Digit(byte);
        if len > USIZE_MAX {
          return Err(LengthOverflow);
        }
        var next := ReadByte();
        if next.Err? {
          return Err(next.error);
        }
        byte := next.value;
        if byte != COLON && len == 0 && !acceptZeroPad {
          return Err(LeadingZeros);
        }
      }
      if len > ISIZE_MAX {
        return Err(CapacityPanic);
      }
      if len > |input| {
        return Err(Eof);
      }
      r := Ok(input[..len]);
      input := input[len..];
    }

    method ReadList() returns (r: Result<seq<Object>, ParseError>)
      modifies this
      ensures Agrees(ParseItems(c, old(input), old(depth), []), r, input)
      ensures r.Ok? ==> depth == old(depth)
      decreases |input|, 1
    {
      var list: seq<Object> := [];
      while true
        invariant depth == old(depth) && |input| <= |old(input)|
        invariant ParseItems(c, input, depth, list) == ParseItems(c, old(input), old(depth), [])
        decreases |input|
      {
        var next := ReadByte();
        if next.Err? {
          return Err(next.error);
        }
        if next.value == E {
          return Ok(list);
        }
        var item := ReadGenericWithByte(next.value);
        if item.Err? {
          return Err(item.error);
        }
        list := list + [item.value];
      }
    }

    method ReadDict() returns (r: Result<seq<Entry>, ParseError>)
      modifies this
      ensures Agrees(ParseEntries(c, old(input), old(depth), [], c.acceptPad && old(depth) == 1), r, input)
      ensures r.Ok? ==> depth == old(depth)
      decreases |input|, 1
    {
      var dict: seq<Entry> := [];
      var acceptZeroPad := c.acceptPad && depth == 1;
      ghost var spec := ParseEntries(c, input, depth, [], acceptZeroPad);
      while true
        invariant depth == old(depth) && |input| <= |old(input)|
        invariant ParseEntries(c, input, depth, dict, acceptZeroPad) == spec
        decreases |input|
      {
        var next := ReadByte();
        if next.Err? {
          return Err(next.error);
        }
        if next.value == E {
          return Ok(dict);
        }
        var key := ReadStringWithByte(next.value, acceptZeroPad);
        if key.Err? {
          return Err(key.error);
        }
        var value := ReadGeneric();
        if value.Err? {
          return Err(value.error);
        }
        dict := Insert(dict, key.value, value.value);
        acceptZeroPad := false;
      }
    }

    method ReadGenericWithByte(chr: Byte) returns (r: Result<Object, ParseError>)
      modifies this
      ensures Agrees(ParseWith(c, chr, old(input), old(depth)), r, input)
      ensures r.Ok? ==> depth == old(depth)
      decreases |input|, 2
    {
      hide ParseItems, ParseEntries, ParseInt, ParseBytes;
      if depth > c.maxRecursion {
        return Err(TooDeep);
      }
      depth := depth + 1;
      if chr == L {
        var list := ReadList();
        if list.Err? {
          return Err(list.error);
        }
        r := Ok(List(list.value));
      } else if chr == D {
        var dict := ReadDict();
        if dict.Err? {
          return Err(dict.error);
        }
        r := Ok(Dict(dict.value));
      } else if chr == I {
        var n := ReadInt();
        if n.Err? {
          return Err(n.error);
        }
        r := Ok(Integer(n.value));
      } else if IsDigit(chr) {
        var b := ReadStringWithByte(chr, false);
        if b.Err? {
          return Err(b.error);
        }
        r := Ok(Bytes(b.value));
      } else {
        r := Err(BadCharacter);
      }
      depth := depth - 1;
    }

    method ReadGeneric() returns (r: Result<Object, ParseError>)
      modifies this
      ensures Agrees(Parse(c, old(input), old(depth)), r, input)
      ensures r.Ok? ==> depth == old(depth)
      decreases |input|, 0
    {
      var next := ReadByte();
      if next.Err? {
        return Err(next.error);
      }
      r := ReadGenericWithByte(next.value);
    }
  }

  lemma UnalignedIsPlain(o: Object, tail: seq<Byte>)
    ensures EncodeAligned(o, 0, tail) == Encode(o) + tail
  {
    if o.Dict? {
      assert Zeros(0) == [];
      assert [D] + [] + (EncodeEntries(o.entries) + [E] + tail) == Encode(o) + tail;
    }
  }

  lemma NoEntries(dict: seq<Entry>, tail: seq<Byte>)
    ensures EncodeEntries(dict[|dict|..]) + tail == tail
  {
  }

  lemma EntriesFrom(dict: seq<Entry>, i: nat, tail: seq<Byte>)
    requires i < |dict|
    ensures EncodeEntries(dict[i..]) + tail ==
            EncodeBytes(dict[i].key) + Encode(dict[i].value) + (EncodeEntries(dict[i + 1..]) + tail)
  {
    hide Encode, EncodeBytes;
    assert dict[i..][0] == dict[i] && dict[i..][1..] == dict[i + 1..];
  }

  lemma AlignedFrom(dict: seq<Entry>, align: nat, tail: seq<Byte>)
    ensures var body := EncodeEntries(dict) + ([E] + tail);
            EncodeAligned(Dict(dict), align, tail) == [D] + (Zeros(Padding(|body| + 1, align)) + body)
  {
    hide EncodeEntries, Zeros, Padding;
    assert EncodeEntries(dict) + [E] + tail == EncodeEntries(dict) + ([E] + tail);
  }

  class Serializer {
    const w: Message

    constructor (w: Message)
      ensures this.w == w
    {
      this.w := w;
    }

    method WriteList(list: seq<Object>)
      requires w.Valid()
      modifies w.Repr
      ensures w.Valid() && w.Repr >= old(w.Repr) && fresh(w.Repr - old(w.Repr))
      ensures w.Content() == [L] + EncodeItems(list) + [E] + old(w.Content())
      decreases list, 0
    {
      hide Message.Stacked, Flat, Encode, EncodeAligned;
      w.WriteAll([E]);
      var i := |list|;
      while i > 0
        invariant 0 <= i <= |list|
        invariant w.Valid() && w.Repr >= old(w.Repr) && fresh(w.Repr - old(w.Repr))
        invariant w.Content() == EncodeItems(list[i..]) + [E] + old(w.Content())
      {
        i := i - 1;
        ghost var before := w.Content();
        WriteValue(list[i], 0);
        UnalignedIsPlain(list[i], before);
        assert list[i..][0] == list[i] && list[i..][1..] == list[i + 1..];
      }
      w.WriteAll([L]);
      assert list[0..] == list;
    }

    method WriteInt(num: int)
      requires w.Valid()
      modifies w.Repr
      ensures w.Valid() && w.Repr >= old(w.Repr) && fresh(w.Repr - old(w.Repr))
      ensures w.Content() == EncodeInt(num) + old(w.Content())
    {
      hide Message.Stacked, Flat, SignedDecimal;
      w.WriteAll([E]);
      w.WriteAll(SignedDecimal(num));
      w.WriteAll([I]);
    }

    method WriteString(bytes: seq<Byte>)
      requires w.Valid()
      modifies w.Repr
      ensures w.Valid() && w.Repr >= old(w.Repr) && fresh(w.Repr - old(w.Repr))
      ensures w.Content() == EncodeBytes(bytes) + old(w.Content())
    {
      hide Message.Stacked, Flat, Decimal;
      w.WriteAll(bytes);
      w.WriteAll([COLON]);
      w.WriteAll(Decimal(|bytes|));
    }

    method WriteDict(dict: seq<Entry>, align: nat)
      requires w.Valid()
      modifies w.Repr
      ensures w.Valid() && w.Repr >= old(w.Repr) && fresh(w.Repr - old(w.Repr))
      ensures w.Content() == EncodeAligned(Dict(dict), align, old(w.Content()))
      decreases dict, 0
    {
      hide Message.Stacked, Flat, Encode, EncodeBytes, EncodeEntries, Zeros, Padding, EncodeAligned;
      w.WriteAll([E]);
      var i := |dict|;
      ghost var end := w.Content();
      NoEntries(dict, end);
      while i > 0
        invariant 0 <= i <= |dict|
        invariant w.Valid() && w.Repr >= old(w.Repr) && fresh(w.Repr - old(w.Repr))
        invariant w.Content() == EncodeEntries(dict[i..]) + end
      {
        i := i - 1;
        EntriesFrom(dict, i, end);
        WriteEntry(dict[i]);
      }
      assert dict[0..] == dict;
      WritePadding(align);
      w.WriteAll([D]);
      AlignedFrom(dict, align, old(w.Content()));
    }

    /** The value first, then the key in front of it. */
    method WriteEntry(e: Entry)
      requires w.Valid()
      modifies w.Repr
      ensures w.Valid() && w.Repr >= old(w.Repr) && fresh(w.Repr - old(w.Repr))
      ensures w.Content() == EncodeBytes(e.key) + Encode(e.value) + old(w.Content())
      decreases e, 0
    {
      hide Message.Stacked, Flat, Encode, EncodeBytes, EncodeAligned;
      ghost var before := w.Content();
      WriteValue(e.value, 0);
      UnalignedIsPlain(e.value, before);
      WriteString(e.key);
    }

    /** Zeros up to the alignment, counting the mark that is still to come. */
    method WritePadding(align: nat)
      requires w.Valid()
      modifies w.Repr
      ensures w.Valid() && w.Repr >= old(w.Repr) && fresh(w.Repr - old(w.Repr))
      ensures w.Content() == Zeros(Padding(|old(w.Content())| + 1, align)) + old(w.Content())
    {
      hide Message.Stacked, Flat;
      if align > 1 {
        var len := w.Len();
        var padding := Padding(len + 1, align);
        for i := 0 to padding
          invariant w.Valid() && w.Repr >= old(w.Repr) && fresh(w.Repr - old(w.Repr))
          invariant w.Content() == Zeros(i) + old(w.Content())
        {
          w.WriteAll([ZERO]);
        }
      }
    }

    method WriteValue(o: Object, align: nat)
      requires w.Valid()
      modifies w.Repr
      ensures w.Valid() && w.Repr >= old(w.Repr) && fresh(w.Repr - old(w.Repr))
      ensures w.Content() == EncodeAligned(o, align, old(w.Content()))
      decreases o, 1
    {
      hide Message.Stacked, Flat, EncodeBytes, EncodeInt, EncodeItems, EncodeEntries, Zeros, Padding;
      match o
      case Bytes(b) => WriteString(b);
      case Dict(entries) => WriteDict(entries, align);
      case List(items) => WriteList(items);
      case Integer(n) => WriteInt(n);
    }
  }

  /** Serializing a value and parsing the message gives the value and leaves what was behind it, or fails. */
  method RoundTrip(w: Message, o: Object, align: nat, c: Config) returns (r: Result<Object, ParseError>, unread: seq<Byte>)
    requires w.Valid() && WellFormed(o)
    modifies w.Repr
    ensures w.Valid() && w.Content() == EncodeAligned(o, align, old(w.Content()))
    ensures if Parseable(c, o, 0) && PadAccepted(c, o, align, |old(w.Content())|)
            then r == Ok(o) && unread == old(w.Content()) else r.Err?
  {
    hide Message.Stacked, Flat, Encode, Parse, Parseable, WellFormed, EncodeAligned, PadAccepted;
    ghost var tail := w.Content();
    var serializer := new Serializer(w);
    serializer.WriteValue(o, align);
    var bytes := w.AsVec();
    var parser := new Parser(bytes, c);
    r := parser.ReadGeneric();
    unread := parser.input;
    ParseOfWritten(c, o, align, tail);
  }
}
