/**
  The JSON parser and printer as programs (cjdns-bencode/src/json.rs): a parser with one byte of
  push-back, and a printer that writes a message back to front.
 */
module JsonIO {
  import opened Wrappers
  import opened Objects
  import opened Json
  import opened Messages

  /** `run` is the beginning of the number that `s` starts with, and `rest` is what follows. */
  ghost predicate RunSoFar(s: seq<Byte>, run: seq<Byte>, rest: seq<Byte>) {
    s == run + rest && NumberRun(s) == run + NumberRun(rest)
  }

  lemma RunStarts(s: seq<Byte>)
    ensures RunSoFar(s, [], s)
  {
  }

  lemma RunGoesOn(s: seq<Byte>, run: seq<Byte>, rest: seq<Byte>)
    requires RunSoFar(s, run, rest) && rest != [] && IsNumberByte(rest[0])
    ensures RunSoFar(s, run + [rest[0]], rest[1..])
  {
  }

  lemma RunEnds(s: seq<Byte>, run: seq<Byte>, rest: seq<Byte>)
    requires RunSoFar(s, run, rest) && (rest == [] || !IsNumberByte(rest[0]))
    ensures run == NumberRun(s) && rest == s[|run|..]
  {
  }

  lemma EscapeFrom(s: seq<Byte>, i: nat, tail: seq<Byte>)
    requires i < |s|
    ensures Escape(s[i..]) + tail == EscapeByte(s[i]) + (Escape(s[i + 1..]) + tail)
  {
    hide EscapeByte;
    assert s[i..][0] == s[i] && s[i..][1..] == s[i + 1..];
  }

  lemma NothingEscaped(s: seq<Byte>, tail: seq<Byte>)
    ensures Escape(s[|s|..]) + tail == tail
  {
  }

  lemma PrintItemsFrom(items: seq<Object>, i: nat, level: nat, tail: seq<Byte>)
    requires i < |items|
    ensures PrintItems(items[i..], level) + tail ==
            [NEWLINE] + (Indent(level) + (Print(items[i], level)
            + ((if i < |items| - 1 then [COMMA] else []) + (PrintItems(items[i + 1..], level) + tail))))
  {
    hide Print, Indent;
    assert items[i..][0] == items[i] && items[i..][1..] == items[i + 1..];
  }

  lemma PrintEntriesFrom(entries: seq<Entry>, i: nat, level: nat, tail: seq<Byte>)
    requires i < |entries|
    ensures PrintEntries(entries[i..], level) + tail ==
            Indent(level) + (Quoted(entries[i].key) + ([COLON, SPACE] + (Print(entries[i].value, level)
            + ((if i < |entries| - 1 then [COMMA, NEWLINE] else []) + (PrintEntries(entries[i + 1..], level) + tail)))))
  {
    hide Print, Indent, Quoted;
    assert entries[i..][0] == entries[i] && entries[i..][1..] == entries[i + 1..];
  }

  class Parser {
    var input: seq<Byte>
    var lastChr: Option<Byte>
    const laxMode: bool

    constructor (input: seq<Byte>, laxMode: bool)
      ensures Rest() == input && this.laxMode == laxMode
    {
      this.input, lastChr, this.laxMode := input, None, laxMode;
    }

    /** What is still to be read: the byte pushed back, then the input. */
    ghost function Rest(): seq<Byte>
      reads this
    {
      (if lastChr.Some? then [lastChr.value] else []) + input
    }

    method ReadByte() returns (r: Option<Byte>)
      modifies this
      ensures r.None? <==> old(Rest()) == []
      ensures r.None? ==> Rest() == []
      ensures r.Some? ==> lastChr.None? && r.value == old(Rest())[0] && Rest() == old(Rest())[1..]
    {
      if lastChr.Some? {
        r := lastChr;
        lastChr := None;
        return;
      }
      if input == [] {
        return None;
      }
      r := Some(input[0]);
      input := input[1..];
    }

    method ConsumeSinglelineComment()
      modifies this
      ensures Rest() == SkipLine(old(Rest()))
    {
      while true
        invariant SkipLine(Rest()) == SkipLine(old(Rest()))
        decreases |Rest()|
      {
        var byte := ReadByte();
        if byte.None? || byte.value == NEWLINE {
          return;
        }
      }
    }

    method ConsumeMultilineComment()
      modifies this
      ensures Rest() == SkipMultiline(old(Rest()))
    {
      while true
        invariant SkipMultiline(Rest()) == SkipMultiline(old(Rest()))
        decreases |Rest()|
      {
        ghost var before := Rest();
        var byte := ReadByte();
        if byte.None? {
          return;
        }
        if byte.value == STAR {
          var next := ReadByte();
          assert |before| > 1 ==> before[1..][1..] == before[2..];
          if next == Some(SLASH) {
            return;
          }
        }
      }
    }

    method HandleComment()
      modifies this
      ensures Rest() == SkipComment(old(Rest()))
    {
      hide SkipLine, SkipMultiline;
      var next := ReadByte();
      if next == Some(STAR) {
        ConsumeMultilineComment();
      } else if next == Some(SLASH) {
        ConsumeSinglelineComment();
      }
    }

    method NextMeaningfulChar() returns (r: Result<Byte, JsonError>)
      modifies this
      ensures Agrees(Next(old(Rest())), r, Rest())
      ensures r.Ok? ==> lastChr.None?
    {
      hide SkipComment;
      while true
        invariant Next(Rest()) == Next(old(Rest()))
        decreases |Rest()|
      {
        var byte := ReadByte();
        if byte.None? {
          return Err(OutOfContent);
        }
        if byte.value == SLASH {
          HandleComment();
        } else if byte.value != SPACE && byte.value != TAB && byte.value != NEWLINE {
          return Ok(byte.value);
        }
      }
    }

    method ReadTwoHexDigits() returns (r: Result<Byte, JsonError>)
      modifies this
      ensures |old(Rest())| < 2 ==> r == Err(InvalidHex)
      ensures |old(Rest())| >= 2 ==>
                match HexPair(old(Rest())[0], old(Rest())[1])
                case None => r == Err(InvalidHex)
                case Some(b) => r == Ok(b) && Rest() == old(Rest())[2..]
    {
      ghost var before := Rest();
      var first := ReadByte();
      if first.None? {
        return Err(InvalidHex);
      }
      var second := ReadByte();
      if second.None? {
        return Err(InvalidHex);
      }
      assert before[1..][1..] == before[2..];
      var pair := HexPair(first.value, second.value);
      r := if pair.Some? then Ok(pair.value) else Err(InvalidHex);
    }

    method ParseStr() returns (r: Result<seq<Byte>, JsonError>)
      modifies this
      ensures Agrees(ParseString(old(Rest()), []), r, Rest())
    {
      var result: seq<Byte> := [];
      while true
        invariant ParseString(Rest(), result) == ParseString(old(Rest()), [])
        decreases |Rest()|
      {
        ghost var before := Rest();
        var byte := ReadByte();
        if byte.None? || byte.value == QUOTE {
          return Ok(result);
        }
        if byte.value == BACKSLASH {
          var escaped := ReadByte();
          if escaped.Some? {
            if escaped.value != X {
              return Err(InvalidEscape);
            }
            assert before[1..][1..] == before[2..];
            var hex := ReadTwoHexDigits();
            if hex.Err? {
              return Err(hex.error);
            }
            assert before[2..][2..] == before[4..];
            result := result + [hex.value];
          }
        } else {
          result := result + [byte.value];
        }
      }
    }

    /** Reads digits and minus signs; the byte after them is pushed back. */
    method ReadNumberRun() returns (run: seq<Byte>)
      modifies this
      ensures run == NumberRun(old(Rest())) && Rest() == old(Rest())[|run|..]
    {
      hide NumberRun, RunSoFar;
      run := [];
      RunStarts(Rest());
      while true
        invariant RunSoFar(old(Rest()), run, Rest())
        decreases |Rest()|
      {
        ghost var before := Rest();
        var byte := ReadByte();
        if byte.None? {
          RunEnds(old(Rest()), run, before);
          return;
        }
        if !IsNumberByte(byte.value) {
          RunEnds(old(Rest()), run, before);
          lastChr := byte;
          assert Rest() == before;
          return;
        }
        RunGoesOn(old(Rest()), run, before);
        run := run + [byte.value];
      }
    }

    method ParseNumber(first: Byte) returns (r: Result<int, JsonError>)
      modifies this
      ensures Agrees(ParseInt(first, old(Rest())), r, Rest())
    {
      hide ReadI64, NumberRun;
      var run := ReadNumberRun();
      var n := ReadI64([first] + run);
      r := if n.Some? then Ok(n.value) else Err(InvalidInteger);
    }

    method Parse() returns (r: Result<Object, JsonError>)
      modifies this
      ensures Agrees(ParseValue(old(Rest()), laxMode), r, Rest())
      decreases |Rest()|, 0
    {
      hide ParseDict, ParseList, ParseString, ParseInt, Next;
      var next := NextMeaningfulChar();
      if next.Err? {
        return Err(next.error);
      }
      var byte := next.value;
      if byte == OPEN_DICT {
        var dict := ParseEntries();
        r := if dict.Ok? then Ok(Dict(dict.value)) else Err(dict.error);
      } else if byte == OPEN_LIST {
        var list := ParseItems();
        r := if list.Ok? then Ok(List(list.value)) else Err(list.error);
      } else if byte == QUOTE {
        var text := ParseStr();
        r := if text.Ok? then Ok(Bytes(text.value)) else Err(text.error);
      } else if IsNumberByte(byte) {
        var n := ParseNumber(byte);
        r := if n.Ok? then Ok(Integer(n.value)) else Err(n.error);
      } else {
        r := Err(UnexpectedCharacter);
      }
    }

    method ParseItems() returns (r: Result<seq<Object>, JsonError>)
      modifies this
      ensures Agrees(ParseList(old(Rest()), laxMode, [], false), r, Rest())
      decreases |Rest()|, 1
    {
      hide ParseValue, Next;
      var list: seq<Object> := [];
      var needComma := false;
      while true
        invariant |Rest()| <= |old(Rest())|
        invariant ParseList(Rest(), laxMode, list, needComma) == ParseList(old(Rest()), laxMode, [], false)
        decreases |Rest()|
      {
        var next := NextMeaningfulChar();
        if next.Err? {
          return Err(next.error);
        }
        var byte := next.value;
        if needComma && byte != CLOSE_LIST && byte != COMMA && !laxMode {
          return Err(ExpectingComma);
        }
        if byte == CLOSE_LIST {
          if list != [] && !needComma && !laxMode {
            return Err(TrailingComma);
          }
          return Ok(list);
        } else if byte == COMMA {
          if !needComma && !laxMode {
            return Err(UnexpectedComma);
          }
          needComma := false;
        } else if StartsValue(byte) {
          ghost var rest := Rest();
          lastChr := Some(byte);
          assert Rest() == [byte] + rest;
          var item := Parse();
          if item.Err? {
            return Err(item.error);
          }
          list := list + [item.value];
          needComma := true;
        } else {
          return Err(UnexpectedCharacter);
        }
      }
    }

    method ParseEntries() returns (r: Result<seq<Entry>, JsonError>)
      modifies this
      ensures Agrees(ParseDict(old(Rest()), laxMode, [], false), r, Rest())
      decreases |Rest()|, 1
    {
      hide ParseMember, ParseString, Next, Insert;
      var dict: seq<Entry> := [];
      var needComma := false;
      while true
        invariant |Rest()| <= |old(Rest())|
        invariant ParseDict(Rest(), laxMode, dict, needComma) == ParseDict(old(Rest()), laxMode, [], false)
        decreases |Rest()|
      {
        var next := NextMeaningfulChar();
        if next.Err? {
          return Err(next.error);
        }
        var byte := next.value;
        if needComma && byte != CLOSE_DICT && byte != COMMA && !laxMode {
          return Err(ExpectingComma);
        }
        if byte == CLOSE_DICT {
          if dict != [] && !needComma && !laxMode {
            return Err(TrailingComma);
          }
          return Ok(dict);
        } else if byte == QUOTE {
          var key := ParseStr();
          if key.Err? {
            return Err(key.error);
          }
          var value := ParseKeyedValue();
          if value.Err? {
            return Err(value.error);
          }
          dict := Insert(dict, key.value, value.value);
          needComma := true;
        } else if byte == COMMA {
          if !needComma && !laxMode {
            return Err(UnexpectedComma);
          }
          needComma := false;
        } else {
          return Err(UnexpectedCharacter);
        }
      }
    }

    /** The inner loop of the dictionary parser: a colon, then a value. */
    method ParseKeyedValue() returns (r: Result<Object, JsonError>)
      modifies this
      ensures Agrees(ParseMember(old(Rest()), laxMode, true), r, Rest())
      decreases |Rest()|, 1
    {
      hide ParseValue, Next;
      var needColon := true;
      while true
        invariant |Rest()| <= |old(Rest())|
        invariant ParseMember(Rest(), laxMode, needColon) == ParseMember(old(Rest()), laxMode, true)
        decreases |Rest()|
      {
        var next := NextMeaningfulChar();
        if next.Err? {
          return Err(next.error);
        }
        var byte := next.value;
        if needColon && byte != COLON && !laxMode {
          return Err(ExpectingColon);
        }
        if byte == COLON {
          if !needColon && !laxMode {
            return Err(DuplicateColon);
          }
          needColon := false;
        } else if StartsValue(byte) {
          ghost var rest := Rest();
          lastChr := Some(byte);
          assert Rest() == [byte] + rest;
          r := Parse();
          return;
        } else {
          return Err(UnexpectedCharacter);
        }
      }
    }
  }

  class Printer {
    const w: Message

    constructor (w: Message)
      ensures this.w == w
    {
      this.w := w;
    }

    method SerializeString(s: seq<Byte>)
      requires w.Valid()
      modifies w.Repr
      ensures w.Valid() && w.Repr >= old(w.Repr) && fresh(w.Repr - old(w.Repr))
      ensures w.Content() == Quoted(s) + old(w.Content())
    {
      hide Message.Stacked, Flat, Escape;
      w.WriteAll([QUOTE]);
      var i := |s|;
      NothingEscaped(s, w.Content());
      while i > 0
        invariant 0 <= i <= |s|
        invariant w.Valid() && w.Repr >= old(w.Repr) && fresh(w.Repr - old(w.Repr))
        invariant w.Content() == Escape(s[i..]) + ([QUOTE] + old(w.Content()))
      {
        i := i - 1;
        EscapeFrom(s, i, [QUOTE] + old(w.Content()));
        if IsPlain(s[i]) {
          w.WriteAll([s[i]]);
        } else {
          w.WriteAll([BACKSLASH, X, HexDigit(s[i] / 16), HexDigit(s[i] % 16)]);
        }
      }
      assert s[0..] == s;
      w.WriteAll([QUOTE]);
    }

    method SerializeReverse(o: Object, level: nat)
      requires w.Valid()
      modifies w.Repr
      ensures w.Valid() && w.Repr >= old(w.Repr) && fresh(w.Repr - old(w.Repr))
      ensures w.Content() == Print(o, level) + old(w.Content())
      decreases o, 1
    {
      hide Message.Stacked, Flat, Quoted, SignedDecimal, PrintItems, PrintEntries, Indent;
      match o
      case Bytes(s) =>
        SerializeString(s);
      case Integer(n) =>
        w.WriteAll(SignedDecimal(n));
      case List(items) =>
        SerializeList(items, level);
      case Dict(entries) =>
        SerializeDict(entries, level);
    }

    method SerializeList(items: seq<Object>, level: nat)
      requires w.Valid()
      modifies w.Repr
      ensures w.Valid() && w.Repr >= old(w.Repr) && fresh(w.Repr - old(w.Repr))
      ensures w.Content() == Print(List(items), level) + old(w.Content())
      decreases items, 1
    {
      hide Message.Stacked, Flat, PrintItems, Indent;
      w.WriteAll([CLOSE_LIST]);
      if items != [] {
        w.WriteAll(Indent(level));
        w.WriteAll([NEWLINE]);
        SerializeItems(items, level + 1);
      }
      w.WriteAll([OPEN_LIST]);
    }

    /** The loop over the items of a list, last item first. */
    method SerializeItems(items: seq<Object>, level: nat)
      requires w.Valid()
      modifies w.Repr
      ensures w.Valid() && w.Repr >= old(w.Repr) && fresh(w.Repr - old(w.Repr))
      ensures w.Content() == PrintItems(items, level) + old(w.Content())
      decreases items, 0
    {
      hide Message.Stacked, Flat, Print, Indent;
      var i := |items|;
      while i > 0
        invariant 0 <= i <= |items|
        invariant w.Valid() && w.Repr >= old(w.Repr) && fresh(w.Repr - old(w.Repr))
        invariant w.Content() == PrintItems(items[i..], level) + old(w.Content())
      {
        hide PrintItems;
        i := i - 1;
        PrintItemsFrom(items, i, level, old(w.Content()));
        SerializeItem(items[i], i < |items| - 1, level);
      }
      assert items[0..] == items;
    }

    method SerializeItem(o: Object, comma: bool, level: nat)
      requires w.Valid()
      modifies w.Repr
      ensures w.Valid() && w.Repr >= old(w.Repr) && fresh(w.Repr - old(w.Repr))
      ensures w.Content() ==
              [NEWLINE] + (Indent(level) + (Print(o, level) + ((if comma then [COMMA] else []) + old(w.Content()))))
      decreases o, 2
    {
      hide Message.Stacked, Flat, Print, Indent;
      assert [] + w.Content() == w.Content();
      if comma {
        w.WriteAll([COMMA]);
      }
      SerializeReverse(o, level);
      w.WriteAll(Indent(level));
      w.WriteAll([NEWLINE]);
    }

    method SerializeDict(entries: seq<Entry>, level: nat)
      requires w.Valid()
      modifies w.Repr
      ensures w.Valid() && w.Repr >= old(w.Repr) && fresh(w.Repr - old(w.Repr))
      ensures w.Content() == Print(Dict(entries), level) + old(w.Content())
      decreases entries, 1
    {
      hide Message.Stacked, Flat, PrintEntries, Indent;
      w.WriteAll([CLOSE_DICT]);
      if entries != [] {
        w.WriteAll(Indent(level));
        w.WriteAll([NEWLINE]);
        SerializeEntries(entries, level + 1);
        w.WriteAll([OPEN_DICT, NEWLINE]);
      } else {
        w.WriteAll([OPEN_DICT]);
      }
    }

    /** The loop over the entries of a dictionary, last key first. */
    method SerializeEntries(entries: seq<Entry>, level: nat)
      requires w.Valid()
      modifies w.Repr
      ensures w.Valid() && w.Repr >= old(w.Repr) && fresh(w.Repr - old(w.Repr))
      ensures w.Content() == PrintEntries(entries, level) + old(w.Content())
      decreases entries, 0
    {
      hide Message.Stacked, Flat, Print, Indent, Quoted;
      var i := |entries|;
      while i > 0
        invariant 0 <= i <= |entries|
        invariant w.Valid() && w.Repr >= old(w.Repr) && fresh(w.Repr - old(w.Repr))
        invariant w.Content() == PrintEntries(entries[i..], level) + old(w.Content())
      {
        hide PrintEntries;
        i := i - 1;
        PrintEntriesFrom(entries, i, level, old(w.Content()));
        SerializeEntry(entries[i], i < |entries| - 1, level);
      }
      assert entries[0..] == entries;
    }

    method SerializeEntry(e: Entry, comma: bool, level: nat)
      requires w.Valid()
      modifies w.Repr
      ensures w.Valid() && w.Repr >= old(w.Repr) && fresh(w.Repr - old(w.Repr))
      ensures w.Content() ==
              Indent(level) + (Quoted(e.key) + ([COLON, SPACE] + (Print(e.value, level)
              + ((if comma then [COMMA, NEWLINE] else []) + old(w.Content())))))
      decreases e, 2
    {
      hide Message.Stacked, Flat, Print, Indent, Quoted;
      assert [] + w.Content() == w.Content();
      if comma {
        w.WriteAll([COMMA, NEWLINE]);
      }
      SerializeReverse(e.value, level);
      w.WriteAll([COLON, SPACE]);
      SerializeString(e.key);
      w.WriteAll(Indent(level));
    }
  }

  /** Printing any value into an empty message and parsing the text gives the value, in both modes. */
  method RoundTrip(w: Message, o: Object, laxMode: bool) returns (r: Result<Object, JsonError>)
    requires w.Valid() && w.Content() == [] && WellFormed(o)
    modifies w.Repr
    ensures w.Valid()
    ensures r == Ok(o)
  {
    hide Message.Stacked, Flat, Print, ParseValue, WellFormed;
    var printer := new Printer(w);
    printer.SerializeReverse(o, 0);
    var text := w.AsVec();
    assert text == Print(o, 0) + [];
    ParseOfPrint(o, 0, []);
    LaxExtendsStrict(text);
    var parser := new Parser(text, laxMode);
    r := parser.Parse();
  }
}
