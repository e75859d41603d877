/**
  The JSON dialect of cjdns (cjdns-bencode/src/json.rs): the printed text, the parser as a function
  of its input in strict and lax mode, and the proof that the strict parser undoes printing.
  Strings hold arbitrary bytes, written as \xHH where they are not plain text.
 */
module Json {
  import opened Wrappers
  import opened Objects

  datatype JsonError =
    | OutOfContent
    | UnexpectedCharacter
    | ExpectingComma
    | TrailingComma
    | UnexpectedComma
    | ExpectingColon
    | DuplicateColon
    | InvalidEscape
    | InvalidHex
    | InvalidInteger

  const QUOTE: Byte := 34
  const STAR: Byte := '*' as int
  const PLUS: Byte := '+' as int
  const COMMA: Byte := ',' as int
  const MINUS: Byte := '-' as int
  const SLASH: Byte := '/' as int
  const COLON: Byte := ':' as int
  const OPEN_LIST: Byte := '[' as int
  const BACKSLASH: Byte := 92
  const CLOSE_LIST: Byte := ']' as int
  const X: Byte := 'x' as int
  const OPEN_DICT: Byte := '{' as int
  const CLOSE_DICT: Byte := '}' as int
  const TAB: Byte := 9
  const NEWLINE: Byte := 10
  const SPACE: Byte := 32

  // ---------------------------------------------------------------- printing

  function HexDigit(d: nat): (b: Byte)
    requires d < 16
  {
    if d < 10 then 48 + d else 55 + d
  }

  predicate IsPlain(b: Byte) {
    31 < b < 126 && b != BACKSLASH && b != QUOTE
  }

  function EscapeByte(b: Byte): (r: seq<Byte>)
    ensures r != []
  {
    if IsPlain(b) then [b] else [BACKSLASH, X, HexDigit(b / 16), HexDigit(b % 16)]
  }

  function Escape(s: seq<Byte>): seq<Byte> {
    if s == [] then [] else EscapeByte(s[0]) + Escape(s[1..])
  }

  function Quoted(s: seq<Byte>): seq<Byte> {
    [QUOTE] + Escape(s) + [QUOTE]
  }

  function Indent(level: nat): (r: seq<Byte>)
    ensures |r| == 2 * level && forall i :: 0 <= i < |r| ==> r[i] == 32
  {
    if level == 0 then [] else [SPACE, SPACE] + Indent(level - 1)
  }

  function Print(o: Object, level: nat): (r: seq<Byte>)
    ensures r != []
    decreases o, 1
  {
    match o
    case Bytes(s) => Quoted(s)
    case Integer(n) => SignedDecimal(n)
    case List(items) =>
      if items == [] then [OPEN_LIST, CLOSE_LIST]
      else [OPEN_LIST] + PrintItems(items, level + 1) + [NEWLINE] + Indent(level) + [CLOSE_LIST]
    case Dict(entries) =>
      if entries == [] then [OPEN_DICT, CLOSE_DICT]
      else [OPEN_DICT, NEWLINE] + PrintEntries(entries, level + 1) + [NEWLINE] + Indent(level) + [CLOSE_DICT]
  }

  function PrintItems(items: seq<Object>, level: nat): seq<Byte>
    decreases items, 0
  {
    if items == [] then []
    else [NEWLINE] + Indent(level) + Print(items[0], level)
         + (if |items| > 1 then [COMMA] else []) + PrintItems(items[1..], level)
  }

  function PrintEntries(entries: seq<Entry>, level: nat): seq<Byte>
    decreases entries, 0
  {
    if entries == [] then []
    else Indent(level) + Quoted(entries[0].key) + [COLON, SPACE] + Print(entries[0].value, level)
         + (if |entries| > 1 then [COMMA, NEWLINE] else []) + PrintEntries(entries[1..], level)
  }

  // ---------------------------------------------------------------- parsing

  function SkipLine(s: seq<Byte>): (r: seq<Byte>)
    ensures |r| <= |s|
  {
    if s == [] then [] else if s[0] == NEWLINE then s[1..] else SkipLine(s[1..])
  }

  function SkipMultiline(s: seq<Byte>): (r: seq<Byte>)
    ensures |r| <= |s|
  {
    if s == [] then []
    else if s[0] != STAR then SkipMultiline(s[1..])
    else if |s| == 1 then []
    else if s[1] == SLASH then s[2..]
    else SkipMultiline(s[2..])
  }

  /** After a slash: two kinds of comment; any other byte is dropped. */
  function SkipComment(s: seq<Byte>): (r: seq<Byte>)
    ensures |r| <= |s|
  {
    if s == [] then []
    else if s[0] == STAR then SkipMultiline(s[1..])
    else if s[0] == SLASH then SkipLine(s[1..])
    else s[1..]
  }

  /** The next byte that is not blank space or comment. */
  function Next(s: seq<Byte>): (r: Parsed<Byte, JsonError>)
    ensures r.Done? ==> |r.rest| < |s|
    decreases |s|
  {
    if s == [] then Failed(OutOfContent)
    else if s[0] == SLASH then Next(SkipComment(s[1..]))
    else if s[0] == SPACE || s[0] == TAB || s[0] == NEWLINE then Next(s[1..])
    else Done(s[0], s[1..])
  }

  function HexValue(b: Byte): (r: Option<nat>)
    ensures r.Some? ==> r.value < 16
  {
    if IsDigit(b) then Some(b - 48)
    else if 65 <= b <= 70 then Some(b - 55)
    else if 97 <= b <= 102 then Some(b - 87)
    else None
  }

  /** Two hexadecimal digits; the number reader also takes a plus sign in place of the first. */
  function HexPair(a: Byte, b: Byte): (r: Option<Byte>) {
    var lo := HexValue(b);
    if lo.None? then None
    else if a == PLUS then Some(lo.value)
    else match HexValue(a)
      case None => None
      case Some(hi) => Some(16 * hi + lo.value)
  }

  /** The rest of a string after its opening quote; the end of input also ends it. */
  function ParseString(s: seq<Byte>, read: seq<Byte>): (r: Parsed<seq<Byte>, JsonError>)
    ensures r.Done? ==> |r.rest| <= |s|
    decreases |s|
  {
    if s == [] then Done(read, [])
    else if s[0] == QUOTE then Done(read, s[1..])
    else if s[0] != BACKSLASH then ParseString(s[1..], read + [s[0]])
    else if |s| == 1 then Done(read, [])
    else if s[1] != X then Failed(InvalidEscape)
    else if |s| < 4 then Failed(InvalidHex)
    else match HexPair(s[2], s[3])
      case None => Failed(InvalidHex)
      case Some(b) => ParseString(s[4..], read + [b])
  }

  predicate IsNumberByte(b: Byte) {
    IsDigit(b) || b == MINUS
  }

  /** The longest run of digits and minus signs. */
  function NumberRun(s: seq<Byte>): (r: seq<Byte>)
    ensures |r| <= |s| && r == s[..|r|] && (|r| < |s| ==> !IsNumberByte(s[|r|]))
  {
    if s == [] || !IsNumberByte(s[0]) then [] else [s[0]] + NumberRun(s[1..])
  }

  /** Digits with an optional minus sign, within 64 bits. */
  function ReadI64(text: seq<Byte>): Option<int> {
    var negative := text != [] && text[0] == MINUS;
    var digits := if negative then text[1..] else text;
    if digits == [] || !AllDigits(digits) then None
    else
      var m: int := DigitsValue(0, digits);
      var n := if negative then -m else m;
      if I64_MIN <= n <= I64_MAX then Some(n) else None
  }

  function ParseInt(first: Byte, s: seq<Byte>): (r: Parsed<int, JsonError>)
    ensures r.Done? ==> |r.rest| <= |s|
  {
    var run := NumberRun(s);
    match ReadI64([first] + run)
    case None => Failed(InvalidInteger)
    case Some(n) => Done(n, s[|run|..])
  }

  predicate StartsValue(b: Byte) {
    b == OPEN_DICT || b == OPEN_LIST || b == QUOTE || IsNumberByte(b)
  }

  function ParseValue(s: seq<Byte>, lax: bool): (r: Parsed<Object, JsonError>)
    ensures r.Done? ==> |r.rest| < |s|
    decreases |s|, 0
  {
    match Next(s)
    case Failed(e) => Failed(e)
    case Done(b, s') =>
      if b == OPEN_DICT then
        match ParseDict(s', lax, [], false)
        case Done(entries, rest) => Done(Dict(entries), rest)
        case Failed(e) => Failed(e)
      else if b == OPEN_LIST then
        match ParseList(s', lax, [], false)
        case Done(items, rest) => Done(List(items), rest)
        case Failed(e) => Failed(e)
      else if b == QUOTE then
        match ParseString(s', [])
        case Done(text, rest) => Done(Bytes(text), rest)
        case Failed(e) => Failed(e)
      else if IsNumberByte(b) then
        match ParseInt(b, s')
        case Done(n, rest) => Done(Integer(n), rest)
        case Failed(e) => Failed(e)
      else Failed(UnexpectedCharacter)
  }

  function ParseList(s: seq<Byte>, lax: bool, items: seq<Object>, needComma: bool): (r: Parsed<seq<Object>, JsonError>)
    ensures r.Done? ==> |r.rest| < |s|
    decreases |s|, 1
  {
    match Next(s)
    case Failed(e) => Failed(e)
    case Done(b, s') =>
      if needComma && b != CLOSE_LIST && b != COMMA && !lax then Failed(ExpectingComma)
      else if b == CLOSE_LIST then
        if items != [] && !needComma && !lax then Failed(TrailingComma) else Done(items, s')
      else if b == COMMA then
        if !needComma && !lax then Failed(UnexpectedComma) else ParseList(s', lax, items, false)
      else if StartsValue(b) then
        match ParseValue([b] + s', lax)
        case Failed(e) => Failed(e)
        case Done(item, rest) => ParseList(rest, lax, items + [item], true)
      else Failed(UnexpectedCharacter)
  }

  function ParseDict(s: seq<Byte>, lax: bool, entries: seq<Entry>, needComma: bool): (r: Parsed<seq<Entry>, JsonError>)
    ensures r.Done? ==> |r.rest| < |s|
    decreases |s|, 1
  {
    match Next(s)
    case Failed(e) => Failed(e)
    case Done(b, s') =>
      if needComma && b != CLOSE_DICT && b != COMMA && !lax then Failed(ExpectingComma)
      else if b == CLOSE_DICT then
        if entries != [] && !needComma && !lax then Failed(TrailingComma) else Done(entries, s')
      else if b == QUOTE then
        match ParseString(s', [])
        case Failed(e) => Failed(e)
        case Done(key, s'') =>
          match ParseMember(s'', lax, true)
          case Failed(e) => Failed(e)
          case Done(value, rest) => ParseDict(rest, lax, Insert(entries, key, value), true)
      else if b == COMMA then
        if !needComma && !lax then Failed(UnexpectedComma) else ParseDict(s', lax, entries, false)
      else Failed(UnexpectedCharacter)
  }

  /** What follows a key: a colon and the value. */
  function ParseMember(s: seq<Byte>, lax: bool, needColon: bool): (r: Parsed<Object, JsonError>)
    ensures r.Done? ==> |r.rest| < |s|
    decreases |s|, 1
  {
    match Next(s)
    case Failed(e) => Failed(e)
    case Done(b, s') =>
      if needColon && b != COLON && !lax then Failed(ExpectingColon)
      else if b == COLON then
        if !needColon && !lax then Failed(DuplicateColon) else ParseMember(s', lax, false)
      else if StartsValue(b) then ParseValue([b] + s', lax)
      else Failed(UnexpectedCharacter)
  }

  // ---------------------------------------------------------------- lax mode is an extension

  /** Wherever strict mode succeeds, lax mode gives the same value and leaves the same input. */
  lemma {:induction false} LaxExtendsStrict(s: seq<Byte>)
    requires ParseValue(s, false).Done?
    ensures ParseValue(s, true) == ParseValue(s, false)
    decreases |s|, 0
  {
    hide ParseString, ParseInt, ParseDict, ParseList;
    var s' := Next(s).rest;
    if Next(s).value == OPEN_DICT {
      LaxDict(s', [], false);
    } else if Next(s).value == OPEN_LIST {
      LaxList(s', [], false);
    }
  }

  lemma {:induction false} LaxList(s: seq<Byte>, items: seq<Object>, needComma: bool)
    requires ParseList(s, false, items, needComma).Done?
    ensures ParseList(s, true, items, needComma) == ParseList(s, false, items, needComma)
    decreases |s|, 1
  {
    hide ParseValue, Next;
    var b, s' := Next(s).value, Next(s).rest;
    if b == COMMA {
      LaxList(s', items, false);
    } else if b != CLOSE_LIST {
      LaxExtendsStrict([b] + s');
      var item := ParseValue([b] + s', false);
      LaxList(item.rest, items + [item.value], true);
    }
  }

  lemma {:induction false} LaxDict(s: seq<Byte>, entries: seq<Entry>, needComma: bool)
    requires ParseDict(s, false, entries, needComma).Done?
    ensures ParseDict(s, true, entries, needComma) == ParseDict(s, false, entries, needComma)
    decreases |s|, 1
  {
    hide ParseString, ParseMember, Next, Insert;
    var b, s' := Next(s).value, Next(s).rest;
    if b == COMMA {
      LaxDict(s', entries, false);
    } else if b == QUOTE {
      var key := ParseString(s', []);
      LaxMember(key.rest, true);
      var member := ParseMember(key.rest, false, true);
      LaxDict(member.rest, Insert(entries, key.value, member.value), true);
    }
  }

  lemma {:induction false} LaxMember(s: seq<Byte>, needColon: bool)
    requires ParseMember(s, false, needColon).Done?
    ensures ParseMember(s, true, needColon) == ParseMember(s, false, needColon)
    decreases |s|, 1
  {
    hide ParseValue, Next;
    var b, s' := Next(s).value, Next(s).rest;
    if b == COLON {
      LaxMember(s', false);
    } else {
      LaxExtendsStrict([b] + s');
    }
  }

  // ---------------------------------------------------------------- parsing undoes printing

  lemma HexPairOf(b: Byte)
    ensures HexPair(HexDigit(b / 16), HexDigit(b % 16)) == Some(b)
  {
  }

  lemma EscapedByte(b: Byte, more: seq<Byte>, read: seq<Byte>)
    ensures ParseString(EscapeByte(b) + more, read) == ParseString(more, read + [b])
  {
    var s := EscapeByte(b) + more;
    HexPairOf(b);
    hide HexPair, HexDigit;
    assert s[|EscapeByte(b)|..] == more;
  }

  lemma {:induction false} ParseStringOf(text: seq<Byte>, tail: seq<Byte>, read: seq<Byte>)
    ensures ParseString(Escape(text) + [QUOTE] + tail, read) == Done(read + text, tail)
    decreases text
  {
    hide EscapeByte;
    var s := Escape(text) + [QUOTE] + tail;
    if text == [] {
      assert s[1..] == tail && read + text == read;
    } else {
      hide ParseString;
      var b := text[0];
      var more := Escape(text[1..]) + [QUOTE] + tail;
      assert s == EscapeByte(b) + more;
      EscapedByte(b, more, read);
      ParseStringOf(text[1..], tail, read + [b]);
      assert read + [b] + text[1..] == read + text;
    }
  }

  ghost predicate EndsNumber(tail: seq<Byte>) {
    tail == [] || !IsNumberByte(tail[0])
  }

  lemma {:induction false} NumberRunOf(run: seq<Byte>, tail: seq<Byte>)
    requires (forall i :: 0 <= i < |run| ==> IsNumberByte(run[i])) && EndsNumber(tail)
    ensures NumberRun(run + tail) == run
  {
    if run == [] {
      assert run + tail == tail;
    } else {
      assert (run + tail)[1..] == run[1..] + tail;
      NumberRunOf(run[1..], tail);
    }
  }

  lemma ReadI64Of(n: int)
    requires I64_MIN <= n <= I64_MAX
    ensures ReadI64(SignedDecimal(n)) == Some(n)
  {
    hide Decimal, DigitsValue;
    var m := if n < 0 then -n else n;
    DecimalValue(m);
    var text := SignedDecimal(n);
    assert (if n < 0 then text[1..] else text) == Decimal(m);
  }

  lemma ParseIntOf(n: int, tail: seq<Byte>)
    requires I64_MIN <= n <= I64_MAX && EndsNumber(tail)
    ensures var s := SignedDecimal(n) + tail;
            ParseInt(s[0], s[1..]) == Done(n, tail)
  {
    hide Decimal, ReadI64, NumberRun;
    var text := SignedDecimal(n);
    var s := text + tail;
    assert s[1..] == text[1..] + tail;
    NumberRunOf(text[1..], tail);
    assert [s[0]] + text[1..] == text;
    ReadI64Of(n);
  }

  lemma {:induction false} NextAfterIndent(level: nat, s: seq<Byte>)
    ensures Next(Indent(level) + s) == Next(s)
  {
    if level == 0 {
      assert Indent(level) + s == s;
    } else {
      var t := Indent(level) + s;
      assert t[1..][1..] == Indent(level - 1) + s;
      assert t[0] == SPACE && t[1..][0] == SPACE;
      NextAfterIndent(level - 1, s);
    }
  }

  lemma NextAfterLine(level: nat, s: seq<Byte>)
    ensures Next([NEWLINE] + Indent(level) + s) == Next(s)
  {
    hide Indent;
    var t := [NEWLINE] + Indent(level) + s;
    assert t[1..] == Indent(level) + s;
    NextAfterIndent(level, s);
  }

  /** A printed value begins with a byte that is neither blank nor a comment. */
  lemma NextOfPrint(o: Object, level: nat, tail: seq<Byte>)
    ensures var s := Print(o, level) + tail;
            StartsValue(s[0]) && Next(s) == Done(s[0], s[1..])
  {
    hide PrintItems, PrintEntries, Escape, Indent, Decimal;
  }

  /** Strict parsing gives every value back that has been printed, at any indentation. */
  lemma {:induction false} ParseOfPrint(o: Object, level: nat, tail: seq<Byte>)
    requires WellFormed(o) && (o.Integer? ==> EndsNumber(tail))
    ensures ParseValue(Print(o, level) + tail, false) == Done(o, tail)
    decreases o, 1
  {
    match o
    case Bytes(text) => ParsePrintedBytes(text, level, tail);
    case Integer(n) => ParsePrintedInt(n, level, tail);
    case List(items) => ParsePrintedList(items, level, tail);
    case Dict(entries) => ParsePrintedDict(entries, level, tail);
  }

  lemma ParsePrintedBytes(text: seq<Byte>, level: nat, tail: seq<Byte>)
    ensures ParseValue(Print(Bytes(text), level) + tail, false) == Done(Bytes(text), tail)
  {
    hide Escape, ParseList, ParseDict, ParseString, ParseInt, Next;
    var s := Print(Bytes(text), level) + tail;
    NextOfPrint(Bytes(text), level, tail);
    ParseStringOf(text, tail, []);
    assert s[1..] == Escape(text) + [QUOTE] + tail && [] + text == text;
  }

  lemma ParsePrintedInt(n: int, level: nat, tail: seq<Byte>)
    requires I64_MIN <= n <= I64_MAX && EndsNumber(tail)
    ensures ParseValue(Print(Integer(n), level) + tail, false) == Done(Integer(n), tail)
  {
    hide ParseList, ParseDict, ParseString, ParseInt, Next;
    NextOfPrint(Integer(n), level, tail);
    ParseIntOf(n, tail);
  }

  lemma {:induction false} ParsePrintedList(items: seq<Object>, level: nat, tail: seq<Byte>)
    requires forall i :: 0 <= i < |items| ==> WellFormed(items[i])
    ensures ParseValue(Print(List(items), level) + tail, false) == Done(List(items), tail)
    decreases items, 1
  {
    hide PrintItems, Indent, ParseList, ParseDict, ParseString, ParseInt, Next;
    var s := Print(List(items), level) + tail;
    NextOfPrint(List(items), level, tail);
    if items == [] {
      assert s[1..] == [CLOSE_LIST] + tail;
      CloseList(tail);
    } else {
      assert s[1..] == PrintItems(items, level + 1) + ([NEWLINE] + Indent(level) + [CLOSE_LIST] + tail);
      ParseListOf(items, level, [], tail);
      assert [] + items == items;
    }
  }

  lemma {:induction false} ParsePrintedDict(entries: seq<Entry>, level: nat, tail: seq<Byte>)
    requires Ascending(entries) && forall i :: 0 <= i < |entries| ==> WellFormed(entries[i].value)
    ensures ParseValue(Print(Dict(entries), level) + tail, false) == Done(Dict(entries), tail)
    decreases entries, 1
  {
    hide PrintEntries, Indent, ParseList, ParseDict, ParseString, ParseInt, Next, Ascending, WellFormed;
    var s := Print(Dict(entries), level) + tail;
    NextOfPrint(Dict(entries), level, tail);
    if entries == [] {
      assert s[1..] == [CLOSE_DICT] + tail;
      CloseDict(tail);
    } else {
      var more := PrintEntries(entries, level + 1) + ([NEWLINE] + Indent(level) + [CLOSE_DICT] + tail);
      assert s[1..] == [NEWLINE] + more;
      assert [] + entries == entries;
      ParseDictOf(entries, level, [], tail);
      DictAfterLine(more);
    }
  }

  lemma CloseList(tail: seq<Byte>)
    ensures ParseList([CLOSE_LIST] + tail, false, [], false) == Done([], tail)
  {
    assert ([CLOSE_LIST] + tail)[1..] == tail;
  }

  lemma CloseDict(tail: seq<Byte>)
    ensures ParseDict([CLOSE_DICT] + tail, false, [], false) == Done([], tail)
  {
    assert ([CLOSE_DICT] + tail)[1..] == tail;
  }

  lemma DictAfterLine(s: seq<Byte>)
    ensures ParseDict([NEWLINE] + s, false, [], false) == ParseDict(s, false, [], false)
  {
    assert ([NEWLINE] + s)[1..] == s;
    assert Next([NEWLINE] + s) == Next(s);
  }

  lemma ListItem(o: Object, level: nat, after: seq<Byte>, acc: seq<Object>)
    requires ParseValue(Print(o, level) + after, false) == Done(o, after)
    ensures ParseList([NEWLINE] + Indent(level) + (Print(o, level) + after), false, acc, false) ==
            ParseList(after, false, acc + [o], true)
  {
    hide Print, Indent, ParseValue, Next;
    var item := Print(o, level) + after;
    NextAfterLine(level, item);
    NextOfPrint(o, level, after);
    assert [item[0]] + item[1..] == item;
  }

  /** The text after the first item: a comma and the other items, or the end of the list. */
  ghost function AfterItem(items: seq<Object>, level: nat, end: seq<Byte>): seq<Byte>
    requires items != []
  {
    if |items| > 1 then [COMMA] + (PrintItems(items[1..], level) + end) else end
  }

  lemma FirstItem(items: seq<Object>, level: nat, end: seq<Byte>)
    requires items != []
    ensures PrintItems(items, level) + end ==
            [NEWLINE] + Indent(level) + (Print(items[0], level) + AfterItem(items, level, end))
  {
    hide Print, Indent;
    assert |items| == 1 ==> items[1..] == [];
  }

  lemma {:induction false} ParseListOf(items: seq<Object>, level: nat, acc: seq<Object>, tail: seq<Byte>)
    requires items != [] && forall i :: 0 <= i < |items| ==> WellFormed(items[i])
    ensures ParseList(PrintItems(items, level + 1) + ([NEWLINE] + Indent(level) + [CLOSE_LIST] + tail), false, acc, false) ==
            Done(acc + items, tail)
    decreases items, 0
  {
    hide Print, Indent, ParseValue, ParseList, WellFormed, Next, PrintItems;
    var end := [NEWLINE] + Indent(level) + [CLOSE_LIST] + tail;
    var after := AfterItem(items, level + 1, end);
    FirstItem(items, level + 1, end);
    ParseOfPrint(items[0], level + 1, after);
    ListItem(items[0], level + 1, after, acc);
    if |items| == 1 {
      ListEnds(level, acc + [items[0]], tail);
      assert acc + [items[0]] == acc + items;
    } else {
      ParseListOf(items[1..], level, acc + [items[0]], tail);
      ListContinues(PrintItems(items[1..], level + 1) + end, acc + [items[0]]);
      assert acc + [items[0]] + items[1..] == acc + items;
    }
  }

  lemma ListEnds(level: nat, items: seq<Object>, tail: seq<Byte>)
    ensures ParseList([NEWLINE] + Indent(level) + [CLOSE_LIST] + tail, false, items, true) == Done(items, tail)
  {
    var t := [CLOSE_LIST] + tail;
    assert t[1..] == tail;
    assert Next(t) == Done(CLOSE_LIST, tail);
    NextAfterLine(level, t);
    assert [NEWLINE] + Indent(level) + [CLOSE_LIST] + tail == [NEWLINE] + Indent(level) + t;
  }

  lemma ListContinues(more: seq<Byte>, items: seq<Object>)
    ensures ParseList([COMMA] + more, false, items, true) == ParseList(more, false, items, false)
  {
    assert ([COMMA] + more)[1..] == more;
    assert Next([COMMA] + more) == Done(COMMA, more);
  }

  lemma DictEntry(e: Entry, level: nat, after: seq<Byte>, acc: seq<Entry>)
    requires ParseMember([COLON, SPACE] + Print(e.value, level) + after, false, true) == Done(e.value, after)
    ensures ParseDict(Indent(level) + Quoted(e.key) + ([COLON, SPACE] + Print(e.value, level) + after), false, acc, false) ==
            ParseDict(after, false, Insert(acc, e.key, e.value), true)
  {
    hide Print, Indent, ParseMember, ParseString, Next, Escape, Insert;
    var member := [COLON, SPACE] + Print(e.value, level) + after;
    var key := Escape(e.key) + [QUOTE] + member;
    assert Indent(level) + Quoted(e.key) + member == Indent(level) + ([QUOTE] + key);
    NextAfterIndent(level, [QUOTE] + key);
    NextOfQuote(key);
    ParseStringOf(e.key, member, []);
    assert [] + e.key == e.key;
  }

  /** The text after the first entry: a comma and the other entries, or the end of the dictionary. */
  ghost function AfterEntry(entries: seq<Entry>, level: nat, end: seq<Byte>): seq<Byte>
    requires entries != []
  {
    if |entries| > 1 then [COMMA, NEWLINE] + (PrintEntries(entries[1..], level) + end) else end
  }

  lemma FirstEntry(entries: seq<Entry>, level: nat, end: seq<Byte>)
    requires entries != []
    ensures PrintEntries(entries, level) + end ==
            Indent(level) + Quoted(entries[0].key) +
            ([COLON, SPACE] + Print(entries[0].value, level) + AfterEntry(entries, level, end))
  {
    hide Print, Indent, Quoted;
    assert |entries| == 1 ==> entries[1..] == [];
  }

  lemma {:induction false} ParseDictOf(entries: seq<Entry>, level: nat, acc: seq<Entry>, tail: seq<Byte>)
    requires entries != [] && Ascending(acc + entries)
    requires forall i :: 0 <= i < |entries| ==> WellFormed(entries[i].value)
    ensures ParseDict(PrintEntries(entries, level + 1) + ([NEWLINE] + Indent(level) + [CLOSE_DICT] + tail), false, acc, false) ==
            Done(acc + entries, tail)
    decreases entries, 0
  {
    hide Print, Indent, ParseMember, ParseDict, WellFormed, Next, Quoted, Ascending, Insert, PrintEntries;
    var e := entries[0];
    var end := [NEWLINE] + Indent(level) + [CLOSE_DICT] + tail;
    var after := AfterEntry(entries, level + 1, end);
    FirstEntry(entries, level + 1, end);
    ParseMemberOf(e.value, level + 1, after);
    DictEntry(e, level + 1, after, acc);
    assert acc + [e] + entries[1..] == acc + entries;
    AscendingPrefix(acc + entries, |acc| + 1);
    assert (acc + entries)[..|acc| + 1] == acc + [e];
    InsertLast(acc, e);
    if |entries| == 1 {
      DictEnds(level, acc + [e], tail);
      assert acc + [e] == acc + entries;
    } else {
      ParseDictOf(entries[1..], level, acc + [e], tail);
      DictContinues(PrintEntries(entries[1..], level + 1) + end, acc + [e]);
    }
  }

  lemma NextOfQuote(s: seq<Byte>)
    ensures Next([QUOTE] + s) == Done(QUOTE, s)
  {
    assert ([QUOTE] + s)[1..] == s;
  }

  lemma {:induction false} ParseMemberOf(o: Object, level: nat, after: seq<Byte>)
    requires WellFormed(o) && EndsNumber(after)
    ensures ParseMember([COLON, SPACE] + Print(o, level) + after, false, true) == Done(o, after)
    decreases o, 2
  {
    hide Print, ParseValue, WellFormed;
    var text := Print(o, level) + after;
    var s := [COLON, SPACE] + Print(o, level) + after;
    assert s[1..] == [SPACE] + text && ([SPACE] + text)[1..] == text;
    assert Next(s) == Done(COLON, [SPACE] + text);
    NextOfPrint(o, level, after);
    assert Next([SPACE] + text) == Next(text);
    assert [text[0]] + text[1..] == text;
    ParseOfPrint(o, level, after);
  }

  lemma DictEnds(level: nat, entries: seq<Entry>, tail: seq<Byte>)
    ensures ParseDict([NEWLINE] + Indent(level) + [CLOSE_DICT] + tail, false, entries, true) == Done(entries, tail)
  {
    var t := [CLOSE_DICT] + tail;
    assert t[1..] == tail;
    assert Next(t) == Done(CLOSE_DICT, tail);
    NextAfterLine(level, t);
    assert [NEWLINE] + Indent(level) + [CLOSE_DICT] + tail == [NEWLINE] + Indent(level) + t;
  }

  lemma DictContinues(more: seq<Byte>, entries: seq<Entry>)
    ensures ParseDict([COMMA, NEWLINE] + more, false, entries, true) == ParseDict(more, false, entries, false)
  {
    assert ([COMMA, NEWLINE] + more)[1..] == [NEWLINE] + more && ([NEWLINE] + more)[1..] == more;
    assert Next([COMMA, NEWLINE] + more) == Done(COMMA, [NEWLINE] + more);
    assert Next([NEWLINE] + more) == Next(more);
  }
}
