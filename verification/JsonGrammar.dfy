/**
  The language of the JSON parser (cjdns-bencode/src/json.rs:42-289), stated without its flags and
  its skipping: strict mode accepts exactly plain JSON lists and dictionaries, lax mode ignores commas
  and colons, and blanks, comments, strings and numbers are spelled as given here. Keys may come in
  any order and more than once; the last value counts.
 */
module JsonGrammar {
  import opened Wrappers
  import opened Objects
  import opened Json

  // ---------------------------------------------------------------- plain JSON

  /** A value and the rest of the text, if there is one. */
  ghost function PlainValue(s: seq<Byte>): (r: Option<(Object, seq<Byte>)>)
    ensures r.Some? ==> |r.value.1| < |s|
    decreases |s|, 2
  {
    match Next(s)
    case Failed(_) => None
    case Done(b, s') =>
      if b == OPEN_DICT then
        var r := PlainMembers(s');
        if r.Some? then Some((Dict(InsertAll([], r.value.0)), r.value.1)) else None
      else if b == OPEN_LIST then
        var r := PlainItems(s');
        if r.Some? then Some((List(r.value.0), r.value.1)) else None
      else if b == QUOTE then
        match ParseString(s', [])
        case Done(text, rest) => Some((Bytes(text), rest))
        case Failed(_) => None
      else if IsNumberByte(b) then
        match ParseInt(b, s')
        case Done(n, rest) => Some((Integer(n), rest))
        case Failed(_) => None
      else None
  }

  /** Nothing and a closing bracket, or items separated by commas and a closing bracket. */
  ghost function PlainItems(s: seq<Byte>): (r: Option<(seq<Object>, seq<Byte>)>)
    ensures r.Some? ==> |r.value.1| < |s|
    decreases |s|, 4
  {
    var next := Next(s);
    if next.Done? && next.value == CLOSE_LIST then Some(([], next.rest)) else PlainItemsFrom(s)
  }

  ghost function PlainItemsFrom(s: seq<Byte>): (r: Option<(seq<Object>, seq<Byte>)>)
    ensures r.Some? ==> |r.value.1| < |s|
    decreases |s|, 3
  {
    var item := PlainValue(s);
    if item.None? then None
    else
      var next := Next(item.value.1);
      if next.Failed? then None
      else if next.value == CLOSE_LIST then Some(([item.value.0], next.rest))
      else if next.value == COMMA then
        var more := PlainItemsFrom(next.rest);
        if more.Some? then Some(([item.value.0] + more.value.0, more.value.1)) else None
      else None
  }

  /** Nothing and a closing brace, or members separated by commas and a closing brace; as they are read. */
  ghost function PlainMembers(s: seq<Byte>): (r: Option<(seq<Entry>, seq<Byte>)>)
    ensures r.Some? ==> |r.value.1| < |s|
    decreases |s|, 4
  {
    var next := Next(s);
    if next.Done? && next.value == CLOSE_DICT then Some(([], next.rest)) else PlainMembersFrom(s)
  }

  /** A string, a colon and a value, then a comma and more or the closing brace. */
  ghost function PlainMembersFrom(s: seq<Byte>): (r: Option<(seq<Entry>, seq<Byte>)>)
    ensures r.Some? ==> |r.value.1| < |s|
    decreases |s|, 3
  {
    var member := PlainMember(s);
    if member.None? then None
    else
      var next := Next(member.value.1);
      if next.Failed? then None
      else if next.value == CLOSE_DICT then Some(([member.value.0], next.rest))
      else if next.value == COMMA then
        var more := PlainMembersFrom(next.rest);
        if more.Some? then Some(([member.value.0] + more.value.0, more.value.1)) else None
      else None
  }

  ghost function PlainMember(s: seq<Byte>): (r: Option<(Entry, seq<Byte>)>)
    ensures r.Some? ==> |r.value.1| < |s|
    decreases |s|, 2
  {
    var quote := Next(s);
    if quote.Failed? || quote.value != QUOTE then None
    else
      var key := ParseString(quote.rest, []);
      if key.Failed? then None
      else
        var colon := Next(key.rest);
        if colon.Failed? || colon.value != COLON then None
        else
          var value := PlainValue(colon.rest);
          if value.Some? then Some((Entry(key.value, value.value.0), value.value.1)) else None
  }

  // ---------------------------------------------------------------- strict mode is plain JSON

  /** The parser's result, without its error. */
  ghost function Result<T(!new), F>(r: Parsed<T, F>): Option<(T, seq<Byte>)> {
    if r.Done? then Some((r.value, r.rest)) else None
  }

  lemma {:induction false} NextAgain(s: seq<Byte>)
    requires Next(s).Done?
    ensures var b, rest := Next(s).value, Next(s).rest;
            && b != SLASH && b != SPACE && b != TAB && b != NEWLINE
            && Next([b] + rest) == Done(b, rest) && |[b] + rest| <= |s|
    decreases |s|
  {
    if s[0] == SLASH {
      NextAgain(SkipComment(s[1..]));
    } else if s[0] == SPACE || s[0] == TAB || s[0] == NEWLINE {
      NextAgain(s[1..]);
    } else {
      assert ([s[0]] + s[1..])[1..] == s[1..];
    }
  }

  /** Putting the byte back that was read ahead changes nothing. */
  lemma PutBack(s: seq<Byte>, lax: bool)
    requires Next(s).Done?
    ensures ParseValue([Next(s).value] + Next(s).rest, lax) == ParseValue(s, lax)
  {
    hide ParseDict, ParseList, ParseString, ParseInt, Next;
    NextAgain(s);
  }

  lemma {:induction false} StrictIsPlain(s: seq<Byte>)
    ensures Result(ParseValue(s, false)) == PlainValue(s)
    decreases |s|, 2
  {
    hide ParseDict, ParseList, ParseString, ParseInt, Next, PlainItems, PlainMembers, InsertAll;
    if Next(s).Done? {
      var b, rest := Next(s).value, Next(s).rest;
      if b == OPEN_LIST {
        StrictItems(rest);
      } else if b == OPEN_DICT {
        StrictMembers(rest);
      }
    }
  }

  lemma {:induction false} StrictItems(s: seq<Byte>)
    ensures Result(ParseList(s, false, [], false)) == PlainItems(s)
    decreases |s|, 4
  {
    hide ParseValue, Next, PlainItemsFrom;
    if Next(s).Done? && Next(s).value != CLOSE_LIST && Next(s).value != COMMA {
      StrictItemsFrom(s, []);
      var plain := PlainItemsFrom(s);
      assert plain.Some? ==> [] + plain.value.0 == plain.value.0;
    } else {
      NoPlainItem(s);
    }
  }

  /** A value begins with none of the separators. */
  lemma NoPlainItem(s: seq<Byte>)
    ensures Next(s).Failed? || !StartsValue(Next(s).value) ==> PlainItemsFrom(s).None? && PlainValue(s).None?
    ensures !StartsValue(COMMA) && !StartsValue(COLON) && !StartsValue(CLOSE_LIST) && !StartsValue(CLOSE_DICT)
  {
    hide Next, ParseString, ParseInt, PlainItems, PlainMembers, InsertAll;
  }

  lemma {:induction false} StrictItemsFrom(s: seq<Byte>, items: seq<Object>)
    requires items != [] || (Next(s).Done? && Next(s).value != CLOSE_LIST && Next(s).value != COMMA)
    ensures var plain := PlainItemsFrom(s);
            Result(ParseList(s, false, items, false)) ==
            if plain.Some? then Some((items + plain.value.0, plain.value.1)) else None
    decreases |s|, 3
  {
    hide ParseValue, Next, PlainValue;
    NoPlainItem(s);
    if Next(s).Done? && StartsValue(Next(s).value) {
      PutBack(s, false);
      StrictIsPlain(s);
      var item := ParseValue(s, false);
      if item.Done? {
        StrictItemsTail(item.rest, items + [item.value]);
        var plain := PlainItemsFrom(s);
        if plain.Some? {
          assert items + [item.value] + plain.value.0[1..] == items + plain.value.0;
        }
      }
    }
  }

  /** After an item: a comma and more items, or the end. */
  lemma {:induction false} StrictItemsTail(s: seq<Byte>, items: seq<Object>)
    requires items != []
    ensures var next := Next(s);
            Result(ParseList(s, false, items, true)) ==
            if next.Failed? then None
            else if next.value == CLOSE_LIST then Some((items, next.rest))
            else if next.value == COMMA && PlainItemsFrom(next.rest).Some?
            then Some((items + PlainItemsFrom(next.rest).value.0, PlainItemsFrom(next.rest).value.1))
            else None
    decreases |s|, 1
  {
    hide ParseValue, Next, PlainItemsFrom;
    if Next(s).Done? && Next(s).value == COMMA {
      StrictItemsFrom(Next(s).rest, items);
    }
  }

  lemma {:induction false} StrictMembers(s: seq<Byte>)
    ensures var plain := PlainMembers(s);
            Result(ParseDict(s, false, [], false)) ==
            if plain.Some? then Some((InsertAll([], plain.value.0), plain.value.1)) else None
    decreases |s|, 4
  {
    hide ParseMember, Next, PlainMembersFrom, ParseString, Insert;
    if Next(s).Done? && Next(s).value == QUOTE {
      StrictMembersFrom(s, []);
    } else {
      NoPlainMember(s);
    }
  }

  lemma NoPlainMember(s: seq<Byte>)
    ensures Next(s).Failed? || Next(s).value != QUOTE ==> PlainMembersFrom(s).None?
  {
    hide Next, ParseString, PlainValue;
  }

  lemma {:induction false} StrictMembersFrom(s: seq<Byte>, entries: seq<Entry>)
    requires entries != [] || (Next(s).Done? && Next(s).value == QUOTE)
    ensures var plain := PlainMembersFrom(s);
            Result(ParseDict(s, false, entries, false)) ==
            if plain.Some? then Some((InsertAll(entries, plain.value.0), plain.value.1)) else None
    decreases |s|, 3
  {
    hide ParseMember, Next, PlainMember, ParseString, Insert;
    StrictMember(s);
    var member := PlainMember(s);
    if member.Some? {
      var e, rest := member.value.0, member.value.1;
      StrictMembersTail(rest, Insert(entries, e.key, e.value));
      var plain := PlainMembersFrom(s);
      if plain.Some? {
        assert plain.value.0[0] == e && Next(rest).Done?;
        assert plain.value.0[1..] == if Next(rest).value == COMMA then PlainMembersFrom(Next(rest).rest).value.0 else [];
      }
    }
  }

  /** A key, a colon and a value. */
  lemma {:induction false} StrictMember(s: seq<Byte>)
    ensures var quote := Next(s);
            PlainMember(s) ==
            if quote.Failed? || quote.value != QUOTE then None
            else
              var key := ParseString(quote.rest, []);
              if key.Failed? then None
              else
                var value := ParseMember(key.rest, false, true);
                if value.Done? then Some((Entry(key.value, value.value), value.rest)) else None
    decreases |s|, 2
  {
    hide Next, ParseString, ParseValue, PlainValue;
    var quote := Next(s);
    if quote.Done? && quote.value == QUOTE {
      var key := ParseString(quote.rest, []);
      if key.Done? && Next(key.rest).Done? && Next(key.rest).value == COLON {
        var rest := Next(key.rest).rest;
        StrictIsPlain(rest);
        NoPlainItem(rest);
        if Next(rest).Done? && StartsValue(Next(rest).value) {
          PutBack(rest, false);
        }
      }
    }
  }

  lemma {:induction false} StrictMembersTail(s: seq<Byte>, entries: seq<Entry>)
    requires entries != []
    ensures var next := Next(s);
            Result(ParseDict(s, false, entries, true)) ==
            if next.Failed? then None
            else if next.value == CLOSE_DICT then Some((entries, next.rest))
            else if next.value == COMMA && PlainMembersFrom(next.rest).Some?
            then Some((InsertAll(entries, PlainMembersFrom(next.rest).value.0), PlainMembersFrom(next.rest).value.1))
            else None
    decreases |s|, 1
  {
    hide ParseMember, Next, PlainMembersFrom, ParseString, Insert;
    if Next(s).Done? && Next(s).value == COMMA {
      StrictMembersFrom(Next(s).rest, entries);
    }
  }

  // ---------------------------------------------------------------- lax mode ignores separators

  /** Items and commas in any order up to the closing bracket. */
  ghost function LooseItems(s: seq<Byte>): (r: Option<(seq<Object>, seq<Byte>)>)
    ensures r.Some? ==> |r.value.1| < |s|
    decreases |s|
  {
    var next := Next(s);
    if next.Failed? then None
    else if next.value == CLOSE_LIST then Some(([], next.rest))
    else if next.value == COMMA then LooseItems(next.rest)
    else
      var item := ParseValue(s, true);
      if item.Failed? then None
      else
        var more := LooseItems(item.rest);
        if more.Some? then Some(([item.value] + more.value.0, more.value.1)) else None
  }

  /** A value after any number of colons. */
  ghost function LooseValue(s: seq<Byte>): (r: Option<(Object, seq<Byte>)>)
    ensures r.Some? ==> |r.value.1| < |s|
    decreases |s|
  {
    var next := Next(s);
    if next.Done? && next.value == COLON then LooseValue(next.rest)
    else if ParseValue(s, true).Done? then Some((ParseValue(s, true).value, ParseValue(s, true).rest))
    else None
  }

  /** Members and commas in any order up to the closing brace; as they are read. */
  ghost function LooseMembers(s: seq<Byte>): (r: Option<(seq<Entry>, seq<Byte>)>)
    ensures r.Some? ==> |r.value.1| < |s|
    decreases |s|
  {
    var next := Next(s);
    if next.Failed? then None
    else if next.value == CLOSE_DICT then Some(([], next.rest))
    else if next.value == COMMA then LooseMembers(next.rest)
    else if next.value != QUOTE then None
    else
      var key := ParseString(next.rest, []);
      if key.Failed? then None
      else
        var value := LooseValue(key.rest);
        if value.None? then None
        else
          var more := LooseMembers(value.value.1);
          if more.Some? then Some(([Entry(key.value, value.value.0)] + more.value.0, more.value.1)) else None
  }

  lemma NoValue(s: seq<Byte>, lax: bool)
    requires Next(s).Done? && !StartsValue(Next(s).value)
    ensures ParseValue(s, lax).Failed?
  {
    hide Next;
  }

  lemma {:induction false} LaxIsLooseList(s: seq<Byte>, items: seq<Object>, needComma: bool)
    ensures var loose := LooseItems(s);
            Result(ParseList(s, true, items, needComma)) ==
            if loose.Some? then Some((items + loose.value.0, loose.value.1)) else None
    decreases |s|
  {
    hide ParseValue, Next;
    if Next(s).Done? {
      var b, rest := Next(s).value, Next(s).rest;
      if b == CLOSE_LIST {
        assert items + [] == items;
      } else if b == COMMA {
        LaxIsLooseList(rest, items, false);
      } else if StartsValue(b) {
        PutBack(s, true);
        var item := ParseValue(s, true);
        if item.Done? {
          LaxIsLooseList(item.rest, items + [item.value], true);
          var more := LooseItems(item.rest);
          assert more.Some? ==> items + [item.value] + more.value.0 == items + ([item.value] + more.value.0);
        }
      } else {
        NoValue(s, true);
      }
    }
  }

  lemma {:induction false} LaxIsLooseValue(s: seq<Byte>, needColon: bool)
    ensures Result(ParseMember(s, true, needColon)) == LooseValue(s)
    decreases |s|
  {
    hide ParseValue, Next;
    if Next(s).Done? {
      var b, rest := Next(s).value, Next(s).rest;
      if b == COLON {
        LaxIsLooseValue(rest, false);
      } else if StartsValue(b) {
        PutBack(s, true);
      } else {
        NoValue(s, true);
      }
    } else {
      NothingToRead(s);
    }
  }

  lemma NothingToRead(s: seq<Byte>)
    requires Next(s).Failed?
    ensures ParseValue(s, true).Failed?
  {
    hide Next;
  }

  /** A dictionary in lax mode holds the last value of every key read, whatever commas and colons stand between. */
  lemma {:induction false} LaxIsLooseDict(s: seq<Byte>, entries: seq<Entry>, needComma: bool)
    ensures var loose := LooseMembers(s);
            Result(ParseDict(s, true, entries, needComma)) ==
            if loose.Some? then Some((InsertAll(entries, loose.value.0), loose.value.1)) else None
    decreases |s|
  {
    hide ParseMember, Next, ParseString, Insert, LooseValue;
    if Next(s).Done? {
      var b, rest := Next(s).value, Next(s).rest;
      if b == COMMA {
        LaxIsLooseDict(rest, entries, false);
      } else if b == QUOTE {
        var key := ParseString(rest, []);
        if key.Done? {
          LaxIsLooseValue(key.rest, true);
          var value := LooseValue(key.rest);
          if value.Some? {
            LaxIsLooseDict(value.value.1, Insert(entries, key.value, value.value.0), true);
            var loose := LooseMembers(s);
            if loose.Some? {
              assert loose.value.0[0] == Entry(key.value, value.value.0) && loose.value.0[1..] == LooseMembers(value.value.1).value.0;
            }
          }
        }
      }
    }
  }

  // ---------------------------------------------------------------- blanks and comments

  /** What may stand before a byte that counts. A slash with any other byte is dropped with it. */
  datatype Piece = Blank(b: Byte) | LineComment(text: seq<Byte>) | BlockComment(text: seq<Byte>) | Stray(b: Byte)

  /** A text in which no star is followed by a slash, as the parser looks for it: two bytes after each star. */
  ghost predicate Inside(text: seq<Byte>) {
    text == [] ||
    if text[0] != STAR then Inside(text[1..]) else |text| >= 2 && text[1] != SLASH && Inside(text[2..])
  }

  ghost predicate IsPiece(p: Piece) {
    match p
    case Blank(b) => b == SPACE || b == TAB || b == NEWLINE
    case LineComment(text) => NEWLINE !in text
    case BlockComment(text) => Inside(text)
    case Stray(b) => b != STAR && b != SLASH
  }

  ghost function PieceText(p: Piece): seq<Byte> {
    match p
    case Blank(b) => [b]
    case LineComment(text) => [SLASH, SLASH] + text + [NEWLINE]
    case BlockComment(text) => [SLASH, STAR] + text + [STAR, SLASH]
    case Stray(b) => [SLASH, b]
  }

  ghost function Pieces(ps: seq<Piece>): seq<Byte> {
    if ps == [] then [] else PieceText(ps[0]) + Pieces(ps[1..])
  }

  lemma {:induction false} SkipsLine(text: seq<Byte>, s: seq<Byte>)
    requires NEWLINE !in text
    ensures SkipLine(text + [NEWLINE] + s) == s
  {
    var t := text + [NEWLINE] + s;
    if text == [] {
      assert t == [NEWLINE] + s && t[1..] == s;
    } else {
      assert t[1..] == text[1..] + [NEWLINE] + s;
      SkipsLine(text[1..], s);
    }
  }

  lemma {:induction false} SkipsBlock(text: seq<Byte>, s: seq<Byte>)
    requires Inside(text)
    ensures SkipMultiline(text + [STAR, SLASH] + s) == s
  {
    var t := text + [STAR, SLASH] + s;
    if text == [] {
      assert t == [STAR, SLASH] + s && t[2..] == s;
    } else if text[0] != STAR {
      assert t[1..] == text[1..] + [STAR, SLASH] + s;
      SkipsBlock(text[1..], s);
    } else {
      assert t[2..] == text[2..] + [STAR, SLASH] + s;
      SkipsBlock(text[2..], s);
    }
  }

  lemma NextAfter(first: Byte, s: seq<Byte>)
    ensures first == SLASH ==> Next([first] + s) == Next(SkipComment(s))
    ensures first == SPACE || first == TAB || first == NEWLINE ==> Next([first] + s) == Next(s)
  {
    hide SkipComment;
    assert ([first] + s)[1..] == s;
  }

  lemma CommentAfter(first: Byte, s: seq<Byte>)
    ensures SkipComment([first] + s) == if first == STAR then SkipMultiline(s) else if first == SLASH then SkipLine(s) else s
  {
    hide SkipLine, SkipMultiline;
    assert ([first] + s)[1..] == s;
  }

  lemma SkipsLineComment(text: seq<Byte>, s: seq<Byte>)
    requires NEWLINE !in text
    ensures Next([SLASH, SLASH] + text + [NEWLINE] + s) == Next(s)
  {
    hide SkipLine, SkipComment, Next;
    var inside := text + [NEWLINE] + s;
    assert [SLASH, SLASH] + text + [NEWLINE] + s == [SLASH] + ([SLASH] + inside);
    NextAfter(SLASH, [SLASH] + inside);
    CommentAfter(SLASH, inside);
    SkipsLine(text, s);
  }

  lemma SkipsBlockComment(text: seq<Byte>, s: seq<Byte>)
    requires Inside(text)
    ensures Next([SLASH, STAR] + text + [STAR, SLASH] + s) == Next(s)
  {
    hide SkipMultiline, SkipComment, Next, Inside;
    var inside := text + [STAR, SLASH] + s;
    assert [SLASH, STAR] + text + [STAR, SLASH] + s == [SLASH] + ([STAR] + inside);
    NextAfter(SLASH, [STAR] + inside);
    CommentAfter(STAR, inside);
    SkipsBlock(text, s);
  }

  lemma SkipsPiece(p: Piece, s: seq<Byte>)
    requires IsPiece(p)
    ensures Next(PieceText(p) + s) == Next(s)
  {
    hide SkipLine, SkipMultiline, SkipComment, Next, Inside;
    match p
    case Blank(b) =>
      NextAfter(b, s);
    case LineComment(text) =>
      SkipsLineComment(text, s);
    case BlockComment(text) =>
      SkipsBlockComment(text, s);
    case Stray(b) =>
      assert PieceText(p) + s == [SLASH] + ([b] + s);
      NextAfter(SLASH, [b] + s);
      CommentAfter(b, s);
  }

  lemma {:induction false} SkipsPieces(ps: seq<Piece>, s: seq<Byte>)
    requires forall i :: 0 <= i < |ps| ==> IsPiece(ps[i])
    ensures Next(Pieces(ps) + s) == Next(s)
  {
    hide Next, PieceText, IsPiece;
    if ps == [] {
      assert [] + s == s;
    } else {
      assert Pieces(ps) + s == PieceText(ps[0]) + (Pieces(ps[1..]) + s);
      SkipsPiece(ps[0], Pieces(ps[1..]) + s);
      SkipsPieces(ps[1..], s);
    }
  }

  lemma {:induction false} LineBack(s: seq<Byte>) returns (text: seq<Byte>)
    requires SkipLine(s) != []
    ensures NEWLINE !in text && s == text + [NEWLINE] + SkipLine(s)
  {
    if s[0] == NEWLINE {
      text := [];
    } else {
      var more := LineBack(s[1..]);
      text := [s[0]] + more;
    }
  }

  lemma {:induction false} BlockBack(s: seq<Byte>) returns (text: seq<Byte>)
    requires SkipMultiline(s) != []
    ensures Inside(text) && s == text + [STAR, SLASH] + SkipMultiline(s)
  {
    if s[0] != STAR {
      var more := BlockBack(s[1..]);
      text := [s[0]] + more;
      assert text[1..] == more;
    } else if s[1] == SLASH {
      text := [];
    } else {
      var more := BlockBack(s[2..]);
      text := [s[0], s[1]] + more;
      assert text[2..] == more;
    }
  }

  lemma PieceBack(s: seq<Byte>) returns (p: Piece)
    requires s != [] && s[0] == SLASH && Next(s).Done?
    ensures IsPiece(p) && s == PieceText(p) + SkipComment(s[1..])
  {
    hide SkipLine, SkipMultiline, Inside;
    var r := s[1..];
    NothingNext();
    if r[0] == STAR {
      var text := BlockBack(r[1..]);
      p := BlockComment(text);
      assert s == [SLASH, STAR] + r[1..];
    } else if r[0] == SLASH {
      var text := LineBack(r[1..]);
      p := LineComment(text);
      assert s == [SLASH, SLASH] + r[1..];
    } else {
      p := Stray(r[0]);
      assert s == [SLASH, r[0]] + r[1..];
    }
  }

  lemma NothingNext()
    ensures Next([]).Failed?
  {
  }

  lemma {:induction false} PiecesBack(s: seq<Byte>) returns (ps: seq<Piece>)
    requires Next(s).Done?
    ensures forall i :: 0 <= i < |ps| ==> IsPiece(ps[i])
    ensures s == Pieces(ps) + ([Next(s).value] + Next(s).rest)
    decreases |s|
  {
    hide IsPiece, PieceText, SkipComment, Next, Pieces;
    assert s != [] by {
      NothingNext();
    }
    assert s == [s[0]] + s[1..];
    NextAfter(s[0], s[1..]);
    if s[0] == SLASH {
      var p := PieceBack(s);
      var more := PiecesBack(SkipComment(s[1..]));
      ps := [p] + more;
      PiecesMore(p, more);
    } else if s[0] == SPACE || s[0] == TAB || s[0] == NEWLINE {
      var more := PiecesBack(s[1..]);
      BlankPiece(s[0]);
      ps := [Blank(s[0])] + more;
      PiecesMore(Blank(s[0]), more);
    } else {
      ps := [];
      NoPieces(s);
    }
  }

  lemma PiecesMore(p: Piece, more: seq<Piece>)
    ensures Pieces([p] + more) == PieceText(p) + Pieces(more)
  {
    hide PieceText;
    assert ([p] + more)[1..] == more;
  }

  lemma NoPieces(s: seq<Byte>)
    requires s != [] && s[0] != SLASH && s[0] != SPACE && s[0] != TAB && s[0] != NEWLINE
    ensures Pieces([]) + s == s && Next(s) == Done(s[0], s[1..])
  {
  }

  lemma BlankPiece(b: Byte)
    requires b == SPACE || b == TAB || b == NEWLINE
    ensures IsPiece(Blank(b)) && PieceText(Blank(b)) == [b]
  {
  }

  /** The next byte that counts is the first one behind blanks, comments and stray slashes. */
  lemma NextIff(s: seq<Byte>, b: Byte, rest: seq<Byte>)
    ensures Next(s) == Done(b, rest) <==>
            && b != SLASH && b != SPACE && b != TAB && b != NEWLINE
            && exists ps :: (forall i :: 0 <= i < |ps| ==> IsPiece(ps[i])) && s == Pieces(ps) + ([b] + rest)
  {
    hide Pieces, IsPiece;
    if Next(s) == Done(b, rest) {
      NextAgain(s);
      var ps := PiecesBack(s);
    }
    if b != SLASH && b != SPACE && b != TAB && b != NEWLINE {
      forall ps | (forall i :: 0 <= i < |ps| ==> IsPiece(ps[i])) && s == Pieces(ps) + ([b] + rest)
        ensures Next(s) == Done(b, rest)
      {
        SkipsPieces(ps, [b] + rest);
        assert ([b] + rest)[1..] == rest;
      }
    }
  }

  /** A comment that ends in two stars is not seen to end: the second star is passed over with the first. */
  lemma TwoStars(s: seq<Byte>)
    ensures SkipMultiline([STAR, STAR, SLASH] + s) == SkipMultiline([SLASH] + s) == SkipMultiline(s)
  {
    var t := [STAR, STAR, SLASH] + s;
    assert t[2..] == [SLASH] + s && ([SLASH] + s)[1..] == s;
  }

  // ---------------------------------------------------------------- strings and numbers

  /** A byte as it is, or as two hexadecimal digits. */
  datatype Unit = Raw(b: Byte) | Hex(hi: Byte, lo: Byte)

  ghost predicate IsUnit(u: Unit) {
    match u
    case Raw(b) => b != QUOTE && b != BACKSLASH
    case Hex(hi, lo) => HexPair(hi, lo).Some?
  }

  ghost function UnitText(u: Unit): seq<Byte> {
    match u
    case Raw(b) => [b]
    case Hex(hi, lo) => [BACKSLASH, X, hi, lo]
  }

  ghost function UnitByte(u: Unit): Byte
    requires IsUnit(u)
  {
    match u
    case Raw(b) => b
    case Hex(hi, lo) => HexPair(hi, lo).value
  }

  ghost function Units(us: seq<Unit>): seq<Byte> {
    if us == [] then [] else UnitText(us[0]) + Units(us[1..])
  }

  ghost function UnitBytes(us: seq<Unit>): seq<Byte>
    requires forall i :: 0 <= i < |us| ==> IsUnit(us[i])
  {
    if us == [] then [] else [UnitByte(us[0])] + UnitBytes(us[1..])
  }

  /** A string ends at its quote; at the end of the text it may lack it, also after a backslash. */
  ghost predicate EndsString(end: seq<Byte>, rest: seq<Byte>) {
    end == [QUOTE] + rest || (rest == [] && (end == [] || end == [BACKSLASH]))
  }

  lemma UnitStep(u: Unit, more: seq<Byte>, read: seq<Byte>)
    requires IsUnit(u)
    ensures ParseString(UnitText(u) + more, read) == ParseString(more, read + [UnitByte(u)])
  {
    hide HexPair;
    var s := UnitText(u) + more;
    if u.Raw? {
      assert s[1..] == more;
    } else {
      assert s[4..] == more;
    }
  }

  lemma EndStep(end: seq<Byte>, rest: seq<Byte>, read: seq<Byte>)
    requires EndsString(end, rest)
    ensures ParseString(end, read) == Done(read, rest)
  {
    assert end != [] && end[0] == QUOTE ==> end[1..] == rest;
  }

  lemma {:induction false} StringOfUnits(us: seq<Unit>, end: seq<Byte>, rest: seq<Byte>, read: seq<Byte>)
    requires (forall i :: 0 <= i < |us| ==> IsUnit(us[i])) && EndsString(end, rest)
    ensures ParseString(Units(us) + end, read) == Done(read + UnitBytes(us), rest)
    decreases us
  {
    hide ParseString, UnitText, UnitByte, IsUnit, EndsString;
    if us == [] {
      assert Units(us) + end == end && read + [] == read;
      EndStep(end, rest, read);
    } else {
      var u, more := us[0], Units(us[1..]) + end;
      assert Units(us) + end == UnitText(u) + more;
      UnitStep(u, more, read);
      StringOfUnits(us[1..], end, rest, read + [UnitByte(u)]);
      assert read + [UnitByte(u)] + UnitBytes(us[1..]) == read + UnitBytes(us);
    }
  }

  /** A string that does not end here begins with a unit. */
  lemma FirstUnit(s: seq<Byte>, read: seq<Byte>) returns (u: Unit, more: seq<Byte>)
    requires ParseString(s, read).Done? && s != [] && s[0] != QUOTE && s != [BACKSLASH]
    ensures IsUnit(u) && s == UnitText(u) + more
  {
    hide HexPair;
    if s[0] != BACKSLASH {
      u, more := Raw(s[0]), s[1..];
    } else {
      u, more := Hex(s[2], s[3]), s[4..];
      assert s == [s[0], s[1], s[2], s[3]] + s[4..];
    }
  }

  lemma FirstEnds(s: seq<Byte>, read: seq<Byte>)
    requires s == [] || s[0] == QUOTE || s == [BACKSLASH]
    ensures ParseString(s, read).Done? && ParseString(s, read).value == read && EndsString(s, ParseString(s, read).rest)
  {
    assert s != [] ==> s == [s[0]] + s[1..];
  }

  lemma {:induction false} UnitsBack(s: seq<Byte>, read: seq<Byte>) returns (us: seq<Unit>, end: seq<Byte>)
    requires ParseString(s, read).Done?
    ensures (forall i :: 0 <= i < |us| ==> IsUnit(us[i])) && EndsString(end, ParseString(s, read).rest)
    ensures s == Units(us) + end && ParseString(s, read).value == read + UnitBytes(us)
    decreases |s|
  {
    hide ParseString, UnitText, UnitByte, IsUnit, EndsString;
    if s == [] || s[0] == QUOTE || s == [BACKSLASH] {
      us, end := [], s;
      FirstEnds(s, read);
      assert read + [] == read && [] + s == s;
    } else {
      var u, rest := FirstUnit(s, read);
      UnitStep(u, rest, read);
      UnitNotEmpty(u);
      var more: seq<Unit>;
      more, end := UnitsBack(rest, read + [UnitByte(u)]);
      us := [u] + more;
      assert us[1..] == more;
      assert read + [UnitByte(u)] + UnitBytes(more) == read + UnitBytes(us);
      assert UnitText(u) + (Units(more) + end) == UnitText(u) + Units(more) + end;
    }
  }

  lemma UnitNotEmpty(u: Unit)
    ensures UnitText(u) != []
  {
  }

  /** A string is read exactly if its text is spelled in units up to its end, and its bytes are theirs. */
  lemma StringIff(s: seq<Byte>, text: seq<Byte>, rest: seq<Byte>)
    ensures ParseString(s, []) == Done(text, rest) <==>
            exists us, end ::
              (forall i :: 0 <= i < |us| ==> IsUnit(us[i])) && EndsString(end, rest) && s == Units(us) + end && text == UnitBytes(us)
  {
    hide ParseString, Units, UnitBytes, IsUnit, EndsString;
    if ParseString(s, []) == Done(text, rest) {
      var us, end := UnitsBack(s, []);
      assert [] + UnitBytes(us) == UnitBytes(us);
    }
    forall us, end | (forall i :: 0 <= i < |us| ==> IsUnit(us[i])) && EndsString(end, rest) && s == Units(us) + end && text == UnitBytes(us)
      ensures ParseString(s, []) == Done(text, rest)
    {
      StringOfUnits(us, end, rest, []);
      assert [] + UnitBytes(us) == UnitBytes(us);
    }
  }

  /** Two digits of either case, or a plus sign and one digit, which the number reader lets through. */
  lemma HexPairIs(hi: Byte, lo: Byte, a: nat, b: nat)
    requires a < 16 && b < 16
    requires hi == HexDigit(a) || (a >= 10 && hi == HexDigit(a) + 32)
    requires lo == HexDigit(b) || (b >= 10 && lo == HexDigit(b) + 32)
    ensures HexPair(hi, lo) == Some(16 * a + b) && HexPair(PLUS, lo) == Some(b)
  {
  }

  /** Decimal digits, with or without zeros in front, and a minus sign for what is not positive. */
  ghost predicate SpellsInt(text: seq<Byte>, n: int) {
    exists z ::
      || (n >= 0 && text == Zeros(z) + Decimal(n))
      || (n <= 0 && text == [MINUS] + (Zeros(z) + Decimal(-n)))
  }

  lemma ReadI64Iff(text: seq<Byte>, n: int)
    ensures ReadI64(text) == Some(n) <==> I64_MIN <= n <= I64_MAX && SpellsInt(text, n)
  {
    hide Decimal, DigitsValue, Zeros;
    var negative := text != [] && text[0] == MINUS;
    var digits := if negative then text[1..] else text;
    assert negative ==> text == [MINUS] + digits;
    if ReadI64(text) == Some(n) {
      var z := ZerosAndDecimal(digits);
    }
    if I64_MIN <= n <= I64_MAX && SpellsInt(text, n) {
      SpelledIsRead(text, n);
    }
  }

  /** A number is the longest run of digits and minus signs, read as a whole. */
  lemma NumberIff(first: Byte, s: seq<Byte>, n: int, rest: seq<Byte>)
    ensures ParseInt(first, s) == Done(n, rest) <==>
            exists run ::
              && s == run + rest && (forall i :: 0 <= i < |run| ==> 48 <= run[i] <= 57 || run[i] == 45)
              && (rest == [] || !(48 <= rest[0] <= 57 || rest[0] == 45))
              && I64_MIN <= n <= I64_MAX && SpellsInt([first] + run, n)
  {
    hide ReadI64, SpellsInt;
    var found := NumberRun(s);
    RunBytes(s);
    ReadI64Iff([first] + found, n);
    assert s == found + s[|found|..];
    forall run | s == run + rest && (forall i :: 0 <= i < |run| ==> 48 <= run[i] <= 57 || run[i] == 45) &&
                 (rest == [] || !(48 <= rest[0] <= 57 || rest[0] == 45))
      ensures run == found && rest == s[|found|..]
    {
      NumberRunOf(run, rest);
    }
  }

  lemma {:induction false} RunBytes(s: seq<Byte>)
    ensures forall i :: 0 <= i < |NumberRun(s)| ==> 48 <= NumberRun(s)[i] <= 57 || NumberRun(s)[i] == 45
  {
    if s != [] {
      RunBytes(s[1..]);
    }
  }

  /** A value begins with a brace, a bracket, a quote, a digit or a minus sign. */
  lemma ValueStarts(s: seq<Byte>, lax: bool)
    requires ParseValue(s, lax).Done?
    ensures Next(s).Done? && var b := Next(s).value; b == 123 || b == 91 || b == 34 || 48 <= b <= 57 || b == 45
  {
    hide Next, ParseDict, ParseList, ParseString, ParseInt;
  }

  lemma SpelledIsRead(text: seq<Byte>, n: int)
    requires I64_MIN <= n <= I64_MAX && SpellsInt(text, n)
    ensures ReadI64(text) == Some(n)
  {
    hide Decimal, DigitsValue, Zeros;
    var m := if n < 0 then -n else n;
    var z :| (n >= 0 && text == Zeros(z) + Decimal(n)) || (n <= 0 && text == [MINUS] + (Zeros(z) + Decimal(-n)));
    var digits := Zeros(z) + Decimal(m);
    DecimalValue(m);
    ZerosAddNothing(z, Decimal(m));
    assert digits[0] == if z > 0 then ZERO else Decimal(m)[0];
    if n <= 0 && text == [MINUS] + digits {
      assert text[1..] == digits;
    }
  }

  /** A dictionary read in either mode is in order and holds exactly the keys read, each with its last value. */
  lemma DictIsLast(s: seq<Byte>, lax: bool)
    requires ParseDict(s, lax, [], false).Done?
    ensures var read := if lax then LooseMembers(s) else PlainMembers(s);
            var entries := ParseDict(s, lax, [], false).value;
            && read.Some? && Ascending(entries)
            && forall e: Entry :: e in entries <==> LastValue(read.value.0, e.key) == Some(e.value)
  {
    hide ParseDict, LooseMembers, PlainMembers, InsertAll, LastValue, Ascending;
    if lax {
      LaxIsLooseDict(s, [], false);
      CollectedIsLast(LooseMembers(s).value.0);
    } else {
      StrictMembers(s);
      CollectedIsLast(PlainMembers(s).value.0);
    }
  }

  // ---------------------------------------------------------------- the printed text

  /** Text without quotes, backslashes and control bytes is printed as it is; any other byte takes four. */
  lemma {:induction false} PlainTextPrintsItself(s: seq<Byte>)
    requires forall i :: 0 <= i < |s| ==> 32 <= s[i] <= 125 && s[i] != QUOTE && s[i] != BACKSLASH
    ensures Escape(s) == s
  {
    if s != [] {
      PlainTextPrintsItself(s[1..]);
    }
  }

  lemma OtherBytesAreEscaped(b: Byte)
    requires b < 32 || b > 125 || b == QUOTE || b == BACKSLASH
    ensures EscapeByte(b) == [92, 120, HexDigit(b / 16), HexDigit(b % 16)]
  {
  }

  /** How a list is laid out: an item on each line, a step further in, and the bracket in line with what it closes. */
  lemma ListLayout(a: Object, b: Object, k: nat)
    ensures Print(List([a, b]), k) ==
            [91] + ([10] + Indent(k + 1) + Print(a, k + 1) + [44] + ([10] + Indent(k + 1) + Print(b, k + 1))) + [10] + Indent(k) + [93]
  {
    var first, second := Print(a, k + 1), Print(b, k + 1);
    assert [a, b][1..] == [b] && [b][1..] == [];
    assert PrintItems([b], k + 1) == [10] + Indent(k + 1) + second by {
      hide Indent, Print;
      assert PrintItems([], k + 1) == [];
    }
    assert PrintItems([a, b], k + 1) == [10] + Indent(k + 1) + first + [44] + PrintItems([b], k + 1) by {
      hide Indent, Print;
    }
    hide PrintItems, Indent;
  }

  /** How a dictionary is laid out: a key and its value on each line, a step further in. */
  lemma DictLayout(a: Entry, b: Entry, k: nat)
    ensures Print(Dict([a, b]), k) ==
            [123, 10] + (Indent(k + 1) + Quoted(a.key) + [58, 32] + Print(a.value, k + 1) + [44, 10]
                         + (Indent(k + 1) + Quoted(b.key) + [58, 32] + Print(b.value, k + 1))) + [10] + Indent(k) + [125]
  {
    var first, second := Print(a.value, k + 1), Print(b.value, k + 1);
    assert [a, b][1..] == [b] && [b][1..] == [];
    assert PrintEntries([b], k + 1) == Indent(k + 1) + Quoted(b.key) + [58, 32] + second by {
      hide Indent, Print, Quoted;
      assert PrintEntries([], k + 1) == [];
    }
    assert PrintEntries([a, b], k + 1) == Indent(k + 1) + Quoted(a.key) + [58, 32] + first + [44, 10] + PrintEntries([b], k + 1) by {
      hide Indent, Print, Quoted;
    }
    hide PrintEntries, Indent, Quoted;
  }

  /** Empty lists and dictionaries, strings and numbers stand on one line. */
  lemma LeafLayout(s: seq<Byte>, k: nat)
    ensures Print(List([]), k) == [91, 93] && Print(Dict([]), k) == [123, 125]
    ensures Print(Bytes(s), k) == [34] + Escape(s) + [34] && Print(Integer(-10), k) == [45, 49, 48]
  {
    assert Decimal(1) == [49] && Decimal(10) == Decimal(1) + [48];
  }
}
