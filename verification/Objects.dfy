/**
  Values that both codecs carry (cjdns-bencode/src/object.rs:117-209), and decimal numbers.
  A dictionary is an ordered map: a sequence of entries whose keys ascend.
 */
module Objects {
  import opened Wrappers

  /** What a parser gives: a value and the input left unread, or an error. */
  datatype Parsed<+T, +E> = Done(value: T, rest: seq<Byte>) | Failed(error: E)

  /** A result and an unread input are those of a parsing function. */
  ghost predicate Agrees<T, E>(spec: Parsed<T, E>, r: Result<T, E>, rest: seq<Byte>) {
    match spec
    case Done(value, left) => r == Ok(value) && rest == left
    case Failed(e) => r == Err(e)
  }

  datatype Object =
    | Bytes(bytes: seq<Byte>)
    | Integer(number: int)
    | List(items: seq<Object>)
    | Dict(entries: seq<Entry>)

  datatype Entry = Entry(key: seq<Byte>, value: Object)

  const I64_MAX := 0x7fff_ffff_ffff_ffff
  const I64_MIN := -0x8000_0000_0000_0000
  const USIZE_MAX := 0xffff_ffff_ffff_ffff

  /** The longest vector there can be; asking for more is a panic. */
  const ISIZE_MAX := I64_MAX

  /** The order of keys: byte by byte, a prefix before its extensions. */
  predicate Less(a: seq<Byte>, b: seq<Byte>) {
    b != [] && (a == [] || a[0] < b[0] || (a[0] == b[0] && Less(a[1..], b[1..])))
  }

  lemma {:induction false} LessAsymmetric(a: seq<Byte>, b: seq<Byte>)
    requires Less(a, b)
    ensures a != b && !Less(b, a)
  {
    if a != [] && a[0] == b[0] {
      LessAsymmetric(a[1..], b[1..]);
    }
  }

  /** The order is that of the first byte in which two keys differ; a key comes before its extensions. */
  lemma {:induction false} LessIff(a: seq<Byte>, b: seq<Byte>)
    ensures Less(a, b) <==> exists k :: 0 <= k <= |a| && k < |b| && a[..k] == b[..k] && (k == |a| || a[k] < b[k])
  {
    if Less(a, b) {
      var k := LessAt(a, b);
    }
    forall k | 0 <= k <= |a| && k < |b| && a[..k] == b[..k] && (k == |a| || a[k] < b[k])
      ensures Less(a, b)
    {
      LessFrom(a, b, k);
    }
  }

  lemma {:induction false} LessAt(a: seq<Byte>, b: seq<Byte>) returns (k: nat)
    requires Less(a, b)
    ensures k <= |a| && k < |b| && a[..k] == b[..k] && (k == |a| || a[k] < b[k])
  {
    if a == [] || a[0] < b[0] {
      k := 0;
    } else {
      k := LessAt(a[1..], b[1..]);
      k := k + 1;
      assert a[..k] == [a[0]] + a[1..][..k - 1] && b[..k] == [b[0]] + b[1..][..k - 1];
    }
  }

  lemma {:induction false} LessFrom(a: seq<Byte>, b: seq<Byte>, k: nat)
    requires k <= |a| && k < |b| && a[..k] == b[..k] && (k == |a| || a[k] < b[k])
    ensures Less(a, b)
  {
    if k > 0 {
      assert a[0] == a[..k][0] == b[..k][0] == b[0];
      assert a[1..][..k - 1] == a[..k][1..] && b[1..][..k - 1] == b[..k][1..];
      LessFrom(a[1..], b[1..], k - 1);
    }
  }

  lemma {:induction false} LessTransitive(a: seq<Byte>, b: seq<Byte>, c: seq<Byte>)
    requires Less(a, b) && Less(b, c)
    ensures Less(a, c)
  {
    if a != [] && a[0] == b[0] && b[0] == c[0] {
      LessTransitive(a[1..], b[1..], c[1..]);
    }
  }

  lemma {:induction false} LessTotal(a: seq<Byte>, b: seq<Byte>)
    ensures a == b || Less(a, b) || Less(b, a)
  {
    if a != [] && b != [] && a[0] == b[0] {
      LessTotal(a[1..], b[1..]);
      assert a == [a[0]] + a[1..] && b == [b[0]] + b[1..];
    }
  }

  ghost predicate Ascending(entries: seq<Entry>) {
    forall i, j :: 0 <= i < j < |entries| ==> Less(entries[i].key, entries[j].key)
  }

  lemma AscendingPrefix(entries: seq<Entry>, k: nat)
    requires Ascending(entries) && k <= |entries|
    ensures Ascending(entries[..k])
  {
  }

  /** Insertion into an ordered map: a new key goes to its place, a known key gets the new value. */
  function Insert(entries: seq<Entry>, key: seq<Byte>, value: Object): (r: seq<Entry>)
    ensures r != []
  {
    if entries == [] || Less(key, entries[0].key) then [Entry(key, value)] + entries
    else if key == entries[0].key then [Entry(key, value)] + entries[1..]
    else [entries[0]] + Insert(entries[1..], key, value)
  }

  /** Keys that come in ascending order are appended. */
  lemma {:induction false} InsertLast(entries: seq<Entry>, e: Entry)
    requires Ascending(entries + [e])
    ensures Insert(entries, e.key, e.value) == entries + [e]
  {
    var all := entries + [e];
    if entries != [] {
      assert Less(all[0].key, all[|all| - 1].key);
      LessAsymmetric(entries[0].key, e.key);
      assert entries[1..] + [e] == all[1..];
      assert Ascending(all[1..]) by {
        assert forall i :: 0 <= i < |all| - 1 ==> all[1..][i] == all[i + 1];
      }
      InsertLast(entries[1..], e);
    }
  }

  lemma HeadComesFirst(entries: seq<Entry>)
    requires entries != [] && Ascending(entries)
    ensures Ascending(entries[1..]) && entries == [entries[0]] + entries[1..]
    ensures forall e :: e in entries[1..] ==> Less(entries[0].key, e.key) && e.key != entries[0].key
  {
    forall e | e in entries[1..]
      ensures Less(entries[0].key, e.key) && e.key != entries[0].key
    {
      var i :| 0 <= i < |entries| - 1 && entries[1..][i] == e;
      assert e == entries[i + 1];
      LessAsymmetric(entries[0].key, e.key);
    }
  }

  lemma AscendingMore(e: Entry, entries: seq<Entry>)
    requires Ascending(entries) && forall x :: x in entries ==> Less(e.key, x.key)
    ensures Ascending([e] + entries)
  {
    var all := [e] + entries;
    assert forall i :: 0 < i < |all| ==> all[i] == entries[i - 1] && all[i] in entries;
  }

  /** The map gains the key with its value, and every other key keeps its own. */
  lemma {:induction false} InsertIs(entries: seq<Entry>, key: seq<Byte>, value: Object)
    requires Ascending(entries)
    ensures var r := Insert(entries, key, value);
            && Ascending(r)
            && (forall v :: Entry(key, v) in r <==> v == value)
            && (forall e: Entry :: e.key != key ==> (e in r <==> e in entries))
  {
    hide Ascending, Less;
    if entries == [] {
      AscendingMore(Entry(key, value), []) by {
        NoEntriesAscend();
      }
    } else {
      var first, rest := entries[0], entries[1..];
      HeadComesFirst(entries);
      if Less(key, first.key) {
        forall e | e in entries
          ensures Less(key, e.key) && e.key != key
        {
          if e != first {
            LessTransitive(key, first.key, e.key);
          }
          LessAsymmetric(key, e.key);
        }
        AscendingMore(Entry(key, value), entries);
      } else if key == first.key {
        AscendingMore(Entry(key, value), rest);
      } else {
        LessTotal(key, first.key);
        InsertIs(rest, key, value);
        var more := Insert(rest, key, value);
        forall e | e in more
          ensures Less(first.key, e.key)
        {
          assert e.key != key ==> e in rest;
        }
        AscendingMore(first, more);
      }
    }
  }

  lemma NoEntriesAscend()
    ensures Ascending([])
  {
  }

  /** An ordered map from entries as they come: what is read later replaces what was read before. */
  function InsertAll(entries: seq<Entry>, pairs: seq<Entry>): seq<Entry>
    decreases pairs
  {
    if pairs == [] then entries else InsertAll(Insert(entries, pairs[0].key, pairs[0].value), pairs[1..])
  }

  /** The value that comes last for a key. */
  ghost function LastValue(pairs: seq<Entry>, key: seq<Byte>): Option<Object> {
    if pairs == [] then None
    else
      var n := |pairs| - 1;
      if pairs[n].key == key then Some(pairs[n].value) else LastValue(pairs[..n], key)
  }

  lemma {:induction false} LastValueConcat(a: seq<Entry>, b: seq<Entry>, key: seq<Byte>)
    ensures LastValue(a + b, key) == if LastValue(b, key).Some? then LastValue(b, key) else LastValue(a, key)
  {
    if b == [] {
      assert a + b == a;
    } else {
      var n := |b| - 1;
      assert (a + b)[..|a + b| - 1] == a + b[..n];
      LastValueConcat(a, b[..n], key);
    }
  }

  /** A dictionary read from entries holds exactly the keys read, each with the last value read for it, in order. */
  lemma CollectedIsLast(pairs: seq<Entry>)
    ensures Ascending(InsertAll([], pairs))
    ensures forall e: Entry :: e in InsertAll([], pairs) <==> LastValue(pairs, e.key) == Some(e.value)
  {
    InsertAllIs([], pairs);
  }

  lemma {:induction false} InsertAllIs(entries: seq<Entry>, pairs: seq<Entry>)
    requires Ascending(entries)
    ensures Ascending(InsertAll(entries, pairs))
    ensures forall e: Entry :: e in InsertAll(entries, pairs) <==>
              if LastValue(pairs, e.key).Some? then LastValue(pairs, e.key) == Some(e.value) else e in entries
    decreases pairs
  {
    if pairs != [] {
      var p, rest := pairs[0], pairs[1..];
      InsertIs(entries, p.key, p.value);
      InsertAllIs(Insert(entries, p.key, p.value), rest);
      forall e: Entry
        ensures LastValue(pairs, e.key) ==
                if LastValue(rest, e.key).Some? then LastValue(rest, e.key) else if e.key == p.key then Some(p.value) else None
      {
        assert pairs == [p] + rest;
        LastValueConcat([p], rest, e.key);
        assert [p][..0] == [];
      }
    }
  }

  /** What the program's types guarantee of a value. */
  ghost predicate WellFormed(o: Object) {
    match o
    case Bytes(s) => |s| <= I64_MAX
    case Integer(n) => I64_MIN <= n <= I64_MAX
    case List(items) => forall i :: 0 <= i < |items| ==> WellFormed(items[i])
    case Dict(entries) =>
      && Ascending(entries)
      && forall i :: 0 <= i < |entries| ==> |entries[i].key| <= I64_MAX && WellFormed(entries[i].value)
  }

  const ZERO: Byte := 48

  predicate IsDigit(b: Byte) {
    48 <= b <= 57
  }

  function Digit(b: Byte): (d: nat)
    requires IsDigit(b)
    ensures d <= 9
  {
    b - 48
  }

  /** Decimal digits of a number, without leading zeros. */
  function Decimal(n: nat): (r: seq<Byte>)
    ensures r != [] && forall i :: 0 <= i < |r| ==> IsDigit(r[i])
    ensures n > 0 <==> r[0] != 48
    ensures n == 0 ==> r == [48]
  {
    if n < 10 then [48 + n] else Decimal(n / 10) + [48 + n % 10]
  }

  function SignedDecimal(n: int): (r: seq<Byte>)
    ensures r != [] && (r[0] == '-' as int || IsDigit(r[0]))
  {
    if n < 0 then ['-' as int] + Decimal(-n) else Decimal(n)
  }

  /** The number that digits stand for after `acc` has been read. */
  function DigitsValue(acc: nat, digits: seq<Byte>): (r: nat)
    requires forall i :: 0 <= i < |digits| ==> IsDigit(digits[i])
    ensures r >= acc
    decreases digits
  {
    if digits == [] then acc else DigitsValue(acc * 10 + Digit(digits[0]), digits[1..])
  }

  lemma {:induction false} DigitsValueConcat(acc: nat, a: seq<Byte>, b: seq<Byte>)
    requires forall i :: 0 <= i < |a + b| ==> IsDigit((a + b)[i])
    ensures forall i :: 0 <= i < |a| ==> IsDigit(a[i])
    ensures forall i :: 0 <= i < |b| ==> IsDigit(b[i])
    ensures DigitsValue(acc, a + b) == DigitsValue(DigitsValue(acc, a), b)
    decreases a
  {
    assert forall i :: 0 <= i < |a| ==> a[i] == (a + b)[i];
    assert forall i :: 0 <= i < |b| ==> b[i] == (a + b)[|a| + i];
    if a == [] {
      assert a + b == b;
    } else {
      assert (a + b)[1..] == a[1..] + b;
      DigitsValueConcat(acc * 10 + Digit(a[0]), a[1..], b);
    }
  }

  /** Reading decimal digits gives the number back. */
  lemma {:induction false} DecimalValue(n: nat)
    ensures DigitsValue(0, Decimal(n)) == n
  {
    if n >= 10 {
      DecimalValue(n / 10);
      DigitsValueConcat(0, Decimal(n / 10), [48 + n % 10]);
    }
  }

  /** Digits without a needless zero in front are the decimal digits of their number. */
  lemma {:induction false} DecimalUnique(digits: seq<Byte>)
    requires digits != [] && (forall i :: 0 <= i < |digits| ==> IsDigit(digits[i])) && (|digits| > 1 ==> digits[0] != 48)
    ensures digits == Decimal(DigitsValue(0, digits))
  {
    var n := |digits| - 1;
    var d := digits[n];
    if n == 0 {
      assert digits[1..] == [];
      assert DigitsValue(Digit(d), []) == Digit(d);
    } else {
      var init := digits[..n];
      DecimalUnique(init);
      assert digits == init + [d];
      DigitsValueConcat(0, init, [d]);
      var v := DigitsValue(0, init);
      assert v > 0;
      OneDigitMore(v, d);
    }
  }

  lemma OneDigitMore(v: nat, d: Byte)
    requires v > 0 && IsDigit(d)
    ensures DigitsValue(v, [d]) == 10 * v + Digit(d) && Decimal(10 * v + Digit(d)) == Decimal(v) + [d]
  {
    assert [d][1..] == [] && DigitsValue(v * 10 + Digit(d), []) == v * 10 + Digit(d);
    DecimalStep(v, Digit(d));
  }

  lemma DecimalStep(v: nat, d: nat)
    requires v > 0 && d < 10
    ensures Decimal(10 * v + d) == Decimal(v) + [48 + d]
  {
    var n := 10 * v + d;
    assert n / 10 == v && n % 10 == d;
  }

  predicate AllDigits(digits: seq<Byte>) {
    forall i :: 0 <= i < |digits| ==> IsDigit(digits[i])
  }

  function Zeros(n: nat): (r: seq<Byte>)
    ensures |r| == n && forall i :: 0 <= i < n ==> r[i] == ZERO
  {
    if n == 0 then [] else [ZERO] + Zeros(n - 1)
  }

  lemma {:induction false} ZerosAddNothing(z: nat, digits: seq<Byte>)
    requires AllDigits(digits)
    ensures AllDigits(Zeros(z) + digits) && DigitsValue(0, Zeros(z) + digits) == DigitsValue(0, digits)
  {
    if z == 0 {
      assert Zeros(z) + digits == digits;
    } else {
      ZerosAddNothing(z - 1, digits);
      assert (Zeros(z) + digits)[1..] == Zeros(z - 1) + digits;
    }
  }

  /** Digits are some zeros and the decimal digits of their number. */
  lemma {:induction false} ZerosAndDecimal(digits: seq<Byte>) returns (z: nat)
    requires AllDigits(digits) && digits != []
    ensures digits == Zeros(z) + Decimal(DigitsValue(0, digits))
    ensures |digits| > 1 && digits[0] != ZERO ==> z == 0
    ensures |digits| == 1 ==> z == 0
  {
    if |digits| > 1 && digits[0] == ZERO {
      z := ZerosAndDecimal(digits[1..]);
      z := z + 1;
      assert digits == [ZERO] + digits[1..];
      assert DigitsValue(0, digits) == DigitsValue(0, digits[1..]);
      assert Zeros(z) == [ZERO] + Zeros(z - 1);
    } else {
      z := 0;
      DecimalUnique(digits);
    }
  }
}
