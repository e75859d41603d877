/**
  The Internet checksum (netchecksum/src/lib.rs:17-54): words are summed little-endian in 32 bits,
  the sum is folded to 16 bits, its bytes are swapped and its bits inverted. The host is
  little-endian, and the addition of a last odd byte wraps as in a release build.

  The reference is the one's-complement sum of big-endian words of RFC 1071.
 */
module Checksum {
  import opened Wrappers

  const M := 65535
  const WORD := 0x1_0000_0000

  function Tail(data: seq<Byte>): (r: seq<Byte>)
    requires data != []
    ensures |r| < |data|
  {
    if |data| == 1 then [] else data[2..]
  }

  /** A byte as a number; zero beyond the end. */
  function Int(data: seq<Byte>, i: nat): (r: nat)
    ensures r < 256
  {
    if i < |data| then data[i] as int else 0
  }

  /** First word, low byte first; a missing second byte is zero. */
  function LeWord(data: seq<Byte>): nat
    requires data != []
  {
    Int(data, 0) + 256 * Int(data, 1)
  }

  function BeWord(data: seq<Byte>): nat
    requires data != []
  {
    256 * Int(data, 0) + Int(data, 1)
  }

  function LeSum(data: seq<Byte>): nat
    decreases |data|
  {
    if data == [] then 0 else LeWord(data) + LeSum(Tail(data))
  }

  function BeSum(data: seq<Byte>): nat
    decreases |data|
  {
    if data == [] then 0 else BeWord(data) + BeSum(Tail(data))
  }

  function Words(data: seq<Byte>): nat {
    (|data| + 1) / 2
  }

  // ---------------------------------------------------------------- the reference

  /** 16-bit one's-complement addition: the carry comes back in at the low end. */
  function AddEndAround(a: nat, b: nat): nat {
    if a + b > 0xFFFF then a + b - 0x10000 + 1 else a + b
  }

  function OnesComplementSum(data: seq<Byte>): nat
    decreases |data|
  {
    if data == [] then 0 else AddEndAround(BeWord(data), OnesComplementSum(Tail(data)))
  }

  /** The checksum of RFC 1071. */
  function Rfc1071(data: seq<Byte>): int {
    0xFFFF - OnesComplementSum(data)
  }

  // ---------------------------------------------------------------- the program

  method SumBeWords(data: seq<Byte>) returns (sum: nat)
    ensures sum == LeSum(data) % WORD
  {
    hide LeSum;
    sum := 0;
    if |data| == 0 {
      NothingToSum();
      return;
    }
    var curData := data;
    while |curData| >= 2
      invariant |curData| % 2 == |data| % 2
      invariant |data| % 2 == 1 ==> |curData| >= 1 && curData[|curData| - 1] == data[|data| - 1]
      invariant sum < WORD && (sum + LeSum(curData)) % WORD == LeSum(data) % WORD
      decreases |curData|
    {
      SumStep(sum, curData);
      sum := (sum + LeWord(curData)) % WORD;
      curData := curData[2..];
    }
    SumEnd(curData);
    if |data| % 2 != 0 {
      sum := (sum + Int(data, |data| - 1)) % WORD;
    }
  }

  lemma NothingToSum()
    ensures LeSum([]) == 0
  {
  }

  lemma SumStep(sum: nat, cur: seq<Byte>)
    requires |cur| >= 2
    ensures ((sum + LeWord(cur)) % WORD + LeSum(cur[2..])) % WORD == (sum + LeSum(cur)) % WORD
  {
    hide LeSum, LeWord;
    FirstWord(cur);
    WrapOnce(sum + LeWord(cur), LeSum(cur[2..]));
  }

  lemma FirstWord(cur: seq<Byte>)
    requires |cur| >= 2
    ensures LeSum(cur) == LeWord(cur) + LeSum(cur[2..])
  {
  }

  lemma SumEnd(cur: seq<Byte>)
    requires |cur| < 2
    ensures LeSum(cur) == Int(cur, 0)
  {
  }

  lemma WrapOnce(a: nat, b: nat)
    ensures (a % WORD + b) % WORD == (a + b) % WORD
  {
  }

  function Swapped(x: nat): nat {
    (x % 256) * 256 + x / 256
  }

  /** The one representative of a sum modulo 65535 that is zero only for zero. */
  function Folded(sum: nat): (r: nat)
    ensures r <= M && (r == 0 <==> sum == 0)
  {
    if sum == 0 then 0 else (sum - 1) % M + 1
  }

  method FinalizeChecksum(sum: nat) returns (r: int)
    ensures r == 0xFFFF - Swapped(Folded(sum))
  {
    hide Folded, Swapped;
    var s := sum;
    while s > 0xFFFF
      invariant Folded(s) == Folded(sum)
      decreases s
    {
      FoldOnce(s);
      s := s / 0x10000 + s % 0x10000;
    }
    FoldOfSmall(s);
    return 0xFFFF - Swapped(s);
  }

  lemma FoldOnce(s: nat)
    ensures Folded(s / 0x10000 + s % 0x10000) == Folded(s)
  {
    hide Folded;
    var q, r := s / 0x10000, s % 0x10000;
    SameFold(q + r, s, q);
  }

  method CksumRaw(buf: seq<Byte>) returns (r: int)
    ensures r == 0xFFFF - Swapped(Folded(LeSum(buf) % WORD))
    ensures Words(buf) <= 65537 ==> r == Rfc1071(buf)
    ensures r == Rfc1071(buf) <==>
            (LeSum(buf) / WORD) % M == 0 && (LeSum(buf) % WORD == 0 ==> LeSum(buf) == 0)
  {
    hide LeSum, Folded, Swapped, OnesComplementSum;
    var sum := SumBeWords(buf);
    r := FinalizeChecksum(sum);
    ByteOrderIndependence(buf);
    WrapIsHarmlessIff(LeSum(buf));
    SwapInjective(Folded(LeSum(buf) % WORD), Folded(LeSum(buf)));
    if Words(buf) <= 65537 {
      SumBound(buf);
    }
  }

  // ---------------------------------------------------------------- why they agree

  /** Sums that differ by a multiple of 65535 fold to the same, if both or neither are zero. */
  lemma SameFold(a: nat, b: nat, k: nat)
    requires b == a + k * M && (a == 0 <==> b == 0)
    ensures Folded(a) == Folded(b)
  {
    if a > 0 {
      assert b - 1 == (a - 1) + k * M;
    }
  }

  lemma FoldOfSmall(a: nat)
    requires a <= M
    ensures Folded(a) == a
  {
  }

  lemma {:induction false} OnesSumFolds(data: seq<Byte>)
    ensures OnesComplementSum(data) == Folded(BeSum(data))
    decreases |data|
  {
    if data != [] {
      OnesSumFolds(Tail(data));
      AddFolds(BeWord(data), BeSum(Tail(data)));
    }
  }

  /** Adding with the carry coming back in is adding up to multiples of 65535. */
  lemma AddFolds(w: nat, b: nat)
    requires w <= M
    ensures AddEndAround(w, Folded(b)) == Folded(w + b)
  {
    hide Folded;
    var k: nat := 0;
    if b > 0 {
      k := FoldIsRemainder(b);
    } else {
      FoldOfSmall(b);
    }
    if w + Folded(b) > 0xFFFF {
      SameFold(w + Folded(b) - M, w + b, k + 1);
      FoldOfSmall(w + Folded(b) - M);
    } else {
      SameFold(w + Folded(b), w + b, k);
      FoldOfSmall(w + Folded(b));
    }
  }

  /** Sum of the bytes at even offsets. */
  ghost function EvenBytes(data: seq<Byte>): nat
    decreases |data|
  {
    if data == [] then 0 else Int(data, 0) + EvenBytes(Tail(data))
  }

  lemma {:induction false} SumsInBothOrders(data: seq<Byte>)
    ensures 256 * BeSum(data) == LeSum(data) + M * EvenBytes(data)
    ensures LeSum(data) == 0 <==> BeSum(data) == 0
    decreases |data|
  {
    if data != [] {
      SumsInBothOrders(Tail(data));
    }
  }

  lemma SwapIsMultiple(y: nat)
    requires 1 <= y <= M
    ensures 256 * y == Swapped(y) + M * (y / 256) && 1 <= Swapped(y) <= M
  {
    var high, low := y / 256, y % 256;
    assert y == 256 * high + low && high <= 255;
  }

  /** A non-zero sum is its fold and a multiple of 65535. */
  lemma FoldIsRemainder(sum: nat) returns (k: nat)
    requires sum > 0
    ensures sum == Folded(sum) + k * M
  {
    k := (sum - 1) / M;
  }

  /** Multiplying by 256 modulo 65535 is swapping bytes. */
  lemma SwapOfFold(le: nat, be: nat, even: nat)
    requires 256 * be == le + M * even && le > 0 && be > 0
    ensures Swapped(Folded(le)) == Folded(be)
  {
    hide Swapped, Folded;
    var k := FoldIsRemainder(le);
    var y := Folded(le);
    SwapIsMultiple(y);
    // 256 y is Swapped(y) up to multiples of 65535, and 65536 be is 256 le up to such multiples
    var n := y / 256 + 256 * k + 256 * even - be;
    assert be == Swapped(y) + M * n;
    assert n >= 0;
    SameFold(Swapped(y), be, n);
    FoldOfSmall(Swapped(y));
  }

  /** RFC 1071, section 2(B): summing in the other byte order swaps the bytes of the result. */
  lemma ByteOrderIndependence(data: seq<Byte>)
    ensures Swapped(Folded(LeSum(data))) == OnesComplementSum(data)
  {
    hide LeSum, BeSum, EvenBytes, OnesComplementSum;
    OnesSumFolds(data);
    SumsInBothOrders(data);
    if BeSum(data) > 0 {
      hide Swapped, Folded;
      SwapOfFold(LeSum(data), BeSum(data), EvenBytes(data));
    }
  }

  lemma SwapInjective(a: nat, b: nat)
    requires a <= M && b <= M
    ensures Swapped(a) == Swapped(b) <==> a == b
  {
  }

  /** Losing carries out of 32 bits changes the result exactly when their number is not a multiple of 65535. */
  lemma WrapIsHarmlessIff(sum: nat)
    ensures Folded(sum % WORD) == Folded(sum) <==> (sum / WORD) % M == 0 && (sum % WORD == 0 ==> sum == 0)
  {
    var lost, kept := sum / WORD, sum % WORD;
    assert sum == kept + lost * WORD && WORD == 65537 * M + 1;
    if kept > 0 {
      assert sum - 1 == (kept - 1) + lost + lost * 65537 * M;
      RemainderMoves(kept - 1, lost, lost * 65537);
    }
  }

  lemma RemainderMoves(a: nat, lost: nat, k: nat)
    ensures (a + lost + k * M) % M == a % M <==> lost % M == 0
  {
    var q, r := a / M, a % M;
    var q', r' := lost / M, lost % M;
    var all := a + lost + k * M;
    assert all == (r + r') + (q + q' + k) * M;
    if r + r' < M {
      RemainderIs(all, r + r', q + q' + k);
    } else {
      RemainderIs(all, r + r' - M, q + q' + k + 1);
    }
  }

  lemma RemainderIs(n: nat, r: nat, q: nat)
    requires n == r + q * M && r < M
    ensures n % M == r
  {
  }

  lemma {:induction false} SumBound(data: seq<Byte>)
    ensures LeSum(data) <= M * Words(data)
    decreases |data|
  {
    if data != [] {
      SumBound(Tail(data));
    }
  }

  ghost function AllOnes(words: nat): (r: seq<Byte>)
    ensures |r| == 2 * words
  {
    if words == 0 then [] else [255, 255] + AllOnes(words - 1)
  }

  lemma {:induction false} SumOfAllOnes(words: nat)
    ensures LeSum(AllOnes(words)) == M * words
  {
    if words > 0 {
      assert Tail(AllOnes(words)) == AllOnes(words - 1);
      SumOfAllOnes(words - 1);
    }
  }

  /** The bound is exact: one word more, and a buffer of ones gets another checksum. */
  lemma BoundIsTight()
    ensures Words(AllOnes(65538)) == 65538
    ensures 0xFFFF - Swapped(Folded(LeSum(AllOnes(65538)) % WORD)) != Rfc1071(AllOnes(65538))
  {
    SumOfAllOnes(65538);
    var sum := LeSum(AllOnes(65538));
    assert sum / WORD == 1;
    WrapIsHarmlessIff(sum);
    ByteOrderIndependence(AllOnes(65538));
    SwapInjective(Folded(sum % WORD), Folded(sum));
  }
}
