/**
  How LZ4 compares eight bytes at once: by the trailing zero bits of the
  exclusive-or of two little-endian words (LZ4_NbCommonBytes), counted by the
  processor or looked up by a multiplication.
 */
module Lz4Words {
  import opened Bytes

  /** The index of the first byte in which two strings differ. */
  function FirstDifference(a: seq<byte>, b: seq<byte>): (k: nat)
    requires |a| == |b| && a != b
    ensures k < |a| && a[k] != b[k] && a[..k] == b[..k]
  {
    if a[0] != b[0] then 0
    else
      assert a[1..] != b[1..] by { assert a == [a[0]] + a[1..] && b == [b[0]] + b[1..]; }
      var k := FirstDifference(a[1..], b[1..]);
      assert a[..k + 1] == [a[0]] + a[1..][..k];
      assert b[..k + 1] == [b[0]] + b[1..][..k];
      k + 1
  }

  // ----- Digits of a word -----

  predicate Odd(v: bv64) {
    v & 1 == 1
  }

  function Half(v: bv64): bv64 {
    v >> 1
  }

  function Twice(v: bv64, odd: bool): bv64 {
    if odd then (v << 1) | 1 else v << 1
  }

  function LowByte(v: bv64): bv64 {
    v & 0xFF
  }

  function HighBytes(v: bv64): bv64 {
    v >> 8
  }

  function Difference(v: bv64, w: bv64): bv64 {
    v ^ w
  }

  function Combined(low: bv64, high: bv64): bv64 {
    low | (high << 8)
  }

  const SEVEN_BYTES: bv64 := 0x00FF_FFFF_FFFF_FFFF

  predicate OneByte(v: bv64) {
    v <= 0xFF
  }

  predicate SevenBytes(v: bv64) {
    v <= SEVEN_BYTES
  }

  /** The word has ones only where the other one has. */
  predicate Within(v: bv64, w: bv64) {
    v & !w == 0
  }

  lemma {:induction false} OddWithin(v: bv64, w: bv64)
    requires Within(v, w)
    ensures Within(Twice(v, true), Twice(w, true))
  {
  }

  lemma {:induction false} EvenWithin(v: bv64, w: bv64)
    requires Within(v, w)
    ensures Within(Twice(v, false), Twice(w, true))
  {
  }

  lemma {:induction false} TwiceWithin(v: bv64, w: bv64, odd: bool)
    requires Within(v, w)
    ensures Within(Twice(v, odd), Twice(w, true))
  {
    hide *;
    if odd {
      OddWithin(v, w);
    } else {
      EvenWithin(v, w);
    }
  }

  lemma {:induction false} CombinedWithin(low: bv64, high: bv64, w: bv64)
    requires low <= 0xFF && Within(high, w)
    ensures Within(Combined(low, high), Combined(0xFF, w))
  {
  }

  lemma {:induction false} WithinTogether(u: bv64, v: bv64, w: bv64)
    requires Within(u, v) && Within(v, w)
    ensures Within(u, w)
  {
  }

  lemma {:induction false} WithinSmall(v: bv64, w: bv64)
    requires Within(v, w)
    ensures v <= w
  {
  }

  lemma {:induction false} NothingWithin(w: bv64)
    ensures Within(0, w)
  {
  }

  // ----- Bytes as words -----

  /** The binary digits of a byte. */
  function Bits(n: nat): bv64 {
    if n == 0 then 0 else Twice(Bits(n / 2), n % 2 == 1)
  }

  /** LZ4_read64 on a little-endian machine, or of what is left of a word. */
  function Word(s: seq<byte>): bv64
    requires |s| <= 8
  {
    if s == [] then 0 else Combined(Bits(s[0]), Word(s[1..]))
  }

  /** The n lowest digits are ones. */
  function Ones(n: nat): bv64 {
    if n == 0 then 0 else Twice(Ones(n - 1), true)
  }

  /** The n lowest bytes are filled with ones. */
  function Filled(n: nat): bv64 {
    if n == 0 then 0 else Combined(0xFF, Filled(n - 1))
  }

  function Pow2(n: nat): nat {
    if n == 0 then 1 else 2 * Pow2(n - 1)
  }

  lemma {:induction false} EightOnes()
    ensures Ones(8) == 0xFF && Filled(7) == SEVEN_BYTES
  {
    assert Ones(4) == 0xF;
    assert Filled(4) == 0xFFFF_FFFF;
  }

  lemma {:induction false} BitsWithin(n: nat, k: nat)
    requires n < Pow2(k)
    ensures Within(Bits(n), Ones(k))
  {
    hide Within;
    hide Twice;
    if n > 0 {
      BitsWithin(n / 2, k - 1);
      TwiceWithin(Bits(n / 2), Ones(k - 1), n % 2 == 1);
    } else {
      NothingWithin(Ones(k));
    }
  }

  lemma {:induction false} BitsSmall(n: nat)
    requires n < 256
    ensures Bits(n) <= 0xFF
  {
    hide Bits;
    hide Within;
    assert Pow2(8) == 256;
    BitsWithin(n, 8);
    EightOnes();
    WithinSmall(Bits(n), Ones(8));
  }

  lemma {:induction false} TwiceInjective(v: bv64, w: bv64, odd: bool, odd': bool)
    requires v <= 0xFF && w <= 0xFF && Twice(v, odd) == Twice(w, odd')
    ensures v == w && odd == odd'
  {
  }

  lemma {:induction false} BitsTwice(n: nat)
    ensures Bits(n) == Twice(Bits(n / 2), n % 2 == 1)
  {
    assert Twice(0, false) == 0;
  }

  lemma {:induction false} BitsInjective(m: nat, n: nat)
    requires m < 256 && n < 256 && Bits(m) == Bits(n)
    ensures m == n
    decreases m + n
  {
    if m > 0 || n > 0 {
      BitsSmall(m / 2);
      BitsSmall(n / 2);
      BitsTwice(m);
      BitsTwice(n);
      TwiceInjective(Bits(m / 2), Bits(n / 2), m % 2 == 1, n % 2 == 1);
      hide Bits;
      BitsInjective(m / 2, n / 2);
    }
  }

  lemma {:induction false} WordWithin(s: seq<byte>)
    requires |s| <= 8
    ensures Within(Word(s), Filled(|s|))
  {
    hide Within;
    hide Combined;
    hide Bits;
    if s != [] {
      WordWithin(s[1..]);
      BitsSmall(s[0]);
      CombinedWithin(Bits(s[0]), Word(s[1..]), Filled(|s| - 1));
    } else {
      NothingWithin(0);
    }
  }

  lemma {:induction false} FilledGrows(m: nat, n: nat)
    requires m <= n
    ensures Within(Filled(m), Filled(n))
  {
    hide Within;
    hide Combined;
    if m > 0 {
      FilledGrows(m - 1, n - 1);
      CombinedWithin(0xFF, Filled(m - 1), Filled(n - 1));
    } else {
      NothingWithin(Filled(n));
    }
  }

  /** A word of at most eight bytes is its first byte and the others, which leave the highest one free. */
  lemma {:induction false} WordSplits(s: seq<byte>)
    requires 0 < |s| <= 8
    ensures Word(s) == Combined(Bits(s[0]), Word(s[1..]))
    ensures OneByte(Bits(s[0])) && SevenBytes(Word(s[1..]))
  {
    hide Bits;
    hide Within;
    hide Combined;
    BitsSmall(s[0]);
    WordWithin(s[1..]);
    FilledGrows(|s[1..]|, 7);
    EightOnes();
    WithinTogether(Word(s[1..]), Filled(|s[1..]|), Filled(7));
    WithinSmall(Word(s[1..]), Filled(7));
  }

  // ----- LZ4_NbCommonBytes -----

  lemma {:induction false} HalfSmaller(v: bv64)
    requires v != 0 && !Odd(v)
    ensures 0 < Half(v) < v
  {
  }

  /** The number of zeros below the lowest one. */
  function TrailingZeros(v: bv64): nat
    requires v != 0
    decreases v
  {
    if Odd(v) then 0
    else
      HalfSmaller(v);
      1 + TrailingZeros(Half(v))
  }

  function NbCommonBytes(diff: bv64): nat
    requires diff != 0
  {
    TrailingZeros(diff) / 8
  }

  lemma {:induction false} EvenHalves(v: bv64)
    requires v != 0 && LowByte(v) == 0
    ensures var a := Half(v); var b := Half(a); var c := Half(b); var d := Half(c);
            !Odd(v) && !Odd(a) && !Odd(b) && !Odd(c) && Half(Half(Half(Half(d)))) == HighBytes(v) && d != 0
            && !Odd(d) && !Odd(Half(d)) && !Odd(Half(Half(d))) && !Odd(Half(Half(Half(d))))
  {
  }

  lemma {:induction false} ZeroMore(v: bv64)
    requires v != 0 && !Odd(v)
    ensures Half(v) != 0 && TrailingZeros(v) == 1 + TrailingZeros(Half(v))
  {
    HalfSmaller(v);
  }

  lemma {:induction false} LowByteZero(v: bv64)
    requires v != 0 && LowByte(v) == 0
    ensures HighBytes(v) != 0 && TrailingZeros(v) == 8 + TrailingZeros(HighBytes(v))
  {
    EvenHalves(v);
    hide *;
    var a := Half(v);
    ZeroMore(v);
    var b := Half(a);
    ZeroMore(a);
    var c := Half(b);
    ZeroMore(b);
    var d := Half(c);
    ZeroMore(c);
    var e := Half(d);
    ZeroMore(d);
    var f := Half(e);
    ZeroMore(e);
    var g := Half(f);
    ZeroMore(f);
    ZeroMore(g);
  }

  /** The words have a one in the same place. */
  predicate Meet(v: bv64, w: bv64) {
    v & w != 0
  }

  lemma {:induction false} HalvesMeet(v: bv64, w: bv64)
    requires !Odd(v) && Meet(v, Twice(w, true))
    ensures Meet(Half(v), w)
  {
  }

  lemma {:induction false} NothingMet(v: bv64)
    ensures !Meet(v, 0)
  {
  }

  lemma {:induction false} OneBelow(v: bv64, n: nat)
    requires v != 0 && Meet(v, Ones(n))
    ensures TrailingZeros(v) < n
    decreases n
  {
    hide Odd;
    hide Half;
    hide Twice;
    hide Meet;
    NothingMet(v);
    if !Odd(v) {
      HalvesMeet(v, Ones(n - 1));
      ZeroMore(v);
      OneBelow(Half(v), n - 1);
    }
  }

  lemma {:induction false} LowByteCounts(v: bv64)
    requires LowByte(v) != 0
    ensures v != 0 && TrailingZeros(v) < 8
  {
    EightOnes();
    OneBelow(v, 8);
  }

  /** The lowest byte of a difference decides whether to count on in the others. */
  lemma {:induction false} CountBytes(diff: bv64)
    requires diff != 0
    ensures if LowByte(diff) != 0 then NbCommonBytes(diff) == 0
            else HighBytes(diff) != 0 && NbCommonBytes(diff) == 1 + NbCommonBytes(HighBytes(diff))
  {
    if LowByte(diff) != 0 {
      LowByteCounts(diff);
    } else {
      LowByteZero(diff);
    }
  }

  lemma {:induction false} NoDifference(v: bv64, w: bv64)
    ensures Difference(v, w) == 0 <==> v == w
  {
  }

  lemma {:induction false} ZeroInParts(v: bv64)
    ensures v == 0 <==> LowByte(v) == 0 && HighBytes(v) == 0
  {
  }

  lemma {:induction false} PartsDiffer(a: bv64, v: bv64, b: bv64, w: bv64)
    requires OneByte(a) && OneByte(b) && SevenBytes(v) && SevenBytes(w)
    ensures LowByte(Difference(Combined(a, v), Combined(b, w))) == Difference(a, b)
    ensures HighBytes(Difference(Combined(a, v), Combined(b, w))) == Difference(v, w)
  {
  }

  /** The parts of the difference between two words are the differences between their parts. */
  lemma {:induction false} WordsDiffer(x: seq<byte>, y: seq<byte>)
    requires 0 < |x| == |y| <= 8
    ensures var diff := Difference(Word(x), Word(y));
            && LowByte(diff) == Difference(Bits(x[0]), Bits(y[0]))
            && HighBytes(diff) == Difference(Word(x[1..]), Word(y[1..]))
            && (LowByte(diff) == 0 <==> x[0] == y[0])
  {
    hide *;
    WordSplits(x);
    WordSplits(y);
    PartsDiffer(Bits(x[0]), Word(x[1..]), Bits(y[0]), Word(y[1..]));
    NoDifference(Bits(x[0]), Bits(y[0]));
    if Bits(x[0]) == Bits(y[0]) {
      BitsInjective(x[0], y[0]);
    }
  }

  lemma {:induction false} DifferAt(x: seq<byte>, y: seq<byte>)
    requires |x| == |y| > 0
    ensures x == y <==> x[0] == y[0] && x[1..] == y[1..]
    ensures x != y ==> FirstDifference(x, y) == if x[0] != y[0] then 0 else 1 + FirstDifference(x[1..], y[1..])
  {
    assert x == [x[0]] + x[1..] && y == [y[0]] + y[1..];
  }

  /** Words are equal exactly if their bytes are; else the zero bits tell where the bytes first differ. */
  lemma {:induction false} NbCommonBytesIs(x: seq<byte>, y: seq<byte>)
    requires |x| == |y| <= 8
    ensures var diff := Difference(Word(x), Word(y));
            (diff == 0 <==> x == y) && (x != y ==> NbCommonBytes(diff) == FirstDifference(x, y))
  {
    hide *;
    var diff := Difference(Word(x), Word(y));
    if x == [] {
      NoDifference(Word(x), Word(y));
    } else {
      WordsDiffer(x, y);
      ZeroInParts(diff);
      DifferAt(x, y);
      NbCommonBytesIs(x[1..], y[1..]);
      if diff != 0 {
        CountBytes(diff);
      }
    }
  }

  // ----- Without an instruction for it -----

  /** DeBruijnBytePos */
  function DeBruijnBytePos(place: nat): nat
    requires place < 64
  {
    var row := if place < 8 then [0, 0, 0, 0, 0, 1, 1, 2]
               else if place < 16 then [0, 3, 1, 3, 1, 4, 2, 7]
               else if place < 24 then [0, 2, 3, 6, 1, 5, 3, 5]
               else if place < 32 then [1, 3, 4, 4, 2, 5, 6, 7]
               else if place < 40 then [7, 0, 1, 2, 3, 3, 4, 6]
               else if place < 48 then [2, 6, 5, 5, 3, 4, 5, 6]
               else if place < 56 then [7, 1, 2, 4, 6, 4, 4, 5]
               else [7, 2, 6, 5, 7, 6, 7, 7];
    row[place % 8]
  }

  /** The lowest one, and no other. */
  function LowestOne(v: bv64): bv64 {
    v & (0 - v)
  }

  function Place(one: bv64): nat {
    ((one * 0x0218_A392_CDAB_BD3F) >> 58) as int
  }

  lemma {:induction false} LowestOneOdd(v: bv64)
    requires Odd(v)
    ensures LowestOne(v) == 1
  {
  }

  lemma {:induction false} LowestOneEven(v: bv64)
    requires !Odd(v)
    ensures LowestOne(v) == Twice(LowestOne(Half(v)), false)
  {
  }

  /** A one with n zeros below it, from one that has none. */
  function Shifted(one: bv64, n: nat): bv64
    decreases n
  {
    if n == 0 then one else Shifted(Twice(one, false), n - 1)
  }

  lemma {:induction false} ShiftedTwice(one: bv64, n: nat)
    ensures Shifted(Twice(one, false), n) == Twice(Shifted(one, n), false)
    decreases n
  {
    hide Twice;
    if n > 0 {
      ShiftedTwice(Twice(one, false), n - 1);
    }
  }

  lemma {:induction false} LowestOneIs(v: bv64)
    requires v != 0
    ensures LowestOne(v) == Shifted(1, TrailingZeros(v))
    decreases TrailingZeros(v)
  {
    hide Odd;
    hide Half;
    hide Twice;
    hide LowestOne;
    if Odd(v) {
      LowestOneOdd(v);
    } else {
      ZeroMore(v);
      LowestOneEven(v);
      LowestOneIs(Half(v));
      ShiftedTwice(1, TrailingZeros(Half(v)));
    }
  }

  /** The table says in which byte the one is, if there are n zeros below it. */
  predicate Found(n: nat, one: bv64) {
    Place(one) < 64 && DeBruijnBytePos(Place(one)) == n / 8
  }

  predicate FoundFrom(n: nat, one: bv64, count: nat)
    decreases count
  {
    count == 0 || (Found(n, one) && FoundFrom(n + 1, Twice(one, false), count - 1))
  }

  lemma {:induction false} FoundOne(n: nat, one: bv64, count: nat, k: nat)
    requires FoundFrom(n, one, count) && k < count
    ensures Found(n + k, Shifted(one, k))
    decreases k
  {
    hide Twice;
    hide Found;
    if k > 0 {
      FoundOne(n + 1, Twice(one, false), count - 1, k - 1);
    }
  }

  lemma {:induction false} ShiftedOn(one: bv64, m: nat, n: nat)
    ensures Shifted(Shifted(one, m), n) == Shifted(one, m + n)
    decreases m
  {
    hide Twice;
    if m > 0 {
      ShiftedOn(Twice(one, false), m - 1, n);
    }
  }

  lemma {:induction false} FoundInByte0()
    ensures FoundFrom(0, 0x1, 8) && Shifted(0x1, 8) == 0x100
  {
    assert FoundFrom(4, 0x10, 4);
    assert Shifted(0x10, 4) == 0x100;
  }

  lemma {:induction false} FoundInByte1()
    ensures FoundFrom(8, 0x100, 8) && Shifted(0x100, 8) == 0x1_0000
  {
    assert FoundFrom(12, 0x1000, 4);
    assert Shifted(0x1000, 4) == 0x1_0000;
  }

  lemma {:induction false} FoundInByte2()
    ensures FoundFrom(16, 0x1_0000, 8) && Shifted(0x1_0000, 8) == 0x100_0000
  {
    assert FoundFrom(20, 0x10_0000, 4);
    assert Shifted(0x10_0000, 4) == 0x100_0000;
  }

  lemma {:induction false} FoundInByte3()
    ensures FoundFrom(24, 0x100_0000, 8) && Shifted(0x100_0000, 8) == 0x1_0000_0000
  {
    assert FoundFrom(28, 0x1000_0000, 4);
    assert Shifted(0x1000_0000, 4) == 0x1_0000_0000;
  }

  lemma {:induction false} FoundInByte4()
    ensures FoundFrom(32, 0x1_0000_0000, 8) && Shifted(0x1_0000_0000, 8) == 0x100_0000_0000
  {
    assert FoundFrom(36, 0x10_0000_0000, 4);
    assert Shifted(0x10_0000_0000, 4) == 0x100_0000_0000;
  }

  lemma {:induction false} FoundInByte5()
    ensures FoundFrom(40, 0x100_0000_0000, 8) && Shifted(0x100_0000_0000, 8) == 0x1_0000_0000_0000
  {
    assert FoundFrom(44, 0x1000_0000_0000, 4);
    assert Shifted(0x1000_0000_0000, 4) == 0x1_0000_0000_0000;
  }

  lemma {:induction false} FoundInByte6()
    ensures FoundFrom(48, 0x1_0000_0000_0000, 8) && Shifted(0x1_0000_0000_0000, 8) == 0x100_0000_0000_0000
  {
    assert FoundFrom(52, 0x10_0000_0000_0000, 4);
    assert Shifted(0x10_0000_0000_0000, 4) == 0x100_0000_0000_0000;
  }

  lemma {:induction false} FoundInByte7()
    ensures FoundFrom(56, 0x100_0000_0000_0000, 8)
  {
    assert FoundFrom(60, 0x1000_0000_0000_0000, 4);
  }

  lemma {:induction false} FoundIn(n: nat, one: bv64, k: nat)
    requires n <= k < n + 8 && FoundFrom(n, one, 8) && Shifted(1, n) == one
    ensures Found(k, Shifted(1, k))
  {
    hide Found;
    FoundOne(n, one, 8, k - n);
    ShiftedOn(1, n, k - n);
  }

  lemma {:induction false} NextByte(n: nat, one: bv64, next: bv64)
    requires Shifted(1, n) == one && Shifted(one, 8) == next
    ensures Shifted(1, n + 8) == next
  {
    ShiftedOn(1, n, 8);
  }

  lemma {:induction false} NotShifted()
    ensures Shifted(1, 0) == 1
  {
  }

  lemma {:induction false} FoundAnywhere(n: nat)
    requires n < 64
    ensures Found(n, Shifted(1, n))
  {
    hide *;
    NotShifted();
    FoundInByte0();
    if n < 8 {
      FoundIn(0, 0x1, n);
      return;
    }
    NextByte(0, 0x1, 0x100);
    FoundInByte1();
    if n < 16 {
      FoundIn(8, 0x100, n);
      return;
    }
    NextByte(8, 0x100, 0x1_0000);
    FoundInByte2();
    if n < 24 {
      FoundIn(16, 0x1_0000, n);
      return;
    }
    NextByte(16, 0x1_0000, 0x100_0000);
    FoundInByte3();
    if n < 32 {
      FoundIn(24, 0x100_0000, n);
      return;
    }
    NextByte(24, 0x100_0000, 0x1_0000_0000);
    FoundInByte4();
    if n < 40 {
      FoundIn(32, 0x1_0000_0000, n);
      return;
    }
    NextByte(32, 0x1_0000_0000, 0x100_0000_0000);
    FoundInByte5();
    if n < 48 {
      FoundIn(40, 0x100_0000_0000, n);
      return;
    }
    NextByte(40, 0x100_0000_0000, 0x1_0000_0000_0000);
    FoundInByte6();
    if n < 56 {
      FoundIn(48, 0x1_0000_0000_0000, n);
      return;
    }
    NextByte(48, 0x1_0000_0000_0000, 0x100_0000_0000_0000);
    FoundInByte7();
    FoundIn(56, 0x100_0000_0000_0000, n);
  }

  lemma {:induction false} HighBytesWithin(v: bv64, w: bv64)
    requires Within(v, Combined(0xFF, w)) && SevenBytes(w)
    ensures Within(HighBytes(v), w)
  {
  }

  lemma {:induction false} WithinNothing(v: bv64)
    requires Within(v, 0)
    ensures v == 0
  {
  }

  lemma {:induction false} NoneFilled()
    ensures Filled(0) == 0
  {
  }

  lemma {:induction false} FilledSplits(n: nat)
    requires 0 < n <= 8
    ensures Filled(n) == Combined(0xFF, Filled(n - 1)) && SevenBytes(Filled(n - 1))
  {
    hide Within;
    FilledGrows(n - 1, 7);
    EightOnes();
    WithinSmall(Filled(n - 1), Filled(7));
  }

  lemma {:induction false} FewZerosIn(v: bv64, n: nat)
    requires v != 0 && n <= 8 && Within(v, Filled(n))
    ensures TrailingZeros(v) < 8 * n
    decreases n
  {
    hide *;
    if n == 0 {
      NoneFilled();
      WithinNothing(v);
    } else if LowByte(v) != 0 {
      LowByteCounts(v);
    } else {
      LowByteZero(v);
      FilledSplits(n);
      HighBytesWithin(v, Filled(n - 1));
      FewZerosIn(HighBytes(v), n - 1);
    }
  }

  lemma {:induction false} FewZeros(v: bv64)
    requires v != 0
    ensures TrailingZeros(v) < 64
  {
    EightOnes();
    assert Filled(8) == 0xFFFF_FFFF_FFFF_FFFF;
    FewZerosIn(v, 8);
  }

  /** The multiplication finds what the instruction counts, for every difference. */
  lemma {:induction false} DeBruijnIsCount(diff: bv64)
    requires diff != 0
    ensures Place(LowestOne(diff)) < 64 && DeBruijnBytePos(Place(LowestOne(diff))) == NbCommonBytes(diff)
  {
    hide LowestOne;
    hide Shifted;
    hide TrailingZeros;
    LowestOneIs(diff);
    FewZeros(diff);
    FoundAnywhere(TrailingZeros(diff));
  }
}
