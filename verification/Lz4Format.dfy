/**
  The LZ4 block format: what a compressed block says (sequences of literals
  and back references), what bytes it is made of, and a one-byte-at-a-time
  reference decoder with the error conditions of lz4.c.
 */
module Lz4Format {
  import opened Bytes

  const MINMATCH := 4
  const LASTLITERALS := 5
  const MFLIMIT := 12
  const RUN_MASK := 15
  const MAX_OFFSET := 65535

  datatype Sequence = Sequence(literals: seq<byte>, offset: nat, matchLength: nat)

  /** The bytes that extend a length of at least 15 beyond its token nibble. */
  function ExtBytes(n: nat): seq<byte> {
    if n < 255 then [n] else [255] + ExtBytes(n - 255)
  }

  function LengthBytes(n: nat): seq<byte> {
    if n < RUN_MASK then [] else ExtBytes(n - RUN_MASK)
  }

  /** How many such bytes there are, as the compressor predicts it. */
  function ExtCount(n: nat): nat {
    (n + 240) / 255
  }

  function Nibble(n: nat): (r: nat)
    ensures r < 16
  {
    if n < RUN_MASK then n else RUN_MASK
  }

  function EncodeHead(s: Sequence): seq<byte>
    requires s.matchLength >= MINMATCH
  {
    [Nibble(|s.literals|) * 16 + Nibble(s.matchLength - MINMATCH)]
    + LengthBytes(|s.literals|) + s.literals
  }

  function LE16(n: nat): seq<byte>
    requires n <= MAX_OFFSET
  {
    [n % 256, n / 256]
  }

  function EncodeMatch(s: Sequence): seq<byte>
    requires s.offset <= MAX_OFFSET && s.matchLength >= MINMATCH
  {
    LE16(s.offset) + LengthBytes(s.matchLength - MINMATCH)
  }

  predicate WellFormed(ss: seq<Sequence>) {
    forall i | 0 <= i < |ss| :: 1 <= ss[i].offset <= MAX_OFFSET && ss[i].matchLength >= MINMATCH
  }

  function EncodeAll(ss: seq<Sequence>): seq<byte>
    requires WellFormed(ss)
  {
    if ss == [] then [] else
      var s := ss[|ss| - 1];
      EncodeAll(ss[..|ss| - 1]) + EncodeHead(s) + EncodeMatch(s)
  }

  /** The final literal run, which has no match. */
  function EncodeLast(literals: seq<byte>): seq<byte> {
    [Nibble(|literals|) * 16] + LengthBytes(|literals|) + literals
  }

  /**
    The text a list of sequences stands for, said of the text: every literal
    is where it should be, and every match byte repeats the byte 'offset'
    places before it.
   */
  ghost predicate Describes(ss: seq<Sequence>, text: seq<byte>)
    decreases |ss|
  {
    if ss == [] then text == [] else
      var s := ss[|ss| - 1];
      var end := |text| - s.matchLength;
      var start := end - |s.literals|;
      && 0 <= start
      && MINMATCH <= s.matchLength
      && 1 <= s.offset <= MAX_OFFSET
      && s.offset <= end
      && text[start..end] == s.literals
      && (forall k | end <= k < |text| :: text[k] == text[k - s.offset])
      && Describes(ss[..|ss| - 1], text[..start])
  }

  /** Where the last match of a described text starts. */
  function LastMatchStart(ss: seq<Sequence>, size: nat): int {
    if ss == [] then 0 else size - ss[|ss| - 1].matchLength
  }

  // ----- Reference decoder -----

  function ReadLE16(s: seq<byte>): nat
    requires |s| >= 2
  {
    var lo: int, hi: int := s[0], s[1];
    lo + 256 * hi
  }

  /** Repeats n bytes, one at a time, each copied from 'offset' places back. */
  function CopyMatch(text: seq<byte>, offset: nat, n: nat): (r: seq<byte>)
    requires 1 <= offset <= |text|
    ensures |r| == |text| + n && r[..|text|] == text
    decreases n
  {
    if n == 0 then text
    else CopyMatch(text + [text[|text| - offset]], offset, n - 1)
  }

  /**
    'Malformed' carries the number of input bytes not consumed when the error
    was seen. A zero offset is not an error to lz4.c, but what it copies is
    whatever the output buffer held.
   */
  datatype Decoded = Text(text: seq<byte>) | Malformed(left: nat) | ZeroOffset

  /** A length read from extension bytes: its value and the input after it. */
  datatype RunLength = Run(length: nat, rest: seq<byte>) | Truncated(left: nat)

  function ReadLiteralLength(rest: seq<byte>, length: nat): (r: RunLength)
    ensures r.Run? ==> |r.rest| < |rest|
  {
    if rest == [] then Truncated(0)
    else if |rest| - 1 > RUN_MASK && rest[0] == 255 then ReadLiteralLength(rest[1..], length + 255)
    else Run(length + rest[0], rest[1..])
  }

  function ReadMatchLength(rest: seq<byte>, length: nat): (r: RunLength)
    ensures r.Run? ==> |r.rest| < |rest|
  {
    if |rest| < LASTLITERALS then Truncated(|rest|)
    else if rest[0] == 255 then ReadMatchLength(rest[1..], length + 255)
    else Run(length + rest[0], rest[1..])
  }

  /** Decodes 'rest' after 'text' has been decoded into a buffer of 'capacity' bytes. */
  function DecodeFrom(rest: seq<byte>, text: seq<byte>, capacity: nat): Decoded
    decreases |rest|
  {
    if rest == [] then Malformed(0) else
      var token := rest[0];
      var run := if token / 16 == RUN_MASK
                 then ReadLiteralLength(rest[1..], RUN_MASK)
                 else Run(token / 16, rest[1..]);
      if run.Truncated? then Malformed(run.left) else
        DecodeLiterals(token % 16, run.length, run.rest, text, capacity)
  }

  function DecodeLiterals(nibble: nat, length: nat, rest: seq<byte>, text: seq<byte>, capacity: nat): Decoded
    decreases |rest|, 1
  {
    if |text| + length > capacity - MFLIMIT || length > |rest| - (2 + 1 + LASTLITERALS) then
      // necessarily the final run: it must use up the input and fit the output
      if length != |rest| || |text| + length > capacity then Malformed(|rest|)
      else Text(text + rest)
    else
      DecodeMatch(nibble, rest[length..], text + rest[..length], capacity)
  }

  function DecodeMatch(nibble: nat, rest: seq<byte>, text: seq<byte>, capacity: nat): Decoded
    requires |rest| >= 8
    decreases |rest|, 0
  {
    var offset := ReadLE16(rest);
    if offset > |text| then Malformed(|rest| - 2) else
      var run := if nibble == RUN_MASK
                 then ReadMatchLength(rest[2..], RUN_MASK)
                 else Run(nibble, rest[2..]);
      if run.Truncated? then Malformed(run.left)
      else if offset == 0 then ZeroOffset
      else if |text| + run.length + MINMATCH > capacity - LASTLITERALS then Malformed(|run.rest|)
      else DecodeFrom(run.rest, CopyMatch(text, offset, run.length + MINMATCH), capacity)
  }

  /** What decoding a whole block into 'capacity' bytes should give. */
  function Decode(block: seq<byte>, capacity: nat): Decoded {
    if capacity == 0 then (if block == [0] then Text([]) else Malformed(|block|))
    else DecodeFrom(block, [], capacity)
  }

  // ----- Lengths -----

  lemma {:induction false} ExtBytesCount(n: nat)
    ensures |ExtBytes(n)| == n / 255 + 1
  {
    if n >= 255 {
      ExtBytesCount(n - 255);
    }
  }

  lemma {:induction false} LengthBytesCount(n: nat)
    ensures |LengthBytes(n)| == ExtCount(n)
    ensures n >= RUN_MASK ==> ExtCount(n) == (n - RUN_MASK) / 255 + 1
  {
    if n >= RUN_MASK {
      ExtBytesCount(n - RUN_MASK);
    }
  }

  /** The literal-length reader stops early near the end of its input; a run that has its literals is never hit by that. */
  lemma {:induction false} ReadLiteralLengthInverts(n: nat, acc: nat, tail: seq<byte>)
    requires |tail| >= n + RUN_MASK
    ensures ReadLiteralLength(ExtBytes(n) + tail, acc) == Run(acc + n, tail)
  {
    var all := ExtBytes(n) + tail;
    if n < 255 {
      assert all[1..] == tail;
    } else {
      ReadLiteralLengthInverts(n - 255, acc + 255, tail);
      assert all[1..] == ExtBytes(n - 255) + tail;
      ExtBytesCount(n - 255);
    }
  }

  lemma {:induction false} ReadMatchLengthInverts(n: nat, acc: nat, tail: seq<byte>)
    requires |tail| >= LASTLITERALS
    ensures ReadMatchLength(ExtBytes(n) + tail, acc) == Run(acc + n, tail)
  {
    var all := ExtBytes(n) + tail;
    if n < 255 {
      assert all[1..] == tail;
    } else {
      ReadMatchLengthInverts(n - 255, acc + 255, tail);
      assert all[1..] == ExtBytes(n - 255) + tail;
    }
  }

  // ----- Matches -----

  /** The declarative reading of a match determines what the one-byte copy produces. */
  lemma {:induction false} CopyMatchIs(text: seq<byte>, offset: nat, n: nat, whole: seq<byte>)
    requires 1 <= offset <= |text|
    requires |whole| == |text| + n && whole[..|text|] == text
    requires forall k | |text| <= k < |whole| :: whole[k] == whole[k - offset]
    ensures CopyMatch(text, offset, n) == whole
    decreases n
  {
    if n > 0 {
      var next := text + [text[|text| - offset]];
      assert whole[|text|] == whole[|text| - offset] == whole[..|text|][|text| - offset];
      assert whole[..|next|] == next;
      CopyMatchIs(next, offset, n - 1, whole);
    }
  }

  // ----- Round trip of the format -----

  /** Reading a token and a literal length recovers what EncodeHead wrote. */
  lemma {:induction false} DecodeHead(lits: seq<byte>, nibble: nat, afterLits: seq<byte>, before: seq<byte>, capacity: nat)
    requires nibble < 16
    ensures DecodeFrom([Nibble(|lits|) * 16 + nibble] + LengthBytes(|lits|) + lits + afterLits, before, capacity)
            == DecodeLiterals(nibble, |lits|, lits + afterLits, before, capacity)
  {
    hide DecodeLiterals;
    hide ReadLiteralLength;
    hide ExtBytes;
    var token: byte := Nibble(|lits|) * 16 + nibble;
    var whole := [token] + LengthBytes(|lits|) + lits + afterLits;
    assert whole[0] == token && token / 16 == Nibble(|lits|) && token % 16 == nibble;
    assert whole[1..] == LengthBytes(|lits|) + (lits + afterLits);
    if |lits| >= RUN_MASK {
      ReadLiteralLengthInverts(|lits| - RUN_MASK, RUN_MASK, lits + afterLits);
    } else {
      assert whole[1..] == lits + afterLits;
    }
  }

  lemma {:induction false} ReadMatchLengthOf(m: nat, tail: seq<byte>)
    requires |tail| >= LASTLITERALS
    ensures m < RUN_MASK ==> Nibble(m) == m && LengthBytes(m) + tail == tail
    ensures m >= RUN_MASK ==> Nibble(m) == RUN_MASK && ReadMatchLength(LengthBytes(m) + tail, RUN_MASK) == Run(m, tail)
  {
    if m >= RUN_MASK {
      ReadMatchLengthInverts(m - RUN_MASK, RUN_MASK, tail);
      assert LengthBytes(m) == ExtBytes(m - RUN_MASK);
    } else {
      assert LengthBytes(m) == [];
    }
  }

  lemma {:induction false} DecodeOneMatch(s: Sequence, tail: seq<byte>, before: seq<byte>, capacity: nat)
    requires 1 <= s.offset <= MAX_OFFSET && s.matchLength >= MINMATCH
    requires s.offset <= |before|
    requires |tail| >= LASTLITERALS + 1
    requires |before| + s.matchLength <= capacity - LASTLITERALS
    ensures |EncodeMatch(s) + tail| >= 8
    ensures DecodeMatch(Nibble(s.matchLength - MINMATCH), EncodeMatch(s) + tail, before, capacity)
            == DecodeFrom(tail, CopyMatch(before, s.offset, s.matchLength), capacity)
  {
    hide DecodeFrom;
    hide CopyMatch;
    var m := s.matchLength - MINMATCH;
    var rest := EncodeMatch(s) + tail;
    assert ReadLE16(rest) == s.offset;
    assert rest[2..] == LengthBytes(m) + tail;
    ReadMatchLengthOf(m, tail);
  }

  lemma {:induction false} LiteralStep(lits: seq<byte>, nibble: nat, afterLits: seq<byte>, before: seq<byte>, capacity: nat)
    requires |afterLits| >= 8
    requires |before| + |lits| <= capacity - MFLIMIT
    ensures DecodeLiterals(nibble, |lits|, lits + afterLits, before, capacity)
            == DecodeMatch(nibble, afterLits, before + lits, capacity)
  {
    hide DecodeMatch;
    var rest := lits + afterLits;
    assert rest[..|lits|] == lits && rest[|lits|..] == afterLits;
  }

  lemma {:induction false} DecodeOneSequence(s: Sequence, tail: seq<byte>, before: seq<byte>, capacity: nat)
    requires 1 <= s.offset <= MAX_OFFSET && s.matchLength >= MINMATCH
    requires s.offset <= |before| + |s.literals|
    requires |tail| >= LASTLITERALS + 1
    requires |before| + |s.literals| <= capacity - MFLIMIT
    requires |before| + |s.literals| + s.matchLength <= capacity - LASTLITERALS
    ensures DecodeFrom(EncodeHead(s) + EncodeMatch(s) + tail, before, capacity)
            == DecodeFrom(tail, CopyMatch(before + s.literals, s.offset, s.matchLength), capacity)
  {
    hide DecodeFrom;
    hide DecodeLiterals;
    hide DecodeMatch;
    hide CopyMatch;
    var lits, afterLits := s.literals, EncodeMatch(s) + tail;
    var nibble := Nibble(s.matchLength - MINMATCH);
    assert EncodeHead(s) + EncodeMatch(s) + tail
        == [Nibble(|lits|) * 16 + nibble] + LengthBytes(|lits|) + lits + afterLits;
    DecodeHead(lits, nibble, afterLits, before, capacity);
    DecodeOneMatch(s, tail, before + lits, capacity);
    LiteralStep(lits, nibble, afterLits, before, capacity);
  }

  lemma {:induction false} DecodeSequences(ss: seq<Sequence>, text: seq<byte>, tail: seq<byte>, capacity: nat)
    requires WellFormed(ss) && Describes(ss, text)
    requires |tail| >= LASTLITERALS + 1
    requires LastMatchStart(ss, |text|) <= capacity - MFLIMIT
    requires |text| <= capacity - LASTLITERALS
    ensures DecodeFrom(EncodeAll(ss) + tail, [], capacity) == DecodeFrom(tail, text, capacity)
    decreases |ss|
  {
    hide DecodeFrom;
    hide CopyMatch;
    hide EncodeHead;
    hide EncodeMatch;
    if ss == [] {
      assert EncodeAll(ss) + tail == tail;
    } else {
      var s := ss[|ss| - 1];
      var pre := ss[..|ss| - 1];
      var end := |text| - s.matchLength;
      var before := text[..end - |s.literals|];
      var tail' := EncodeHead(s) + EncodeMatch(s) + tail;
      assert EncodeAll(ss) + tail == EncodeAll(pre) + tail';
      assert pre != [] ==> |before| >= pre[|pre| - 1].matchLength;
      DecodeSequences(pre, before, tail', capacity);
      assert CopyMatch(before + s.literals, s.offset, s.matchLength) == text by {
        assert before + s.literals == text[..end];
        CopyMatchIs(text[..end], s.offset, s.matchLength, text);
      }
      DecodeOneSequence(s, tail, before, capacity);
    }
  }

  lemma {:induction false} DecodeFinalRun(literals: seq<byte>, text: seq<byte>, capacity: nat)
    requires capacity == |text| + |literals|
    ensures DecodeFrom(EncodeLast(literals), text, capacity) == Text(text + literals)
  {
    DecodeHead(literals, 0, [], text, capacity);
    assert EncodeLast(literals) == [Nibble(|literals|) * 16 + 0] + LengthBytes(|literals|) + literals + [];
    assert literals + [] == literals;
  }

  /**
    Round trip of the format: a block made of sequences that describe 'text'
    and a final literal run decodes, into a buffer of exactly the right size,
    to the text followed by the run, provided the block obeys the end-of-block
    rules: at least five final literals and no match starting in the last
    twelve bytes.
   */
  lemma {:induction false} BlockRoundTrip(ss: seq<Sequence>, text: seq<byte>, literals: seq<byte>)
    requires WellFormed(ss) && Describes(ss, text)
    requires ss != [] ==> |literals| >= LASTLITERALS
    requires ss != [] ==> LastMatchStart(ss, |text|) <= |text| + |literals| - MFLIMIT
    ensures Decode(EncodeAll(ss) + EncodeLast(literals), |text| + |literals|) == Text(text + literals)
  {
    hide DecodeFrom;
    var capacity := |text| + |literals|;
    var tail := EncodeLast(literals);
    if ss == [] {
      assert EncodeAll(ss) + tail == tail;
      if capacity == 0 {
        assert tail == [0];
      }
    } else {
      DecodeSequences(ss, text, tail, capacity);
    }
    DecodeFinalRun(literals, text, capacity);
  }

  /** A block of one byte decodes to nothing or not at all. */
  lemma {:induction false} OneByteBlock(block: seq<byte>, capacity: nat)
    requires |block| == 1 && Decode(block, capacity).Text?
    ensures Decode(block, capacity).text == []
  {
    assert block[1..] == [];
    assert ReadLiteralLength([], RUN_MASK) == Truncated(0);
    var token := block[0];
    if capacity > 0 && token / 16 != RUN_MASK {
      assert DecodeFrom(block, [], capacity) == DecodeLiterals(token % 16, token / 16, [], [], capacity);
    }
  }

  // ----- Where decoding stopped -----

  lemma {:induction false} LiteralLengthLeft(rest: seq<byte>, length: nat)
    ensures ReadLiteralLength(rest, length).Truncated? ==> ReadLiteralLength(rest, length).left <= |rest|
  {
    if rest != [] {
      LiteralLengthLeft(rest[1..], length + 255);
    }
  }

  lemma {:induction false} MatchLengthLeft(rest: seq<byte>, length: nat)
    ensures ReadMatchLength(rest, length).Truncated? ==> ReadMatchLength(rest, length).left <= |rest|
  {
    if rest != [] {
      MatchLengthLeft(rest[1..], length + 255);
    }
  }

  /** A malformed block is found to be so within its bytes. */
  lemma {:induction false} MalformedLeft(rest: seq<byte>, text: seq<byte>, capacity: nat)
    ensures DecodeFrom(rest, text, capacity).Malformed? ==> DecodeFrom(rest, text, capacity).left <= |rest|
    decreases |rest|, 2
  {
    hide CopyMatch;
    if rest != [] {
      var token := rest[0];
      LiteralLengthLeft(rest[1..], RUN_MASK);
      var run := if token / 16 == RUN_MASK
                 then ReadLiteralLength(rest[1..], RUN_MASK)
                 else Run(token / 16, rest[1..]);
      if run.Run? && !(|text| + run.length > capacity - MFLIMIT || run.length > |run.rest| - (2 + 1 + LASTLITERALS)) {
        MalformedMatchLeft(token % 16, run.rest[run.length..], text + run.rest[..run.length], capacity);
      }
    }
  }

  lemma {:induction false} MalformedMatchLeft(nibble: nat, rest: seq<byte>, text: seq<byte>, capacity: nat)
    requires |rest| >= 8
    ensures DecodeMatch(nibble, rest, text, capacity).Malformed? ==> DecodeMatch(nibble, rest, text, capacity).left <= |rest|
    decreases |rest|, 1
  {
    hide CopyMatch;
    var offset := ReadLE16(rest);
    if offset <= |text| {
      MatchLengthLeft(rest[2..], RUN_MASK);
      var run := if nibble == RUN_MASK then ReadMatchLength(rest[2..], RUN_MASK) else Run(nibble, rest[2..]);
      if run.Run? && offset > 0 {
        MalformedLeft(run.rest, CopyMatch(text, offset, run.length + MINMATCH), capacity);
      }
    }
  }
}
