/**
  How the LZ4 compressor finds matches: the 16-bit hash table, the probing
  loop, the backward extension and the word-at-a-time match length.
 */
module Lz4Match {
  import opened Bytes
  import opened Lz4Format
  import opened Lz4Words

  const SIZE_LIMIT := 65547
  const HASH_SIZE := 8192
  const MAX_DISTANCE := 65535
  const SKIP_TRIGGER := 64

  // ----- Hash table -----

  function Read64(src: seq<byte>, at: nat): nat
    requires at + 8 <= |src|
  {
    var b := i requires 0 <= i < 8 => src[at + i] as int;
    b(0) + 0x100 * b(1) + 0x1_0000 * b(2) + 0x100_0000 * b(3) + 0x1_0000_0000 * b(4)
    + 0x100_0000_0000 * b(5) + 0x1_0000_0000_0000 * b(6) + 0x100_0000_0000_0000 * b(7)
  }

  /** LZ4_hashSequence64 for a 13-bit table. */
  function HashSequence(sequence: nat): (h: nat)
    ensures h < HASH_SIZE
  {
    (sequence * 889523592379 % 0x1_0000_0000_0000_0000) / 0x800_0000 % HASH_SIZE
  }

  method HashPosition(src: seq<byte>, at: nat) returns (h: nat)
    requires at + 8 <= |src|
    ensures h < HASH_SIZE
  {
    h := HashSequence(Read64(src, at));
  }

  ghost predicate IsTable(table: array<nat>, bound: nat)
    reads table
  {
    table.Length == HASH_SIZE && forall h | 0 <= h < HASH_SIZE :: table[h] < bound
  }

  /** Stores a position as the 16-bit entry for its hash. */
  method PutPosition(src: seq<byte>, table: array<nat>, at: nat, ghost bound: nat)
    requires IsTable(table, bound) && at < bound
    requires at + 8 <= |src| < SIZE_LIMIT
    modifies table
    ensures IsTable(table, bound)
  {
    var h := HashPosition(src, at);
    table[h] := at % 0x1_0000;
  }

  /** LZ4_read32(a) == LZ4_read32(b). */
  predicate SameFour(src: seq<byte>, a: nat, b: nat) {
    a + 4 <= |src| && b + 4 <= |src| && src[a..a + 4] == src[b..b + 4]
  }

  // ----- Match finding -----

  /** The bytes at b repeat the bytes at a for n places. */
  ghost predicate Repeats(src: seq<byte>, a: nat, b: nat, n: nat) {
    a <= b && b + n <= |src| && forall k | b <= k < b + n :: src[k] == src[k - (b - a)]
  }

  lemma {:induction false} SameFourRepeats(src: seq<byte>, a: nat, b: nat)
    requires SameFour(src, a, b) && a <= b
    ensures Repeats(src, a, b, MINMATCH)
  {
    forall k | b <= k < b + 4
      ensures src[k] == src[k - (b - a)]
    {
      assert src[a..a + 4][k - b] == src[b..b + 4][k - b];
    }
  }

  /** Probes ever sparser positions until the table offers an earlier one with the same four bytes. */
  method FindMatch(src: seq<byte>, table: array<nat>, start: nat, startHash: nat, acceleration: nat)
      returns (found: bool, ip: nat, match_: nat)
    requires |src| < SIZE_LIMIT
    requires 1 <= start <= |src| - MFLIMIT + 1 && startHash < HASH_SIZE && acceleration >= 1
    requires IsTable(table, start)
    modifies table
    ensures found ==> start <= ip < |src| - MFLIMIT && match_ < ip && Repeats(src, match_, ip, MINMATCH)
    ensures found ==> IsTable(table, ip + 1)
  {
    var forwardIp, forwardH := start, startHash;
    var step, searchMatchNb := 1, acceleration * SKIP_TRIGGER;
    found, ip, match_ := false, start, 0;
    while !found
      invariant table.Length == HASH_SIZE && start <= forwardIp <= |src| - MFLIMIT + 1
      invariant 0 <= forwardH < HASH_SIZE && step >= 1 && searchMatchNb >= SKIP_TRIGGER
      invariant !found ==> IsTable(table, forwardIp)
      invariant found ==> start <= ip < |src| - MFLIMIT && match_ < ip && SameFour(src, match_, ip)
      invariant found ==> IsTable(table, ip + 1)
      decreases !found, |src| - forwardIp
    {
      var h := forwardH;
      ip := forwardIp;
      forwardIp := forwardIp + step;
      step := searchMatchNb / SKIP_TRIGGER;
      searchMatchNb := searchMatchNb + 1;
      if forwardIp > |src| - MFLIMIT {
        return;
      }
      match_ := table[h];
      forwardH := HashPosition(src, forwardIp);
      table[h] := ip % 0x1_0000;
      found := SameFour(src, match_, ip);
    }
    SameFourRepeats(src, match_, ip);
  }

  /** Extends a match backwards, not beyond the first byte still to be encoded. */
  method CatchUp(src: seq<byte>, anchor: nat, fromIp: nat, fromMatch: nat) returns (ip: nat, match_: nat)
    requires anchor <= fromIp && fromMatch < fromIp
    requires Repeats(src, fromMatch, fromIp, MINMATCH)
    ensures anchor <= ip <= fromIp && match_ < ip && ip - match_ == fromIp - fromMatch
    ensures Repeats(src, match_, ip, fromIp - ip + MINMATCH)
  {
    ip, match_ := fromIp, fromMatch;
    while ip > anchor && match_ > 0 && src[ip - 1] == src[match_ - 1]
      invariant anchor <= ip <= fromIp && match_ < ip && ip - match_ == fromIp - fromMatch
      invariant Repeats(src, match_, ip, fromIp - ip + MINMATCH)
    {
      ip, match_ := ip - 1, match_ - 1;
    }
  }

  /** The longest common length of the text at a and the text at b, the latter not reaching beyond limit. */
  function CommonLength(src: seq<byte>, a: nat, b: nat, limit: nat): (n: nat)
    requires a <= b <= limit <= |src|
    ensures b + n <= limit
    decreases limit - b
  {
    if b < limit && src[a] == src[b] then 1 + CommonLength(src, a + 1, b + 1, limit) else 0
  }

  /** Bytes known to be common can be skipped. */
  lemma {:induction false} CommonLengthSkip(src: seq<byte>, a: nat, b: nat, limit: nat, n: nat)
    requires Repeats(src, a, b, n) && b + n <= limit <= |src|
    ensures CommonLength(src, a, b, limit) == n + CommonLength(src, a + n, b + n, limit)
    decreases n
  {
    if n > 0 {
      assert src[b] == src[b - (b - a)];
      CommonLengthSkip(src, a + 1, b + 1, limit, n - 1);
    }
  }

  lemma {:induction false} CommonLengthRepeats(src: seq<byte>, a: nat, b: nat, limit: nat)
    requires a <= b <= limit <= |src|
    ensures Repeats(src, a, b, CommonLength(src, a, b, limit))
    decreases limit - b
  {
    if b < limit && src[a] == src[b] {
      CommonLengthRepeats(src, a + 1, b + 1, limit);
    }
  }

  lemma {:induction false} CommonLengthIsMaximal(src: seq<byte>, a: nat, b: nat, limit: nat, n: nat)
    requires Repeats(src, a, b, n) && b + n <= limit <= |src|
    ensures n <= CommonLength(src, a, b, limit)
  {
    CommonLengthSkip(src, a, b, limit, n);
  }

  lemma {:induction false} CommonLengthNone(src: seq<byte>, a: nat, b: nat, limit: nat)
    requires a <= b < limit <= |src| && src[a] != src[b]
    ensures CommonLength(src, a, b, limit) == 0
  {
  }

  lemma {:induction false} SamePart(src: seq<byte>, a: nat, b: nat, n: nat, m: nat)
    requires a <= b && b + n <= |src| && m <= n && src[a..a + n][..m] == src[b..b + n][..m]
    ensures Repeats(src, a, b, m)
  {
    forall k | b <= k < b + m
      ensures src[k] == src[k - (b - a)]
    {
      assert src[a..a + n][..m][k - b] == src[b..b + n][..m][k - b];
    }
  }

  /** Comparing a block of n bytes either advances past it or finds the common length. */
  lemma {:induction false} CompareBlock(src: seq<byte>, a: nat, b: nat, limit: nat, n: nat)
    requires a <= b && b + n <= limit <= |src|
    ensures src[a..a + n] == src[b..b + n] ==>
              CommonLength(src, a, b, limit) == n + CommonLength(src, a + n, b + n, limit)
    ensures src[a..a + n] != src[b..b + n] ==>
              CommonLength(src, a, b, limit) == FirstDifference(src[a..a + n], src[b..b + n])
  {
    hide CommonLength;
    hide FirstDifference;
    var x, y := src[a..a + n], src[b..b + n];
    var m := if x == y then n else FirstDifference(x, y);
    SamePart(src, a, b, n, m);
    CommonLengthSkip(src, a, b, limit, m);
    if x != y {
      CommonLengthNone(src, a + m, b + m, limit);
    }
  }

  /** LZ4_read32, LZ4_read16 or a plain byte comparison. */
  method SameWord(src: seq<byte>, a: nat, b: nat, ghost limit: nat, n: nat) returns (same: bool)
    requires a <= b && b + n <= limit <= |src|
    ensures same ==> CommonLength(src, a, b, limit) == n + CommonLength(src, a + n, b + n, limit)
    ensures !same ==> CommonLength(src, a, b, limit) < n
  {
    hide FirstDifference;
    hide CommonLength;
    CompareBlock(src, a, b, limit, n);
    same := src[a..a + n] == src[b..b + n];
  }

  /** Fewer than eight bytes are left to compare. */
  method CountTail(src: seq<byte>, ip: nat, match_: nat, limit: nat) returns (n: nat)
    requires match_ <= ip <= limit <= |src| && limit <= ip + 7
    ensures n == CommonLength(src, match_, ip, limit)
  {
    hide CommonLength;
    n := 0;
    var same := false;
    if ip + 3 < limit {
      same := SameWord(src, match_, ip, limit, 4);
      if same {
        n := n + 4;
      }
    }
    same := false;
    if ip + n + 1 < limit {
      same := SameWord(src, match_ + n, ip + n, limit, 2);
      if same {
        n := n + 2;
      }
    }
    if ip + n < limit {
      same := SameWord(src, match_ + n, ip + n, limit, 1);
      if same {
        n := n + 1;
      }
    }
  }

  /** LZ4_count: eight bytes at a time, then four, two and one. */
  method Count(src: seq<byte>, ip: nat, match_: nat, limit: nat) returns (n: nat)
    requires match_ <= ip <= limit <= |src|
    ensures n == CommonLength(src, match_, ip, limit)
  {
    hide FirstDifference;
    hide CommonLength;
    hide Word;
    hide Difference;
    hide NbCommonBytes;
    n := 0;
    while ip + n < limit - 7
      invariant ip + n <= limit
      invariant CommonLength(src, match_, ip, limit) == n + CommonLength(src, match_ + n, ip + n, limit)
    {
      CompareBlock(src, match_ + n, ip + n, limit, 8);
      var x, y := src[match_ + n..match_ + n + 8], src[ip + n..ip + n + 8];
      var diff := Difference(Word(x), Word(y));
      NbCommonBytesIs(x, y);
      if diff != 0 {
        return n + NbCommonBytes(diff);
      }
      n := n + 8;
    }
    var rest := CountTail(src, ip + n, match_ + n, limit);
    n := n + rest;
  }
}
