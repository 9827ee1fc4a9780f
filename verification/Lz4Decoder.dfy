/**
  LZ4_decompress_safe: the decoder that copies eight bytes at a time, proved
  to agree with the one-byte-at-a-time reference decoder on every input.
 */
module Lz4Decoder {
  import opened Bytes
  import opened Lz4Format

  /** dst[lo..hi) repeats with the given period. */
  ghost predicate Periodic(s: seq<byte>, lo: nat, hi: nat, period: nat) {
    period <= lo <= hi <= |s| && forall k | lo <= k < hi :: s[k] == s[k - period]
  }

  /** In a periodic stretch, going back any number of whole periods finds the same byte. */
  lemma {:induction false} PeriodMultiple(s: seq<byte>, lo: nat, hi: nat, period: nat, x: nat, q: nat)
    requires Periodic(s, lo, hi, period)
    requires x < hi
    requires lo - period <= x - q * period
    requires period <= lo
    ensures 0 <= x - q * period && s[x] == s[x - q * period]
    decreases q
  {
    if q > 0 {
      assert q * period == (q - 1) * period + period;
      PeriodMultiple(s, lo, hi, period, x, q - 1);
      var y := x - (q - 1) * period;
      assert lo <= y;
    }
  }

  /**
    A stretch whose first few bytes have a small period, and whose later
    bytes each repeat the byte at a multiple of that period back, has the
    small period throughout.
   */
  lemma {:induction false} WidePeriodIsNarrow(s: seq<byte>, lo: nat, first: nat, hi: nat, period: nat, q: nat)
    requires 1 <= period <= lo && lo + first <= hi <= |s|
    requires Periodic(s, lo, lo + first, period)
    requires 1 <= q && q * period <= first + period
    requires forall k | lo + first <= k < hi :: s[k] == s[k - q * period]
    ensures Periodic(s, lo, hi, period)
    decreases hi
  {
    if hi > lo + first {
      WidePeriodIsNarrow(s, lo, first, hi - 1, period, q);
      var k := hi - 1;
      assert q * period == (q - 1) * period + period;
      PeriodMultiple(s, lo, hi - 1, period, k - period, q - 1);
    }
  }

  /** memcpy of n bytes inside one buffer. */
  method CopyBytes(dst: array<byte>, to: nat, from: nat, n: nat)
    requires to + n <= dst.Length && from + n <= dst.Length
    modifies dst
    ensures forall k | to <= k < to + n :: dst[k] == old(dst[k - to + from])
    ensures forall k | 0 <= k < dst.Length && !(to <= k < to + n) :: dst[k] == old(dst[k])
  {
    forall k | to <= k < to + n {
      dst[k] := dst[from + (k - to)];
    }
  }

  /** LZ4_wildCopy inside the output buffer: eight bytes at a time, up to seven too many. */
  method WildCopy(dst: array<byte>, to: nat, from: nat, end: nat)
    requires from <= to
    requires to + 8 <= dst.Length && end + 7 <= dst.Length
    modifies dst
    ensures forall k | 0 <= k < to :: dst[k] == old(dst[k])
    ensures to - from >= 8 ==> forall k | to <= k < end :: dst[k] == dst[k - (to - from)]
  {
    var d, s := to, from;
    var again := true;
    while again
      invariant to <= d && d - s == to - from
      invariant again ==> d + 8 <= dst.Length
      invariant d <= dst.Length
      invariant !again ==> d >= end
      invariant forall k | 0 <= k < to :: dst[k] == old(dst[k])
      invariant to - from >= 8 ==> forall k | to <= k < d :: dst[k] == dst[k - (to - from)]
      decreases dst.Length - d, again
    {
      CopyBytes(dst, d, s, 8);
      d, s := d + 8, s + 8;
      again := d < end;
    }
  }

  /** LZ4_wildCopy of literals from the input: reads and writes up to seven bytes too many. */
  method WildCopyFrom(dst: array<byte>, to: nat, src: seq<byte>, from: nat, end: nat)
    requires to + 8 <= dst.Length && end + 7 <= dst.Length
    requires from + 8 <= |src| && from + (end - to) + 7 <= |src|
    requires to <= end
    modifies dst
    ensures dst[..to] == old(dst[..to])
    ensures dst[to..end] == src[from..from + (end - to)]
    ensures dst[..end] == old(dst[..to]) + src[from..from + (end - to)]
  {
    var d, s := to, from;
    var again := true;
    while again
      invariant to <= d <= dst.Length && d - to == s - from && s <= |src|
      invariant again ==> d + 8 <= dst.Length && s + 8 <= |src|
      invariant !again ==> d >= end
      invariant forall k | 0 <= k < to :: dst[k] == old(dst[k])
      invariant forall k | to <= k < d :: dst[k] == src[from + (k - to)]
      decreases dst.Length - d, again
    {
      forall k | d <= k < d + 8 {
        dst[k] := src[s + (k - d)];
      }
      d, s := d + 8, s + 8;
      again := d < end;
    }
  }

  const DEC32: seq<nat> := [4, 1, 2, 1, 4, 4, 4, 4]
  const DEC64: seq<int> := [0, 0, 0, -1, 0, 1, 2, 3]

  /** How many offsets the second four bytes of a short-offset match are taken from behind. */
  const SKIP32: seq<nat> := [1, 4, 2, 2, 1, 1, 1, 1]

  /** How many offsets behind the table-adjusted source of a match lies. */
  const SKIP64: seq<nat> := [1, 8, 4, 3, 2, 2, 2, 2]

  function Skip(offset: nat): nat {
    if offset < 8 then SKIP64[offset] else 1
  }

  /** The two tables move the source by whole numbers of offsets. */
  lemma {:induction false} SkipTables(offset: nat)
    requires offset < 8
    ensures offset >= 1 ==> 4 + offset - DEC32[offset] == SKIP32[offset] * offset
    ensures offset >= 1 ==> 4 <= SKIP32[offset] * offset <= 4 + offset
    ensures offset >= 1 ==> 8 + offset - DEC32[offset] + DEC64[offset] == SKIP64[offset] * offset
    ensures offset >= 1 ==> 8 <= SKIP64[offset] * offset <= 8 + offset
    ensures 0 <= DEC32[offset] - DEC64[offset] <= 8 + offset
    ensures offset - DEC32[offset] <= 4
  {
    match offset {
      case 1 =>
      case 2 =>
      case 3 =>
      case 4 =>
      case 5 =>
      case 6 =>
      case 7 =>
      case _ =>
    }
  }

  /** The first four bytes of a match, one at a time. */
  method CopyFirstFour(dst: array<byte>, op: nat, offset: nat)
    requires offset <= op && op + 4 <= dst.Length
    modifies dst
    ensures forall k | 0 <= k < op :: dst[k] == old(dst[k])
    ensures forall k | op <= k < op + 4 :: dst[k] == dst[k - offset]
  {
    var match_ := op - offset;
    dst[op] := dst[match_];
    dst[op + 1] := dst[match_ + 1];
    dst[op + 2] := dst[match_ + 2];
    dst[op + 3] := dst[match_ + 3];
  }

  /** The first eight bytes of a match whose offset is below eight. */
  method CopyFirstEightShort(dst: array<byte>, op: nat, offset: nat)
    requires offset < 8 && offset <= op && op + 8 <= dst.Length
    modifies dst
    ensures forall k | 0 <= k < op :: dst[k] == old(dst[k])
    ensures offset >= 1 ==> Periodic(dst[..], op, op + 8, offset)
  {
    SkipTables(offset);
    CopyFirstFour(dst, op, offset);
    var from := op - offset + DEC32[offset];
    ghost var skip := SKIP32[offset];
    ghost var distance := op + 4 - from;
    CopyBytes(dst, op + 4, from, 4);
    if offset >= 1 {
      assert distance == skip * offset;
      assert forall k | op + 4 <= k < op + 8 :: dst[k] == dst[k - distance];
      WidePeriodIsNarrow(dst[..], op, 4, op + 8, offset, skip);
    }
  }

  /**
    The first eight bytes of a match. Afterwards the copy may go on from a
    source that lies a whole number of offsets, and at least eight bytes, back.
   */
  method CopyFirstEight(dst: array<byte>, op: nat, offset: nat) returns (from: nat)
    requires offset <= op && op + 8 <= dst.Length
    modifies dst
    ensures forall k | 0 <= k < op :: dst[k] == old(dst[k])
    ensures from <= op + 8
    ensures offset >= 1 ==> Periodic(dst[..], op, op + 8, offset)
    ensures offset >= 1 ==> op + 8 - from == Skip(offset) * offset && 8 <= op + 8 - from <= 8 + offset
  {
    if offset < 8 {
      SkipTables(offset);
      CopyFirstEightShort(dst, op, offset);
      from := op - offset + DEC32[offset] - DEC64[offset];
    } else {
      CopyBytes(dst, op, op - offset, 8);
      from := op - offset + 8;
    }
  }

  lemma {:induction false} MatchIsCopied(before: seq<byte>, s: seq<byte>, op: nat, offset: nat, length: nat)
    requires |before| == op && 1 <= offset <= op && op + length <= |s| && op + 8 <= |s|
    requires s[..op] == before
    requires Periodic(s, op, op + 8, offset)
    requires 8 <= Skip(offset) * offset <= 8 + offset
    requires forall k | op + 8 <= k < op + length :: s[k] == s[k - Skip(offset) * offset]
    ensures s[..op + length] == CopyMatch(before, offset, length)
  {
    if length > 8 {
      WidePeriodIsNarrow(s, op, 8, op + length, offset, Skip(offset));
    }
    assert Periodic(s, op, op + length, offset);
    CopyMatchIs(before, offset, length, s[..op + length]);
  }

  /**
    Copies a match whose first byte goes to 'op'. It fails when the match would
    reach into the last five bytes of the output, which must be literals.
   */
  method CopyMatchFast(dst: array<byte>, op: nat, offset: nat, length: nat) returns (ok: bool)
    requires offset <= op <= dst.Length - MFLIMIT && MINMATCH <= length
    modifies dst
    ensures dst[..op] == old(dst[..op])
    ensures ok <==> op + length <= dst.Length - LASTLITERALS
    ensures ok && offset >= 1 ==> dst[..op + length] == CopyMatch(old(dst[..op]), offset, length)
  {
    var end := op + length;
    var from := CopyFirstEight(dst, op, offset);
    var to := op + 8;
    ghost var distance := to - from;
    label first:
    if end > dst.Length - 12 {
      if end > dst.Length - LASTLITERALS {
        return false;
      }
      if to < dst.Length - 8 {
        WildCopy(dst, to, from, dst.Length - 8);
        from := from + (dst.Length - 8 - to);
        to := dst.Length - 8;
      }
      while to < end
        invariant op + 8 <= to <= dst.Length && to - from == distance && from <= to
        invariant forall k | 0 <= k < op + 8 :: dst[k] == old@first(dst[k])
        invariant distance >= 8 ==> forall k | op + 8 <= k < to :: dst[k] == dst[k - distance]
      {
        dst[to] := dst[from];
        to, from := to + 1, from + 1;
      }
    } else {
      WildCopy(dst, to, from, end);
    }
    if offset >= 1 {
      MatchIsCopied(old(dst[..op]), dst[..], op, offset, length);
    }
    ok := true;
  }

  // ----- The main loop -----

  /** Reads the extension bytes of a literal length. */
  method ExtendLiteralLength(src: seq<byte>, at: nat) returns (ip: nat, length: nat)
    requires at < |src|
    ensures at < ip <= |src|
    ensures ReadLiteralLength(src[at..], RUN_MASK) == Run(length, src[ip..])
  {
    ip, length := at, RUN_MASK;
    var again := true;
    while again
      invariant at <= ip <= |src| && (again ==> ip < |src|) && (!again ==> at < ip)
      invariant again ==> ReadLiteralLength(src[at..], RUN_MASK) == ReadLiteralLength(src[ip..], length)
      invariant !again ==> ReadLiteralLength(src[at..], RUN_MASK) == Run(length, src[ip..])
      decreases |src| - ip, again
    {
      var s := src[ip];
      assert src[ip..][1..] == src[ip + 1..];
      ip, length := ip + 1, length + s;
      again := ip < |src| - RUN_MASK && s == 255;
    }
  }

  /** Reads the extension bytes of a match length, or fails near the end of the input. */
  method ExtendMatchLength(src: seq<byte>, at: nat) returns (ok: bool, ip: nat, length: nat)
    requires at <= |src|
    ensures at <= ip <= |src|
    ensures ReadMatchLength(src[at..], RUN_MASK) == if ok then Run(length, src[ip..]) else Truncated(|src| - ip)
    ensures ok ==> ip <= |src| - LASTLITERALS + 1
  {
    ip, length := at, RUN_MASK;
    var again := true;
    while again
      invariant at <= ip <= |src| && (!again ==> ip <= |src| - LASTLITERALS + 1)
      invariant again ==> ReadMatchLength(src[at..], RUN_MASK) == ReadMatchLength(src[ip..], length)
      invariant !again ==> ReadMatchLength(src[at..], RUN_MASK) == Run(length, src[ip..])
      decreases |src| - ip, again
    {
      if ip > |src| - LASTLITERALS {
        return false, ip, length;
      }
      var s := src[ip];
      assert src[ip..][1..] == src[ip + 1..];
      ip, length := ip + 1, length + s;
      again := s == 255;
    }
    ok := true;
  }

  /** The reference result is what is still to be decoded gives, unless a zero offset has been met. */
  ghost predicate Agrees(expected: Decoded, remaining: Decoded) {
    expected == ZeroOffset || expected == remaining
  }

  /** Reads a token and the literal length it starts. */
  method ReadToken(src: seq<byte>, at: nat, ghost text: seq<byte>, ghost capacity: nat)
      returns (token: byte, ip: nat, length: nat)
    requires at + 2 <= |src| || (at < |src| && src[at] < 240)
    ensures at < ip <= |src|
    ensures DecodeFrom(src[at..], text, capacity) == DecodeLiterals(token % 16, length, src[ip..], text, capacity)
  {
    token := src[at];
    ip, length := at + 1, token / 16;
    assert src[at..][1..] == src[ip..];
    if length == RUN_MASK {
      ip, length := ExtendLiteralLength(src, ip);
    }
  }

  /** What the return value and the output buffer must say about a reference result. */
  ghost predicate Reports(expected: Decoded, ret: int, inputSize: nat, output: seq<byte>) {
    match expected
    case Text(text) => ret == |text| && text <= output
    case Malformed(left) => ret == -(inputSize - left) - 1
    case ZeroOffset => true
  }

  /** The final literal run, which must end with the input and fit the output. */
  method TakeFinalRun(src: seq<byte>, at: nat, dst: array<byte>, op: nat, length: nat,
                      ghost nibble: nat, ghost expected: Decoded) returns (ret: int)
    requires op <= dst.Length && at <= |src|
    requires Agrees(expected, DecodeLiterals(nibble, length, src[at..], dst[..op], dst.Length))
    requires op + length > dst.Length - MFLIMIT || at + length > |src| - (2 + 1 + LASTLITERALS)
    modifies dst
    ensures Reports(expected, ret, |src|, dst[..])
  {
    if at + length != |src| || op + length > dst.Length {
      return -(at as int) - 1;
    }
    forall k | op <= k < op + length {
      dst[k] := src[at + (k - op)];
    }
    assert dst[..op + length] == old(dst[..op]) + src[at..];
    return op + length;
  }

  /** Copies the literals of a sequence that is not the last. */
  method TakeLiterals(src: seq<byte>, at: nat, dst: array<byte>, op: nat, length: nat,
                      ghost nibble: nat, ghost expected: Decoded)
    requires op + length <= dst.Length - MFLIMIT && at + length <= |src| - (2 + 1 + LASTLITERALS)
    requires Agrees(expected, DecodeLiterals(nibble, length, src[at..], dst[..op], dst.Length))
    modifies dst
    ensures Agrees(expected, DecodeMatch(nibble, src[at + length..], dst[..op + length], dst.Length))
  {
    hide DecodeMatch;
    WildCopyFrom(dst, op, src, at, op + length);
    assert src[at..][..length] == src[at..at + length];
    assert dst[..op + length] == dst[..op] + src[at..][..length];
    assert src[at..][length..] == src[at + length..];
  }

  /** Reads the offset and length of a match and copies it. */
  method TakeMatch(src: seq<byte>, at: nat, dst: array<byte>, from: nat, nibble: nat, ghost expected: Decoded)
      returns (ok: bool, ip: nat, op: nat)
    requires from <= dst.Length - MFLIMIT && at <= |src| - 8 && nibble < 16
    requires Agrees(expected, DecodeMatch(nibble, src[at..], dst[..from], dst.Length))
    modifies dst
    ensures at < ip <= |src|
    ensures ok ==> ip <= |src| - LASTLITERALS + 1 && op <= dst.Length
    ensures Agrees(expected, if ok then DecodeFrom(src[ip..], dst[..op], dst.Length) else Malformed(|src| - ip))
  {
    hide DecodeFrom;
    var offset := ReadLE16(src[at..]);
    ip, op := at + 2, from;
    assert src[at..][2..] == src[ip..];
    if offset > op {
      return false, ip, op;
    }
    var matchLength := nibble;
    if matchLength == RUN_MASK {
      ok, ip, matchLength := ExtendMatchLength(src, ip);
      if !ok {
        return;
      }
    }
    matchLength := matchLength + MINMATCH;
    ok := CopyMatchFast(dst, op, offset, matchLength);
    op := op + matchLength;
  }

  /** One turn of the main loop. */
  method TakeSequence(src: seq<byte>, at: nat, dst: array<byte>, from: nat, ghost expected: Decoded)
      returns (done: bool, ret: int, ip: nat, op: nat)
    requires at + 2 <= |src| || (at < |src| && src[at] < 240)
    requires from <= dst.Length
    requires Agrees(expected, DecodeFrom(src[at..], dst[..from], dst.Length))
    modifies dst
    ensures done ==> Reports(expected, ret, |src|, dst[..])
    ensures !done ==> at < ip <= |src| - LASTLITERALS + 1 && op <= dst.Length
    ensures !done ==> Agrees(expected, DecodeFrom(src[ip..], dst[..op], dst.Length))
  {
    hide DecodeFrom;
    hide DecodeLiterals;
    hide DecodeMatch;
    var token, start, length := ReadToken(src, at, dst[..from], dst.Length);
    ip, op, ret := start, from, 0;
    if op + length > dst.Length - MFLIMIT || start + length > |src| - (2 + 1 + LASTLITERALS) {
      done := true;
      ret := TakeFinalRun(src, start, dst, op, length, token % 16, expected);
    } else {
      TakeLiterals(src, start, dst, op, length, token % 16, expected);
      var ok;
      ok, ip, op := TakeMatch(src, start + length, dst, op + length, token % 16, expected);
      done := !ok;
      if !ok {
        ret := -(ip as int) - 1;
      }
    }
  }

  /**
    LZ4_decompress_safe. It stays inside both buffers and reports exactly what
    the reference decoder computes. The one thing it asks of its caller is that
    the first token can be read, and the byte after it when the token announces one.
   */
  method Decompress(src: seq<byte>, dst: array<byte>) returns (ret: int)
    requires |src| >= 2 || (|src| == 1 && src[0] < 240)
    modifies dst
    ensures Reports(Decode(src, dst.Length), ret, |src|, dst[..])
  {
    hide DecodeFrom;
    if dst.Length == 0 {
      return if |src| == 1 && src[0] == 0 then 0 else -1;
    }
    ghost var expected := DecodeFrom(src, [], dst.Length);
    var done, ip: nat, op: nat := false, 0, 0;
    ret := 0;
    assert src[0..] == src && dst[..0] == [];
    while !done
      invariant done ==> Reports(expected, ret, |src|, dst[..])
      invariant !done ==> ip == 0 || ip + LASTLITERALS - 1 <= |src|
      invariant !done ==> op <= dst.Length
      invariant !done ==> Agrees(expected, DecodeFrom(src[ip..], dst[..op], dst.Length))
      decreases !done, |src| - ip
    {
      done, ret, ip, op := TakeSequence(src, ip, dst, op, expected);
    }
  }
}
