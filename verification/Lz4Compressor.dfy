/**
  LZ4_compress_destSize_generic and LZ4_compress_generic (no dictionary) with
  the 16-bit hash table, as LZ4_compress_destSize selects them for every input
  below 64 KB + 11 bytes on a 64-bit little-endian machine.
 */
module Lz4Compressor {
  import opened Bytes
  import opened Lz4Format
  import opened Lz4Decoder
  import opened Lz4Match

  /** LZ4_COMPRESSBOUND. */
  function CompressBound(n: nat): nat {
    n + n / 255 + 16
  }

  // ----- Writing the parts of a sequence -----

  /** Writes the bytes of a length that exceeds its token nibble. */
  method WriteLength(dst: array<byte>, start: nat, length: nat) returns (op: nat)
    requires start + length / 255 + 1 <= dst.Length
    modifies dst
    ensures op == start + length / 255 + 1
    ensures dst[..op] == old(dst[..start]) + ExtBytes(length)
  {
    op := start;
    var len: int := length;
    assert dst[..op] + ExtBytes(len) == old(dst[..start]) + ExtBytes(length);
    while len >= 255
      invariant 0 <= len && start <= op && op + len / 255 + 1 == start + length / 255 + 1
      invariant dst[..op] + ExtBytes(len) == old(dst[..start]) + ExtBytes(length)
    {
      ghost var before := dst[..op];
      dst[op] := 255;
      op, len := op + 1, len - 255;
      assert dst[..op] == before + [255];
      assert before + [255] + ExtBytes(len) == before + ([255] + ExtBytes(len));
    }
    ghost var before := dst[..op];
    dst[op] := len;
    op := op + 1;
    assert dst[..op] == before + [len];
  }

  function RunHead(n: nat): seq<byte> {
    [Nibble(n) * 16] + LengthBytes(n)
  }

  /** Writes a token without its match nibble, and the literal length. */
  method WriteRunHead(dst: array<byte>, start: nat, run: nat) returns (op: nat)
    requires start + 1 + ExtCount(run) <= dst.Length
    modifies dst
    ensures op == start + 1 + ExtCount(run)
    ensures dst[..op] == old(dst[..start]) + RunHead(run)
  {
    ghost var before := dst[..start];
    var token: byte := Nibble(run) * 16;
    LengthBytesCount(run);
    dst[start] := token;
    op := start + 1;
    assert dst[..op] == before + [token];
    if run >= RUN_MASK {
      op := WriteLength(dst, op, run - RUN_MASK);
    }
    Assoc(before, [token], LengthBytes(run));
  }

  /** Writes a token without its match nibble, the literal length and the literals. */
  method WriteLiterals(src: seq<byte>, anchor: nat, ip: nat, dst: array<byte>, start: nat) returns (op: nat)
    requires anchor <= ip && ip + 8 <= |src|
    requires start + 1 + ExtCount(ip - anchor) + 8 <= dst.Length
    requires start + 1 + ExtCount(ip - anchor) + (ip - anchor) + 7 <= dst.Length
    modifies dst
    ensures op == start + 1 + ExtCount(ip - anchor) + (ip - anchor)
    ensures dst[..op] == old(dst[..start]) + EncodeLast(src[anchor..ip])
  {
    hide LengthBytes;
    hide ExtCount;
    op := WriteRunHead(dst, start, ip - anchor);
    ghost var head := dst[..op];
    WildCopyFrom(dst, op, src, anchor, op + (ip - anchor));
    op := op + (ip - anchor);
    Assoc(old(dst[..start]), RunHead(ip - anchor), src[anchor..ip]);
  }

  /** Writes the final literal run, copying exactly its bytes. */
  method WriteLastLiterals(src: seq<byte>, anchor: nat, run: nat, dst: array<byte>, start: nat) returns (op: nat)
    requires anchor + run <= |src|
    requires start + 1 + ExtCount(run) + run <= dst.Length
    modifies dst
    ensures op == start + 1 + ExtCount(run) + run
    ensures dst[..op] == old(dst[..start]) + EncodeLast(src[anchor..anchor + run])
  {
    hide LengthBytes;
    hide ExtCount;
    op := WriteRunHead(dst, start, run);
    ghost var head := dst[..op];
    ghost var literals := src[anchor..anchor + run];
    forall k | op <= k < op + run {
      dst[k] := src[anchor + (k - op)];
    }
    op := op + run;
    assert dst[..op] == head + literals;
    Assoc(old(dst[..start]), RunHead(run), literals);
  }

  /** LZ4_writeLE16. */
  method WriteOffset(dst: array<byte>, start: nat, offset: nat) returns (op: nat)
    requires start + 2 <= dst.Length && offset <= MAX_OFFSET
    modifies dst
    ensures op == start + 2
    ensures dst[..op] == old(dst[..start]) + LE16(offset)
  {
    dst[start] := offset % 256;
    dst[start + 1] := offset / 256;
    op := start + 2;
  }

  /** A token without a match nibble, given one. */
  function WithNibble(token: byte, length: nat): byte
    requires token % 16 == 0
  {
    var high: int := token;
    high + Nibble(length)
  }

  /** Adds a match length to a token already written and writes its extension bytes. */
  method WriteMatchLength(dst: array<byte>, token: nat, start: nat, length: nat) returns (op: nat)
    requires token < start && start + ExtCount(length) <= dst.Length
    requires dst[token] % 16 == 0
    modifies dst
    ensures op == start + ExtCount(length)
    ensures dst[..op] == old(dst[..start])[token := WithNibble(old(dst[token]), length)] + LengthBytes(length)
  {
    ghost var patched := dst[..start][token := WithNibble(dst[token], length)];
    LengthBytesCount(length);
    dst[token] := WithNibble(dst[token], length);
    op := start;
    assert dst[..op] == patched;
    if length >= RUN_MASK {
      op := WriteLength(dst, op, length - RUN_MASK);
    }
  }

  // ----- What has been encoded so far -----

  /** 'out' encodes the first 'anchor' bytes of the input as the sequences 'ss'. */
  ghost predicate Encoded(src: seq<byte>, out: seq<byte>, ss: seq<Sequence>, anchor: nat) {
    && anchor <= |src|
    && WellFormed(ss)
    && Describes(ss, src[..anchor])
    && out == EncodeAll(ss)
  }

  /** The sequence that takes the input from anchor to ip as literals and then a match of 'length' bytes. */
  function NextSequence(src: seq<byte>, anchor: nat, ip: nat, match_: nat, length: nat): Sequence
    requires anchor <= ip <= |src| && match_ < ip
  {
    Sequence(src[anchor..ip], ip - match_, length)
  }

  lemma {:induction false} DescribesMore(ss: seq<Sequence>, s: Sequence, before: seq<byte>, text: seq<byte>)
    requires Describes(ss, before)
    requires 1 <= s.offset <= MAX_OFFSET && s.matchLength >= MINMATCH
    requires |text| == |before| + |s.literals| + s.matchLength
    requires s.offset <= |before| + |s.literals|
    requires text[..|before|] == before
    requires text[|before|..|before| + |s.literals|] == s.literals
    requires forall k | |before| + |s.literals| <= k < |text| :: text[k] == text[k - s.offset]
    ensures Describes(ss + [s], text)
  {
    assert (ss + [s])[..|ss|] == ss;
  }

  lemma {:induction false} EncodeAllMore(ss: seq<Sequence>, s: Sequence)
    requires WellFormed(ss) && 1 <= s.offset <= MAX_OFFSET && s.matchLength >= MINMATCH
    ensures WellFormed(ss + [s])
    ensures EncodeAll(ss + [s]) == EncodeAll(ss) + EncodeHead(s) + EncodeMatch(s)
  {
    hide EncodeMatch;
    hide EncodeHead;
    assert (ss + [s])[..|ss|] == ss;
  }

  lemma {:induction false} AppendSequence(src: seq<byte>, out: seq<byte>, ss: seq<Sequence>, anchor: nat, ip: nat, match_: nat, length: nat)
    requires Encoded(src, out, ss, anchor)
    requires anchor <= ip && match_ < ip <= match_ + MAX_OFFSET && length >= MINMATCH
    requires Repeats(src, match_, ip, length)
    ensures var s := NextSequence(src, anchor, ip, match_, length);
            Encoded(src, out + EncodeHead(s) + EncodeMatch(s), ss + [s], ip + length)
  {
    hide EncodeMatch;
    hide EncodeHead;
    hide Describes;
    hide EncodeAll;
    var s := NextSequence(src, anchor, ip, match_, length);
    var text := src[..ip + length];
    assert text[..anchor] == src[..anchor] && text[anchor..ip] == src[anchor..ip];
    DescribesMore(ss, s, src[..anchor], text);
    EncodeAllMore(ss, s);
  }

  /** Patching the match nibble into the token of a literal run gives the head of a sequence. */
  lemma {:induction false} PatchToken(out: seq<byte>, literals: seq<byte>, offset: nat, length: nat)
    requires offset <= MAX_OFFSET && length >= MINMATCH
    ensures EncodeLast(literals)[0] % 16 == 0
    ensures var s := Sequence(literals, offset, length);
            (out + EncodeLast(literals) + LE16(offset))[|out| := WithNibble(EncodeLast(literals)[0], length - MINMATCH)]
            + LengthBytes(length - MINMATCH)
            == out + EncodeHead(s) + EncodeMatch(s)
  {
    hide LengthBytes;
    var s := Sequence(literals, offset, length);
    var last := EncodeLast(literals);
    assert EncodeHead(s) == last[0 := WithNibble(last[0], length - MINMATCH)];
    var patched := (out + last + LE16(offset))[|out| := WithNibble(last[0], length - MINMATCH)];
    assert patched == out + EncodeHead(s) + LE16(offset);
    Assoc(out + EncodeHead(s), LE16(offset), LengthBytes(length - MINMATCH));
  }

  // ----- Filling the destination -----

  const MATCH_RESERVE := LASTLITERALS + 1
  const LITERAL_RESERVE := 2 + 8 + 1

  /** What has been encoded leaves room, and distance, for the final run. */
  ghost predicate LeavesEnd(src: seq<byte>, ss: seq<Sequence>, anchor: nat, op: nat, target: nat) {
    ss != [] ==>
      && anchor <= |src| - LASTLITERALS
      && LastMatchStart(ss, anchor) <= |src| - MFLIMIT
      && op <= target - MATCH_RESERVE
      && (op <= target - 9 || LastMatchStart(ss, anchor) <= anchor - 19)
  }

  /** Writes the offset and length of a match whose literals have been written. */
  method WriteMatch(dst: array<byte>, token: nat, start: nat, ghost literals: seq<byte>, offset: nat, length: nat)
      returns (op: nat)
    requires offset <= MAX_OFFSET
    requires token < start && start + 2 + ExtCount(length) <= dst.Length
    requires dst[..start] == dst[..token] + EncodeLast(literals)
    modifies dst
    ensures op == start + 2 + ExtCount(length)
    ensures dst[..op] == old(dst[..token]) + EncodeHead(Sequence(literals, offset, MINMATCH + length))
                       + EncodeMatch(Sequence(literals, offset, MINMATCH + length))
  {
    hide EncodeMatch;
    hide EncodeHead;
    hide LengthBytes;
    hide ExtCount;
    ghost var before := dst[..token];
    PatchToken(before, literals, offset, MINMATCH + length);
    assert dst[token] == dst[..start][token] == EncodeLast(literals)[0];
    op := WriteOffset(dst, start, offset);
    assert dst[token] == dst[..op][token] == EncodeLast(literals)[0];
    op := WriteMatchLength(dst, token, op, length);
  }

  /** The longest match at 'from', beyond its first four bytes, cut down if its length bytes would not fit. */
  method ChooseLength(src: seq<byte>, from: nat, match_: nat, op: nat, target: nat, ghost sure: nat) returns (length: nat)
    requires match_ < from <= |src| - MFLIMIT
    requires op <= target - 9
    requires Repeats(src, match_, from, sure) && MINMATCH <= sure && from + sure <= |src| - LASTLITERALS
    ensures Repeats(src, match_, from, MINMATCH + length) && from + MINMATCH + length <= |src| - LASTLITERALS
    ensures op + ExtCount(length) <= target - MATCH_RESERVE
    ensures sure <= MINMATCH + length || op + ExtCount(length) == target - MATCH_RESERVE
  {
    hide CommonLength;
    var limit := |src| - LASTLITERALS;
    length := Count(src, from + MINMATCH, match_ + MINMATCH, limit);
    CommonLengthRepeats(src, match_ + MINMATCH, from + MINMATCH, limit);
    CommonLengthIsMaximal(src, match_ + MINMATCH, from + MINMATCH, limit, sure - MINMATCH);
    if op + ExtCount(length) > target - MATCH_RESERVE {
      length := 14 + (target - MATCH_RESERVE - op) * 255;
    }
  }

  /** From _next_match on. 'sure' bytes are known to match. */
  method EncodeMatchToFit(src: seq<byte>, dst: array<byte>, token: nat, start: nat, anchor: nat, from: nat, match_: nat,
                          ghost ss: seq<Sequence>, ghost sure: nat)
      returns (op: nat, ip: nat, ghost ss': seq<Sequence>)
    requires |src| < SIZE_LIMIT && anchor <= from <= |src| - MFLIMIT && match_ < from
    requires token < start <= dst.Length - LITERAL_RESERVE
    requires Encoded(src, dst[..token], ss, anchor)
    requires dst[..start] == dst[..token] + EncodeLast(src[anchor..from])
    requires Repeats(src, match_, from, sure) && MINMATCH <= sure && from + sure <= |src| - LASTLITERALS
    modifies dst
    ensures op <= dst.Length && Encoded(src, dst[..op], ss', ip) && ss' != []
    ensures LastMatchStart(ss', ip) == from && from + MINMATCH <= ip
    ensures LeavesEnd(src, ss', ip, op, dst.Length)
    ensures from + sure <= ip || op == dst.Length - MATCH_RESERVE
  {
    hide Encoded;
    hide Repeats;
    hide EncodeLast;
    var matchLength := ChooseLength(src, from, match_, start + 2, dst.Length, sure);
    AppendSequence(src, dst[..token], ss, anchor, from, match_, MINMATCH + matchLength);
    ss' := ss + [NextSequence(src, anchor, from, match_, MINMATCH + matchLength)];
    op := WriteMatch(dst, token, start, src[anchor..from], from - match_, matchLength);
    ip := from + MINMATCH + matchLength;
  }

  /** The length of the final literal run when 'remaining' bytes are left to encode and 'room' bytes to fill. */
  function FinalRun(remaining: nat, room: nat): (run: nat)
    requires room >= 1
  {
    if 1 + ExtCount(remaining) + remaining > room
    then room - 1 - ExtCount(room - 1)
    else remaining
  }

  /** The shortened run never exceeds the remaining input, fits, wastes at most two bytes, and keeps what the end rules need. */
  lemma {:induction false} FinalRunFits(remaining: nat, room: nat)
    requires room >= 1 && remaining < SIZE_LIMIT
    ensures room - 1 >= ExtCount(room - 1)
    ensures var run := FinalRun(remaining, room);
            && run <= remaining
            && 1 + ExtCount(run) + run <= room
            && (run < remaining ==> room - 2 <= 1 + ExtCount(run) + run)
            && (room >= 2 && remaining >= 1 ==> run >= 1)
            && (room >= MATCH_RESERVE && remaining >= LASTLITERALS ==> run >= LASTLITERALS)
            && (run < remaining && room >= 9 ==> run >= 8)
  {
    var x := room - 1;
    var e := ExtCount(x);
    assert 255 * e <= x + 240 < 255 * e + 255;
    if 1 + ExtCount(remaining) + remaining > room {
      var run: int := x - e;
      assert 255 * ExtCount(run) <= run + 240 < 255 * ExtCount(run) + 255;
      assert ExtCount(run) <= e;
      assert run >= remaining ==> ExtCount(remaining) <= e;
    }
  }

  /** Fills the table after a match and tests whether another match starts right there. */
  method TestNextPosition(src: seq<byte>, table: array<nat>, ip: nat) returns (again: bool, match_: nat)
    requires |src| < SIZE_LIMIT && 2 <= ip <= |src| - MFLIMIT
    requires IsTable(table, ip)
    modifies table
    ensures IsTable(table, ip + 1)
    ensures again ==> match_ < ip && Repeats(src, match_, ip, MINMATCH)
  {
    PutPosition(src, table, ip - 2, ip);
    var h := HashPosition(src, ip);
    match_ := table[h];
    PutPosition(src, table, ip, ip + 1);
    again := match_ + MAX_DISTANCE >= ip && SameFour(src, match_, ip);
    if again {
      SameFourRepeats(src, match_, ip);
    }
  }

  /** The token of a sequence without literals. */
  method StartEmptyRun(dst: array<byte>, start: nat) returns (op: nat)
    requires start < dst.Length
    modifies dst
    ensures op == start + 1
    ensures dst[..start] == old(dst[..start]) && dst[..op] == dst[..start] + EncodeLast([])
  {
    dst[start] := 0;
    op := start + 1;
  }

  /** A final run cut down for this room uses all of it. */
  predicate Fills(room: nat) {
    (room + 239) % 255 >= (room + 239) / 255
  }

  /**
    lz4.h says that a destination too small for everything is filled
    completely. A shortened final run does so exactly for these rooms; for the
    others up to two bytes stay unused.
   */
  lemma {:induction false} FinalRunFills(remaining: nat, room: nat)
    requires room >= 1 && FinalRun(remaining, room) < remaining
    ensures var run := FinalRun(remaining, room);
            1 + ExtCount(run) + run == room <==> Fills(room)
  {
    var q, r := (room + 239) / 255, (room + 239) % 255;
    assert room + 239 == 255 * q + r;
    assert ExtCount(room - 1) == q;
    var run: int := room - 1 - q;
    assert run + 240 == 255 * q + (r - q);
    if r >= q {
      assert ExtCount(run) == q;
    }
  }

  /**
    The block consists of sequences and a final run, which is cut down to the
    room that they leave if there is more input than that. If so, the
    destination is filled exactly for the rooms that a run can fill.
   */
  ghost predicate CutToFit(src: seq<byte>, out: seq<byte>, consumed: nat, target: nat, ss: seq<Sequence>, anchor: nat) {
    && anchor <= consumed <= |src|
    && WellFormed(ss) && Describes(ss, src[..anchor])
    && |EncodeAll(ss)| < target
    && var room := target - |EncodeAll(ss)|;
    && out == EncodeAll(ss) + EncodeLast(src[anchor..consumed])
    && consumed - anchor == FinalRun(|src| - anchor, room)
    && (consumed < |src| ==> (|out| == target <==> Fills(room)))
  }

  /** _next_match: encodes matches for as long as the position after one starts another. */
  method EncodeMatches(src: seq<byte>, dst: array<byte>, table: array<nat>, firstToken: nat, start: nat,
                       anchor0: nat, from: nat, firstMatch: nat, ghost ss: seq<Sequence>, ghost found: nat)
      returns (stop: bool, op: nat, ip: nat, forwardH: nat, anchor: nat, ghost ss': seq<Sequence>)
    requires |src| < SIZE_LIMIT && anchor0 <= from <= found < |src| - MFLIMIT && firstMatch < from
    requires firstToken < start <= dst.Length - LITERAL_RESERVE
    requires Encoded(src, dst[..firstToken], ss, anchor0)
    requires dst[..start] == dst[..firstToken] + EncodeLast(src[anchor0..from])
    requires Repeats(src, firstMatch, from, found - from + MINMATCH)
    requires IsTable(table, found + 1)
    modifies dst, table
    ensures op <= dst.Length && Encoded(src, dst[..op], ss', anchor) && ss' != []
    ensures LeavesEnd(src, ss', anchor, op, dst.Length)
    ensures !stop ==> 1 <= ip <= |src| - MFLIMIT + 1 && anchor <= ip && forwardH < HASH_SIZE && IsTable(table, ip)
    ensures !stop ==> op <= dst.Length - LITERAL_RESERVE - 1 && anchor0 < anchor
  {
    var token: nat, match_: nat := firstToken, firstMatch;
    ghost var sure: nat := found - from + MINMATCH;
    hide Encoded;
    hide Repeats;
    hide LeavesEnd;
    hide EncodeLast;
    op, ip, anchor, ss' := start, from, anchor0, ss;
    forwardH, stop := 0, false;
    var again := true;
    while again
      invariant anchor0 <= anchor <= ip && (again ==> ip <= |src| - MFLIMIT && match_ < ip)
      invariant again ==> token < op <= dst.Length - LITERAL_RESERVE
      invariant again ==> Encoded(src, dst[..token], ss', anchor)
      invariant again ==> dst[..op] == dst[..token] + EncodeLast(src[anchor..ip])
      invariant again ==> Repeats(src, match_, ip, sure) && MINMATCH <= sure && ip + sure <= |src| - LASTLITERALS
      invariant again ==> IsTable(table, ip + sure - MINMATCH + 1)
      invariant !again ==> op <= dst.Length && Encoded(src, dst[..op], ss', anchor) && ss' != []
      invariant !again ==> LeavesEnd(src, ss', anchor, op, dst.Length)
      invariant !again && !stop ==> ip <= |src| - MFLIMIT + 1 && 0 <= forwardH < HASH_SIZE && IsTable(table, ip)
      invariant !again && !stop ==> op <= dst.Length - LITERAL_RESERVE - 1 && anchor0 < anchor
      decreases |src| - ip, again
    {
      op, ip, ss' := EncodeMatchToFit(src, dst, token, op, anchor, ip, match_, ss', sure);
      anchor := ip;
      again := false;
      stop := ip > |src| - MFLIMIT || op > dst.Length - LITERAL_RESERVE - 1;
      if !stop {
        again, match_ := TestNextPosition(src, table, ip);
        if again {
          token, sure := op, MINMATCH;
          op := StartEmptyRun(dst, op);
          assert src[anchor..ip] == [];
        } else {
          ip := ip + 1;
          forwardH := HashPosition(src, ip);
        }
      }
    }
  }

  /**
    The main loop of LZ4_compress_destSize_generic: it stops when no further
    match is found, or fits.
   */
  method EncodeSequencesToFit(src: seq<byte>, dst: array<byte>, table: array<nat>)
      returns (op: nat, anchor: nat, ghost ss: seq<Sequence>)
    requires MFLIMIT < |src| < SIZE_LIMIT
    requires IsTable(table, 1)
    modifies dst, table
    ensures op <= dst.Length && Encoded(src, dst[..op], ss, anchor)
    ensures LeavesEnd(src, ss, anchor, op, dst.Length)
    ensures ss == [] ==> op == 0 && anchor == 0
  {
    hide Repeats;
    op, anchor, ss := 0, 0, [];
    PutPosition(src, table, 0, 1);
    var ip := 1;
    var forwardH := HashPosition(src, ip);
    var stop := false;
    while !stop
      invariant op <= dst.Length && Encoded(src, dst[..op], ss, anchor)
      invariant LeavesEnd(src, ss, anchor, op, dst.Length)
      invariant ss == [] ==> op == 0 && anchor == 0
      invariant !stop ==> anchor <= ip <= |src| - MFLIMIT + 1 && 1 <= ip && 0 <= forwardH < HASH_SIZE
      invariant !stop ==> IsTable(table, ip)
      decreases !stop, |src| - anchor
    {
      var found, from, match_ := FindMatch(src, table, ip, forwardH, 1);
      if !found {
        break;
      }
      ghost var probed := from;
      from, match_ := CatchUp(src, anchor, from, match_);
      if op + 1 + ExtCount(from - anchor) + (from - anchor) > dst.Length - LITERAL_RESERVE {
        break;
      }
      var start := WriteLiterals(src, anchor, from, dst, op);
      ghost var encoded := dst[..op];
      assert dst[..op] == dst[..start][..op];
      stop, op, ip, forwardH, anchor, ss := EncodeMatches(src, dst, table, op, start, anchor, from, match_, ss, probed);
    }
  }

  /** A final run as long as FinalRun says completes a block that decodes to everything consumed. */
  lemma {:induction false} FinishBlock(src: seq<byte>, out: seq<byte>, ss: seq<Sequence>, anchor: nat, run: nat)
    requires Encoded(src, out, ss, anchor)
    requires anchor + run <= |src|
    requires ss != [] ==> run >= LASTLITERALS && LastMatchStart(ss, anchor) <= anchor + run - MFLIMIT
    ensures Decode(out + EncodeLast(src[anchor..anchor + run]), anchor + run) == Text(src[..anchor + run])
  {
    hide Decode;
    hide Describes;
    hide EncodeLast;
    hide EncodeAll;
    assert src[..anchor + run] == src[..anchor] + src[anchor..anchor + run];
    BlockRoundTrip(ss, src[..anchor], src[anchor..anchor + run]);
  }

  lemma {:induction false} FinalRunCut(src: seq<byte>, out: seq<byte>, ss: seq<Sequence>, anchor: nat, target: nat)
    requires Encoded(src, out, ss, anchor) && |out| < target && |src| < SIZE_LIMIT
    ensures var run := FinalRun(|src| - anchor, target - |out|);
            anchor + run <= |src|
            && CutToFit(src, out + EncodeLast(src[anchor..anchor + run]), anchor + run, target, ss, anchor)
  {
    hide Describes;
    hide EncodeAll;
    hide FinalRun;
    hide ExtCount;
    hide LengthBytes;
    hide Fills;
    FinalRunFits(|src| - anchor, target - |out|);
    var run := FinalRun(|src| - anchor, target - |out|);
    LengthBytesCount(run);
    if run < |src| - anchor {
      FinalRunFills(|src| - anchor, target - |out|);
    }
  }

  /**
    LZ4_compress_destSize_generic with the 16-bit table. Whatever it writes
    stays inside the destination and decodes to exactly the bytes it reports
    as consumed; when it could not consume everything, at most two bytes of
    the destination are left unused, and none exactly for the rooms that the
    final run can fill.
   */
  method CompressDestSizeGeneric(src: seq<byte>, dst: array<byte>, table: array<nat>)
      returns (written: nat, consumed: nat, ghost ss: seq<Sequence>, ghost anchor: nat)
    requires IsTable(table, 1)
    modifies dst, table
    ensures written <= dst.Length && consumed <= |src|
    ensures written == 0 <==> dst.Length == 0 || |src| >= SIZE_LIMIT
    ensures written == 0 ==> consumed == |src|
    ensures written > 0 ==> Decode(dst[..written], consumed) == Text(src[..consumed])
    ensures consumed < |src| ==> dst.Length - 2 <= written
    ensures written > 0 && dst.Length >= 2 && src != [] ==> consumed >= 1
    ensures written > 0 ==> CutToFit(src, dst[..written], consumed, dst.Length, ss, anchor)
  {
    hide Decode;
    hide FinalRun;
    hide ExtCount;
    hide CutToFit;
    ss, anchor := [], 0;
    if dst.Length < 1 || |src| >= SIZE_LIMIT {
      return 0, |src|, ss, anchor;
    }
    var op: nat, start: nat := 0, 0;
    assert Encoded(src, dst[..0], ss, 0);
    if |src| >= MFLIMIT + 1 {
      op, start, ss := EncodeSequencesToFit(src, dst, table);
    }
    anchor := start;
    FinalRunFits(|src| - start, dst.Length - op);
    var run := FinalRun(|src| - start, dst.Length - op);
    ghost var out := dst[..op];
    written := WriteLastLiterals(src, start, run, dst, op);
    consumed := start + run;
    FinishBlock(src, out, ss, start, run);
    FinalRunCut(src, out, ss, start, dst.Length);
  }

  // ----- Compressing everything: LZ4_compress_generic -----

  /**
    What the output may hold when everything up to 'at' has been written.
    Without a limit the destination has the bound's size and the output stays
    below it by construction; with one it is checked.
   */
  ghost predicate StaysInside(limited: bool, at: nat, op: nat, slack: nat) {
    !limited ==> 255 * op <= 256 * at + slack
  }

  lemma {:induction false} WholeMatchRepeats(src: seq<byte>, match_: nat, from: nat, limit: nat, sure: nat)
    requires MINMATCH <= sure && from + sure <= limit <= |src|
    requires Repeats(src, match_, from, sure)
    ensures var n := CommonLength(src, match_ + MINMATCH, from + MINMATCH, limit);
            sure <= MINMATCH + n && from + MINMATCH + n <= limit && Repeats(src, match_, from, MINMATCH + n)
  {
    hide CommonLength;
    CommonLengthRepeats(src, match_ + MINMATCH, from + MINMATCH, limit);
    CommonLengthIsMaximal(src, match_ + MINMATCH, from + MINMATCH, limit, sure - MINMATCH);
  }

  /** From _next_match on: offset, whole match, length; fails if the limit is too close. */
  method EncodeWholeMatch(src: seq<byte>, dst: array<byte>, limited: bool, token: nat, start: nat,
                          anchor: nat, from: nat, match_: nat, ghost ss: seq<Sequence>, ghost sure: nat)
      returns (ok: bool, op: nat, ip: nat, ghost ss': seq<Sequence>)
    requires |src| < SIZE_LIMIT && anchor <= from <= |src| - MFLIMIT && match_ < from
    requires token < start && start + 2 <= dst.Length
    requires !limited ==> dst.Length >= CompressBound(|src|)
    requires StaysInside(limited, from, start, 495)
    requires Encoded(src, dst[..token], ss, anchor)
    requires dst[..start] == dst[..token] + EncodeLast(src[anchor..from])
    requires Repeats(src, match_, from, sure) && MINMATCH <= sure && from + sure <= |src| - LASTLITERALS
    modifies dst
    ensures !ok ==> limited
    ensures ok ==> op + 3 <= dst.Length && StaysInside(limited, ip, op, 0)
    ensures ok ==> Encoded(src, dst[..op], ss', ip) && ss' != [] && LastMatchStart(ss', ip) == from
    ensures ok ==> from + sure <= ip <= |src| - LASTLITERALS
  {
    hide Encoded;
    hide Repeats;
    hide EncodeLast;
    hide CommonLength;
    var limit := |src| - LASTLITERALS;
    var matchLength := Count(src, from + MINMATCH, match_ + MINMATCH, limit);
    WholeMatchRepeats(src, match_, from, limit, sure);
    op, ip, ss' := start + 2, from + MINMATCH + matchLength, ss;
    if limited && op + (1 + LASTLITERALS) + matchLength / 256 > dst.Length {
      return false, op, ip, ss';
    }
    AppendSequence(src, dst[..token], ss, anchor, from, match_, MINMATCH + matchLength);
    ss' := ss + [NextSequence(src, anchor, from, match_, MINMATCH + matchLength)];
    op := WriteMatch(dst, token, start, src[anchor..from], from - match_, matchLength);
    ok := true;
  }

  ghost predicate KeepsEndRules(src: seq<byte>, ss: seq<Sequence>, anchor: nat) {
    ss != [] ==> anchor <= |src| - LASTLITERALS && LastMatchStart(ss, anchor) <= |src| - MFLIMIT
  }

  /** _next_match of LZ4_compress_generic. */
  method EncodeWholeMatches(src: seq<byte>, dst: array<byte>, table: array<nat>, limited: bool, firstToken: nat, start: nat,
                            anchor0: nat, from: nat, firstMatch: nat, ghost ss: seq<Sequence>, ghost found: nat)
      returns (ok: bool, stop: bool, op: nat, ip: nat, forwardH: nat, anchor: nat, ghost ss': seq<Sequence>)
    requires |src| < SIZE_LIMIT && anchor0 <= from <= found < |src| - MFLIMIT && firstMatch < from
    requires firstToken < start && start + 2 <= dst.Length
    requires !limited ==> dst.Length >= CompressBound(|src|)
    requires StaysInside(limited, from, start, 495)
    requires Encoded(src, dst[..firstToken], ss, anchor0)
    requires dst[..start] == dst[..firstToken] + EncodeLast(src[anchor0..from])
    requires Repeats(src, firstMatch, from, found - from + MINMATCH)
    requires IsTable(table, found + 1)
    modifies dst, table
    ensures !ok ==> limited
    ensures ok ==> op <= dst.Length && Encoded(src, dst[..op], ss', anchor) && StaysInside(limited, anchor, op, 0)
    ensures ok ==> KeepsEndRules(src, ss', anchor) && anchor0 < anchor
    ensures ok && !stop ==> 1 <= ip <= |src| - MFLIMIT + 1 && anchor <= ip && forwardH < HASH_SIZE && IsTable(table, ip)
  {
    hide Encoded;
    hide Repeats;
    hide EncodeLast;
    var token: nat, match_: nat := firstToken, firstMatch;
    ghost var sure: nat := found - from + MINMATCH;
    op, ip, anchor, ss' := start, from, anchor0, ss;
    forwardH, stop, ok := 0, false, true;
    var again := true;
    while again
      invariant anchor0 <= anchor <= ip
      invariant again ==> ok && ip <= |src| - MFLIMIT && match_ < ip
      invariant again ==> token < op && op + 2 <= dst.Length && StaysInside(limited, ip, op, 495)
      invariant again ==> Encoded(src, dst[..token], ss', anchor)
      invariant again ==> dst[..op] == dst[..token] + EncodeLast(src[anchor..ip])
      invariant again ==> Repeats(src, match_, ip, sure) && MINMATCH <= sure && ip + sure <= |src| - LASTLITERALS
      invariant again ==> IsTable(table, ip + sure - MINMATCH + 1)
      invariant !ok ==> limited
      invariant !again && ok ==> op <= dst.Length && Encoded(src, dst[..op], ss', anchor)
      invariant !again && ok ==> StaysInside(limited, anchor, op, 0) && KeepsEndRules(src, ss', anchor) && anchor0 < anchor
      invariant !again && ok && !stop ==> ip <= |src| - MFLIMIT + 1 && 0 <= forwardH < HASH_SIZE && IsTable(table, ip)
      decreases |src| + 1 - ip, again
    {
      var here := ip;
      ok, op, ip, ss' := EncodeWholeMatch(src, dst, limited, token, op, anchor, here, match_, ss', sure);
      again := false;
      if !ok {
        ip := here;
        break;
      }
      anchor := ip;
      stop := ip > |src| - MFLIMIT;
      if !stop {
        again, match_ := TestNextPosition(src, table, ip);
        if again {
          token, sure := op, MINMATCH;
          op := StartEmptyRun(dst, op);
          assert src[anchor..ip] == [];
        } else {
          ip := ip + 1;
          forwardH := HashPosition(src, ip);
        }
      }
    }
  }

  /** The main loop of LZ4_compress_generic. */
  method EncodeAllSequences(src: seq<byte>, dst: array<byte>, table: array<nat>, limited: bool, acceleration: nat)
      returns (ok: bool, op: nat, anchor: nat, ghost ss: seq<Sequence>)
    requires MFLIMIT < |src| < SIZE_LIMIT && acceleration >= 1
    requires !limited ==> dst.Length >= CompressBound(|src|)
    requires IsTable(table, 1)
    modifies dst, table
    ensures !ok ==> limited
    ensures ok ==> op <= dst.Length && Encoded(src, dst[..op], ss, anchor) && StaysInside(limited, anchor, op, 0)
    ensures ok ==> KeepsEndRules(src, ss, anchor)
  {
    hide Repeats;
    ok, op, anchor, ss := true, 0, 0, [];

    PutPosition(src, table, 0, 1);
    var ip := 1;
    var forwardH := HashPosition(src, ip);
    var stop := false;
    while !stop
      invariant ok && op <= dst.Length && Encoded(src, dst[..op], ss, anchor) && StaysInside(limited, anchor, op, 0)
      invariant KeepsEndRules(src, ss, anchor)
      invariant !stop ==> anchor <= ip <= |src| - MFLIMIT + 1 && 1 <= ip && 0 <= forwardH < HASH_SIZE
      invariant !stop ==> IsTable(table, ip)
      decreases !stop, |src| - anchor
    {
      var found, from, match_ := FindMatch(src, table, ip, forwardH, acceleration);
      if !found {
        break;
      }
      ghost var probed := from;
      from, match_ := CatchUp(src, anchor, from, match_);
      var litLength := from - anchor;
      if limited && op + 1 + litLength + (2 + 1 + LASTLITERALS) + litLength / 255 > dst.Length {
        return false, op, anchor, ss;
      }
      var start := WriteLiterals(src, anchor, from, dst, op);
      assert dst[..op] == dst[..start][..op];
      ok, stop, op, ip, forwardH, anchor, ss :=
        EncodeWholeMatches(src, dst, table, limited, op, start, anchor, from, match_, ss, probed);
      if !ok {
        return;
      }
    }
  }

  /**
    LZ4_compress_generic without a dictionary and with the 16-bit table. With a
    limit it may give up and return 0. Without one it needs a destination of
    the bound's size, always succeeds, stays inside it, and the whole input can
    be decoded from what it wrote.
   */
  method CompressGeneric(src: seq<byte>, dst: array<byte>, table: array<nat>, limited: bool, acceleration: nat)
      returns (written: nat)
    requires acceleration >= 1
    requires !limited ==> dst.Length >= CompressBound(|src|)
    requires IsTable(table, 1)
    modifies dst, table
    ensures written <= dst.Length
    ensures |src| >= SIZE_LIMIT ==> written == 0
    ensures !limited && |src| < SIZE_LIMIT ==> 0 < written <= CompressBound(|src|)
    ensures written > 0 ==> Decode(dst[..written], |src|) == Text(src)
  {
    hide Decode;
    if |src| >= SIZE_LIMIT {
      return 0;
    }
    var op: nat, anchor: nat := 0, 0;
    ghost var ss := [];
    assert Encoded(src, dst[..0], ss, 0);
    if |src| >= MFLIMIT + 1 {
      var ok;
      ok, op, anchor, ss := EncodeAllSequences(src, dst, table, limited, acceleration);
      if !ok {
        return 0;
      }
    }
    var lastRun := |src| - anchor;
    if limited && op + lastRun + 1 + (lastRun + 255 - RUN_MASK) / 255 > dst.Length {
      return 0;
    }
    ghost var out := dst[..op];
    assert 255 * ExtCount(lastRun) <= lastRun + 240;
    written := WriteLastLiterals(src, anchor, lastRun, dst, op);
    FinishBlock(src, out, ss, anchor, lastRun);
    assert src[..anchor + lastRun] == src;
  }

  /** LZ4_compress_destSize: everything when the bound fits, else as much as fits. */
  method CompressDestSize(src: seq<byte>, dst: array<byte>)
      returns (written: nat, consumed: nat, ghost ss: seq<Sequence>, ghost anchor: nat)
    requires |src| < SIZE_LIMIT
    modifies dst
    ensures written <= dst.Length && consumed <= |src|
    ensures written == 0 <==> dst.Length == 0
    ensures written > 0 ==> Decode(dst[..written], consumed) == Text(src[..consumed])
    ensures consumed < |src| ==> dst.Length - 2 <= written
    ensures written > 0 && dst.Length >= 2 && src != [] ==> consumed >= 1
    ensures 0 < dst.Length < CompressBound(|src|) ==> CutToFit(src, dst[..written], consumed, dst.Length, ss, anchor)
  {
    hide Decode;
    hide CutToFit;
    ss, anchor := [], 0;
    var table := new nat[HASH_SIZE](i => 0);
    if dst.Length >= CompressBound(|src|) {
      written := CompressGeneric(src, dst, table, false, 1);
      consumed := |src|;
      assert src[..|src|] == src;
    } else {
      written, consumed, ss, anchor := CompressDestSizeGeneric(src, dst, table);
    }
  }

  function FourAt(text: seq<byte>, i: nat): seq<byte>
    requires i + MINMATCH <= |text|
  {
    text[i..i + MINMATCH]
  }

  /** No four bytes of the text occur twice. */
  ghost predicate Unrepetitive(text: seq<byte>) {
    forall i: nat, j: nat | i < j <= |text| - MINMATCH :: FourAt(text, i) != FourAt(text, j)
  }

  lemma {:induction false} NothingToMatch(ss: seq<Sequence>, text: seq<byte>)
    requires Describes(ss, text)
    ensures ss != [] ==> !Unrepetitive(text)
  {
    if ss != [] {
      var s := ss[|ss| - 1];
      var end := |text| - s.matchLength;
      assert FourAt(text, end - s.offset) == FourAt(text, end);
    }
  }

  /** Three hundred bytes that first rise and then fall. */
  function RiseAndFall(): (text: seq<byte>)
    ensures |text| == 300 && forall i | 0 <= i < 300 :: text[i] == if i < 256 then i else 511 - i
  {
    seq(300, i requires 0 <= i < 300 => if i < 256 then i else 511 - i)
  }

  lemma {:induction false} SameFourStart(text: seq<byte>, i: nat, j: nat)
    requires i + MINMATCH <= |text| && j + MINMATCH <= |text|
    ensures FourAt(text, i) == FourAt(text, j) ==> text[i] == text[j] && text[i + 1] == text[j + 1]
  {
    assert FourAt(text, i)[0] == text[i] && FourAt(text, i)[1] == text[i + 1];
    assert FourAt(text, j)[0] == text[j] && FourAt(text, j)[1] == text[j + 1];
  }

  lemma {:induction false} RiseAndFallUnrepetitive(anchor: nat)
    requires anchor <= 300
    ensures Unrepetitive(RiseAndFall()[..anchor])
  {
    hide RiseAndFall;
    var text := RiseAndFall()[..anchor];
    forall i: nat, j: nat | i < j <= anchor - MINMATCH
      ensures FourAt(text, i) != FourAt(text, j)
    {
      SameFourStart(text, i, j);
    }
  }

  /** An input and a destination that show a byte to stay unused. */
  method DestinationNotFilled() returns (out: seq<byte>, consumed: nat)
    ensures |out| == 270 && consumed == 268
    ensures Decode(out, consumed) == Text(RiseAndFall()[..consumed])
  {
    hide Decode;
    hide RiseAndFall;
    var dst := new byte[271];
    var written;
    ghost var ss, anchor;
    written, consumed, ss, anchor := CompressDestSize(RiseAndFall(), dst);
    out := dst[..written];
    RiseAndFallUnrepetitive(anchor);
    NothingToMatch(ss, RiseAndFall()[..anchor]);
    assert anchor == 0 && EncodeAll(ss) == [];
    assert FinalRun(300, 271) == 268;
    LengthBytesCount(268);
  }

  /** A block of one byte that decodes to anything has an empty token. */
  lemma {:induction false} FirstTokenReadable(block: seq<byte>, capacity: nat)
    requires Decode(block, capacity).Text?
    ensures |block| >= 2 || (|block| == 1 && block[0] < 240)
  {
  }

  /**
    The guarantee the stream protocol relies on: compressing into a destination
    of any size and decompressing into a buffer of the reported size gives back
    exactly the bytes reported as consumed.
   */
  method CompressThenDecompress(src: seq<byte>, compressed: array<byte>) returns (text: seq<byte>, consumed: nat)
    requires |src| < SIZE_LIMIT && compressed.Length >= 1
    modifies compressed
    ensures consumed <= |src| && text == src[..consumed]
  {
    hide Decode;
    var written;
    ghost var ss, anchor;
    written, consumed, ss, anchor := CompressDestSize(src, compressed);
    var plain := new byte[consumed];
    FirstTokenReadable(compressed[..written], consumed);
    var ret := Decompress(compressed[..written], plain);
    text := plain[..ret];
  }
}
