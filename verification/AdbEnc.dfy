/**
  The escape encoding that keeps '~' off an adb terminal: '!' becomes "!!" and
  '~' becomes "!@". Both directions are resumable at any byte.
 */
module AdbEnc {
  import opened Bytes

  const FORBIDDEN: byte := 126
  const ESCAPE1: byte := 33
  const ESCAPE2: byte := 64

  /** Encoder state: nothing pending, or the second half of "!!" or of "!@" is still to be written. */
  datatype EncState = Plain | HalfEscape | HalfForbidden

  /** A pending second half belongs to the first byte of what is still to be encoded. */
  predicate Resumable(state: EncState, rest: seq<byte>) {
    match state
    case Plain => true
    case HalfEscape => rest != [] && rest[0] == ESCAPE1
    case HalfForbidden => rest != [] && rest[0] == FORBIDDEN
  }

  function EncodeByte(b: byte): seq<byte> {
    if b == ESCAPE1 then [ESCAPE1, ESCAPE1]
    else if b == FORBIDDEN then [ESCAPE1, ESCAPE2]
    else [b]
  }

  function Encoding(plain: seq<byte>): seq<byte> {
    if plain == [] then [] else EncodeByte(plain[0]) + Encoding(plain[1..])
  }

  /** What is still to be written of the encoding of 'rest'. */
  function EncodingFrom(state: EncState, rest: seq<byte>): seq<byte>
    requires Resumable(state, rest)
  {
    if state == Plain then Encoding(rest) else Encoding(rest)[1..]
  }

  /** The decoder is inside an escape pair or not. */
  function Decoding(inEscape: bool, encoded: seq<byte>): seq<byte>
    decreases |encoded|
  {
    if encoded == [] then []
    else if inEscape then [if encoded[0] == ESCAPE1 then ESCAPE1 else FORBIDDEN] + Decoding(false, encoded[1..])
    else if encoded[0] == ESCAPE1 then Decoding(true, encoded[1..])
    else [encoded[0]] + Decoding(false, encoded[1..])
  }

  function DecodingState(inEscape: bool, encoded: seq<byte>): bool
    decreases |encoded|
  {
    if encoded == [] then inEscape
    else DecodingState(!inEscape && encoded[0] == ESCAPE1, encoded[1..])
  }

  // ----- Laws -----

  lemma {:induction false} EncodingLength(plain: seq<byte>)
    ensures |plain| <= |Encoding(plain)|
  {
    if plain != [] {
      EncodingLength(plain[1..]);
    }
  }

  lemma {:induction false} EncodingAppend(a: seq<byte>, b: seq<byte>)
    ensures Encoding(a + b) == Encoding(a) + Encoding(b)
  {
    if a == [] {
      assert a + b == b;
    } else {
      hide EncodeByte;
      EncodingAppend(a[1..], b);
      assert (a + b)[1..] == a[1..] + b;
      Assoc(EncodeByte(a[0]), Encoding(a[1..]), Encoding(b));
    }
  }

  lemma {:induction false} EncodingFromAppend(state: EncState, a: seq<byte>, b: seq<byte>)
    requires Resumable(state, a)
    ensures Resumable(state, a + b)
    ensures EncodingFrom(state, a + b) == EncodingFrom(state, a) + Encoding(b)
  {
    EncodingAppend(a, b);
    if state != Plain {
      EncodingLength(a);
      assert (Encoding(a) + Encoding(b))[1..] == Encoding(a)[1..] + Encoding(b);
    }
  }

  /** The encoded stream never shows the forbidden byte. */
  lemma {:induction false} NeverForbidden(plain: seq<byte>)
    ensures FORBIDDEN !in Encoding(plain)
  {
    if plain != [] {
      NeverForbidden(plain[1..]);
    }
  }

  /** Decoding may be split anywhere. */
  lemma {:induction false} DecodingAppend(inEscape: bool, a: seq<byte>, b: seq<byte>)
    ensures Decoding(inEscape, a + b) == Decoding(inEscape, a) + Decoding(DecodingState(inEscape, a), b)
    ensures DecodingState(inEscape, a + b) == DecodingState(DecodingState(inEscape, a), b)
    decreases |a|
  {
    if a == [] {
      assert a + b == b;
    } else {
      assert (a + b)[1..] == a[1..] + b;
      DecodingAppend(!inEscape && a[0] == ESCAPE1, a[1..], b);
    }
  }

  lemma {:induction false} DecodeOneByte(b: byte)
    ensures Decoding(false, EncodeByte(b)) == [b] && !DecodingState(false, EncodeByte(b))
  {
    if |EncodeByte(b)| == 2 {
      var tail := EncodeByte(b)[1..];
      assert tail == [tail[0]] && tail[1..] == [];
      assert Decoding(true, tail) == [b];
      assert !DecodingState(true, tail);
    }
  }

  lemma {:induction false} RoundTrip(plain: seq<byte>)
    ensures Decoding(false, Encoding(plain)) == plain
    ensures !DecodingState(false, Encoding(plain))
  {
    if plain != [] {
      var first, rest := EncodeByte(plain[0]), Encoding(plain[1..]);
      DecodingAppend(false, first, rest);
      RoundTrip(plain[1..]);
      DecodeOneByte(plain[0]);
    }
  }

  /** Decoding the rest of a resumed encoding, with the decoder inside the pair, gives the rest of the plain text. */
  lemma {:induction false} ResumedRoundTrip(state: EncState, rest: seq<byte>)
    requires Resumable(state, rest)
    ensures Decoding(state != Plain, EncodingFrom(state, rest)) == rest
    ensures !DecodingState(state != Plain, EncodingFrom(state, rest))
  {
    RoundTrip(rest);
    if state != Plain {
      assert Encoding(rest) == EncodeByte(rest[0]) + Encoding(rest[1..]);
      assert Encoding(rest)[0] == ESCAPE1;
    }
  }

  lemma {:induction false} DecodingShortens(inEscape: bool, encoded: seq<byte>)
    ensures |Decoding(inEscape, encoded)| <= |encoded|
    decreases |encoded|
  {
    if encoded != [] {
      DecodingShortens(!inEscape && encoded[0] == ESCAPE1, encoded[1..]);
    }
  }

  // ----- adb_encode -----

  /** One output byte: which it is, the state after it, and whether an input byte is done with. */
  lemma {:induction false} EncodeStep(state: EncState, rest: seq<byte>)
    requires Resumable(state, rest) && rest != []
    ensures state == Plain && rest[0] == ESCAPE1 ==>
              EncodingFrom(Plain, rest) == [ESCAPE1] + EncodingFrom(HalfEscape, rest)
    ensures state == Plain && rest[0] == FORBIDDEN ==>
              EncodingFrom(Plain, rest) == [ESCAPE1] + EncodingFrom(HalfForbidden, rest)
    ensures state == Plain && rest[0] != ESCAPE1 && rest[0] != FORBIDDEN ==>
              EncodingFrom(Plain, rest) == [rest[0]] + EncodingFrom(Plain, rest[1..])
    ensures state == HalfEscape ==> EncodingFrom(state, rest) == [ESCAPE1] + EncodingFrom(Plain, rest[1..])
    ensures state == HalfForbidden ==> EncodingFrom(state, rest) == [ESCAPE2] + EncodingFrom(Plain, rest[1..])
  {
    var whole := Encoding(rest);
    assert whole == EncodeByte(rest[0]) + Encoding(rest[1..]);
    assert whole == [whole[0]] + whole[1..];
  }

  /**
    Encodes input[from..limit) into buf[start..end) until one of them runs out.
    What it wrote, followed by what the new state says is still to be written,
    is the encoding it was asked for: so it can be resumed, and it can be re-run
    with a smaller buffer to find the state after a short write.
   */
  method Encode(state0: EncState, buf: array<byte>, start: nat, end: nat, input: seq<byte>, from: nat, limit: nat)
      returns (state: EncState, enc: nat, pos: nat)
    requires start <= end <= buf.Length && from <= limit <= |input|
    requires Resumable(state0, input[from..limit])
    modifies buf
    ensures start <= enc <= end && from <= pos <= limit
    ensures forall k | 0 <= k < buf.Length && !(start <= k < enc) :: buf[k] == old(buf[k])
    ensures Resumable(state, input[pos..limit])
    ensures buf[start..enc] + EncodingFrom(state, input[pos..limit]) == EncodingFrom(state0, input[from..limit])
    ensures enc == end || pos == limit
  {
    hide EncodingFrom;
    state, enc, pos := state0, start, from;
    ghost var goal := EncodingFrom(state0, input[from..limit]);
    while pos < limit && enc != end
      invariant start <= enc <= end && from <= pos <= limit
      invariant forall k | 0 <= k < buf.Length && !(start <= k < enc) :: buf[k] == old(buf[k])
      invariant Resumable(state, input[pos..limit])
      invariant buf[start..enc] + EncodingFrom(state, input[pos..limit]) == goal
      decreases limit - pos, if state == Plain then 1 else 0
    {
      ghost var written, rest := buf[start..enc], input[pos..limit];
      assert rest[1..] == input[pos + 1..limit];
      EncodeStep(state, rest);
      match state {
        case Plain =>
          if input[pos] == ESCAPE1 {
            buf[enc] := ESCAPE1;
            state := HalfEscape;
          } else if input[pos] == FORBIDDEN {
            buf[enc] := ESCAPE1;
            state := HalfForbidden;
          } else {
            buf[enc] := input[pos];
            pos := pos + 1;
          }
        case HalfEscape =>
          buf[enc] := ESCAPE1;
          pos, state := pos + 1, Plain;
        case HalfForbidden =>
          buf[enc] := ESCAPE2;
          pos, state := pos + 1, Plain;
      }
      enc := enc + 1;
      assert buf[start..enc] == written + [buf[enc - 1]];
      Assoc(written, [buf[enc - 1]], EncodingFrom(state, input[pos..limit]));
    }
  }

  // ----- adb_decode -----

  /** Decodes input[from..limit) into buf[start..end) until one of them runs out. */
  method Decode(state0: bool, buf: array<byte>, start: nat, end: nat, input: seq<byte>, from: nat, limit: nat)
      returns (state: bool, dec: nat, pos: nat)
    requires start <= end <= buf.Length && from <= limit <= |input|
    modifies buf
    ensures start <= dec <= end && from <= pos <= limit
    ensures forall k | 0 <= k < buf.Length && !(start <= k < dec) :: buf[k] == old(buf[k])
    ensures buf[start..dec] == Decoding(state0, input[from..pos])
    ensures state == DecodingState(state0, input[from..pos])
    ensures dec == end || pos == limit
  {
    state, dec, pos := state0, start, from;
    while pos < limit && dec != end
      invariant start <= dec <= end && from <= pos <= limit
      invariant forall k | 0 <= k < buf.Length && !(start <= k < dec) :: buf[k] == old(buf[k])
      invariant buf[start..dec] == Decoding(state0, input[from..pos])
      invariant state == DecodingState(state0, input[from..pos])
    {
      ghost var before, seen, state1 := buf[start..dec], input[from..pos], state;
      var c := input[pos];
      pos := pos + 1;
      assert input[from..pos] == seen + [c];
      DecodingAppend(state0, seen, [c]);
      ghost var added := Decoding(state1, [c]);
      assert [c][1..] == [];
      if !state {
        if c == ESCAPE1 {
          state := true;
        } else {
          buf[dec] := c;
          dec := dec + 1;
        }
      } else {
        buf[dec] := if c == ESCAPE1 then ESCAPE1 else FORBIDDEN;
        dec := dec + 1;
        state := false;
      }
      assert buf[start..dec] == before + added;
    }
  }

  // ----- read_all_adb_encoded -----

  /** As many encoded bytes are left as plain ones are missing. */
  lemma {:induction false} EnoughIsLeft(plain: seq<byte>, seen: nat)
    requires seen <= |Encoding(plain)|
    ensures |plain| - |Decoding(false, Encoding(plain)[..seen])| <= |Encoding(plain)| - seen
  {
    var all := Encoding(plain);
    assert all == all[..seen] + all[seen..];
    DecodingAppend(false, all[..seen], all[seen..]);
    RoundTrip(plain);
    DecodingShortens(DecodingState(false, all[..seen]), all[seen..]);
  }

  /** Bytes that decode to nothing and end outside an escape are none. */
  lemma {:induction false} NothingDecoded(inEscape: bool, encoded: seq<byte>)
    requires Decoding(inEscape, encoded) == [] && !DecodingState(inEscape, encoded)
    ensures encoded == []
    decreases |encoded|
  {
  }

  /** A prefix of an encoding that decodes to as many bytes as the text has is the whole encoding. */
  lemma {:induction false} WholeEncoding(plain: seq<byte>, seen: nat)
    requires seen <= |Encoding(plain)|
    requires |Decoding(false, Encoding(plain)[..seen])| == |plain|
    ensures seen == |Encoding(plain)|
  {
    var all := Encoding(plain);
    assert all == all[..seen] + all[seen..];
    DecodingAppend(false, all[..seen], all[seen..]);
    RoundTrip(plain);
    NothingDecoded(DecodingState(false, all[..seen]), all[seen..]);
  }

  /** What has been read is a prefix of the encoding of any text the wire starts with. */
  ghost predicate NotBeyond(wire: seq<byte>, consumed: nat, size: nat) {
    forall plain: seq<byte> | |plain| == size && Encoding(plain) <= wire :: consumed <= |Encoding(plain)|
  }

  lemma {:induction false} StillNotBeyond(wire: seq<byte>, consumed: nat, size: nat, more: nat)
    requires NotBeyond(wire, consumed, size) && consumed + more <= |wire|
    requires more <= size - |Decoding(false, wire[..consumed])|
    ensures NotBeyond(wire, consumed + more, size)
  {
    forall plain: seq<byte> | |plain| == size && Encoding(plain) <= wire
      ensures consumed + more <= |Encoding(plain)|
    {
      assert wire[..consumed] == Encoding(plain)[..consumed];
      EnoughIsLeft(plain, consumed);
    }
  }

  lemma {:induction false} ReadExactly(wire: seq<byte>, consumed: nat, size: nat)
    requires NotBeyond(wire, consumed, size) && consumed <= |wire|
    requires consumed == |wire| || |Decoding(false, wire[..consumed])| == size
    ensures forall plain: seq<byte> | |plain| == size && Encoding(plain) <= wire ::
              consumed == |Encoding(plain)| && Decoding(false, wire[..consumed]) == plain
              && !DecodingState(false, wire[..consumed])
  {
    forall plain: seq<byte> | |plain| == size && Encoding(plain) <= wire
      ensures consumed == |Encoding(plain)| && Decoding(false, wire[..consumed]) == plain
              && !DecodingState(false, wire[..consumed])
    {
      assert wire[..consumed] == Encoding(plain)[..consumed];
      if consumed < |wire| {
        WholeEncoding(plain, consumed);
      }
      RoundTrip(plain);
      assert Encoding(plain)[..|Encoding(plain)|] == Encoding(plain);
    }
  }

  lemma {:induction false} EmptyRead(wire: seq<byte>, size: nat)
    ensures NotBeyond(wire, 0, size)
    ensures Decoding(false, wire[..0]) == [] && !DecodingState(false, wire[..0])
  {
  }

  /**
    Reads from a descriptor that will deliver 'wire', in pieces of any size,
    until buf is full or the wire ends. It never takes a byte beyond the
    encoding of what it returns: if the wire starts with the encoding of a text
    as long as buf, it consumes exactly that encoding and ends outside an escape.
   */
  method ReadAllEncoded(wire: seq<byte>, buf: array<byte>) returns (nrRead: nat, consumed: nat, state: bool)
    modifies buf
    ensures nrRead <= buf.Length && consumed <= |wire|
    ensures nrRead < buf.Length ==> consumed == |wire|
    ensures buf[..nrRead] == Decoding(false, wire[..consumed])
    ensures forall plain: seq<byte> | |plain| == buf.Length && Encoding(plain) <= wire ::
              nrRead == |plain| && buf[..] == plain && consumed == |Encoding(plain)| && !state
  {
    hide Decoding;
    hide DecodingState;
    nrRead, consumed, state := 0, 0, false;
    EmptyRead(wire, buf.Length);
    while nrRead < buf.Length
      invariant nrRead <= buf.Length && consumed <= |wire|
      invariant buf[..nrRead] == Decoding(false, wire[..consumed])
      invariant state == DecodingState(false, wire[..consumed])
      invariant NotBeyond(wire, consumed, buf.Length)
      decreases |wire| - consumed
    {
      var wanted := if buf.Length - nrRead < 4096 then buf.Length - nrRead else 4096;
      if consumed == |wire| {
        break;
      }
      var ret: nat :| 1 <= ret <= wanted && consumed + ret <= |wire|;
      StillNotBeyond(wire, consumed, buf.Length, ret);
      ghost var before := buf[..nrRead];
      ghost var state1 := state;
      var dec, pos;
      state, dec, pos := Decode(state, buf, nrRead, buf.Length, wire, consumed, consumed + ret);
      DecodingShortens(state1, wire[consumed..pos]);
      assert wire[..pos] == wire[..consumed] + wire[consumed..pos];
      DecodingAppend(false, wire[..consumed], wire[consumed..pos]);
      assert buf[..dec] == before + buf[nrRead..dec];
      assert pos == consumed + ret;
      nrRead, consumed := dec, consumed + ret;
    }
    ReadExactly(wire, consumed, buf.Length);
    assert buf[..nrRead] == if nrRead == buf.Length then buf[..] else buf[..nrRead];
  }
}
