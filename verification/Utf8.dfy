/**
  UTF-8 (RFC 3629): what encodes a character, the automaton of utf8.c that
  recognises it byte by byte, and how a byte string with errors in it is cut up.
 */
module Utf8 {
  import opened Bytes

  // ----- RFC 3629, section 3 -----

  predicate IsScalar(c: nat) {
    c <= 0x10FFFF && !(0xD800 <= c <= 0xDFFF)
  }

  function Encode(c: nat): (s: seq<byte>)
    requires IsScalar(c)
    ensures 1 <= |s| <= 4
  {
    if c < 0x80 then [c]
    else
      var d := c / 0x40;
      if c < 0x800 then [0xC0 + d, 0x80 + c % 0x40]
      else
        var e := d / 0x40;
        if c < 0x10000 then [0xE0 + e, 0x80 + d % 0x40, 0x80 + c % 0x40]
        else [0xF0 + e / 0x40, 0x80 + e % 0x40, 0x80 + d % 0x40, 0x80 + c % 0x40]
  }

  /** The encoding of a character. */
  ghost predicate IsChar(s: seq<byte>) {
    exists c: nat :: IsScalar(c) && s == Encode(c)
  }

  /** The beginning, but not all, of the encoding of a character. */
  ghost predicate IsBegun(s: seq<byte>) {
    s != [] && exists c: nat :: IsScalar(c) && s < Encode(c)
  }

  // ----- RFC 3629, section 4 -----

  predicate IsTail(b: byte) {
    0x80 <= b <= 0xBF
  }

  /** The bytes that may follow the first byte of a longer encoding. */
  predicate IsSecond(first: byte, b: byte) {
    if first == 0xE0 then 0xA0 <= b <= 0xBF
    else if first == 0xED then 0x80 <= b <= 0x9F
    else if first == 0xF0 then 0x90 <= b <= 0xBF
    else if first == 0xF4 then 0x80 <= b <= 0x8F
    else IsTail(b)
  }

  /** The length that the first byte announces, or 0 if nothing begins with it. */
  function Announced(first: byte): (n: nat)
    ensures n <= 4
  {
    if first < 0x80 then 1
    else if 0xC2 <= first <= 0xDF then 2
    else if 0xE0 <= first <= 0xEF then 3
    else if 0xF0 <= first <= 0xF4 then 4
    else 0
  }

  /** As far as it goes, the string follows the grammar. */
  predicate Follows(s: seq<byte>) {
    && s != [] && |s| <= Announced(s[0])
    && (|s| > 1 ==> IsSecond(s[0], s[1]))
    && (|s| > 2 ==> IsTail(s[2]))
    && (|s| > 3 ==> IsTail(s[3]))
  }

  predicate IsWhole(s: seq<byte>) {
    Follows(s) && |s| == Announced(s[0])
  }

  predicate IsPartial(s: seq<byte>) {
    Follows(s) && |s| < Announced(s[0])
  }

  /** A number with six more bits, from the last byte of an encoding. */
  function More(d: nat, b: byte): nat
    requires IsTail(b)
  {
    d * 0x40 + (b - 0x80)
  }

  lemma {:induction false} MoreParts(d: nat, b: byte)
    requires IsTail(b)
    ensures More(d, b) / 0x40 == d && 0x80 + More(d, b) % 0x40 == b as int
  {
  }

  lemma {:induction false} PartsMore(c: nat)
    ensures More(c / 0x40, 0x80 + c % 0x40) == c
  {
  }

  /** The character that a string encodes. */
  function Scalar(s: seq<byte>): nat
    requires IsWhole(s)
  {
    if |s| == 1 then s[0]
    else if |s| == 2 then More(s[0] - 0xC0, s[1])
    else if |s| == 3 then More(More(s[0] - 0xE0, s[1]), s[2])
    else More(More(More(s[0] - 0xF0, s[1]), s[2]), s[3])
  }

  lemma {:induction false} ScalarEncodes(s: seq<byte>)
    requires IsWhole(s)
    ensures IsScalar(Scalar(s)) && Encode(Scalar(s)) == s
  {
    if |s| == 2 {
      MoreParts(s[0] - 0xC0, s[1]);
    } else if |s| == 3 {
      var e := More(s[0] - 0xE0, s[1]);
      MoreParts(s[0] - 0xE0, s[1]);
      MoreParts(e, s[2]);
    } else if |s| == 4 {
      var f := More(s[0] - 0xF0, s[1]);
      MoreParts(s[0] - 0xF0, s[1]);
      MoreParts(f, s[2]);
      MoreParts(More(f, s[2]), s[3]);
    }
  }

  lemma {:induction false} EncodeWhole(c: nat)
    requires IsScalar(c)
    ensures IsWhole(Encode(c)) && Scalar(Encode(c)) == c
  {
    PartsMore(c);
    PartsMore(c / 0x40);
    PartsMore(c / 0x40 / 0x40);
  }

  /** The grammar of section 4 describes exactly the encodings of section 3. */
  lemma {:induction false} WholeIsChar(s: seq<byte>)
    ensures IsWhole(s) <==> IsChar(s)
  {
    if IsWhole(s) {
      ScalarEncodes(s);
    }
    if IsChar(s) {
      var c: nat :| IsScalar(c) && s == Encode(c);
      EncodeWhole(c);
    }
  }

  lemma {:induction false} EncodePrefix(c: nat, s: seq<byte>)
    requires IsScalar(c) && s != [] && s < Encode(c)
    ensures IsPartial(s)
  {
    EncodeWhole(c);
    var t := Encode(c);
    assert s[0] == t[0] && (|s| > 1 ==> s[1] == t[1]) && (|s| > 2 ==> s[2] == t[2]);
  }

  /** Fills up a string with the least bytes that can follow. */
  function Completed(s: seq<byte>): (t: seq<byte>)
    requires IsPartial(s)
    ensures IsWhole(t) && s < t
  {
    var second: byte := if s[0] == 0xE0 then 0xA0 else if s[0] == 0xF0 then 0x90 else 0x80;
    var t := if |s| == 1 then s + [second] else s;
    if Announced(s[0]) == |t| then t
    else if Announced(s[0]) == |t| + 1 then t + [0x80]
    else t + [0x80, 0x80]
  }

  lemma {:induction false} PartialIsBegun(s: seq<byte>)
    ensures IsPartial(s) <==> IsBegun(s)
  {
    if IsPartial(s) {
      var t := Completed(s);
      ScalarEncodes(t);
      assert s < Encode(Scalar(t));
    }
    if IsBegun(s) {
      var c: nat :| IsScalar(c) && s < Encode(c);
      EncodePrefix(c, s);
    }
  }

  // ----- The automaton -----

  const UTF8_ACCEPT := 0
  const UTF8_REJECT := 12

  /** A row of the table that is the same throughout. */
  function Sixteen(n: nat): seq<nat> {
    seq(16, k => n)
  }

  /** The first part of the table, sixteen bytes to a row: the class of each byte. */
  function ClassRow(row: nat): (r: seq<nat>)
    requires row < 16
    ensures |r| == 16 && forall k | 0 <= k < 16 :: r[k] < 12
  {
    if row < 8 then Sixteen(0)
    else if row == 8 then Sixteen(1)
    else if row == 9 then Sixteen(9)
    else if row < 12 then Sixteen(7)
    else if row == 12 then [8, 8, 2, 2, 2, 2, 2, 2, 2, 2, 2, 2, 2, 2, 2, 2]
    else if row == 13 then Sixteen(2)
    else if row == 14 then [10, 3, 3, 3, 3, 3, 3, 3, 3, 3, 3, 3, 3, 4, 3, 3]
    else [11, 6, 6, 6, 5, 8, 8, 8, 8, 8, 8, 8, 8, 8, 8, 8]
  }

  /** The second part, one row to a state: the state after a byte of each class. */
  function StateRow(row: nat): (r: seq<nat>)
    requires row < 9
    ensures |r| == 12
  {
    if row == 0 then [0, 12, 24, 36, 60, 96, 84, 12, 12, 12, 48, 72]
    else if row == 1 then [12, 12, 12, 12, 12, 12, 12, 12, 12, 12, 12, 12]
    else if row == 2 then [12, 0, 12, 12, 12, 12, 12, 0, 12, 0, 12, 12]
    else if row == 3 then [12, 24, 12, 12, 12, 12, 12, 24, 12, 24, 12, 12]
    else if row == 4 then [12, 12, 12, 12, 12, 12, 12, 24, 12, 12, 12, 12]
    else if row == 5 then [12, 24, 12, 12, 12, 12, 12, 12, 12, 24, 12, 12]
    else if row == 6 then [12, 12, 12, 12, 12, 12, 12, 36, 12, 36, 12, 12]
    else if row == 7 then [12, 36, 12, 12, 12, 12, 12, 36, 12, 36, 12, 12]
    else [12, 36, 12, 12, 12, 12, 12, 12, 12, 12, 12, 12]
  }

  function Utf8d(i: nat): nat
    requires i < 256 + 9 * 12
  {
    if i < 256 then ClassRow(i / 16)[i % 16] else StateRow((i - 256) / 12)[(i - 256) % 12]
  }

  /** The rows of the table: a state is where its row starts. */
  predicate IsState(state: nat) {
    state % 12 == 0 && state < 9 * 12
  }

  lemma {:induction false} ClassBound(b: byte)
    ensures Utf8d(b) < 12
  {
  }

  /** utf8_decode */
  function Utf8Decode(state: nat, b: byte): nat
    requires IsState(state)
  {
    ClassBound(b);
    Utf8d(256 + state + Utf8d(b))
  }

  function ClassInGrammar(b: byte): nat {
    if b < 0x80 then 0
    else if b < 0x90 then 1
    else if b < 0xA0 then 9
    else if b < 0xC0 then 7
    else if b < 0xC2 then 8
    else if b < 0xE0 then 2
    else if b == 0xE0 then 10
    else if b == 0xED then 4
    else if b < 0xF0 then 3
    else if b == 0xF0 then 11
    else if b < 0xF4 then 6
    else if b == 0xF4 then 5
    else 8
  }

  lemma {:induction false} UniformRow(row: nat, k: nat)
    requires row < 12 && k < 16
    ensures ClassRow(row)[k] == if row < 8 then 0 else if row == 8 then 1 else if row == 9 then 9 else 7
  {
  }

  lemma {:induction false} MixedRow(row: nat, k: nat)
    requires 12 <= row < 16 && k < 16
    ensures ClassRow(row)[k] ==
            if row == 12 then (if k < 2 then 8 else 2)
            else if row == 13 then 2
            else if row == 14 then (if k == 0 then 10 else if k == 13 then 4 else 3)
            else if k == 0 then 11 else if k < 4 then 6 else if k == 4 then 5 else 8
  {
  }

  /** The table's first part, in terms of the grammar. */
  lemma {:induction false} ClassOf(b: byte)
    ensures Utf8d(b) == ClassInGrammar(b)
  {
    var row, k := b / 16, b % 16;
    assert b as int == 16 * row + k;
    if row < 12 {
      UniformRow(row, k);
    } else {
      MixedRow(row, k);
    }
  }

  lemma {:induction false} TableIndex(state: nat, c: nat)
    requires IsState(state) && c < 12
    ensures Utf8d(256 + state + c) == StateRow(state / 12)[c]
  {
    hide StateRow;
    var row := state / 12;
    assert state == 12 * row;
    assert (state + c) / 12 == row && (state + c) % 12 == c;
  }

  lemma {:induction false} DecodeRow(state: nat, b: byte)
    requires IsState(state)
    ensures ClassInGrammar(b) < 12 && Utf8Decode(state, b) == StateRow(state / 12)[ClassInGrammar(b)]
  {
    hide Utf8d;
    ClassOf(b);
    TableIndex(state, ClassInGrammar(b));
  }

  /** The state that the automaton is in after what has begun but not ended a character. */
  function StateAfter(s: seq<byte>): (state: nat)
    requires s == [] || IsPartial(s)
    ensures IsState(state) && state != UTF8_REJECT && (state == UTF8_ACCEPT <==> s == [])
  {
    if s == [] then 0
    else if |s| == 1 then
      var b := s[0];
      if b < 0xE0 then 24
      else if b == 0xE0 then 48
      else if b == 0xED then 60
      else if b < 0xF0 then 36
      else if b == 0xF0 then 72
      else if b == 0xF4 then 96
      else 84
    else if |s| == 2 && Announced(s[0]) == 4 then 36
    else 24
  }

  lemma {:induction false} FirstByte(b: byte)
    ensures Utf8Decode(0, b) ==
            if Announced(b) == 1 then UTF8_ACCEPT else if Announced(b) == 0 then UTF8_REJECT else StateAfter([b])
  {
    hide Utf8Decode;
    DecodeRow(0, b);
  }

  lemma {:induction false} SecondByte(a: byte, b: byte)
    requires Announced(a) > 1
    ensures Utf8Decode(StateAfter([a]), b) ==
            if !IsSecond(a, b) then UTF8_REJECT
            else if Announced(a) == 2 then UTF8_ACCEPT
            else StateAfter([a, b])
  {
    hide Utf8Decode;
    DecodeRow(StateAfter([a]), b);
  }

  lemma {:induction false} LaterByte(s: seq<byte>, b: byte)
    requires IsPartial(s) && |s| >= 2
    ensures Utf8Decode(StateAfter(s), b) ==
            if !IsTail(b) then UTF8_REJECT
            else if Announced(s[0]) == |s| + 1 then UTF8_ACCEPT
            else StateAfter(s + [b])
  {
    hide Utf8Decode;
    DecodeRow(StateAfter(s), b);
  }

  /** One step of the automaton tells a whole character from one that has begun and from an error. */
  lemma {:induction false} DecodeMeans(s: seq<byte>, b: byte)
    requires s == [] || IsPartial(s)
    ensures Utf8Decode(StateAfter(s), b) ==
            if IsWhole(s + [b]) then UTF8_ACCEPT
            else if IsPartial(s + [b]) then StateAfter(s + [b])
            else UTF8_REJECT
  {
    if |s| == 0 {
      FirstByte(b);
      assert s + [b] == [b];
    } else if |s| == 1 {
      SecondByte(s[0], b);
      assert s + [b] == [s[0], b] && s == [s[0]];
    } else {
      LaterByte(s, b);
    }
  }
}
