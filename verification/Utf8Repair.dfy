/**
  Byte strings that may not be UTF-8: how they fall into characters and
  ill-formed runs, and that reading them byte by byte, in parts cut anywhere,
  finds the same.
 */
module Utf8Repair {
  import opened Bytes
  import opened Utf8

  /** A character, or a run of bytes that begins like one but is none. */
  datatype Segment = Char(c: nat) | Bad

  /** The length of the character at the front, or 0. */
  function WholeLength(s: seq<byte>): (n: nat)
    requires s != []
    ensures n <= |s| && (n > 0 ==> IsWhole(s[..n]))
  {
    var n := Announced(s[0]);
    if 0 < n <= |s| && IsWhole(s[..n]) then n else 0
  }

  /** The length of the ill-formed run at the front: as much as begins a character, but at least a byte. */
  function BadLength(s: seq<byte>): (n: nat)
    requires s != []
    ensures 1 <= n <= |s|
  {
    if |s| >= 3 && IsPartial(s[..3]) then 3
    else if |s| >= 2 && IsPartial(s[..2]) then 2
    else 1
  }

  function Segments(s: seq<byte>): seq<Segment> {
    if s == [] then []
    else
      var n := WholeLength(s);
      if n > 0 then [Char(Scalar(s[..n]))] + Segments(s[n..])
      else [Bad] + Segments(s[BadLength(s)..])
  }

  /** No encoding starts with any other number of the string's bytes. */
  lemma {:induction false} WholeLengthUnique(s: seq<byte>, n: nat)
    requires s != [] && n <= |s|
    ensures IsWhole(s[..n]) <==> n > 0 && n == WholeLength(s)
  {
    if n > 0 {
      assert s[..n][0] == s[0];
    }
  }

  /** The run is the longest beginning of a character, if it is longer than a byte or one begins there at all. */
  lemma {:induction false} BadLengthLongest(s: seq<byte>, n: nat)
    requires s != [] && n <= |s| && WholeLength(s) == 0
    ensures IsPartial(s[..n]) ==> n <= BadLength(s)
    ensures IsPartial(s[..BadLength(s)]) || (BadLength(s) == 1 && Announced(s[0]) == 0)
  {
    assert s[..1][0] == s[0];
    WholeLengthUnique(s, 1);
    if IsPartial(s[..n]) {
      assert n <= 3;
    }
  }

  // ----- Byte by byte -----

  /** What may be waiting in the buffer between two bytes. */
  predicate IsPending(buf: seq<byte>) {
    buf == [] || IsPartial(buf)
  }

  datatype Fed = Fed(segments: seq<Segment>, buf: seq<byte>)

  /** One more byte, as json_emit_string_part takes it: after an error within a character it is reconsidered. */
  function FeedByte(buf: seq<byte>, b: byte): (r: Fed)
    requires IsPending(buf)
    ensures IsPending(r.buf)
    decreases |buf|
  {
    if IsWhole(buf + [b]) then Fed([Char(Scalar(buf + [b]))], [])
    else if IsPartial(buf + [b]) then Fed([], buf + [b])
    else if buf == [] then Fed([Bad], [])
    else
      var r := FeedByte([], b);
      Fed([Bad] + r.segments, r.buf)
  }

  function Feed(buf: seq<byte>, s: seq<byte>): (r: Fed)
    requires IsPending(buf)
    ensures IsPending(r.buf)
    decreases |s|
  {
    if s == [] then Fed([], buf)
    else
      var first := FeedByte(buf, s[0]);
      var rest := Feed(first.buf, s[1..]);
      Fed(first.segments + rest.segments, rest.buf)
  }

  lemma {:induction false} FeedAppend(buf: seq<byte>, s: seq<byte>, t: seq<byte>)
    requires IsPending(buf)
    ensures var a := Feed(buf, s);
            var b := Feed(a.buf, t);
            Feed(buf, s + t) == Fed(a.segments + b.segments, b.buf)
    decreases |s|
  {
    hide FeedByte;
    hide IsPending;
    if s == [] {
      assert s + t == t;
    } else {
      var first := FeedByte(buf, s[0]);
      FeedAppend(first.buf, s[1..], t);
      assert (s + t)[1..] == s[1..] + t;
      var a := Feed(first.buf, s[1..]);
      var b := Feed(a.buf, t);
      assert (first.segments + a.segments) + b.segments == first.segments + (a.segments + b.segments);
    }
  }

  lemma {:induction false} FollowsShorter(s: seq<byte>, m: nat, n: nat)
    requires 0 < m <= n <= |s| && Follows(s[..n])
    ensures Follows(s[..m])
  {
    assert s[..m][0] == s[..n][0];
  }

  /** The beginning of a character that the next byte does not continue is an ill-formed run. */
  lemma {:induction false} BrokenOff(buf: seq<byte>, b: byte, more: seq<byte>)
    requires IsPartial(buf) && !Follows(buf + [b])
    ensures Segments(buf + [b] + more) == [Bad] + Segments([b] + more)
  {
    var s := buf + [b] + more;
    assert s[..|buf|] == buf && s[..|buf| + 1] == buf + [b] && s[|buf|..] == [b] + more;
    forall n | |buf| < n <= |s|
      ensures !Follows(s[..n])
    {
      if Follows(s[..n]) {
        FollowsShorter(s, |buf| + 1, n);
      }
    }
    assert forall n | 0 < n <= |buf| :: s[..n] == buf[..n];
    assert WholeLength(s) == 0;
    assert BadLength(s) == |buf|;
  }

  lemma {:induction false} NotFollowing(t: seq<byte>)
    requires !IsWhole(t) && !IsPartial(t)
    ensures !Follows(t)
  {
  }

  lemma {:induction false} Stray(b: byte, more: seq<byte>)
    requires Announced(b) == 0
    ensures Segments([b] + more) == [Bad] + Segments(more)
  {
    var s := [b] + more;
    assert s[1..] == more;
    assert |s| >= 2 ==> s[..2][0] == b;
    assert |s| >= 3 ==> s[..3][0] == b;
  }

  lemma {:induction false} StartsNothing(b: byte)
    ensures Announced(b) == 0 || IsWhole([b]) || IsPartial([b])
  {
  }

  lemma {:induction false} Finished(t: seq<byte>, more: seq<byte>)
    requires IsWhole(t)
    ensures Segments(t + more) == [Char(Scalar(t))] + Segments(more)
  {
    var s := t + more;
    assert s[..|t|] == t && s[|t|..] == more;
    WholeLengthUnique(s, |t|);
  }

  lemma {:induction false} FeedByteMeans(buf: seq<byte>, b: byte, more: seq<byte>)
    requires IsPending(buf)
    ensures var r := FeedByte(buf, b);
            Segments(buf + [b] + more) == r.segments + Segments(r.buf + more)
    decreases |buf|
  {
    hide Segments;
    hide Follows;
    var t := buf + [b];
    if IsWhole(t) {
      Finished(t, more);
      assert [] + more == more;
    } else if IsPartial(t) {
    } else if buf == [] {
      assert t == [b];
      StartsNothing(b);
      Stray(b, more);
      assert [] + more == more;
    } else {
      NotFollowing(t);
      BrokenOff(buf, b, more);
      FeedByteMeans([], b, more);
      assert [] + [b] + more == [b] + more;
      assert [Bad] + (FeedByte([], b).segments + Segments(FeedByte([], b).buf + more))
          == ([Bad] + FeedByte([], b).segments) + Segments(FeedByte([], b).buf + more);
    }
  }

  lemma {:induction false} FeedMeans(buf: seq<byte>, s: seq<byte>, more: seq<byte>)
    requires IsPending(buf)
    ensures var r := Feed(buf, s);
            Segments(buf + s + more) == r.segments + Segments(r.buf + more)
    decreases |s|
  {
    hide FeedByte;
    hide IsPending;
    hide Segments;
    if s == [] {
      assert buf + s + more == buf + more;
    } else {
      var first := FeedByte(buf, s[0]);
      FeedByteMeans(buf, s[0], s[1..] + more);
      assert buf + s + more == buf + [s[0]] + (s[1..] + more);
      FeedMeans(first.buf, s[1..], more);
      assert first.buf + s[1..] + more == first.buf + (s[1..] + more);
      var r := Feed(first.buf, s[1..]);
      assert first.segments + (r.segments + Segments(r.buf + more)) == (first.segments + r.segments) + Segments(r.buf + more);
    }
  }

  /** What is left in the buffer at the end of a string is one more ill-formed run. */
  function AtEnd(buf: seq<byte>): seq<Segment> {
    if buf == [] then [] else [Bad]
  }

  lemma {:induction false} PendingAtEnd(buf: seq<byte>)
    requires IsPending(buf)
    ensures Segments(buf) == AtEnd(buf)
  {
    if buf != [] {
      assert buf[..|buf|] == buf && buf[|buf|..] == [];
      assert forall n | 0 < n <= |buf| :: buf[..n][0] == buf[0];
    }
  }

  /** Feeding a whole string and ending it cuts it up as it should be, however it was split into parts. */
  lemma {:induction false} FeedAll(s: seq<byte>)
    ensures Segments(s) == Feed([], s).segments + AtEnd(Feed([], s).buf)
  {
    FeedMeans([], s, []);
    assert [] + s + [] == s;
    assert Feed([], s).buf + [] == Feed([], s).buf;
    PendingAtEnd(Feed([], s).buf);
  }

  function EncodeAll(cs: seq<nat>): seq<byte>
    requires forall c | c in cs :: IsScalar(c)
  {
    if cs == [] then [] else Encode(cs[0]) + EncodeAll(cs[1..])
  }

  function Chars(cs: seq<nat>): (r: seq<Segment>)
    ensures |r| == |cs|
  {
    if cs == [] then [] else [Char(cs[0])] + Chars(cs[1..])
  }

  /** A string that is UTF-8 already is read as the characters it encodes. */
  lemma {:induction false} WellFormedUnharmed(cs: seq<nat>)
    requires forall c | c in cs :: IsScalar(c)
    ensures Segments(EncodeAll(cs)) == Chars(cs)
  {
    if cs != [] {
      EncodeWhole(cs[0]);
      Finished(Encode(cs[0]), EncodeAll(cs[1..]));
      WellFormedUnharmed(cs[1..]);
    }
  }
}
