/** The machine's view of words: how sha2.c loads, reverses and stores them on a little-endian machine. */
module Sha256Words {
  import opened Sha256

  // ----- Reversals -----

  /** REVERSE32 */
  function Reverse32(w: bv32): bv32 {
    var tmp := (w >> 16) | (w << 16);
    ((tmp & 0xff00ff00) >> 8) | ((tmp & 0x00ff00ff) << 8)
  }

  /** REVERSE64 */
  function Reverse64(w: bv64): bv64 {
    var tmp := (w >> 32) | (w << 32);
    var tmp2 := ((tmp & 0xff00ff00ff00ff00) >> 8) | ((tmp & 0x00ff00ff00ff00ff) << 8);
    ((tmp2 & 0xffff0000ffff0000) >> 16) | ((tmp2 & 0x0000ffff0000ffff) << 16)
  }

  // ----- Loading and storing -----

  /** Four bytes of memory as a native word. */
  function Load(s: seq<bv8>): bv32
    requires |s| == 4
  {
    (s[0] as bv32) | ((s[1] as bv32) << 8) | ((s[2] as bv32) << 16) | ((s[3] as bv32) << 24)
  }

  /** A native word as four bytes of memory. */
  function Stored(w: bv32): (s: seq<bv8>)
    ensures |s| == 4
  {
    [(w & 0xFF) as bv8, ((w >> 8) & 0xFF) as bv8, ((w >> 16) & 0xFF) as bv8, ((w >> 24) & 0xFF) as bv8]
  }

  function Stored64(w: bv64): (s: seq<bv8>)
    ensures |s| == 8
  {
    [(w & 0xFF) as bv8, ((w >> 8) & 0xFF) as bv8, ((w >> 16) & 0xFF) as bv8, ((w >> 24) & 0xFF) as bv8,
     ((w >> 32) & 0xFF) as bv8, ((w >> 40) & 0xFF) as bv8, ((w >> 48) & 0xFF) as bv8, ((w >> 56) & 0xFF) as bv8]
  }

  lemma {:induction false} LoadStored(w: bv32)
    ensures Load(Stored(w)) == w
  {
  }

  lemma {:induction false} ReverseParts(a: bv32, b: bv32, c: bv32, d: bv32)
    requires a < 256 && b < 256 && c < 256 && d < 256
    ensures Reverse32(a | (b << 8) | (c << 16) | (d << 24)) == (a << 24) | (b << 16) | (c << 8) | d
  {
  }

  /** A native word, reversed, is the word that the standard reads. */
  lemma {:induction false} LoadReversed(s: seq<bv8>)
    requires |s| == 4
    ensures Reverse32(Load(s)) == BigEndian32(s)
  {
    ReverseParts(s[0] as bv32, s[1] as bv32, s[2] as bv32, s[3] as bv32);
  }

  /** A word, reversed and stored, is the bytes that the standard writes. */
  lemma {:induction false} StoredReversed(w: bv32)
    ensures Stored(Reverse32(w)) == BigEndianBytes(w)
  {
  }

  lemma {:induction false} StoredReversed64(w: bv64)
    ensures Stored64(Reverse64(w)) == BigEndian64(w)
  {
  }
}
