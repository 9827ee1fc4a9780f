/** SHA256_CTX: messages hashed in parts, in a buffer that also serves as the message schedule (sha2.c). */
module Sha256Context {
  import opened Sha256
  import opened Sha256Words

  /** Word i of the buffer, as the machine sees it. */
  function Word(s: seq<bv8>, i: nat): bv32
    requires |s| == BLOCK && i < 16
  {
    Load(s[4 * i..4 * i + 4])
  }

  function WithWord(s: seq<bv8>, i: nat, w: bv32): (r: seq<bv8>)
    requires |s| == BLOCK && i < 16
    ensures |r| == BLOCK
  {
    s[..4 * i] + Stored(w) + s[4 * i + 4..]
  }

  lemma {:induction false} WordStored(s: seq<bv8>, i: nat, w: bv32, k: nat)
    requires |s| == BLOCK && i < 16 && k < 16
    ensures Word(WithWord(s, i, w), k) == if k == i then w else Word(s, k)
  {
    hide Load;
    hide Stored;
    LoadStored(w);
    var r := WithWord(s, i, w);
    assert r[4 * i..4 * i + 4] == Stored(w);
    if k != i {
      assert r[4 * k..4 * k + 4] == s[4 * k..4 * k + 4];
    }
  }

  lemma {:induction false} RestStored(s: seq<bv8>, i: nat, w: bv32)
    requires |s| == BLOCK && i < 16
    ensures WithWord(s, i, w)[4 * i + 4..] == s[4 * i + 4..]
    ensures forall k | 0 <= k < 16 :: Word(WithWord(s, i, w), k) == if k == i then w else Word(s, k)
  {
    forall k | 0 <= k < 16
      ensures Word(WithWord(s, i, w), k) == if k == i then w else Word(s, k)
    {
      WordStored(s, i, w, k);
    }
  }

  lemma {:induction false} FirstWord(block: seq<bv8>, t: nat)
    requires |block| == BLOCK && t < 16
    ensures W(block, t) == BigEndian32(block[4 * t..4 * t + 4])
  {
  }

  /** The next word of the data, loaded and reversed, is the next of the schedule. */
  lemma {:induction false} FirstWordLoaded(block: seq<bv8>, j: nat, rest: seq<bv8>, s: seq<bv8>)
    requires |block| == BLOCK && j < 16 && rest == block[4 * j..] && s == rest[..4]
    ensures Reverse32(Load(s)) == W(block, j)
  {
    LoadReversed(s);
    FirstWord(block, j);
    assert s == block[4 * j..4 * j + 4];
  }

  lemma {:induction false} RoundsMore(v: Vars, block: seq<bv8>, n: nat)
    requires |block| == BLOCK && n < 64
    ensures Rounds(v, block, n + 1) == Round(Rounds(v, block, n), K256()[n], W(block, n))
  {
  }

  lemma {:induction false} Commutes(x: bv32, y: bv32)
    ensures Add(x, y) == Add(y, x)
  {
  }

  lemma {:induction false} LaterWord(block: seq<bv8>, t: nat)
    requires |block| == BLOCK && 16 <= t < 64
    ensures W(block, t) ==
            Add(W(block, t - 16), Add(Add(SmallSigma1(W(block, t - 2)), W(block, t - 7)), SmallSigma0(W(block, t - 15))))
  {
    hide SmallSigma0;
    hide SmallSigma1;
    hide BigEndian32;
    hide Add;
    Commutes(Add(Add(SmallSigma1(W(block, t - 2)), W(block, t - 7)), SmallSigma0(W(block, t - 15))), W(block, t - 16));
  }

  /** The sixteen words in the buffer are the latest sixteen of the schedule, each in its place modulo sixteen. */
  ghost predicate Circular(s: seq<bv8>, block: seq<bv8>, j: nat)
    requires |s| == BLOCK && |block| == BLOCK && 16 <= j <= 64
  {
    forall i: nat | j - 16 <= i < j :: Word(s, i % 16) == W(block, i)
  }

  lemma {:induction false} Places(j: nat)
    requires j >= 16
    ensures j % 16 == (j - 16) % 16 && (j + 1) % 16 == (j - 15) % 16
    ensures (j + 9) % 16 == (j - 7) % 16 && (j + 14) % 16 == (j - 2) % 16
  {
  }

  lemma {:induction false} Apart(i: nat, j: nat)
    requires i < j < i + 16
    ensures i % 16 != j % 16
  {
  }

  lemma {:induction false} CircularMore(s: seq<bv8>, block: seq<bv8>, j: nat)
    requires |s| == BLOCK && |block| == BLOCK && 16 <= j < 64 && Circular(s, block, j)
    ensures Word(s, j % 16) == W(block, j - 16) && Word(s, (j + 1) % 16) == W(block, j - 15)
    ensures Word(s, (j + 9) % 16) == W(block, j - 7) && Word(s, (j + 14) % 16) == W(block, j - 2)
    ensures Circular(WithWord(s, j % 16, W(block, j)), block, j + 1)
  {
    hide W;
    hide Word;
    hide WithWord;
    Places(j);
    var r := WithWord(s, j % 16, W(block, j));
    forall i: nat | j - 15 <= i < j + 1
      ensures Word(r, i % 16) == W(block, i)
    {
      WordStored(s, j % 16, W(block, j), i % 16);
      if i < j {
        Apart(i, j);
      }
    }
  }

  function Whole(m: seq<bv8>): (s: seq<bv8>)
    ensures |s| % BLOCK == 0 && |s| + |m| % BLOCK == |m|
  {
    m[..|m| - |m| % BLOCK]
  }

  function LeftOver(m: seq<bv8>): (s: seq<bv8>)
    ensures |s| == |m| % BLOCK && Whole(m) + s == m
  {
    m[|m| - |m| % BLOCK..]
  }

  ghost predicate Absorbed(h: seq<bv32>, buffer: seq<bv8>, m: seq<bv8>)
    requires |h| == 8 && |buffer| == BLOCK
  {
    h == HashBlocks(InitialHash(), Whole(m)) && LeftOver(m) <= buffer
  }

  // ----- Parts of a message and the buffer -----

  lemma {:induction false} SameRemainder(n: nat, k: nat)
    requires k * BLOCK <= n
    ensures (n - k * BLOCK) % BLOCK == n % BLOCK
  {
  }

  lemma {:induction false} UsedSpace(n: nat, bitcount: nat)
    requires bitcount == 8 * n % LENGTH_SIZE
    ensures bitcount / 8 % BLOCK == n % BLOCK
  {
    var q := 8 * n / LENGTH_SIZE;
    assert bitcount == 8 * (n - q * (LENGTH_SIZE / 8));
    assert bitcount / 8 == n - q * (LENGTH_SIZE / 8);
    SameRemainder(n, q * (LENGTH_SIZE / 8 / BLOCK));
  }

  lemma {:induction false} CountMore(n: nat, bitcount: nat, more: nat)
    requires bitcount == 8 * n % LENGTH_SIZE
    ensures (bitcount + more * 8) % LENGTH_SIZE == 8 * (n + more) % LENGTH_SIZE
  {
  }

  lemma {:induction false} RemainderMore(n: nat, more: nat)
    ensures n % BLOCK + more < BLOCK ==> (n + more) % BLOCK == n % BLOCK + more
    ensures n % BLOCK + more == BLOCK ==> (n + more) % BLOCK == 0
  {
  }

  /** Less than a block: it stays in the buffer. */
  lemma {:induction false} FitsIn(m: seq<bv8>, more: seq<bv8>, buffer: seq<bv8>)
    requires |m| % BLOCK + |more| < BLOCK && |buffer| == BLOCK
    requires buffer[..|m| % BLOCK + |more|] == LeftOver(m) + more
    ensures Whole(m + more) == Whole(m) && LeftOver(m + more) <= buffer
  {
    RemainderMore(|m|, |more|);
    assert LeftOver(m + more) == LeftOver(m) + more;
  }

  /** Exactly a block: it is hashed. */
  lemma {:induction false} FillsUp(m: seq<bv8>, more: seq<bv8>, buffer: seq<bv8>)
    requires |m| % BLOCK + |more| == BLOCK && |buffer| == BLOCK
    requires buffer[..|m| % BLOCK + |more|] == LeftOver(m) + more
    ensures LeftOver(m + more) == [] && |m + more| % BLOCK == 0
    ensures HashBlocks(InitialHash(), Whole(m + more)) == Compress(HashBlocks(InitialHash(), Whole(m)), buffer)
  {
    hide HashBlocks;
    hide Compress;
    RemainderMore(|m|, |more|);
    assert buffer == LeftOver(m) + more;
    assert Whole(m + more) == m + more;
    assert m + more == Whole(m) + (LeftOver(m) + more);
    HashBlocksMore(InitialHash(), Whole(m), buffer);
  }

  lemma {:induction false} NextBlock(m: seq<bv8>, block: seq<bv8>)
    requires |m| % BLOCK == 0 && |block| == BLOCK
    ensures LeftOver(m + block) == [] && |m + block| % BLOCK == 0
    ensures HashBlocks(InitialHash(), Whole(m + block)) == Compress(HashBlocks(InitialHash(), Whole(m)), block)
  {
    hide HashBlocks;
    hide Compress;
    assert LeftOver(m) == [] && block[..BLOCK] == LeftOver(m) + block;
    FillsUp(m, block, block);
  }

  // ----- Padding -----

  lemma {:induction false} BytesOfNothing(h: seq<bv32>)
    ensures BytesOf(h[..0]) == []
  {
  }

  /** The count, reversed and stored, is the length in the padding. */
  lemma {:induction false} LengthStored(n: nat, bitcount: nat)
    requires 8 * n < LENGTH_SIZE && bitcount == 8 * n % LENGTH_SIZE
    ensures bitcount < LENGTH_SIZE && Stored64(Reverse64(bitcount as bv64)) == LengthField(n)
  {
    hide Stored64;
    hide Reverse64;
    hide BigEndian64;
    StoredReversed64(bitcount as bv64);
  }

  lemma {:induction false} ZerosAppend(a: nat, b: nat)
    ensures Zeros(a) + Zeros(b) == Zeros(a + b)
  {
  }

  /** The end of the message, a one bit, zeros and the length make up one block. */
  lemma {:induction false} OneMoreBlock(m: seq<bv8>)
    requires 8 * |m| < LENGTH_SIZE && |m| % BLOCK + 1 <= BLOCK - 8
    ensures HashBlocks(InitialHash(), m + Padding(|m|))
         == Compress(HashBlocks(InitialHash(), Whole(m)), LeftOver(m) + [0x80] + Zeros(BLOCK - 9 - |m| % BLOCK) + LengthField(|m|))
  {
    hide HashBlocks;
    hide Compress;
    hide LengthField;
    var block := LeftOver(m) + [0x80] + Zeros(BLOCK - 9 - |m| % BLOCK) + LengthField(|m|);
    assert m + Padding(|m|) == Whole(m) + block;
    HashBlocksMore(InitialHash(), Whole(m), block);
  }

  /** ... or two. */
  lemma {:induction false} TwoMoreBlocks(m: seq<bv8>)
    requires 8 * |m| < LENGTH_SIZE && |m| % BLOCK + 1 > BLOCK - 8
    ensures HashBlocks(InitialHash(), m + Padding(|m|))
         == Compress(Compress(HashBlocks(InitialHash(), Whole(m)), LeftOver(m) + [0x80] + Zeros(BLOCK - 1 - |m| % BLOCK)),
                     Zeros(BLOCK - 8) + LengthField(|m|))
  {
    hide HashBlocks;
    hide Compress;
    hide LengthField;
    var one := LeftOver(m) + [0x80] + Zeros(BLOCK - 1 - |m| % BLOCK);
    var two := Zeros(BLOCK - 8) + LengthField(|m|);
    ZerosAppend(BLOCK - 1 - |m| % BLOCK, BLOCK - 8);
    assert m + Padding(|m|) == (Whole(m) + one) + two;
    HashBlocksMore(InitialHash(), Whole(m), one);
    HashBlocksMore(InitialHash(), Whole(m) + one, two);
  }

  class Context {
    const state: array<bv32>
    const buffer: array<bv8>
    var bitcount: nat           // modulo 2^64
    ghost var fed: seq<bv8>     // the message so far

    /** Whole blocks have been hashed, and what is left over is in the buffer. */
    ghost predicate Valid()
      reads this, state, buffer
    {
      && state.Length == 8 && buffer.Length == BLOCK
      && bitcount == 8 * |fed| % LENGTH_SIZE
      && Absorbed(state[..], buffer[..], fed)
    }

    /** SHA256_Init */
    constructor ()
      ensures fresh(state) && fresh(buffer) && Valid() && fed == []
    {
      state := new bv32[8](i requires 0 <= i < 8 => InitialHash()[i]);
      buffer := new bv8[BLOCK](_ => 0);
      bitcount, fed := 0, [];
      new;
      assert state[..] == InitialHash();
    }

    /** W256[i] = w */
    method StoreWord(i: nat, w: bv32)
      requires buffer.Length == BLOCK && i < 16
      modifies buffer
      ensures buffer[..] == WithWord(old(buffer[..]), i, w)
    {
      hide Stored;
      var s := Stored(w);
      buffer[4 * i] := s[0];
      buffer[4 * i + 1] := s[1];
      buffer[4 * i + 2] := s[2];
      buffer[4 * i + 3] := s[3];
    }

    /** W256[j] becomes the data's word j, in host order. */
    method TakeWord(data: array<bv8>, at: nat, j: nat, ghost block: seq<bv8>) returns (w: bv32)
      requires buffer.Length == BLOCK && at + BLOCK <= data.Length && (data == buffer ==> at == 0)
      requires |block| == BLOCK && j < 16 && data[at + 4 * j..at + BLOCK] == block[4 * j..]
      requires forall i | 0 <= i < j :: Word(buffer[..], i) == W(block, i)
      modifies buffer
      ensures w == W(block, j) && data[at + 4 * j + 4..at + BLOCK] == block[4 * j + 4..]
      ensures forall i | 0 <= i < j + 1 :: Word(buffer[..], i) == W(block, i)
    {
      hide W;
      hide Word;
      hide WithWord;
      hide Load;
      ghost var before := buffer[..];
      w := Reverse32(Load(data[at + 4 * j..at + 4 * j + 4]));
      FirstWordLoaded(block, j, data[at + 4 * j..at + BLOCK], data[at + 4 * j..at + 4 * j + 4]);
      RestStored(before, j, w);
      if data == buffer {
        assert before[4 * j + 4..] == data[at + 4 * j..at + BLOCK][4..];
      }
      StoreWord(j, w);
      if data == buffer {
        assert data[at + 4 * j + 4..at + BLOCK] == buffer[..][4 * j + 4..];
      } else {
        assert data[at + 4 * j + 4..at + BLOCK] == data[at + 4 * j..at + BLOCK][4..];
      }
    }

    /** Rounds 0 to 15 of SHA256_Transform; the data may be in the buffer itself. */
    method FirstRounds(data: array<bv8>, at: nat, v: Vars) returns (r: Vars)
      requires buffer.Length == BLOCK && at + BLOCK <= data.Length && (data == buffer ==> at == 0)
      modifies buffer
      ensures var block := old(data[at..at + BLOCK]);
              r == Rounds(v, block, 16) && Circular(buffer[..], block, 16)
    {
      hide W;
      hide Round;
      hide K256;
      hide Word;
      hide WithWord;
      ghost var block := data[at..at + BLOCK];
      r := v;
      var j := 0;
      while j < 16
        invariant 0 <= j <= 16 && r == Rounds(v, block, j)
        invariant data[at + 4 * j..at + BLOCK] == block[4 * j..]
        invariant forall i | 0 <= i < j :: Word(buffer[..], i) == W(block, i)
      {
        RoundsMore(v, block, j);
        var w := TakeWord(data, at, j, block);
        r := Round(r, K256()[j], w);
        j := j + 1;
      }
    }

    /** W256[i] */
    function LoadWord(i: nat): (w: bv32)
      requires buffer.Length == BLOCK && i < 16
      reads buffer
      ensures w == Word(buffer[..], i)
    {
      Load(buffer[4 * i..4 * i + 4])
    }

    /** Rounds 16 to 63: the schedule goes round in the buffer. */
    method LaterRounds(v: Vars, ghost start: Vars, ghost block: seq<bv8>) returns (r: Vars)
      requires buffer.Length == BLOCK && |block| == BLOCK
      requires v == Rounds(start, block, 16) && Circular(buffer[..], block, 16)
      modifies buffer
      ensures r == Rounds(start, block, 64)
    {
      hide W;
      hide Round;
      hide K256;
      hide Word;
      hide WithWord;
      hide Circular;
      hide SmallSigma0;
      hide SmallSigma1;
      hide Add;
      hide Load;
      r := v;
      var j := 16;
      while j < 64
        invariant 16 <= j <= 64 && r == Rounds(start, block, j) && Circular(buffer[..], block, j)
      {
        var s0 := SmallSigma0(LoadWord((j + 1) % 16));
        var s1 := SmallSigma1(LoadWord((j + 14) % 16));
        var w := Add(LoadWord(j % 16), Add(Add(s1, LoadWord((j + 9) % 16)), s0));
        CircularMore(buffer[..], block, j);
        LaterWord(block, j);
        RoundsMore(start, block, j);
        StoreWord(j % 16, w);
        r := Round(r, K256()[j], w);
        j := j + 1;
      }
    }

    method AddHalf(i: nat, a: bv32, b: bv32, c: bv32, d: bv32)
      requires state.Length == 8 && (i == 0 || i == 4)
      modifies state
      ensures var h := old(state[..]);
              state[i..i + 4] == [Add(h[i], a), Add(h[i + 1], b), Add(h[i + 2], c), Add(h[i + 3], d)]
      ensures i == 0 ==> state[4..] == old(state[4..])
      ensures i == 4 ==> state[..4] == old(state[..4])
    {
      hide Add;
      state[i] := Add(state[i], a);
      state[i + 1] := Add(state[i + 1], b);
      state[i + 2] := Add(state[i + 2], c);
      state[i + 3] := Add(state[i + 3], d);
    }

    /** The end of SHA256_Transform. */
    method AddVars(v: Vars)
      requires state.Length == 8
      modifies state
      ensures state[..] == Sum(old(state[..]), v)
    {
      hide Add;
      ghost var h := state[..];
      AddHalf(0, v.a, v.b, v.c, v.d);
      assert state[4..] == h[4..];
      AddHalf(4, v.e, v.f, v.g, v.h);
      assert state[..] == state[0..4] + state[4..8];
      assert h[4..] == [h[4], h[5], h[6], h[7]];
    }

    /** SHA256_Transform */
    method Transform(data: array<bv8>, at: nat)
      requires state.Length == 8 && buffer.Length == BLOCK && at + BLOCK <= data.Length && (data == buffer ==> at == 0)
      modifies state, buffer
      ensures state[..] == Compress(old(state[..]), old(data[at..at + BLOCK]))
    {
      hide Rounds;
      hide Sum;
      hide Circular;
      ghost var block := data[at..at + BLOCK];
      var start := Vars(state[0], state[1], state[2], state[3], state[4], state[5], state[6], state[7]);
      var v := FirstRounds(data, at, start);
      v := LaterRounds(v, start, block);
      AddVars(v);
    }

    // ----- SHA256_Update -----

    /** memcpy into the buffer. */
    method CopyIn(used: nat, data: array<bv8>, at: nat, n: nat)
      requires buffer.Length == BLOCK && used + n <= BLOCK && at + n <= data.Length && data != buffer
      modifies buffer
      ensures buffer[..used + n] == old(buffer[..used]) + data[at..at + n]
    {
      forall k | 0 <= k < n {
        buffer[used + k] := data[at + k];
      }
      assert buffer[..used + n] == old(buffer[..used]) + data[at..at + n];
    }

    /** Adds to the buffer less than would fill it up. */
    method Keep(data: array<bv8>, at: nat, n: nat, usedspace: nat)
      requires Valid() && at + n <= data.Length && data != buffer
      requires usedspace == |fed| % BLOCK && usedspace + n < BLOCK
      modifies this, buffer
      ensures Valid() && fed == old(fed) + data[at..at + n]
    {
      hide HashBlocks;
      ghost var more := data[at..at + n];
      CopyIn(usedspace, data, at, n);
      CountMore(|fed|, bitcount, n);
      FitsIn(fed, more, buffer[..]);
      bitcount := (bitcount + n * 8) % LENGTH_SIZE;
      fed := fed + more;
    }

    /** Fills the buffer up and hashes it. */
    method TopUp(data: array<bv8>, n: nat, usedspace: nat)
      requires Valid() && n <= data.Length && data != buffer
      requires usedspace == |fed| % BLOCK && usedspace + n == BLOCK
      modifies this, state, buffer
      ensures Valid() && fed == old(fed) + data[..n] && |fed| % BLOCK == 0
    {
      hide HashBlocks;
      hide Compress;
      ghost var more := data[..n];
      assert data[0..0 + n] == more;
      CopyIn(usedspace, data, 0, n);
      CountMore(|fed|, bitcount, n);
      bitcount := (bitcount + n * 8) % LENGTH_SIZE;
      FillsUp(fed, more, buffer[..]);
      assert buffer[0..0 + BLOCK] == buffer[..];
      Transform(buffer, 0);
      fed := fed + more;
    }

    /** Hashes a block of the data in place. */
    method TakeBlock(data: array<bv8>, at: nat)
      requires Valid() && at + BLOCK <= data.Length && data != buffer && |fed| % BLOCK == 0
      modifies this, state, buffer
      ensures Valid() && fed == old(fed) + data[at..at + BLOCK] && |fed| % BLOCK == 0
    {
      hide HashBlocks;
      hide Compress;
      ghost var block := data[at..at + BLOCK];
      CountMore(|fed|, bitcount, BLOCK);
      NextBlock(fed, block);
      Transform(data, at);
      bitcount := (bitcount + BLOCK * 8) % LENGTH_SIZE;
      fed := fed + block;
    }

    /** Hashes as many whole blocks as there are, and keeps what is left over. */
    method TakeRest(data: array<bv8>, start: nat, len: nat)
      requires Valid() && start <= len <= data.Length && data != buffer && |fed| % BLOCK == 0
      modifies this, state, buffer
      ensures Valid() && fed == old(fed) + data[start..len]
    {
      hide Absorbed;
      var at := start;
      while len - at >= BLOCK
        invariant Valid() && start <= at <= len && fed == old(fed) + data[start..at] && |fed| % BLOCK == 0
        decreases len - at
      {
        assert data[start..at + BLOCK] == data[start..at] + data[at..at + BLOCK];
        TakeBlock(data, at);
        at := at + BLOCK;
      }
      if len - at > 0 {
        assert data[start..len] == data[start..at] + data[at..at + (len - at)];
        Keep(data, at, len - at, 0);
      }
    }

    /** SHA256_Update */
    method Update(data: array<bv8>, len: nat)
      requires Valid() && len <= data.Length && data != buffer
      modifies this, state, buffer
      ensures Valid() && fed == old(fed) + data[..len]
    {
      hide Absorbed;
      var at := 0;
      var usedspace := bitcount / 8 % BLOCK;
      UsedSpace(|fed|, bitcount);
      if usedspace > 0 && len > 0 {
        var freespace := BLOCK - usedspace;
        if len < freespace {
          assert data[0..0 + len] == data[..len];
          Keep(data, 0, len, usedspace);
          return;
        }
        TopUp(data, freespace, usedspace);
        at := freespace;
      }
      if len > 0 {
        TakeRest(data, at, len);
        assert data[..len] == data[..at] + data[at..len];
      }
    }

    // ----- SHA256_Final -----

    /** memset of part of the buffer. */
    method ZeroOut(start: nat, end: nat)
      requires buffer.Length == BLOCK && start <= end <= BLOCK
      modifies buffer
      ensures buffer[..end] == old(buffer[..start]) + Zeros(end - start)
    {
      forall k | start <= k < end {
        buffer[k] := 0;
      }
      assert buffer[..end] == old(buffer[..start]) + Zeros(end - start);
    }

    /** The bytes of the count once REVERSE64 has turned it round. */
    method CountBytes() returns (s: seq<bv8>)
      requires 8 * |fed| < LENGTH_SIZE && bitcount == 8 * |fed| % LENGTH_SIZE
      ensures s == LengthField(|fed|)
    {
      LengthStored(|fed|, bitcount);
      s := Stored64(Reverse64(bitcount as bv64));
    }

    method CopyLength(s: seq<bv8>)
      requires buffer.Length == BLOCK && |s| == 8
      modifies buffer
      ensures buffer[..] == old(buffer[..BLOCK - 8]) + s
    {
      forall k | 0 <= k < 8 {
        buffer[BLOCK - 8 + k] := s[k];
      }
      assert buffer[..] == old(buffer[..BLOCK - 8]) + s;
    }

    method HashLast(length: seq<bv8>)
      requires state.Length == 8 && buffer.Length == BLOCK && |length| == 8
      modifies state, buffer
      ensures state[..] == Compress(old(state[..]), old(buffer[..BLOCK - 8]) + length)
    {
      hide Compress;
      CopyLength(length);
      assert buffer[0..0 + BLOCK] == buffer[..];
      Transform(buffer, 0);
    }

    /** The one bit and the zeros fit in front of the length. */
    method MarkEnd(usedspace: nat)
      requires Valid() && usedspace == |fed| % BLOCK && usedspace + 1 <= BLOCK - 8
      modifies buffer
      ensures buffer[..BLOCK - 8] == LeftOver(fed) + [0x80] + Zeros(BLOCK - 9 - usedspace)
    {
      hide HashBlocks;
      ghost var tail := LeftOver(fed);
      assert buffer[..usedspace] == tail;
      if usedspace > 0 {
        buffer[usedspace] := 0x80;
        assert buffer[..usedspace + 1] == tail + [0x80];
        ZeroOut(usedspace + 1, BLOCK - 8);
      } else {
        ZeroOut(0, BLOCK - 8);
        buffer[0] := 0x80;
        assert buffer[..BLOCK - 8] == [0x80] + Zeros(BLOCK - 9);
      }
    }

    /** They do not: they fill a block, and the length comes in another. */
    method HashEnd(usedspace: nat)
      requires Valid() && usedspace == |fed| % BLOCK && usedspace + 1 > BLOCK - 8
      modifies state, buffer
      ensures state[..] == Compress(old(state[..]), LeftOver(fed) + [0x80] + Zeros(BLOCK - 1 - usedspace))
      ensures buffer[..BLOCK - 8] == Zeros(BLOCK - 8)
    {
      hide HashBlocks;
      hide Compress;
      ghost var tail := LeftOver(fed);
      assert buffer[..usedspace] == tail;
      buffer[usedspace] := 0x80;
      assert buffer[..usedspace + 1] == tail + [0x80];
      if usedspace + 1 < BLOCK {
        ZeroOut(usedspace + 1, BLOCK);
      }
      assert buffer[0..0 + BLOCK] == tail + [0x80] + Zeros(BLOCK - 1 - usedspace);
      Transform(buffer, 0);
      ZeroOut(0, BLOCK - 8);
    }

    /** The last block, or the last two: the end of the message with a one bit, zeros and the length. */
    method Finish()
      requires Valid() && 8 * |fed| < LENGTH_SIZE
      modifies state, buffer
      ensures state[..] == HashBlocks(InitialHash(), fed + Padding(|fed|))
    {
      hide HashBlocks;
      hide Compress;
      hide Padding;
      hide Zeros;
      hide LengthField;
      var usedspace := bitcount / 8 % BLOCK;
      UsedSpace(|fed|, bitcount);
      var length := CountBytes();
      if usedspace + 1 <= BLOCK - 8 {
        OneMoreBlock(fed);
        MarkEnd(usedspace);
      } else {
        TwoMoreBlocks(fed);
        HashEnd(usedspace);
      }
      HashLast(length);
    }

    static method CopyDigest(digest: array<bv8>, j: nat, s: seq<bv8>, ghost h: seq<bv32>)
      requires digest.Length == 32 && j < 8 == |h| && s == Stored(Reverse32(h[j]))
      requires digest[..4 * j] == BytesOf(h[..j])
      modifies digest
      ensures digest[..4 * (j + 1)] == BytesOf(h[..j + 1])
    {
      hide Stored;
      hide Reverse32;
      StoredReversed(h[j]);
      digest[4 * j] := s[0];
      digest[4 * j + 1] := s[1];
      digest[4 * j + 2] := s[2];
      digest[4 * j + 3] := s[3];
      assert digest[..4 * (j + 1)] == old(digest[..4 * j]) + s;
      assert h[..j + 1][..j] == h[..j];
    }

    /** SHA256_Final, given a buffer for the digest. */
    method Final(digest: array<bv8>)
      requires Valid() && 8 * |fed| < LENGTH_SIZE && digest.Length == 32 && digest != buffer
      modifies this`bitcount, state, buffer, digest
      ensures digest[..] == Digest(fed)
      ensures bitcount == 0 && (forall i | 0 <= i < 8 :: state[i] == 0) && (forall i | 0 <= i < BLOCK :: buffer[i] == 0)
    {
      hide HashBlocks;
      Finish();
      ghost var h := state[..];
      BytesOfNothing(h);
      for j := 0 to 8
        invariant digest[..4 * j] == BytesOf(h[..j])
        invariant state[j..] == h[j..]
      {
        state[j] := Reverse32(state[j]);
        CopyDigest(digest, j, Stored(state[j]), h);
      }
      assert h[..8] == h && digest[..32] == digest[..];
      forall i | 0 <= i < 8 {
        state[i] := 0;
      }
      forall i | 0 <= i < BLOCK {
        buffer[i] := 0;
      }
      bitcount := 0;
    }
  }
}
