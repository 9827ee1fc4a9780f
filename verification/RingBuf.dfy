/**
  The ring buffer: two wrapping counters over a power-of-two memory, which is a
  bounded first-in first-out queue of bytes.
 */
module RingBuf {
  import opened Bytes
  import opened Bits

  /** Which memory cell a counter value stands for. */
  function Cell(pos: nat, exponent: nat): (c: nat)
    ensures c < Pow2(exponent)
  {
    pos % Pow2(exponent)
  }

  /** The counters wrap at the machine word, which is a multiple of the capacity. */
  lemma {:induction false} CellWraps(pos: nat, exponent: nat)
    requires exponent <= 63
    ensures Cell(pos % WORD, exponent) == Cell(pos, exponent)
  {
    hide Pow2;
    Pow2Values();
    var cap, m := Pow2(exponent), Pow2(64 - exponent);
    Pow2Add(exponent, 64 - exponent);
    var w, r := pos / WORD, pos % WORD;
    var q, c := r / cap, r % cap;
    assert pos == w * WORD + r && r == q * cap + c;
    assert w * WORD == w * m * cap;
    assert pos == (w * m + q) * cap + c;
    RemainderUnique(pos, cap, w * m + q, c);
  }

  /** The cell n places after cell c of a memory of 'cap' cells. */
  function Step(cap: nat, c: nat, n: nat): (r: nat)
    requires c < cap && n <= cap
    ensures r < cap
  {
    if c + n < cap then c + n else c + n - cap
  }

  /** Adding to a wrapping counter. */
  function Advance(counter: nat, n: nat): (r: nat)
    ensures r < WORD
  {
    (counter + n) % WORD
  }

  lemma {:induction false} RemainderSteps(pos: nat, n: nat, cap: nat)
    requires 0 < cap && n <= cap
    ensures (pos + n) % cap == Step(cap, pos % cap, n)
  {
    var q, c := pos / cap, pos % cap;
    assert pos == q * cap + c;
    if c + n < cap {
      RemainderUnique(pos + n, cap, q, c + n);
    } else {
      assert pos + n == (q + 1) * cap + (c + n - cap);
      RemainderUnique(pos + n, cap, q + 1, c + n - cap);
    }
  }

  /** Advancing a wrapping counter advances its cell. */
  lemma {:induction false} CellAdvance(pos: nat, n: nat, exponent: nat)
    requires exponent <= 63 && n <= Pow2(exponent)
    ensures Cell(Advance(pos, n), exponent) == Step(Pow2(exponent), Cell(pos, exponent), n)
  {
    hide Pow2;
    CellWraps(pos + n, exponent);
    RemainderSteps(pos, n, Pow2(exponent));
  }

  /** The n bytes from cell c on, wrapping at the end of the memory. */
  function Window(mem: seq<byte>, c: nat, n: nat): (w: seq<byte>)
    requires c < |mem| && n <= |mem|
    ensures |w| == n
  {
    seq(n, i requires 0 <= i < n => mem[Step(|mem|, c, i)])
  }

  lemma {:induction false} WindowSplit(mem: seq<byte>, c: nat, m: nat, n: nat)
    requires c < |mem| && m + n <= |mem|
    ensures Window(mem, c, m + n) == Window(mem, c, m) + Window(mem, Step(|mem|, c, m), n)
  {
  }

  /** Where a region lies in memory: up to the end, and the rest from the start. */
  datatype Region = Region(start: nat, firstLen: nat, secondLen: nat)

  /** ringbuf_io_region; ringbuf_clip masks the position. */
  function IoRegion(capacity: nat, pos: nat, len: nat): (r: Region)
    requires 1 <= capacity && len <= capacity
    requires And(pos, capacity - 1) <= capacity
    ensures r.firstLen + r.secondLen == len
  {
    var idx := And(pos, capacity - 1);
    if idx + len > capacity then Region(idx, capacity - idx, len - (capacity - idx)) else Region(idx, len, 0)
  }

  lemma {:induction false} RegionStart(pos: nat, exponent: nat, len: nat)
    requires len <= Pow2(exponent)
    ensures And(pos, Pow2(exponent) - 1) == Cell(pos, exponent)
    ensures IoRegion(Pow2(exponent), pos, len).start == Cell(pos, exponent)
  {
    MaskIsRemainder(pos, exponent);
  }

  /** The two parts of a region make up the window. */
  lemma {:induction false} RegionIsWindow(mem: seq<byte>, r: Region, n: nat)
    requires r.start < |mem| && n <= |mem|
    requires r == if r.start + n > |mem| then Region(r.start, |mem| - r.start, n - (|mem| - r.start)) else Region(r.start, n, 0)
    ensures mem[r.start..r.start + r.firstLen] + mem[..r.secondLen] == Window(mem, r.start, n)
  {
  }

  /** ringbuf_size: unsigned subtraction of the counters. */
  function Distance(removed: nat, added: nat): nat {
    (added - removed) % WORD
  }

  /** How the distance of two wrapping counters changes as they move. */
  lemma {:induction false} DistanceReaches(removed: nat, added: nat)
    requires removed < WORD && added < WORD
    ensures Advance(removed, Distance(removed, added)) == added
  {
  }

  lemma {:induction false} DistanceAdded(removed: nat, added: nat, n: nat)
    requires removed < WORD && added < WORD && Distance(removed, added) + n < WORD
    ensures Distance(removed, Advance(added, n)) == Distance(removed, added) + n
  {
  }

  lemma {:induction false} DistanceRemoved(removed: nat, added: nat, n: nat)
    requires removed < WORD && added < WORD && n <= Distance(removed, added)
    ensures Distance(Advance(removed, n), added) == Distance(removed, added) - n
  {
  }

  /** Writing the n cells from 'added' on leaves a window of m bytes before them alone. */
  lemma {:induction false} WindowUntouched(before: seq<byte>, after: seq<byte>, c: nat, m: nat, r: Region)
    requires |before| == |after| && c < |before| && m + r.firstLen + r.secondLen <= |before|
    requires r.start == Step(|before|, c, m)
    requires r == if r.start + r.firstLen + r.secondLen > |before| then Region(r.start, |before| - r.start, r.secondLen)
                  else Region(r.start, r.firstLen, 0)
    requires forall k | 0 <= k < |before| && !(r.start <= k < r.start + r.firstLen) && !(k < r.secondLen) :: after[k] == before[k]
    ensures Window(after, c, m) == Window(before, c, m)
  {
  }

  /** The memory with a buffer copied to where the region lies. */
  ghost predicate CopiedTo(before: seq<byte>, after: seq<byte>, r: Region, buf: seq<byte>) {
    && |before| == |after| && r.start + r.firstLen <= |after| && r.secondLen <= r.start && r.firstLen + r.secondLen == |buf|
    && (forall k | r.start <= k < r.start + r.firstLen :: after[k] == buf[k - r.start])
    && (forall k | 0 <= k < r.secondLen :: after[k] == buf[r.firstLen + k])
    && (forall k | 0 <= k < |after| && !(r.start <= k < r.start + r.firstLen) && !(k < r.secondLen) :: after[k] == before[k])
  }

  lemma {:induction false} CopiedParts(before: seq<byte>, after: seq<byte>, r: Region, buf: seq<byte>)
    requires CopiedTo(before, after, r, buf)
    ensures after[r.start..r.start + r.firstLen] + after[..r.secondLen] == buf
  {
    assert after[r.start..r.start + r.firstLen] == buf[..r.firstLen];
    assert after[..r.secondLen] == buf[r.firstLen..];
  }

  /** It fills the window that the region makes up, and leaves the one before it alone. */
  lemma {:induction false} CopiedWindows(before: seq<byte>, after: seq<byte>, c: nat, m: nat, r: Region, buf: seq<byte>)
    requires CopiedTo(before, after, r, buf) && c < |before| && m + |buf| <= |before|
    requires r.start == Step(|before|, c, m)
    requires r == if r.start + |buf| > |before| then Region(r.start, |before| - r.start, |buf| - (|before| - r.start))
                  else Region(r.start, |buf|, 0)
    ensures Window(after, c, m) == Window(before, c, m) && Window(after, r.start, |buf|) == buf
  {
    hide Window;
    WindowUntouched(before, after, c, m, r);
    RegionIsWindow(after, r, |buf|);
    CopiedParts(before, after, r, buf);
  }

  class RingBuffer {
    var nrRemoved: nat
    var nrAdded: nat
    const capacity: nat
    const mem: array<byte>
    ghost const exponent: nat

    function Size(): nat
      reads this
    {
      Distance(nrRemoved, nrAdded)
    }

    ghost predicate Valid()
      reads this, mem
    {
      && exponent <= 63 && capacity == Pow2(exponent) == mem.Length
      && nrRemoved < WORD && nrAdded < WORD
      && Size() <= capacity
    }

    function Room(): int
      reads this
    {
      capacity - Size()
    }

    ghost function Contents(): (s: seq<byte>)
      requires Valid()
      reads this, mem
      ensures |s| == Size() <= capacity
    {
      Window(mem[..], Cell(nrRemoved, exponent), Size())
    }

    /** The bytes that ringbuf_note_added would take in. */
    ghost function Upcoming(n: nat): (s: seq<byte>)
      requires Valid() && n <= capacity
      reads this, mem
      ensures |s| == n
    {
      Window(mem[..], Cell(nrAdded, exponent), n)
    }

    /** The counters' cells lie as far apart as there are bytes. */
    lemma {:induction false} AddedCell()
      requires Valid()
      ensures Cell(nrAdded, exponent) == Step(capacity, Cell(nrRemoved, exponent), Size())
    {
      hide Cell;
      hide Pow2;
      hide Distance;
      hide Advance;
      DistanceReaches(nrRemoved, nrAdded);
      CellAdvance(nrRemoved, Size(), exponent);
    }

    constructor FromCapacity(ghost exponent: nat, size: nat)
      requires exponent <= 63 && size == Pow2(exponent)
      ensures Valid() && capacity == size && Contents() == [] && fresh(mem)
    {
      nrRemoved, nrAdded := 0, 0;
      capacity := size;
      mem := new byte[size](i => 0);
      this.exponent := exponent;
    }

    /** ringbuf_new: null stands for dying because the size is 0 or too large. */
    static method Create(size: nat) returns (rb: RingBuffer?)
      requires size < WORD
      ensures rb == null <==> size == 0 || size > WORD / 2
      ensures rb != null ==> fresh(rb) && fresh(rb.mem) && rb.Valid() && rb.Contents() == [] && size <= rb.capacity < 2 * size
    {
      var rounded := NextPow2(size);
      if size == 0 || rounded == 0 {
        return null;
      }
      ghost var k: nat :| k <= 63 && rounded == Pow2(k);
      rb := new RingBuffer.FromCapacity(k, rounded);
    }

    /** ringbuf_copy_in: fills the space behind the contents without taking it in yet. */
    method CopyIn(buf: seq<byte>)
      requires Valid() && |buf| <= Room()
      modifies mem
      ensures Valid() && Contents() == old(Contents()) && Upcoming(|buf|) == buf
    {
      hide Cell;
      hide And;
      hide Pow2;
      hide Distance;
      hide Window;
      RegionStart(nrAdded, exponent, |buf|);
      AddedCell();
      ghost var before := mem[..];
      var r := IoRegion(capacity, nrAdded, |buf|);
      forall i | r.start <= i < r.start + r.firstLen {
        mem[i] := buf[i - r.start];
      }
      forall i | 0 <= i < r.secondLen {
        mem[i] := buf[r.firstLen + i];
      }
      CopiedWindows(before, mem[..], Cell(nrRemoved, exponent), Size(), r, buf);
    }

    /** ringbuf_note_added */
    method NoteAdded(n: nat)
      requires Valid() && n <= Room()
      modifies this`nrAdded
      ensures Valid() && Contents() == old(Contents()) + old(Upcoming(n))
    {
      hide Cell;
      hide Pow2;
      hide Distance;
      hide Advance;
      Pow2Monotone(exponent, 63);
      Pow2Values();
      AddedCell();
      DistanceAdded(nrRemoved, nrAdded, n);
      WindowSplit(mem[..], Cell(nrRemoved, exponent), Size(), n);
      nrAdded := Advance(nrAdded, n);
    }

    /** ringbuf_note_removed: an emptied buffer starts over at zero. */
    method NoteRemoved(n: nat)
      requires Valid() && n <= Size()
      modifies this
      ensures Valid() && Contents() == old(Contents()[n..])
    {
      hide Cell;
      hide Pow2;
      assert Distance(0, 0) == 0;
      hide Distance;
      DistanceRemoved(nrRemoved, nrAdded, n);
      WindowSplit(mem[..], Cell(nrRemoved, exponent), n, Size() - n);
      CellAdvance(nrRemoved, n, exponent);
      nrRemoved := Advance(nrRemoved, n);
      if Size() == 0 {
        nrAdded, nrRemoved := 0, 0;
      }
    }

    /** ringbuf_copy_out */
    method CopyOut(n: nat) returns (out: seq<byte>)
      requires Valid() && n <= Size()
      ensures out == Contents()[..n]
    {
      hide Cell;
      hide Pow2;
      hide And;
      RegionStart(nrRemoved, exponent, n);
      var r := IoRegion(capacity, nrRemoved, n);
      RegionIsWindow(mem[..], r, n);
      WindowSplit(mem[..], r.start, n, Size() - n);
      out := mem[r.start..r.start + r.firstLen] + mem[..r.secondLen];
    }
  }
}
