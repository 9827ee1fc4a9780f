/**
  One stream, from the descriptor it is read from to the one it is written to:
  what the two channels and the messages between them must always add up to.
 */
module Streams {
  import opened Bytes
  import opened Lz4Format
  import opened Messages
  import opened Channels

  /** The plain bytes a message carries for stream i. */
  function PayloadOf(m: Msg, i: nat): seq<byte> {
    match m
    case Data(ch, payload) => if ch == i then payload else []
    case DataLz4(ch, size, block) => if ch == i && Decode(block, size).Text? then Decode(block, size).text else []
    case Window(_, _) => []
    case Close(_) => []
  }

  function Payloads(q: seq<Msg>, i: nat): seq<byte> {
    if q == [] then [] else PayloadOf(q[0], i) + Payloads(q[1..], i)
  }

  /** The credit a message gives back for stream i. */
  function DeltaOf(m: Msg, i: nat): nat {
    if m.Window? && m.ch == i then m.delta else 0
  }

  function Deltas(q: seq<Msg>, i: nat): nat {
    if q == [] then 0 else DeltaOf(q[0], i) + Deltas(q[1..], i)
  }

  lemma {:induction false} PayloadsAppend(q: seq<Msg>, m: Msg, i: nat)
    ensures Payloads(q + [m], i) == Payloads(q, i) + PayloadOf(m, i)
  {
    hide PayloadOf;
    if q == [] {
      assert q + [m] == [m] && [m][1..] == [];
    } else {
      PayloadsAppend(q[1..], m, i);
      assert (q + [m])[1..] == q[1..] + [m];
      Assoc(PayloadOf(q[0], i), Payloads(q[1..], i), PayloadOf(m, i));
    }
  }

  lemma {:induction false} DeltasAppend(q: seq<Msg>, m: Msg, i: nat)
    ensures Deltas(q + [m], i) == Deltas(q, i) + DeltaOf(m, i)
  {
    if q == [] {
      assert q + [m] == [m] && [m][1..] == [];
    } else {
      DeltasAppend(q[1..], m, i);
      assert (q + [m])[1..] == q[1..] + [m];
    }
  }

  /**
    A stream as seen from outside: the channel it is read into, the channel it
    is written from, the data and acknowledgement messages on their way, all
    that was ever read and written, and whether the receiver has been told of
    the end while it was open.
   */
  datatype Stream = Stream(s: Chan, r: Chan, data: seq<Msg>, acks: seq<Msg>,
                           source: seq<byte>, dest: seq<byte>, endSeen: bool)

  /** All the credit there is, wherever it currently lies. */
  function Credit(v: Stream, i: nat): nat {
    v.s.window + |v.s.rb| + |Payloads(v.data, i)| + |v.r.rb| + v.r.bytesWritten + Deltas(v.acks, i)
  }

  /** Nothing follows a message that ends the stream. */
  predicate EndsLast(q: seq<Msg>, i: nat) {
    q == [] || (EndsLast(q[1..], i) && (q[0] == Close(i) ==> Payloads(q[1..], i) == []))
  }

  ghost predicate Kinds(v: Stream) {
    && Sound(v.s) && Sound(v.r)
    && !v.s.toFd && v.r.toFd
    && v.s.trackWindow && v.r.trackBytesWritten && !v.s.adbHack && !v.r.adbHack
  }

  ghost predicate CreditOk(v: Stream, i: nat, limit: nat) {
    && Credit(v, i) <= limit
    && (v.s.isOpen && v.r.isOpen ==> Credit(v, i) == limit)
  }

  ghost predicate InOrder(v: Stream, i: nat) {
    && (v.r.isOpen ==> v.dest + v.r.rb + Payloads(v.data, i) + v.s.rb == v.source)
    && v.dest <= v.source
  }

  ghost predicate EndOk(v: Stream, i: nat) {
    && EndsLast(v.data, i)
    && (Close(i) in v.data || v.endSeen ==> !v.s.isOpen && v.s.rb == [])
    && (v.endSeen ==> Payloads(v.data, i) == [])
    && (v.r.failed ==> !v.r.isOpen)
    && (v.endSeen && !v.r.isOpen && !v.r.failed ==> v.dest == v.source)
  }

  ghost predicate StreamOk(v: Stream, i: nat, limit: nat) {
    Kinds(v) && CreditOk(v, i, limit) && InOrder(v, i) && EndOk(v, i)
  }

  // ----- Messages that concern another stream, or the other direction -----

  predicate Irrelevant(m: Msg, i: nat) {
    PayloadOf(m, i) == [] && DeltaOf(m, i) == 0 && m != Close(i)
  }

  lemma {:induction false} EndsLastAppend(q: seq<Msg>, m: Msg, i: nat)
    requires EndsLast(q, i)
    requires PayloadOf(m, i) == [] || Close(i) !in q
    ensures EndsLast(q + [m], i)
  {
    hide PayloadOf;
    if q == [] {
      assert q + [m] == [m] && [m][1..] == [];
    } else {
      EndsLastAppend(q[1..], m, i);
      assert (q + [m])[1..] == q[1..] + [m];
      PayloadsAppend(q[1..], m, i);
      assert q[0] in q;
    }
  }

  /** Adding an acknowledgement-side message that gives no credit changes nothing. */
  lemma {:induction false} AckQueued(v: Stream, i: nat, limit: nat, m: Msg)
    requires StreamOk(v, i, limit) && DeltaOf(m, i) == 0
    ensures StreamOk(v.(acks := v.acks + [m]), i, limit)
  {
    DeltasAppend(v.acks, m, i);
  }

  lemma {:induction false} OtherQueued(v: Stream, i: nat, limit: nat, m: Msg)
    requires StreamOk(v, i, limit) && Irrelevant(m, i)
    ensures StreamOk(v.(data := v.data + [m]), i, limit)
  {
    PayloadsAppend(v.data, m, i);
    EndsLastAppend(v.data, m, i);
    assert Payloads(v.data, i) + [] == Payloads(v.data, i);
  }

  lemma {:induction false} OtherTaken(v: Stream, i: nat, limit: nat)
    requires StreamOk(v, i, limit) && v.data != [] && Irrelevant(v.data[0], i)
    ensures StreamOk(v.(data := v.data[1..]), i, limit)
  {
    assert [] + Payloads(v.data[1..], i) == Payloads(v.data, i);
    assert Close(i) in v.data[1..] ==> Close(i) in v.data;
  }

  lemma {:induction false} OtherAckTaken(v: Stream, i: nat, limit: nat)
    requires StreamOk(v, i, limit) && v.acks != [] && DeltaOf(v.acks[0], i) == 0
    ensures StreamOk(v.(acks := v.acks[1..]), i, limit)
  {
  }

  // ----- Rearranging concatenations -----

  lemma {:induction false} Regroup(before: seq<byte>, x: seq<byte>, a: seq<byte>, b: seq<byte>)
    ensures before + (x + a) + b == before + x + (a + b)
  {
  }

  /** Bytes written past an empty buffer, or appended to the buffer, keep their place in the stream. */
  lemma {:induction false} Arrive(dest: seq<byte>, rb: seq<byte>, p: seq<byte>, direct: nat, rest: seq<byte>, tail: seq<byte>)
    requires direct <= |p| && (direct > 0 ==> rb == [])
    ensures dest + p[..direct] + (rb + p[direct..]) + rest + tail == dest + rb + (p + rest) + tail
    ensures dest + p[..direct] <= dest + rb + (p + rest) + tail
  {
    assert p[..direct] + p[direct..] == p;
    if direct == 0 {
      assert dest + [] + (rb + p) == dest + rb + p;
    } else {
      assert dest + p[..direct] + ([] + p[direct..]) == dest + [] + p;
    }
    assert dest + rb + p + rest + tail == dest + rb + (p + rest) + tail;
  }

  lemma {:induction false} Moved(dest: seq<byte>, rb: seq<byte>, n: nat, rest: seq<byte>, tail: seq<byte>)
    requires n <= |rb|
    ensures dest + rb[..n] + rb[n..] + rest + tail == dest + rb + rest + tail
    ensures dest + rb[..n] <= dest + rb + rest + tail
    ensures n == 0 ==> dest + rb[..n] == dest
  {
    assert rb[..n] + rb[n..] == rb;
    Assoc(dest, rb[..n], rb[n..]);
  }

  /** What the rules about a queue say once its first message, not an end, is gone. */
  lemma {:induction false} TakeFirst(q: seq<Msg>, i: nat)
    requires q != [] && EndsLast(q, i)
    ensures Payloads(q, i) == PayloadOf(q[0], i) + Payloads(q[1..], i)
    ensures EndsLast(q[1..], i)
    ensures Close(i) in q[1..] ==> Close(i) in q
  {
  }

  // ----- What happens at the sending end -----

  lemma {:induction false} SourceRead(v: Stream, i: nat, limit: nat, data: seq<byte>)
    requires StreamOk(v, i, limit) && Enabled(v.s, Got(data))
    ensures StreamOk(v.(s := Step(v.s, Got(data)), source := v.source + data), i, limit)
  {
    StepContinues(v.s, Got(data));
    if v.r.isOpen {
      Assoc(v.dest + v.r.rb + Payloads(v.data, i), v.s.rb, data);
    }
  }

  lemma {:induction false} SourceClosed(v: Stream, i: nat, limit: nat, e: Event)
    requires StreamOk(v, i, limit) && Enabled(v.s, e) && (e == Closed || e == Failed)
    ensures StreamOk(v.(s := Step(v.s, e)), i, limit)
  {
    StepContinues(v.s, e);
  }

  lemma {:induction false} DataSent(v: Stream, i: nat, limit: nat, m: Msg, n: nat)
    requires StreamOk(v, i, limit) && n <= |v.s.rb|
    requires PayloadOf(m, i) == v.s.rb[..n] && DeltaOf(m, i) == 0 && m != Close(i)
    ensures StreamOk(v.(s := v.s.(rb := v.s.rb[n..]), data := v.data + [m]), i, limit)
  {
    hide Payloads;
    hide PayloadOf;
    hide EndsLast;
    PayloadsAppend(v.data, m, i);
    EndsLastAppend(v.data, m, i);
    assert v.s.rb == v.s.rb[..n] + v.s.rb[n..];
    Regroup(v.dest + v.r.rb, Payloads(v.data, i), v.s.rb[..n], v.s.rb[n..]);
  }

  lemma {:induction false} EndSent(v: Stream, i: nat, limit: nat)
    requires StreamOk(v, i, limit) && !v.s.isOpen && v.s.rb == []
    ensures StreamOk(v.(s := v.s.(sentEof := true), data := v.data + [Close(i)]), i, limit)
  {
    PayloadsAppend(v.data, Close(i), i);
    EndsLastAppend(v.data, Close(i), i);
    assert Payloads(v.data, i) + [] == Payloads(v.data, i);
  }

  /** A window message reaching the sender cannot overflow its window. */
  lemma {:induction false} CreditArrives(v: Stream, i: nat, limit: nat)
    requires StreamOk(v, i, limit) && limit <= UINT32_MAX
    requires v.acks != [] && v.acks[0].Window? && v.acks[0].ch == i
    ensures v.s.window + v.acks[0].delta <= UINT32_MAX
    ensures v.s.isOpen ==> StreamOk(v.(s := v.s.(window := v.s.window + v.acks[0].delta), acks := v.acks[1..]), i, limit)
    ensures !v.s.isOpen ==> StreamOk(v.(acks := v.acks[1..]), i, limit)
  {
  }

  lemma {:induction false} SourceToldToClose(v: Stream, i: nat, limit: nat)
    requires StreamOk(v, i, limit)
    ensures StreamOk(v.(s := Closing(v.s.(sentEof := true))), i, limit)
  {
  }

  // ----- What happens at the receiving end -----

  lemma {:induction false} DestWritten(v: Stream, i: nat, limit: nat, n: nat)
    requires StreamOk(v, i, limit) && Enabled(v.r, Drained(n))
    ensures StreamOk(v.(r := Step(v.r, Drained(n)), dest := v.dest + v.r.rb[..n]), i, limit)
  {
    hide Payloads;
    hide EndsLast;
    StepContinues(v.r, Drained(n));
    Moved(v.dest, v.r.rb, n, Payloads(v.data, i), v.s.rb);
  }

  lemma {:induction false} DestClosed(v: Stream, i: nat, limit: nat, e: Event)
    requires StreamOk(v, i, limit) && Enabled(v.r, e) && (e == Closed || e == Failed)
    ensures StreamOk(v.(r := Step(v.r, e)), i, limit)
  {
    StepContinues(v.r, e);
    if v.endSeen && v.r.isOpen {
      assert v.dest + v.r.rb + [] + [] == v.dest + v.r.rb;
    }
  }

  lemma {:induction false} CreditSent(v: Stream, i: nat, limit: nat)
    requires StreamOk(v, i, limit)
    ensures StreamOk(v.(r := v.r.(bytesWritten := 0), acks := v.acks + [Window(i, v.r.bytesWritten)]), i, limit)
  {
    DeltasAppend(v.acks, Window(i, v.r.bytesWritten), i);
  }

  lemma {:induction false} DestEndSent(v: Stream, i: nat, limit: nat)
    requires StreamOk(v, i, limit)
    ensures StreamOk(v.(r := v.r.(sentEof := true), acks := v.acks + [Close(i)]), i, limit)
  {
    DeltasAppend(v.acks, Close(i), i);
  }

  /** Data reaching an open receiver always fits its buffer. */
  lemma {:induction false} DataFits(v: Stream, i: nat, limit: nat)
    requires StreamOk(v, i, limit) && limit <= v.r.capacity
    requires v.data != []
    ensures |PayloadOf(v.data[0], i)| <= Room(v.r)
  {
  }

  lemma {:induction false} DataArrives(v: Stream, i: nat, limit: nat, direct: nat)
    requires StreamOk(v, i, limit)
    requires v.data != [] && v.data[0] != Close(i)
    requires v.r.isOpen && Enabled(v.r, Written(PayloadOf(v.data[0], i), direct))
    ensures var p := PayloadOf(v.data[0], i);
            StreamOk(v.(r := Step(v.r, Written(p, direct)), data := v.data[1..], dest := v.dest + p[..direct]), i, limit)
  {
    var p := PayloadOf(v.data[0], i);
    var rest := Payloads(v.data[1..], i);
    TakeFirst(v.data, i);
    hide PayloadOf;
    hide Payloads;
    hide EndsLast;
    StepContinues(v.r, Written(p, direct));
    Arrive(v.dest, v.r.rb, p, direct, rest, v.s.rb);
  }

  lemma {:induction false} DataDropped(v: Stream, i: nat, limit: nat)
    requires StreamOk(v, i, limit)
    requires v.data != [] && v.data[0] != Close(i) && !v.r.isOpen
    ensures StreamOk(v.(data := v.data[1..]), i, limit)
  {
    hide PayloadOf;
    assert Close(i) in v.data[1..] ==> Close(i) in v.data;
  }

  lemma {:induction false} EndArrives(v: Stream, i: nat, limit: nat)
    requires StreamOk(v, i, limit)
    requires v.data != [] && v.data[0] == Close(i)
    ensures StreamOk(v.(r := Closing(v.r.(sentEof := true)), data := v.data[1..], endSeen := v.endSeen || v.r.isOpen), i, limit)
  {
    assert v.data[0] in v.data;
    assert [] + Payloads(v.data[1..], i) == Payloads(v.data, i);
    if v.r.isOpen {
      assert v.dest + v.r.rb + [] + [] == v.dest + v.r.rb;
    }
  }
}
