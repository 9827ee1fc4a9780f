/**
  What the sending half of the event loop's pump (core.c) does to a peer: one
  channel's turn, a round of turns, and rounds until one finds nothing to do.
 */
module PumpRounds {
  import opened Wrappers
  import opened Bytes
  import AdbEnc
  import opened Messages
  import opened Channels
  import opened Peer
  import opened Lz4Format

  const MIN_COMPRESSION_BLOCK := 13

  /** The pump moves no bytes to or from descriptors; it may close a channel. */
  predicate IsWork(a: Action) {
    a.Io? ==> a.e == Closed
  }

  /** What a peer becomes by these pieces of the pump's work, if each is possible in its turn. */
  ghost function RunPeer(p: Peer, acts: seq<Action>): Option<Peer>
    decreases |acts|
  {
    if acts == [] then Some(p)
    else
      var a := acts[|acts| - 1];
      match RunPeer(p, acts[..|acts| - 1])
      case None => None
      case Some(q) => if IsWork(a) && WellFormedPeer(q) && Possible(q, a) then Some(Do(q, a)) else None
  }

  lemma {:induction false} OneMoreAct(p: Peer, acts: seq<Action>, q: Peer, a: Action)
    requires RunPeer(p, acts) == Some(q) && IsWork(a) && WellFormedPeer(q) && Possible(q, a)
    ensures RunPeer(p, acts + [a]) == Some(Do(q, a))
  {
    assert (acts + [a])[..|acts|] == acts;
  }

  lemma {:induction false} RunPeerAppend(p: Peer, acts: seq<Action>, q: Peer, more: seq<Action>)
    requires RunPeer(p, acts) == Some(q) && RunPeer(q, more).Some?
    ensures RunPeer(p, acts + more) == RunPeer(q, more)
    decreases |more|
  {
    if more == [] {
      assert acts + more == acts;
    } else {
      var butLast := more[..|more| - 1];
      RunPeerAppend(p, acts, q, butLast);
      assert (acts + more)[..|acts + more| - 1] == acts + butLast;
    }
  }

  lemma {:induction false} OneAct(p: Peer, a: Action)
    requires WellFormedPeer(p) && IsWork(a) && Possible(p, a)
    ensures RunPeer(p, [a]) == Some(Do(p, a))
  {
    assert [a][..0] == [];
  }

  lemma {:induction false} NoActs(p: Peer)
    ensures RunPeer(p, []) == Some(p)
  {
  }

  // ----- Progress -----

  function Pending(c: Chan): nat {
    (if c.toFd then 0 else |c.rb|) + (if c.sentEof then 0 else 1)
  }

  /** Room in an open outgoing buffer, bytes still to be sent, and ends still to be announced. */
  function Measure(p: Peer): nat
    requires WellFormedPeer(p)
  {
    (if p.ch[TO_PEER].isOpen then Room(p.ch[TO_PEER]) else 0)
    + Pending(p.ch[0]) + Pending(p.ch[1]) + Pending(p.ch[2]) + Pending(p.ch[3]) + Pending(p.ch[4])
  }

  /** The most that fits into an outgoing message once the channel to the peer is closed and empty. */
  function ClosedLimit(p: Peer): int
    requires |p.ch| == NR_CH
  {
    Min(p.maxOutgoing, p.ch[TO_PEER].capacity)
  }

  lemma {:induction false} OutgoingGrows(c: Chan, s: seq<byte>)
    requires Enabled(c, Written(s, 0)) && s != []
    ensures var d := Step(c, Written(s, 0));
            && d.isOpen == c.isOpen && d.capacity == c.capacity && d.sentEof == c.sentEof && d.toFd == c.toFd
            && (c.isOpen ==> Room(d) == Room(c) - |s|) && (!c.isOpen ==> d == c)
  {
  }

  lemma {:induction false} SentLess(c: Chan, a: Action)
    requires IsSend(a) && if a.SendEof? then !c.sentEof else !a.Ack? && !c.toFd && a.n <= |c.rb|
    ensures Pending(AfterSend(c, a)) + (if a.SendEof? then 1 else a.n) == Pending(c)
  {
  }

  /** Every message sent takes away what is pending, in its own channel or where the end is announced. */
  lemma {:induction false} OnePendingLess(p: Peer, q: Peer, a: Action, m: Msg)
    requires SendsAs(p, q, a, m) && p.ch[TO_PEER].toFd
    requires a.SendData? || a.SendLz4? || (a.SendEof? && !p.ch[a.i].sentEof)
    requires a.SendData? || a.SendLz4? ==> !p.ch[a.i].toFd
    ensures forall j | 0 <= j < NR_CH && j != a.i :: Pending(q.ch[j]) == Pending(p.ch[j])
    ensures Pending(q.ch[a.i]) + (if a.SendEof? then 1 else a.n) == Pending(p.ch[a.i])
  {
    hide Serialize;
    hide Step;
    hide Enabled;
    hide AfterSend;
    OutgoingGrows(p.ch[TO_PEER], Serialize(m));
    if a.i != TO_PEER {
      SentLess(p.ch[a.i], a);
    }
  }

  lemma {:induction false} SendShrinks(p: Peer, q: Peer, a: Action, m: Msg)
    requires WellFormedPeer(p) && WellFormedPeer(q) && SendsAs(p, q, a, m) && p.ch[TO_PEER].toFd
    requires a.SendData? || a.SendLz4? || (a.SendEof? && !p.ch[a.i].sentEof)
    requires a.SendData? || a.SendLz4? ==> !p.ch[a.i].toFd
    requires (a.SendData? || a.SendLz4?) && !p.ch[TO_PEER].isOpen ==> a.n > 0
    ensures Measure(q) < Measure(p)
  {
    hide Serialize;
    hide WellFormedPeer;
    hide Step;
    hide Enabled;
    hide Pending;
    OutgoingGrows(p.ch[TO_PEER], Serialize(m));
    OnePendingLess(p, q, a, m);
  }

  /** A message larger than its payload's share makes progress. */
  lemma {:induction false} SendProgress(p: Peer, a: Action)
    requires WellFormedPeer(p) && Possible(p, a) && (a.SendData? || a.SendLz4? || a.SendEof?)
    requires (a.SendData? || a.SendLz4?) && !p.ch[TO_PEER].isOpen ==> a.n > 0
    ensures WellFormedPeer(Do(p, a)) && Measure(Do(p, a)) < Measure(p)
  {
    hide Do;
    hide Serialize;
    hide Enabled;
    DoKeeps(p, a);
    SendEffect(p, a);
    SendShrinks(p, Do(p, a), a, MessageOf(p, a));
  }

  /** xmit_data needs room for this much besides the payload. */
  function LeastHeader(c: Chan): nat {
    if c.compress && |c.rb| >= MIN_COMPRESSION_BLOCK then LZ4_HEADER else DATA_HEADER
  }

  /** Channel i has no data to send, or there is no room for it. */
  predicate Exhausted(p: Peer, i: nat)
    requires |p.ch| == NR_CH && i < NR_CH
  {
    var c := p.ch[i];
    IsStream(i) && !c.toFd && c.rb != [] ==> MaxOut(p) < LeastHeader(c)
  }

  /** Nothing is left that the pump could do for channel i. */
  predicate Quiet(p: Peer, i: nat)
    requires |p.ch| == NR_CH && i < NR_CH
  {
    var c := p.ch[i];
    && Exhausted(p, i)
    && !(c.toFd && c.isOpen && c.rb == [] && c.pendingClose)
    && !(OwesEof(c) && MaxOut(p) >= CLOSE_SIZE)
  }

  // ----- Streams that are stuck -----

  /** With this limit an outgoing message has room for its headers, but for none of the channel's data. */
  function EmptyLimit(c: Chan): nat {
    if c.compress && |c.rb| >= MIN_COMPRESSION_BLOCK then LZ4_HEADER + 1 else DATA_HEADER
  }

  /** Stream i has data of which nothing gets into a message once the channel to the peer is closed. */
  predicate WouldStick(p: Peer, i: nat)
    requires |p.ch| == NR_CH
  {
    IsStream(i) && !p.ch[i].toFd && p.ch[i].rb != [] && ClosedLimit(p) == EmptyLimit(p.ch[i])
  }

  predicate Stuck(p: Peer, i: nat)
    requires |p.ch| == NR_CH
  {
    !p.ch[TO_PEER].isOpen && WouldStick(p, i)
  }

  /** xmit_data would send an empty message into the closed channel, which changes nothing. */
  lemma {:induction false} StuckSend(p: Peer, i: nat)
    requires WellFormedPeer(p) && Stuck(p, i)
    ensures MaxOut(p) == EmptyLimit(p.ch[i])
    ensures Possible(p, SendData(i, 0)) && Do(p, SendData(i, 0)) == p
  {
    SendKeeps(p, Data(i, p.ch[i].rb[..0]));
    var q := Do(p, SendData(i, 0));
    assert p.ch[i].rb[0..] == p.ch[i].rb;
    assert q.ch == p.ch;
  }

  /** do_pending_close will close the channel. */
  predicate Closes(c: Chan) {
    c.toFd && c.isOpen && c.rb == [] && c.pendingClose
  }

  function AfterPending(c: Chan): Chan {
    if Closes(c) then c.(isOpen := false) else c
  }

  /** Channel i's turn does no work: neither xmit_data nor, after do_pending_close, xmit_eof. */
  predicate NoWork(p: Peer, i: nat)
    requires |p.ch| == NR_CH && i < NR_CH
  {
    Exhausted(p, i) && (OwesEof(AfterPending(p.ch[i])) ==> MaxOut(p) < CLOSE_SIZE)
  }

  // ----- The pump as a whole -----

  /** Channel i's bytes written have been acknowledged, or there was no room to. */
  predicate Acked(p: Peer, i: nat)
    requires |p.ch| == NR_CH && i < NR_CH
  {
    p.ch[i].bytesWritten == 0 || MaxOut(p) < WINDOW_SIZE
  }

  /** What the sending half of the pump does to a peer, having counted that much work. */
  ghost predicate Progress(p: Peer, q: Peer, work: nat) {
    && WellFormedPeer(p) && WellFormedPeer(q)
    && ClosedLimit(q) == ClosedLimit(p)
    && Incoming(q).rb == Incoming(p).rb && Incoming(q).isOpen == Incoming(p).isOpen
    && Incoming(q).capacity == Incoming(p).capacity
    && Measure(q) + (if work > 0 then 1 else 0) <= Measure(p)
    && (forall j | 0 <= j < NR_CH && Acked(p, j) :: Acked(q, j))
    && (work == 0 ==> forall j | 0 <= j < NR_CH && Quiet(p, j) :: Quiet(q, j))
  }

  lemma {:induction false} ProgressNone(p: Peer)
    requires WellFormedPeer(p)
    ensures Progress(p, p, 0)
  {
  }

  lemma {:induction false} ProgressTogether(p: Peer, q: Peer, work: nat, r: Peer, more: nat)
    requires Progress(p, q, work) && Progress(q, r, more)
    ensures Progress(p, r, work + more)
  {
    hide WellFormedPeer;
    hide Quiet;
    hide Acked;
    hide ClosedLimit;
    hide Measure;
  }

  lemma {:induction false} RanNothing(p: Peer, q: Peer)
    requires RunPeer(p, []) == Some(q)
    ensures p == q
  {
  }

  /** What sending data or an end leaves alone. */
  lemma {:induction false} SentElsewhere(p: Peer, q: Peer, a: Action, m: Msg)
    requires SendsAs(p, q, a, m) && !a.Ack? && IsOutgoing(p.ch[TO_PEER]) && IsOutgoing(q.ch[TO_PEER])
    ensures ClosedLimit(q) == ClosedLimit(p) && Incoming(q).rb == Incoming(p).rb
    ensures Incoming(q).isOpen == Incoming(p).isOpen && Incoming(q).capacity == Incoming(p).capacity
    ensures forall j | 0 <= j < NR_CH && Acked(p, j) :: Acked(q, j)
  {
    hide Serialize;
    hide Step;
    hide Enabled;
    OutgoingGrows(p.ch[TO_PEER], Serialize(m));
  }

  lemma {:induction false} SendMakesProgress(p: Peer, a: Action, q: Peer)
    requires WellFormedPeer(p) && RunPeer(p, [a]) == Some(q) && (a.SendData? || a.SendLz4? || a.SendEof?)
    requires (a.SendData? || a.SendLz4?) && !p.ch[TO_PEER].isOpen ==> a.n > 0
    ensures Progress(p, q, 1)
  {
    hide Do;
    hide Possible;
    hide Measure;
    hide Acked;
    hide SendsAs;
    hide Sound;
    assert [a][..0] == [];
    assert Possible(p, a) && q == Do(p, a);
    SendProgress(p, a);
    SendEffect(p, a);
    SentElsewhere(p, q, a, MessageOf(p, a));
  }

  lemma {:induction false} ClosedOne(p: Peer, i: nat, q: Peer)
    requires WellFormedPeer(p) && WellFormedPeer(q) && i < NR_CH && Closes(p.ch[i]) && q == With(p, i, p.ch[i].(isOpen := false))
    ensures Progress(p, q, 0)
  {
    hide Sound;
  }

  lemma {:induction false} CloseMakesProgress(p: Peer, i: nat, acts: seq<Action>, q: Peer)
    requires WellFormedPeer(p) && i < NR_CH && RunPeer(p, acts) == Some(q)
    requires var c := p.ch[i]; acts == if Closes(c) then [Io(i, Closed)] else []
    ensures Progress(p, q, 0)
  {
    hide Progress;
    if acts != [] {
      assert acts[..0] == [];
      DoKeeps(p, acts[0]);
      assert q == With(p, i, p.ch[i].(isOpen := false));
      ClosedOne(p, i, q);
    } else {
      ProgressNone(p);
    }
  }

  /** What acknowledging does to a peer. */
  ghost predicate AckedOnly(p: Peer, q: Peer) {
    && WellFormedPeer(p) && WellFormedPeer(q)
    && ClosedLimit(q) == ClosedLimit(p) && MaxOut(q) <= MaxOut(p) && Measure(q) <= Measure(p)
    && Incoming(q).rb == Incoming(p).rb && Incoming(q).isOpen == Incoming(p).isOpen
    && Incoming(q).capacity == Incoming(p).capacity
    && (forall j | 0 <= j < NR_CH :: q.ch[j].bytesWritten <= p.ch[j].bytesWritten)
  }

  lemma {:induction false} AckedNone(p: Peer)
    requires WellFormedPeer(p)
    ensures AckedOnly(p, p)
  {
  }

  lemma {:induction false} AckedTogether(p: Peer, q: Peer, r: Peer)
    requires AckedOnly(p, q) && AckedOnly(q, r)
    ensures AckedOnly(p, r)
  {
    hide WellFormedPeer;
    hide ClosedLimit;
    hide MaxOut;
  }

  lemma {:induction false} AckEffect(p: Peer, i: nat, acts: seq<Action>, q: Peer)
    requires WellFormedPeer(p) && i < NR_CH && RunPeer(p, acts) == Some(q)
    requires acts == if p.ch[i].bytesWritten > 0 && MaxOut(p) >= WINDOW_SIZE then [Ack(i)] else []
    ensures AckedOnly(p, q) && Acked(q, i)
    ensures forall j | 0 <= j < NR_CH && Acked(p, j) :: Acked(q, j)
  {
    hide Step;
    hide Serialize;
    hide Enabled;
    if acts != [] {
      assert acts[..0] == [];
      DoKeeps(p, acts[0]);
      SendEffect(p, acts[0]);
      OutgoingGrows(p.ch[TO_PEER], Serialize(MessageOf(p, acts[0])));
    }
  }

  lemma {:induction false} StaysQuiet(p: Peer, q: Peer, i: nat)
    requires i < NR_CH && Progress(p, q, 0) && Quiet(p, i)
    ensures Quiet(q, i)
  {
  }

  lemma {:induction false} ProgressShrinks(p: Peer, q: Peer, work: nat)
    requires Progress(p, q, work)
    ensures WellFormedPeer(p) && WellFormedPeer(q)
    ensures if work > 0 then Measure(q) < Measure(p) else Measure(q) <= Measure(p)
  {
  }

  // ----- The order of turns -----

  const UINT32_SIZE := 0x1_0000_0000

  type uint32 = x: int | 0 <= x < UINT32_SIZE

  function NextTurn(turn: uint32): uint32 {
    (turn + 1) % UINT32_SIZE
  }

  /** The channel visited k-th in a round. */
  function Turn(turn: nat, k: nat): (i: nat)
    ensures i < NR_CH
  {
    (k + turn) % UINT32_SIZE % NR_CH
  }

  predicate Visits(turn: nat, i: nat) {
    exists k: nat :: k < NR_CH && Turn(turn, k) == i
  }

  lemma {:induction false} VisitedWhen(turn: nat, i: nat)
    requires turn <= UINT32_SIZE - NR_CH && i < NR_CH
    ensures Visits(turn, i)
  {
    var r := turn % NR_CH;
    var k: nat := if i >= r then i - r else i + NR_CH - r;
    assert (k + turn) % NR_CH == i;
    assert Turn(turn, k) == i;
  }

  lemma {:induction false} PassedOver(turn: nat)
    requires UINT32_SIZE - NR_CH < turn < UINT32_SIZE
    ensures !Visits(turn, NR_CH - (UINT32_SIZE - turn))
  {
    var missed := NR_CH - (UINT32_SIZE - turn);
    forall k: nat | k < NR_CH
      ensures Turn(turn, k) != missed
    {
    }
  }

  /**
    A round visits every channel unless its counter overflows on the way: it
    wraps round at a number that five does not divide, and one channel is
    passed over.
   */
  lemma {:induction false} RoundVisits(turn: nat)
    requires turn < UINT32_SIZE
    ensures turn <= UINT32_SIZE - NR_CH <==> forall i: nat | i < NR_CH :: Visits(turn, i)
  {
    if turn <= UINT32_SIZE - NR_CH {
      forall i: nat | i < NR_CH
        ensures Visits(turn, i)
      {
        VisitedWhen(turn, i);
      }
    } else {
      PassedOver(turn);
    }
  }

  predicate AllQuiet(p: Peer)
    requires |p.ch| == NR_CH
  {
    forall i | 0 <= i < NR_CH :: Quiet(p, i)
  }

  predicate AllAcked(p: Peer)
    requires |p.ch| == NR_CH
  {
    forall i | 0 <= i < NR_CH :: Acked(p, i)
  }

  lemma {:induction false} QuietAround(p: Peer, turn: nat)
    requires |p.ch| == NR_CH && turn <= UINT32_SIZE - NR_CH
    requires forall k | 0 <= k < NR_CH :: Quiet(p, Turn(turn, k))
    ensures AllQuiet(p)
  {
    RoundVisits(turn);
    forall i: nat | i < NR_CH
      ensures Quiet(p, i)
    {
      assert Visits(turn, i);
    }
  }

  lemma {:induction false} AckedAround(p: Peer, turn: nat)
    requires |p.ch| == NR_CH && turn <= UINT32_SIZE - NR_CH
    requires forall k | 0 <= k < NR_CH :: Acked(p, Turn(turn, k))
    ensures AllAcked(p)
  {
    RoundVisits(turn);
    forall i: nat | i < NR_CH
      ensures Acked(p, i)
    {
      assert Visits(turn, i);
    }
  }

  // ----- The pump, put together -----

  ghost predicate Proceeds(p: Peer, q: Peer) {
    exists work :: Progress(p, q, work)
  }

  lemma {:induction false} ProceedsNone(p: Peer)
    requires WellFormedPeer(p)
    ensures Proceeds(p, p)
  {
    ProgressNone(p);
  }

  lemma {:induction false} ProceedsTogether(p: Peer, q: Peer, r: Peer)
    requires Proceeds(p, q) && Proceeds(q, r)
    ensures Proceeds(p, r)
  {
    var work :| Progress(p, q, work);
    var more :| Progress(q, r, more);
    ProgressTogether(p, q, work, r, more);
  }

  lemma {:induction false} AckedSame(p: Peer, q: Peer)
    requires AckedOnly(p, q)
    ensures WellFormedPeer(p) && WellFormedPeer(q) && DetectMsg(q) == DetectMsg(p)
    ensures Incoming(q).rb == Incoming(p).rb && Incoming(q).isOpen == Incoming(p).isOpen
  {
  }

  lemma {:induction false} ProgressSame(p: Peer, q: Peer)
    requires Proceeds(p, q)
    ensures WellFormedPeer(p) && WellFormedPeer(q) && DetectMsg(q) == DetectMsg(p)
    ensures Incoming(q).rb == Incoming(p).rb && Incoming(q).isOpen == Incoming(p).isOpen
    ensures AllAcked(p) ==> AllAcked(q)
  {
  }

  // ----- The channel to the peer, while the others take their turns -----

  /** The same streams are stuck or would be. */
  ghost predicate SameSticks(p: Peer, q: Peer) {
    |p.ch| == |q.ch| == NR_CH && forall i: nat | i < NR_CH :: WouldStick(p, i) <==> WouldStick(q, i)
  }

  ghost predicate SameWork(p: Peer, q: Peer) {
    |p.ch| == |q.ch| == NR_CH && forall i: nat | i < NR_CH :: NoWork(p, i) <==> NoWork(q, i)
  }

  /**
    What work does to the outgoing channel: it closes only while empty, and once
    it holds something it stays open. Until then, and once it is closed, the
    same streams are stuck or would be.
   */
  ghost predicate Course(p: Peer, q: Peer, work: nat) {
    && |p.ch| == |q.ch| == NR_CH
    && var o, r := p.ch[TO_PEER], q.ch[TO_PEER];
    && r.pendingClose == o.pendingClose
    && (!o.isOpen ==> !r.isOpen)
    && (!r.isOpen ==> SameSticks(p, q))
    && (r.isOpen && r.rb == [] ==> work == 0 && o.rb == [] && SameSticks(p, q) && SameWork(p, q))
    && (o.isOpen && o.rb != [] ==> r.isOpen && r.rb != [])
    && (o.isOpen && !o.pendingClose ==> r.isOpen)
    && (r.isOpen && work == 0 ==> r.rb == o.rb)
  }

  lemma {:induction false} CourseNone(p: Peer)
    requires |p.ch| == NR_CH
    ensures Course(p, p, 0)
  {
  }

  lemma {:induction false} CourseTogether(p: Peer, q: Peer, work: nat, r: Peer, more: nat)
    requires Course(p, q, work) && Course(q, r, more)
    ensures Course(p, r, work + more)
  {
    hide WouldStick;
    hide NoWork;
  }

  /** What xmit_data sends depends on the limit: nothing below the header, an empty message exactly at EmptyLimit. */
  predicate AsLimited(p: Peer, a: Action)
    requires |p.ch| == NR_CH
  {
    a.SendData? || a.SendLz4? ==>
      && a.i < NR_CH && MaxOut(p) >= LeastHeader(p.ch[a.i])
      && (a.n == 0 <==> MaxOut(p) == EmptyLimit(p.ch[a.i]))
  }

  /** What a buffered message does to the outgoing channel. */
  lemma {:induction false} OutgoingHolds(c: Chan, s: seq<byte>)
    requires Enabled(c, Written(s, 0)) && s != []
    ensures var d := Step(c, Written(s, 0));
            && d.isOpen == c.isOpen && d.pendingClose == c.pendingClose && (c.isOpen ==> d.rb != []) && (!c.isOpen ==> d == c)
  {
  }

  /** Data sent into a closed channel comes from a stream that is not stuck, and does not get stuck. */
  lemma {:induction false} SticksKept(p: Peer, q: Peer, a: Action, m: Msg)
    requires WellFormedPeer(p) && SendsAs(p, q, a, m) && AsLimited(p, a) && !p.ch[TO_PEER].isOpen
    requires a.SendData? || a.SendLz4? ==> a.n > 0
    requires a.SendData? || a.SendLz4? || a.SendEof?
    ensures SameSticks(p, q)
  {
    hide Serialize;
    OutgoingHolds(p.ch[TO_PEER], Serialize(m));
    assert ClosedLimit(q) == ClosedLimit(p) == MaxOut(p);
  }

  lemma {:induction false} CourseSent(p: Peer, q: Peer, a: Action, m: Msg)
    requires WellFormedPeer(p) && SendsAs(p, q, a, m) && AsLimited(p, a)
    requires (a.SendData? || a.SendLz4?) && !p.ch[TO_PEER].isOpen ==> a.n > 0
    requires a.SendData? || a.SendLz4? || a.SendEof?
    ensures Course(p, q, 1)
  {
    hide Serialize;
    hide SameWork;
    hide SameSticks;
    OutgoingHolds(p.ch[TO_PEER], Serialize(m));
    if !p.ch[TO_PEER].isOpen {
      SticksKept(p, q, a, m);
    }
  }

  lemma {:induction false} CourseSend(p: Peer, a: Action, q: Peer)
    requires WellFormedPeer(p) && RunPeer(p, [a]) == Some(q) && (a.SendData? || a.SendLz4? || a.SendEof?)
    requires AsLimited(p, a)
    requires (a.SendData? || a.SendLz4?) && !p.ch[TO_PEER].isOpen ==> a.n > 0
    ensures Course(p, q, 1)
  {
    hide Do;
    hide Possible;
    hide Step;
    hide Serialize;
    hide Enabled;
    hide SameWork;
    assert [a][..0] == [];
    assert Possible(p, a) && q == Do(p, a);
    SendEffect(p, a);
    CourseSent(p, q, a, MessageOf(p, a));
  }

  lemma {:induction false} SendKeepsOpen(p: Peer, a: Action, q: Peer)
    requires WellFormedPeer(p) && RunPeer(p, [a]) == Some(q) && IsSend(a)
    ensures |q.ch| == NR_CH && q.ch[TO_PEER].isOpen == p.ch[TO_PEER].isOpen
  {
    hide Do;
    hide Possible;
    hide Serialize;
    assert [a][..0] == [];
    SendEffect(p, a);
    OutgoingHolds(p.ch[TO_PEER], Serialize(MessageOf(p, a)));
  }

  /** A closed channel leaves a stream that is not stuck room for data. */
  lemma {:induction false} NotStuck(p: Peer, i: nat)
    requires WellFormedPeer(p) && IsStream(i) && !p.ch[i].toFd && p.ch[i].rb != []
    ensures !p.ch[TO_PEER].isOpen && !Stuck(p, i) ==> MaxOut(p) != EmptyLimit(p.ch[i])
  {
  }

  lemma {:induction false} CourseClose(p: Peer, i: nat, acts: seq<Action>, q: Peer)
    requires WellFormedPeer(p) && i < NR_CH && RunPeer(p, acts) == Some(q)
    requires var c := p.ch[i]; acts == if Closes(c) then [Io(i, Closed)] else []
    ensures Course(p, q, 0) && q == With(p, i, AfterPending(p.ch[i]))
  {
    if acts != [] {
      assert acts[..0] == [];
      assert q == With(p, i, p.ch[i].(isOpen := false));
    } else {
      CourseNone(p);
      assert q.ch == p.ch;
    }
  }

  // ----- One channel's turn -----

  /** The outgoing channel is empty and about to close. */
  predicate Leaving(p: Peer)
    requires |p.ch| == NR_CH
  {
    Closes(p.ch[TO_PEER])
  }

  /** Work that changed nothing. */
  function Vain(p: Peer, i: nat): nat
    requires |p.ch| == NR_CH
  {
    if Stuck(p, i) then 1 else 0
  }

  /** What channel i's turn makes of a peer. */
  ghost predicate ChannelStep(p: Peer, i: nat, q: Peer, work: nat) {
    && WellFormedPeer(p) && WellFormedPeer(q) && i < NR_CH
    && Vain(p, i) <= work
    && Progress(p, q, work - Vain(p, i)) && Course(p, q, work - Vain(p, i))
    && (work == 0 <==> NoWork(p, i))
    && (work == 0 ==> Quiet(q, i))
    && (i != TO_PEER ==> q.ch[TO_PEER].isOpen == p.ch[TO_PEER].isOpen)
    && (i == TO_PEER && Leaving(p) ==> !q.ch[TO_PEER].isOpen)
  }

  lemma {:induction false} ProgressWellFormed(p: Peer, q: Peer, work: nat)
    requires Progress(p, q, work)
    ensures WellFormedPeer(p) && WellFormedPeer(q)
  {
  }

  lemma {:induction false} TurnWork(p: Peer, i: nat, q: Peer, sent: nat, r: Peer, s: Peer, ended: nat)
    requires |p.ch| == |q.ch| == |r.ch| == NR_CH && i < NR_CH && (sent == 0 <==> Exhausted(p, i)) && (sent == 0 ==> q == p)
    requires IsOutgoing(p.ch[TO_PEER]) && r == With(q, i, AfterPending(q.ch[i])) && (ended == 0 ==> s == r)
    requires ended == 0 <==> !(OwesEof(r.ch[i]) && MaxOut(r) >= CLOSE_SIZE)
    ensures sent + ended == 0 <==> NoWork(p, i)
    ensures sent + ended == 0 ==> Quiet(s, i)
  {
    if sent == 0 {
      assert MaxOut(r) == MaxOut(p);
    }
  }

  /** A turn is made of xmit_data, do_pending_close and xmit_eof. */
  lemma {:induction false} ChannelTurn(p: Peer, i: nat, q: Peer, sent: nat, r: Peer, s: Peer, ended: nat)
    requires WellFormedPeer(p) && i < NR_CH && Vain(p, i) <= sent && (sent == 0 <==> Exhausted(p, i))
    requires Progress(p, q, sent - Vain(p, i)) && Course(p, q, sent - Vain(p, i)) && (sent == 0 ==> q == p)
    requires q.ch[TO_PEER].isOpen == p.ch[TO_PEER].isOpen
    requires Progress(q, r, 0) && Course(q, r, 0) && r == With(q, i, AfterPending(q.ch[i]))
    requires Progress(r, s, ended) && Course(r, s, ended) && (ended == 0 ==> s == r)
    requires ended == 0 <==> !(OwesEof(r.ch[i]) && MaxOut(r) >= CLOSE_SIZE)
    requires s.ch[TO_PEER].isOpen == r.ch[TO_PEER].isOpen
    ensures ChannelStep(p, i, s, sent + ended)
  {
    hide Progress;
    hide NoWork;
    hide Quiet;
    hide SameSticks;
    hide WellFormedPeer;
    hide WouldStick;
    hide SameWork;
    ProgressTogether(p, q, sent - Vain(p, i), r, 0);
    ProgressTogether(p, r, sent - Vain(p, i), s, ended);
    CourseTogether(p, q, sent - Vain(p, i), r, 0);
    CourseTogether(p, r, sent - Vain(p, i), s, ended);
    ProgressWellFormed(p, s, sent - Vain(p, i) + ended);
    TurnWork(p, i, q, sent, r, s, ended);
  }

  // ----- A round -----

  /** The outgoing channel has not been visited, and no other has had anything to do. */
  predicate Untouched(p: Peer, turn: nat, k: nat)
    requires |p.ch| == NR_CH
  {
    forall j: nat | j < k :: Turn(turn, j) != TO_PEER && NoWork(p, Turn(turn, j))
  }

  /** Of the first k channels visited, the outgoing one comes before any that has something to do. */
  predicate ClosesBy(p: Peer, turn: nat, k: nat)
    requires |p.ch| == NR_CH
  {
    exists j: nat :: j < k && Untouched(p, turn, j) && Turn(turn, j) == TO_PEER
  }

  predicate VisitsStick(p: Peer, turn: nat, k: nat)
    requires |p.ch| == NR_CH
  {
    exists j: nat :: j < k && WouldStick(p, Turn(turn, j))
  }

  /** The outgoing channel is closed, or open and empty. */
  predicate Empty(p: Peer)
    requires |p.ch| == NR_CH
  {
    !p.ch[TO_PEER].isOpen || p.ch[TO_PEER].rb == []
  }

  /** What the first k turns of a round make of a peer; 'vain' of their work changed nothing. */
  ghost predicate RoundSoFar(p: Peer, turn: nat, k: nat, q: Peer, work: nat, vain: nat) {
    && WellFormedPeer(p) && WellFormedPeer(q) && vain <= work
    && Progress(p, q, work - vain) && Course(p, q, work - vain)
    && (vain > 0 ==> !q.ch[TO_PEER].isOpen && VisitsStick(q, turn, k))
    && (Empty(p) && VisitsStick(p, turn, k) ==> work > 0)
    && (Leaving(p) ==> (!q.ch[TO_PEER].isOpen <==> ClosesBy(p, turn, k)))
    && (Leaving(p) ==> (q.ch[TO_PEER].isOpen && q.ch[TO_PEER].rb == [] <==> Untouched(p, turn, k)))
    && (work == 0 ==> forall j: nat | j < k :: Quiet(q, Turn(turn, j)))
  }

  lemma {:induction false} RoundBegins(p: Peer, turn: nat)
    requires WellFormedPeer(p)
    ensures RoundSoFar(p, turn, 0, p, 0, 0)
  {
    ProgressNone(p);
    CourseNone(p);
  }

  lemma {:induction false} VainMore(p: Peer, turn: nat, k: nat, q: Peer, work: nat, vain: nat, r: Peer, did: nat)
    requires RoundSoFar(p, turn, k, q, work, vain) && ChannelStep(q, Turn(turn, k), r, did)
    requires vain + Vain(q, Turn(turn, k)) > 0
    ensures !r.ch[TO_PEER].isOpen && VisitsStick(r, turn, k + 1)
  {
    hide Progress;
    hide NoWork;
    hide Quiet;
    hide WellFormedPeer;
    hide Turn;
    var i := Turn(turn, k);
    if Vain(q, i) > 0 {
      assert WouldStick(r, i);
    } else {
      var j: nat :| j < k && WouldStick(q, Turn(turn, j));
      assert WouldStick(r, Turn(turn, j));
    }
  }

  /** With an outgoing limit that leaves no room for data, a stream with data has work nonetheless. */
  lemma {:induction false} StickWorks(p: Peer, i: nat)
    requires WellFormedPeer(p) && WouldStick(p, i) && Empty(p)
    ensures !NoWork(p, i)
  {
  }

  lemma {:induction false} StickFound(p: Peer, turn: nat, k: nat, q: Peer, work: nat, vain: nat, r: Peer, did: nat)
    requires RoundSoFar(p, turn, k, q, work, vain) && ChannelStep(q, Turn(turn, k), r, did)
    ensures Empty(p) && VisitsStick(p, turn, k + 1) ==> work + did > 0
  {
    hide Progress;
    hide NoWork;
    hide Quiet;
    hide WouldStick;
    hide Turn;
    if Empty(p) && VisitsStick(p, turn, k + 1) && work == 0 {
      assert !VisitsStick(p, turn, k);
      var j: nat :| j < k + 1 && WouldStick(p, Turn(turn, j));
      assert j == k;
      assert SameSticks(p, q) && Empty(q);
      StickWorks(q, Turn(turn, k));
    }
  }

  lemma {:induction false} LeavingMore(p: Peer, turn: nat, k: nat, q: Peer, work: nat, vain: nat, r: Peer, did: nat)
    requires RoundSoFar(p, turn, k, q, work, vain) && ChannelStep(q, Turn(turn, k), r, did) && Leaving(p)
    ensures !r.ch[TO_PEER].isOpen <==> ClosesBy(p, turn, k + 1)
    ensures r.ch[TO_PEER].isOpen && r.ch[TO_PEER].rb == [] <==> Untouched(p, turn, k + 1)
  {
    hide Progress;
    hide NoWork;
    hide Quiet;
    hide WouldStick;
    hide Turn;
  }

  lemma {:induction false} QuietMore(turn: nat, k: nat, q: Peer, r: Peer)
    requires ChannelStep(q, Turn(turn, k), r, 0) && forall j: nat | j < k :: Quiet(q, Turn(turn, j))
    ensures forall j: nat | j < k + 1 :: Quiet(r, Turn(turn, j))
  {
    hide Turn;
    forall j: nat | j < k + 1
      ensures Quiet(r, Turn(turn, j))
    {
      if j < k {
        StaysQuiet(q, r, Turn(turn, j));
      }
    }
  }

  lemma {:induction false} RoundGoesOn(p: Peer, turn: nat, k: nat, q: Peer, work: nat, vain: nat, r: Peer, did: nat)
    requires RoundSoFar(p, turn, k, q, work, vain) && ChannelStep(q, Turn(turn, k), r, did)
    ensures RoundSoFar(p, turn, k + 1, r, work + did, vain + Vain(q, Turn(turn, k)))
  {
    hide Progress;
    hide WouldStick;
    hide NoWork;
    hide Quiet;
    hide WellFormedPeer;
    hide Turn;
    var i := Turn(turn, k);
    ProgressTogether(p, q, work - vain, r, did - Vain(q, i));
    CourseTogether(p, q, work - vain, r, did - Vain(q, i));
    if vain + Vain(q, i) > 0 {
      VainMore(p, turn, k, q, work, vain, r, did);
    }
    StickFound(p, turn, k, q, work, vain, r, did);
    if Leaving(p) {
      LeavingMore(p, turn, k, q, work, vain, r, did);
    }
    if work + did == 0 {
      QuietMore(turn, k, q, r);
    }
  }

  // ----- Whether the rounds come to an end -----

  /** A whole round; it is the last one if it has found nothing to do. */
  ghost predicate Round(p: Peer, turn: uint32, q: Peer, more: bool) {
    exists work: nat, vain: nat :: RoundSoFar(p, turn, NR_CH, q, work, vain) && (more <==> work > 0)
  }

  predicate TwoStick(p: Peer)
    requires |p.ch| == NR_CH
  {
    exists i: nat, j: nat :: i < j < NR_CH && WouldStick(p, i) && WouldStick(p, j)
  }

  /**
    Rounds follow each other for ever: the channel to the peer is closed, or will
    close in this round before anything has been sent, and two streams are stuck.
    A single one is not enough, because the counter of turns overflows in time.
   */
  predicate Endless(p: Peer, turn: uint32)
    requires |p.ch| == NR_CH
  {
    TwoStick(p) && (!p.ch[TO_PEER].isOpen || (Leaving(p) && ClosesBy(p, turn, NR_CH)))
  }

  /** The only turn at which a round passes over channel i. */
  lemma {:induction false} VisitsUnless(turn: uint32, i: nat)
    requires 0 < i < NR_CH
    ensures Visits(turn, i) <==> turn != UINT32_SIZE - NR_CH + i
  {
    if turn <= UINT32_SIZE - NR_CH {
      VisitedWhen(turn, i);
    } else {
      PassedOver(turn);
      var left := UINT32_SIZE - turn;
      if i != NR_CH - left {
        var k: nat := if i > NR_CH - left then i - (NR_CH - left) - 1 else i + left;
        assert Turn(turn, k) == i;
      }
    }
  }

  /** Of two streams a round visits at least one. */
  lemma {:induction false} OneIsVisited(p: Peer, turn: uint32)
    requires |p.ch| == NR_CH && TwoStick(p)
    ensures VisitsStick(p, turn, NR_CH)
  {
    hide Turn;
    var i: nat, j: nat :| i < j < NR_CH && WouldStick(p, i) && WouldStick(p, j);
    VisitsUnless(turn, i);
    VisitsUnless(turn, j);
    var k: nat :| k < NR_CH && (Turn(turn, k) == i || Turn(turn, k) == j);
  }

  /** A round that visits a stuck stream is not the last, and leaves it stuck. */
  lemma {:induction false} StuckRound(p: Peer, turn: uint32, q: Peer, more: bool)
    requires |p.ch| == |q.ch| == NR_CH && Round(p, turn, q, more)
    requires !p.ch[TO_PEER].isOpen && VisitsStick(p, turn, NR_CH)
    ensures more && !q.ch[TO_PEER].isOpen && SameSticks(p, q)
  {
    hide Progress;
    hide WouldStick;
    hide NoWork;
    hide Quiet;
    hide Turn;
    var work: nat, vain: nat :| RoundSoFar(p, turn, NR_CH, q, work, vain) && (more <==> work > 0);
  }

  /** A closed channel that is empty and has nothing left to announce. */
  function Done(toFd: bool): Chan {
    Chan(false, toFd, [], 4096, 0, 0, AdbEnc.Plain, true, true, false, toFd, false, false, false, false)
  }

  function Sending(compress: bool): Chan {
    Chan(false, false, seq(MIN_COMPRESSION_BLOCK, i => 0), 4096, 0, 4096, AdbEnc.Plain, false, true, false, false, false, true,
         false, compress)
  }

  /** The end that runs the command: what is left of its output and errors has nowhere to go. */
  function Abandoned(compress: bool): Peer {
    Peer([Done(false), Done(true), Done(true), Sending(compress), Sending(compress)], if compress then LZ4_HEADER + 1 else DATA_HEADER)
  }

  /** There are peers for which the pump has no last round, with compression and without. */
  lemma {:induction false} AbandonedEndless(compress: bool, turn: uint32)
    ensures WellFormedPeer(Abandoned(compress)) && Endless(Abandoned(compress), turn)
  {
    var p := Abandoned(compress);
    assert WouldStick(p, 3) && WouldStick(p, 4);
  }

  /** The rounds have no end, or would have none if nothing were sent before the outgoing channel closes. */
  predicate MayBeEndless(p: Peer)
    requires |p.ch| == NR_CH
  {
    TwoStick(p) && (!p.ch[TO_PEER].isOpen || (p.ch[TO_PEER].pendingClose && p.ch[TO_PEER].rb == []))
  }

  /** An end with at most one stream to send, as the one that starts the command is, always has one. */
  lemma {:induction false} OneSenderEnds(p: Peer, i: nat)
    requires |p.ch| == NR_CH && forall j | 0 <= j < NR_CH && IsStream(j) && j != i :: p.ch[j].toFd
    ensures !MayBeEndless(p) && forall turn: uint32 :: !Endless(p, turn)
  {
  }

  /** The first stream that is or would be stuck. */
  function FirstStick(p: Peer): nat
    requires |p.ch| == NR_CH
  {
    if WouldStick(p, 2) then 2 else if WouldStick(p, 3) then 3 else if WouldStick(p, 4) then 4 else 0
  }

  lemma {:induction false} SticksSame(p: Peer, q: Peer)
    requires SameSticks(p, q)
    ensures TwoStick(p) <==> TwoStick(q)
    ensures FirstStick(p) == FirstStick(q)
  {
  }

  /** Where the rounds have no end, each does some work and the next has no end either. */
  lemma {:induction false} EndlessGoesOn(p: Peer, turn: uint32, q: Peer, more: bool)
    requires |p.ch| == |q.ch| == NR_CH && Endless(p, turn) && Round(p, turn, q, more)
    ensures more && Endless(q, NextTurn(turn)) && !q.ch[TO_PEER].isOpen && SameSticks(p, q)
  {
    hide Progress;
    hide WouldStick;
    hide TwoStick;
    hide NoWork;
    hide Quiet;
    hide Turn;
    OneIsVisited(p, turn);
    var work: nat, vain: nat :| RoundSoFar(p, turn, NR_CH, q, work, vain) && (more <==> work > 0);
    SticksSame(p, q);
  }

  /** The number of rounds until one passes over the stuck stream. */
  function Distance(p: Peer, turn: uint32): (d: nat)
    requires |p.ch| == NR_CH
    ensures d < UINT32_SIZE
  {
    var i := FirstStick(p);
    var skip := UINT32_SIZE - NR_CH + i;
    if i == 0 then 0 else if turn <= skip then skip - turn else skip - turn + UINT32_SIZE
  }

  function Rank(p: Peer, turn: uint32): nat
    requires WellFormedPeer(p)
  {
    Measure(p) * UINT32_SIZE + Distance(p, turn)
  }

  lemma {:induction false} MeasureDrops(p: Peer, turn: uint32, q: Peer, next: uint32)
    requires WellFormedPeer(p) && WellFormedPeer(q) && Measure(q) < Measure(p)
    ensures Rank(q, next) < Rank(p, turn)
  {
    hide Measure;
    hide Distance;
    assert (Measure(q) + 1) * UINT32_SIZE <= Measure(p) * UINT32_SIZE;
  }

  /** A round that visits the only stuck stream comes nearer to the one that does not. */
  lemma {:induction false} DistanceDrops(p: Peer, turn: uint32, q: Peer)
    requires |p.ch| == |q.ch| == NR_CH && SameSticks(p, q) && !TwoStick(q) && VisitsStick(q, turn, NR_CH)
    ensures Distance(q, NextTurn(turn)) < Distance(p, turn)
  {
    hide Turn;
    SticksSame(p, q);
    var k: nat :| k < NR_CH && WouldStick(q, Turn(turn, k));
    var i := Turn(turn, k);
    assert FirstStick(q) == i by {
      assert WouldStick(q, FirstStick(q));
    }
    assert Visits(turn, i);
    VisitsUnless(turn, i);
  }

  /** Otherwise each round but the last lowers the rank, and the next one's end is as sure. */
  lemma {:induction false} EndComesNearer(p: Peer, turn: uint32, q: Peer)
    requires |p.ch| == |q.ch| == NR_CH && !Endless(p, turn) && Round(p, turn, q, true)
    ensures WellFormedPeer(p) && WellFormedPeer(q)
    ensures Rank(q, NextTurn(turn)) < Rank(p, turn) && !Endless(q, NextTurn(turn))
  {
    hide WouldStick;
    hide TwoStick;
    hide NoWork;
    hide Quiet;
    hide Turn;
    hide ClosesBy;
    hide Untouched;
    hide VisitsStick;
    hide Distance;
    var work: nat, vain: nat :| RoundSoFar(p, turn, NR_CH, q, work, vain) && work > 0;
    ProgressShrinks(p, q, work - vain);
    if !q.ch[TO_PEER].isOpen {
      SticksSame(p, q);
    }
    if Measure(q) < Measure(p) {
      MeasureDrops(p, turn, q, NextTurn(turn));
    } else {
      DistanceDrops(p, turn, q);
    }
  }

  /** The last round leaves every channel quiet that it has visited. */
  lemma {:induction false} LastRoundQuiet(p: Peer, turn: uint32, q: Peer)
    requires |q.ch| == NR_CH && Round(p, turn, q, false) && turn <= UINT32_SIZE - NR_CH
    ensures AllQuiet(q)
  {
    hide Quiet;
    hide Turn;
    var work: nat, vain: nat :| RoundSoFar(p, turn, NR_CH, q, work, vain) && work == 0;
    QuietAround(q, turn);
  }

  /** After k rounds, that end is sure and nearer, or there is none. */
  ghost predicate AfterRounds(p: Peer, turn: uint32, k: nat, q: Peer, next: uint32, ended: bool) {
    && WellFormedPeer(p) && WellFormedPeer(q)
    && if Endless(p, turn) then !ended && Endless(q, next) && SameSticks(p, q) && (k > 0 ==> !q.ch[TO_PEER].isOpen)
       else !ended ==> !Endless(q, next) && Rank(q, next) + k <= Rank(p, turn)
  }

  lemma {:induction false} SameSticksTogether(p: Peer, q: Peer, r: Peer)
    requires SameSticks(p, q) && SameSticks(q, r)
    ensures SameSticks(p, r)
  {
    hide WouldStick;
  }

  lemma {:induction false} OneRoundMore(p: Peer, turn: uint32, k: nat, q: Peer, next: uint32, r: Peer, more: bool)
    requires AfterRounds(p, turn, k, q, next, false) && Round(q, next, r, more) && WellFormedPeer(r)
    ensures AfterRounds(p, turn, k + 1, r, NextTurn(next), !more)
  {
    hide Rank;
    hide Round;
    hide Endless;
    hide SameSticks;
    if Endless(p, turn) {
      EndlessGoesOn(q, next, r, more);
      SameSticksTogether(p, q, r);
    } else if more {
      EndComesNearer(q, next, r);
    }
  }

  lemma {:induction false} NoRoundsYet(p: Peer, turn: uint32)
    requires WellFormedPeer(p)
    ensures AfterRounds(p, turn, 0, p, turn, false)
  {
  }

  lemma {:induction false} SoManyRounds(p: Peer, turn: uint32, k: nat, q: Peer, next: uint32, ended: bool)
    requires AfterRounds(p, turn, k, q, next, ended)
    ensures WellFormedPeer(p) && WellFormedPeer(q)
    ensures Endless(p, turn) ==> !ended && SameSticks(p, q) && (k > 0 ==> !q.ch[TO_PEER].isOpen)
    ensures !Endless(p, turn) && !ended ==> k <= Rank(p, turn)
  {
  }

  lemma {:induction false} RoundProceeds(p: Peer, turn: uint32, q: Peer, more: bool)
    requires Round(p, turn, q, more)
    ensures Proceeds(p, q)
  {
    var work: nat, vain: nat :| RoundSoFar(p, turn, NR_CH, q, work, vain) && (more <==> work > 0);
    assert Progress(p, q, work - vain);
  }

  // ----- What comes before the rounds -----

  /** Nothing has happened that bears on whether streams are stuck. */
  ghost predicate Spares(p: Peer, q: Peer) {
    && |p.ch| == |q.ch| == NR_CH && SameSticks(p, q)
    && q.ch[TO_PEER].isOpen == p.ch[TO_PEER].isOpen && q.ch[TO_PEER].pendingClose == p.ch[TO_PEER].pendingClose
    && (p.ch[TO_PEER].rb != [] ==> q.ch[TO_PEER].rb != [])
  }

  lemma {:induction false} SparesNone(p: Peer)
    requires |p.ch| == NR_CH
    ensures Spares(p, p)
  {
  }

  lemma {:induction false} ConsumeSpares(p: Peer, n: nat)
    requires |p.ch| == NR_CH && n <= |Incoming(p).rb|
    ensures Spares(p, Consume(p, n))
  {
  }

  lemma {:induction false} DeliverDataSpares(p: Peer, i: nat, data: seq<byte>, direct: nat)
    requires WellFormedPeer(p) && DeliverData(p, i, data, direct).Delivered?
    ensures Spares(p, DeliverData(p, i, data, direct).peer)
  {
  }

  /** Messages are never about data that is to be sent. */
  lemma {:induction false} DeliverSpares(p: Peer, m: Msg, direct: nat)
    requires WellFormedPeer(p) && Deliver(p, m, direct).Delivered?
    ensures Spares(p, Deliver(p, m, direct).peer)
  {
    hide Decode;
    match m {
      case Data(i, payload) => DeliverDataSpares(p, i, payload, direct);
      case DataLz4(i, size, block) =>
        if IsStream(i) && p.ch[i].isOpen {
          DeliverDataSpares(p, i, Decode(block, size).text, direct);
        }
      case Window(i, delta) =>
      case Close(i) =>
    }
  }

  lemma {:induction false} AckSpares(p: Peer, i: nat, acts: seq<Action>, q: Peer)
    requires WellFormedPeer(p) && i < NR_CH && RunPeer(p, acts) == Some(q)
    requires acts == if p.ch[i].bytesWritten > 0 && MaxOut(p) >= WINDOW_SIZE then [Ack(i)] else []
    ensures Spares(p, q)
  {
    hide Step;
    hide Serialize;
    hide Enabled;
    if acts != [] {
      assert acts[..0] == [];
      DoKeeps(p, acts[0]);
      SendEffect(p, acts[0]);
      OutgoingHolds(p.ch[TO_PEER], Serialize(MessageOf(p, acts[0])));
      OutgoingGrows(p.ch[TO_PEER], Serialize(MessageOf(p, acts[0])));
    } else {
      SparesNone(p);
    }
  }

  lemma {:induction false} SparesTogether(p: Peer, q: Peer, r: Peer)
    requires Spares(p, q) && Spares(q, r)
    ensures Spares(p, r)
  {
    hide WouldStick;
  }

  lemma {:induction false} EndlessMayBe(p: Peer, q: Peer, turn: uint32)
    requires Spares(p, q)
    ensures Endless(q, turn) ==> MayBeEndless(p)
    ensures !p.ch[TO_PEER].isOpen ==> (Endless(q, turn) <==> MayBeEndless(p))
  {
    hide WouldStick;
    SticksSame(p, q);
  }

  /** Where two streams would stick, the empty outgoing channel has no room for an acknowledgement. */
  lemma {:induction false} NoRoomForAcks(p: Peer)
    requires WellFormedPeer(p) && TwoStick(p) && p.ch[TO_PEER].rb == []
    ensures MaxOut(p) < WINDOW_SIZE
  {
    var i: nat, j: nat :| i < j < NR_CH && WouldStick(p, i) && WouldStick(p, j);
    assert EmptyLimit(p.ch[i]) < WINDOW_SIZE;
  }

  /** So acknowledgements never decide whether the rounds have an end, nor put it off. */
  lemma {:induction false} AcksKeepEnd(p: Peer, q: Peer, turn: uint32)
    requires Spares(p, q) && AckedOnly(p, q) && (MaxOut(p) < WINDOW_SIZE ==> q == p)
    ensures WellFormedPeer(p) && WellFormedPeer(q) && Rank(q, turn) <= Rank(p, turn)
    ensures Endless(p, turn) <==> Endless(q, turn)
  {
    hide WouldStick;
    hide Untouched;
    hide ClosesBy;
    hide Measure;
    hide MaxOut;
    SticksSame(p, q);
    if TwoStick(p) && p.ch[TO_PEER].rb == [] {
      NoRoomForAcks(p);
    }
    assert Distance(p, turn) == Distance(q, turn);
  }
}
