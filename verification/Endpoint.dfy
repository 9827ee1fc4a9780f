/**
  The event loop's pump (core.c): it processes what has been received, then
  acknowledges, sends data and ends streams until nothing more can be sent.
  Every method is shown to do pieces of work that module Peer defines.
 */
module Endpoint {
  import opened Wrappers
  import opened Bytes
  import opened Messages
  import opened Channels
  import opened Peer
  import opened PumpRounds
  import opened Lz4Format
  import Lz4Decoder
  import Lz4Compressor

  // ----- Messages that cannot be processed -----

  /** A compressed block with a zero offset makes the decoder copy what its output buffer happened to hold. */
  predicate Garbled(m: Msg) {
    m.DataLz4? && Decode(m.block, m.size).ZeroOffset?
  }

  ghost predicate Misread(p: Peer, m: Msg, direct: nat, q: Peer)
    requires WellFormedPeer(p)
  {
    && Garbled(m) && Deliver(p, m, 0) == Died
    && exists data :: DeliverData(p, m.ch, data, direct) == Delivered(q)
  }

  /** What processing m may make of peer p. */
  ghost predicate Processed(p: Peer, m: Msg, died: bool, direct: nat, q: Peer)
    requires WellFormedPeer(p)
  {
    if died then Deliver(p, m, 0) == Died && q == p
    else Deliver(p, m, direct) == Delivered(q) || Misread(p, m, direct, q)
  }

  /** The message at the front of the receive buffer is garbled, and no honest peer can have sent it. */
  predicate GarbledFirst(p: Peer)
    requires WellFormedPeer(p)
  {
    && DetectMsg(p).Ready? && Receive(p, 0) == Died
    && var parsed := Parse(Incoming(p).rb, DetectMsg(p).size);
    parsed.Parsed? && Garbled(parsed.msg)
  }

  /** The pump cannot go on from here. */
  predicate Fatal(p: Peer)
    requires WellFormedPeer(p)
  {
    DetectMsg(p).Impossible? || (DetectMsg(p).Ready? && Receive(p, 0).Died?)
  }

  lemma {:induction false} TooShort(block: seq<byte>, capacity: nat)
    requires block == [] || (|block| == 1 && block[0] >= 240)
    ensures Decode(block, capacity).Malformed?
  {
    if block != [] && capacity > 0 {
      assert block[1..] == [];
      assert ReadLiteralLength([], RUN_MASK) == Truncated(0);
    }
  }

  lemma {:induction false} MalformedBlock(block: seq<byte>, capacity: nat)
    ensures Decode(block, capacity).Malformed? ==> Decode(block, capacity).left <= |block|
  {
    if capacity > 0 {
      MalformedLeft(block, [], capacity);
    }
  }

  lemma {:induction false} ParsedSize(rb: seq<byte>, size: nat)
    requires HEADER <= |rb| && size <= |rb| && Parse(rb, size).Parsed?
    ensures size >= DATA_HEADER
  {
  }

  lemma {:induction false} ConsumeKeeps(p: Peer, n: nat)
    requires WellFormedPeer(p) && n <= |Incoming(p).rb|
    ensures WellFormedPeer(Consume(p, n))
  {
  }

  lemma {:induction false} ProcessedKeeps(p: Peer, m: Msg, died: bool, direct: nat, q: Peer)
    requires WellFormedPeer(p) && Processed(p, m, died, direct, q) && !died
    ensures WellFormedPeer(q) && q.ch[FROM_PEER] == p.ch[FROM_PEER]
  {
    if Deliver(p, m, direct) == Delivered(q) {
      DeliverKeeps(p, m, direct);
    } else {
      var data :| DeliverData(p, m.ch, data, direct) == Delivered(q);
      DeliverDataKeeps(p, m.ch, data, direct);
    }
  }

  lemma {:induction false} ProcessedSpares(p: Peer, m: Msg, died: bool, direct: nat, q: Peer)
    requires WellFormedPeer(p) && Processed(p, m, died, direct, q)
    ensures Spares(p, q)
  {
    if died {
      SparesNone(p);
    } else if Deliver(p, m, direct) == Delivered(q) {
      DeliverSpares(p, m, direct);
    } else {
      var data :| DeliverData(p, m.ch, data, direct) == Delivered(q);
      DeliverDataSpares(p, m.ch, data, direct);
    }
  }

  // ----- What receiving may make of a peer -----

  /** The first message has been misread: its block was decoded with what the buffer happened to hold. */
  ghost predicate MisreadFirst(p: Peer, direct: nat, q: Peer)
    requires WellFormedPeer(p)
  {
    && GarbledFirst(p)
    && var size := DetectMsg(p).size;
    && WellFormedPeer(Consume(p, size))
    && Misread(Consume(p, size), Parse(Incoming(p).rb, size).msg, direct, q)
  }

  /** The first message has been processed. */
  ghost predicate Taken(p: Peer, q: Peer) {
    && WellFormedPeer(p) && WellFormedPeer(q) && DetectMsg(p).Ready? && Spares(p, q)
    && exists direct :: Receive(p, direct) == Delivered(q) || MisreadFirst(p, direct, q)
  }

  /** From one of these peers to the next, a message has been processed. */
  ghost predicate TakenOneByOne(ps: seq<Peer>) {
    forall i | 0 <= i < |ps| - 1 :: Taken(ps[i], ps[i + 1])
  }

  /** A peer that is gone will not complete its message. */
  function Dropped(p: Peer): Peer
    requires |p.ch| == NR_CH
  {
    if Incoming(p).isOpen then p else Consume(p, |Incoming(p).rb|)
  }

  ghost predicate Receiving(p: Peer, ps: seq<Peer>) {
    && ps != [] && ps[0] == p && TakenOneByOne(ps) && |ps[|ps| - 1].ch| == NR_CH
    && DetectMsg(ps[|ps| - 1]).NotYet?
  }

  /** All whole messages have been processed, with some bytes of each passed straight on, and what is left of a peer that is gone dropped. */
  ghost predicate MayBecome(p: Peer, q: Peer) {
    exists ps :: Receiving(p, ps) && q == Dropped(ps[|ps| - 1])
  }

  lemma {:induction false} BecomesDropped(p: Peer, ps: seq<Peer>)
    requires Receiving(p, ps)
    ensures MayBecome(p, Dropped(ps[|ps| - 1]))
  {
  }

  lemma {:induction false} OneMoreTaken(ps: seq<Peer>, q: Peer)
    requires ps != [] && TakenOneByOne(ps) && Taken(ps[|ps| - 1], q)
    ensures TakenOneByOne(ps + [q])
  {
    hide Taken;
  }

  lemma {:induction false} ReceivingSpares(ps: seq<Peer>)
    requires ps != [] && TakenOneByOne(ps) && |ps[0].ch| == NR_CH
    ensures Spares(ps[0], ps[|ps| - 1])
    decreases |ps|
  {
    hide Spares;
    if |ps| == 1 {
      SparesNone(ps[0]);
    } else {
      ReceivingSpares(ps[..|ps| - 1]);
      assert Taken(ps[|ps| - 2], ps[|ps| - 1]);
      SparesTogether(ps[0], ps[|ps| - 2], ps[|ps| - 1]);
    }
  }

  /** Whatever receiving makes of a peer, its rounds have an end unless they may be endless from the start; for a closed outgoing channel, exactly then. */
  lemma {:induction false} EndlessIfMayBe(p: Peer, q: Peer, turn: uint32)
    requires |p.ch| == NR_CH && MayBecome(p, q)
    ensures |q.ch| == NR_CH && (Endless(q, turn) ==> MayBeEndless(p))
    ensures !p.ch[TO_PEER].isOpen ==> (Endless(q, turn) <==> MayBeEndless(p))
  {
    hide Endless;
    hide MayBeEndless;
    hide Spares;
    var ps :| Receiving(p, ps) && q == Dropped(ps[|ps| - 1]);
    var r := ps[|ps| - 1];
    ReceivingSpares(ps);
    SparesNone(r);
    ConsumeSpares(r, |Incoming(r).rb|);
    SparesTogether(p, r, q);
    EndlessMayBe(p, q, turn);
  }

  // ----- What the pump does, in pieces of work -----

  lemma {:induction false} BlockPossible(p: Peer, i: nat, n: nat, block: seq<byte>)
    requires WellFormedPeer(p) && IsStream(i) && !p.ch[i].toFd && 0 < n <= |p.ch[i].rb| && n <= UINT16_MAX
    requires Decode(block, n) == Text(p.ch[i].rb[..n]) && LZ4_HEADER + |block| <= MaxOut(p) && |block| + LZ4_HEADER < n + DATA_HEADER
    ensures Possible(p, SendLz4(i, n, block))
  {
    hide Decode;
  }

  /** The actions lead from p to 'at': to what there is now, or to a message that cannot be processed. */
  ghost predicate Tracks(p: Peer, acts: seq<Action>, at: Peer, fatal: bool, now: Peer) {
    && WellFormedPeer(at) && RunPeer(p, acts) == Some(at)
    && if fatal then Fatal(at) else at == now
  }

  lemma {:induction false} FatalNow(p: Peer)
    requires WellFormedPeer(p) && DetectMsg(p).Ready? && (Receive(p, 0) == Died || GarbledFirst(p))
    ensures Fatal(p)
  {
  }

  lemma {:induction false} OneTaken(p: Peer, acts: seq<Action>, q: Peer, direct: nat)
    requires WellFormedPeer(q) && RunPeer(p, acts) == Some(q)
    requires DetectMsg(q).Ready? && Receive(q, direct).Delivered?
    ensures RunPeer(p, acts + [Take(direct)]) == Some(Receive(q, direct).peer)
  {
    OneMoreAct(p, acts, q, Take(direct));
  }

  lemma {:induction false} TracksMore(p: Peer, acts: seq<Action>, at: Peer, fatal: bool, now: Peer,
                                      done: seq<Action>, next: Peer)
      returns (more: seq<Action>, after: Peer)
    requires Tracks(p, acts, at, fatal, now) && RunPeer(now, done) == Some(next) && WellFormedPeer(next)
    ensures Tracks(p, more, after, fatal, next)
  {
    more, after := acts, at;
    if !fatal {
      RunPeerAppend(p, acts, now, done);
      more, after := acts + done, next;
    }
  }

  // ----- struct fb_adb_sh -----

  class FbAdbSh {
    const ch: seq<Channel>
    const maxOutgoing: nat
    var turn: uint32

    ghost function State(): (p: Peer)
      reads ch
      ensures |p.ch| == |ch|
    {
      Peer(seq(|ch|, i requires 0 <= i < |ch| reads ch => ch[i].State()), maxOutgoing)
    }

    ghost predicate Valid()
      reads ch
    {
      && |ch| == NR_CH
      && (forall i, j | 0 <= i < j < NR_CH :: ch[i] != ch[j])
      && WellFormedPeer(State())
    }

    constructor (ch: seq<Channel>, maxOutgoing: nat)
      ensures this.ch == ch && this.maxOutgoing == maxOutgoing && turn == 0
    {
      this.ch, this.maxOutgoing, turn := ch, maxOutgoing, 0;
    }

    function MaxOutMsg(): (n: int)
      requires |ch| == NR_CH
      reads ch
      ensures n == MaxOut(State())
    {
      Min(maxOutgoing, ch[TO_PEER].RoomLeft())
    }

    /** Queues a message in the channel to the peer. */
    method Post(m: Msg)
      requires Valid() && Fits(State(), m)
      modifies ch[TO_PEER]
      ensures State() == Send(old(State()), m)
      ensures Valid()
    {
      SendKeeps(State(), m);
      ghost var direct := ch[TO_PEER].Write(Serialize(m));
      assert direct == 0;
      assert State() == Send(old(State()), m);
    }

    /** The channels after one of them has changed. */
    twostate lemma {:induction false} OneChanged(i: nat)
      requires |ch| == NR_CH && i < NR_CH
      requires forall j | 0 <= j < NR_CH && j != i :: old(ch[j].State()) == ch[j].State()
      ensures State() == With(old(State()), i, ch[i].State())
    {
    }

    /** xmit_acks */
    method XmitAcks(i: nat) returns (ghost acts: seq<Action>)
      requires Valid() && i < NR_CH
      modifies ch
      ensures Valid()
      ensures acts == if old(ch[i].bytesWritten) > 0 && old(MaxOutMsg()) >= WINDOW_SIZE then [Ack(i)] else []
      ensures RunPeer(old(State()), acts) == Some(State())
    {
      hide Step;
      hide Serialize;
      hide Enabled;
      acts := [];
      ghost var p := State();
      assert WellFormedPeer(p) && Sound(p.ch[i]);
      if ch[i].bytesWritten > 0 && MaxOutMsg() >= WINDOW_SIZE {
        OneAct(p, Ack(i));
        DoKeeps(p, Ack(i));
        Post(Window(i, ch[i].bytesWritten));
        label posted:
        ch[i].bytesWritten := 0;
        OneChanged@posted(i);
        acts := [Ack(i)];
        assert State() == Do(p, Ack(i));
      }
    }

    /** xmit_eof */
    method XmitEof(i: nat) returns (work: nat, ghost acts: seq<Action>)
      requires Valid() && i < NR_CH
      modifies ch
      ensures Valid()
      ensures acts == if OwesEof(old(ch[i].State())) && old(MaxOutMsg()) >= CLOSE_SIZE then [SendEof(i)] else []
      ensures work == |acts|
      ensures RunPeer(old(State()), acts) == Some(State())
    {
      hide Sound;
      hide Step;
      hide Serialize;
      hide Enabled;
      work, acts := 0, [];
      ghost var p := State();
      if !ch[i].isOpen && !ch[i].sentEof && ch[i].rb == [] && MaxOutMsg() >= CLOSE_SIZE {
        OneAct(p, SendEof(i));
        DoKeeps(p, SendEof(i));
        Post(Close(i));
        label posted:
        ch[i].sentEof := true;
        OneChanged@posted(i);
        work, acts := 1, [SendEof(i)];
        assert State() == Do(p, SendEof(i));
      }
    }

    /** do_pending_close */
    method DoPendingClose(i: nat) returns (ghost acts: seq<Action>)
      requires Valid() && i < NR_CH
      modifies ch[i]
      ensures Valid()
      ensures var c := old(ch[i].State());
              acts == if Closes(c) then [Io(i, Closed)] else []
      ensures RunPeer(old(State()), acts) == Some(State())
    {
      acts := [];
      ghost var p := State();
      if ch[i].toFd && ch[i].isOpen && ch[i].rb == [] && ch[i].pendingClose {
        OneAct(p, Io(i, Closed));
        DoKeeps(p, Io(i, Closed));
        ch[i].Close();
        OneChanged(i);
        acts := [Io(i, Closed)];
        assert State() == Do(p, Io(i, Closed));
      }
    }

    /** Queues a message with the first n bytes of its channel, and drops them there. */
    method PostPayload(m: Msg, n: nat, ghost a: Action)
      requires Valid() && (a.SendData? || a.SendLz4?) && Possible(State(), a)
      requires n == a.n && m == MessageOf(State(), a)
      modifies ch
      ensures Valid()
      ensures RunPeer(old(State()), [a]) == Some(State())
    {
      hide Sound;
      hide MsgSize;
      hide RunPeer;
      hide Step;
      hide Serialize;
      hide Enabled;
      hide Decode;
      ghost var p := State();
      OneAct(p, a);
      DoKeeps(p, a);
      Post(m);
      label posted:
      ch[m.ch].rb := ch[m.ch].rb[n..];
      OneChanged@posted(m.ch);
      assert State() == Do(p, a);
    }

    /** xmit_data_uncompressed */
    method XmitDataUncompressed(i: nat, avail: nat, maxoutmsg: int) returns (work: nat, ghost acts: seq<Action>)
      requires Valid() && IsStream(i) && !ch[i].toFd && avail <= |ch[i].rb| && maxoutmsg == MaxOutMsg()
      modifies ch
      ensures Valid()
      ensures acts == if maxoutmsg < DATA_HEADER then [] else [SendData(i, Min(avail, maxoutmsg - DATA_HEADER))]
      ensures work == |acts|
      ensures RunPeer(old(State()), acts) == Some(State())
    {
      hide Step;
      hide Serialize;
      hide Enabled;
      if maxoutmsg < DATA_HEADER {
        return 0, [];
      }
      var n := Min(avail, maxoutmsg - DATA_HEADER);
      acts := [SendData(i, n)];
      work := 1;
      PostPayload(Data(i, ch[i].rb[..n]), n, acts[0]);
    }

    /** xmit_data_lz4: compress as much as fits, unless that saves nothing. */
    method XmitDataLz4(i: nat, avail: nat, maxoutmsg: int) returns (work: nat, ghost acts: seq<Action>)
      requires Valid() && IsStream(i) && !ch[i].toFd && 0 < avail == |ch[i].rb| && maxoutmsg == MaxOutMsg()
      modifies ch
      ensures Valid()
      ensures work == |acts| <= 1 && (work == 0 <==> maxoutmsg < LZ4_HEADER)
      ensures work == 1 ==> (acts[0].SendData? || acts[0].SendLz4?) && acts[0].i == i
      ensures work == 1 ==> if maxoutmsg == LZ4_HEADER + 1 then acts == [SendData(i, 0)] else acts[0].n > 0
      ensures RunPeer(old(State()), acts) == Some(State())
    {
      hide Step;
      hide Serialize;
      hide Enabled;
      hide Decode;
      hide RunPeer;
      hide Lz4Compressor.CutToFit;
      if maxoutmsg < LZ4_HEADER {
        NoActs(State());
        return 0, [];
      }
      var srcSize := Min(avail, UINT16_MAX);
      var src := ch[i].rb[..srcSize];
      var dstSize := Min(maxoutmsg - LZ4_HEADER, Lz4Compressor.CompressBound(srcSize));
      var dst := new byte[dstSize];
      ghost var ss, anchor;
      var outSize, consumed;
      outSize, consumed, ss, anchor := Lz4Compressor.CompressDestSize(src, dst);
      if outSize == 0 {
        work, acts := XmitDataUncompressed(i, avail, maxoutmsg);
        return;
      }
      if maxoutmsg == LZ4_HEADER + 1 {
        OneByteBlock(dst[..outSize], consumed);
      }
      if outSize + LZ4_HEADER >= consumed + DATA_HEADER {
        work, acts := XmitDataUncompressed(i, consumed, maxoutmsg);
        return;
      }
      var block := dst[..outSize];
      assert src[..consumed] == ch[i].rb[..consumed];
      BlockPossible(State(), i, consumed, block);
      acts := [SendLz4(i, consumed, block)];
      work := 1;
      PostPayload(DataLz4(i, consumed, block), consumed, acts[0]);
    }

    /** xmit_data */
    method XmitData(i: nat) returns (work: nat, ghost acts: seq<Action>)
      requires Valid() && IsStream(i)
      modifies ch
      ensures Valid()
      ensures var c := old(ch[i].State());
              work == 0 <==> (c.toFd || c.rb == [] || old(MaxOutMsg()) < LeastHeader(c))
      ensures work == |acts| <= 1
      ensures work == 1 ==> !ch[i].toFd && (acts[0].SendData? || acts[0].SendLz4?) && acts[0].i == i
      ensures work == 1 ==> (acts[0].n == 0 <==> old(MaxOutMsg()) == EmptyLimit(old(ch[i].State())))
      ensures work == 1 && acts[0].n == 0 ==> acts == [SendData(i, 0)]
      ensures RunPeer(old(State()), acts) == Some(State())
      ensures Stuck(old(State()), i) ==> work == 1 && State() == old(State())
    {
      ghost var p := State();
      if Stuck(p, i) {
        StuckSend(p, i);
      }
      hide WellFormedPeer;
      hide RunPeer;
      NoActs(p);
      work, acts := 0, [];
      if !ch[i].toFd {
        var maxoutmsg := MaxOutMsg();
        var avail := |ch[i].rb|;
        if avail > 0 {
          if ch[i].compress && avail >= MIN_COMPRESSION_BLOCK {
            work, acts := XmitDataLz4(i, avail, maxoutmsg);
          } else {
            work, acts := XmitDataUncompressed(i, avail, maxoutmsg);
          }
        }
      }
      if Stuck(p, i) {
        OneAct(p, SendData(i, 0));
      }
    }

    // ----- Processing what has arrived -----

    /** fb_adb_sh_process_msg_channel_data */
    method ProcessData(i: nat, payload: seq<byte>) returns (died: bool, ghost direct: nat)
      requires Valid()
      modifies ch
      ensures died ==> DeliverData(old(State()), i, payload, 0) == Died && State() == old(State())
      ensures !died ==> DeliverData(old(State()), i, payload, direct) == Delivered(State())
      ensures died <==> !IsStream(i) || !ch[i].toFd || (old(ch[i].isOpen) && old(ch[i].RoomLeft()) < |payload|)
    {
      hide Step;
      hide Enabled;
      direct := 0;
      if i <= TO_PEER || i >= NR_CH || !ch[i].toFd {
        return true, 0;
      }
      died := ch[i].isOpen && ch[i].RoomLeft() < |payload|;
      if ch[i].isOpen && !died {
        ghost var p := State();
        assert Sound(p.ch[i]);
        direct := ch[i].Write(payload);
        OneChanged(i);
      }
    }

    /** Decompresses the block of a message that promises 'size' bytes. */
    method Unpack(block: seq<byte>, size: nat) returns (ok: bool, data: seq<byte>)
      ensures ok ==> |data| == size && size != 0
      ensures ok && !Decode(block, size).ZeroOffset? ==> Decode(block, size) == Text(data)
      ensures !ok && Decode(block, size).Text? ==> |Decode(block, size).text| != size || size == 0
    {
      hide Decode;
      var dst := new byte[size];
      var ret := -1;
      if |block| >= 2 || (|block| == 1 && block[0] < 240) {
        ret := Lz4Decoder.Decompress(block, dst);
        MalformedBlock(block, size);
      } else {
        TooShort(block, size);
      }
      ok, data := ret != 0 && ret == size, dst[..];
    }

    /** fb_adb_sh_process_msg_channel_data_lz4: only a block with a zero offset can be misread. */
    method ProcessDataLz4(i: nat, size: nat, block: seq<byte>) returns (died: bool, ghost direct: nat)
      requires Valid()
      modifies ch
      ensures var m, p := DataLz4(i, size, block), old(State());
              Processed(p, m, died, direct, State())
    {
      hide Step;
      hide Enabled;
      hide Decode;
      hide DeliverData;
      hide WellFormedPeer;
      direct := 0;
      if i <= TO_PEER || i >= NR_CH || !ch[i].toFd {
        return true, 0;
      }
      died := ch[i].isOpen && ch[i].RoomLeft() < size;
      if ch[i].isOpen && !died {
        var ok, data := Unpack(block, size);
        if !ok {
          return true, 0;
        }
        died, direct := ProcessData(i, data);
      }
    }

    /** fb_adb_sh_process_msg_channel_window */
    method ProcessWindow(i: nat, delta: nat) returns (died: bool)
      requires Valid()
      modifies ch
      ensures Deliver(old(State()), Window(i, delta), 0) == if died then Died else Delivered(State())
      ensures died ==> State() == old(State())
    {
      if i <= TO_PEER || i >= NR_CH || ch[i].toFd {
        return true;
      }
      died := ch[i].isOpen && ch[i].window + delta > UINT32_MAX;
      if ch[i].isOpen && !died {
        ch[i].window := ch[i].window + delta;
        OneChanged(i);
      }
    }

    /** fb_adb_sh_process_msg_channel_close */
    method ProcessClose(i: nat)
      requires Valid()
      modifies ch
      ensures Deliver(old(State()), Close(i), 0) == Delivered(State())
    {
      if TO_PEER < i < NR_CH {
        ch[i].sentEof := true;
        ch[i].Close();
        OneChanged(i);
      }
    }

    /** Takes a message off the receive buffer and processes it as its type says. */
    method ProcessParsed(m: Msg) returns (died: bool, ghost direct: nat)
      requires Valid()
      modifies ch
      ensures Valid() && ch[FROM_PEER].rb == old(ch[FROM_PEER].rb) && Spares(old(State()), State())
      ensures Processed(old(State()), m, died, direct, State())
    {
      hide Step;
      hide Enabled;
      hide Decode;
      hide WellFormedPeer;
      ghost var p := State();
      direct := 0;
      match m {
        case Data(i, payload) => died, direct := ProcessData(i, payload);
        case DataLz4(i, size, block) => died, direct := ProcessDataLz4(i, size, block);
        case Window(i, delta) => died := ProcessWindow(i, delta);
        case Close(i) => died := false; ProcessClose(i);
      }
      ProcessedSpares(p, m, died, direct, State());
      if !died {
        ProcessedKeeps(p, m, died, direct, State());
      }
      assert State().ch[FROM_PEER] == p.ch[FROM_PEER];
    }

    /** fb_adb_sh_process_msg, for a message of the given size at the front of the receive buffer. */
    method ProcessMsg(size: nat) returns (died: bool, ghost direct: nat)
      requires Valid() && DetectMsg(State()) == Ready(size)
      modifies ch
      ensures Valid() && Spares(old(State()), State())
      ensures !died ==> |ch[FROM_PEER].rb| < old(|ch[FROM_PEER].rb|)
      ensures died ==> Receive(old(State()), 0) == Died
      ensures !died ==> Receive(old(State()), direct) == Delivered(State()) || GarbledFirst(old(State()))
      ensures !died ==> Taken(old(State()), State())
    {
      hide Deliver;
      hide Parse;
      hide Decode;
      hide Spares;
      ghost var p := State();
      var rb := ch[FROM_PEER].rb;
      direct := 0;
      var parsed := Parse(rb, size);
      SparesNone(p);
      if parsed.ProtocolError? {
        return true, 0;
      }
      ParsedSize(rb, size);
      ch[FROM_PEER].rb := rb[size..];
      OneChanged(FROM_PEER);
      ghost var q := State();
      assert q == Consume(p, size);
      ConsumeKeeps(p, size);
      died, direct := ProcessParsed(parsed.msg);
      ConsumeSpares(p, size);
      SparesTogether(p, q, State());
      assert Processed(q, parsed.msg, died, direct, State());
    }

    // ----- io_loop_pump -----

    /** Processes messages until the receive buffer holds no whole one. */
    method ReceiveAll() returns (died: bool, ghost acts: seq<Action>, ghost at: Peer, ghost fatal: bool, ghost ps: seq<Peer>)
      requires Valid()
      modifies ch
      ensures Valid() && (died ==> fatal) && Spares(old(State()), State())
      ensures Tracks(old(State()), acts, at, fatal, State())
      ensures !died ==> DetectMsg(State()).NotYet?
      ensures !died ==> Receiving(old(State()), ps) && ps[|ps| - 1] == State()
    {
      hide RunPeer;
      hide Spares;
      hide Taken;
      hide Receive;
      hide Parse;
      hide WellFormedPeer;
      hide GarbledFirst;
      died, acts, at, fatal, ps := false, [], State(), false, [State()];
      NoActs(State());
      SparesNone(State());
      while true
        invariant Valid() && !died && Spares(old(State()), State())
        invariant ps != [] && ps[0] == old(State()) && ps[|ps| - 1] == State() && TakenOneByOne(ps)
        invariant Tracks(old(State()), acts, at, fatal, State())
        decreases |ch[FROM_PEER].rb|
      {
        var found := Detect(ch[FROM_PEER].rb, ch[FROM_PEER].RoomLeft());
        assert found == DetectMsg(State());
        if found.NotYet? {
          return;
        }
        if found.Impossible? {
          return true, acts, at, true, ps;
        }
        ghost var direct;
        ghost var before := State();
        died, direct := ProcessMsg(found.size);
        SparesTogether(old(State()), before, State());
        if !fatal {
          if died || GarbledFirst(before) {
            FatalNow(before);
            fatal := true;
          } else {
            OneTaken(old(State()), acts, before, direct);
            acts, at := acts + [Take(direct)], State();
          }
        }
        if died {
          return;
        }
        OneMoreTaken(ps, State());
        ps := ps + [State()];
      }
    }

    /** Sends data from channel i, if it is a stream. */
    method SendSome(i: nat) returns (work: nat, ghost acts: seq<Action>)
      requires Valid() && i < NR_CH
      modifies ch
      ensures Valid()
      ensures RunPeer(old(State()), acts) == Some(State())
      ensures work == 0 <==> Exhausted(old(State()), i)
      ensures work == 0 ==> State() == old(State())
      ensures var p, q := old(State()), State();
              && Vain(p, i) <= work && Progress(p, q, work - Vain(p, i)) && Course(p, q, work - Vain(p, i))
              && q.ch[TO_PEER].isOpen == p.ch[TO_PEER].isOpen
    {
      hide RunPeer;
      hide Progress;
      hide Course;
      hide WellFormedPeer;
      ghost var p := State();
      work, acts := 0, [];
      NoActs(p);
      ProgressNone(p);
      CourseNone(p);
      if i > TO_PEER {
        work, acts := XmitData(i);
        if work == 1 && !Stuck(p, i) {
          assert acts == [acts[0]];
          assert MaxOut(p) == old(MaxOutMsg());
          NotStuck(p, i);
          SendMakesProgress(p, acts[0], State());
          CourseSend(p, acts[0], State());
          SendKeepsOpen(p, acts[0], State());
        } else if work == 0 {
          RanNothing(p, State());
        }
      }
    }

    /** Announces the end of a channel that has nothing left to do. */
    method SendEnd(i: nat) returns (work: nat, ghost acts: seq<Action>)
      requires Valid() && i < NR_CH
      modifies ch
      ensures Valid()
      ensures RunPeer(old(State()), acts) == Some(State())
      ensures work == 0 <==> !(OwesEof(old(State()).ch[i]) && MaxOut(old(State())) >= CLOSE_SIZE)
      ensures work == 0 ==> State() == old(State())
      ensures var p, q := old(State()), State();
              && Progress(p, q, work) && Course(p, q, work) && q.ch[TO_PEER].isOpen == p.ch[TO_PEER].isOpen
    {
      hide RunPeer;
      hide Progress;
      hide Course;
      hide WellFormedPeer;
      ghost var p := State();
      ProgressNone(p);
      CourseNone(p);
      work, acts := XmitEof(i);
      assert MaxOut(p) == old(MaxOutMsg());
      if work == 1 {
        assert acts == [acts[0]];
        SendMakesProgress(p, acts[0], State());
        CourseSend(p, acts[0], State());
        SendKeepsOpen(p, acts[0], State());
      } else {
        RanNothing(p, State());
      }
    }

    /** One channel's turn. */
    method SendChannel(i: nat) returns (work: nat, ghost acts: seq<Action>)
      requires Valid() && i < NR_CH
      modifies ch
      ensures Valid()
      ensures RunPeer(old(State()), acts) == Some(State())
      ensures ChannelStep(old(State()), i, State(), work)
    {
      hide RunPeer;
      hide Progress;
      hide Course;
      hide WellFormedPeer;
      hide Quiet;
      hide OwesEof;
      hide Exhausted;
      hide MaxOut;
      hide Stuck;
      hide ChannelStep;
      ghost var p := State();
      work, acts := SendSome(i);
      ghost var q := State();
      ghost var closing := DoPendingClose(i);
      ghost var r := State();
      CloseMakesProgress(q, i, closing, r);
      CourseClose(q, i, closing, r);
      RunPeerAppend(p, acts, q, closing);
      var more;
      ghost var ending;
      more, ending := SendEnd(i);
      RunPeerAppend(p, acts + closing, r, ending);
      ChannelTurn(p, i, q, work, r, State(), more);
      work, acts := work + more, acts + closing + ending;
    }

    /** Every channel acknowledges what it has written, in turn. */
    method SendAcks() returns (ghost acts: seq<Action>)
      requires Valid()
      modifies ch
      ensures Valid()
      ensures RunPeer(old(State()), acts) == Some(State())
      ensures AckedOnly(old(State()), State()) && Spares(old(State()), State())
      ensures forall k | 0 <= k < NR_CH :: Acked(State(), Turn(turn, k))
      ensures old(MaxOutMsg()) < WINDOW_SIZE ==> State() == old(State())
    {
      hide RunPeer;
      hide AckedOnly;
      hide WellFormedPeer;
      hide Acked;
      hide Spares;
      acts := [];
      NoActs(State());
      AckedNone(State());
      SparesNone(State());
      for k := 0 to NR_CH
        invariant Valid()
        invariant RunPeer(old(State()), acts) == Some(State())
        invariant AckedOnly(old(State()), State()) && Spares(old(State()), State())
        invariant forall j | 0 <= j < k :: Acked(State(), Turn(turn, j))
        invariant old(MaxOutMsg()) < WINDOW_SIZE ==> State() == old(State())
      {
        ghost var p := State();
        assert MaxOutMsg() == MaxOut(p) && old(MaxOutMsg()) == MaxOut(old(State()));
        ghost var one := XmitAcks(Turn(turn, k));
        if one == [] {
          RanNothing(p, State());
        }
        RunPeerAppend(old(State()), acts, p, one);
        acts := acts + one;
        AckEffect(p, Turn(turn, k), one, State());
        AckedTogether(old(State()), p, State());
        AckSpares(p, Turn(turn, k), one, State());
        SparesTogether(old(State()), p, State());
      }
    }

    /** One round of sending, and the next one's turn. */
    method SendRound() returns (more: bool, ghost acts: seq<Action>)
      requires Valid()
      modifies this`turn, ch
      ensures Valid() && turn == NextTurn(old(turn))
      ensures RunPeer(old(State()), acts) == Some(State())
      ensures Round(old(State()), old(turn), State(), more)
    {
      hide RunPeer;
      hide WellFormedPeer;
      hide RoundSoFar;
      hide ChannelStep;
      hide Turn;
      var work := 0;
      acts := [];
      ghost var vain: nat := 0;
      ghost var p := State();
      NoActs(p);
      RoundBegins(p, turn);
      for k := 0 to NR_CH
        invariant Valid() && turn == old(turn)
        invariant RunPeer(p, acts) == Some(State())
        invariant RoundSoFar(p, turn, k, State(), work, vain)
      {
        ghost var q := State();
        var did;
        ghost var done;
        did, done := SendChannel(Turn(turn, k));
        RunPeerAppend(p, acts, q, done);
        RoundGoesOn(p, turn, k, q, work, vain, State(), did);
        vain := vain + Vain(q, Turn(turn, k));
        work, acts := work + did, acts + done;
      }
      more := work > 0;
      turn := NextTurn(turn);
    }

    /** Sends until a round finds nothing to do. */
    method SendAll() returns (ghost acts: seq<Action>)
      requires Valid() && !Endless(State(), turn)
      modifies this`turn, ch
      ensures Valid()
      ensures RunPeer(old(State()), acts) == Some(State())
      ensures Proceeds(old(State()), State())
      ensures 0 < turn <= UINT32_SIZE - NR_CH + 1 ==> AllQuiet(State())
    {
      hide RunPeer;
      hide WellFormedPeer;
      hide AllQuiet;
      hide Rank;
      hide Round;
      hide Endless;
      hide Proceeds;
      acts := [];
      NoActs(State());
      ProceedsNone(State());
      var more := true;
      while more
        invariant Valid() && (more ==> !Endless(State(), turn))
        invariant RunPeer(old(State()), acts) == Some(State())
        invariant Proceeds(old(State()), State())
        invariant !more && 0 < turn <= UINT32_SIZE - NR_CH + 1 ==> AllQuiet(State())
        decreases more, Rank(State(), turn)
      {
        ghost var p, t := State(), turn;
        ghost var done;
        more, done := SendRound();
        RunPeerAppend(old(State()), acts, p, done);
        RoundProceeds(p, t, State(), more);
        ProceedsTogether(old(State()), p, State());
        if more {
          EndComesNearer(p, t, State());
        } else if t <= UINT32_SIZE - NR_CH {
          LastRoundQuiet(p, t, State());
        }
        acts := acts + done;
      }
    }

    /**
      The same loop, given up after n rounds: with n large enough it has ended if
      and only if it ends at all, and that is decided by what it starts from.
     */
    method SendAtMost(n: nat) returns (ended: bool)
      requires Valid()
      modifies this`turn, ch
      ensures Valid()
      ensures Endless(old(State()), old(turn)) ==> !ended
      ensures !Endless(old(State()), old(turn)) && n > Rank(old(State()), old(turn)) ==> ended
      ensures Endless(old(State()), old(turn)) && n > 0 ==> SameSticks(old(State()), State()) && !ch[TO_PEER].isOpen
    {
      hide WellFormedPeer;
      hide Round;
      hide AfterRounds;
      ended := false;
      ghost var p, t := State(), turn;
      NoRoundsYet(p, t);
      var k: nat := 0;
      while k < n && !ended
        invariant Valid() && k <= n
        invariant AfterRounds(p, t, k, State(), turn, ended)
      {
        ghost var q, u := State(), turn;
        var more;
        ghost var done;
        more, done := SendRound();
        OneRoundMore(p, t, k, q, u, State(), more);
        ended := !more;
        k := k + 1;
      }
      SoManyRounds(p, t, k, State(), turn, ended);
    }

    /** A peer that is gone will not complete its message. */
    method DropPartialMsg() returns (ghost acts: seq<Action>)
      requires Valid() && DetectMsg(State()).NotYet?
      modifies ch[FROM_PEER]
      ensures Valid()
      ensures RunPeer(old(State()), acts) == Some(State())
      ensures DetectMsg(State()).NotYet? && Spares(old(State()), State()) && State() == Dropped(old(State()))
      ensures !ch[FROM_PEER].isOpen ==> ch[FROM_PEER].rb == []
    {
      acts := [];
      ghost var p := State();
      NoActs(p);
      SparesNone(p);
      if !ch[FROM_PEER].isOpen && ch[FROM_PEER].rb != [] {
        OneAct(p, DropPartial);
        DoKeeps(p, DropPartial);
        ch[FROM_PEER].rb := [];
        OneChanged(FROM_PEER);
        acts := [DropPartial];
        assert State() == Do(p, DropPartial);
        ConsumeSpares(p, |Incoming(p).rb|);
      }
    }

    /** io_loop_pump up to its rounds: messages are processed and acknowledged. */
    method PumpIn() returns (died: bool, ghost acts: seq<Action>, ghost at: Peer, ghost fatal: bool, ghost received: Peer)
      requires Valid()
      modifies this`turn, ch
      ensures Valid() && (died ==> fatal)
      ensures Tracks(old(State()), acts, at, fatal, State())
      ensures !died ==> DetectMsg(State()).NotYet? && turn == NextTurn(old(turn))
      ensures !died && !ch[FROM_PEER].isOpen ==> ch[FROM_PEER].rb == []
      ensures !died && old(turn) <= UINT32_SIZE - NR_CH ==> AllAcked(State())
      ensures !died ==> MayBecome(old(State()), received) && WellFormedPeer(received)
      ensures !died ==> (Endless(received, turn) <==> Endless(State(), turn)) && Rank(State(), turn) <= Rank(received, turn)
    {
      hide RunPeer;
      hide WellFormedPeer;
      hide AllAcked;
      hide Acked;
      hide Endless;
      hide Rank;
      hide Spares;
      hide Fatal;
      hide AckedOnly;
      hide Turn;
      hide Tracks;
      hide DetectMsg;
      hide Receiving;
      hide Dropped;
      hide MayBecome;
      hide MaxOut;
      received := State();
      ghost var ps;
      died, acts, at, fatal, ps := ReceiveAll();
      if died {
        return;
      }
      ghost var p := State();
      BecomesDropped(old(State()), ps);
      ghost var done := DropPartialMsg();
      acts, at := TracksMore(old(State()), acts, at, fatal, p, done, State());
      received := State();
      label dropped:
      done := SendAcks();
      acts, at := TracksMore(old(State()), acts, at, fatal, received, done, State());
      if turn <= UINT32_SIZE - NR_CH {
        AckedAround(State(), turn);
      }
      AckedSame(received, State());
      assert old@dropped(MaxOutMsg()) == MaxOut(received);
      AcksKeepEnd(received, State(), NextTurn(turn));
      turn := NextTurn(turn);
    }

    /** io_loop_pump; it ends if the rounds do, whatever the descriptors accept of the messages' bytes. */
    method Pump() returns (died: bool, ghost acts: seq<Action>, ghost at: Peer, ghost fatal: bool)
      requires Valid() && forall q | MayBecome(State(), q) && |q.ch| == NR_CH :: !Endless(q, NextTurn(turn))
      modifies this`turn, ch
      ensures Valid() && (died ==> fatal)
      ensures Tracks(old(State()), acts, at, fatal, State())
      ensures !died ==> DetectMsg(State()).NotYet?
      ensures !died && !ch[FROM_PEER].isOpen ==> ch[FROM_PEER].rb == []
      ensures !died && old(turn) <= UINT32_SIZE - NR_CH ==> AllAcked(State())
      ensures !died && 0 < turn <= UINT32_SIZE - NR_CH + 1 ==> AllQuiet(State())
    {
      hide RunPeer;
      hide AllQuiet;
      hide AllAcked;
      hide Endless;
      hide Rank;
      hide Proceeds;
      hide Tracks;
      hide DetectMsg;
      hide MayBecome;
      hide Sound;
      hide IsOutgoing;
      ghost var received;
      died, acts, at, fatal, received := PumpIn();
      if died {
        return;
      }
      ghost var p := State();
      ghost var done := SendAll();
      acts, at := TracksMore(old(State()), acts, at, fatal, p, done, State());
      ProgressSame(p, State());
    }

    /**
      The pump, given up after n rounds: with n large enough it has ended if and
      only if the rounds have an end, after what receiving has made of the peer.
     */
    method PumpAtMost(n: nat) returns (died: bool, ended: bool, ghost received: Peer)
      requires Valid()
      modifies this`turn, ch
      ensures Valid()
      ensures !died ==> MayBecome(old(State()), received) && WellFormedPeer(received)
      ensures !died && Endless(received, NextTurn(old(turn))) ==> !ended
      ensures !died && !Endless(received, NextTurn(old(turn))) && n > Rank(received, NextTurn(old(turn))) ==> ended
    {
      hide WellFormedPeer;
      hide Endless;
      hide Rank;
      hide MayBecome;
      ended := false;
      ghost var acts, at, fatal;
      died, acts, at, fatal, received := PumpIn();
      if !died {
        ended := SendAtMost(n);
      }
    }
  }
}
