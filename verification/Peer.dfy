/**
  One end of the connection as a value: its channels, and the indivisible
  pieces of work core.c does on them.
 */
module Peer {
  import opened Bytes
  import opened Lz4Format
  import opened Messages
  import opened Channels

  const FROM_PEER := 0
  const TO_PEER := 1
  const NR_CH := 5

  datatype Peer = Peer(ch: seq<Chan>, maxOutgoing: nat)

  /** The channel to the peer buffers everything, counts nothing, and is empty once closed. */
  predicate IsOutgoing(c: Chan) {
    && c.toFd && c.alwaysBuffer && !c.trackBytesWritten && c.bytesWritten == 0
    && (!c.isOpen ==> c.rb == [])
  }

  predicate WellFormedPeer(p: Peer) {
    && |p.ch| == NR_CH
    && (forall i | 0 <= i < NR_CH :: Sound(p.ch[i]))
    && p.maxOutgoing <= UINT16_MAX
    && !p.ch[FROM_PEER].toFd
    && IsOutgoing(p.ch[TO_PEER])
  }

  /** fb_adb_maxoutmsg */
  function MaxOut(p: Peer): int
    requires |p.ch| == NR_CH
  {
    Min(p.maxOutgoing, Room(p.ch[TO_PEER]))
  }

  function With(p: Peer, i: nat, c: Chan): (q: Peer)
    requires i < |p.ch|
    ensures |q.ch| == |p.ch| && q.maxOutgoing == p.maxOutgoing
  {
    p.(ch := p.ch[i := c])
  }

  predicate Fits(p: Peer, m: Msg)
    requires |p.ch| == NR_CH
  {
    Representable(m) && MsgSize(m) <= MaxOut(p)
  }

  /** Queues a message for the peer; a closed channel swallows it. */
  function Send(p: Peer, m: Msg): Peer
    requires WellFormedPeer(p) && Fits(p, m)
  {
    With(p, TO_PEER, Step(p.ch[TO_PEER], Written(Serialize(m), 0)))
  }

  // ----- Receiving -----

  datatype Delivery = Died | Delivered(peer: Peer)

  predicate IsStream(i: nat) {
    TO_PEER < i < NR_CH
  }

  /** Plain bytes arriving for a stream; the peer may only send what it has credit for. */
  function DeliverData(p: Peer, i: nat, data: seq<byte>, direct: nat): Delivery
    requires WellFormedPeer(p)
  {
    if !IsStream(i) || !p.ch[i].toFd then Died
    else if !p.ch[i].isOpen then Delivered(p)
    else if Room(p.ch[i]) < |data| then Died  // window desync
    else if Enabled(p.ch[i], Written(data, direct)) then Delivered(With(p, i, Step(p.ch[i], Written(data, direct))))
    else Died
  }

  function Deliver(p: Peer, m: Msg, direct: nat): Delivery
    requires WellFormedPeer(p)
  {
    match m
    case Data(i, payload) => DeliverData(p, i, payload, direct)
    case DataLz4(i, size, block) =>
      if !IsStream(i) || !p.ch[i].toFd then Died
      else if !p.ch[i].isOpen then Delivered(p)
      else if Room(p.ch[i]) < size then Died  // window desync
      else
        var text := Decode(block, size);
        if text.Text? && |text.text| == size && size != 0 then DeliverData(p, i, text.text, direct) else Died
    case Window(i, delta) =>
      if !IsStream(i) || p.ch[i].toFd then Died
      else if !p.ch[i].isOpen then Delivered(p)
      else if p.ch[i].window + delta > UINT32_MAX then Died  // window overflow
      else Delivered(With(p, i, p.ch[i].(window := p.ch[i].window + delta)))
    case Close(i) =>
      if !IsStream(i) then Delivered(p)
      else Delivered(With(p, i, Closing(p.ch[i].(sentEof := true))))
  }

  function Incoming(p: Peer): Chan
    requires |p.ch| == NR_CH
  {
    p.ch[FROM_PEER]
  }

  function DetectMsg(p: Peer): Detected
    requires |p.ch| == NR_CH
  {
    Detect(Incoming(p).rb, Room(Incoming(p)))
  }

  /** The first message has been taken off the receive buffer. */
  function Consume(p: Peer, n: nat): Peer
    requires |p.ch| == NR_CH && n <= |Incoming(p).rb|
  {
    With(p, FROM_PEER, Incoming(p).(rb := Incoming(p).rb[n..]))
  }

  /** detect_msg has found a message: process it. */
  function Receive(p: Peer, direct: nat): Delivery
    requires WellFormedPeer(p) && DetectMsg(p).Ready?
  {
    var size := DetectMsg(p).size;
    match Parse(Incoming(p).rb, size)
    case ProtocolError => Died
    case Parsed(m) => Deliver(Consume(p, size), m, direct)
  }

  // ----- Work -----

  datatype Action =
    | Io(i: nat, e: Event)
    | Take(direct: nat)                          // process the first message received
    | DropPartial                                // the peer is gone and left an incomplete message
    | Ack(i: nat)
    | SendData(i: nat, n: nat)
    | SendLz4(i: nat, n: nat, block: seq<byte>)
    | SendEof(i: nat)

  /** The message an action hands to the outgoing channel. */
  function MessageOf(p: Peer, a: Action): Msg
    requires |p.ch| == NR_CH && (a.Ack? || a.SendData? || a.SendLz4? || a.SendEof?) && a.i < NR_CH
    requires a.SendData? || a.SendLz4? ==> a.n <= |p.ch[a.i].rb|
  {
    match a
    case Ack(i) => Window(i, p.ch[i].bytesWritten)
    case SendData(i, n) => Data(i, p.ch[i].rb[..n])
    case SendLz4(i, n, block) => DataLz4(i, n, block)
    case SendEof(i) => Close(i)
  }

  /** xmit_eof's condition, except for the room in the outgoing buffer. */
  predicate OwesEof(c: Chan) {
    !c.isOpen && !c.sentEof && c.rb == []
  }

  predicate Possible(p: Peer, a: Action)
    requires WellFormedPeer(p)
  {
    match a
    case Io(i, e) => i < NR_CH && !e.Written? && Enabled(p.ch[i], e)
    case Take(direct) =>
      DetectMsg(p).Ready? && Receive(p, direct).Delivered?
    case DropPartial => !Incoming(p).isOpen && !DetectMsg(p).Ready?
    case Ack(i) => i < NR_CH && i != TO_PEER && p.ch[i].bytesWritten > 0 && Fits(p, MessageOf(p, a))
    case SendData(i, n) =>
      IsStream(i) && !p.ch[i].toFd && n <= |p.ch[i].rb| && Fits(p, MessageOf(p, a))
    case SendLz4(i, n, block) =>
      && IsStream(i) && !p.ch[i].toFd && 0 < n <= |p.ch[i].rb| && Fits(p, MessageOf(p, a))
      && Decode(block, n) == Text(p.ch[i].rb[..n])
    case SendEof(i) => i < NR_CH && OwesEof(p.ch[i]) && Fits(p, MessageOf(p, a))
  }

  function Do(p: Peer, a: Action): Peer
    requires WellFormedPeer(p) && Possible(p, a)
  {
    match a
    case Io(i, e) => With(p, i, Step(p.ch[i], e))
    case Take(direct) => Receive(p, direct).peer
    case DropPartial => Consume(p, |Incoming(p).rb|)
    case Ack(i) =>
      var q := Send(p, MessageOf(p, a));
      With(q, i, q.ch[i].(bytesWritten := 0))
    case SendData(i, n) =>
      var q := Send(p, MessageOf(p, a));
      With(q, i, q.ch[i].(rb := q.ch[i].rb[n..]))
    case SendLz4(i, n, block) =>
      var q := Send(p, MessageOf(p, a));
      With(q, i, q.ch[i].(rb := q.ch[i].rb[n..]))
    case SendEof(i) =>
      var q := Send(p, MessageOf(p, a));
      With(q, i, q.ch[i].(sentEof := true))
  }

  // ----- What every piece of work keeps -----

  lemma {:induction false} SendKeeps(p: Peer, m: Msg)
    requires WellFormedPeer(p) && Fits(p, m)
    ensures WellFormedPeer(Send(p, m))
    ensures forall i | 0 <= i < NR_CH && i != TO_PEER :: Send(p, m).ch[i] == p.ch[i]
    ensures var c, d := p.ch[TO_PEER], Send(p, m).ch[TO_PEER];
            d == if c.isOpen then c.(rb := c.rb + Serialize(m)) else c
  {
    var c := p.ch[TO_PEER];
    var s := Serialize(m);
    assert s[0..] == s;
    StepContinues(c, Written(s, 0));
  }

  lemma {:induction false} OutgoingStep(c: Chan, e: Event)
    requires Sound(c) && IsOutgoing(c) && Enabled(c, e) && !e.Written?
    ensures IsOutgoing(Step(c, e))
  {
  }

  lemma {:induction false} DeliverDataKeeps(p: Peer, i: nat, data: seq<byte>, direct: nat)
    requires WellFormedPeer(p) && DeliverData(p, i, data, direct).Delivered?
    ensures WellFormedPeer(DeliverData(p, i, data, direct).peer)
  {
    if p.ch[i].isOpen {
      StepContinues(p.ch[i], Written(data, direct));
    }
  }

  lemma {:induction false} DeliverKeeps(p: Peer, m: Msg, direct: nat)
    requires WellFormedPeer(p) && Deliver(p, m, direct).Delivered?
    ensures WellFormedPeer(Deliver(p, m, direct).peer)
  {
    match m {
      case Data(i, payload) => DeliverDataKeeps(p, i, payload, direct);
      case DataLz4(i, size, block) =>
        if IsStream(i) && p.ch[i].isOpen {
          DeliverDataKeeps(p, i, Decode(block, size).text, direct);
        }
      case Window(i, delta) =>
      case Close(i) =>
        if IsStream(i) {
          StepContinues(p.ch[i].(sentEof := true), Closed);
        }
    }
  }

  lemma {:induction false} SendingKeeps(p: Peer, a: Action)
    requires WellFormedPeer(p) && Possible(p, a) && !a.Io? && !a.Take? && !a.DropPartial?
    ensures WellFormedPeer(Do(p, a))
  {
    hide Serialize;
    hide Step;
    hide Enabled;
    hide Decode;
    SendKeeps(p, MessageOf(p, a));
  }

  lemma {:induction false} DoKeeps(p: Peer, a: Action)
    requires WellFormedPeer(p) && Possible(p, a)
    ensures WellFormedPeer(Do(p, a))
  {
    hide Step;
    hide Enabled;
    hide Decode;
    hide Serialize;
    hide Parse;
    hide Deliver;
    match a {
      case Io(i, e) =>
        StepContinues(p.ch[i], e);
        if i == TO_PEER {
          OutgoingStep(p.ch[i], e);
        }
      case Take(direct) =>
        var size := DetectMsg(p).size;
        DeliverKeeps(Consume(p, size), Parse(Incoming(p).rb, size).msg, direct);
      case DropPartial =>
      case _ => SendingKeeps(p, a);
    }
  }

  // ----- Sending, seen from outside -----

  predicate IsSend(a: Action) {
    a.Ack? || a.SendData? || a.SendLz4? || a.SendEof?
  }

  /** What sending does to the channel the message is about. */
  function AfterSend(c: Chan, a: Action): Chan
    requires IsSend(a)
    requires a.SendData? || a.SendLz4? ==> a.n <= |c.rb|
  {
    match a
    case Ack(_) => c.(bytesWritten := 0)
    case SendData(_, n) => c.(rb := c.rb[n..])
    case SendLz4(_, n, _) => c.(rb := c.rb[n..])
    case SendEof(_) => c.(sentEof := true)
  }

  /** Peer p becomes q by handing m to its outgoing channel and updating the channel m is about. */
  ghost predicate SendsAs(p: Peer, q: Peer, a: Action, m: Msg) {
    && |p.ch| == |q.ch| == NR_CH && q.maxOutgoing == p.maxOutgoing
    && IsSend(a) && a.i < NR_CH && m.ch == a.i && (!a.SendEof? ==> IsStream(a.i))
    && (a.SendData? || a.SendLz4? ==> a.n <= |p.ch[a.i].rb|)
    && Representable(m) && MsgSize(m) <= p.maxOutgoing
    && Enabled(p.ch[TO_PEER], Written(Serialize(m), 0))
    && (forall j | 0 <= j < NR_CH && j != TO_PEER && j != a.i :: q.ch[j] == p.ch[j])
    && var out := Step(p.ch[TO_PEER], Written(Serialize(m), 0));
    && (a.i != TO_PEER ==> q.ch[TO_PEER] == out && q.ch[a.i] == AfterSend(p.ch[a.i], a))
    && (a.i == TO_PEER ==> q.ch[TO_PEER] == out.(sentEof := true))
  }

  lemma {:induction false} SendEffect(p: Peer, a: Action)
    requires WellFormedPeer(p) && IsSend(a) && Possible(p, a)
    ensures SendsAs(p, Do(p, a), a, MessageOf(p, a))
  {
    SendKeeps(p, MessageOf(p, a));
  }
}
