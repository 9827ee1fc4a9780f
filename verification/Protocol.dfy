/**
  Two peers, joined by two wires, doing any pieces of work in any order.
  Whatever they do, neither ever has a reason to report a protocol error, and
  every stream arrives in order and complete.
 */
module Protocol {
  import opened Wrappers
  import opened Bytes
  import AdbEnc
  import opened Lz4Format
  import opened Messages
  import opened Channels
  import opened Peer
  import opened Streams
  import opened Links

  /** The client is peer 0 and the stub peer 1; 'wire' and 'queue' are indexed by the peer they come from. */
  datatype World = World(
    peer: seq<Peer>,
    wire: seq<seq<byte>>,
    queue: seq<seq<Msg>>,     // handed to the outgoing channel, not yet processed by the other peer
    source: seq<seq<byte>>,   // per channel: everything read from its descriptor
    dest: seq<seq<byte>>,     // per channel: everything written to its descriptor
    endSeen: seq<bool>)       // per channel: the receiver was told of the end while still open

  predicate IsPeer(p: nat) {
    p < 2
  }

  /** Standard input goes from the client to the stub, standard output and error the other way. */
  function Sender(i: nat): nat {
    if i == 2 then 0 else 1
  }

  predicate Shaped(w: World) {
    && |w.peer| == |w.wire| == |w.queue| == 2
    && |w.peer[0].ch| == |w.peer[1].ch| == NR_CH
    && |w.source| == |w.dest| == |w.endSeen| == NR_CH
    && WellFormedPeer(w.peer[0]) && WellFormedPeer(w.peer[1])
  }

  function LinkFrom(w: World, p: nat): Link
    requires Shaped(w) && IsPeer(p)
  {
    Link(w.peer[p].ch[TO_PEER], w.peer[1 - p].ch[FROM_PEER], w.wire[p], w.queue[p])
  }

  function StreamAt(w: World, i: nat): Stream
    requires Shaped(w) && IsStream(i)
  {
    var p := Sender(i);
    Stream(w.peer[p].ch[i], w.peer[1 - p].ch[i], w.queue[p], w.queue[1 - p], w.source[i], w.dest[i], w.endSeen[i])
  }

  /** The credit a stream starts with: the receiver's capacity in a 32-bit field. */
  function Limit(w: World, i: nat): nat
    requires Shaped(w) && IsStream(i)
  {
    w.peer[1 - Sender(i)].ch[i].capacity % 0x1_0000_0000
  }

  /** A message that peer p may send. */
  predicate Proper(m: Msg, p: nat) {
    match m
    case Data(i, _) => IsStream(i) && Sender(i) == p
    case DataLz4(i, size, block) =>
      IsStream(i) && Sender(i) == p && size != 0 && Decode(block, size).Text? && |Decode(block, size).text| == size
    case Window(i, _) => IsStream(i) && Sender(i) != p
    case Close(i) => i < NR_CH
  }

  ghost predicate QueueOk(w: World, p: nat)
    requires Shaped(w) && IsPeer(p)
  {
    && (forall m | m in w.queue[p] :: Proper(m, p))
    && w.peer[p].maxOutgoing <= w.peer[1 - p].ch[FROM_PEER].capacity
  }

  ghost predicate Inv(w: World) {
    && Shaped(w)
    && (forall p | IsPeer(p) :: LinkOk(LinkFrom(w, p)))
    && (forall p | IsPeer(p) :: QueueOk(w, p))
    && (forall i | IsStream(i) :: StreamOk(StreamAt(w, i), i, Limit(w, i)))
  }

  // ----- Moves -----

  /** What peer p does may depend on what the other end has put on the wire. */
  predicate CanMove(w: World, p: nat, a: Action)
    requires Shaped(w)
  {
    && IsPeer(p) && Possible(w.peer[p], a)
    && (a.Io? && a.i == FROM_PEER && a.e.Got? ==> a.e.data <= w.wire[1 - p])
    && (a.Io? && a.i == FROM_PEER && a.e.GotEncoded? ==> a.e.chunk <= w.wire[1 - p])
  }

  function SetPeer(w: World, p: nat, q: Peer): World
    requires Shaped(w) && IsPeer(p)
  {
    w.(peer := w.peer[p := q])
  }

  /** Records what an event on a channel moves to or from the outside. */
  function MoveBytes(w: World, p: nat, i: nat, e: Event): World
    requires Shaped(w) && CanMove(w, p, Io(i, e))
  {
    var c := w.peer[p].ch[i];
    match e
    case Got(data) =>
      if i == FROM_PEER then w.(wire := w.wire[1 - p := w.wire[1 - p][|data|..]])
      else w.(source := w.source[i := w.source[i] + data])
    case GotEncoded(chunk) =>
      if i == FROM_PEER then w.(wire := w.wire[1 - p := w.wire[1 - p][|chunk|..]]) else w
    case Drained(n) =>
      if i == TO_PEER then w.(wire := w.wire[p := w.wire[p] + c.rb[..n]])
      else w.(dest := w.dest[i := w.dest[i] + c.rb[..n]])
    case DrainedEncoded(out, _, _) =>
      if i == TO_PEER then w.(wire := w.wire[p := w.wire[p] + out]) else w
    case _ => w
  }

  /** The bytes a message passes straight on to the descriptor of its channel. */
  function Passed(c: Chan, m: Msg, direct: nat): seq<byte> {
    if (m.Data? || m.DataLz4?) && c.toFd && c.isOpen && direct <= |PayloadOf(m, m.ch)|
    then PayloadOf(m, m.ch)[..direct] else []
  }

  /** The message tells an open receiver that its stream has ended. */
  predicate Finishes(c: Chan, m: Msg) {
    m.Close? && c.toFd && c.isOpen
  }

  /** Records the processing of a message at peer p. */
  function TakeMessage(w: World, p: nat, m: Msg, direct: nat): World
    requires Shaped(w) && IsPeer(p) && w.queue[1 - p] != []
  {
    var w' := w.(queue := w.queue[1 - p := w.queue[1 - p][1..]]);
    var i := m.ch;
    if !IsStream(i) then w'
    else
      var c := w.peer[p].ch[i];
      w'.(dest := w.dest[i := w.dest[i] + Passed(c, m, direct)],
          endSeen := w.endSeen[i := w.endSeen[i] || Finishes(c, m)])
  }

  function Advance(w: World, p: nat, a: Action): World
    requires Shaped(w) && CanMove(w, p, a)
  {
    var q := Do(w.peer[p], a);
    match a
    case Io(i, e) => SetPeer(MoveBytes(w, p, i, e), p, q)
    case Take(direct) =>
      if w.queue[1 - p] == [] then SetPeer(w, p, q)
      else SetPeer(TakeMessage(w, p, w.queue[1 - p][0], direct), p, q)
    case DropPartial => SetPeer(w, p, q)
    case _ => SetPeer(w.(queue := w.queue[p := w.queue[p] + [MessageOf(w.peer[p], a)]]), p, q)
  }

  // ----- Every move keeps the invariant -----

  /** A channel of one peer changes; what is said about all links and streams follows from what is said about the ones it belongs to. */
  ghost predicate SameElsewhere(w: World, w': World, p: nat, i: nat)
    requires Shaped(w) && IsPeer(p) && i < NR_CH
  {
    && Shaped(w')
    && w'.queue == w.queue
    && w'.peer[1 - p] == w.peer[1 - p]
    && w'.peer[p].maxOutgoing == w.peer[p].maxOutgoing
    && (forall j | 0 <= j < NR_CH && j != i :: w'.peer[p].ch[j] == w.peer[p].ch[j])
    && (forall j | 0 <= j < NR_CH && j != i :: w'.source[j] == w.source[j] && w'.dest[j] == w.dest[j])
    && w'.endSeen == w.endSeen
    && w'.peer[p].ch[i].capacity == w.peer[p].ch[i].capacity
    && (i != TO_PEER ==> w'.wire[p] == w.wire[p])
    && (i != FROM_PEER ==> w'.wire[1 - p] == w.wire[1 - p])
  }

  lemma {:induction false} LinkElsewhere(w: World, w': World, p: nat, i: nat, q: nat)
    requires Inv(w) && IsPeer(p) && i < NR_CH && SameElsewhere(w, w', p, i) && IsPeer(q)
    requires i == TO_PEER ==> LinkOk(LinkFrom(w', p))
    requires i == FROM_PEER ==> LinkOk(LinkFrom(w', 1 - p))
    ensures LinkOk(LinkFrom(w', q)) && QueueOk(w', q)
  {
    hide LinkOk;
    hide StreamOk;
    hide WellFormedPeer;
    assert LinkOk(LinkFrom(w, q)) && QueueOk(w, q);
    assert q == p || q == 1 - p;
    if !(i == TO_PEER && q == p) && !(i == FROM_PEER && q == 1 - p) {
      assert LinkFrom(w', q) == LinkFrom(w, q);
    }
  }

  lemma {:induction false} StreamElsewhere(w: World, w': World, p: nat, i: nat, j: nat)
    requires Inv(w) && IsPeer(p) && i < NR_CH && SameElsewhere(w, w', p, i) && IsStream(j)
    requires IsStream(i) ==> StreamOk(StreamAt(w', i), i, Limit(w', i))
    ensures StreamOk(StreamAt(w', j), j, Limit(w', j))
  {
    hide LinkOk;
    hide StreamOk;
    hide WellFormedPeer;
    assert StreamOk(StreamAt(w, j), j, Limit(w, j));
    if j != i {
      var s := Sender(j);
      assert s == p || s == 1 - p;
      assert w'.peer[p].ch[j] == w.peer[p].ch[j];
      assert StreamAt(w', j) == StreamAt(w, j) && Limit(w', j) == Limit(w, j);
    }
  }

  lemma {:induction false} OneChannel(w: World, w': World, p: nat, i: nat)
    requires Inv(w) && IsPeer(p) && i < NR_CH && SameElsewhere(w, w', p, i)
    requires i == TO_PEER ==> LinkOk(LinkFrom(w', p))
    requires i == FROM_PEER ==> LinkOk(LinkFrom(w', 1 - p))
    requires IsStream(i) ==> StreamOk(StreamAt(w', i), i, Limit(w', i))
    ensures Inv(w')
  {
    hide LinkOk;
    hide StreamOk;
    hide WellFormedPeer;
    hide QueueOk;
    forall q | IsPeer(q)
      ensures LinkOk(LinkFrom(w', q)) && QueueOk(w', q)
    {
      LinkElsewhere(w, w', p, i, q);
    }
    forall j | IsStream(j)
      ensures StreamOk(StreamAt(w', j), j, Limit(w', j))
    {
      StreamElsewhere(w, w', p, i, j);
    }
  }

  lemma {:induction false} ChannelSound(p: Peer, i: nat)
    requires WellFormedPeer(p) && i < NR_CH
    ensures Sound(p.ch[i])
  {
  }

  lemma {:induction false} IoElsewhere(w: World, p: nat, i: nat, e: Event)
    requires Inv(w) && CanMove(w, p, Io(i, e))
    ensures SameElsewhere(w, Advance(w, p, Io(i, e)), p, i)
  {
    hide LinkOk;
    hide StreamOk;
    hide Step;
    hide WellFormedPeer;
    hide Enabled;
    DoKeeps(w.peer[p], Io(i, e));
    assert Sound(w.peer[p].ch[i]) by { ChannelSound(w.peer[p], i); }
    StepContinues(w.peer[p].ch[i], e);
  }

  lemma {:induction false} IoOutgoing(w: World, p: nat, e: Event)
    requires Inv(w) && CanMove(w, p, Io(TO_PEER, e))
    requires Shaped(Advance(w, p, Io(TO_PEER, e)))
    ensures LinkOk(LinkFrom(Advance(w, p, Io(TO_PEER, e)), p))
  {
    var k := LinkFrom(w, p);
    assert LinkOk(k);
    hide LinkOk;
    hide Step;
    match e {
      case Drained(_) => BytesSent(k, e);
      case DrainedEncoded(_, _, _) => BytesSent(k, e);
      case Closed => OutgoingClosed(k, e);
      case Failed => OutgoingClosed(k, e);
      case Got(_) =>
      case GotEncoded(_) =>
    }
  }

  /** A channel that is read from has nothing to drain. */
  lemma {:induction false} NothingDrained(c: Chan, n: nat)
    requires Sound(c) && !c.toFd && Enabled(c, Drained(n))
    ensures Step(c, Drained(n)) == c && c.rb[..n] == []
  {
  }

  lemma {:induction false} IoIncoming(w: World, p: nat, e: Event)
    requires Inv(w) && CanMove(w, p, Io(FROM_PEER, e))
    requires Shaped(Advance(w, p, Io(FROM_PEER, e)))
    ensures LinkOk(LinkFrom(Advance(w, p, Io(FROM_PEER, e)), 1 - p))
  {
    var k := LinkFrom(w, 1 - p);
    assert LinkOk(k);
    hide LinkOk;
    hide Step;
    match e {
      case Got(_) => BytesReceived(k, e);
      case GotEncoded(_) => BytesReceived(k, e);
      case Closed => IncomingClosed(k, e);
      case Failed => IncomingClosed(k, e);
      case Drained(n) => NothingDrained(k.inc, n);
      case DrainedEncoded(_, _, _) =>
    }
  }

  lemma {:induction false} PlainEvents(c: Chan, e: Event)
    requires Enabled(c, e) && !c.adbHack
    ensures !e.GotEncoded? && !e.DrainedEncoded? && (c.toFd ==> !e.Got?)
  {
  }

  lemma {:induction false} IoSource(w: World, p: nat, i: nat, e: Event)
    requires Inv(w) && IsStream(i) && p == Sender(i) && CanMove(w, p, Io(i, e))
    requires Shaped(Advance(w, p, Io(i, e)))
    ensures StreamOk(StreamAt(Advance(w, p, Io(i, e)), i), i, Limit(Advance(w, p, Io(i, e)), i))
  {
    hide LinkOk;
    hide CreditOk;
    hide InOrder;
    hide EndOk;
    hide Enabled;
    hide Step;
    var v := StreamAt(w, i);
    assert StreamOk(v, i, Limit(w, i));
    PlainEvents(v.s, e);
    match e {
      case Got(data) => SourceRead(v, i, Limit(w, i), data);
      case Closed => SourceClosed(v, i, Limit(w, i), e);
      case Failed => SourceClosed(v, i, Limit(w, i), e);
      case Drained(n) =>
        NothingDrained(v.s, n);
        assert w.dest[i] + [] == w.dest[i];
      case _ =>
    }
  }

  lemma {:induction false} IoDest(w: World, p: nat, i: nat, e: Event)
    requires Inv(w) && IsStream(i) && p == 1 - Sender(i) && CanMove(w, p, Io(i, e))
    requires Shaped(Advance(w, p, Io(i, e)))
    ensures StreamOk(StreamAt(Advance(w, p, Io(i, e)), i), i, Limit(Advance(w, p, Io(i, e)), i))
  {
    hide LinkOk;
    hide CreditOk;
    hide InOrder;
    hide EndOk;
    hide Enabled;
    hide Step;
    var v := StreamAt(w, i);
    assert StreamOk(v, i, Limit(w, i));
    PlainEvents(v.r, e);
    StepContinues(v.r, e);
    match e {
      case Drained(n) => DestWritten(v, i, Limit(w, i), n);
      case Closed => DestClosed(v, i, Limit(w, i), e);
      case Failed => DestClosed(v, i, Limit(w, i), e);
      case _ =>
    }
  }

  lemma {:induction false} IoBelongs(w: World, p: nat, i: nat, e: Event)
    requires Inv(w) && CanMove(w, p, Io(i, e))
    requires Shaped(Advance(w, p, Io(i, e)))
    ensures var w' := Advance(w, p, Io(i, e));
            && (i == TO_PEER ==> LinkOk(LinkFrom(w', p)))
            && (i == FROM_PEER ==> LinkOk(LinkFrom(w', 1 - p)))
            && (IsStream(i) ==> StreamOk(StreamAt(w', i), i, Limit(w', i)))
  {
    hide LinkOk;
    hide StreamOk;
    hide Advance;
    hide Shaped;
    hide Inv;
    if i == TO_PEER {
      IoOutgoing(w, p, e);
    } else if i == FROM_PEER {
      IoIncoming(w, p, e);
    } else if p == Sender(i) {
      IoSource(w, p, i, e);
    } else {
      IoDest(w, p, i, e);
    }
  }

  lemma {:induction false} IoKeeps(w: World, p: nat, i: nat, e: Event)
    requires Inv(w) && CanMove(w, p, Io(i, e))
    ensures Inv(Advance(w, p, Io(i, e)))
  {
    hide LinkOk;
    hide StreamOk;
    hide QueueOk;
    hide Advance;
    hide WellFormedPeer;
    hide Enabled;
    IoElsewhere(w, p, i, e);
    IoBelongs(w, p, i, e);
    OneChannel(w, Advance(w, p, Io(i, e)), p, i);
  }

  // ----- Sending -----

  /** w becomes w' by p's sending m and nothing else. */
  ghost predicate Sends(w: World, w': World, p: nat, a: Action, m: Msg)
    requires Shaped(w) && IsPeer(p)
  {
    && Shaped(w')
    && SendsAs(w.peer[p], w'.peer[p], a, m)
    && w'.peer[1 - p] == w.peer[1 - p]
    && w'.queue[p] == w.queue[p] + [m] && w'.queue[1 - p] == w.queue[1 - p]
    && w'.wire == w.wire && w'.source == w.source && w'.dest == w.dest && w'.endSeen == w.endSeen
  }

  lemma {:induction false} AdvanceSends(w: World, p: nat, a: Action)
    requires Shaped(w) && IsSend(a) && CanMove(w, p, a)
    ensures Sends(w, Advance(w, p, a), p, a, MessageOf(w.peer[p], a))
  {
    hide SendsAs;
    hide WellFormedPeer;
    hide Do;
    hide MessageOf;
    DoKeeps(w.peer[p], a);
    SendEffect(w.peer[p], a);
  }

  lemma {:induction false} EofNoted(k: Link)
    requires LinkOk(k)
    ensures LinkOk(k.(out := k.out.(sentEof := true))) && LinkOk(k.(inc := k.inc.(sentEof := true)))
  {
  }

  lemma {:induction false} StreamKinds(w: World, i: nat)
    requires Inv(w) && IsStream(i)
    ensures !w.peer[Sender(i)].ch[i].toFd && w.peer[1 - Sender(i)].ch[i].toFd
  {
    hide LinkOk;
    assert StreamOk(StreamAt(w, i), i, Limit(w, i));
  }

  /** Only the receiver of a stream has anything to acknowledge, and only its sender has anything to send. */
  lemma {:induction false} SentProper(w: World, p: nat, a: Action)
    requires Inv(w) && IsSend(a) && CanMove(w, p, a)
    ensures Proper(MessageOf(w.peer[p], a), p)
  {
    hide Serialize;
    hide QueueOk;
    hide Enabled;
    hide Receive;
    hide StreamOk;
    hide LinkOk;
    var i := a.i;
    if !a.SendEof? {
      ChannelSound(w.peer[p], i);
      if IsStream(i) {
        assert StreamOk(StreamAt(w, i), i, Limit(w, i));
        StreamKinds(w, i);
      }
    }
  }

  lemma {:induction false} SendLink(w: World, w': World, p: nat, a: Action, m: Msg)
    requires Inv(w) && IsPeer(p) && Sends(w, w', p, a, m) && Proper(m, p)
    ensures LinkOk(LinkFrom(w', p)) && LinkOk(LinkFrom(w', 1 - p))
  {
    hide LinkOk;
    hide Step;
    hide Enabled;
    hide WellFormedPeer;
    hide StreamOk;
    var k, other := LinkFrom(w, p), LinkFrom(w, 1 - p);
    assert LinkOk(k) && LinkOk(other) && QueueOk(w, p);
    MessageQueued(k, m);
    EofNoted(k.(out := Step(k.out, Written(Serialize(m), 0)), queue := k.queue + [m]));
    EofNoted(other);
  }

  lemma {:induction false} SendQueue(w: World, w': World, p: nat, a: Action, m: Msg)
    requires Inv(w) && IsPeer(p) && Sends(w, w', p, a, m) && Proper(m, p)
    ensures QueueOk(w', p) && QueueOk(w', 1 - p)
  {
    hide LinkOk;
    hide Step;
    hide Enabled;
    hide WellFormedPeer;
    hide StreamOk;
    hide Proper;
    assert QueueOk(w, p) && QueueOk(w, 1 - p);
  }

  lemma {:induction false} SendOtherStream(w: World, w': World, p: nat, a: Action, m: Msg, j: nat)
    requires Inv(w) && IsPeer(p) && Sends(w, w', p, a, m) && IsStream(j) && j != a.i
    ensures StreamOk(StreamAt(w', j), j, Limit(w', j))
  {
    hide Serialize;
    hide Representable;
    hide MsgSize;
    hide QueueOk;
    hide StreamOk;
    hide LinkOk;
    hide Step;
    hide Enabled;
    hide WellFormedPeer;
    var v := StreamAt(w, j);
    assert StreamOk(v, j, Limit(w, j));
    if p == Sender(j) {
      OtherQueued(v, j, Limit(w, j), m);
    } else {
      AckQueued(v, j, Limit(w, j), m);
    }
  }

  /** What a message must say for stream i when it is sent from this end. */
  ghost predicate SaysWhatItDoes(v: Stream, a: Action, m: Msg, fromSource: bool) {
    match a
    case Ack(i) => !fromSource && m == Window(i, v.r.bytesWritten)
    case SendData(i, n) => fromSource && n <= |v.s.rb| && PayloadOf(m, i) == v.s.rb[..n] && !m.Window? && !m.Close?
    case SendLz4(i, n, _) => fromSource && n <= |v.s.rb| && PayloadOf(m, i) == v.s.rb[..n] && !m.Window? && !m.Close?
    case SendEof(i) => m == Close(i) && (fromSource ==> !v.s.isOpen && v.s.rb == [])
    case _ => false
  }

  lemma {:induction false} SendSays(w: World, p: nat, a: Action)
    requires Inv(w) && IsSend(a) && CanMove(w, p, a) && IsStream(a.i)
    ensures SaysWhatItDoes(StreamAt(w, a.i), a, MessageOf(w.peer[p], a), p == Sender(a.i))
  {
    hide LinkOk;
    hide StreamOk;
    hide WellFormedPeer;
    SentProper(w, p, a);
    StreamKinds(w, a.i);
  }

  lemma {:induction false} SendOwnStream(w: World, w': World, p: nat, a: Action, m: Msg)
    requires Inv(w) && IsPeer(p) && Sends(w, w', p, a, m) && IsStream(a.i)
    requires SaysWhatItDoes(StreamAt(w, a.i), a, m, p == Sender(a.i))
    ensures StreamOk(StreamAt(w', a.i), a.i, Limit(w', a.i))
  {
    hide Serialize;
    hide Representable;
    hide MsgSize;
    hide QueueOk;
    hide StreamOk;
    hide LinkOk;
    hide Step;
    hide Enabled;
    hide WellFormedPeer;
    hide PayloadOf;
    var i := a.i;
    var v := StreamAt(w, i);
    assert StreamOk(v, i, Limit(w, i));
    match a {
      case Ack(_) => CreditSent(v, i, Limit(w, i));
      case SendData(_, n) => DataSent(v, i, Limit(w, i), m, n);
      case SendLz4(_, n, _) => DataSent(v, i, Limit(w, i), m, n);
      case SendEof(_) =>
        if p == Sender(i) {
          EndSent(v, i, Limit(w, i));
        } else {
          DestEndSent(v, i, Limit(w, i));
        }
    }
  }

  lemma {:induction false} SendKeepsInv(w: World, p: nat, a: Action)
    requires Inv(w) && IsSend(a) && CanMove(w, p, a)
    ensures Inv(Advance(w, p, a))
  {
    hide LinkOk;
    hide StreamOk;
    hide QueueOk;
    hide Advance;
    hide MessageOf;
    hide SendsAs;
    hide WellFormedPeer;
    hide Proper;
    var w', m := Advance(w, p, a), MessageOf(w.peer[p], a);
    AdvanceSends(w, p, a);
    SentProper(w, p, a);
    SendLink(w, w', p, a, m);
    SendQueue(w, w', p, a, m);
    forall q | IsPeer(q)
      ensures LinkOk(LinkFrom(w', q)) && QueueOk(w', q)
    {
      assert q == p || q == 1 - p;
    }
    forall j | IsStream(j)
      ensures StreamOk(StreamAt(w', j), j, Limit(w', j))
    {
      if j == a.i {
        SendSays(w, p, a);
        SendOwnStream(w, w', p, a, m);
      } else {
        SendOtherStream(w, w', p, a, m, j);
      }
    }
  }

  // ----- Receiving -----

  /** What processing m does to the channel it is about. */
  ghost predicate Handles(c: Chan, c': Chan, m: Msg, direct: nat) {
    match m
    case Window(_, delta) => !c.toFd && c' == (if c.isOpen then c.(window := c.window + delta) else c)
    case Close(_) => c' == Closing(c.(sentEof := true))
    case _ =>
      var payload := PayloadOf(m, m.ch);
      && c.toFd
      && (!c.isOpen ==> c' == c)
      && (c.isOpen ==> Enabled(c, Written(payload, direct)) && c' == Step(c, Written(payload, direct)))
  }

  /** Peer p becomes q by taking m off its receive buffer and processing it. */
  ghost predicate TakesAs(p: Peer, q: Peer, m: Msg, direct: nat) {
    && |p.ch| == |q.ch| == NR_CH && q.maxOutgoing == p.maxOutgoing
    && MsgSize(m) <= |p.ch[FROM_PEER].rb|
    && q.ch[FROM_PEER] == p.ch[FROM_PEER].(rb := p.ch[FROM_PEER].rb[MsgSize(m)..])
    && (forall j | FROM_PEER < j < NR_CH && !(IsStream(j) && j == m.ch) :: q.ch[j] == p.ch[j])
    && (IsStream(m.ch) ==> Handles(p.ch[m.ch], q.ch[m.ch], m, direct))
  }

  lemma {:induction false} DeliverEffect(p: Peer, m: Msg, direct: nat)
    requires WellFormedPeer(p) && Deliver(p, m, direct).Delivered?
    ensures var q := Deliver(p, m, direct).peer;
            && |q.ch| == NR_CH && q.maxOutgoing == p.maxOutgoing
            && (forall j | 0 <= j < NR_CH && !(IsStream(j) && j == m.ch) :: q.ch[j] == p.ch[j])
            && (IsStream(m.ch) ==> Handles(p.ch[m.ch], q.ch[m.ch], m, direct))
  {
  }

  lemma {:induction false} TakeEffect(p: Peer, m: Msg, direct: nat)
    requires WellFormedPeer(p) && Possible(p, Take(direct))
    requires DetectMsg(p) == Ready(MsgSize(m)) && MsgSize(m) <= |Incoming(p).rb|
    requires Parse(Incoming(p).rb, MsgSize(m)) == Parsed(m)
    ensures TakesAs(p, Do(p, Take(direct)), m, direct)
  {
    hide Parse;
    hide Deliver;
    hide DetectMsg;
    hide Handles;
    DeliverEffect(Consume(p, MsgSize(m)), m, direct);
  }

  ghost predicate Takes(w: World, w': World, p: nat, m: Msg, direct: nat)
    requires Shaped(w) && IsPeer(p)
  {
    && Shaped(w')
    && w.queue[1 - p] != [] && m == w.queue[1 - p][0]
    && w'.queue[1 - p] == w.queue[1 - p][1..] && w'.queue[p] == w.queue[p]
    && w'.peer[1 - p] == w.peer[1 - p] && w'.wire == w.wire && w'.source == w.source
    && TakesAs(w.peer[p], w'.peer[p], m, direct)
    && (forall j | 0 <= j < NR_CH && !(IsStream(j) && j == m.ch) :: w'.dest[j] == w.dest[j] && w'.endSeen[j] == w.endSeen[j])
    && (IsStream(m.ch) ==>
          var c := w.peer[p].ch[m.ch];
          && w'.dest[m.ch] == w.dest[m.ch] + Passed(c, m, direct)
          && w'.endSeen[m.ch] == (w.endSeen[m.ch] || Finishes(c, m)))
  }

  lemma {:induction false} TakenParts(p: Peer, q: Peer, m: Msg, direct: nat)
    requires TakesAs(p, q, m, direct)
    ensures |p.ch| == |q.ch| == NR_CH && q.maxOutgoing == p.maxOutgoing
    ensures MsgSize(m) <= |p.ch[FROM_PEER].rb|
    ensures q.ch[FROM_PEER] == p.ch[FROM_PEER].(rb := p.ch[FROM_PEER].rb[MsgSize(m)..])
    ensures q.ch[TO_PEER] == p.ch[TO_PEER]
  {
  }

  lemma {:induction false} AdvanceTakes(w: World, p: nat, direct: nat)
    requires Inv(w) && CanMove(w, p, Take(direct))
    ensures w.queue[1 - p] != []
    ensures Takes(w, Advance(w, p, Take(direct)), p, w.queue[1 - p][0], direct)
    ensures LinkOk(LinkFrom(Advance(w, p, Take(direct)), 1 - p))
  {
    hide LinkOk;
    hide StreamOk;
    hide QueueOk;
    hide WellFormedPeer;
    hide Do;
    hide TakesAs;
    hide Parse;
    hide Receive;
    hide Detect;
    hide Passed;
    hide Finishes;
    assert LinkOk(LinkFrom(w, 1 - p));
    MessageTaken(LinkFrom(w, 1 - p));
    var m := w.queue[1 - p][0];
    TakeEffect(w.peer[p], m, direct);
    DoKeeps(w.peer[p], Take(direct));
    TakenParts(w.peer[p], Do(w.peer[p], Take(direct)), m, direct);
  }

  lemma {:induction false} TakeOtherStream(w: World, w': World, p: nat, m: Msg, direct: nat, j: nat)
    requires Inv(w) && IsPeer(p) && Takes(w, w', p, m, direct) && IsStream(j) && j != m.ch
    ensures StreamOk(StreamAt(w', j), j, Limit(w', j))
  {
    hide StreamOk;
    hide LinkOk;
    hide QueueOk;
    hide Handles;
    hide MsgSize;
    hide WellFormedPeer;
    var v := StreamAt(w, j);
    assert StreamOk(v, j, Limit(w, j));
    assert w'.peer[p].ch[j] == w.peer[p].ch[j];
    if p == Sender(j) {
      OtherAckTaken(v, j, Limit(w, j));
    } else {
      OtherTaken(v, j, Limit(w, j));
    }
  }

  lemma {:induction false} StreamEnds(v: Stream, i: nat, limit: nat)
    requires StreamOk(v, i, limit)
    ensures v.r.toFd && !v.s.toFd
  {
  }

  /** A message about stream i is processed at its receiving end. */
  lemma {:induction false} TakeAtDest(v: Stream, r': Chan, i: nat, limit: nat, direct: nat)
    requires StreamOk(v, i, limit) && v.data != [] && v.data[0].ch == i && !v.data[0].Window?
    requires Handles(v.r, r', v.data[0], direct)
    ensures StreamOk(v.(r := r', data := v.data[1..], dest := v.dest + Passed(v.r, v.data[0], direct),
                        endSeen := v.endSeen || Finishes(v.r, v.data[0])), i, limit)
  {
    hide StreamOk;
    assert v.r.toFd by { StreamEnds(v, i, limit); }
    var m := v.data[0];
    assert v.dest + [] == v.dest;
    match m {
      case Close(_) => EndArrives(v, i, limit);
      case _ =>
        if v.r.isOpen {
          DataArrives(v, i, limit, direct);
        } else {
          DataDropped(v, i, limit);
        }
    }
  }

  /** A message about stream i is processed at its sending end. */
  lemma {:induction false} TakeAtSource(v: Stream, s': Chan, i: nat, limit: nat, direct: nat)
    requires StreamOk(v, i, limit) && limit <= UINT32_MAX && v.acks != [] && v.acks[0].ch == i
    requires v.acks[0].Window? || v.acks[0].Close?
    requires Handles(v.s, s', v.acks[0], direct)
    ensures StreamOk(v.(s := s', acks := v.acks[1..]), i, limit)
  {
    hide StreamOk;
    if v.acks[0].Window? {
      CreditArrives(v, i, limit);
    } else {
      OtherAckTaken(v, i, limit);
      SourceToldToClose(v.(acks := v.acks[1..]), i, limit);
    }
  }

  lemma {:induction false} PassedNothing(c: Chan, m: Msg, direct: nat)
    requires !c.toFd
    ensures Passed(c, m, direct) == [] && !Finishes(c, m)
  {
  }

  lemma {:induction false} HandlesKeepsCapacity(c: Chan, c': Chan, m: Msg, direct: nat)
    requires Handles(c, c', m, direct)
    ensures c'.capacity == c.capacity
  {
    hide PayloadOf;
    if (m.Data? || m.DataLz4?) && c.isOpen {
      StepKeepsKind(c, Written(PayloadOf(m, m.ch), direct));
    }
  }

  lemma {:induction false} TakeOwnStream(w: World, w': World, p: nat, m: Msg, direct: nat)
    requires Inv(w) && IsPeer(p) && Takes(w, w', p, m, direct) && IsStream(m.ch) && Proper(m, 1 - p)
    ensures StreamOk(StreamAt(w', m.ch), m.ch, Limit(w', m.ch))
  {
    hide StreamOk;
    hide LinkOk;
    hide QueueOk;
    hide Handles;
    hide MsgSize;
    hide WellFormedPeer;
    hide Passed;
    var i := m.ch;
    var v := StreamAt(w, i);
    assert StreamOk(v, i, Limit(w, i));
    StreamEnds(v, i, Limit(w, i));
    if p == Sender(i) {
      TakeAtSource(v, w'.peer[p].ch[i], i, Limit(w, i), direct);
      PassedNothing(v.s, m, direct);
      assert v.dest + [] == v.dest;
    } else {
      TakeAtDest(v, w'.peer[p].ch[i], i, Limit(w, i), direct);
    }
    HandlesKeepsCapacity(w.peer[p].ch[i], w'.peer[p].ch[i], m, direct);
  }

  lemma {:induction false} TakeQueue(w: World, w': World, p: nat, m: Msg, direct: nat)
    requires Inv(w) && IsPeer(p) && Takes(w, w', p, m, direct)
    ensures QueueOk(w', p) && QueueOk(w', 1 - p) && Proper(m, 1 - p)
    ensures LinkOk(LinkFrom(w', p))
  {
    hide StreamOk;
    hide LinkOk;
    hide Handles;
    hide MsgSize;
    hide WellFormedPeer;
    hide Proper;
    assert QueueOk(w, p) && QueueOk(w, 1 - p) && LinkOk(LinkFrom(w, p));
    assert m in w.queue[1 - p];
    assert LinkFrom(w', p) == LinkFrom(w, p);
  }

  lemma {:induction false} TakeKeepsInv(w: World, p: nat, direct: nat)
    requires Inv(w) && CanMove(w, p, Take(direct))
    ensures Inv(Advance(w, p, Take(direct)))
  {
    hide StreamOk;
    hide LinkOk;
    hide QueueOk;
    hide Advance;
    hide WellFormedPeer;
    hide Possible;
    hide TakesAs;
    hide Proper;
    var w' := Advance(w, p, Take(direct));
    AdvanceTakes(w, p, direct);
    var m := w.queue[1 - p][0];
    TakeQueue(w, w', p, m, direct);
    forall q | IsPeer(q)
      ensures LinkOk(LinkFrom(w', q)) && QueueOk(w', q)
    {
      assert q == p || q == 1 - p;
    }
    forall j | IsStream(j)
      ensures StreamOk(StreamAt(w', j), j, Limit(w', j))
    {
      if j == m.ch {
        TakeOwnStream(w, w', p, m, direct);
      } else {
        TakeOtherStream(w, w', p, m, direct, j);
      }
    }
  }

  lemma {:induction false} DropKeepsInv(w: World, p: nat)
    requires Inv(w) && CanMove(w, p, DropPartial)
    ensures Inv(Advance(w, p, DropPartial))
  {
    hide StreamOk;
    hide LinkOk;
    var w' := Advance(w, p, DropPartial);
    var k := LinkFrom(w, 1 - p);
    assert LinkOk(k);
    PartialDropped(k);
    assert k.inc.rb[|k.inc.rb|..] == [];
    assert Shaped(w') by { DoKeeps(w.peer[p], DropPartial); }
    OneChannel(w, w', p, FROM_PEER);
  }

  // ----- Runs -----

  ghost predicate InitialLink(w: World, p: nat)
    requires Shaped(w) && IsPeer(p)
  {
    var out, inc := w.peer[p].ch[TO_PEER], w.peer[1 - p].ch[FROM_PEER];
    && out.isOpen && inc.isOpen && out.rb == [] && inc.rb == []
    && out.adbState == inc.adbState == AdbEnc.Plain && out.adbHack == inc.adbHack
    && inc.window == UINT32_MAX && !inc.trackWindow
    && w.peer[p].maxOutgoing <= inc.capacity
    && w.wire[p] == [] && w.queue[p] == []
  }

  ghost predicate InitialStream(w: World, i: nat)
    requires Shaped(w) && IsStream(i)
  {
    var s, r := w.peer[Sender(i)].ch[i], w.peer[1 - Sender(i)].ch[i];
    && s.isOpen && r.isOpen && !s.toFd && r.toFd && s.rb == [] && r.rb == []
    && s.trackWindow && r.trackBytesWritten && !s.adbHack && !r.adbHack && !r.failed
    && s.window == 0
    && r.bytesWritten == r.capacity % 0x1_0000_0000
    && w.source[i] == [] && w.dest[i] == [] && !w.endSeen[i]
  }

  /** How the client and the stub set up their channels. */
  ghost predicate Initial(w: World) {
    && Shaped(w)
    && (forall p | IsPeer(p) :: InitialLink(w, p))
    && (forall i | IsStream(i) :: InitialStream(w, i))
  }

  lemma {:induction false} EmptyLink(k: Link)
    requires Ends(k) && k.out.rb == [] && k.inc.rb == [] && k.wire == [] && k.queue == []
    requires k.out.adbState == k.inc.adbState == AdbEnc.Plain
    ensures LinkOk(k)
  {
  }

  lemma {:induction false} InitialStreamOk(w: World, i: nat)
    requires Initial(w) && IsStream(i)
    ensures StreamOk(StreamAt(w, i), i, Limit(w, i))
  {
    assert InitialStream(w, i);
    assert InitialLink(w, 0) && InitialLink(w, 1);
    ChannelSound(w.peer[Sender(i)], i);
    ChannelSound(w.peer[1 - Sender(i)], i);
  }

  lemma {:induction false} InitialInv(w: World)
    requires Initial(w)
    ensures Inv(w)
  {
    hide LinkOk;
    hide StreamOk;
    hide Sound;
    forall p | IsPeer(p)
      ensures LinkOk(LinkFrom(w, p)) && QueueOk(w, p)
    {
      assert InitialLink(w, p);
      EmptyLink(LinkFrom(w, p));
    }
    forall i | IsStream(i)
      ensures StreamOk(StreamAt(w, i), i, Limit(w, i))
    {
      InitialStreamOk(w, i);
    }
  }

  lemma {:induction false} MoveKeepsInv(w: World, p: nat, a: Action)
    requires Inv(w) && CanMove(w, p, a)
    ensures Inv(Advance(w, p, a))
  {
    hide Inv;
    hide CanMove;
    hide Advance;
    match a {
      case Io(i, e) => IoKeeps(w, p, i, e);
      case Take(direct) => TakeKeepsInv(w, p, direct);
      case DropPartial => DropKeepsInv(w, p);
      case _ => SendKeepsInv(w, p, a);
    }
  }

  datatype Move = Move(p: nat, a: Action)

  /** The world after a sequence of moves, if each is possible in its turn. */
  ghost function RunWorld(w: World, ms: seq<Move>): Option<World>
    decreases |ms|
  {
    if ms == [] then Some(w)
    else
      var m := ms[|ms| - 1];
      match RunWorld(w, ms[..|ms| - 1])
      case None => None
      case Some(v) =>
        if Shaped(v) && CanMove(v, m.p, m.a) then Some(Advance(v, m.p, m.a)) else None
  }

  ghost predicate Reachable(w: World) {
    exists start, ms :: Initial(start) && RunWorld(start, ms) == Some(w)
  }

  lemma {:induction false} RunsKeepInv(start: World, ms: seq<Move>)
    requires Initial(start) && RunWorld(start, ms).Some?
    ensures Inv(RunWorld(start, ms).value)
    decreases |ms|
  {
    hide Inv;
    hide Initial;
    hide CanMove;
    hide Advance;
    hide Shaped;
    if ms == [] {
      InitialInv(start);
    } else {
      RunsKeepInv(start, ms[..|ms| - 1]);
      var v, m := RunWorld(start, ms[..|ms| - 1]).value, ms[|ms| - 1];
      MoveKeepsInv(v, m.p, m.a);
    }
  }

  lemma {:induction false} ReachableInv(w: World)
    requires Reachable(w)
    ensures Inv(w)
  {
    hide Inv;
    hide Initial;
    hide RunWorld;
    var start, ms :| Initial(start) && RunWorld(start, ms) == Some(w);
    RunsKeepInv(start, ms);
  }

  // ----- Main results -----

  /** What a direct write from channel_write may have taken of a message's payload. */
  predicate DirectOk(p: Peer, m: Msg, direct: nat)
    requires |p.ch| == NR_CH
  {
    IsStream(m.ch) && (m.Data? || m.DataLz4?) ==>
      direct <= |PayloadOf(m, m.ch)| && (direct > 0 ==> MayWriteDirect(p.ch[m.ch], |PayloadOf(m, m.ch)|))
  }

  lemma {:induction false} ProperDelivery(p: Peer, m: Msg, direct: nat)
    requires WellFormedPeer(p) && DirectOk(p, m, direct) && Representable(m)
    requires (m.Data? || m.DataLz4?) ==> IsStream(m.ch) && p.ch[m.ch].toFd && (p.ch[m.ch].isOpen ==> |PayloadOf(m, m.ch)| <= Room(p.ch[m.ch]))
    requires m.DataLz4? ==> m.size != 0 && Decode(m.block, m.size).Text? && |Decode(m.block, m.size).text| == m.size
    requires m.Window? ==> IsStream(m.ch) && !p.ch[m.ch].toFd && (p.ch[m.ch].isOpen ==> p.ch[m.ch].window + m.delta <= UINT32_MAX)
    ensures Deliver(p, m, direct).Delivered?
  {
  }

  lemma {:induction false} LinkSendable(k: Link)
    requires LinkOk(k)
    ensures forall m | m in k.queue :: Representable(m)
  {
  }

  lemma {:induction false} DeliveryPossible(w: World, p: nat, m: Msg)
    requires Inv(w) && IsPeer(p) && w.queue[1 - p] != [] && m == w.queue[1 - p][0]
    ensures Proper(m, 1 - p) && Representable(m)
    ensures (m.Data? || m.DataLz4?) ==> IsStream(m.ch) && w.peer[p].ch[m.ch].toFd && |PayloadOf(m, m.ch)| <= Room(w.peer[p].ch[m.ch])
    ensures m.Window? ==> IsStream(m.ch) && !w.peer[p].ch[m.ch].toFd && w.peer[p].ch[m.ch].window + m.delta <= UINT32_MAX
  {
    hide LinkOk;
    hide StreamOk;
    hide WellFormedPeer;
    hide PayloadOf;
    assert QueueOk(w, 1 - p);
    assert m in w.queue[1 - p];
    assert Representable(m) by { LinkSendable(LinkFrom(w, 1 - p)); }
    if IsStream(m.ch) && !m.Close? {
      var v := StreamAt(w, m.ch);
      assert StreamOk(v, m.ch, Limit(w, m.ch));
      StreamEnds(v, m.ch, Limit(w, m.ch));
      if m.Window? {
        CreditArrives(v, m.ch, Limit(w, m.ch));
      } else {
        DataFits(v, m.ch, Limit(w, m.ch));
      }
    }
  }

  lemma {:induction false} TakePossible(w: World, p: nat, direct: nat)
    requires Inv(w) && IsPeer(p) && DetectMsg(w.peer[p]).Ready?
    requires w.queue[1 - p] != [] && DirectOk(w.peer[p], w.queue[1 - p][0], direct)
    ensures CanMove(w, p, Take(direct))
  {
    hide SerializeAll;
    hide LinkOk;
    hide StreamOk;
    hide QueueOk;
    hide Parse;
    hide Detect;
    hide Deliver;
    hide PayloadOf;
    assert LinkOk(LinkFrom(w, 1 - p));
    MessageTaken(LinkFrom(w, 1 - p));
    var m := w.queue[1 - p][0];
    DeliveryPossible(w, p, m);
    ProperDelivery(Consume(w.peer[p], MsgSize(m)), m, direct);
  }

  /**
    Safety: in no reachable state does either peer find an impossible message,
    a window desync, a window overflow or any other protocol error.
   */
  lemma {:induction false} NeverDies(w: World, p: nat)
    requires Reachable(w) && IsPeer(p)
    ensures Shaped(w) && DetectMsg(w.peer[p]) != Impossible
    ensures DetectMsg(w.peer[p]).Ready? ==>
              && w.queue[1 - p] != []
              && forall direct | DirectOk(w.peer[p], w.queue[1 - p][0], direct) ::
                   CanMove(w, p, Take(direct))
  {
    hide LinkOk;
    hide StreamOk;
    hide QueueOk;
    hide Detect;
    hide DirectOk;
    hide CanMove;
    hide WellFormedPeer;
    ReachableInv(w);
    assert LinkOk(LinkFrom(w, 1 - p));
    MessageTaken(LinkFrom(w, 1 - p));
    if DetectMsg(w.peer[p]).Ready? {
      forall direct | DirectOk(w.peer[p], w.queue[1 - p][0], direct)
        ensures CanMove(w, p, Take(direct))
      {
        TakePossible(w, p, direct);
      }
    }
  }

  /** Conservation: while both ends of a stream are open, no credit is ever lost or made up. */
  lemma {:induction false} CreditConserved(w: World, i: nat)
    requires Reachable(w) && IsStream(i)
    ensures Shaped(w)
    ensures Credit(StreamAt(w, i), i) <= Limit(w, i)
    ensures StreamAt(w, i).s.isOpen && StreamAt(w, i).r.isOpen ==> Credit(StreamAt(w, i), i) == Limit(w, i)
  {
    ReachableInv(w);
    assert StreamOk(StreamAt(w, i), i, Limit(w, i));
  }

  /** Delivery: what has been written is always a prefix of what was read, and the rest is on its way in order. */
  lemma {:induction false} DeliveredInOrder(w: World, i: nat)
    requires Reachable(w) && IsStream(i)
    ensures Shaped(w) && w.dest[i] <= w.source[i]
    ensures var v := StreamAt(w, i);
            v.r.isOpen ==> w.dest[i] + v.r.rb + Payloads(v.data, i) + v.s.rb == w.source[i]
  {
    ReachableInv(w);
    assert StreamOk(StreamAt(w, i), i, Limit(w, i));
  }

  /** A receiver told of the end of its stream, that has since closed without an I/O error, has written all of it. */
  lemma {:induction false} DeliveredCompletely(w: World, i: nat)
    requires Reachable(w) && IsStream(i) && Shaped(w)
    requires w.endSeen[i] && !StreamAt(w, i).r.isOpen && !StreamAt(w, i).r.failed
    ensures w.dest[i] == w.source[i]
  {
    ReachableInv(w);
    assert StreamOk(StreamAt(w, i), i, Limit(w, i));
  }
}
