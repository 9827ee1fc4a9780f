/**
  One direction of the connection: the messages handed to the outgoing channel
  at one end and not yet processed at the other are what the two ring buffers
  and the bytes on the wire spell out, through the escape encoding if it is on.
 */
module Links {
  import opened Bytes
  import opened AdbEnc
  import opened Messages
  import opened Channels
  import opened Peer

  datatype Link = Link(out: Chan, inc: Chan, wire: seq<byte>, queue: seq<Msg>)

  /** What is still to be put on the wire. */
  function Rest(out: Chan): seq<byte>
    requires Sound(out) && out.toFd
  {
    if !out.isOpen then []
    else if out.adbHack then EncodingFrom(out.adbState, out.rb)
    else out.rb
  }

  /** What the receiving end will make of bytes from the wire. */
  function Plaintext(inc: Chan, bytes: seq<byte>): seq<byte> {
    if inc.adbHack then Decoding(inc.adbState != Plain, bytes) else bytes
  }

  ghost predicate Ends(k: Link) {
    && Sound(k.out) && Sound(k.inc) && IsOutgoing(k.out) && !k.inc.toFd
    && k.out.adbHack == k.inc.adbHack && !k.inc.trackWindow
  }

  ghost predicate Sendable(k: Link) {
    forall m | m in k.queue :: Representable(m) && MsgSize(m) <= k.inc.capacity
  }

  ghost predicate Spelled(k: Link)
    requires Ends(k) && Sendable(k)
  {
    var all := SerializeAll(k.queue);
    if k.inc.isOpen then
      var coming := k.inc.rb + Plaintext(k.inc, k.wire + Rest(k.out));
      && coming <= all
      && (k.out.isOpen ==> coming == all)
      && (k.out.isOpen && k.inc.adbHack ==> !DecodingState(k.inc.adbState != Plain, k.wire + Rest(k.out)))
    else
      k.inc.rb <= all
  }

  ghost predicate LinkOk(k: Link) {
    Ends(k) && Sendable(k) && Spelled(k)
  }

  lemma {:induction false} PlaintextPrefix(inc: Chan, a: seq<byte>, b: seq<byte>)
    ensures Plaintext(inc, a) <= Plaintext(inc, a + b)
  {
    if inc.adbHack {
      DecodingAppend(inc.adbState != Plain, a, b);
    }
  }

  lemma {:induction false} PrefixMore(a: seq<byte>, b: seq<byte>, c: seq<byte>)
    requires b <= c
    ensures a + b <= a + c
  {
  }

  lemma {:induction false} MessageQueued(k: Link, m: Msg)
    requires LinkOk(k) && Representable(m) && MsgSize(m) <= k.inc.capacity
    requires Enabled(k.out, Written(Serialize(m), 0))
    ensures LinkOk(k.(out := Step(k.out, Written(Serialize(m), 0)), queue := k.queue + [m]))
  {
    var s := Serialize(m);
    assert s[0..] == s;
    SerializeAllAppend(k.queue, m);
    StepContinues(k.out, Written(s, 0));
    hide Serialize;
    if k.inc.isOpen && k.out.isOpen {
      var before, after := k.wire + Rest(k.out), Step(k.out, Written(s, 0));
      if k.inc.adbHack {
        EncodingFromAppend(k.out.adbState, k.out.rb, s);
        Assoc(k.wire, Rest(k.out), Encoding(s));
        DecodingAppend(k.inc.adbState != Plain, before, Encoding(s));
        RoundTrip(s);
        assert k.wire + Rest(after) == before + Encoding(s);
        Assoc(k.inc.rb, Decoding(k.inc.adbState != Plain, before), s);
      } else {
        Assoc(k.wire, k.out.rb, s);
        Assoc(k.inc.rb, before, s);
      }
    }
  }

  lemma {:induction false} BytesSent(k: Link, e: Event)
    requires LinkOk(k) && Enabled(k.out, e) && (e.Drained? || e.DrainedEncoded?)
    ensures LinkOk(k.(out := Step(k.out, e), wire := k.wire + if e.Drained? then k.out.rb[..e.n] else e.out))
  {
    StepContinues(k.out, e);
    OutgoingStep(k.out, e);
    var moved := if e.Drained? then k.out.rb[..e.n] else e.out;
    var after := Step(k.out, e);
    assert Rest(k.out) == moved + Rest(after) by {
      if e.Drained? {
        assert k.out.rb == k.out.rb[..e.n] + k.out.rb[e.n..];
      }
    }
    Assoc(k.wire, moved, Rest(after));
  }

  lemma {:induction false} OutgoingClosed(k: Link, e: Event)
    requires LinkOk(k) && Enabled(k.out, e) && (e == Closed || e == Failed)
    ensures LinkOk(k.(out := Step(k.out, e)))
  {
    StepContinues(k.out, e);
    OutgoingStep(k.out, e);
    var after := Step(k.out, e);
    if k.inc.isOpen && k.out.isOpen && !after.isOpen {
      assert k.wire + [] == k.wire;
      PlaintextPrefix(k.inc, k.wire, Rest(k.out));
      PrefixMore(k.inc.rb, Plaintext(k.inc, k.wire), Plaintext(k.inc, k.wire + Rest(k.out)));
    }
  }

  lemma {:induction false} BytesReceived(k: Link, e: Event)
    requires LinkOk(k) && Enabled(k.inc, e) && (e.Got? || e.GotEncoded?)
    requires (if e.Got? then e.data else e.chunk) <= k.wire
    ensures LinkOk(k.(inc := Step(k.inc, e), wire := k.wire[|if e.Got? then e.data else e.chunk|..]))
  {
    StepContinues(k.inc, e);
    var moved := if e.Got? then e.data else e.chunk;
    var left := k.wire[|moved|..];
    var after := Step(k.inc, e);
    assert k.wire == moved + left;
    Assoc(moved, left, Rest(k.out));
    if e.Got? {
      Assoc(k.inc.rb, moved, left + Rest(k.out));
    } else {
      DecodingAppend(k.inc.adbState != Plain, moved, left + Rest(k.out));
      assert (after.adbState != Plain) == DecodingState(k.inc.adbState != Plain, moved);
      Assoc(k.inc.rb, Decoding(k.inc.adbState != Plain, moved), Plaintext(after, left + Rest(k.out)));
    }
  }

  lemma {:induction false} IncomingClosed(k: Link, e: Event)
    requires LinkOk(k) && Enabled(k.inc, e) && (e == Closed || e == Failed)
    ensures LinkOk(k.(inc := Step(k.inc, e)))
  {
    StepContinues(k.inc, e);
  }

  lemma {:induction false} CancelPrefix(a: seq<byte>, b: seq<byte>, c: seq<byte>)
    ensures a + b <= a + c ==> b <= c
    ensures a + b == a + c ==> b == c
  {
    assert (a + b)[|a|..] == b && (a + c)[|a|..] == c;
    if a + b <= a + c {
      assert b == (a + c)[..|a + b|][|a|..] == c[..|b|];
    }
  }

  /** The receiver never sees a message that is too large, and takes the oldest one whole. */
  lemma {:induction false} MessageTaken(k: Link)
    requires LinkOk(k)
    ensures Detect(k.inc.rb, Room(k.inc)) != Impossible
    ensures Detect(k.inc.rb, Room(k.inc)).Ready? ==>
              && k.queue != [] && Detect(k.inc.rb, Room(k.inc)) == Ready(MsgSize(k.queue[0]))
              && MsgSize(k.queue[0]) <= |k.inc.rb|
              && Parse(k.inc.rb, MsgSize(k.queue[0])) == Parsed(k.queue[0])
              && LinkOk(k.(inc := k.inc.(rb := k.inc.rb[MsgSize(k.queue[0])..]), queue := k.queue[1..]))
  {
    hide Serialize;
    hide Parse;
    hide Detect;
    var all := SerializeAll(k.queue);
    assert k.inc.rb <= all;
    DetectFirst(k.inc.rb, k.queue, k.inc.capacity);
    if Detect(k.inc.rb, Room(k.inc)).Ready? {
      var size := MsgSize(k.queue[0]);
      var rest := k.inc.rb[size..];
      assert forall m | m in k.queue[1..] :: m in k.queue;
      assert k.queue[0] in k.queue;
      if k.inc.isOpen {
        var tail := Plaintext(k.inc, k.wire + Rest(k.out));
        assert k.inc.rb == Serialize(k.queue[0]) + rest;
        Assoc(Serialize(k.queue[0]), rest, tail);
        CancelPrefix(Serialize(k.queue[0]), rest + tail, SerializeAll(k.queue[1..]));
      }
    }
  }

  lemma {:induction false} PartialDropped(k: Link)
    requires LinkOk(k) && !k.inc.isOpen
    ensures LinkOk(k.(inc := k.inc.(rb := [])))
  {
  }
}
