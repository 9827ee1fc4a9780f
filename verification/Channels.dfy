/**
  One channel: a descriptor with a ring buffer, a credit window or a count of
  bytes to acknowledge, and optionally the escape encoding (channel.c). The
  ring buffer is represented by its contents; module RingBuf shows that it is
  such a queue.
 */
module Channels {
  import opened Wrappers
  import opened Bytes
  import opened AdbEnc
  import opened Messages

  const CHUNK := 4096

  /** The fields of struct channel, as a value. */
  datatype Chan = Chan(
    isOpen: bool,             // fdh != NULL
    toFd: bool,               // CHANNEL_TO_FD
    rb: seq<byte>,
    capacity: nat,
    bytesWritten: nat,
    window: nat,
    adbState: EncState,       // the decoder is inside an escape when it is not Plain
    sentEof: bool,
    pendingClose: bool,
    failed: bool,             // err != 0
    alwaysBuffer: bool,
    trackBytesWritten: bool,
    trackWindow: bool,
    adbHack: bool,
    compress: bool)

  function Min(a: int, b: int): int {
    if a < b then a else b
  }

  predicate Sound(c: Chan) {
    && |c.rb| <= c.capacity
    && c.bytesWritten <= UINT32_MAX
    && c.window <= UINT32_MAX
    && (!c.toFd ==> c.bytesWritten == 0)
    && (c.toFd && c.isOpen ==> Resumable(c.adbState, c.rb))
    && (!c.toFd ==> c.adbState != HalfForbidden)
    && (c.adbHack ==> c.trackBytesWritten == c.trackWindow == false && (c.toFd ==> c.alwaysBuffer && c.bytesWritten == 0))
    && (!c.adbHack ==> c.adbState == Plain)
  }

  function Room(c: Chan): int {
    c.capacity - |c.rb|
  }

  /** channel_wanted_readsz */
  function WantedRead(c: Chan): int {
    if c.toFd || !c.isOpen then 0 else Min(Room(c), c.window)
  }

  /** channel_wanted_writesz, less the one it adds for a pending half escape. */
  function WantedWrite(c: Chan): int {
    if !c.toFd || !c.isOpen then 0 else Min(|c.rb|, UINT32_MAX - c.bytesWritten)
  }

  /** channel_close */
  function Closing(c: Chan): Chan {
    c.(pendingClose := true, isOpen := c.isOpen && c.toFd && c.rb != [])
  }

  /** May channel_write try the descriptor before it buffers? */
  predicate MayWriteDirect(c: Chan, total: nat) {
    && !c.alwaysBuffer && c.rb == [] && !c.adbHack
    && (c.trackBytesWritten ==> total <= UINT32_MAX - c.bytesWritten)
  }

  /** What can happen to a channel in one indivisible piece of work. */
  datatype Event =
    | Got(data: seq<byte>)                       // a plain read
    | GotEncoded(chunk: seq<byte>)               // a read that goes through the decoder
    | Drained(n: nat)                            // a plain write from the ring buffer
    | DrainedEncoded(out: seq<byte>, n: nat, state: EncState)  // an encoded write, n plain bytes used up
    | Failed                                     // an I/O error that is not temporary
    | Closed                                     // channel_close, also at the end of the file
    | Written(data: seq<byte>, direct: nat)      // a call to channel_write

  predicate Enabled(c: Chan, e: Event) {
    match e
    case Got(data) => !c.adbHack && 0 < |data| <= WantedRead(c)
    case GotEncoded(chunk) => c.adbHack && 0 < |chunk| <= WantedRead(c)
    case Drained(n) => !c.adbHack && n <= WantedWrite(c)
    case DrainedEncoded(out, n, state) =>
      && c.adbHack && c.isOpen && c.toFd && n <= |c.rb|
      && Resumable(c.adbState, c.rb) && Resumable(state, c.rb[n..])
      && EncodingFrom(c.adbState, c.rb) == out + EncodingFrom(state, c.rb[n..])
    case Failed => WantedRead(c) > 0 || WantedWrite(c) > 0
    case Closed => true
    case Written(data, direct) =>
      && c.toFd && direct <= |data| && (c.isOpen ==> |data| <= Room(c))
      && (direct > 0 ==> c.isOpen && MayWriteDirect(c, |data|))
  }

  function Step(c: Chan, e: Event): (r: Chan)
    requires Enabled(c, e)
  {
    match e
    case Got(data) =>
      c.(rb := c.rb + data, window := if c.trackWindow then c.window - |data| else c.window)
    case GotEncoded(chunk) =>
      c.(rb := c.rb + Decoding(c.adbState != Plain, chunk),
         adbState := if DecodingState(c.adbState != Plain, chunk) then HalfEscape else Plain)
    case Drained(n) =>
      c.(rb := c.rb[n..], bytesWritten := if c.trackBytesWritten then c.bytesWritten + n else c.bytesWritten)
    case DrainedEncoded(out, n, state) =>
      c.(rb := c.rb[n..], adbState := state)
    case Failed => Closing(c.(rb := if c.toFd then [] else c.rb)).(failed := true)
    case Closed => Closing(c)
    case Written(data, direct) =>
      if !c.isOpen then c
      else c.(rb := c.rb + data[direct..],
              bytesWritten := if c.trackBytesWritten then c.bytesWritten + direct else c.bytesWritten)
  }

  /** What a channel becomes by these events, if each is possible in its turn. */
  ghost function Run(c: Chan, es: seq<Event>): Option<Chan>
    decreases |es|
  {
    if es == [] then Some(c)
    else
      var e := es[|es| - 1];
      match Run(c, es[..|es| - 1])
      case None => None
      case Some(b) => if Enabled(b, e) then Some(Step(b, e)) else None
  }

  lemma {:induction false} OneMore(c: Chan, es: seq<Event>, b: Chan, e: Event)
    requires Run(c, es) == Some(b) && Enabled(b, e)
    ensures Run(c, es + [e]) == Some(Step(b, e))
  {
    assert (es + [e])[..|es|] == es;
  }

  /** The events are transfers of encoded bytes, and then these. */
  ghost predicate EncodedThen(es: seq<Event>, last: seq<Event>) {
    && |last| <= |es| && es[|es| - |last|..] == last
    && forall i | 0 <= i < |es| - |last| :: es[i].GotEncoded? || es[i].DrainedEncoded?
  }

  /** What never changes about a channel, and what only changes one way. */
  ghost predicate Continues(c: Chan, d: Chan) {
    && d.toFd == c.toFd && d.capacity == c.capacity
    && d.alwaysBuffer == c.alwaysBuffer && d.trackBytesWritten == c.trackBytesWritten
    && d.trackWindow == c.trackWindow && d.adbHack == c.adbHack && d.compress == c.compress
    && (d.isOpen ==> c.isOpen) && (c.pendingClose ==> d.pendingClose) && (c.failed ==> d.failed)
  }

  lemma {:induction false} ResumableLonger(state: EncState, a: seq<byte>, b: seq<byte>)
    ensures Resumable(state, a) ==> Resumable(state, a + b)
  {
  }

  lemma {:induction false} PlainResumable(rest: seq<byte>)
    ensures Resumable(Plain, rest)
  {
  }

  lemma {:induction false} StepSound(c: Chan, e: Event)
    requires Sound(c) && Enabled(c, e)
    ensures Sound(Step(c, e))
  {
    hide Resumable;
    hide EncodingFrom;
    hide Decoding;
    hide DecodingState;
    match e {
      case GotEncoded(chunk) => DecodingShortens(c.adbState != Plain, chunk);
      case Written(data, direct) => ResumableLonger(c.adbState, c.rb, data[direct..]);
      case DrainedEncoded(_, _, _) =>
      case Drained(n) => PlainResumable(c.rb[n..]);
      case _ =>
    }
  }

  lemma {:induction false} StepKeepsKind(c: Chan, e: Event)
    requires Enabled(c, e)
    ensures Continues(c, Step(c, e)) && Step(c, e).sentEof == c.sentEof
  {
    hide Resumable;
    hide EncodingFrom;
    hide Decoding;
    hide DecodingState;
  }

  lemma {:induction false} StepContinues(c: Chan, e: Event)
    requires Sound(c) && Enabled(c, e)
    ensures Sound(Step(c, e)) && Continues(c, Step(c, e))
    ensures Step(c, e).sentEof == c.sentEof
  {
    hide Step;
    hide Sound;
    hide Continues;
    StepSound(c, e);
    StepKeepsKind(c, e);
  }

  lemma {:induction false} RunAppend(c: Chan, es: seq<Event>, b: Chan, more: seq<Event>)
    requires Run(c, es) == Some(b) && Run(b, more).Some?
    ensures Run(c, es + more) == Run(b, more)
    decreases |more|
  {
    if more == [] {
      assert es + more == es;
    } else {
      var butLast := more[..|more| - 1];
      RunAppend(c, es, b, butLast);
      assert (es + more)[..|es + more| - 1] == es + butLast;
    }
  }

  /** Adds an event that has just happened to a record of events. */
  ghost method Record(c: Chan, es: seq<Event>, b: Chan, e: Event) returns (more: seq<Event>)
    requires Run(c, es) == Some(b) && Sound(b) && Enabled(b, e)
    ensures more == es + [e] && Run(c, more) == Some(Step(b, e)) && Sound(Step(b, e))
  {
    more := es + [e];
    OneMore(c, es, b, e);
    StepContinues(b, e);
  }

  lemma {:induction false} EncodedAndLast(es: seq<Event>, e: Event)
    requires EncodedThen(es, [])
    ensures EncodedThen(es + [e], [e])
  {
  }

  lemma {:induction false} NoEvents(c: Chan)
    ensures Run(c, []) == Some(c)
  {
  }

  // ----- The descriptor -----

  datatype Input = Received(data: seq<byte>) | InputAgain | InputError
  datatype Output = Sent(n: nat) | OutputAgain | OutputError

  /** read(2), nonblocking: any number of bytes up to the maximum, none at the end of the file. */
  method ReadFd(max: nat) returns (r: Input)
    ensures r.Received? ==> |r.data| <= max
  {
    r :| r.Received? ==> |r.data| <= max;
  }

  /** write(2), nonblocking: any positive number of the bytes offered. */
  method WriteFd(offered: nat) returns (r: Output)
    ensures r.Sent? ==> r.n <= offered && (offered > 0 ==> r.n > 0)
  {
    r :| r.Sent? ==> r.n <= offered && (offered > 0 ==> r.n > 0);
  }

  lemma {:induction false} EmptyEncoding(state: EncState)
    ensures Resumable(state, []) ==> EncodingFrom(state, []) == []
  {
  }

  lemma {:induction false} EncodesSomething(state: EncState, plain: seq<byte>)
    requires plain != [] && Resumable(state, plain)
    ensures EncodingFrom(state, plain) != []
  {
    EncodingLength(plain);
  }

  class Channel {
    var isOpen: bool
    const toFd: bool
    var rb: seq<byte>
    const capacity: nat
    var bytesWritten: nat
    var window: nat
    var adbState: EncState
    var sentEof: bool
    var pendingClose: bool
    var failed: bool
    const alwaysBuffer: bool
    const trackBytesWritten: bool
    const trackWindow: bool
    const adbHack: bool
    const compress: bool

    ghost function State(): Chan
      reads this
    {
      Chan(isOpen, toFd, rb, capacity, bytesWritten, window, adbState, sentEof, pendingClose, failed,
           alwaysBuffer, trackBytesWritten, trackWindow, adbHack, compress)
    }

    constructor (c: Chan)
      ensures State() == c
    {
      isOpen, toFd, rb, capacity := c.isOpen, c.toFd, c.rb, c.capacity;
      bytesWritten, window, adbState := c.bytesWritten, c.window, c.adbState;
      sentEof, pendingClose, failed := c.sentEof, c.pendingClose, c.failed;
      alwaysBuffer, trackBytesWritten, trackWindow := c.alwaysBuffer, c.trackBytesWritten, c.trackWindow;
      adbHack, compress := c.adbHack, c.compress;
    }

    function RoomLeft(): int
      reads this
    {
      capacity - |rb|
    }

    /** channel_close */
    method Close()
      modifies this
      ensures State() == Step(old(State()), Closed)
      ensures pendingClose && rb == old(rb)
    {
      pendingClose := true;
      if isOpen && ((toFd && rb == []) || !toFd) {
        isOpen := false;
      }
    }

    /** channel_write */
    method Write(data: seq<byte>) returns (ghost direct: nat)
      requires toFd && Sound(State()) && (isOpen ==> |data| <= RoomLeft())
      modifies this
      ensures Enabled(old(State()), Written(data, direct))
      ensures State() == Step(old(State()), Written(data, direct))
    {
      direct := 0;
      if !isOpen {
        return;
      }
      var tryDirect := !alwaysBuffer && rb == [];
      var sent := 0;
      if adbHack {
        tryDirect := false;
      }
      if tryDirect && trackBytesWritten && UINT32_MAX - bytesWritten < |data| {
        tryDirect := false;
      }
      if tryDirect {
        var res := WriteFd(|data|);
        if res.Sent? {
          sent := res.n;
        }
        if trackBytesWritten {
          bytesWritten := bytesWritten + sent;
        }
      }
      rb := rb + data[sent..];
      direct := sent;
    }

    function WantedReadSize(): (sz: int)
      reads this
      ensures sz == WantedRead(State())
    {
      if toFd || !isOpen then 0 else Min(RoomLeft(), window)
    }

    function WantedWriteSize(): (sz: int)
      reads this
      ensures sz == WantedWrite(State())
    {
      if !toFd || !isOpen then 0 else Min(|rb|, UINT32_MAX - bytesWritten)
    }

    /** channel_read_1, with the credit it uses up. */
    method ReadPlain(sz: nat) returns (result: Input, nrRead: nat, ghost events: seq<Event>)
      requires Sound(State()) && !adbHack && 0 < sz == WantedRead(State())
      modifies this`rb, this`window
      ensures Run(old(State()), events) == Some(State()) && Sound(State())
      ensures WantedRead(State()) >= sz - nrRead
      ensures nrRead == if result.Received? then |result.data| else 0
      ensures events == if nrRead > 0 then [Got(result.data)] else []
      ensures rb == old(rb) + if nrRead > 0 then result.data else []
    {
      hide Run;
      NoEvents(State());
      result := ReadFd(sz);
      nrRead, events := 0, [];
      if result.Received? && result.data != [] {
        nrRead := |result.data|;
        ghost var before := State();
        rb := rb + result.data;
        if trackWindow {
          window := window - nrRead;
        }
        events := Record(old(State()), events, before, Got(result.data));
      }
    }

    /** What channel_poll does about an error that is not temporary: purge what can never be written, and close. */
    method Fail()
      modifies this
      ensures WantedRead(old(State())) > 0 || WantedWrite(old(State())) > 0 ==> State() == Step(old(State()), Failed)
      ensures rb == if toFd then [] else old(rb)
    {
      if toFd {
        rb := [];
      }
      Close();
      failed := true;
    }

    /** Decodes one chunk into the ring buffer. */
    method DecodeChunk(data: seq<byte>) returns (added: nat)
      requires Enabled(State(), GotEncoded(data))
      modifies this`rb, this`adbState
      ensures State() == Step(old(State()), GotEncoded(data))
      ensures |rb| == old(|rb|) + added && added <= |data|
    {
      var buf := new byte[|data|];
      var inside, dec, pos := Decode(adbState != Plain, buf, 0, |data|, data, 0, |data|);
      DecodingShortens(adbState != Plain, data[0..pos]);
      assert data[0..pos] == data;
      rb := rb + buf[0..dec];
      adbState := if inside then HalfEscape else Plain;
      added := dec;
    }

    /** channel_read_adb_hack: an error counts only if nothing was added. */
    method ReadEncoded(sz: nat) returns (result: Input, nrAdded: nat, ghost events: seq<Event>)
      requires Sound(State()) && adbHack && 0 < sz == WantedRead(State())
      modifies this`rb, this`adbState
      ensures Run(old(State()), events) == Some(State()) && Sound(State()) && isOpen
      ensures nrAdded <= sz && |rb| == old(|rb|) + nrAdded
      ensures WantedRead(State()) >= sz - nrAdded
      ensures !result.Received? ==> nrAdded == 0
      ensures EncodedThen(events, [])
    {
      hide Run;
      hide Decoding;
      hide DecodingState;
      nrAdded, events, result := 0, [], Received([]);
      NoEvents(State());
      var wireLeft: nat := *;  // what the peer will have sent while this call lasts
      while nrAdded < sz
        invariant Sound(State()) && isOpen && Run(old(State()), events) == Some(State())
        invariant WantedRead(State()) >= sz - nrAdded
        invariant 0 <= nrAdded <= sz && |rb| == old(|rb|) + nrAdded
        invariant result.Received? && EncodedThen(events, [])
        decreases wireLeft
      {
        var r := ReadFd(Min(Min(sz - nrAdded, CHUNK), wireLeft));
        if !r.Received? && nrAdded == 0 {
          result := r;
          return;
        }
        if !r.Received? || r.data == [] {
          break;
        }
        wireLeft := wireLeft - |r.data|;
        ghost var before := State();
        OneMore(old(State()), events, before, GotEncoded(r.data));
        StepContinues(before, GotEncoded(r.data));
        events := events + [GotEncoded(r.data)];
        var added := DecodeChunk(r.data);
        nrAdded := nrAdded + added;
      }
    }

    /** The reading half of poll_channel_2. */
    method PollRead() returns (result: Input, ghost events: seq<Event>)
      requires Sound(State()) && WantedRead(State()) > 0
      modifies this
      ensures Run(old(State()), events) == Some(State()) && Sound(State())
      ensures !adbHack ==> events == match result
                           case Received(data) => [if data == [] then Closed else Got(data)]
                           case InputAgain => []
                           case InputError => [Failed]
      ensures adbHack ==> EncodedThen(events, match result
                          case Received(_) => if |rb| == old(|rb|) then [Closed] else []
                          case InputAgain => []
                          case InputError => [Failed])
      ensures !result.Received? ==> |rb| == old(|rb|)
    {
      hide Run;
      hide Step;
      hide Sound;
      hide EncodedThen;
      var nrRead;
      if adbHack {
        result, nrRead, events := ReadEncoded(WantedReadSize());
      } else {
        result, nrRead, events := ReadPlain(WantedReadSize());
      }
      ghost var before, transfers := State(), events;
      if !result.Received? {
        if result.InputError? {
          Fail();
          events := Record(old(State()), transfers, before, Failed);
        }
      } else if nrRead == 0 {
        Close();
        events := Record(old(State()), transfers, before, Closed);
      }
      if adbHack && events != transfers {
        EncodedAndLast(transfers, events[|events| - 1]);
      }
    }

    /** channel_write_1, with the bytes it will have acknowledged. */
    method WritePlain(sz: nat) returns (result: Output, ghost events: seq<Event>)
      requires Sound(State()) && !adbHack && 0 < sz == WantedWrite(State())
      modifies this`rb, this`bytesWritten
      ensures Run(old(State()), events) == Some(State()) && Sound(State())
      ensures events == if result.Sent? then [Drained(result.n)] else []
      ensures !result.Sent? ==> WantedWrite(State()) > 0
    {
      hide Run;
      NoEvents(State());
      result := WriteFd(sz);
      events := [];
      if result.Sent? {
        ghost var before := State();
        rb := rb[result.n..];
        if trackBytesWritten {
          bytesWritten := bytesWritten + result.n;
        }
        events := Record(old(State()), events, before, Drained(result.n));
      }
    }

    /** Re-runs the encoder as if only the n bytes that were written had fitted. */
    method ResumeAfter(plain: seq<byte>, n: nat, ghost written: seq<byte>) returns (used: nat, ghost event: Event)
      requires adbHack && isOpen && toFd && plain <= rb && Sound(State())
      requires plain != [] && n > 0 && |written| == n
      requires written <= EncodingFrom(adbState, plain)
      modifies this`rb, this`adbState
      ensures used <= |plain| && Enabled(old(State()), event) && State() == Step(old(State()), event)
      ensures event == DrainedEncoded(written, used, adbState)
      ensures Resumable(adbState, plain[used..])
      ensures |EncodingFrom(adbState, plain[used..])| < |EncodingFrom(old(adbState), plain)|
    {
      hide EncodingFrom;
      var buf := new byte[n];
      var state, enc, pos := Encode(adbState, buf, 0, n, plain, 0, |plain|);
      assert plain[0..|plain|] == plain && plain[pos..|plain|] == plain[pos..];
      ghost var rest := rb[|plain|..];
      assert buf[0..enc] == written by {
        EmptyEncoding(state);
        assert (buf[0..enc] + EncodingFrom(state, plain[pos..]))[..enc] == buf[0..enc];
      }
      assert rb == plain + rest && rb[pos..] == plain[pos..] + rest;
      EncodingFromAppend(adbState, plain, rest);
      EncodingFromAppend(state, plain[pos..], rest);
      Assoc(written, EncodingFrom(state, plain[pos..]), Encoding(rest));
      event := DrainedEncoded(written, pos, state);
      rb := rb[pos..];
      adbState := state;
      used := pos;
    }

    /** One write of encoded bytes. */
    method WriteOnce(left: nat) returns (r: Output, used: nat, ghost event: Event)
      requires Sound(State()) && adbHack && isOpen && toFd && 0 < left <= |rb|
      modifies this`rb, this`adbState
      ensures !r.Sent? ==> State() == old(State())
      ensures r.Sent? ==> event.DrainedEncoded?
      ensures r.Sent? ==> used <= left <= |rb| + used && Enabled(old(State()), event) && State() == Step(old(State()), event)
      ensures r.Sent? ==> Resumable(adbState, rb[..left - used])
      ensures r.Sent? ==> |EncodingFrom(adbState, rb[..left - used])| < old(|EncodingFrom(adbState, rb[..left])|)
    {
      hide EncodingFrom;
      var plain := rb[..left];
      event, used := Closed, 0;
      var encbuf := new byte[CHUNK];
      var pass1State, enc, pass1Pos := Encode(adbState, encbuf, 0, CHUNK, plain, 0, left);
      assert plain[0..left] == plain;
      r := WriteFd(enc);
      if r.Sent? {
        EncodesSomething(adbState, plain);
        EmptyEncoding(pass1State);
        used, event := ResumeAfter(plain, r.n, encbuf[0..enc][..r.n]);
        assert rb[..left - used] == plain[used..];
      }
    }

    /**
      channel_write_adb_hack: encode as much as fits a buffer, write it, and
      encode again only as much as was written, to find where to resume.
     */
    method WriteEncoded(sz: nat) returns (result: Output, ghost events: seq<Event>)
      requires Sound(State()) && adbHack && 0 < sz == WantedWrite(State())
      modifies this`rb, this`adbState
      ensures Run(old(State()), events) == Some(State()) && Sound(State()) && isOpen
      ensures !result.Sent? ==> WantedWrite(State()) > 0
      ensures EncodedThen(events, [])
    {
      hide EncodingFrom;
      hide Run;
      var left := sz;
      result, events := Sent(0), [];
      NoEvents(State());
      ghost var measure := |EncodingFrom(adbState, rb[..left])|;
      while left > 0
        invariant 0 <= left <= |rb| && Resumable(adbState, rb[..left])
        invariant Sound(State()) && isOpen && Run(old(State()), events) == Some(State())
        invariant measure == |EncodingFrom(adbState, rb[..left])|
        invariant EncodedThen(events, [])
        decreases measure
      {
        ghost var before := State();
        var r, used;
        ghost var event;
        r, used, event := WriteOnce(left);
        if !r.Sent? {
          if left == sz {
            result := r;
          }
          break;
        }
        left := left - used;
        OneMore(old(State()), events, before, event);
        StepContinues(before, event);
        events := events + [event];
        measure := |EncodingFrom(adbState, rb[..left])|;
      }
    }

    /** The writing half of poll_channel_2. */
    method PollWrite() returns (result: Output, ghost events: seq<Event>)
      requires Sound(State()) && WantedWrite(State()) > 0
      modifies this
      ensures Run(old(State()), events) == Some(State()) && Sound(State())
      ensures !adbHack ==> events == match result
                           case Sent(n) => if pendingClose && rb == [] then [Drained(n), Closed] else [Drained(n)]
                           case OutputAgain => []
                           case OutputError => [Failed]
      ensures adbHack ==> EncodedThen(events, match result
                          case Sent(_) => if pendingClose && rb == [] then [Closed] else []
                          case OutputAgain => []
                          case OutputError => [Failed])
    {
      hide Run;
      hide Step;
      hide Sound;
      hide EncodedThen;
      if adbHack {
        result, events := WriteEncoded(WantedWriteSize());
      } else {
        result, events := WritePlain(WantedWriteSize());
      }
      ghost var before, transfers := State(), events;
      if !result.Sent? {
        if result.OutputError? {
          Fail();
          events := Record(old(State()), transfers, before, Failed);
        }
      } else if pendingClose && rb == [] {
        Close();
        events := Record(old(State()), transfers, before, Closed);
      }
      if adbHack && events != transfers {
        EncodedAndLast(transfers, events[|events| - 1]);
      }
    }

    /** channel_poll: read what there is room and credit for, or write what is buffered. */
    method Poll() returns (ghost events: seq<Event>)
      requires Sound(State())
      modifies this
      ensures Run(old(State()), events) == Some(State()) && Sound(State())
      ensures forall e | e in events :: !e.Written?
      ensures WantedRead(old(State())) <= 0 && WantedWrite(old(State())) <= 0 ==> events == []
    {
      hide Run;
      hide Step;
      hide Sound;
      NoEvents(State());
      events := [];
      if WantedReadSize() > 0 {
        var _, done := PollRead();
        events := done;
      }
      if WantedWriteSize() > 0 {
        ghost var before := State();
        var _, more := PollWrite();
        RunAppend(old(State()), events, before, more);
        events := events + more;
      }
    }
  }
}
