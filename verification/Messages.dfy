/** The four messages of the stream protocol and their packed little-endian layout (proto.h). */
module Messages {
  import opened Bytes

  const MSG_CHANNEL_DATA := 40
  const MSG_CHANNEL_DATA_LZ4 := 41
  const MSG_CHANNEL_WINDOW := 42
  const MSG_CHANNEL_CLOSE := 43

  const HEADER := 4
  const DATA_HEADER := 5
  const LZ4_HEADER := 7
  const WINDOW_SIZE := 9
  const CLOSE_SIZE := 5

  const UINT16_MAX := 0xFFFF
  const UINT32_MAX := 0xFFFF_FFFF

  datatype Msg =
    | Data(ch: nat, payload: seq<byte>)
    | DataLz4(ch: nat, size: nat, block: seq<byte>)
    | Window(ch: nat, delta: nat)
    | Close(ch: nat)

  function MsgSize(m: Msg): nat {
    match m
    case Data(_, payload) => DATA_HEADER + |payload|
    case DataLz4(_, _, block) => LZ4_HEADER + |block|
    case Window(_, _) => WINDOW_SIZE
    case Close(_) => CLOSE_SIZE
  }

  /** The message's numbers fit their fields. */
  predicate Representable(m: Msg) {
    && m.ch < 256
    && MsgSize(m) <= UINT16_MAX
    && (m.DataLz4? ==> m.size <= UINT16_MAX)
    && (m.Window? ==> m.delta <= UINT32_MAX)
  }

  function Put16(n: nat): seq<byte>
    requires n <= UINT16_MAX
  {
    [n % 256, n / 256]
  }

  function Put32(n: nat): seq<byte>
    requires n <= UINT32_MAX
  {
    Put16(n % 0x1_0000) + Put16(n / 0x1_0000)
  }

  function Get16(s: seq<byte>, at: nat): nat
    requires at + 2 <= |s|
  {
    s[at] as int + 256 * (s[at + 1] as int)
  }

  function Get32(s: seq<byte>, at: nat): nat
    requires at + 4 <= |s|
  {
    Get16(s, at) + 0x1_0000 * Get16(s, at + 2)
  }

  function TypeOf(m: Msg): nat {
    match m
    case Data(_, _) => MSG_CHANNEL_DATA
    case DataLz4(_, _, _) => MSG_CHANNEL_DATA_LZ4
    case Window(_, _) => MSG_CHANNEL_WINDOW
    case Close(_) => MSG_CHANNEL_CLOSE
  }

  function Head(m: Msg): seq<byte>
    requires Representable(m)
  {
    Put16(MsgSize(m)) + Put16(TypeOf(m))
  }

  function Body(m: Msg): seq<byte>
    requires Representable(m)
  {
    match m
    case Data(ch, payload) => [ch as byte] + payload
    case DataLz4(ch, size, block) => Put16(size) + [ch as byte] + block
    case Window(ch, delta) => Put32(delta) + [ch as byte]
    case Close(ch) => [ch as byte]
  }

  function Serialize(m: Msg): (s: seq<byte>)
    requires Representable(m)
    ensures |s| == MsgSize(m)
  {
    Head(m) + Body(m)
  }

  function SerializeAll(ms: seq<Msg>): seq<byte>
    requires forall m | m in ms :: Representable(m)
  {
    if ms == [] then [] else Serialize(ms[0]) + SerializeAll(ms[1..])
  }

  // ----- Reading a message back -----

  /** What detect_msg finds at the front of the receive buffer. */
  datatype Detected = NotYet | Impossible | Ready(size: nat)

  function Detect(rb: seq<byte>, room: int): Detected {
    if |rb| < HEADER then NotYet
    else
      var size := Get16(rb, 0);
      if |rb| < size then (if size - |rb| > room then Impossible else NotYet)
      else Ready(size)
  }

  datatype Parsed = Parsed(msg: Msg) | ProtocolError

  /** fb_adb_sh_process_msg, as far as it takes a message of the given size off the front of the buffer. */
  function Parse(rb: seq<byte>, size: nat): Parsed
    requires HEADER <= |rb| && size <= |rb|
  {
    var ty := Get16(rb, 2);
    if ty == MSG_CHANNEL_DATA then
      if size < DATA_HEADER then ProtocolError else Parsed(Data(rb[4] as int, rb[5..size]))
    else if ty == MSG_CHANNEL_DATA_LZ4 then
      if size < LZ4_HEADER then ProtocolError else Parsed(DataLz4(rb[6] as int, Get16(rb, 4), rb[7..size]))
    else if ty == MSG_CHANNEL_WINDOW then
      if size != WINDOW_SIZE then ProtocolError else Parsed(Window(rb[8] as int, Get32(rb, 4)))
    else if ty == MSG_CHANNEL_CLOSE then
      if size != CLOSE_SIZE then ProtocolError else Parsed(Close(rb[4] as int))
    else ProtocolError
  }

  lemma {:induction false} HeadReads(m: Msg, rest: seq<byte>)
    requires Representable(m)
    ensures Get16(Head(m) + rest, 0) == MsgSize(m) && Get16(Head(m) + rest, 2) == TypeOf(m)
  {
    var n := MsgSize(m);
    assert n % 256 + 256 * (n / 256) == n;
  }

  lemma {:induction false} Get32Inverts(n: nat, before: seq<byte>, after: seq<byte>)
    requires n <= UINT32_MAX
    ensures Get32(before + Put32(n) + after, |before|) == n
  {
    var s := before + Put32(n) + after;
    var lo, hi := n % 0x1_0000, n / 0x1_0000;
    assert Put32(n) == [lo % 256, lo / 256, hi % 256, hi / 256];
    assert s[|before|..|before| + 4] == Put32(n);
    assert Get16(s, |before|) == lo && Get16(s, |before| + 2) == hi;
  }

  /** The header of a serialized message gives its size and type. */
  lemma {:induction false} SerializedHead(m: Msg, rest: seq<byte>)
    requires Representable(m)
    ensures |Serialize(m) + rest| >= HEADER
    ensures Get16(Serialize(m) + rest, 0) == MsgSize(m) && Get16(Serialize(m) + rest, 2) == TypeOf(m)
  {
    hide Body;
    hide Get16;
    Assoc(Head(m), Body(m), rest);
    HeadReads(m, Body(m) + rest);
  }

  lemma {:induction false} ParseDataInverts(m: Msg, rb: seq<byte>)
    requires (m.Data? || m.Close?) && Representable(m) && Serialize(m) <= rb
    requires Get16(rb, 2) == TypeOf(m)
    ensures Parse(rb, MsgSize(m)) == Parsed(m)
  {
    assert rb[..MsgSize(m)] == Head(m) + Body(m);
    assert rb[4] == (Head(m) + Body(m))[4] == m.ch as byte;
    if m.Data? {
      assert rb[5..MsgSize(m)] == rb[..MsgSize(m)][5..] == m.payload;
    }
  }

  lemma {:induction false} ParseLz4Inverts(m: Msg, rb: seq<byte>)
    requires m.DataLz4? && Representable(m) && Serialize(m) <= rb
    requires Get16(rb, 2) == TypeOf(m)
    ensures Parse(rb, MsgSize(m)) == Parsed(m)
  {
    var s := Head(m) + (Put16(m.size) + [m.ch as byte] + m.block);
    assert rb[..MsgSize(m)] == s;
    assert rb[4] == s[4] == Put16(m.size)[0] && rb[5] == s[5] == Put16(m.size)[1] && rb[6] == s[6] == m.ch as byte;
    assert rb[7..MsgSize(m)] == rb[..MsgSize(m)][7..] == m.block;
  }

  lemma {:induction false} ParseWindowInverts(m: Msg, rb: seq<byte>)
    requires m.Window? && Representable(m) && Serialize(m) <= rb
    requires Get16(rb, 2) == TypeOf(m)
    ensures Parse(rb, MsgSize(m)) == Parsed(m)
  {
    var s := Head(m) + (Put32(m.delta) + [m.ch as byte]);
    assert rb[..MsgSize(m)] == s;
    var rest := rb[MsgSize(m)..];
    assert rb == Head(m) + Put32(m.delta) + ([m.ch as byte] + rest);
    assert rb[8] == s[8] == m.ch as byte;
    hide Get32;
    Get32Inverts(m.delta, Head(m), [m.ch as byte] + rest);
  }

  /** A message is recognised and read back exactly, whatever follows it. */
  lemma {:induction false} ParseInverts(m: Msg, rest: seq<byte>, room: int)
    requires Representable(m)
    ensures |Serialize(m) + rest| >= HEADER
    ensures Detect(Serialize(m) + rest, room) == Ready(MsgSize(m))
    ensures Parse(Serialize(m) + rest, MsgSize(m)) == Parsed(m)
  {
    hide Parse;
    hide Serialize;
    hide Get16;
    SerializedHead(m, rest);
    var rb := Serialize(m) + rest;
    assert rb[..MsgSize(m)] == Serialize(m);
    match m {
      case Data(_, _) => ParseDataInverts(m, rb);
      case DataLz4(_, _, _) => ParseLz4Inverts(m, rb);
      case Window(_, _) => ParseWindowInverts(m, rb);
      case Close(_) => ParseDataInverts(m, rb);
    }
  }

  /**
    A receive buffer that is a prefix of a stream of messages holds a complete
    message exactly if the first message is there in full.
   */
  lemma {:induction false} DetectFirst(rb: seq<byte>, ms: seq<Msg>, capacity: nat)
    requires forall m | m in ms :: Representable(m) && MsgSize(m) <= capacity
    requires rb <= SerializeAll(ms) && |rb| <= capacity
    ensures Detect(rb, capacity - |rb|) != Impossible
    ensures Detect(rb, capacity - |rb|).Ready? ==>
              && ms != [] && Detect(rb, capacity - |rb|) == Ready(MsgSize(ms[0]))
              && Serialize(ms[0]) <= rb && Parse(rb, MsgSize(ms[0])) == Parsed(ms[0])
              && rb[MsgSize(ms[0])..] <= SerializeAll(ms[1..])
  {
    hide Parse;
    hide Serialize;
    if |rb| >= HEADER {
      var m, tail := ms[0], SerializeAll(ms[1..]);
      assert m in ms;
      var all := Serialize(m) + tail;
      SerializedHead(m, tail);
      assert rb[0] == all[0] && rb[1] == all[1];
      if |rb| >= MsgSize(m) {
        var rest := rb[MsgSize(m)..];
        assert rb[..MsgSize(m)] == all[..MsgSize(m)] == Serialize(m);
        assert rb == Serialize(m) + rest;
        ParseInverts(m, rest, capacity - |rb|);
        assert rest == all[MsgSize(m)..|rb|] == tail[..|rest|];
      }
    }
  }

  lemma {:induction false} SerializeAllAppend(ms: seq<Msg>, m: Msg)
    requires Representable(m) && forall x | x in ms :: Representable(x)
    ensures SerializeAll(ms + [m]) == SerializeAll(ms) + Serialize(m)
  {
    if ms == [] {
      assert [m][1..] == [];
      assert ms + [m] == [m];
    } else {
      SerializeAllAppend(ms[1..], m);
      assert (ms + [m])[1..] == ms[1..] + [m];
      Assoc(Serialize(ms[0]), SerializeAll(ms[1..]), Serialize(m));
    }
  }
}
