/**
  JSON text (RFC 8259): how the writer spells values, and a parser for the whole
  grammar that reads them back.
 */
module JsonText {
  import opened Bytes
  import opened Utf8
  import opened Utf8Repair

  const QUOTE: byte := 0x22
  const BACKSLASH: byte := 0x5C
  const COMMA: byte := 0x2C
  const COLON: byte := 0x3A
  const LBRACKET: byte := 0x5B
  const RBRACKET: byte := 0x5D
  const LBRACE: byte := 0x7B
  const RBRACE: byte := 0x7D
  const MINUS: byte := 0x2D
  const NULL: seq<byte> := [0x6E, 0x75, 0x6C, 0x6C]
  const TRUE: seq<byte> := [0x74, 0x72, 0x75, 0x65]
  const FALSE: seq<byte> := [0x66, 0x61, 0x6C, 0x73, 0x65]

  /** A value whose strings are of type T, and whose numbers are the tokens that spell them. */
  datatype Value<T> =
    | Null
    | Bool(b: bool)
    | Number(token: seq<byte>)
    | Str(text: T)
    | Arr(items: seq<Value<T>>)
    | Obj(fields: seq<Field<T>>)

  datatype Field<T> = Field(name: T, value: Value<T>)

  // ----- Strings as the writer spells them -----

  function HexLower(d: nat): byte
    requires d < 16
  {
    if d < 10 then 0x30 + d else 0x61 + (d - 10)
  }

  /** json_emit_ascii */
  function Escape(c: nat): (s: seq<byte>)
    requires c < 0x80
    ensures s != []
  {
    if c == QUOTE as int || c == BACKSLASH as int then [BACKSLASH, c]
    else if c == 0x0A then [BACKSLASH, 0x6E]
    else if c == 0x0D then [BACKSLASH, 0x72]
    else if c == 0x09 then [BACKSLASH, 0x74]
    else if c == 0x0C then [BACKSLASH, 0x66]
    else if c <= 0x1F || c == 0x7F then [BACKSLASH, 0x75, 0x30, 0x30, HexLower(c / 16), HexLower(c % 16)]
    else [c]
  }

  /** The default replacement for ill-formed runs, an escaped U+FFFD. */
  const REPLACEMENT: seq<byte> := [BACKSLASH, 0x75, 0x46, 0x46, 0x46, 0x44]

  predicate ScalarsOnly(segments: seq<Segment>) {
    forall g | g in segments :: g.Char? ==> IsScalar(g.c)
  }

  function WriteSegment(g: Segment): (s: seq<byte>)
    requires g.Char? ==> IsScalar(g.c)
    ensures s != []
  {
    match g
    case Bad => REPLACEMENT
    case Char(c) => if c < 0x80 then Escape(c) else Encode(c)
  }

  function Write(segments: seq<Segment>): seq<byte>
    requires ScalarsOnly(segments)
  {
    if segments == [] then [] else WriteSegment(segments[0]) + Write(segments[1..])
  }

  /** What a segment means: an ill-formed run stands for U+FFFD. */
  function Meaning(g: Segment): nat {
    match g
    case Bad => 0xFFFD
    case Char(c) => c
  }

  function MeaningAll(segments: seq<Segment>): (r: seq<nat>)
    ensures |r| == |segments|
  {
    if segments == [] then [] else [Meaning(segments[0])] + MeaningAll(segments[1..])
  }

  // ----- Strings as a reader takes them (section 7) -----

  datatype Read<T> = Read(value: T, rest: seq<byte>) | Fail

  function HexDigit(b: byte): int {
    if 0x30 <= b <= 0x39 then b - 0x30
    else if 0x41 <= b <= 0x46 then b - 0x41 + 10
    else if 0x61 <= b <= 0x66 then b - 0x61 + 10
    else -1
  }

  /** The number that four hexadecimal digits spell, or -1. */
  function Hex4(s: seq<byte>): int {
    if |s| < 4 || HexDigit(s[0]) < 0 || HexDigit(s[1]) < 0 || HexDigit(s[2]) < 0 || HexDigit(s[3]) < 0 then -1
    else ((HexDigit(s[0]) * 16 + HexDigit(s[1])) * 16 + HexDigit(s[2])) * 16 + HexDigit(s[3])
  }

  /** A backslash and what follows it. */
  function ReadEscape(s: seq<byte>): (r: Read<nat>)
    requires s != [] && s[0] == BACKSLASH
    ensures r.Read? ==> |r.rest| < |s|
  {
    if |s| < 2 then Fail
    else if s[1] == QUOTE || s[1] == BACKSLASH || s[1] == 0x2F then Read(s[1], s[2..])
    else if s[1] == 0x62 then Read(0x08, s[2..])
    else if s[1] == 0x66 then Read(0x0C, s[2..])
    else if s[1] == 0x6E then Read(0x0A, s[2..])
    else if s[1] == 0x72 then Read(0x0D, s[2..])
    else if s[1] == 0x74 then Read(0x09, s[2..])
    else if s[1] == 0x75 then
      var c := Hex4(s[2..]);
      if c < 0 || 0xDC00 <= c <= 0xDFFF then Fail
      else if 0xD800 <= c <= 0xDBFF then
        // the first half of a surrogate pair
        if |s| < 12 || s[6] != BACKSLASH || s[7] != 0x75 then Fail
        else
          var d := Hex4(s[8..]);
          if 0xDC00 <= d <= 0xDFFF then Read(0x10000 + (c - 0xD800) * 0x400 + (d - 0xDC00), s[12..]) else Fail
      else Read(c, s[6..])
    else Fail
  }

  /** A character of a string, escaped or not. */
  function ReadChar(s: seq<byte>): (r: Read<nat>)
    requires s != []
    ensures r.Read? ==> |r.rest| < |s|
  {
    if s[0] == BACKSLASH then ReadEscape(s)
    else if s[0] == QUOTE || s[0] < 0x20 || WholeLength(s) == 0 then Fail
    else Read(Scalar(s[..WholeLength(s)]), s[WholeLength(s)..])
  }

  /** The rest of a string whose opening quote has been read. */
  function ReadString(s: seq<byte>): (r: Read<seq<nat>>)
    ensures r.Read? ==> |r.rest| < |s|
    decreases |s|
  {
    if s == [] then Fail
    else if s[0] == QUOTE then Read([], s[1..])
    else
      var c := ReadChar(s);
      if c.Fail? then Fail
      else
        var r := ReadString(c.rest);
        if r.Fail? then Fail else Read([c.value] + r.value, r.rest)
  }

  lemma {:induction false} HexInverts(d: nat)
    requires d < 16
    ensures HexDigit(HexLower(d)) == d
  {
  }

  lemma {:induction false} EscapeInverts(c: nat, more: seq<byte>)
    requires c < 0x80
    ensures ReadChar(Escape(c) + more) == Read(c, more)
  {
    var s := Escape(c) + more;
    assert s[|Escape(c)|..] == more;
    if c == 0x7F || (c <= 0x1F && c != 0x0A && c != 0x0D && c != 0x09 && c != 0x0C) {
      HexInverts(c / 16);
      HexInverts(c % 16);
      assert s[2..][0] == 0x30 && s[2..][1] == 0x30 && s[2..][2] == HexLower(c / 16) && s[2..][3] == HexLower(c % 16);
    } else if Escape(c) == [c] {
      assert s[..1] == [c];
    }
  }

  lemma {:induction false} SegmentInverts(g: Segment, more: seq<byte>)
    requires g.Char? ==> IsScalar(g.c)
    ensures ReadChar(WriteSegment(g) + more) == Read(Meaning(g), more)
    ensures WriteSegment(g)[0] != QUOTE
  {
    var s := WriteSegment(g) + more;
    match g {
      case Bad =>
        assert s[2..][..4] == [0x46, 0x46, 0x46, 0x44];
        assert s[6..] == more;
      case Char(c) =>
        if c < 0x80 {
          EscapeInverts(c, more);
        } else {
          EncodeWhole(c);
          var n := |Encode(c)|;
          assert s[..n] == Encode(c) && s[n..] == more;
          WholeLengthUnique(s, n);
        }
    }
  }

  /** A reader finds the characters the writer was given, and U+FFFD for every ill-formed run. */
  lemma {:induction false} StringInverts(segments: seq<Segment>, rest: seq<byte>)
    requires ScalarsOnly(segments)
    ensures ReadString(Write(segments) + ([QUOTE] + rest)) == Read(MeaningAll(segments), rest)
    decreases |segments|
  {
    hide ReadChar;
    hide WriteSegment;
    var tail := [QUOTE] + rest;
    if segments == [] {
      assert Write(segments) + tail == tail;
    } else {
      var g, more := segments[0], Write(segments[1..]) + tail;
      SegmentInverts(g, more);
      StringInverts(segments[1..], rest);
      assert Write(segments) + tail == WriteSegment(g) + more;
    }
  }

  lemma {:induction false} WriteAppend(a: seq<Segment>, b: seq<Segment>)
    requires ScalarsOnly(a) && ScalarsOnly(b)
    ensures ScalarsOnly(a + b) && Write(a + b) == Write(a) + Write(b)
    decreases |a|
  {
    hide WriteSegment;
    if a == [] {
      assert a + b == b;
    } else {
      WriteAppend(a[1..], b);
      assert (a + b)[1..] == a[1..] + b;
      assert WriteSegment(a[0]) + (Write(a[1..]) + Write(b)) == (WriteSegment(a[0]) + Write(a[1..])) + Write(b);
    }
  }
}
