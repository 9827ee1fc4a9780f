/**
  What calls to the JSON writer describe: a value under construction, as a stack
  of what has been begun and not ended, and the text written for it so far.
 */
module JsonDoc {
  import opened Wrappers
  import opened Bytes
  import opened Utf8
  import opened Utf8Repair
  import opened JsonText
  import opened JsonValue

  /** What the writer does about ill-formed UTF-8. */
  datatype Mode = Replace | Delete | Die

  datatype Frame =
    | Slot                                                             // exactly one value is to come
    | InArray(items: seq<Value<Text>>, busy: bool)                     // busy: another item has been begun
    | InObject(fields: seq<Field<Text>>, name: Option<Text>)           // some name: its value is to come
    | InString(fed: seq<byte>)

  /** The last frame is the innermost. */
  datatype Doc = Doc(frames: seq<Frame>, result: Option<Value<Text>>)

  function Start(): Doc {
    Doc([Slot], None)
  }

  // ----- Strings -----

  /** What is written for a segment in this mode. */
  function KeptOne(mode: Mode, g: Segment): seq<Segment> {
    if mode == Delete && g.Bad? then [] else [g]
  }

  function Kept(mode: Mode, segments: seq<Segment>): seq<Segment> {
    if segments == [] then [] else KeptOne(mode, segments[0]) + Kept(mode, segments[1..])
  }

  predicate Dies(mode: Mode, segments: seq<Segment>) {
    mode == Die && Bad in segments
  }

  lemma {:induction false} KeptAppend(mode: Mode, a: seq<Segment>, b: seq<Segment>)
    ensures Kept(mode, a + b) == Kept(mode, a) + Kept(mode, b)
    decreases |a|
  {
    hide KeptOne;
    if a == [] {
      assert a + b == b;
    } else {
      KeptAppend(mode, a[1..], b);
      assert (a + b)[1..] == a[1..] + b;
      assert KeptOne(mode, a[0]) + (Kept(mode, a[1..]) + Kept(mode, b)) == (KeptOne(mode, a[0]) + Kept(mode, a[1..])) + Kept(mode, b);
    }
  }

  lemma {:induction false} KeptScalars(mode: Mode, segments: seq<Segment>)
    requires ScalarsOnly(segments)
    ensures ScalarsOnly(Kept(mode, segments))
  {
    if segments != [] {
      KeptScalars(mode, segments[1..]);
    }
  }

  lemma {:induction false} FedByteScalars(buf: seq<byte>, b: byte)
    requires IsPending(buf)
    ensures ScalarsOnly(FeedByte(buf, b).segments)
    decreases |buf|
  {
    if IsWhole(buf + [b]) {
      ScalarEncodes(buf + [b]);
    } else if !IsPartial(buf + [b]) && buf != [] {
      FedByteScalars([], b);
    }
  }

  lemma {:induction false} FedScalars(buf: seq<byte>, s: seq<byte>)
    requires IsPending(buf)
    ensures ScalarsOnly(Feed(buf, s).segments)
    decreases |s|
  {
    if s != [] {
      FedByteScalars(buf, s[0]);
      FedScalars(FeedByte(buf, s[0]).buf, s[1..]);
    }
  }

  /** What a string to which these bytes have been fed contains so far. */
  function SoFar(mode: Mode, fed: seq<byte>): (text: Text)
    ensures ScalarsOnly(text)
  {
    FedScalars([], fed);
    KeptScalars(mode, Feed([], fed).segments);
    Kept(mode, Feed([], fed).segments)
  }

  /** What it contains once it has ended. */
  function Content(mode: Mode, fed: seq<byte>): (text: Text)
    ensures ScalarsOnly(text)
  {
    KeptAppend(mode, Feed([], fed).segments, AtEnd(Feed([], fed).buf));
    FeedAll(fed);
    FedScalars([], fed);
    KeptScalars(mode, Segments(fed));
    Kept(mode, Segments(fed))
  }

  lemma {:induction false} ContentEnds(mode: Mode, fed: seq<byte>)
    ensures Content(mode, fed) == SoFar(mode, fed) + Kept(mode, AtEnd(Feed([], fed).buf))
  {
    FeedAll(fed);
    KeptAppend(mode, Feed([], fed).segments, AtEnd(Feed([], fed).buf));
  }

  // ----- The text so far -----

  ghost predicate FrameOk(f: Frame) {
    match f
    case InArray(items, _) => forall i | 0 <= i < |items| :: Writable(items[i])
    case InObject(fields, name) =>
      && (forall i | 0 <= i < |fields| :: ScalarsOnly(fields[i].name) && Writable(fields[i].value))
      && (name.Some? ==> ScalarsOnly(name.value))
    case _ => true
  }

  function Begun(f: Frame, mode: Mode): seq<byte>
    requires FrameOk(f)
  {
    match f
    case Slot => []
    case InArray(items, busy) => [LBRACKET] + PrintItems(items) + if busy && items != [] then [COMMA] else []
    case InObject(fields, name) =>
      [LBRACE] + PrintFields(fields) +
      (if name.None? then [] else (if fields != [] then [COMMA] else []) + (Quoted(name.value) + [COLON]))
    case InString(fed) => [QUOTE] + Write(SoFar(mode, fed))
  }

  function Printed(frames: seq<Frame>, mode: Mode): seq<byte>
    requires forall f | f in frames :: FrameOk(f)
  {
    if frames == [] then []
    else Printed(frames[..|frames| - 1], mode) + Begun(frames[|frames| - 1], mode)
  }

  // ----- Which stacks can occur -----

  /** What can lie on what. */
  predicate Holds(below: Frame, above: Frame) {
    match below
    case Slot => !above.Slot?
    case InArray(_, busy) => busy && !above.Slot?
    case InObject(_, name) => name.Some? && above.Slot?
    case InString(_) => false
  }

  predicate TopOk(f: Frame) {
    match f
    case InArray(_, busy) => !busy
    case InObject(_, name) => name.None?
    case _ => true
  }

  ghost predicate Stacked(frames: seq<Frame>) {
    && (forall f | f in frames :: FrameOk(f))
    && (frames != [] ==> frames[0] == Slot)
    && (forall i | 0 <= i < |frames| - 1 :: Holds(frames[i], frames[i + 1]))
  }

  ghost predicate Proper(d: Doc) {
    && Stacked(d.frames)
    && (d.frames != [] ==> TopOk(d.frames[|d.frames| - 1]))
    && (d.frames == [] ==> d.result.Some? && Writable(d.result.value))
  }

  function Out(d: Doc, mode: Mode): seq<byte>
    requires Proper(d)
  {
    if d.frames == [] then Print(d.result.value) else Printed(d.frames, mode)
  }

  // ----- Steps -----

  function Top(d: Doc): Frame
    requires d.frames != []
  {
    d.frames[|d.frames| - 1]
  }

  function Below(d: Doc): seq<Frame>
    requires d.frames != []
  {
    d.frames[..|d.frames| - 1]
  }

  predicate AcceptsValue(d: Doc) {
    d.frames != [] && (Top(d).Slot? || Top(d).InArray?)
  }

  /** json_value_start */
  function Starting(d: Doc): seq<Frame>
    requires AcceptsValue(d)
  {
    if Top(d).InArray? then Below(d) + [Top(d).(busy := true)] else d.frames
  }

  /** Stacks on top of which a value is in progress. */
  ghost predicate Awaits(frames: seq<Frame>) {
    && frames != [] && Stacked(frames)
    && match frames[|frames| - 1]
       case Slot => true
       case InArray(_, busy) => busy
       case _ => false
  }

  /** A value has been completed on top of these frames: json_value_end. */
  ghost function Attach(frames: seq<Frame>, v: Value<Text>): Doc
    requires Awaits(frames)
  {
    var rest, top := frames[..|frames| - 1], frames[|frames| - 1];
    if top.InArray? then Doc(rest + [InArray(top.items + [v], false)], None)
    else if rest == [] then Doc([], Some(v))
    else
      var owner := rest[|rest| - 1];
      assert Holds(owner, top);
      Doc(rest[..|rest| - 1] + [InObject(owner.fields + [Field(owner.name.value, v)], None)], None)
  }

  datatype Call =
    | BeginArray | EndArray
    | BeginObject | EndObject
    | BeginField(name: seq<byte>)
    | BeginString | StringPart(s: seq<byte>) | EndString
    | Emit(atom: Value<Text>)

  ghost predicate IsAtom(v: Value<Text>) {
    v.Null? || v.Bool? || (v.Number? && IsInteger(v.token))
  }

  lemma {:induction false} StackedBelow(frames: seq<Frame>, n: nat)
    requires Stacked(frames) && n <= |frames|
    ensures Stacked(frames[..n])
  {
  }

  lemma {:induction false} BelowAwaits(d: Doc)
    requires Proper(d) && d.frames != [] && !Top(d).Slot?
    ensures Awaits(Below(d))
  {
    StackedBelow(d.frames, |d.frames| - 1);
    assert Holds(d.frames[|d.frames| - 2], d.frames[|d.frames| - 1]);
  }

  /** The topmost frame changes to one of its kind. */
  lemma {:induction false} Replaced(frames: seq<Frame>, f: Frame)
    requires Stacked(frames) && |frames| > 1 && FrameOk(f) && !f.Slot? && !frames[|frames| - 1].Slot?
    ensures Stacked(frames[..|frames| - 1] + [f])
  {
    var s := frames[..|frames| - 1] + [f];
    assert Holds(frames[|frames| - 2], frames[|frames| - 1]);
    forall i | 0 <= i < |s| - 1
      ensures Holds(s[i], s[i + 1])
    {
      assert Holds(frames[i], frames[i + 1]);
    }
  }

  lemma {:induction false} StartingAwaits(d: Doc)
    requires Proper(d) && AcceptsValue(d)
    ensures Awaits(Starting(d))
  {
    if Top(d).InArray? {
      assert d.frames[0] == Slot && Top(d) in d.frames;
      Replaced(d.frames, Top(d).(busy := true));
    }
  }

  /** What a call makes of the value under construction, or None if the writer dies of it. */
  ghost function After(d: Doc, call: Call, mode: Mode): Option<Doc>
    requires Proper(d)
  {
    match call
    case BeginArray => if AcceptsValue(d) then Some(Doc(Starting(d) + [InArray([], false)], None)) else None
    case EndArray => if d.frames != [] && Top(d).InArray? then BelowAwaits(d); Some(Attach(Below(d), Arr(Top(d).items))) else None
    case BeginObject => if AcceptsValue(d) then Some(Doc(Starting(d) + [InObject([], None)], None)) else None
    case EndObject => if d.frames != [] && Top(d).InObject? then BelowAwaits(d); Some(Attach(Below(d), Obj(Top(d).fields))) else None
    case BeginField(name) =>
      if d.frames != [] && Top(d).InObject? && !Dies(mode, Segments(name))
      then Some(Doc(Below(d) + [Top(d).(name := Some(Content(mode, name)))] + [Slot], None)) else None
    case BeginString => if AcceptsValue(d) then Some(Doc(Starting(d) + [InString([])], None)) else None
    case StringPart(s) =>
      if d.frames != [] && Top(d).InString? && !Dies(mode, Feed(Feed([], Top(d).fed).buf, s).segments)
      then Some(Doc(Below(d) + [InString(Top(d).fed + s)], None)) else None
    case EndString =>
      if d.frames != [] && Top(d).InString? && !Dies(mode, AtEnd(Feed([], Top(d).fed).buf))
      then BelowAwaits(d); Some(Attach(Below(d), Str(Content(mode, Top(d).fed)))) else None
    case Emit(atom) => if AcceptsValue(d) && IsAtom(atom) then StartingAwaits(d); Some(Attach(Starting(d), atom)) else None
  }

  // ----- What the steps keep -----

  lemma {:induction false} Pushed(frames: seq<Frame>, f: Frame, mode: Mode)
    requires Stacked(frames) && FrameOk(f) && frames != [] && Holds(frames[|frames| - 1], f)
    ensures Stacked(frames + [f])
    ensures Printed(frames + [f], mode) == Printed(frames, mode) + Begun(f, mode)
  {
    var s := frames + [f];
    assert s[..|s| - 1] == frames;
    forall i | 0 <= i < |s| - 1
      ensures Holds(s[i], s[i + 1])
    {
      assert i < |frames| - 1 ==> Holds(frames[i], frames[i + 1]);
    }
  }

  lemma {:induction false} PrintedLast(frames: seq<Frame>, mode: Mode)
    requires Stacked(frames) && frames != []
    ensures Stacked(frames[..|frames| - 1])
    ensures Printed(frames, mode) == Printed(frames[..|frames| - 1], mode) + Begun(frames[|frames| - 1], mode)
  {
    StackedBelow(frames, |frames| - 1);
  }

  lemma {:induction false} PrintItemsLast(items: seq<Value<Text>>, v: Value<Text>)
    requires (forall i | 0 <= i < |items| :: Writable(items[i])) && Writable(v)
    ensures forall i | 0 <= i < |items| + 1 :: Writable((items + [v])[i])
    ensures PrintItems(items + [v]) == PrintItems(items) + ((if items != [] then [COMMA] else []) + Print(v))
    decreases |items|
  {
    hide Print;
    hide Writable;
    if items == [] {
      assert items + [v] == [v];
    } else {
      PrintItemsLast(items[1..], v);
      assert (items + [v])[1..] == items[1..] + [v];
      if |items| > 1 {
        assert Print(items[0]) + ([COMMA] + (PrintItems(items[1..]) + ([COMMA] + Print(v))))
            == (Print(items[0]) + ([COMMA] + PrintItems(items[1..]))) + ([COMMA] + Print(v));
      }
    }
  }

  lemma {:induction false} PrintFieldsLast(fields: seq<Field<Text>>, f: Field<Text>)
    requires forall i | 0 <= i < |fields| :: ScalarsOnly(fields[i].name) && Writable(fields[i].value)
    requires ScalarsOnly(f.name) && Writable(f.value)
    ensures forall i | 0 <= i < |fields| + 1 :: ScalarsOnly((fields + [f])[i].name) && Writable((fields + [f])[i].value)
    ensures PrintFields(fields + [f]) == PrintFields(fields) + ((if fields != [] then [COMMA] else []) + PrintField(f))
    decreases |fields|
  {
    hide PrintField;
    hide Writable;
    hide ScalarsOnly;
    if fields == [] {
      assert fields + [f] == [f];
    } else {
      PrintFieldsLast(fields[1..], f);
      assert (fields + [f])[1..] == fields[1..] + [f];
      if |fields| > 1 {
        assert PrintField(fields[0]) + ([COMMA] + (PrintFields(fields[1..]) + ([COMMA] + PrintField(f))))
            == (PrintField(fields[0]) + ([COMMA] + PrintFields(fields[1..]))) + ([COMMA] + PrintField(f));
      }
    }
  }

  /** json_value_start writes a comma between items. */
  function Separator(d: Doc): seq<byte>
    requires AcceptsValue(d)
  {
    if Top(d).InArray? && Top(d).items != [] then [COMMA] else []
  }

  /** A frame that says more than the one it replaces adds that to the text. */
  lemma {:induction false} ReplacedText(frames: seq<Frame>, f: Frame, mode: Mode, added: seq<byte>)
    requires Stacked(frames) && |frames| > 1 && FrameOk(f) && !f.Slot? && !frames[|frames| - 1].Slot?
    requires FrameOk(frames[|frames| - 1]) && Begun(f, mode) == Begun(frames[|frames| - 1], mode) + added
    ensures var s := frames[..|frames| - 1] + [f];
            Stacked(s) && Printed(s, mode) == Printed(frames, mode) + added
  {
    hide Begun;
    hide FrameOk;
    var s := frames[..|frames| - 1] + [f];
    Replaced(frames, f);
    PrintedLast(frames, mode);
    PrintedLast(s, mode);
    assert s[..|s| - 1] == frames[..|frames| - 1];
    assert s[|s| - 1] == f;
  }

  lemma {:induction false} StartingText(d: Doc, mode: Mode)
    requires Proper(d) && AcceptsValue(d)
    ensures Stacked(Starting(d)) && Printed(Starting(d), mode) == Printed(d.frames, mode) + Separator(d)
  {
    hide PrintItems;
    if Top(d).InArray? {
      assert d.frames[0] == Slot && Top(d) in d.frames;
      ReplacedText(d.frames, Top(d).(busy := true), mode, Separator(d));
    }
  }

  lemma {:induction false} MoreItems(f: Frame, v: Value<Text>, mode: Mode)
    requires FrameOk(f) && f.InArray? && f.busy && Writable(v)
    ensures var g := InArray(f.items + [v], false);
            FrameOk(g) && Begun(g, mode) == Begun(f, mode) + Print(v)
  {
    hide Print;
    hide PrintItems;
    hide Writable;
    PrintItemsLast(f.items, v);
  }

  lemma {:induction false} MoreFields(f: Frame, v: Value<Text>, mode: Mode)
    requires FrameOk(f) && f.InObject? && f.name.Some? && Writable(v)
    ensures var g := InObject(f.fields + [Field(f.name.value, v)], None);
            FrameOk(g) && Begun(g, mode) == Begun(f, mode) + Print(v)
  {
    hide Print;
    hide PrintFields;
    hide Writable;
    hide Quoted;
    PrintFieldsLast(f.fields, Field(f.name.value, v));
  }

  lemma {:induction false} NothingBegun(mode: Mode)
    ensures Begun(Slot, mode) == []
  {
  }

  lemma {:induction false} ItemText(frames: seq<Frame>, v: Value<Text>, mode: Mode)
    requires Awaits(frames) && Writable(v) && frames[|frames| - 1].InArray?
    ensures Proper(Attach(frames, v)) && Out(Attach(frames, v), mode) == Printed(frames, mode) + Print(v)
  {
    hide Begun;
    hide Print;
    hide Printed;
    hide Writable;
    var top := frames[|frames| - 1];
    assert top in frames && frames[0] == Slot;
    MoreItems(top, v, mode);
    ReplacedText(frames, InArray(top.items + [v], false), mode, Print(v));
  }

  lemma {:induction false} RootText(frames: seq<Frame>, v: Value<Text>, mode: Mode)
    requires Awaits(frames) && Writable(v) && |frames| == 1 && frames[0].Slot?
    ensures Proper(Attach(frames, v)) && Out(Attach(frames, v), mode) == Printed(frames, mode) + Print(v)
  {
    hide Begun;
    hide Print;
    hide Writable;
    NothingBegun(mode);
    assert frames[..0] == [];
  }

  lemma {:induction false} FieldText(frames: seq<Frame>, v: Value<Text>, mode: Mode)
    requires Awaits(frames) && Writable(v) && |frames| > 1 && frames[|frames| - 1].Slot?
    ensures Proper(Attach(frames, v)) && Out(Attach(frames, v), mode) == Printed(frames, mode) + Print(v)
  {
    hide Begun;
    hide Print;
    hide Printed;
    hide Writable;
    var rest := frames[..|frames| - 1];
    var owner := rest[|rest| - 1];
    assert Holds(owner, frames[|frames| - 1]) && owner in frames;
    PrintedLast(frames, mode);
    NothingBegun(mode);
    MoreFields(owner, v, mode);
    ReplacedText(rest, InObject(owner.fields + [Field(owner.name.value, v)], None), mode, Print(v));
  }

  /** A completed value adds its own text, and nothing around it. */
  lemma {:induction false} AttachText(frames: seq<Frame>, v: Value<Text>, mode: Mode)
    requires Awaits(frames) && Writable(v)
    ensures Proper(Attach(frames, v)) && Out(Attach(frames, v), mode) == Printed(frames, mode) + Print(v)
  {
    hide Attach;
    hide Out;
    hide Print;
    hide Printed;
    hide Proper;
    hide Writable;
    if frames[|frames| - 1].InArray? {
      ItemText(frames, v, mode);
    } else if |frames| == 1 {
      RootText(frames, v, mode);
    } else {
      FieldText(frames, v, mode);
    }
  }

  // ----- What each call adds to the text -----

  function Pending(d: Doc): (buf: seq<byte>)
    requires d.frames != [] && Top(d).InString?
    ensures IsPending(buf)
  {
    Feed([], Top(d).fed).buf
  }

  function PartText(mode: Mode, buf: seq<byte>, s: seq<byte>): seq<byte>
    requires IsPending(buf)
  {
    FedScalars(buf, s);
    KeptScalars(mode, Feed(buf, s).segments);
    Write(Kept(mode, Feed(buf, s).segments))
  }

  function EndText(mode: Mode, buf: seq<byte>): seq<byte> {
    KeptScalars(mode, AtEnd(buf));
    Write(Kept(mode, AtEnd(buf))) + [QUOTE]
  }

  ghost function Added(d: Doc, call: Call, mode: Mode): seq<byte>
    requires Proper(d) && After(d, call, mode).Some?
  {
    match call
    case BeginArray => Separator(d) + [LBRACKET]
    case EndArray => [RBRACKET]
    case BeginObject => Separator(d) + [LBRACE]
    case EndObject => [RBRACE]
    case BeginField(name) =>
      (if Top(d).fields != [] then [COMMA] else []) + (Quoted(Content(mode, name)) + [COLON])
    case BeginString => Separator(d) + [QUOTE]
    case StringPart(s) => PartText(mode, Pending(d), s)
    case EndString => EndText(mode, Pending(d))
    case Emit(atom) => Separator(d) + Print(atom)
  }

  lemma {:induction false} StartsOpen(d: Doc, f: Frame)
    requires Proper(d) && AcceptsValue(d) && TopOk(f) && !f.Slot?
    ensures Stacked(Starting(d)) && Starting(d) != [] && Holds(Starting(d)[|Starting(d)| - 1], f)
  {
    StartingAwaits(d);
  }

  lemma {:induction false} OutPrinted(d: Doc, mode: Mode)
    requires Proper(d) && AcceptsValue(d)
    ensures Stacked(d.frames) && Stacked(Starting(d)) && Out(d, mode) == Printed(d.frames, mode)
  {
    StartingAwaits(d);
  }

  lemma {:induction false} StartedText(d: Doc, f: Frame, mode: Mode)
    requires Proper(d) && AcceptsValue(d) && FrameOk(f) && TopOk(f) && !f.Slot?
    ensures Proper(Doc(Starting(d) + [f], None))
    ensures Out(Doc(Starting(d) + [f], None), mode) == Out(d, mode) + (Separator(d) + Begun(f, mode))
  {
    hide Begun;
    hide Printed;
    hide Separator;
    StartingText(d, mode);
    OutPrinted(d, mode);
    StartsOpen(d, f);
    hide Starting;
    hide Stacked;
    Pushed(Starting(d), f, mode);
    Assoc(Printed(d.frames, mode), Separator(d), Begun(f, mode));
  }

  lemma {:induction false} EndedText(d: Doc, v: Value<Text>, mode: Mode, added: seq<byte>)
    requires Proper(d) && d.frames != [] && !Top(d).Slot? && Writable(v)
    requires FrameOk(Top(d)) && Print(v) == Begun(Top(d), mode) + added
    ensures Awaits(Below(d)) && Proper(Attach(Below(d), v)) && Out(Attach(Below(d), v), mode) == Out(d, mode) + added
  {
    hide Begun;
    hide FrameOk;
    hide Print;
    BelowAwaits(d);
    PrintedLast(d.frames, mode);
    AttachText(Below(d), v, mode);
  }

  lemma {:induction false} SoFarMore(mode: Mode, fed: seq<byte>, s: seq<byte>)
    ensures SoFar(mode, fed + s) == SoFar(mode, fed) + Kept(mode, Feed(Feed([], fed).buf, s).segments)
  {
    FeedAppend([], fed, s);
    KeptAppend(mode, Feed([], fed).segments, Feed(Feed([], fed).buf, s).segments);
  }

  lemma {:induction false} PartAdds(d: Doc, s: seq<byte>, mode: Mode)
    requires Proper(d) && d.frames != [] && Top(d).InString?
    ensures var e := Doc(Below(d) + [InString(Top(d).fed + s)], None);
            Proper(e) && Out(e, mode) == Out(d, mode) + PartText(mode, Pending(d), s)
  {
    hide Feed;
    hide Kept;
    hide Write;
    var fed := Top(d).fed;
    BelowAwaits(d);
    FedScalars(Pending(d), s);
    KeptScalars(mode, Feed(Pending(d), s).segments);
    SoFarMore(mode, fed, s);
    WriteAppend(SoFar(mode, fed), Kept(mode, Feed(Pending(d), s).segments));
    ReplacedText(d.frames, InString(fed + s), mode, PartText(mode, Pending(d), s));
  }

  lemma {:induction false} ScalarsAtEnd(buf: seq<byte>)
    ensures ScalarsOnly(AtEnd(buf))
  {
  }

  lemma {:induction false} StringEnds(d: Doc, mode: Mode)
    requires Proper(d) && d.frames != [] && Top(d).InString?
    ensures var v := Str(Content(mode, Top(d).fed));
            Awaits(Below(d)) && Proper(Attach(Below(d), v))
            && Out(Attach(Below(d), v), mode) == Out(d, mode) + EndText(mode, Pending(d))
  {
    hide Feed;
    hide Kept;
    hide Write;
    hide AtEnd;
    var fed := Top(d).fed;
    ScalarsAtEnd(Pending(d));
    KeptScalars(mode, AtEnd(Pending(d)));
    ContentEnds(mode, fed);
    WriteAppend(SoFar(mode, fed), Kept(mode, AtEnd(Pending(d))));
    EndedText(d, Str(Content(mode, fed)), mode, EndText(mode, Pending(d)));
  }

  lemma {:induction false} NamedText(f: Frame, name: Text, mode: Mode)
    requires f.InObject? && f.name.None? && FrameOk(f) && ScalarsOnly(name)
    ensures var named := f.(name := Some(name));
            FrameOk(named)
            && Begun(named, mode) == Begun(f, mode) + ((if f.fields != [] then [COMMA] else []) + (Quoted(name) + [COLON]))
  {
    hide PrintFields;
    hide Quoted;
  }

  lemma {:induction false} SlotPushed(frames: seq<Frame>, mode: Mode)
    requires Stacked(frames) && frames != [] && Holds(frames[|frames| - 1], Slot)
    ensures Proper(Doc(frames + [Slot], None)) && Out(Doc(frames + [Slot], None), mode) == Printed(frames, mode)
  {
    Pushed(frames, Slot, mode);
  }

  lemma {:induction false} FieldBegins(d: Doc, name: Text, mode: Mode)
    requires Proper(d) && d.frames != [] && Top(d).InObject? && ScalarsOnly(name)
    ensures var e := Doc(Below(d) + [Top(d).(name := Some(name))] + [Slot], None);
            Proper(e)
            && Out(e, mode) == Out(d, mode) + ((if Top(d).fields != [] then [COMMA] else []) + (Quoted(name) + [COLON]))
  {
    hide Begun;
    hide FrameOk;
    hide Quoted;
    var named := Top(d).(name := Some(name));
    assert Top(d) in d.frames && d.frames[0] == Slot;
    NamedText(Top(d), name, mode);
    ReplacedText(d.frames, named, mode, (if Top(d).fields != [] then [COMMA] else []) + (Quoted(name) + [COLON]));
    SlotPushed(Below(d) + [named], mode);
  }

  lemma {:induction false} ArrayEnds(d: Doc, mode: Mode)
    requires Proper(d) && d.frames != [] && Top(d).InArray?
    ensures Awaits(Below(d)) && Proper(Attach(Below(d), Arr(Top(d).items)))
    ensures Out(Attach(Below(d), Arr(Top(d).items)), mode) == Out(d, mode) + [RBRACKET]
  {
    hide PrintItems;
    hide Attach;
    assert Top(d) in d.frames;
    EndedText(d, Arr(Top(d).items), mode, [RBRACKET]);
  }

  lemma {:induction false} ObjectEnds(d: Doc, mode: Mode)
    requires Proper(d) && d.frames != [] && Top(d).InObject?
    ensures Awaits(Below(d)) && Proper(Attach(Below(d), Obj(Top(d).fields)))
    ensures Out(Attach(Below(d), Obj(Top(d).fields)), mode) == Out(d, mode) + [RBRACE]
  {
    hide PrintFields;
    hide Attach;
    assert Top(d) in d.frames;
    EndedText(d, Obj(Top(d).fields), mode, [RBRACE]);
  }

  lemma {:induction false} AtomWritable(atom: Value<Text>)
    requires IsAtom(atom)
    ensures Writable(atom)
  {
  }

  lemma {:induction false} AtomAdds(d: Doc, atom: Value<Text>, mode: Mode)
    requires Proper(d) && AcceptsValue(d) && IsAtom(atom)
    ensures Awaits(Starting(d)) && Writable(atom) && Proper(Attach(Starting(d), atom))
    ensures Out(Attach(Starting(d), atom), mode) == Out(d, mode) + (Separator(d) + Print(atom))
  {
    hide Print;
    hide Printed;
    hide Attach;
    hide Starting;
    hide Separator;
    hide Out;
    hide Proper;
    hide Awaits;
    hide Stacked;
    AtomWritable(atom);
    StartingAwaits(d);
    OutPrinted(d, mode);
    StartingText(d, mode);
    AttachText(Starting(d), atom, mode);
    Assoc(Printed(d.frames, mode), Separator(d), Print(atom));
  }

  lemma {:induction false} NothingWritten(mode: Mode)
    ensures Write(SoFar(mode, [])) == []
  {
  }

  /** Every call leaves a proper stack, and adds to the text just what it should. */
  lemma {:induction false} AfterText(d: Doc, call: Call, mode: Mode)
    requires Proper(d) && After(d, call, mode).Some?
    ensures var e := After(d, call, mode).value;
            Proper(e) && Out(e, mode) == Out(d, mode) + Added(d, call, mode)
  {
    hide Proper;
    hide Out;
    hide Attach;
    hide Write;
    hide Print;
    hide Feed;
    match call {
      case BeginArray => StartedText(d, InArray([], false), mode);
      case EndArray => ArrayEnds(d, mode);
      case BeginObject => StartedText(d, InObject([], None), mode);
      case EndObject => ObjectEnds(d, mode);
      case BeginField(name) => FieldBegins(d, Content(mode, name), mode);
      case BeginString =>
        NothingWritten(mode);
        StartedText(d, InString([]), mode);
      case StringPart(s) => PartAdds(d, s, mode);
      case EndString => StringEnds(d, mode);
      case Emit(atom) => AtomAdds(d, atom, mode);
    }
  }
}
