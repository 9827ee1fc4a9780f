/** struct json_writer and its operations (json.c). */
module JsonWriter {
  import opened Wrappers
  import opened Bytes
  import opened Utf8
  import opened Utf8Repair
  import opened JsonText
  import opened JsonValue
  import opened JsonDoc
  import opened JsonClose

  datatype State = VALUE | ARRAY_EMPTY | ARRAY_NONEMPTY | OBJECT_EMPTY | OBJECT_NONEMPTY | STRING

  function StateOf(f: Frame): State {
    match f
    case Slot => VALUE
    case InArray(items, busy) => if items == [] && !busy then ARRAY_EMPTY else ARRAY_NONEMPTY
    case InObject(fields, name) => if fields == [] && name.None? then OBJECT_EMPTY else OBJECT_NONEMPTY
    case InString(_) => STRING
  }

  function StatesOf(frames: seq<Frame>): (r: seq<State>)
    ensures |r| == |frames|
  {
    seq(|frames|, i requires 0 <= i < |frames| => StateOf(frames[i]))
  }

  const BUFFER_SIZE := 5

  function TextOf(mode: Mode, segments: seq<Segment>): seq<byte>
    requires ScalarsOnly(segments)
  {
    KeptScalars(mode, segments);
    Write(Kept(mode, segments))
  }

  /** These segments have been written; what is in the buffer and what is still to come make up the others. */
  ghost predicate PartWay(mode: Mode, all: Fed, done: seq<Segment>, buf: seq<byte>, rest: seq<byte>)
    requires IsPending(buf)
  {
    && all == Fed(done + Feed(buf, rest).segments, Feed(buf, rest).buf)
    && !Dies(mode, done)
  }

  lemma {:induction false} PartStarts(mode: Mode, buf: seq<byte>, s: seq<byte>)
    requires IsPending(buf)
    ensures ScalarsOnly([]) && TextOf(mode, []) == [] && PartWay(mode, Feed(buf, s), [], buf, s[0..])
  {
    assert s[0..] == s;
    assert [] + Feed(buf, s).segments == Feed(buf, s).segments;
  }

  function BadText(mode: Mode): seq<byte> {
    if mode == Delete then [] else REPLACEMENT
  }

  /** What one byte adds to the text. */
  function ByteText(mode: Mode, buf: seq<byte>, c: byte): seq<byte>
    requires IsPending(buf)
  {
    FedByteScalars(buf, c);
    KeptScalars(mode, FeedByte(buf, c).segments);
    Write(Kept(mode, FeedByte(buf, c).segments))
  }

  lemma {:induction false} NotFollowed(t: seq<byte>)
    requires !Follows(t)
    ensures !IsWhole(t) && !IsPartial(t)
  {
  }

  /** One byte taken, or an ill-formed run written and the byte still to be taken. */
  lemma {:induction false} FeedTakes(buf: seq<byte>, s: seq<byte>, i: nat, again: bool)
    requires IsPending(buf) && i < |s| && (again <==> buf != [] && !Follows(buf + [s[i]]))
    ensures ScalarsOnly(FeedByte(buf, s[i]).segments)
    ensures var more, after := if again then [Bad] else FeedByte(buf, s[i]).segments, if again then [] else FeedByte(buf, s[i]).buf;
            var rest := Feed(after, if again then s[i..] else s[i + 1..]);
            Feed(buf, s[i..]) == Fed(more + rest.segments, rest.buf)
  {
    FedByteScalars(buf, s[i]);
    assert s[i..][0] == s[i] && s[i..][1..] == s[i + 1..];
    if again {
      var one := FeedByte([], s[i]);
      assert FeedByte(buf, s[i]) == Fed([Bad] + one.segments, one.buf) by { NotFollowed(buf + [s[i]]); }
      var rest := Feed(one.buf, s[i + 1..]);
      assert Feed([], s[i..]) == Fed(one.segments + rest.segments, rest.buf);
      assert ([Bad] + one.segments) + rest.segments == [Bad] + (one.segments + rest.segments);
    }
  }

  lemma {:induction false} OneWritten(g: Segment)
    requires g.Char? ==> IsScalar(g.c)
    ensures ScalarsOnly([g]) && Write([g]) == WriteSegment(g)
  {
    hide WriteSegment;
    assert Write([g][1..]) == [];
    assert WriteSegment(g) + [] == WriteSegment(g);
  }

  lemma {:induction false} BadWritten(mode: Mode)
    ensures ScalarsOnly(Kept(mode, [Bad])) && Write(Kept(mode, [Bad])) == BadText(mode)
  {
    assert Kept(mode, [Bad][1..]) == [];
    assert Kept(mode, [Bad]) == KeptOne(mode, Bad);
    OneWritten(Bad);
  }

  lemma {:induction false} WrittenMore(mode: Mode, done: seq<Segment>, more: seq<Segment>, rest: seq<Segment>)
    requires ScalarsOnly(done) && ScalarsOnly(more)
    ensures ScalarsOnly(done + more) && done + (more + rest) == done + more + rest
    ensures Dies(mode, more) ==> Dies(mode, done + (more + rest))
    ensures Dies(mode, done + more) <==> Dies(mode, done) || Dies(mode, more)
    ensures ScalarsOnly(Kept(mode, done)) && ScalarsOnly(Kept(mode, more)) && ScalarsOnly(Kept(mode, done + more))
    ensures Write(Kept(mode, done + more)) == Write(Kept(mode, done)) + Write(Kept(mode, more))
    ensures more == [Bad] ==> Write(Kept(mode, more)) == BadText(mode)
  {
    hide Kept;
    hide Write;
    KeptScalars(mode, done);
    KeptScalars(mode, more);
    KeptAppend(mode, done, more);
    WriteAppend(Kept(mode, done), Kept(mode, more));
    BadWritten(mode);
  }

  lemma {:induction false} PartGoesOn(mode: Mode, all: Fed, done: seq<Segment>, buf: seq<byte>, s: seq<byte>, i: nat, again: bool)
      returns (more: seq<Segment>)
    requires IsPending(buf) && ScalarsOnly(done) && i < |s| && PartWay(mode, all, done, buf, s[i..])
    requires again <==> buf != [] && !Follows(buf + [s[i]])
    ensures ScalarsOnly(more)
    ensures TextOf(mode, more) == TextOf(mode, done) + if again then BadText(mode) else ByteText(mode, buf, s[i])
    ensures var dies := if again then mode == Die else Dies(mode, FeedByte(buf, s[i]).segments);
            if dies then Dies(mode, all.segments)
            else PartWay(mode, all, more, if again then [] else FeedByte(buf, s[i]).buf, if again then s[i..] else s[i + 1..])
  {
    hide Follows;
    hide Feed;
    hide FeedByte;
    hide Write;
    hide Kept;
    var added := if again then [Bad] else FeedByte(buf, s[i]).segments;
    var rest := Feed(if again then [] else FeedByte(buf, s[i]).buf, if again then s[i..] else s[i + 1..]);
    FeedTakes(buf, s, i, again);
    WrittenMore(mode, done, added, rest.segments);
    more := done + added;
  }

  lemma {:induction false} PartEnds(mode: Mode, all: Fed, done: seq<Segment>, buf: seq<byte>, rest: seq<byte>)
    requires IsPending(buf) && PartWay(mode, all, done, buf, rest) && rest == []
    ensures all == Fed(done, buf) && !Dies(mode, all.segments)
  {
  }

  lemma {:induction false} CharWritten(mode: Mode, t: seq<byte>)
    requires IsWhole(t)
    ensures ScalarsOnly(Kept(mode, [Char(Scalar(t))]))
    ensures Write(Kept(mode, [Char(Scalar(t))])) == if |t| == 1 then Escape(t[0]) else t
    ensures |t| == 1 ==> t[0] < 0x80
  {
    ScalarEncodes(t);
    var g := Char(Scalar(t));
    assert Kept(mode, [g][1..]) == [];
    assert Kept(mode, [g]) == KeptOne(mode, g);
    OneWritten(g);
  }

  lemma {:induction false} NothingWrittenYet(mode: Mode)
    ensures ScalarsOnly([]) && Kept(mode, []) == [] && Write([]) == []
  {
  }

  lemma {:induction false} ByteTextIs(mode: Mode, buf: seq<byte>, c: byte)
    requires IsPending(buf)
    ensures IsWhole(buf + [c]) ==> ByteText(mode, buf, c) == if |buf| == 0 then Escape(c) else buf + [c]
    ensures IsWhole(buf + [c]) && |buf| == 0 ==> c < 0x80
    ensures IsPartial(buf + [c]) ==> ByteText(mode, buf, c) == []
    ensures buf == [] && !Follows([c]) ==> ByteText(mode, buf, c) == BadText(mode)
  {
    NothingWrittenYet(mode);
    if IsWhole(buf + [c]) {
      CharWritten(mode, buf + [c]);
    } else if !IsPartial(buf + [c]) && buf == [] {
      BadWritten(mode);
    }
  }

  // ----- Contexts and what they stand for -----

  lemma {:induction false} TopFits(d: Doc)
    requires Proper(d) && d.frames != []
    ensures Top(d).InArray? ==> !Top(d).busy
    ensures Top(d).InObject? ==> Top(d).name.None?
  {
  }

  lemma {:induction false} TopString(d: Doc)
    requires d.frames != [] && StateOf(Top(d)) == STRING
    ensures Top(d).InString?
  {
  }

  lemma {:induction false} StartingStates(d: Doc)
    requires Proper(d) && AcceptsValue(d)
    ensures StatesOf(Starting(d)) ==
            if Top(d).InArray? then StatesOf(d.frames)[..|d.frames| - 1] + [ARRAY_NONEMPTY] else StatesOf(d.frames)
  {
  }

  lemma {:induction false} AttachStates(frames: seq<Frame>, v: Value<Text>)
    requires Awaits(frames)
    ensures var n := |frames|;
            && (Attach(frames, v).frames != [] ==> !Top(Attach(frames, v)).InString?)
            && StatesOf(Attach(frames, v).frames) == if frames[n - 1].Slot? then StatesOf(frames)[..n - 1] else StatesOf(frames)
  {
    if |frames| > 1 {
      assert Holds(frames[|frames| - 2], frames[|frames| - 1]);
    }
  }

  lemma {:induction false} StatesPushed(frames: seq<Frame>, f: Frame)
    ensures StatesOf(frames + [f]) == StatesOf(frames) + [StateOf(f)]
  {
  }

  lemma {:induction false} EndTextIs(mode: Mode, buf: seq<byte>)
    ensures EndText(mode, buf) == (if buf == [] then [] else BadText(mode)) + [QUOTE]
    ensures Dies(mode, AtEnd(buf)) <==> mode == Die && buf != []
  {
    NothingWrittenYet(mode);
    BadWritten(mode);
  }

  lemma {:induction false} IsDecimal(n: int)
    ensures IsInteger(Decimal(n))
  {
  }

  lemma {:induction false} TopObject(d: Doc)
    requires Proper(d) && d.frames != [] && (StateOf(Top(d)) == OBJECT_EMPTY || StateOf(Top(d)) == OBJECT_NONEMPTY)
    ensures Top(d).InObject? && Top(d).name.None?
    ensures StateOf(Top(d)) == OBJECT_NONEMPTY <==> Top(d).fields != []
  {
  }

  /** A string that is fed at once and ended makes the writer die exactly if it is ill-formed. */
  lemma {:induction false} NameDies(mode: Mode, s: seq<byte>)
    ensures Dies(mode, Segments(s)) <==> Dies(mode, Feed([], s).segments) || Dies(mode, AtEnd(Feed([], s).buf))
  {
    FeedAll(s);
  }

  lemma {:induction false} NameText(mode: Mode, name: seq<byte>, before: seq<byte>, after: seq<byte>)
    requires after == before + [QUOTE] + PartText(mode, [], name) + EndText(mode, Feed([], name).buf)
    ensures after == before + Quoted(Content(mode, name))
  {
    hide Feed;
    hide Kept;
    hide Write;
    var buf := Feed([], name).buf;
    FedScalars([], name);
    KeptScalars(mode, Feed([], name).segments);
    ScalarsAtEnd(buf);
    KeptScalars(mode, AtEnd(buf));
    ContentEnds(mode, name);
    WriteAppend(SoFar(mode, name), Kept(mode, AtEnd(buf)));
  }

  lemma {:induction false} NamedStates(d: Doc, name: Text)
    requires d.frames != [] && Top(d).InObject?
    ensures StatesOf(Below(d) + [Top(d).(name := Some(name))] + [Slot])
         == StatesOf(d.frames)[..|d.frames| - 1] + [OBJECT_NONEMPTY] + [VALUE]
  {
  }

  lemma {:induction false} StringBegun(d: Doc, e: Doc, s: seq<byte>)
    requires Proper(d) && AcceptsValue(d) && e == Doc(Starting(d) + [InString([])], None)
    ensures Awaits(Starting(d)) && Top(e) == InString([]) && Below(e) == Starting(d) && Pending(e) == [] && [] + s == s
  {
    StartingAwaits(d);
  }

  class Writer {
    var out: seq<byte>
    var context: seq<State>       // the innermost context comes last
    var utf8State: nat
    var utf8Buf: seq<byte>
    const mode: Mode
    ghost var doc: Doc            // what the calls so far describe

    ghost predicate Valid()
      reads this
    {
      && Proper(doc) && context == StatesOf(doc.frames) && out == Out(doc, mode)
      && (doc.frames != [] && Top(doc).InString? ==> utf8Buf == Pending(doc) && utf8State == StateAfter(utf8Buf))
    }

    /** json_writer_create */
    constructor (mode: Mode)
      ensures Valid() && doc == Start() && this.mode == mode
    {
      this.mode := mode;
      out, context, utf8State, utf8Buf, doc := [], [VALUE], UTF8_ACCEPT, [], Start();
    }

    // ----- Characters -----

    /** json_emit_ascii */
    method EmitAscii(c: byte)
      requires c < 0x80
      modifies this`out
      ensures out == old(out) + Escape(c)
    {
      if c == QUOTE || c == BACKSLASH {
        out := out + [BACKSLASH, c];
      } else if c == 0x0A {
        out := out + [BACKSLASH, 0x6E];
      } else if c == 0x0D {
        out := out + [BACKSLASH, 0x72];
      } else if c == 0x09 {
        out := out + [BACKSLASH, 0x74];
      } else if c == 0x0C {
        out := out + [BACKSLASH, 0x66];
      } else if c <= 0x1F || c == 0x7F {
        out := out + [BACKSLASH, 0x75, 0x30, 0x30, HexLower(c / 16), HexLower(c % 16)];
      } else {
        out := out + [c];
      }
    }

    /** json_bad_utf8 */
    method BadUtf8() returns (ok: bool)
      modifies this`out
      ensures ok <==> mode != Die
      ensures ok ==> out == old(out) + BadText(mode)
    {
      if mode == Replace {
        out := out + REPLACEMENT;
      }
      ok := mode != Die;
    }

    /** One byte of a string; it has to be considered again if it breaks off a character. */
    method TakeByte(c: byte) returns (ok: bool, again: bool)
      requires IsPending(utf8Buf) && utf8State == StateAfter(utf8Buf)
      modifies this`out, this`utf8State, this`utf8Buf
      ensures IsPending(utf8Buf) && utf8State == StateAfter(utf8Buf)
      ensures again <==> old(utf8Buf) != [] && !Follows(old(utf8Buf) + [c])
      ensures again ==> (ok <==> mode != Die) && utf8Buf == [] && (ok ==> out == old(out) + BadText(mode))
      ensures !again ==> (ok <==> !Dies(mode, FeedByte(old(utf8Buf), c).segments))
      ensures !again ==> utf8Buf == FeedByte(old(utf8Buf), c).buf && (ok ==> out == old(out) + ByteText(mode, old(utf8Buf), c))
    {
      hide Encode;
      hide Scalar;
      hide Escape;
      ghost var buf := utf8Buf;
      assert |utf8Buf| < BUFFER_SIZE;
      DecodeMeans(utf8Buf, c);
      ByteTextIs(mode, utf8Buf, c);
      utf8Buf := utf8Buf + [c];
      utf8State := Utf8Decode(utf8State, c);
      ok, again := true, false;
      if utf8State == UTF8_ACCEPT {
        if |utf8Buf| == 1 {
          EmitAscii(c);
        } else {
          out := out + utf8Buf;
        }
        utf8Buf, utf8State := [], UTF8_ACCEPT;
      } else if utf8State == UTF8_REJECT {
        var size := |utf8Buf|;
        utf8Buf, utf8State := [], UTF8_ACCEPT;
        ok := BadUtf8();
        again := size > 1;
      }
    }

    /** json_emit_string_part, once it has checked that a string is open. */
    method EmitPart(s: seq<byte>) returns (ok: bool)
      requires IsPending(utf8Buf) && utf8State == StateAfter(utf8Buf)
      modifies this`out, this`utf8State, this`utf8Buf
      ensures ok <==> !Dies(mode, Feed(old(utf8Buf), s).segments)
      ensures ok ==> out == old(out) + PartText(mode, old(utf8Buf), s)
      ensures ok ==> utf8Buf == Feed(old(utf8Buf), s).buf && utf8State == StateAfter(utf8Buf)
    {
      hide PartWay;
      hide Feed;
      hide FeedByte;
      hide Kept;
      hide Follows;
      hide StateAfter;
      ghost var all := Feed(utf8Buf, s);
      ghost var done: seq<Segment> := [];
      var i := 0;
      ok := true;
      PartStarts(mode, utf8Buf, s);
      while i < |s|
        invariant 0 <= i <= |s| && IsPending(utf8Buf) && utf8State == StateAfter(utf8Buf)
        invariant ScalarsOnly(done) && PartWay(mode, all, done, utf8Buf, s[i..])
        invariant out == old(out) + TextOf(mode, done)
        decreases |s| - i, |utf8Buf|
      {
        var c := s[i];
        ghost var buf := utf8Buf;
        var again;
        ok, again := TakeByte(c);
        done := PartGoesOn(mode, all, done, buf, s, i, again);
        if !ok {
          return;
        }
        if again {
          i := i - 1;
        }
        i := i + 1;
      }
      PartEnds(mode, all, done, utf8Buf, s[i..]);
    }

    // ----- Contexts -----

    /** json_value_start */
    method ValueStart() returns (ok: bool)
      requires Valid()
      modifies this`out, this`context
      ensures ok <==> AcceptsValue(doc)
      ensures ok ==> context == StatesOf(Starting(doc)) && out == old(out) + Separator(doc)
      ensures !ok ==> context == old(context) && out == old(out)
    {
      hide Out;
      if context == [] || (context[|context| - 1] != VALUE && context[|context| - 1] != ARRAY_EMPTY && context[|context| - 1] != ARRAY_NONEMPTY) {
        return false;
      }
      ok := true;
      TopFits(doc);
      if context[|context| - 1] == ARRAY_NONEMPTY {
        out := out + [COMMA];
      } else if context[|context| - 1] == ARRAY_EMPTY {
        context := context[..|context| - 1] + [ARRAY_NONEMPTY];
      }
      StartingStates(doc);
    }

    /** json_value_end */
    method ValueEnd(ghost frames: seq<Frame>, ghost v: Value<Text>)
      requires Awaits(frames) && context == StatesOf(frames)
      modifies this`context
      ensures context == StatesOf(Attach(frames, v).frames)
      ensures Attach(frames, v).frames != [] ==> !Top(Attach(frames, v)).InString?
    {
      AttachStates(frames, v);
      if context[|context| - 1] == VALUE {
        context := context[..|context| - 1];
      }
    }

    /** Makes the call's effect on the value under construction. */
    ghost method Record(call: Call)
      requires Proper(doc) && After(doc, call, mode).Some?
      requires context == StatesOf(After(doc, call, mode).value.frames)
      requires out == Out(doc, mode) + Added(doc, call, mode)
      requires var e := After(doc, call, mode).value;
               e.frames != [] && Top(e).InString? ==> utf8Buf == Pending(e) && utf8State == StateAfter(utf8Buf)
      modifies this`doc
      ensures doc == After(old(doc), call, mode).value && Valid()
    {
      AfterText(doc, call, mode);
      doc := After(doc, call, mode).value;
    }

    /** json_begin_array */
    method BeginArray() returns (ok: bool)
      requires Valid()
      modifies this
      ensures Valid() && (ok <==> After(old(doc), Call.BeginArray, mode).Some?)
      ensures doc == if ok then After(old(doc), Call.BeginArray, mode).value else old(doc)
    {
      hide Out;
      hide Proper;
      hide Starting;
      ok := ValueStart();
      if ok {
        context := context + [ARRAY_EMPTY];
        out := out + [LBRACKET];
        StatesPushed(Starting(doc), InArray([], false));
        Assoc(Out(doc, mode), Separator(doc), [LBRACKET]);
        Record(Call.BeginArray);
      }
    }

    /** json_begin_object */
    method BeginObject() returns (ok: bool)
      requires Valid()
      modifies this
      ensures Valid() && (ok <==> After(old(doc), Call.BeginObject, mode).Some?)
      ensures doc == if ok then After(old(doc), Call.BeginObject, mode).value else old(doc)
    {
      hide Out;
      hide Proper;
      hide Starting;
      ok := ValueStart();
      if ok {
        context := context + [OBJECT_EMPTY];
        out := out + [LBRACE];
        StatesPushed(Starting(doc), InObject([], None));
        Assoc(Out(doc, mode), Separator(doc), [LBRACE]);
        Record(Call.BeginObject);
      }
    }

    /** json_end_array */
    method EndArray() returns (ok: bool)
      requires Valid()
      modifies this
      ensures Valid() && (ok <==> After(old(doc), Call.EndArray, mode).Some?)
      ensures doc == if ok then After(old(doc), Call.EndArray, mode).value else old(doc)
    {
      hide Out;
      hide Attach;
      if context == [] || (context[|context| - 1] != ARRAY_EMPTY && context[|context| - 1] != ARRAY_NONEMPTY) {
        return false;
      }
      ok := true;
      BelowAwaits(doc);
      context := context[..|context| - 1];
      out := out + [RBRACKET];
      ValueEnd(Below(doc), Arr(Top(doc).items));
      Record(Call.EndArray);
    }

    /** json_end_object */
    method EndObject() returns (ok: bool)
      requires Valid()
      modifies this
      ensures Valid() && (ok <==> After(old(doc), Call.EndObject, mode).Some?)
      ensures doc == if ok then After(old(doc), Call.EndObject, mode).value else old(doc)
    {
      hide Out;
      hide Attach;
      if context == [] || (context[|context| - 1] != OBJECT_EMPTY && context[|context| - 1] != OBJECT_NONEMPTY) {
        return false;
      }
      ok := true;
      BelowAwaits(doc);
      context := context[..|context| - 1];
      out := out + [RBRACE];
      ValueEnd(Below(doc), Obj(Top(doc).fields));
      Record(Call.EndObject);
    }

    /** json_emit_i64, json_emit_u64, json_emit_null and json_emit_bool. */
    method EmitAtom(token: seq<byte>, ghost atom: Value<Text>) returns (ok: bool)
      requires Valid() && IsAtom(atom) && Writable(atom) && Print(atom) == token
      modifies this
      ensures Valid() && (ok <==> After(old(doc), Emit(atom), mode).Some?)
      ensures doc == if ok then After(old(doc), Emit(atom), mode).value else old(doc)
    {
      hide Out;
      hide Attach;
      hide Print;
      hide IsInteger;
      hide Writable;
      ok := ValueStart();
      if ok {
        out := out + token;
        StartingAwaits(doc);
        Assoc(Out(doc, mode), Separator(doc), token);
        ValueEnd(Starting(doc), atom);
        Record(Emit(atom));
      }
    }

    method EmitNull() returns (ok: bool)
      requires Valid()
      modifies this
      ensures Valid() && (ok <==> After(old(doc), Emit(Null), mode).Some?)
      ensures doc == if ok then After(old(doc), Emit(Null), mode).value else old(doc)
    {
      ok := EmitAtom(NULL, Null);
    }

    method EmitBool(b: bool) returns (ok: bool)
      requires Valid()
      modifies this
      ensures Valid() && (ok <==> After(old(doc), Emit(Bool(b)), mode).Some?)
      ensures doc == if ok then After(old(doc), Emit(Bool(b)), mode).value else old(doc)
    {
      ok := EmitAtom(if b then TRUE else FALSE, Bool(b));
    }

    method EmitInteger(n: int) returns (ok: bool)
      requires Valid()
      modifies this
      ensures Valid() && (ok <==> After(old(doc), Emit(Number(Decimal(n))), mode).Some?)
      ensures doc == if ok then After(old(doc), Emit(Number(Decimal(n))), mode).value else old(doc)
    {
      IsDecimal(n);
      ok := EmitAtom(Decimal(n), Number(Decimal(n)));
    }

    // ----- Strings -----

    /** json_begin_string_no_check */
    method OpenString()
      modifies this`out, this`context, this`utf8State, this`utf8Buf
      ensures context == old(context) + [STRING] && out == old(out) + [QUOTE]
      ensures utf8Buf == [] && utf8State == StateAfter([])
    {
      context := context + [STRING];
      out := out + [QUOTE];
      utf8State, utf8Buf := UTF8_ACCEPT, [];
    }

    /** The first half of json_end_string. */
    method CloseString() returns (ok: bool)
      requires context != [] && IsPending(utf8Buf) && utf8State == StateAfter(utf8Buf)
      modifies this`out, this`context
      ensures ok <==> !Dies(mode, AtEnd(utf8Buf))
      ensures ok ==> context == old(context)[..|old(context)| - 1] && out == old(out) + EndText(mode, utf8Buf)
    {
      ok := true;
      EndTextIs(mode, utf8Buf);
      if utf8State != UTF8_ACCEPT {
        ok := BadUtf8();
      }
      if ok {
        context := context[..|context| - 1];
        out := out + [QUOTE];
      }
    }

    /** json_begin_string */
    method BeginString() returns (ok: bool)
      requires Valid()
      modifies this
      ensures Valid() && (ok <==> After(old(doc), Call.BeginString, mode).Some?)
      ensures doc == if ok then After(old(doc), Call.BeginString, mode).value else old(doc)
    {
      hide Out;
      hide Proper;
      hide Starting;
      ok := ValueStart();
      if ok {
        OpenString();
        StatesPushed(Starting(doc), InString([]));
        Assoc(Out(doc, mode), Separator(doc), [QUOTE]);
        Record(Call.BeginString);
      }
    }

    /** json_emit_string_part; ill-formed UTF-8 may make the writer unusable. */
    method EmitStringPart(s: seq<byte>) returns (ok: bool)
      requires Valid()
      modifies this
      ensures ok <==> After(old(doc), StringPart(s), mode).Some?
      ensures ok ==> Valid() && doc == After(old(doc), StringPart(s), mode).value
      ensures !ok ==> Valid() || mode == Die
    {
      hide Out;
      hide Proper;
      if context == [] || context[|context| - 1] != STRING {
        return false;
      }
      TopString(doc);
      ok := EmitPart(s);
      if ok {
        FeedAppend([], Top(doc).fed, s);
        assert context == StatesOf(Below(doc) + [InString(Top(doc).fed + s)]);
        Record(StringPart(s));
      }
    }

    /** json_end_string */
    method EndString() returns (ok: bool)
      requires Valid()
      modifies this
      ensures ok <==> After(old(doc), Call.EndString, mode).Some?
      ensures ok ==> Valid() && doc == After(old(doc), Call.EndString, mode).value
      ensures !ok ==> Valid() || mode == Die
    {
      hide Out;
      hide Attach;
      if context == [] || context[|context| - 1] != STRING {
        return false;
      }
      TopString(doc);
      ok := CloseString();
      if ok {
        BelowAwaits(doc);
        ValueEnd(Below(doc), Str(Content(mode, Top(doc).fed)));
        Record(Call.EndString);
      }
    }

    /** A whole string, quotes and all. */
    method EmitName(name: seq<byte>) returns (ok: bool)
      modifies this`out, this`context, this`utf8State, this`utf8Buf
      ensures ok <==> !Dies(mode, Segments(name))
      ensures ok ==> context == old(context) && out == old(out) + Quoted(Content(mode, name))
    {
      hide Feed;
      hide Content;
      hide Segments;
      OpenString();
      ok := EmitPart(name);
      if ok {
        ok := CloseString();
      }
      NameDies(mode, name);
      if ok {
        NameText(mode, name, old(out), out);
      }
    }

    /** json_begin_field */
    method BeginField(name: seq<byte>) returns (ok: bool)
      requires Valid()
      modifies this
      ensures ok <==> After(old(doc), Call.BeginField(name), mode).Some?
      ensures ok ==> Valid() && doc == After(old(doc), Call.BeginField(name), mode).value
      ensures !ok ==> Valid() || mode == Die
    {
      hide Out;
      hide Proper;
      hide Feed;
      hide Content;
      hide Quoted;
      if context == [] || (context[|context| - 1] != OBJECT_EMPTY && context[|context| - 1] != OBJECT_NONEMPTY) {
        return false;
      }
      TopObject(doc);
      if context[|context| - 1] == OBJECT_NONEMPTY {
        out := out + [COMMA];
      } else {
        context := context[..|context| - 1] + [OBJECT_NONEMPTY];
      }
      ok := EmitName(name);
      if ok {
        out := out + [COLON];
        context := context + [VALUE];
        Assoc(Out(doc, mode), if Top(doc).fields != [] then [COMMA] else [], Quoted(Content(mode, name)) + [COLON]);
        NamedStates(doc, Content(mode, name));
        Record(Call.BeginField(name));
      }
    }

    /** json_emit_string_n */
    method EmitString(s: seq<byte>) returns (ok: bool)
      requires Valid()
      modifies this
      ensures ok <==> AcceptsValue(old(doc)) && !Dies(mode, Segments(s))
      ensures ok ==> Valid() && Awaits(Starting(old(doc))) && doc == Attach(Starting(old(doc)), Str(Kept(mode, Segments(s))))
      ensures !ok ==> Valid() || mode == Die
    {
      hide Out;
      hide Proper;
      hide Attach;
      hide Starting;
      hide Feed;
      hide Segments;
      ok := BeginString();
      if ok {
        StringBegun(old(doc), doc, s);
        NameDies(mode, s);
        ok := EmitStringPart(s);
        if ok {
          ok := EndString();
        }
      }
    }

    /** json_pop_to_saved_context, for the context that was innermost when 'saved' of them were open. */
    method PopToSaved(saved: nat) returns (ok: bool)
      requires Valid() && EndsWell(doc, mode)
      modifies this
      ensures Valid() && (ok <==> PopTo(old(doc), saved, mode).Some?)
      ensures ok ==> doc == PopTo(old(doc), saved, mode).value
    {
      hide Out;
      hide After;
      while context != [] && |context| != saved
        invariant Valid() && EndsWell(doc, mode) && PopTo(doc, saved, mode) == PopTo(old(doc), saved, mode)
        decreases |context|
      {
        CloseShrinks(doc, mode);
        TopFits(doc);
        ghost var d := doc;
        var closed;
        match context[|context| - 1] {
          case VALUE => closed := EmitNull();
          case ARRAY_EMPTY => closed := EndArray();
          case ARRAY_NONEMPTY => closed := EndArray();
          case OBJECT_EMPTY => closed := EndObject();
          case OBJECT_NONEMPTY => closed := EndObject();
          case STRING => closed := EndString();
        }
        assert closed && doc == Closed(d, mode);
      }
      ok := context != [];
    }
  }
}
