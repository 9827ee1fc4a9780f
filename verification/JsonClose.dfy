/** Closing what is open: every text the writer has begun can be completed, as far as one likes. */
module JsonClose {
  import opened Wrappers
  import opened Bytes
  import opened Utf8
  import opened Utf8Repair
  import opened JsonText
  import opened JsonValue
  import opened JsonDoc

  /** What json_pop_to_saved_context does about the innermost context. */
  function ClosingCall(f: Frame): Call {
    match f
    case Slot => Emit(Null)
    case InArray(_, _) => EndArray
    case InObject(_, _) => EndObject
    case InString(_) => EndString
  }

  /** Ill-formed UTF-8 at the end of a string makes the writer die in one mode. */
  predicate EndsWell(d: Doc, mode: Mode) {
    d.frames != [] && Top(d).InString? ==> !Dies(mode, AtEnd(Pending(d)))
  }

  lemma {:induction false} CloseShrinks(d: Doc, mode: Mode)
    requires Proper(d) && d.frames != [] && EndsWell(d, mode)
    ensures After(d, ClosingCall(Top(d)), mode).Some?
    ensures var e := After(d, ClosingCall(Top(d)), mode).value;
            |e.frames| < |d.frames| && (e.frames != [] ==> !Top(e).InString?)
  {
    hide Content;
    if !Top(d).Slot? {
      BelowAwaits(d);
    } else {
      StartingAwaits(d);
    }
  }

  ghost function Closed(d: Doc, mode: Mode): (e: Doc)
    requires Proper(d) && d.frames != [] && EndsWell(d, mode)
    ensures Proper(e) && |e.frames| < |d.frames|
    ensures e.frames != [] ==> !Top(e).InString?
    ensures Out(d, mode) <= Out(e, mode)
  {
    var call := ClosingCall(Top(d));
    AfterText(d, call, mode);
    CloseShrinks(d, mode);
    After(d, call, mode).value
  }

  ghost predicate IsContainer(f: Frame) {
    f.InArray? || f.InObject?
  }

  /** One frame contains what the other contains, and perhaps more. */
  predicate Extends(g: Frame, f: Frame) {
    || g == f
    || (f.InArray? && g.InArray? && f.items <= g.items)
    || (f.InObject? && g.InObject? && f.fields <= g.fields)
  }

  /** A completed value goes to the innermost container, and nothing else changes below. */
  lemma {:induction false} AttachInside(frames: seq<Frame>, v: Value<Text>, k: nat)
    requires Awaits(frames) && 0 < k <= |frames| && IsContainer(frames[k - 1])
    ensures var e := Attach(frames, v);
            && k <= |e.frames| && e.frames[..k - 1] == frames[..k - 1]
            && IsContainer(e.frames[k - 1]) && Extends(e.frames[k - 1], frames[k - 1])
  {
    var n := |frames|;
    if frames[n - 1].Slot? {
      assert Holds(frames[n - 2], frames[n - 1]);
    }
  }

  /** The value that is completed by closing the innermost context. */
  ghost function ClosedValue(d: Doc, mode: Mode): Value<Text>
    requires d.frames != []
  {
    match Top(d)
    case Slot => Null
    case InArray(items, _) => Arr(items)
    case InObject(fields, _) => Obj(fields)
    case InString(fed) => Str(Content(mode, fed))
  }

  lemma {:induction false} ClosedAttaches(d: Doc, mode: Mode)
    requires Proper(d) && d.frames != [] && EndsWell(d, mode)
    ensures var frames := if Top(d).Slot? then d.frames else Below(d);
            Awaits(frames) && Closed(d, mode) == Attach(frames, ClosedValue(d, mode))
  {
    hide Attach;
    hide Content;
    hide Proper;
    hide Awaits;
    hide Out;
    hide Writable;
    hide Feed;
    if Top(d).Slot? {
      StartingAwaits(d);
    } else {
      BelowAwaits(d);
    }
  }

  /** Closing something inside a container adds to the container, and leaves everything around it alone. */
  lemma {:induction false} CloseInside(d: Doc, k: nat, mode: Mode)
    requires Proper(d) && 0 < k < |d.frames| && EndsWell(d, mode) && IsContainer(d.frames[k - 1])
    ensures var e := Closed(d, mode);
            && k <= |e.frames| && e.frames[..k - 1] == d.frames[..k - 1]
            && IsContainer(e.frames[k - 1]) && Extends(e.frames[k - 1], d.frames[k - 1])
  {
    ClosedAttaches(d, mode);
    hide Closed;
    hide Attach;
    if Top(d).Slot? {
      AttachInside(d.frames, Null, k);
    } else {
      AttachInside(Below(d), ClosedValue(d, mode), k);
    }
  }

  /** json_pop_to_saved_context: closes contexts until the saved one is innermost; None if it never is. */
  ghost function PopTo(d: Doc, k: nat, mode: Mode): Option<Doc>
    requires Proper(d) && EndsWell(d, mode)
    decreases |d.frames|
  {
    if d.frames == [] then None
    else if |d.frames| == k then Some(d)
    else PopTo(Closed(d, mode), k, mode)
  }

  lemma {:induction false} ExtendsFurther(f: Frame, g: Frame, h: Frame)
    requires Extends(g, f) && Extends(h, g)
    ensures Extends(h, f)
  {
  }

  /** With something on top of the slot, one step either uses it up or leaves something there. */
  lemma {:induction false} CloseAboveSlot(d: Doc, k: nat, mode: Mode)
    requires Proper(d) && 0 < k < |d.frames| && EndsWell(d, mode) && d.frames[k - 1].Slot?
    ensures var e := Closed(d, mode); |e.frames| < k || (k < |e.frames| && e.frames[k - 1] == d.frames[k - 1])
  {
    ClosedAttaches(d, mode);
    hide Closed;
    hide Content;
    var n := |d.frames|;
    assert Holds(d.frames[n - 2], d.frames[n - 1]);
    assert n > 2 ==> Holds(d.frames[n - 3], d.frames[n - 2]);
  }

  lemma {:induction false} PopBelow(d: Doc, k: nat, mode: Mode)
    requires Proper(d) && EndsWell(d, mode) && |d.frames| < k
    ensures PopTo(d, k, mode) == None
    decreases |d.frames|
  {
    hide Closed;
    if d.frames != [] {
      PopBelow(Closed(d, mode), k, mode);
    }
  }

  lemma {:induction false} SlotUsedUp(d: Doc, k: nat, mode: Mode)
    requires Proper(d) && 0 < k < |d.frames| && EndsWell(d, mode) && !IsContainer(d.frames[k - 1])
    ensures PopTo(d, k, mode) == None
    decreases |d.frames|
  {
    var e := Closed(d, mode);
    assert Holds(d.frames[k - 1], d.frames[k]);
    if |e.frames| < k {
      PopBelow(e, k, mode);
    } else {
      CloseAboveSlot(d, k, mode);
      SlotUsedUp(e, k, mode);
    }
  }

  /**
    Popping to a saved array or object completes everything begun inside it and
    nothing else. A saved slot for a value, once something has been begun there,
    is used up by completing it: then the writer closes everything and dies.
   */
  lemma {:induction false} PopReaches(d: Doc, k: nat, mode: Mode)
    requires Proper(d) && 0 < k <= |d.frames| && EndsWell(d, mode)
    ensures PopTo(d, k, mode).Some? <==> k == |d.frames| || IsContainer(d.frames[k - 1])
    ensures PopTo(d, k, mode).Some? ==>
              var e := PopTo(d, k, mode).value;
              && Proper(e) && |e.frames| == k && e.frames[..k - 1] == d.frames[..k - 1]
              && Extends(e.frames[k - 1], d.frames[k - 1])
              && Out(d, mode) <= Out(e, mode)
    decreases |d.frames|
  {
    hide Out;
    hide Closed;
    hide Proper;
    if k < |d.frames| {
      var e := Closed(d, mode);
      if IsContainer(d.frames[k - 1]) {
        CloseInside(d, k, mode);
        PopReaches(e, k, mode);
        assert e.frames[..k - 1] == d.frames[..k - 1];
        ExtendsFurther(d.frames[k - 1], e.frames[k - 1], PopTo(e, k, mode).value.frames[k - 1]);
      } else {
        SlotUsedUp(d, k, mode);
      }
    }
  }

  // ----- Every text can be completed -----

  ghost function Finished(d: Doc, mode: Mode): (e: Doc)
    requires Proper(d) && EndsWell(d, mode)
    ensures Proper(e) && e.frames == []
    decreases |d.frames|
  {
    if d.frames == [] then d else Finished(Closed(d, mode), mode)
  }

  lemma {:induction false} FinishedParses(d: Doc, mode: Mode)
    requires Proper(d) && EndsWell(d, mode)
    ensures Out(d, mode) <= Out(Finished(d, mode), mode)
    ensures Parse(Out(Finished(d, mode), mode)) == Read(MeaningOf(Finished(d, mode).result.value), [])
    decreases |d.frames|
  {
    hide Parse;
    if d.frames == [] {
      RoundTrip(d.result.value);
    } else {
      FinishedParses(Closed(d, mode), mode);
    }
  }

  /** The bytes that complete a character of which these have been read. */
  function RestOfChar(buf: seq<byte>): seq<byte>
    requires IsPending(buf)
  {
    if buf == [] then [] else Completed(buf)[|buf|..]
  }

  lemma {:induction false} ProperPart(s: seq<byte>, t: seq<byte>)
    requires s != [] && s < t && IsWhole(t)
    ensures IsPartial(s) && !IsWhole(s)
  {
    PartialIsBegun(s);
  }

  lemma {:induction false} FeedRest(buf: seq<byte>, t: seq<byte>)
    requires IsPending(buf) && buf < t && IsWhole(t)
    ensures Feed(buf, t[|buf|..]) == Fed([Char(Scalar(t))], [])
    decreases |t| - |buf|
  {
    hide IsWhole;
    hide IsPartial;
    hide Scalar;
    var more := buf + [t[|buf|]];
    assert t[|buf|..][1..] == t[|more|..];
    if |more| == |t| {
      assert more == t;
    } else {
      ProperPart(more, t);
      FeedRest(more, t);
    }
  }

  lemma {:induction false} RestCompletes(d: Doc, mode: Mode)
    requires Proper(d) && !EndsWell(d, mode)
    ensures var e := After(d, StringPart(RestOfChar(Pending(d))), mode);
            e.Some? && EndsWell(e.value, mode)
  {
    hide IsWhole;
    hide IsPartial;
    hide Completed;
    var fed, buf := Top(d).fed, Pending(d);
    FeedRest(buf, Completed(buf));
    FeedAppend([], fed, RestOfChar(buf));
  }

  /** If the string cannot end here, the character that has been begun is completed first. */
  ghost function CharEnded(d: Doc, mode: Mode): (e: Doc)
    requires Proper(d)
    ensures Proper(e) && EndsWell(e, mode) && Out(d, mode) <= Out(e, mode)
  {
    if EndsWell(d, mode) then d
    else
      var call := StringPart(RestOfChar(Pending(d)));
      RestCompletes(d, mode);
      AfterText(d, call, mode);
      After(d, call, mode).value
  }

  /** At any time there is a way to go on that makes the text a JSON text. */
  lemma {:induction false} Completable(d: Doc, mode: Mode)
    requires Proper(d)
    ensures var e := Finished(CharEnded(d, mode), mode);
            Out(d, mode) <= Out(e, mode) && Parse(Out(e, mode)) == Read(MeaningOf(e.result.value), [])
  {
    hide Parse;
    hide Out;
    FinishedParses(CharEnded(d, mode), mode);
  }

  // ----- Whole runs -----

  /** What a sequence of calls describes, if the writer dies of none of them. */
  ghost function Run(calls: seq<Call>, mode: Mode): Option<Doc>
    decreases |calls|
  {
    if calls == [] then Some(Start())
    else match Run(calls[..|calls| - 1], mode)
      case None => None
      case Some(d) => if Proper(d) then After(d, calls[|calls| - 1], mode) else None
  }

  lemma {:induction false} RunProper(calls: seq<Call>, mode: Mode)
    requires Run(calls, mode).Some?
    ensures Proper(Run(calls, mode).value)
    decreases |calls|
  {
    hide After;
    if calls != [] {
      var rest := calls[..|calls| - 1];
      RunProper(rest, mode);
      AfterText(Run(rest, mode).value, calls[|calls| - 1], mode);
    }
  }

  /** Calls that complete a value have written one JSON text, which means just that value. */
  lemma {:induction false} RunParses(calls: seq<Call>, mode: Mode)
    requires Run(calls, mode).Some? && Run(calls, mode).value.frames == []
    ensures Proper(Run(calls, mode).value)
    ensures var d := Run(calls, mode).value;
            Parse(Out(d, mode)) == Read(MeaningOf(d.result.value), [])
  {
    hide Parse;
    RunProper(calls, mode);
    RoundTrip(Run(calls, mode).value.result.value);
  }

  function Joined(parts: seq<seq<byte>>): seq<byte>
    decreases |parts|
  {
    if parts == [] then [] else Joined(parts[..|parts| - 1]) + parts[|parts| - 1]
  }

  /** A string is begun and its parts are given one after another, unless the writer dies of one of them. */
  ghost function InParts(d: Doc, parts: seq<seq<byte>>, mode: Mode): Option<Doc>
    requires Proper(d) && AcceptsValue(d)
    decreases |parts|
  {
    if parts == [] then After(d, BeginString, mode)
    else match InParts(d, parts[..|parts| - 1], mode)
      case None => None
      case Some(e) => if Proper(e) then After(e, StringPart(parts[|parts| - 1]), mode) else None
  }

  /** ... and then it is ended. */
  ghost function WholeInParts(d: Doc, parts: seq<seq<byte>>, mode: Mode): Option<Doc>
    requires Proper(d) && AcceptsValue(d)
  {
    match InParts(d, parts, mode)
    case None => None
    case Some(e) => if Proper(e) then After(e, EndString, mode) else None
  }

  ghost function StringSoFar(d: Doc, fed: seq<byte>): Doc
    requires AcceptsValue(d)
  {
    Doc(Starting(d) + [InString(fed)], None)
  }

  lemma {:induction false} FedProper(d: Doc, fed: seq<byte>, mode: Mode)
    requires Proper(d) && AcceptsValue(d)
    ensures Proper(StringSoFar(d, fed)) && Top(StringSoFar(d, fed)) == InString(fed) && Below(StringSoFar(d, fed)) == Starting(d) && Awaits(Starting(d))
  {
    StartingAwaits(d);
    StartedText(d, InString(fed), mode);
  }

  lemma {:induction false} OnePartMore(d: Doc, fed: seq<byte>, s: seq<byte>, mode: Mode)
    requires Proper(d) && AcceptsValue(d) && !Dies(mode, Feed([], fed).segments)
    ensures Proper(StringSoFar(d, fed))
    ensures After(StringSoFar(d, fed), StringPart(s), mode)
         == if Dies(mode, Feed([], fed + s).segments) then None else Some(StringSoFar(d, fed + s))
  {
    hide Proper;
    hide Starting;
    hide Feed;
    FedProper(d, fed, mode);
    FeedAppend([], fed, s);
  }

  lemma {:induction false} NothingFed()
    ensures Feed([], []) == Fed([], [])
  {
  }

  lemma {:induction false} DiesOnce(d: Doc, parts: seq<seq<byte>>, mode: Mode)
    requires Proper(d) && AcceptsValue(d)
    ensures InParts(d, parts, mode)
         == if Dies(mode, Feed([], Joined(parts)).segments) then None else Some(StringSoFar(d, Joined(parts)))
    decreases |parts|
  {
    hide Proper;
    hide Starting;
    hide Feed;
    if parts == [] {
      NothingFed();
    } else {
      var rest, last := parts[..|parts| - 1], parts[|parts| - 1];
      DiesOnce(d, rest, mode);
      if InParts(d, rest, mode).Some? {
        OnePartMore(d, Joined(rest), last, mode);
      } else {
        FeedAppend([], Joined(rest), last);
      }
    }
  }

  /**
    A string given in parts contains what its bytes do together, with ill-formed
    runs treated as the mode says; the writer dies if the mode says so and there is one.
   */
  lemma {:induction false} StringInParts(d: Doc, parts: seq<seq<byte>>, mode: Mode)
    requires Proper(d) && AcceptsValue(d)
    ensures Awaits(Starting(d))
    ensures var segments := Segments(Joined(parts));
            WholeInParts(d, parts, mode) == if Dies(mode, segments) then None else Some(Attach(Starting(d), Str(Kept(mode, segments))))
  {
    hide Proper;
    hide Attach;
    hide Starting;
    hide Feed;
    hide Kept;
    var fed := Joined(parts);
    DiesOnce(d, parts, mode);
    FedProper(d, fed, mode);
    FeedAll(fed);
  }
}
