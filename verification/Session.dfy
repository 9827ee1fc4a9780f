/** The event loop's pump among the moves of the two peers. */
module Session {
  import opened Wrappers
  import opened Bytes
  import opened Messages
  import opened Channels
  import opened Peer
  import opened Protocol
  import opened PumpRounds
  import opened Endpoint

  lemma {:induction false} InvShaped(w: World)
    requires Inv(w)
    ensures Shaped(w)
  {
  }

  lemma {:induction false} MoveReaches(v: World, p: nat, a: Action)
    requires Reachable(v) && Shaped(v) && CanMove(v, p, a)
    ensures Reachable(Advance(v, p, a)) && Shaped(Advance(v, p, a))
  {
    hide Initial;
    hide Advance;
    hide Inv;
    hide CanMove;
    var start, ms :| Initial(start) && RunWorld(start, ms) == Some(v);
    var more := ms + [Move(p, a)];
    assert more[..|ms|] == ms;
    assert RunWorld(start, more) == Some(Advance(v, p, a));
    RunsKeepInv(start, more);
    InvShaped(Advance(v, p, a));
  }

  lemma {:induction false} PumpMove(v: World, p: nat, a: Action)
    requires Reachable(v) && Shaped(v) && IsPeer(p) && IsWork(a) && Possible(v.peer[p], a)
    ensures CanMove(v, p, a) && Reachable(Advance(v, p, a)) && Shaped(Advance(v, p, a))
    ensures Advance(v, p, a).peer[p] == Do(v.peer[p], a)
  {
    hide Reachable;
    hide Possible;
    hide Do;
    assert CanMove(v, p, a);
    MoveReaches(v, p, a);
  }

  /** Whatever the pump has done at a peer of a reachable world leads to another reachable world. */
  lemma {:induction false} PumpReaches(w: World, p: nat, acts: seq<Action>, at: Peer) returns (v: World)
    requires Reachable(w) && Shaped(w) && IsPeer(p) && RunPeer(w.peer[p], acts) == Some(at)
    ensures Reachable(v) && Shaped(v) && v.peer[p] == at
    decreases |acts|
  {
    hide Reachable;
    hide WellFormedPeer;
    hide Advance;
    hide Possible;
    v := w;
    if acts != [] {
      var a := acts[|acts| - 1];
      v := PumpReaches(w, p, acts[..|acts| - 1], RunPeer(w.peer[p], acts[..|acts| - 1]).value);
      PumpMove(v, p, a);
      v := Advance(v, p, a);
    }
  }

  // ----- Polls -----

  /** The bytes that an event reads from its channel's descriptor. */
  function Read(e: Event): seq<byte> {
    match e
    case Got(data) => data
    case GotEncoded(chunk) => chunk
    case _ => []
  }

  function AllRead(es: seq<Event>): seq<byte>
    decreases |es|
  {
    if es == [] then [] else AllRead(es[..|es| - 1]) + Read(es[|es| - 1])
  }

  /** Two worlds that differ at most in what a poll of channel i at peer p changes, having read these bytes. */
  predicate Polled(w: World, p: nat, i: nat, read: seq<byte>, d: Chan, v: World)
    requires Shaped(w) && Shaped(v) && IsPeer(p) && i < NR_CH
  {
    && v.peer[p] == With(w.peer[p], i, d) && v.peer[1 - p] == w.peer[1 - p]
    && v.queue == w.queue && v.endSeen == w.endSeen
    && (if i == FROM_PEER then w.wire[1 - p] == read + v.wire[1 - p] else v.wire[1 - p] == w.wire[1 - p])
  }

  lemma {:induction false} RestRead(a: seq<byte>, b: seq<byte>, c: seq<byte>)
    requires a + b <= a + c
    ensures b <= c
  {
    assert b == (a + b)[|a|..];
    assert c == (a + c)[|a|..];
  }

  lemma {:induction false} PollMove(v: World, p: nat, i: nat, e: Event)
    requires Reachable(v) && Shaped(v) && IsPeer(p) && i < NR_CH && !e.Written? && Enabled(v.peer[p].ch[i], e)
    requires i == FROM_PEER ==> Read(e) <= v.wire[1 - p]
    ensures CanMove(v, p, Io(i, e))
    ensures var u := Advance(v, p, Io(i, e));
            Reachable(u) && Shaped(u) && Polled(v, p, i, Read(e), Step(v.peer[p].ch[i], e), u)
  {
    hide Reachable;
    hide Enabled;
    hide Step;
    hide WellFormedPeer;
    var a := Io(i, e);
    assert Possible(v.peer[p], a);
    assert CanMove(v, p, a);
    MoveReaches(v, p, a);
  }

  /**
    Whatever a poll does to a channel of a reachable world leads to another
    reachable world, if what it reads from the other end is on the wire; that
    much is taken off the wire.
   */
  lemma {:induction false} PollReaches(w: World, p: nat, i: nat, es: seq<Event>, d: Chan) returns (v: World)
    requires Reachable(w) && Shaped(w) && IsPeer(p) && i < NR_CH
    requires Run(w.peer[p].ch[i], es) == Some(d) && forall e | e in es :: !e.Written?
    requires i == FROM_PEER ==> AllRead(es) <= w.wire[1 - p]
    ensures Reachable(v) && Shaped(v) && Polled(w, p, i, AllRead(es), d, v)
    decreases |es|
  {
    hide Reachable;
    hide WellFormedPeer;
    hide Advance;
    hide Enabled;
    hide Step;
    hide CanMove;
    v := w;
    if es == [] {
      assert w.peer[p].ch == w.peer[p].ch[i := d];
    } else {
      var before := es[..|es| - 1];
      assert AllRead(es) == AllRead(before) + Read(es[|es| - 1]);
      var c := Run(w.peer[p].ch[i], before).value;
      v := PollReaches(w, p, i, before, c);
      var u := v;
      if i == FROM_PEER {
        RestRead(AllRead(before), Read(es[|es| - 1]), u.wire[1 - p]);
      }
      PollMove(u, p, i, es[|es| - 1]);
      v := Advance(u, p, Io(i, es[|es| - 1]));
      assert w.peer[p].ch[i := c][i := d] == w.peer[p].ch[i := d];
    }
  }

  // ----- Messages that have to be rejected -----

  lemma {:induction false} Receivable(w: World, p: nat)
    requires Shaped(w) && CanMove(w, p, Take(0))
    ensures Receive(w.peer[p], 0).Delivered?
  {
  }

  lemma {:induction false} NotFatal(w: World, p: nat)
    requires Reachable(w) && IsPeer(p)
    ensures Shaped(w) && !Fatal(w.peer[p])
  {
    hide Reachable;
    hide CanMove;
    hide Detect;
    hide Receive;
    NeverDies(w, p);
    if DetectMsg(w.peer[p]).Ready? {
      assert DirectOk(w.peer[p], w.queue[1 - p][0], 0);
      Receivable(w, p);
    }
  }

  /**
    The pump of a peer that has only ever been connected to another honest peer
    never meets a message that it has to reject.
   */
  lemma {:induction false} PumpNeverDies(w: World, p: nat, acts: seq<Action>, at: Peer, fatal: bool, now: Peer)
    requires Reachable(w) && Shaped(w) && IsPeer(p) && Tracks(w.peer[p], acts, at, fatal, now)
    ensures !fatal && at == now && exists v :: Reachable(v) && Shaped(v) && v.peer[p] == now
  {
    hide Reachable;
    hide Shaped;
    hide Fatal;
    var v := PumpReaches(w, p, acts, at);
    NotFatal(v, p);
  }
}
