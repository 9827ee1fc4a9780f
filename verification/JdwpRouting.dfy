/**
  How the JDWP proxy numbers the packets it sends to the app, finds the command
  that a reply answers, and puts packets aside while it waits for a reply to a
  command of its own.
 */
module JdwpRouting {
  import opened Wrappers

  const ID_SIZE := 0x1_0000_0000

  type Id = x: int | 0 <= x < ID_SIZE

  /** A packet's header as far as routing is concerned; 'body' says which command it is or answers. */
  datatype Packet = Packet(isReply: bool, id: Id, body: nat)

  /** A command from the debugger that the app has yet to answer. */
  datatype Pending = Pending(id: Id, original: Id, body: nat)

  function Ids(pending: seq<Pending>): set<Id> {
    set p | p in pending :: p.id
  }

  function Plus(a: Id, n: nat): Id {
    (a + n) % ID_SIZE
  }

  /** Where a packet with this ID is first in a list, or the list's length. */
  function FirstPending(pending: seq<Pending>, id: Id): (i: nat)
    ensures i <= |pending|
    ensures i < |pending| ==> pending[i].id == id
    ensures forall j | 0 <= j < i :: pending[j].id != id
  {
    if pending == [] || pending[0].id == id then 0 else 1 + FirstPending(pending[1..], id)
  }

  predicate Answers(p: Packet, id: Id) {
    p.isReply && p.id == id
  }

  function FirstAnswer(ps: seq<Packet>, id: Id): (i: nat)
    ensures i <= |ps|
    ensures i < |ps| ==> Answers(ps[i], id)
    ensures forall j | 0 <= j < i :: !Answers(ps[j], id)
  {
    if ps == [] || Answers(ps[0], id) then 0 else 1 + FirstAnswer(ps[1..], id)
  }

  function Without<T>(s: seq<T>, i: nat): seq<T>
    requires i < |s|
  {
    s[..i] + s[i + 1..]
  }

  // ----- The search for an ID ends -----

  lemma {:induction false} PlusInjective(start: Id, i: nat, j: nat)
    requires i < j < ID_SIZE
    ensures Plus(start, i) != Plus(start, j)
  {
  }

  lemma {:induction false} ManyIds(start: Id, n: nat, ids: set<Id>)
    requires n <= ID_SIZE && forall j | 0 <= j < n :: Plus(start, j) in ids
    ensures n <= |ids|
  {
    if n > 0 {
      var last := Plus(start, n - 1);
      forall j | 0 <= j < n - 1
        ensures Plus(start, j) in ids - {last}
      {
        PlusInjective(start, j, n - 1);
      }
      ManyIds(start, n - 1, ids - {last});
    }
  }

  lemma {:induction false} PlusMore(start: Id, n: nat)
    ensures Plus(start, 0) == start && Plus(Plus(start, n), 1) == Plus(start, n + 1)
  {
  }

  lemma {:induction false} FewIds(pending: seq<Pending>)
    ensures |Ids(pending)| <= |pending|
  {
    if pending != [] {
      FewIds(pending[1..]);
      assert Ids(pending) == {pending[0].id} + Ids(pending[1..]);
    }
  }

  // ----- Lists of packets -----

  function Reversed<T>(s: seq<T>): (r: seq<T>)
    ensures |r| == |s|
  {
    if s == [] then [] else Reversed(s[1..]) + [s[0]]
  }

  lemma {:induction false} ReversedSnoc<T>(s: seq<T>, x: T)
    ensures Reversed([x] + s) == Reversed(s) + [x]
  {
    assert ([x] + s)[1..] == s;
  }

  lemma {:induction false} AbsentPending(pending: seq<Pending>, id: Id)
    requires id !in Ids(pending)
    ensures FirstPending(pending, id) == |pending|
  {
  }

  lemma {:induction false} NoAnswerIn(ps: seq<Packet>, id: Id)
    requires forall p | p in ps :: !Answers(p, id)
    ensures FirstAnswer(ps, id) == |ps|
  {
  }

  lemma {:induction false} AnswerAfter(all: seq<Packet>, before: seq<Packet>, p: Packet, after: seq<Packet>, id: Id)
    requires all == before + ([p] + after) && Answers(p, id) && forall q | q in before :: !Answers(q, id)
    ensures FirstAnswer(all, id) == |before| && all[|before|] == p && Without(all, |before|) == before + after
  {
    assert all[|before|] == p;
    forall j | 0 <= j < |before|
      ensures !Answers(all[j], id)
    {
      assert before[j] in before && all[j] == before[j];
    }
  }

  // ----- The proxy between a debugger and an app -----

  /**
    The proxy, what is on its way to it from the app (deferred packets first),
    and what the app still owes it: for each ID, the command it has to answer.
   */
  datatype Net = Net(
    pending: seq<Pending>,
    inbox: seq<Packet>,
    owed: map<Id, nat>,
    transaction: Option<Id>,      // the proxy's own command, while it is unanswered
    asked: seq<Id>,               // the original ID of each command from the debugger
    answered: seq<(nat, Id)>)     // commands answered, and the ID the debugger saw

  /** The proxy's own commands; their answers are not for the debugger. */
  const OWN: nat := 0

  datatype Event =
    | Ask(original: Id, id: Id)          // a command from the debugger, and the number it gets
    | Notify(packet: Packet)             // the app sends a command of its own
    | Answer(id: Id)                     // the app answers
    | Deliver                            // the proxy takes the first packet
    | Begin(id: Id)                      // the proxy asks a question of its own
    | End                                // ... and takes the answer to it

  predicate Possible(n: Net, e: Event) {
    match e
    case Ask(_, id) => n.transaction.None? && id !in Ids(n.pending)
    case Notify(packet) => !packet.isReply
    case Answer(id) => id in n.owed
    case Deliver => n.transaction.None? && n.inbox != []
    case Begin(id) => n.transaction.None? && id !in Ids(n.pending)
    case End => n.transaction.Some? && FirstAnswer(n.inbox, n.transaction.value) < |n.inbox|
  }

  function Next(n: Net, e: Event): Net
    requires Possible(n, e)
  {
    match e
    case Ask(original, id) =>
      var body := |n.asked| + 1;
      n.(pending := [Pending(id, original, body)] + n.pending, owed := n.owed[id := body], asked := n.asked + [original])
    case Notify(packet) => n.(inbox := n.inbox + [packet])
    case Answer(id) => n.(inbox := n.inbox + [Packet(true, id, n.owed[id])], owed := n.owed - {id})
    case Deliver =>
      var p, rest := n.inbox[0], n.inbox[1..];
      var i := FirstPending(n.pending, p.id);
      if !p.isReply || i == |n.pending| then n.(inbox := rest)
      else n.(inbox := rest, pending := Without(n.pending, i), answered := n.answered + [(p.body, n.pending[i].original)])
    case Begin(id) => n.(transaction := Some(id), owed := n.owed[id := OWN])
    case End =>
      n.(transaction := None, inbox := Without(n.inbox, FirstAnswer(n.inbox, n.transaction.value)))
  }

  // ----- struct jdwp_proxy -----

  class Proxy {
    var pending: seq<Pending>     // first element at the head of the list
    var deferred: seq<Packet>     // likewise
    var seqnum: Id

    constructor ()
      ensures pending == [] && deferred == [] && seqnum == 0
    {
      pending, deferred, seqnum := [], [], 0;
    }

    /** The proxy is the one of this net, if the app still sends it these packets. */
    ghost predicate IsIn(n: Net, incoming: seq<Packet>)
      reads this
    {
      pending == n.pending && deferred + incoming == n.inbox
    }

    /** peek_pending_packet */
    method PeekPending(id: Id) returns (found: bool, i: nat)
      ensures found <==> id in Ids(pending)
      ensures found ==> i == FirstPending(pending, id) < |pending|
    {
      i := 0;
      while i < |pending| && pending[i].id != id
        invariant i <= |pending| && i <= FirstPending(pending, id)
        invariant forall j | 0 <= j < i :: pending[j].id != id
      {
        i := i + 1;
      }
      found := i < |pending|;
      if found {
        assert pending[i] in pending;
      }
    }

    /** make_jdwp_id: the next number that no pending command has. */
    method MakeId() returns (id: Id, ghost n: nat)
      requires |pending| < ID_SIZE
      modifies this`seqnum
      ensures id !in Ids(pending) && seqnum == Plus(id, 1)
      ensures id == Plus(old(seqnum), n) && forall j | 0 <= j < n :: Plus(old(seqnum), j) in Ids(pending)
    {
      hide Plus;
      n := 0;
      ghost var start := seqnum;
      PlusMore(start, 0);
      FewIds(pending);
      while true
        invariant 0 <= n <= |pending| && seqnum == Plus(start, n)
        invariant forall j | 0 <= j < n :: Plus(start, j) in Ids(pending)
        decreases |pending| - n
      {
        id := seqnum;
        seqnum := Plus(seqnum, 1);
        var found, _ := PeekPending(id);
        if !found {
          return;
        }
        PlusMore(start, n);
        n := n + 1;
        ManyIds(start, n, Ids(pending));
      }
    }

    /** The end of on_jdwp_command for a command from the debugger: renumbers it, and remembers it if it will be answered. */
    method SendCommand(original: Id, body: nat, hasReply: bool, ghost n: Net, ghost incoming: seq<Packet>) returns (sent: Packet)
      requires |pending| < ID_SIZE
      modifies this`seqnum, this`pending
      ensures !sent.isReply && sent.body == body && sent.id !in Ids(old(pending))
      ensures pending == if hasReply then [Pending(sent.id, original, body)] + old(pending) else old(pending)
      ensures old(IsIn(n, incoming)) && n.transaction.None? && hasReply && body == |n.asked| + 1 ==>
                Possible(n, Ask(original, sent.id)) && IsIn(Next(n, Ask(original, sent.id)), incoming)
    {
      var id, _ := MakeId();
      sent := Packet(false, id, body);
      if hasReply {
        pending := [Pending(id, original, body)] + pending;
      }
    }

    /** on_jdwp_reply for a reply from the app: what goes to the debugger, unless no command is waiting for it. */
    method RouteReply(reply: Packet) returns (sent: Option<Packet>)
      requires reply.isReply
      modifies this`pending
      ensures var i := FirstPending(old(pending), reply.id);
              if i == |old(pending)| then sent == None && pending == old(pending)
              else sent == Some(Packet(true, old(pending)[i].original, reply.body)) && pending == Without(old(pending), i)
    {
      var found, i := PeekPending(reply.id);
      if !found {
        AbsentPending(pending, reply.id);
        return None;
      }
      sent := Some(Packet(true, pending[i].original, reply.body));
      pending := pending[..i] + pending[i + 1..];
    }

    /** jdwp_read_packet_from_app: deferred packets come first. */
    method ReadPacket(incoming: seq<Packet>, at: nat) returns (packet: Option<Packet>, at': nat)
      requires at <= |incoming|
      modifies this`deferred
      ensures var all := old(deferred) + incoming[at..];
              && at <= at' <= |incoming|
              && (packet.None? <==> all == [])
              && deferred + incoming[at'..] == (if packet.None? then [] else all[1..])
              && (packet.Some? ==> packet.value == all[0])
    {
      at' := at;
      if deferred != [] {
        packet := Some(deferred[0]);
        assert (deferred + incoming[at..])[1..] == deferred[1..] + incoming[at..];
        deferred := deferred[1..];
      } else if at < |incoming| {
        packet := Some(incoming[at]);
        assert deferred + incoming[at..] == incoming[at..];
        at' := at + 1;
      } else {
        packet := None;
      }
    }

    /** Puts a packet at the head of the list of packets set aside. */
    static method PutAside(aside: seq<Packet>, packet: Packet, ghost rest: seq<Packet>) returns (more: seq<Packet>)
      requires rest != [] && rest[0] == packet
      ensures Reversed(more) + rest[1..] == Reversed(aside) + rest && |more| == |aside| + 1
      ensures forall p | p in Reversed(more) :: p in Reversed(aside) || p == packet
    {
      more := [packet] + aside;
      ReversedSnoc(aside, packet);
    }

    /** Moves packets from the head of one list to the head of the other. */
    method PutBack(packets: seq<Packet>)
      modifies this`deferred
      ensures deferred == Reversed(packets) + old(deferred)
    {
      var aside := packets;
      while aside != []
        invariant Reversed(packets) + old(deferred) == Reversed(aside) + deferred
        decreases |aside|
      {
        assert Reversed(aside) + deferred == Reversed(aside[1..]) + ([aside[0]] + deferred);
        deferred := [aside[0]] + deferred;
        aside := aside[1..];
      }
    }

    /**
      What the main loop does with the next packet from the app: a deferred one
      if there is any, else one that it reads. Commands go on to the debugger.
     */
    method HandleFromApp(incoming: seq<Packet>, at: nat, ghost n: Net) returns (sent: Option<Packet>, at': nat)
      requires at <= |incoming| && IsIn(n, incoming[at..]) && n.transaction.None?
      modifies this`deferred, this`pending
      ensures at <= at' <= |incoming|
      ensures n.inbox == [] ==> sent == None && IsIn(n, incoming[at'..])
      ensures n.inbox != [] ==>
                var p, m := n.inbox[0], Next(n, Deliver);
                && IsIn(m, incoming[at'..])
                && sent == if !p.isReply then Some(p)
                           else if m.answered == n.answered then None
                           else Some(Packet(true, m.answered[|n.answered|].1, p.body))
    {
      hide FirstPending;
      var packet;
      packet, at' := ReadPacket(incoming, at);
      if packet.None? {
        sent := None;
      } else if packet.value.isReply {
        sent := RouteReply(packet.value);
      } else {
        sent := packet;
      }
    }

    /**
      jdwp_transact_with_app after its command has been sent: reads packets until
      the reply comes, then puts the others back. 'incoming' is what the app
      sends from now on; without a reply in it the connection ends.
     */
    method AwaitReply(id: Id, incoming: seq<Packet>) returns (reply: Option<Packet>, at: nat)
      modifies this`deferred
      ensures at <= |incoming|
      ensures var all := old(deferred) + incoming;
              var k := FirstAnswer(all, id);
              if k == |all| then reply == None
              else reply == Some(all[k]) && deferred + incoming[at..] == Without(all, k)
    {
      ghost var all := deferred + incoming;
      var aside: seq<Packet> := [];  // first element at the head of the list
      at := 0;
      while true
        invariant at <= |incoming|
        invariant all == Reversed(aside) + (deferred + incoming[at..])
        invariant forall p | p in Reversed(aside) :: !Answers(p, id)
        decreases |all| - |aside|
      {
        ghost var rest := deferred + incoming[at..];
        reply, at := ReadPacket(incoming, at);
        if reply.None? {
          NoAnswerIn(Reversed(aside), id);
          return;
        }
        if Answers(reply.value, id) {
          break;
        }
        aside := PutAside(aside, reply.value, rest);
      }
      AnswerAfter(all, Reversed(aside), reply.value, deferred + incoming[at..], id);
      assert Reversed(aside) + (deferred + incoming[at..]) == (Reversed(aside) + deferred) + incoming[at..];
      PutBack(aside);
    }

    /**
      jdwp_transact_with_app: a question of the proxy's own. Whatever the app
      does meanwhile, the net m then has the packets it has sent.
     */
    method Transact(incoming: seq<Packet>, ghost n: Net) returns (id: Id, reply: Option<Packet>, at: nat)
      requires |pending| < ID_SIZE && pending == n.pending && n.transaction.None?
      modifies this`deferred, this`seqnum
      ensures at <= |incoming| && Possible(n, Begin(id))
      ensures forall m: Net | m.pending == n.pending && m.transaction == Some(id) && m.inbox == old(deferred) + incoming ::
                && (reply.Some? <==> Possible(m, End))
                && (reply.Some? ==> reply == Some(m.inbox[FirstAnswer(m.inbox, id)]) && IsIn(Next(m, End), incoming[at..]))
    {
      ghost var skipped;
      id, skipped := MakeId();
      reply, at := AwaitReply(id, incoming);
    }
  }

  // ----- What every run keeps -----

  predicate DistinctIds(pending: seq<Pending>) {
    forall i, j | 0 <= i < j < |pending| :: pending[i].id != pending[j].id && pending[i].body != pending[j].body
  }

  /** Who is waiting for the reply with this ID, and for what. */
  predicate Awaited(n: Net, id: Id, body: nat) {
    || (n.transaction == Some(id) && body == OWN)
    || (exists p :: p in n.pending && p.id == id && p.body == body)
  }

  /** Commands the proxy waits for have distinct numbers, and remember what the debugger asked. */
  ghost predicate PendingOk(n: Net) {
    && DistinctIds(n.pending)
    && (n.transaction.Some? ==> n.transaction.value !in Ids(n.pending))
    && (forall p | p in n.pending :: 0 < p.body <= |n.asked| && n.asked[p.body - 1] == p.original)
  }

  predicate DistinctReplies(ps: seq<Packet>) {
    forall i, j | 0 <= i < j < |ps| && ps[i].isReply && ps[j].isReply :: ps[i].id != ps[j].id
  }

  /** Every answer owed or on its way is awaited, and there is only one. */
  ghost predicate InboxOk(n: Net) {
    && (forall id | id in n.owed :: Awaited(n, id, n.owed[id]))
    && (forall p | p in n.inbox && p.isReply :: Awaited(n, p.id, p.body) && p.id !in n.owed)
    && DistinctReplies(n.inbox)
  }

  /** What has been answered was asked, under that ID, only once. */
  ghost predicate AnsweredOk(n: Net) {
    && (forall a | a in n.answered :: 0 < a.0 <= |n.asked| && n.asked[a.0 - 1] == a.1)
    && (forall a, p | a in n.answered && p in n.pending :: p.body != a.0)
    && (forall i, j | 0 <= i < j < |n.answered| :: n.answered[i].0 != n.answered[j].0)
  }

  ghost predicate Routed(n: Net) {
    PendingOk(n) && InboxOk(n) && AnsweredOk(n)
  }

  lemma {:induction false} AwaitedIn(n: Net, id: Id, body: nat)
    requires PendingOk(n) && Awaited(n, id, body)
    ensures n.transaction != Some(id) ==>
              var i := FirstPending(n.pending, id); i < |n.pending| && n.pending[i].body == body
    ensures n.transaction == Some(id) ==> body == OWN && FirstPending(n.pending, id) == |n.pending|
  {
    var i := FirstPending(n.pending, id);
    if n.transaction != Some(id) {
      var p :| p in n.pending && p.id == id && p.body == body;
      var j :| 0 <= j < |n.pending| && n.pending[j] == p;
      assert i <= j;
    } else {
      AbsentPending(n.pending, id);
    }
  }

  /** Nothing with a number that nobody waits for is owed or on its way. */
  lemma {:induction false} NotOwed(n: Net, id: Id)
    requires InboxOk(n) && n.transaction != Some(id) && id !in Ids(n.pending)
    ensures id !in n.owed && forall p | p in n.inbox && p.isReply :: p.id != id
  {
    assert forall p | p in n.pending :: p.id in Ids(n.pending);
  }

  /** With at least the same commands waiting, what was awaited still is. */
  lemma {:induction false} AwaitedStill(n: Net, m: Net)
    requires (forall p | p in n.pending :: p in m.pending) && (n.transaction.Some? ==> m.transaction == n.transaction)
    ensures forall id, body | Awaited(n, id, body) :: Awaited(m, id, body)
  {
  }

  lemma {:induction false} AskPending(n: Net, original: Id, id: Id)
    requires PendingOk(n) && Possible(n, Ask(original, id))
    ensures PendingOk(Next(n, Ask(original, id)))
  {
    var m := Next(n, Ask(original, id));
    assert forall p | p in n.pending :: p.id in Ids(n.pending);
    assert forall p | p in m.pending :: p == m.pending[0] || p in n.pending;
    forall i, j | 0 <= i < j < |m.pending|
      ensures m.pending[i].id != m.pending[j].id && m.pending[i].body != m.pending[j].body
    {
      assert m.pending[j] == n.pending[j - 1] && n.pending[j - 1] in n.pending;
    }
  }

  lemma {:induction false} AskInbox(n: Net, original: Id, id: Id)
    requires InboxOk(n) && Possible(n, Ask(original, id))
    ensures InboxOk(Next(n, Ask(original, id)))
  {
    var m := Next(n, Ask(original, id));
    NotOwed(n, id);
    AwaitedStill(n, m);
    hide Possible;
    assert m.pending[0] in m.pending;
    assert Awaited(m, id, m.owed[id]);
  }

  lemma {:induction false} AskAnswered(n: Net, original: Id, id: Id)
    requires AnsweredOk(n) && Possible(n, Ask(original, id))
    ensures AnsweredOk(Next(n, Ask(original, id)))
  {
    var m := Next(n, Ask(original, id));
    assert forall p | p in m.pending :: p == m.pending[0] || p in n.pending;
  }

  lemma {:induction false} AnswerInbox(n: Net, id: Id)
    requires InboxOk(n) && id in n.owed
    ensures InboxOk(Next(n, Answer(id)))
  {
    var m := Next(n, Answer(id));
    AwaitedStill(n, m);
    var last := m.inbox[|n.inbox|];
    assert forall p | p in m.inbox :: p in n.inbox || p == last;
    forall i, j | 0 <= i < j < |m.inbox| && m.inbox[i].isReply && m.inbox[j].isReply
      ensures m.inbox[i].id != m.inbox[j].id
    {
      assert m.inbox[i] == n.inbox[i] && n.inbox[i] in n.inbox;
    }
  }

  lemma {:induction false} BeginInbox(n: Net, id: Id)
    requires InboxOk(n) && Possible(n, Begin(id))
    ensures InboxOk(Next(n, Begin(id)))
  {
    var m := Next(n, Begin(id));
    NotOwed(n, id);
    AwaitedStill(n, m);
  }

  lemma {:induction false} NotifyInbox(n: Net, p: Packet)
    requires InboxOk(n) && !p.isReply
    ensures InboxOk(Next(n, Notify(p)))
  {
    var m := Next(n, Notify(p));
    AwaitedStill(n, m);
  }

  /** Taking one packet out leaves the others as they were. */
  lemma {:induction false} TakenOut(ps: seq<Packet>, k: nat)
    requires k < |ps| && DistinctReplies(ps)
    ensures DistinctReplies(Without(ps, k))
    ensures forall p | p in Without(ps, k) :: p in ps
    ensures ps[k].isReply ==> forall p | p in Without(ps, k) && p.isReply :: p.id != ps[k].id
  {
    var r := Without(ps, k);
    assert forall i | 0 <= i < |r| :: r[i] == ps[if i < k then i else i + 1];
  }

  lemma {:induction false} EndInbox(n: Net)
    requires PendingOk(n) && InboxOk(n) && Possible(n, End)
    ensures InboxOk(Next(n, End))
  {
    var m := Next(n, End);
    var id := n.transaction.value;
    var k := FirstAnswer(n.inbox, id);
    TakenOut(n.inbox, k);
    assert n.inbox[k] in n.inbox;
    forall i, body | Awaited(n, i, body) && i != id
      ensures Awaited(m, i, body)
    {
    }
  }

  lemma {:induction false} OneWaitingOut(ps: seq<Pending>, k: nat, p: Pending)
    requires k < |ps| && DistinctIds(ps)
    ensures p in Without(ps, k) <==> p in ps && p != ps[k]
    ensures p in Without(ps, k) ==> p.id != ps[k].id && p.body != ps[k].body
  {
    var r := Without(ps, k);
    if p in r {
      var i :| 0 <= i < |r| && r[i] == p;
      assert p == ps[if i < k then i else i + 1];
    }
    if p in ps && p != ps[k] {
      var i :| 0 <= i < |ps| && ps[i] == p;
      assert p == r[if i < k then i else i - 1];
    }
  }

  lemma {:induction false} WaitingOut(ps: seq<Pending>, k: nat)
    requires k < |ps| && DistinctIds(ps)
    ensures DistinctIds(Without(ps, k))
    ensures forall p :: p in Without(ps, k) <==> p in ps && p != ps[k]
    ensures forall p | p in Without(ps, k) :: p.id != ps[k].id && p.body != ps[k].body
  {
    var r := Without(ps, k);
    assert DistinctIds(r) by {
      assert forall i | 0 <= i < |r| :: r[i] == ps[if i < k then i else i + 1];
    }
    forall p
      ensures p in r <==> p in ps && p != ps[k]
      ensures p in r ==> p.id != ps[k].id && p.body != ps[k].body
    {
      OneWaitingOut(ps, k, p);
    }
  }

  /** A reply on its way to the debugger leaves the list of commands waiting for one. */
  lemma {:induction false} DeliverPending(n: Net)
    requires PendingOk(n) && Possible(n, Deliver)
    ensures PendingOk(Next(n, Deliver))
  {
    var m := Next(n, Deliver);
    var i := FirstPending(n.pending, n.inbox[0].id);
    if m.pending != n.pending {
      WaitingOut(n.pending, i);
      assert forall p | p in m.pending :: p in n.pending;
    }
  }

  lemma {:induction false} DeliverInbox(n: Net)
    requires PendingOk(n) && InboxOk(n) && Possible(n, Deliver)
    ensures InboxOk(Next(n, Deliver))
  {
    hide FirstPending;
    hide DistinctIds;
    hide DistinctReplies;
    hide Ids;
    var m := Next(n, Deliver);
    var p := n.inbox[0];
    assert m.inbox == Without(n.inbox, 0);
    TakenOut(n.inbox, 0);
    var i := FirstPending(n.pending, p.id);
    if m.pending != n.pending {
      WaitingOut(n.pending, i);
      assert p in n.inbox;
    }
    forall id, body | Awaited(n, id, body) && (p.isReply ==> id != p.id)
      ensures Awaited(m, id, body)
    {
      if n.transaction != Some(id) {
        var q :| q in n.pending && q.id == id && q.body == body;
        assert q in m.pending;
      }
    }
  }

  lemma {:induction false} DeliverAnswered(n: Net)
    requires Routed(n) && Possible(n, Deliver)
    ensures AnsweredOk(Next(n, Deliver))
  {
    hide FirstPending;
    hide DistinctIds;
    hide DistinctReplies;
    hide Ids;
    var m := Next(n, Deliver);
    var p := n.inbox[0];
    var i := FirstPending(n.pending, p.id);
    if m.pending != n.pending {
      assert p in n.inbox;
      AwaitedIn(n, p.id, p.body);
      var q := n.pending[i];
      assert q in n.pending;
      WaitingOut(n.pending, i);
      assert m.answered == n.answered + [(q.body, q.original)];
      assert forall a | a in m.answered :: a in n.answered || a == (q.body, q.original);
    }
  }

  lemma {:induction false} AnsweredSame(n: Net, m: Net)
    requires AnsweredOk(n) && m.answered == n.answered && m.asked == n.asked && m.pending == n.pending
    ensures AnsweredOk(m)
  {
  }

  lemma {:induction false} EventKeeps(n: Net, e: Event)
    requires Routed(n) && Possible(n, e)
    ensures Routed(Next(n, e))
  {
    hide InboxOk;
    hide AnsweredOk;
    match e {
      case Ask(original, id) =>
        AskPending(n, original, id);
        AskInbox(n, original, id);
        AskAnswered(n, original, id);
      case Notify(p) =>
        NotifyInbox(n, p);
        AnsweredSame(n, Next(n, e));
      case Answer(id) =>
        AnswerInbox(n, id);
        AnsweredSame(n, Next(n, e));
      case Deliver =>
        DeliverPending(n);
        DeliverInbox(n);
        DeliverAnswered(n);
      case Begin(id) =>
        BeginInbox(n, id);
        AnsweredSame(n, Next(n, e));
      case End =>
        EndInbox(n);
        AnsweredSame(n, Next(n, e));
    }
  }

  // ----- Main results -----

  ghost function Run(es: seq<Event>): Option<Net>
    decreases |es|
  {
    if es == [] then Some(Net([], [], map[], None, [], []))
    else match Run(es[..|es| - 1])
      case None => None
      case Some(n) => if Possible(n, es[|es| - 1]) then Some(Next(n, es[|es| - 1])) else None
  }

  ghost predicate Reachable(n: Net) {
    exists es :: Run(es) == Some(n)
  }

  lemma {:induction false} NothingRouted()
    ensures Routed(Net([], [], map[], None, [], []))
  {
  }

  lemma {:induction false} RunRouted(es: seq<Event>)
    requires Run(es).Some?
    ensures Routed(Run(es).value)
    decreases |es|
  {
    hide Routed;
    hide Possible;
    if es == [] {
      NothingRouted();
    } else {
      RunRouted(es[..|es| - 1]);
      EventKeeps(Run(es[..|es| - 1]).value, es[|es| - 1]);
    }
  }

  lemma {:induction false} ReachableRouted(n: Net)
    requires Reachable(n)
    ensures Routed(n)
  {
    hide Routed;
    var es :| Run(es) == Some(n);
    RunRouted(es);
  }

  /**
    The commands waiting at any time have different numbers, and the proxy's own
    command yet another: so all commands the app has to answer can be told apart.
   */
  lemma {:induction false} NumbersDistinct(n: Net)
    requires Reachable(n)
    ensures forall i, j | 0 <= i < j < |n.pending| :: n.pending[i].id != n.pending[j].id
    ensures n.transaction.Some? ==> n.transaction.value !in Ids(n.pending)
    ensures forall id | id in n.owed :: n.transaction == Some(id) || id in Ids(n.pending)
  {
    ReachableRouted(n);
    assert forall p | p in n.pending :: p.id in Ids(n.pending);
  }

  /** The debugger never sees two answers to a command, nor an answer under an ID that is not the command's. */
  lemma {:induction false} AnsweredOnce(n: Net)
    requires Reachable(n)
    ensures forall i | 0 <= i < |n.answered| :: 0 < n.answered[i].0 <= |n.asked| && n.answered[i].1 == n.asked[n.answered[i].0 - 1]
    ensures forall i, j | 0 <= i < j < |n.answered| :: n.answered[i].0 != n.answered[j].0
  {
    ReachableRouted(n);
    assert forall i | 0 <= i < |n.answered| :: n.answered[i] in n.answered;
  }

  /** No reply that the proxy reads between its own commands is spurious: it goes to the debugger as the answer to what it answers. */
  lemma {:induction false} ReplyRouted(n: Net)
    requires Reachable(n) && Possible(n, Deliver) && n.inbox[0].isReply
    ensures var p := n.inbox[0];
            && 0 < p.body <= |n.asked|
            && Next(n, Deliver).answered == n.answered + [(p.body, n.asked[p.body - 1])]
  {
    hide Reachable;
    hide FirstPending;
    hide DistinctIds;
    hide DistinctReplies;
    hide AnsweredOk;
    ReachableRouted(n);
    var p := n.inbox[0];
    assert p in n.inbox;
    AwaitedIn(n, p.id, p.body);
    assert n.pending[FirstPending(n.pending, p.id)] in n.pending;
  }

  /** The proxy's own command is answered by the app's answer to it, whatever else arrives meanwhile. */
  lemma {:induction false} OwnAnswered(n: Net)
    requires Reachable(n) && Possible(n, End)
    ensures n.inbox[FirstAnswer(n.inbox, n.transaction.value)].body == OWN
  {
    ReachableRouted(n);
    var p := n.inbox[FirstAnswer(n.inbox, n.transaction.value)];
    assert p in n.inbox;
    AwaitedIn(n, p.id, p.body);
  }
}
