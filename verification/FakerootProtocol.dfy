/** The fakeroot protocol between clients and daemon, over two System V message queues.

    A client that wants an answer takes the semaphore, sends its request, and receives from the
    reply queue until the buffer carries its process id and serial number. A client may be killed at
    any step; the kernel then gives back the semaphore for it, but what it sent stays queued.
    Process ids are never used again, but exec starts the serial numbers of a process afresh. Signals may interrupt
    msgrcv on either side: the daemon then handles the message it had last once more, and a client looks at its buffer,
    in which its own request still is if no reply has come. */
module FakerootProtocol {
  import opened FakeStats

  /** Where an answer came from: the reply to message `of`, or no reply at all. */
  datatype Origin = Replied(of: nat) | Unanswered

  /** `mine` is the place of the client's question among all messages, and `stale` whether an earlier message with its
      tag was still under way; no step reads them. `own`: the buffer still holds the question. */
  datatype ClientPc =
    | Idle
    | Wanting(ask: FakeStat)
    | Holding(ask: FakeStat)
    | Waiting(ask: FakeStat, own: bool, mine: nat, stale: bool)
    | Answered(ask: FakeStat, answer: FakeStat, mine: nat, stale: bool, origin: Origin)

  datatype Client = Client(serial: nat, pc: ClientPc)

  datatype Semaphore = Up | HeldBy(pid: nat)

  /** What is in the daemon's message buffer from the message it handled last. */
  datatype Buffer = Nothing | Left(m: Msg)

  datatype Daemon = Receiving(left: Buffer) | Processing(m: Msg)

  /** A reply, and which message it answers. */
  datatype Reply = Reply(m: Msg, of: nat)

  /** A pair of process id and serial number. */
  datatype Tag = Tag(pid: nat, serial: nat)

  /** `used` are the process ids so far. The rest is history: `sent` are all messages to the daemon as it takes them, of
      which it has handled that many; `again` are the messages answered again after an interruption. */
  datatype State = State(
    clients: map<nat, Client>, semaphore: Semaphore, requests: seq<Msg>, replies: seq<Reply>,
    daemon: Daemon, db: Db, used: set<nat>, sent: seq<Msg>, handled: nat, again: multiset<nat>)

  datatype Step =
    | Start(pid: nat, serial: nat)
    | Exec(pid: nat)
    | Begin(pid: nat, ask: FakeStat)
    | SendOnly(pid: nat, m: Msg)
    | Acquire(pid: nat)
    | Send(pid: nat)
    | Receive(pid: nat)
    | Interrupt(pid: nat)
    | Release(pid: nat)
    | Kill(pid: nat)
    | DaemonReceive
    | DaemonProcess
    | DaemonInterrupt

  const INITIAL: State := State(map[], Up, [], [], Receiving(Nothing), map[], {}, [], 0, multiset{})

  function TagOf(m: Msg): Tag {
    Tag(m.pid, m.serial)
  }

  /** A message as get_msg takes it: the System V daemon serves one host only. */
  function Taken(m: Msg): Msg {
    m.(remote := 0)
  }

  function Question(pid: nat, serial: nat, ask: FakeStat): Msg {
    Msg(Stat, pid, serial, ask, 0)
  }

  predicate Enabled(s: State, step: Step) {
    match step
    case Start(pid, _) => pid !in s.used
    case Exec(pid) => pid in s.clients && s.clients[pid].pc.Idle?
    case Begin(pid, _) => pid in s.clients && s.clients[pid].pc.Idle?
    case SendOnly(pid, m) => pid in s.clients && s.clients[pid].pc.Idle? && !m.id.Stat?
    case Acquire(pid) => pid in s.clients && s.clients[pid].pc.Wanting? && s.semaphore.Up?
    case Send(pid) => pid in s.clients && s.clients[pid].pc.Holding?
    case Receive(pid) => pid in s.clients && s.clients[pid].pc.Waiting? && s.replies != []
    case Interrupt(pid) => pid in s.clients && s.clients[pid].pc.Waiting?
    case Release(pid) => pid in s.clients && s.clients[pid].pc.Answered?
    case Kill(pid) => pid in s.clients
    case DaemonReceive => s.daemon.Receiving? && s.requests != []
    case DaemonProcess => s.daemon.Processing?
    case DaemonInterrupt => s.daemon.Receiving? && s.daemon.left.Left? && s.handled > 0
  }

  function At(s: State, pid: nat, pc: ClientPc): map<nat, Client>
    requires pid in s.clients
  {
    s.clients[pid := s.clients[pid].(pc := pc)]
  }

  /** SEM_UNDO: the semaphore of a process that is gone is up again. */
  function Undone(s: Semaphore, pid: nat): Semaphore {
    if s == HeldBy(pid) then Up else s
  }

  /** Message j was sent and its request or a reply to it is still under way. */
  predicate UnderWay(s: State, j: nat) {
    j < |s.sent| && (s.handled <= j || exists i :: 0 <= i < |s.replies| && s.replies[i].of == j)
  }

  predicate Carries(m: Msg, t: Tag) {
    m.id.Stat? && TagOf(m) == t
  }

  /** A question with this tag that comes before message `mine` is still under way. */
  predicate Leftover(s: State, t: Tag, mine: nat) {
    exists j :: 0 <= j < mine && j < |s.sent| && Carries(s.sent[j], t) && UnderWay(s, j)
  }

  /** The clients when message `of`, with tag t, is answered again: one that waits under that tag may be misled. */
  function Marked(s: State, t: Tag, of: nat): map<nat, Client> {
    if t.pid !in s.clients || s.clients[t.pid].serial != t.serial then s.clients
    else if !s.clients[t.pid].pc.Waiting? || s.clients[t.pid].pc.mine <= of then s.clients
    else
      var pc := s.clients[t.pid].pc;
      At(s, t.pid, Waiting(pc.ask, pc.own, pc.mine, true))
  }

  function Apply(s: State, step: Step): State
    requires Enabled(s, step)
  {
    match step
    case Start(pid, serial) => s.(clients := s.clients[pid := Client(serial, Idle)], used := s.used + {pid})
    case Exec(pid) => s.(clients := s.clients[pid := Client(0, Idle)])
    case Begin(pid, ask) => s.(clients := s.clients[pid := Client(s.clients[pid].serial + 1, Wanting(ask))])
    case SendOnly(pid, m) => s.(requests := s.requests + [m], sent := s.sent + [Taken(m)])
    case Acquire(pid) => s.(clients := At(s, pid, Holding(s.clients[pid].pc.ask)), semaphore := HeldBy(pid))
    case Send(pid) =>
      var c := s.clients[pid];
      var m := Question(pid, c.serial, c.pc.ask);
      s.(clients := At(s, pid, Waiting(c.pc.ask, true, |s.sent|, Leftover(s, TagOf(m), |s.sent|))),
         requests := s.requests + [m], sent := s.sent + [m])
    case Receive(pid) =>
      var c, r := s.clients[pid], s.replies[0];
      s.(replies := s.replies[1..],
         clients := At(s, pid,
                       if r.m.serial != c.serial || r.m.pid != pid then Waiting(c.pc.ask, false, c.pc.mine, c.pc.stale)
                       else Answered(c.pc.ask, r.m.st, c.pc.mine, c.pc.stale, Replied(r.of))))
    case Interrupt(pid) =>
      var pc := s.clients[pid].pc;
      if pc.own then s.(clients := At(s, pid, Answered(pc.ask, pc.ask, pc.mine, pc.stale, Unanswered))) else s
    case Release(pid) => s.(clients := At(s, pid, Idle), semaphore := Up)
    case Kill(pid) => s.(clients := s.clients - {pid}, semaphore := Undone(s.semaphore, pid))
    case DaemonReceive => s.(requests := s.requests[1..], daemon := Processing(s.requests[0]))
    case DaemonProcess =>
      var m := Taken(s.daemon.m);
      var left := LeftIn(s.db, m, false);
      s.(db := After(s.db, m), daemon := Receiving(Left(left)), handled := s.handled + 1,
         replies := if m.id.Stat? then s.replies + [Reply(left, s.handled)] else s.replies)
    case DaemonInterrupt =>
      var m := s.daemon.left.m;
      var left := LeftIn(s.db, m, false);
      var t := s.(db := After(s.db, m), daemon := Receiving(Left(left)));
      if !m.id.Stat? then t else
        t.(replies := s.replies + [Reply(left, s.handled - 1)], again := s.again + multiset{s.handled - 1},
           clients := Marked(s, TagOf(m), s.handled - 1))
  }

  // ----- Who holds the semaphore

  predicate Inside(pc: ClientPc) {
    pc.Holding? || pc.Waiting? || pc.Answered?
  }

  ghost predicate SemaphoreOk(s: State) {
    && (forall p :: p in s.clients ==> (Inside(s.clients[p].pc) <==> s.semaphore == HeldBy(p)))
    && (s.semaphore.HeldBy? ==> s.semaphore.pid in s.clients)
    && (forall p :: p in s.clients ==> p in s.used)
  }

  lemma SemaphoreKept(s: State, step: Step)
    requires Enabled(s, step) && SemaphoreOk(s)
    ensures SemaphoreOk(Apply(s, step))
  {
    hide After, LeftIn, Leftover;
  }

  // ----- In what order the daemon answers

  function Busy(d: Daemon): nat {
    if d.Processing? then 1 else 0
  }

  /** Message i as handling it leaves it: for a question, the answer from all that was sent before it. */
  function LeftAt(sent: seq<Msg>, i: nat): Msg
    requires i < |sent|
  {
    LeftIn(AfterAll(sent[..i]), sent[i], false)
  }

  /** The daemon takes messages in the order sent, knows what those handled so far have told it, and has the last of
      them in its buffer. */
  ghost predicate OrderOk(s: State) {
    && s.handled + Busy(s.daemon) + |s.requests| == |s.sent|
    && (forall i :: 0 <= i < |s.requests| ==> Taken(s.requests[i]) == s.sent[s.handled + Busy(s.daemon) + i])
    && (s.daemon.Processing? ==> Taken(s.daemon.m) == s.sent[s.handled])
    && (s.daemon.Receiving? ==>
          s.daemon.left == if s.handled == 0 then Nothing else Left(LeftAt(s.sent, s.handled - 1)))
    && s.db == AfterAll(s.sent[..s.handled])
  }

  lemma LeftAtKept(s: seq<Msg>, t: seq<Msg>, i: nat)
    requires s <= t && i < |s|
    ensures LeftAt(t, i) == LeftAt(s, i)
  {
    hide AfterAll, LeftIn;
    assert t[..i] == s[..i];
  }

  lemma ProcessKeepsOrder(s: State)
    requires s.daemon.Processing? && OrderOk(s)
    ensures OrderOk(Apply(s, DaemonProcess))
  {
    hide After, LeftIn;
    assert s.sent[..s.handled + 1][..s.handled] == s.sent[..s.handled];
  }

  /** Handled again, the last message changes nothing. */
  lemma AgainSame(s: State)
    requires Enabled(s, DaemonInterrupt) && OrderOk(s)
    ensures After(s.db, s.daemon.left.m) == s.db && LeftIn(s.db, s.daemon.left.m, false) == s.daemon.left.m
    ensures s.daemon.left.m == LeftAt(s.sent, s.handled - 1)
  {
    hide After, LeftIn, Keyed;
    var n := s.handled - 1;
    assert s.sent[..s.handled][..n] == s.sent[..n];
    KeyedAfterAll(s.sent[..n]);
    HandledAgain(AfterAll(s.sent[..n]), s.sent[n], false);
  }

  lemma InterruptKeepsOrder(s: State)
    requires Enabled(s, DaemonInterrupt) && OrderOk(s)
    ensures OrderOk(Apply(s, DaemonInterrupt))
  {
    hide After, LeftIn, Marked;
    AgainSame(s);
  }

  lemma OtherKeepsOrder(s: State, step: Step)
    requires Enabled(s, step) && OrderOk(s) && !step.DaemonInterrupt? && !step.DaemonProcess?
    ensures OrderOk(Apply(s, step))
  {
    hide After, LeftIn, AfterAll, LeftAt, Leftover, Marked;
    var u := Apply(s, step);
    assert u.sent[..s.handled] == s.sent[..s.handled];
    if s.handled > 0 { LeftAtKept(s.sent, u.sent, s.handled - 1); }
  }

  lemma OrderKept(s: State, step: Step)
    requires Enabled(s, step) && OrderOk(s)
    ensures OrderOk(Apply(s, step))
  {
    hide Apply, OrderOk;
    match step
    case DaemonProcess => ProcessKeepsOrder(s);
    case DaemonInterrupt => InterruptKeepsOrder(s);
    case _ => OtherKeepsOrder(s, step);
  }

  // ----- What the replies say

  /** A reply is what handling its message left the first time. */
  ghost predicate ReplyOk(r: Reply, s: State) {
    r.of < s.handled <= |s.sent| && s.sent[r.of].id.Stat? && r.m == LeftAt(s.sent, r.of)
  }

  /** Replies are in the order of their messages. */
  ghost predicate RepliesOk(s: State) {
    && (forall i :: 0 <= i < |s.replies| ==> ReplyOk(s.replies[i], s))
    && (forall i, j :: 0 <= i < j < |s.replies| ==> s.replies[i].of <= s.replies[j].of)
  }

  lemma LeftAtTag(sent: seq<Msg>, i: nat)
    requires i < |sent|
    ensures TagOf(LeftAt(sent, i)) == TagOf(sent[i]) && LeftAt(sent, i).id == sent[i].id
  {
    hide AfterAll, Answer;
  }

  lemma OldRepliesOk(s: State, u: State)
    requires RepliesOk(s) && s.sent <= u.sent && s.handled <= u.handled <= |u.sent|
    ensures forall i :: 0 <= i < |s.replies| ==> ReplyOk(s.replies[i], u) && s.replies[i].of < s.handled
  {
    hide LeftAt;
    forall i | 0 <= i < |s.replies| ensures ReplyOk(s.replies[i], u) && s.replies[i].of < s.handled {
      assert ReplyOk(s.replies[i], s);
      LeftAtKept(s.sent, u.sent, s.replies[i].of);
    }
  }

  lemma RepliesKept(s: State, step: Step)
    requires Enabled(s, step) && OrderOk(s) && RepliesOk(s)
    ensures RepliesOk(Apply(s, step))
  {
    hide After, AfterAll, LeftIn, Leftover, Marked, ReplyOk;
    var u := Apply(s, step);
    OldRepliesOk(s, u);
    match step
    case DaemonProcess =>
      if s.daemon.m.id.Stat? {
        assert ReplyOk(u.replies[|s.replies|], u) by { NewReplyOk(s); }
      }
    case DaemonInterrupt =>
      if s.daemon.left.m.id.Stat? {
        assert ReplyOk(u.replies[|s.replies|], u) by { ReplyAgainOk(s); }
      }
    case _ =>
  }

  lemma NewReplyOk(s: State)
    requires s.daemon.Processing? && s.daemon.m.id.Stat? && OrderOk(s)
    ensures ReplyOk(Apply(s, DaemonProcess).replies[|s.replies|], Apply(s, DaemonProcess))
  {
    hide After, AfterAll, LeftIn;
  }

  lemma ReplyAgainOk(s: State)
    requires Enabled(s, DaemonInterrupt) && s.daemon.left.m.id.Stat? && OrderOk(s)
    ensures ReplyOk(Apply(s, DaemonInterrupt).replies[|s.replies|], Apply(s, DaemonInterrupt))
  {
    hide After, AfterAll, LeftIn, Marked;
    AgainSame(s);
    LeftAtTag(s.sent, s.handled - 1);
  }

  // ----- What clients get

  /** A client waits for, or has, an answer to its question, after which it has asked nothing. */
  ghost predicate AskedOk(p: nat, c: Client, s: State)
    requires c.pc.Waiting? || c.pc.Answered?
  {
    && c.pc.mine < |s.sent| && s.sent[c.pc.mine] == Question(p, c.serial, c.pc.ask)
    && (forall j :: c.pc.mine < j < |s.sent| && s.sent[j].id.Stat? ==> s.sent[j].pid != p)
  }

  /** An accepted reply answers a question with the client's tag, its own if and only if no earlier one was under
      way. */
  ghost predicate AcceptedOk(p: nat, c: Client, s: State)
    requires c.pc.Answered?
  {
    match c.pc.origin
    case Replied(of) =>
      && of <= c.pc.mine < |s.sent| && Carries(s.sent[of], Tag(p, c.serial)) && c.pc.answer == LeftAt(s.sent, of).st
      && (of == c.pc.mine <==> !c.pc.stale)
    case Unanswered => c.pc.answer == c.pc.ask
  }

  ghost predicate ClientOk(p: nat, c: Client, s: State) {
    && (c.pc.Waiting? || c.pc.Answered? ==> AskedOk(p, c, s))
    && (c.pc.Waiting? ==> (c.pc.stale <==> Leftover(s, Tag(p, c.serial), c.pc.mine)))
    && (c.pc.Answered? ==> AcceptedOk(p, c, s))
  }

  ghost predicate ClientsOk(s: State) {
    forall p :: p in s.clients ==> ClientOk(p, s.clients[p], s)
  }

  lemma AskedKept(p: nat, c: Client, s: State, u: State)
    requires (c.pc.Waiting? || c.pc.Answered?) && AskedOk(p, c, s) && s.sent <= u.sent
    requires forall j :: |s.sent| <= j < |u.sent| && u.sent[j].id.Stat? ==> u.sent[j].pid != p
    ensures AskedOk(p, c, u)
  {
  }

  lemma AcceptedKept(p: nat, c: Client, s: State, u: State)
    requires c.pc.Answered? && AcceptedOk(p, c, s) && s.sent <= u.sent
    ensures AcceptedOk(p, c, u)
  {
    hide LeftAt;
    if c.pc.origin.Replied? { LeftAtKept(s.sent, u.sent, c.pc.origin.of); }
  }

  /** What is under way, and has come to an end, in one step. */
  ghost predicate SameWay(s: State, u: State, t: Tag, mine: nat) {
    forall j :: 0 <= j < mine && j < |s.sent| && Carries(s.sent[j], t) ==> (UnderWay(s, j) <==> UnderWay(u, j))
  }

  lemma LeftoverKept(s: State, u: State, t: Tag, mine: nat)
    requires s.sent <= u.sent && mine <= |s.sent| && SameWay(s, u, t, mine)
    ensures Leftover(u, t, mine) <==> Leftover(s, t, mine)
  {
    hide UnderWay;
  }

  lemma WayAfter(s: State, step: Step, t: Tag, mine: nat)
    requires Enabled(s, step) && OrderOk(s) && !step.Receive? && !step.DaemonInterrupt? && mine <= |s.sent|
    ensures SameWay(s, Apply(s, step), t, mine)
  {
    hide After, AfterAll, LeftIn, Leftover, LeftAt;
    var u := Apply(s, step);
    if step.DaemonProcess? {
      forall j | 0 <= j < mine && Carries(s.sent[j], t) ensures UnderWay(s, j) <==> UnderWay(u, j) {
        ProcessedWay(s, j);
      }
    }
  }

  lemma ProcessedWay(s: State, j: nat)
    requires s.daemon.Processing? && OrderOk(s) && j < |s.sent| && s.sent[j].id.Stat?
    ensures UnderWay(s, j) <==> UnderWay(Apply(s, DaemonProcess), j)
  {
    hide After, AfterAll, LeftIn, LeftAt;
    var u := Apply(s, DaemonProcess);
    if j == s.handled { assert u.replies[|s.replies|].of == j; }
    if s.handled > j && UnderWay(s, j) {
      var i :| 0 <= i < |s.replies| && s.replies[i].of == j;
      assert u.replies[i].of == j;
    }
  }

  /** A client that a step does not touch. */
  lemma UntouchedClient(s: State, step: Step, p: nat)
    requires Enabled(s, step) && OrderOk(s) && !step.Receive? && !step.DaemonInterrupt?
    requires p in s.clients && p in Apply(s, step).clients && Apply(s, step).clients[p] == s.clients[p]
    requires ClientOk(p, s.clients[p], s)
    requires s.clients[p].pc.Waiting? || s.clients[p].pc.Answered?
    ensures ClientOk(p, s.clients[p], Apply(s, step))
  {
    hide After, AfterAll, LeftIn, Leftover, LeftAt, UnderWay, AcceptedOk, AskedOk, SameWay;
    var u, c := Apply(s, step), s.clients[p];
    AskedKept(p, c, s, u);
    if c.pc.Answered? {
      AcceptedKept(p, c, s, u);
    } else {
      assert c.pc.mine < |s.sent| by { Asked(p, c, s); }
      WayAfter(s, step, Tag(p, c.serial), c.pc.mine);
      LeftoverKept(s, u, Tag(p, c.serial), c.pc.mine);
    }
  }

  lemma Asked(p: nat, c: Client, s: State)
    requires (c.pc.Waiting? || c.pc.Answered?) && AskedOk(p, c, s)
    ensures c.pc.mine < |s.sent|
  {
  }

  lemma SendKeepsClient(s: State, pid: nat)
    requires Enabled(s, Send(pid)) && OrderOk(s)
    ensures ClientOk(pid, Apply(s, Send(pid)).clients[pid], Apply(s, Send(pid)))
  {
    hide After, AfterAll, LeftIn, Leftover, LeftAt, UnderWay, SameWay;
    var u, t := Apply(s, Send(pid)), Tag(pid, s.clients[pid].serial);
    WayAfter(s, Send(pid), t, |s.sent|);
    LeftoverKept(s, u, t, |s.sent|);
  }

  lemma InterruptKeepsClient(s: State, pid: nat)
    requires Enabled(s, Interrupt(pid)) && OrderOk(s) && ClientOk(pid, s.clients[pid], s)
    ensures ClientOk(pid, Apply(s, Interrupt(pid)).clients[pid], Apply(s, Interrupt(pid)))
  {
    hide After, AfterAll, LeftIn, Leftover, LeftAt, UnderWay;
    var c := s.clients[pid];
    if !c.pc.own { UntouchedClient(s, Interrupt(pid), pid); }
  }

  lemma OtherKeepsClients(s: State, step: Step)
    requires Enabled(s, step) && OrderOk(s) && ClientsOk(s) && !step.Receive? && !step.DaemonInterrupt?
    ensures ClientsOk(Apply(s, step))
  {
    var u := Apply(s, step);
    forall p | p in u.clients ensures ClientOk(p, u.clients[p], u) {
      if step == Send(p) {
        SendKeepsClient(s, p);
      } else if step == Interrupt(p) {
        InterruptKeepsClient(s, p);
      } else {
        OtherKeepsClient(s, step, p);
      }
    }
  }

  lemma OtherKeepsClient(s: State, step: Step, p: nat)
    requires Enabled(s, step) && OrderOk(s) && ClientsOk(s) && !step.Receive? && !step.DaemonInterrupt?
    requires step != Send(p) && step != Interrupt(p) && p in Apply(s, step).clients
    ensures ClientOk(p, Apply(s, step).clients[p], Apply(s, step))
  {
    hide After, AfterAll, LeftIn, Leftover, LeftAt, UnderWay, AcceptedOk, AskedOk, OrderOk;
    var c := Apply(s, step).clients[p];
    if c.pc.Waiting? || c.pc.Answered? { UntouchedClient(s, step, p); }
  }

  // ----- Receiving

  /** A reply with another tag is thrown away, and nothing under way for this client with it. */
  lemma DroppedWay(s: State, u: State, t: Tag, mine: nat)
    requires s.replies != [] && RepliesOk(s) && TagOf(s.replies[0].m) != t
    requires u.sent == s.sent && u.handled == s.handled && u.replies == s.replies[1..]
    ensures SameWay(s, u, t, mine)
  {
    hide LeftAt;
    assert ReplyOk(s.replies[0], s);
    LeftAtTag(s.sent, s.replies[0].of);
    forall j | 0 <= j < mine && j < |s.sent| && Carries(s.sent[j], t) ensures UnderWay(s, j) <==> UnderWay(u, j) {
      if j < s.handled && UnderWay(s, j) {
        var i :| 0 <= i < |s.replies| && s.replies[i].of == j;
        assert u.replies[i - 1].of == j;
      }
      if j < s.handled && UnderWay(u, j) {
        var i :| 0 <= i < |u.replies| && u.replies[i].of == j;
        assert s.replies[i + 1].of == j;
      }
    }
  }

  /** The first reply with a client's tag is to the earliest question with that tag under way. */
  lemma FirstIsEarliest(s: State, t: Tag, mine: nat)
    requires s.replies != [] && RepliesOk(s) && TagOf(s.replies[0].m) == t && s.replies[0].of <= mine <= |s.sent|
    ensures s.replies[0].of == mine <==> !Leftover(s, t, mine)
  {
    hide LeftAt;
    var of := s.replies[0].of;
    assert ReplyOk(s.replies[0], s);
    LeftAtTag(s.sent, of);
    assert UnderWay(s, of) && Carries(s.sent[of], t);
    if Leftover(s, t, mine) {
      var j :| 0 <= j < mine && j < |s.sent| && Carries(s.sent[j], t) && UnderWay(s, j);
      if j < s.handled {
        var i :| 0 <= i < |s.replies| && s.replies[i].of == j;
        assert of <= s.replies[i].of;
      }
    }
  }

  lemma ReceiveKeepsClient(s: State, pid: nat)
    requires Enabled(s, Receive(pid)) && RepliesOk(s) && ClientOk(pid, s.clients[pid], s)
    ensures ClientOk(pid, Apply(s, Receive(pid)).clients[pid], Apply(s, Receive(pid)))
  {
    hide Leftover, LeftAt, UnderWay;
    var u, c, t := Apply(s, Receive(pid)), s.clients[pid], Tag(pid, s.clients[pid].serial);
    var r := s.replies[0];
    assert ReplyOk(r, s);
    LeftAtTag(s.sent, r.of);
    if TagOf(r.m) != t {
      DroppedWay(s, u, t, c.pc.mine);
      hide SameWay;
      LeftoverKept(s, u, t, c.pc.mine);
    } else {
      FirstIsEarliest(s, t, c.pc.mine);
    }
  }

  lemma ReceiveKeepsClients(s: State, pid: nat)
    requires Enabled(s, Receive(pid)) && SemaphoreOk(s) && RepliesOk(s) && ClientsOk(s)
    ensures ClientsOk(Apply(s, Receive(pid)))
  {
    hide Leftover, LeftAt, UnderWay, AcceptedOk, AskedOk, RepliesOk;
    var u := Apply(s, Receive(pid));
    forall p | p in u.clients ensures ClientOk(p, u.clients[p], u) {
      if p == pid { ReceiveKeepsClient(s, p); } else { assert !Inside(s.clients[p].pc); }
    }
  }

  // ----- Answered again

  lemma AgainWay(s: State, t: Tag, mine: nat)
    requires Enabled(s, DaemonInterrupt) && OrderOk(s) && mine <= |s.sent|
    ensures
      var u, last := Apply(s, DaemonInterrupt), s.handled - 1;
      Leftover(u, t, mine) <==> Leftover(s, t, mine) || (last < mine && Carries(s.sent[last], t))
  {
    hide After, AfterAll, LeftIn, LeftAt, Marked;
    var u, last := Apply(s, DaemonInterrupt), s.handled - 1;
    AgainSame(s);
    LeftAtTag(s.sent, last);
    if Leftover(s, t, mine) {
      var j :| 0 <= j < mine && j < |s.sent| && Carries(s.sent[j], t) && UnderWay(s, j);
      assert UnderWay(u, j) by { MoreReplies(s, u, j); }
    }
    if last < mine && Carries(s.sent[last], t) {
      assert u.replies[|s.replies|].of == last;
      assert UnderWay(u, last);
    }
    if Leftover(u, t, mine) {
      var j :| 0 <= j < mine && j < |u.sent| && Carries(u.sent[j], t) && UnderWay(u, j);
      if j < s.handled && j != last {
        var i :| 0 <= i < |u.replies| && u.replies[i].of == j;
        assert s.replies[i].of == j;
      }
      assert j == last || UnderWay(s, j);
    }
  }

  lemma MoreReplies(s: State, u: State, j: nat)
    requires UnderWay(s, j) && u.sent == s.sent && u.handled == s.handled && s.replies <= u.replies
    ensures UnderWay(u, j)
  {
    if j < s.handled {
      var i :| 0 <= i < |s.replies| && s.replies[i].of == j;
      assert u.replies[i].of == j;
    }
  }

  lemma AgainKeepsClients(s: State)
    requires Enabled(s, DaemonInterrupt) && OrderOk(s) && ClientsOk(s)
    ensures ClientsOk(Apply(s, DaemonInterrupt))
  {
    hide After, AfterAll, LeftIn, LeftAt, Leftover, UnderWay;
    var u := Apply(s, DaemonInterrupt);
    AgainSame(s);
    LeftAtTag(s.sent, s.handled - 1);
    forall p | p in u.clients ensures ClientOk(p, u.clients[p], u) {
      var c := s.clients[p];
      assert ClientOk(p, c, s);
      if c.pc.Waiting? { AgainWay(s, Tag(p, c.serial), c.pc.mine); }
    }
  }

  lemma ClientsKept(s: State, step: Step)
    requires Enabled(s, step) && SemaphoreOk(s) && OrderOk(s) && RepliesOk(s) && ClientsOk(s)
    ensures ClientsOk(Apply(s, step))
  {
    hide Apply, SemaphoreOk, OrderOk, RepliesOk, ClientsOk;
    match step
    case Receive(pid) => ReceiveKeepsClients(s, pid);
    case DaemonInterrupt => AgainKeepsClients(s);
    case _ => OtherKeepsClients(s, step);
  }

  // ----- How many copies there are

  function One(m: Msg, t: Tag): nat {
    if Carries(m, t) then 1 else 0
  }

  /** How many questions carry this tag. */
  function Count(ms: seq<Msg>, t: Tag): nat {
    if ms == [] then 0 else Count(ms[..|ms| - 1], t) + One(ms[|ms| - 1], t)
  }

  function Letters(rs: seq<Reply>): seq<Msg> {
    seq(|rs|, i requires 0 <= i < |rs| => rs[i].m)
  }

  /** How many requests and replies there are with this tag. */
  function Copies(s: State, t: Tag): nat {
    Count(s.requests, t) + Count(Letters(s.replies), t) + if s.daemon.Processing? then One(s.daemon.m, t) else 0
  }

  lemma CountSnoc(ms: seq<Msg>, m: Msg, t: Tag)
    ensures Count(ms + [m], t) == Count(ms, t) + One(m, t)
  {
    assert (ms + [m])[..|ms|] == ms;
  }

  lemma {:induction false} CountHead(ms: seq<Msg>, t: Tag)
    requires ms != []
    ensures Count(ms, t) == One(ms[0], t) + Count(ms[1..], t)
  {
    var n := |ms| - 1;
    if n > 0 {
      CountHead(ms[..n], t);
      assert ms[..n][1..] == ms[1..][..n - 1];
    }
  }

  lemma {:induction false} CountSome(ms: seq<Msg>, t: Tag, i: nat)
    requires i < |ms| && Carries(ms[i], t)
    ensures Count(ms, t) >= 1
  {
    if i < |ms| - 1 { CountSome(ms[..|ms| - 1], t, i); }
  }

  lemma {:induction false} CountNone(ms: seq<Msg>, t: Tag)
    requires forall i :: 0 <= i < |ms| ==> !Carries(ms[i], t)
    ensures Count(ms, t) == 0
  {
    if ms != [] { CountNone(ms[..|ms| - 1], t); }
  }

  /** What a step does to the number of copies. */
  lemma CopiesAfter(s: State, step: Step, t: Tag)
    requires Enabled(s, step)
    ensures
      var c := Copies(Apply(s, step), t);
      match step
      case Send(pid) => c == Copies(s, t) + if t == Tag(pid, s.clients[pid].serial) then 1 else 0
      case Receive(pid) => c == Copies(s, t) - One(s.replies[0].m, t)
      case DaemonInterrupt => c == Copies(s, t) + One(s.daemon.left.m, t)
      case _ => c == Copies(s, t)
  {
    hide After, Count, Answer, Leftover, Marked;
    var u := Apply(s, step);
    match step
    case SendOnly(_, m) => CountSnoc(s.requests, m, t);
    case Send(pid) => CountSnoc(s.requests, u.requests[|s.requests|], t);
    case Receive(_) =>
      CountHead(Letters(s.replies), t);
      assert Letters(u.replies) == Letters(s.replies)[1..];
    case DaemonReceive => CountHead(s.requests, t);
    case DaemonProcess =>
      if s.daemon.m.id.Stat? { LettersSnoc(s.replies, u.replies[|s.replies|], t); }
    case DaemonInterrupt =>
      if s.daemon.left.m.id.Stat? { LettersSnoc(s.replies, u.replies[|s.replies|], t); }
    case _ =>
  }

  lemma LettersSnoc(rs: seq<Reply>, r: Reply, t: Tag)
    ensures Count(Letters(rs + [r]), t) == Count(Letters(rs), t) + One(r.m, t)
  {
    hide Count;
    assert Letters(rs + [r]) == Letters(rs) + [r.m];
    CountSnoc(Letters(rs), r.m, t);
  }

  /** There is a copy if and only if a question with that tag is under way. */
  lemma SomeCopy(s: State, t: Tag)
    requires OrderOk(s) && RepliesOk(s)
    ensures Copies(s, t) >= 1 <==> Leftover(s, t, |s.sent|)
  {
    hide LeftAt, AfterAll, Count;
    if Leftover(s, t, |s.sent|) {
      var j :| 0 <= j < |s.sent| && Carries(s.sent[j], t) && UnderWay(s, j);
      CopyOf(s, t, j);
    } else {
      NoRequest(s, t);
      NoReply(s, t);
    }
  }

  lemma CopyOf(s: State, t: Tag, j: nat)
    requires OrderOk(s) && RepliesOk(s) && j < |s.sent| && Carries(s.sent[j], t) && UnderWay(s, j)
    ensures Copies(s, t) >= 1
  {
    hide LeftAt, AfterAll, Count;
    if j >= s.handled + Busy(s.daemon) {
      var i := j - s.handled - Busy(s.daemon);
      assert Taken(s.requests[i]) == s.sent[j];
      CountSome(s.requests, t, i);
    } else if j < s.handled {
      var i :| 0 <= i < |s.replies| && s.replies[i].of == j;
      assert ReplyOk(s.replies[i], s);
      LeftAtTag(s.sent, j);
      CountSome(Letters(s.replies), t, i);
    }
  }

  lemma NoRequest(s: State, t: Tag)
    requires OrderOk(s) && !Leftover(s, t, |s.sent|)
    ensures Count(s.requests, t) == 0 && (s.daemon.Processing? ==> One(s.daemon.m, t) == 0)
  {
    hide LeftAt, AfterAll, Count;
    forall i | 0 <= i < |s.requests| ensures !Carries(s.requests[i], t) {
      var j := s.handled + Busy(s.daemon) + i;
      assert Taken(s.requests[i]) == s.sent[j];
      assert UnderWay(s, j);
    }
    CountNone(s.requests, t);
    if s.daemon.Processing? { assert UnderWay(s, s.handled); }
  }

  lemma NoReply(s: State, t: Tag)
    requires RepliesOk(s) && !Leftover(s, t, |s.sent|)
    ensures Count(Letters(s.replies), t) == 0
  {
    hide LeftAt, Count;
    forall i | 0 <= i < |s.replies| ensures !Carries(s.replies[i].m, t) {
      assert ReplyOk(s.replies[i], s);
      LeftAtTag(s.sent, s.replies[i].of);
      assert UnderWay(s, s.replies[i].of);
    }
    CountNone(Letters(s.replies), t);
  }

  /** Of what a client waits for there are as many copies as it was answered again, and one more; with an earlier
      question under the same tag there are at least two. */
  ghost predicate CopiesOk(p: nat, c: Client, s: State) {
    c.pc.Waiting? ==>
      var n := Copies(s, Tag(p, c.serial));
      if c.pc.stale then n >= 2 else n == 1 + s.again[c.pc.mine]
  }

  ghost predicate AllCopiesOk(s: State) {
    && (forall i :: i in s.again ==> i < s.handled)
    && (forall p :: p in s.clients ==> CopiesOk(p, s.clients[p], s))
  }

  lemma SendKeepsCopies(s: State, pid: nat)
    requires Enabled(s, Send(pid)) && OrderOk(s) && RepliesOk(s) && AllCopiesOk(s)
    ensures CopiesOk(pid, Apply(s, Send(pid)).clients[pid], Apply(s, Send(pid)))
  {
    hide LeftAt, AfterAll, Copies, Leftover, RepliesOk;
    CopiesAfter(s, Send(pid), Tag(pid, s.clients[pid].serial));
    SomeCopy(s, Tag(pid, s.clients[pid].serial));
  }

  lemma AgainKeepsCopies(s: State, p: nat)
    requires Enabled(s, DaemonInterrupt) && OrderOk(s) && p in s.clients && ClientOk(p, s.clients[p], s)
    requires CopiesOk(p, s.clients[p], s)
    ensures CopiesOk(p, Apply(s, DaemonInterrupt).clients[p], Apply(s, DaemonInterrupt))
  {
    hide LeftAt, AfterAll, After, LeftIn, Copies, Leftover;
    var c, last := s.clients[p], s.handled - 1;
    CopiesAfter(s, DaemonInterrupt, Tag(p, c.serial));
    AgainSame(s);
    LeftAtTag(s.sent, last);
  }

  lemma OtherKeepsCopies(s: State, step: Step, p: nat)
    requires Enabled(s, step) && SemaphoreOk(s) && AllCopiesOk(s) && p in Apply(s, step).clients && step != Send(p)
    requires !step.DaemonInterrupt?
    ensures CopiesOk(p, Apply(s, step).clients[p], Apply(s, step))
  {
    hide After, LeftIn, Copies, Leftover, Marked;
    CopiesAfter(s, step, Tag(p, Apply(s, step).clients[p].serial));
  }

  lemma CopiesKept(s: State, step: Step)
    requires Enabled(s, step) && SemaphoreOk(s) && OrderOk(s) && RepliesOk(s) && ClientsOk(s) && AllCopiesOk(s)
    ensures AllCopiesOk(Apply(s, step))
  {
    hide After, LeftIn, Copies, Leftover, CopiesOk, SemaphoreOk, OrderOk, RepliesOk, ClientOk;
    var u := Apply(s, step);
    forall p | p in u.clients ensures CopiesOk(p, u.clients[p], u) {
      if step == Send(p) {
        SendKeepsCopies(s, p);
      } else if step == DaemonInterrupt {
        AgainKeepsCopies(s, p);
      } else {
        OtherKeepsCopies(s, step, p);
      }
    }
  }

  // ----- Runs

  ghost predicate Ok(s: State) {
    SemaphoreOk(s) && OrderOk(s) && RepliesOk(s) && ClientsOk(s) && AllCopiesOk(s)
  }

  lemma StepOk(s: State, step: Step)
    requires Enabled(s, step) && Ok(s)
    ensures Ok(Apply(s, step))
  {
    hide Apply, SemaphoreOk, OrderOk, RepliesOk, ClientsOk, AllCopiesOk;
    SemaphoreKept(s, step);
    OrderKept(s, step);
    RepliesKept(s, step);
    ClientsKept(s, step);
    CopiesKept(s, step);
  }

  /** The states of a run: each comes from the one before by the step between them. */
  ghost predicate IsRun(states: seq<State>, steps: seq<Step>) {
    && |states| == |steps| + 1 && states[0] == INITIAL
    && forall i :: 0 <= i < |steps| ==> Enabled(states[i], steps[i]) && states[i + 1] == Apply(states[i], steps[i])
  }

  lemma {:induction false} RunOk(states: seq<State>, steps: seq<Step>, k: nat)
    requires IsRun(states, steps) && k < |states|
    ensures Ok(states[k])
  {
    hide Apply, SemaphoreOk, OrderOk, RepliesOk, ClientsOk, AllCopiesOk;
    if k == 0 {
      InitialOk();
    } else {
      RunOk(states, steps, k - 1);
      StepOk(states[k - 1], steps[k - 1]);
    }
  }

  lemma InitialOk()
    ensures Ok(INITIAL)
  {
  }
}
