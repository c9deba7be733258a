/** What every run of the fakeroot protocol guarantees its clients, and runs that show where the guarantees end. */
module FakerootRuns {
  import opened FakeStats
  import opened FakerootProtocol
  import opened FakerootWaits

  /** At most one living client is between taking and giving back the semaphore. */
  lemma OneInside(s: State, p: nat, q: nat)
    requires Ok(s) && p in s.clients && q in s.clients && Inside(s.clients[p].pc) && Inside(s.clients[q].pc)
    ensures p == q
  {
  }

  /** A waiting client's request or reply is in exactly one of the two queues or with the daemon if and only if no
      interruption repeated the answer and no earlier question has the same tag. */
  lemma WaitingOnce(states: seq<State>, steps: seq<Step>, k: nat, p: nat)
    requires IsRun(states, steps) && k < |states| && p in states[k].clients && states[k].clients[p].pc.Waiting?
    ensures
      var s, c := states[k], states[k].clients[p];
      var t := Tag(p, c.serial);
      && (Copies(s, t) == 1 <==> c.pc.mine !in s.again && !Leftover(s, t, c.pc.mine))
      && Copies(s, t) >= 1
  {
    hide Apply, Copies, Leftover, SemaphoreOk, OrderOk, RepliesOk;
    RunOk(states, steps, k);
    var s, c := states[k], states[k].clients[p];
    assert ClientOk(p, c, s) && CopiesOk(p, c, s);
  }

  /** The answer to question i, from all messages sent before it. */
  function AnswerTo(sent: seq<Msg>, i: nat): FakeStat
    requires i < |sent|
  {
    Answer(AfterAll(sent[..i]), sent[i].st, 0, false)
  }

  /** In every run, a reply a client accepts answers a question under its own tag, and that is its own question if
      and only if no earlier one with that tag was under way. A client takes its own question for the answer if and
      only if it was interrupted after sending it and before receiving anything. */
  lemma WhatIsAccepted(states: seq<State>, steps: seq<Step>, k: nat, p: nat)
    requires IsRun(states, steps) && k < |states| && p in states[k].clients && states[k].clients[p].pc.Answered?
    ensures
      var s, c := states[k], states[k].clients[p];
      && c.pc.mine < |s.sent| && s.sent[c.pc.mine] == Question(p, c.serial, c.pc.ask)
      && (c.pc.origin.Unanswered? <==> InterruptedFirst(SinceAsked(steps[..k], p), p))
      && (c.pc.origin.Unanswered? ==> c.pc.answer == c.pc.ask)
      && (c.pc.origin.Replied? ==>
            var i := c.pc.origin.of;
            && i <= c.pc.mine && Carries(s.sent[i], Tag(p, c.serial)) && s.sent[i].remote == 0
            && c.pc.answer == AnswerTo(s.sent, i)
            && (i == c.pc.mine <==> !c.pc.stale))
  {
    hide Apply, Answer, AfterAll, SemaphoreOk, OrderOk, RepliesOk, AllCopiesOk, Leftover, SinceAsked, InterruptedFirst;
    RunOk(states, steps, k);
    UnansweredIff(states, steps, k, p);
    NoRemotes(states, steps, k);
    assert ClientOk(p, states[k].clients[p], states[k]);
  }

  /** A reply with a client's tag is to the client's own question if and only if, before it is received, no earlier
      question with that tag is under way. */
  lemma OwnReplyIff(states: seq<State>, steps: seq<Step>, k: nat, p: nat)
    requires IsRun(states, steps) && k < |steps| && steps[k] == Receive(p)
    requires p in states[k].clients && states[k].replies != []
    requires TagOf(states[k].replies[0].m) == Tag(p, states[k].clients[p].serial)
    ensures
      var s, u := states[k], states[k + 1];
      && s.clients[p].pc.Waiting? && p in u.clients && u.clients[p].pc.Answered? && u.clients[p].pc.origin.Replied?
      && (u.clients[p].pc.origin.of == s.clients[p].pc.mine <==>
            !Leftover(s, Tag(p, s.clients[p].serial), s.clients[p].pc.mine))
  {
    hide Leftover, LeftAt, SemaphoreOk, OrderOk, RepliesOk, AllCopiesOk;
    RunOk(states, steps, k);
    RunOk(states, steps, k + 1);
    assert ClientOk(p, states[k].clients[p], states[k]) && ClientOk(p, states[k + 1].clients[p], states[k + 1]);
  }

  /** Messages are taken as coming from one host. */
  lemma {:induction false} NoRemotes(states: seq<State>, steps: seq<Step>, k: nat)
    requires IsRun(states, steps) && k < |states|
    ensures forall i :: 0 <= i < |states[k].sent| ==> states[k].sent[i].remote == 0
  {
    if k > 0 {
      NoRemotes(states, steps, k - 1);
      SentAfter(states[k - 1], steps[k - 1]);
      hide Apply;
    }
  }

  lemma SentAfter(s: State, step: Step)
    requires Enabled(s, step)
    ensures
      var u := Apply(s, step);
      match step
      case SendOnly(_, m) => u.sent == s.sent + [Taken(m)]
      case Send(pid) => u.sent == s.sent + [Question(pid, s.clients[pid].serial, s.clients[pid].pc.ask)]
      case _ => u.sent == s.sent
  {
    hide After, LeftIn, Leftover, Marked;
  }

  // ----- Without exec

  /** A question of this process. */
  predicate AsksFor(m: Msg, p: nat) {
    m.id.Stat? && m.pid == p
  }

  /** As long as a client has not called exec, its questions have rising serial numbers. */
  ghost predicate Rising(s: State, p: nat) {
    && (forall i, j :: 0 <= i < j < |s.sent| && AsksFor(s.sent[i], p) && AsksFor(s.sent[j], p) ==>
          s.sent[i].serial < s.sent[j].serial)
    && (forall i :: 0 <= i < |s.sent| && s.sent[i].id.Stat? && s.sent[i].pid == p ==>
          p in s.used && (p in s.clients ==>
            s.sent[i].serial < s.clients[p].serial + if Begun(s.clients[p].pc) then 0 else 1))
  }

  predicate Begun(pc: ClientPc) {
    pc.Wanting? || pc.Holding?
  }

  lemma RisingKept(s: State, step: Step, p: nat)
    requires Enabled(s, step) && SemaphoreOk(s) && Rising(s, p) && step != Exec(p)
    ensures Rising(Apply(s, step), p)
  {
    hide After, LeftIn, Leftover;
    SentAfter(s, step);
  }

  lemma {:induction false} RunRising(states: seq<State>, steps: seq<Step>, k: nat, p: nat)
    requires IsRun(states, steps) && k < |states| && Exec(p) !in steps
    ensures Rising(states[k], p)
  {
    hide Apply, Rising, SemaphoreOk, OrderOk, RepliesOk, ClientsOk, AllCopiesOk;
    if k == 0 {
      assert Rising(INITIAL, p) by { InitialRising(p); }
    } else {
      RunRising(states, steps, k - 1, p);
      RunOk(states, steps, k - 1);
      RisingKept(states[k - 1], steps[k - 1], p);
    }
  }

  lemma InitialRising(p: nat)
    ensures Rising(INITIAL, p) && Quiet(INITIAL, p)
  {
  }

  // ----- Without interruptions

  /** As long as neither the daemon nor this client was interrupted, nothing is answered twice, and of this client
      nothing is under way but what it waits for. */
  ghost predicate Quiet(s: State, p: nat) {
    && (forall i, j :: 0 <= i < j < |s.replies| ==> s.replies[i].of < s.replies[j].of)
    && (forall j :: 0 <= j < |s.sent| && s.sent[j].id.Stat? && s.sent[j].pid == p ==>
          p in s.used && (p in s.clients && UnderWay(s, j) ==> s.clients[p].pc.Waiting? && s.clients[p].pc.mine == j))
  }

  lemma DaemonKeepsQuiet(s: State, p: nat)
    requires Enabled(s, DaemonProcess) && OrderOk(s) && RepliesOk(s) && Quiet(s, p)
    ensures Quiet(Apply(s, DaemonProcess), p)
  {
    hide After, LeftIn, AfterAll, LeftAt, UnderWay;
    var u := Apply(s, DaemonProcess);
    assert forall i :: 0 <= i < |s.replies| ==> ReplyOk(s.replies[i], s);
    forall j | 0 <= j < |u.sent| && u.sent[j].id.Stat?
      ensures UnderWay(s, j) <==> UnderWay(u, j)
    {
      ProcessedWay(s, j);
    }
  }

  lemma ReceiveKeepsQuiet(s: State, pid: nat, p: nat)
    requires Enabled(s, Receive(pid)) && SemaphoreOk(s) && RepliesOk(s) && ClientsOk(s) && Quiet(s, p)
    ensures Quiet(Apply(s, Receive(pid)), p)
  {
    hide LeftAt, Leftover;
    var u := Apply(s, Receive(pid));
    assert ReplyOk(s.replies[0], s);
    LeftAtTag(s.sent, s.replies[0].of);
    assert ClientOk(pid, s.clients[pid], s);
    forall j | 0 <= j < |u.sent| && u.sent[j].id.Stat? && u.sent[j].pid == p && p in u.clients && UnderWay(u, j)
      ensures u.clients[p].pc.Waiting? && u.clients[p].pc.mine == j
    {
      FewerUnderWay(s, u, j);
      assert UnderWay(s, j);
    }
  }

  lemma FewerUnderWay(s: State, u: State, j: nat)
    requires s.replies != [] && u.replies == s.replies[1..] && u.sent == s.sent && u.handled == s.handled
    requires UnderWay(u, j)
    ensures UnderWay(s, j) && (s.handled <= j || exists i :: 1 <= i < |s.replies| && s.replies[i].of == j)
  {
    if j < s.handled {
      var i :| 0 <= i < |u.replies| && u.replies[i].of == j;
      assert s.replies[i + 1].of == j;
    }
  }

  lemma OtherKeepsQuiet(s: State, step: Step, p: nat)
    requires Enabled(s, step) && OrderOk(s) && SemaphoreOk(s) && Quiet(s, p)
    requires step != DaemonInterrupt && step != Interrupt(p) && !step.Receive? && !step.DaemonProcess?
    ensures Quiet(Apply(s, step), p)
  {
    hide After, LeftIn, AfterAll, LeftAt, Leftover;
    SentAfter(s, step);
    var u := Apply(s, step);
    assert u.replies == s.replies && u.handled == s.handled;
    hide UnderWay;
    forall j | 0 <= j < |s.sent| ensures UnderWay(u, j) <==> UnderWay(s, j) { SameReplies(s, u, j); }
  }

  lemma SameReplies(s: State, u: State, j: nat)
    requires s.sent <= u.sent && u.replies == s.replies && u.handled == s.handled && j < |s.sent|
    ensures UnderWay(u, j) <==> UnderWay(s, j)
  {
  }

  lemma {:induction false} RunQuiet(states: seq<State>, steps: seq<Step>, k: nat, p: nat)
    requires IsRun(states, steps) && k < |states| && DaemonInterrupt !in steps && Interrupt(p) !in steps
    ensures Quiet(states[k], p)
  {
    hide Apply, Quiet, SemaphoreOk, OrderOk, RepliesOk, ClientsOk, AllCopiesOk;
    if k == 0 {
      assert Quiet(INITIAL, p) by { InitialRising(p); }
    } else {
      RunQuiet(states, steps, k - 1, p);
      RunOk(states, steps, k - 1);
      var step := steps[k - 1];
      if step.DaemonProcess? {
        DaemonKeepsQuiet(states[k - 1], p);
      } else if step.Receive? {
        ReceiveKeepsQuiet(states[k - 1], step.pid, p);
      } else {
        OtherKeepsQuiet(states[k - 1], step, p);
      }
    }
  }

  // ----- The answer to its own question

  /** These are the runs in which a client cannot be misled: it never called exec, or nobody was interrupted. */
  predicate Safe(steps: seq<Step>, p: nat) {
    Exec(p) !in steps || (DaemonInterrupt !in steps && Interrupt(p) !in steps)
  }

  ghost predicate NotStale(s: State, p: nat) {
    p in s.clients && (s.clients[p].pc.Waiting? || s.clients[p].pc.Answered?) ==> !s.clients[p].pc.stale
  }

  lemma NoLeftover(s: State, p: nat)
    requires ClientsOk(s) && p in s.clients && s.clients[p].pc.Waiting? && (Rising(s, p) || Quiet(s, p))
    ensures !s.clients[p].pc.stale
  {
    hide UnderWay, LeftAt;
    assert ClientOk(p, s.clients[p], s);
  }

  lemma AnsweredBefore(s: State, step: Step, p: nat)
    requires Enabled(s, step) && NotStale(s, p) && p in Apply(s, step).clients && Apply(s, step).clients[p].pc.Answered?
    ensures !Apply(s, step).clients[p].pc.stale
  {
    hide After, LeftIn, Leftover;
  }

  lemma {:induction false} NeverStale(states: seq<State>, steps: seq<Step>, k: nat, p: nat)
    requires IsRun(states, steps) && k < |states| && Safe(steps, p)
    ensures NotStale(states[k], p)
  {
    hide Apply, Rising, Quiet, SemaphoreOk, OrderOk, RepliesOk, ClientsOk, AllCopiesOk;
    RunOk(states, steps, k);
    if Exec(p) !in steps { RunRising(states, steps, k, p); } else { RunQuiet(states, steps, k, p); }
    if p in states[k].clients && states[k].clients[p].pc.Waiting? { NoLeftover(states[k], p); }
    if k > 0 {
      NeverStale(states, steps, k - 1, p);
      if p in states[k].clients && states[k].clients[p].pc.Answered? { AnsweredBefore(states[k - 1], steps[k - 1], p); }
    }
  }

  /** The question already says what the daemon would answer: what is known of the file, or for an unknown one root. */
  predicate AlreadySo(db: Db, st: FakeStat) {
    var k := KeyOf(st, 0);
    if k in db then db[k].(nlink := st.nlink) == st else st.uid == 0 && st.gid == 0
  }

  lemma AlreadySoIff(db: Db, st: FakeStat)
    ensures Answer(db, st, 0, false) == st <==> AlreadySo(db, st)
  {
  }

  /** In every run in which a client did not call exec, or nobody was interrupted, what it accepts is the answer to
      its own question, and what a plain map would say after all messages, of whichever client, that were sent to
      the daemon before that question, if and only if the client was not interrupted before it received anything, or
      the question already said so. */
  lemma AcceptsOwnAnswer(states: seq<State>, steps: seq<Step>, k: nat, p: nat)
    requires IsRun(states, steps) && k < |states| && p in states[k].clients && states[k].clients[p].pc.Answered?
    requires Safe(steps, p)
    ensures
      var s, c := states[k], states[k].clients[p];
      && c.pc.mine < |s.sent| && s.sent[c.pc.mine] == Question(p, c.serial, c.pc.ask)
      && var db := AfterAll(s.sent[..c.pc.mine]);
         c.pc.answer == Answer(db, c.pc.ask, 0, false) <==>
           !InterruptedFirst(SinceAsked(steps[..k], p), p) || AlreadySo(db, c.pc.ask)
  {
    hide IsRun, Answer, AfterAll, SinceAsked, InterruptedFirst, AlreadySo;
    WhatIsAccepted(states, steps, k, p);
    NeverStale(states, steps, k, p);
    var s, c := states[k], states[k].clients[p];
    AlreadySoIff(AfterAll(s.sent[..c.pc.mine]), c.pc.ask);
  }

  /** In particular when it was never interrupted. */
  lemma AcceptsUninterrupted(states: seq<State>, steps: seq<Step>, k: nat, p: nat)
    requires IsRun(states, steps) && k < |states| && p in states[k].clients && states[k].clients[p].pc.Answered?
    requires Interrupt(p) !in steps && (Exec(p) !in steps || DaemonInterrupt !in steps)
    ensures
      var s, c := states[k], states[k].clients[p];
      && c.pc.mine < |s.sent| && s.sent[c.pc.mine] == Question(p, c.serial, c.pc.ask)
      && c.pc.answer == Answer(AfterAll(s.sent[..c.pc.mine]), c.pc.ask, 0, false)
  {
    assert k <= |steps|;
    hide IsRun, Answer, AfterAll, SinceAsked, InterruptedFirst;
    AcceptsOwnAnswer(states, steps, k, p);
    NeverInterrupted(steps, k, p);
  }

  // ----- Runs that show this

  datatype Run = Run(states: seq<State>, steps: seq<Step>)

  /** A run that ends in this state. */
  ghost predicate EndsIn(r: Run, s: State) {
    IsRun(r.states, r.steps) && r.states[|r.steps|] == s
  }

  lemma OneStep(r: Run, s: State, step: Step) returns (q: Run)
    requires EndsIn(r, s) && Enabled(s, step)
    ensures EndsIn(q, Apply(s, step)) && q.steps == r.steps + [step] && q.states == r.states + [Apply(s, step)]
  {
    hide Apply, Enabled;
    q := Run(r.states + [Apply(s, step)], r.steps + [step]);
  }

  /** An idle client has taken the semaphore and sent a question. */
  function AskedFrom(s: State, pid: nat, ask: FakeStat): State
    requires pid in s.clients
  {
    var serial := s.clients[pid].serial + 1;
    var m := Question(pid, serial, ask);
    s.(clients := s.clients[pid := Client(serial, Waiting(ask, true, |s.sent|, Leftover(s, TagOf(m), |s.sent|)))],
       semaphore := HeldBy(pid), requests := s.requests + [m], sent := s.sent + [m])
  }

  lemma Asks(q: Run, s: State, pid: nat, ask: FakeStat) returns (r: Run)
    requires EndsIn(q, s) && pid in s.clients && s.clients[pid].pc.Idle? && s.semaphore.Up?
    ensures EndsIn(r, AskedFrom(s, pid, ask)) && r.steps == q.steps + [Begin(pid, ask), Acquire(pid), Send(pid)]
  {
    hide IsRun, Leftover;
    var c := s.clients[pid].serial + 1;
    r := OneStep(q, s, Begin(pid, ask));
    var s1 := s.(clients := s.clients[pid := Client(c, Wanting(ask))]);
    r := OneStep(r, s1, Acquire(pid));
    var s2 := s1.(clients := s.clients[pid := Client(c, Holding(ask))], semaphore := HeldBy(pid));
    assert Apply(s1, Acquire(pid)).clients == s2.clients;
    SameLeftover(s, s2, Tag(pid, c));
    r := OneStep(r, s2, Send(pid));
    assert Apply(s2, Send(pid)).clients == AskedFrom(s, pid, ask).clients;
  }

  lemma SameLeftover(s: State, u: State, t: Tag)
    requires u.sent == s.sent && u.handled == s.handled && u.replies == s.replies
    ensures Leftover(u, t, |s.sent|) == Leftover(s, t, |s.sent|)
  {
    hide UnderWay;
    forall j | 0 <= j < |s.sent| ensures UnderWay(u, j) <==> UnderWay(s, j) { SameReplies(s, u, j); }
  }

  /** Client pid asks first of all. */
  function FirstAsked(pid: nat, a: FakeStat): State {
    State(map[pid := Client(1, Waiting(a, true, 0, false))], HeldBy(pid), [Question(pid, 1, a)], [],
          Receiving(Nothing), map[], {pid}, [Question(pid, 1, a)], 0, multiset{})
  }

  lemma AsksFirst(pid: nat, a: FakeStat) returns (r: Run)
    ensures EndsIn(r, FirstAsked(pid, a)) && r.steps == [Start(pid, 0), Begin(pid, a), Acquire(pid), Send(pid)]
  {
    var s := INITIAL;
    r := Run([s], []);
    r := OneStep(r, s, Start(pid, 0));
    r := Asks(r, Apply(s, Start(pid, 0)), pid, a);
  }

  /** The reply to the first question, from a daemon that knows nothing. */
  function FirstReply(pid: nat, a: FakeStat): Msg {
    Question(pid, 1, a).(st := Answer(map[], a, 0, false))
  }

  function FirstReplied(pid: nat, a: FakeStat): State {
    FirstAsked(pid, a).(requests := [], handled := 1, replies := [Reply(FirstReply(pid, a), 0)],
                        daemon := Receiving(Left(FirstReply(pid, a))))
  }

  lemma RepliesFirst(pid: nat, a: FakeStat) returns (r: Run)
    ensures EndsIn(r, FirstReplied(pid, a))
    ensures r.steps == [Start(pid, 0), Begin(pid, a), Acquire(pid), Send(pid), DaemonReceive, DaemonProcess]
  {
    hide Answer;
    r := AsksFirst(pid, a);
    var s := FirstAsked(pid, a);
    r := OneStep(r, s, DaemonReceive);
    var s1 := s.(requests := [], daemon := Processing(Question(pid, 1, a)));
    r := OneStep(r, s1, DaemonProcess);
  }

  /** The daemon is interrupted while a client still waits, and answers again: two replies carry one tag. */
  lemma AnsweredTwice(a: FakeStat) returns (r: Run, s: State)
    ensures EndsIn(r, s) && Exec(1) !in r.steps && 1 in s.clients
    ensures s.clients[1] == Client(1, Waiting(a, true, 0, false))
    ensures Copies(s, Tag(1, 1)) == 2 && |s.replies| == 2 && s.replies[0].m == s.replies[1].m
  {
    hide Answer;
    r := RepliesFirst(1, a);
    var f := FirstReplied(1, a);
    AgainAnswered(a);
    r := OneStep(r, f, DaemonInterrupt);
    s := Apply(f, DaemonInterrupt);
    assert s.replies == [Reply(FirstReply(1, a), 0), Reply(FirstReply(1, a), 0)];
    var one := [FirstReply(1, a)];
    assert Letters(s.replies) == one + one && one + one == one + [FirstReply(1, a)] && one == [] + one;
    CountSnoc([], FirstReply(1, a), Tag(1, 1));
    CountSnoc(one, FirstReply(1, a), Tag(1, 1));
  }

  lemma AgainAnswered(a: FakeStat)
    ensures LeftIn(map[], FirstReply(1, a), false) == FirstReply(1, a)
  {
  }

  /** A client is answered, calls exec and asks again, and the daemon is interrupted before it sees the new
      question. The client takes the answer to its old question for that to the new one. */
  lemma OldAnswerAccepted(a: FakeStat, b: FakeStat) returns (r: Run, s: State)
    ensures EndsIn(r, s) && 1 in s.clients
    ensures s.clients[1] == Client(1, Answered(b, Answer(map[], a, 0, false), 1, true, Replied(0)))
  {
    hide Answer, IsRun, LeftIn, After;
    r := RepliesFirst(1, a);
    var f := FirstReplied(1, a);
    r := OneStep(r, f, Receive(1));
    var answered := Answered(a, Answer(map[], a, 0, false), 0, false, Replied(0));
    var s1 := f.(replies := [], clients := map[1 := Client(1, answered)]);
    r := OneStep(r, s1, Release(1));
    var s2 := s1.(clients := map[1 := Client(1, Idle)], semaphore := Up);
    r := OneStep(r, s2, Exec(1));
    var s3 := s2.(clients := map[1 := Client(0, Idle)]);
    r := Asks(r, s3, 1, b);
    assert AskedFrom(s3, 1, b) == AskedAgain(a, b);
    r, s := Misled(r, a, b);
  }

  function AskedAgain(a: FakeStat, b: FakeStat): State {
    State(map[1 := Client(1, Waiting(b, true, 1, false))], HeldBy(1), [Question(1, 1, b)], [],
          Receiving(Left(FirstReply(1, a))), map[], {1}, [Question(1, 1, a), Question(1, 1, b)], 1, multiset{})
  }

  lemma Misled(q: Run, a: FakeStat, b: FakeStat) returns (r: Run, s: State)
    requires EndsIn(q, AskedAgain(a, b))
    ensures EndsIn(r, s) && 1 in s.clients
    ensures s.clients[1] == Client(1, Answered(b, Answer(map[], a, 0, false), 1, true, Replied(0)))
  {
    hide Answer, IsRun;
    AgainAnswered(a);
    r := OneStep(q, AskedAgain(a, b), DaemonInterrupt);
    s := AskedAgain(a, b).(replies := [Reply(FirstReply(1, a), 0)], again := multiset{0},
                           clients := map[1 := Client(1, Waiting(b, true, 1, true))]);
    r := OneStep(r, s, Receive(1));
    s := Apply(s, Receive(1));
  }

  /** A client interrupted before its reply came takes its own question for the answer, and so sees the real owner of a
      file that is to look like root's. */
  lemma OwnQuestionAccepted(a: FakeStat) returns (r: Run, s: State)
    requires a.uid != 0
    ensures EndsIn(r, s) && 1 in s.clients && s.clients[1] == Client(1, Answered(a, a, 0, false, Unanswered))
    ensures s.sent == [Question(1, 1, a)] && AnswerTo(s.sent, 0) != a
  {
    r := AsksFirst(1, a);
    r := OneStep(r, FirstAsked(1, a), Interrupt(1));
    s := Apply(FirstAsked(1, a), Interrupt(1));
  }

  // ----- The case the tags are for

  /** Client 1 sends its question and is killed, and client 2 then sends its own behind the first. */
  function BothAsked(a: FakeStat, b: FakeStat): State {
    State(map[2 := Client(1, Waiting(b, true, 1, false))], HeldBy(2), [Question(1, 1, a), Question(2, 1, b)], [],
          Receiving(Nothing), map[], {1, 2}, [Question(1, 1, a), Question(2, 1, b)], 0, multiset{})
  }

  lemma SecondAsks(a: FakeStat, b: FakeStat) returns (r: Run)
    ensures EndsIn(r, BothAsked(a, b))
  {
    r := AsksFirst(1, a);
    r := OneStep(r, FirstAsked(1, a), Kill(1));
    var s := FirstAsked(1, a).(clients := map[], semaphore := Up);
    assert FirstAsked(1, a).clients - {1} == map[];
    r := OneStep(r, s, Start(2, 0));
    var s1 := s.(clients := map[2 := Client(0, Idle)], used := {1, 2});
    r := Asks(r, s1, 2, b);
  }

  /** The first reply to arrive is the one for client 1. Client 2 throws it away and accepts the next, its own. */
  lemma StaleReplyDropped(a: FakeStat, b: FakeStat) returns (r: Run, k: nat)
    ensures IsRun(r.states, r.steps) && k < |r.steps| && r.steps[k] == Receive(2)
    ensures r.states[k].replies != [] && r.states[k].replies[0].m.pid == 1
    ensures 2 in r.states[k + 1].clients && r.states[k + 1].clients[2] == Client(1, Waiting(b, false, 1, false))
    ensures 2 in r.states[|r.steps|].clients
    ensures r.states[|r.steps|].clients[2] == Client(1, Answered(b, Answer(map[], b, 0, false), 1, false, Replied(1)))
  {
    r := SecondAsks(a, b);
    var s := BothAsked(a, b);
    var ra, rb := FirstReply(1, a), FirstReply(2, b);
    hide Answer;
    r := OneStep(r, s, DaemonReceive);
    var s1 := s.(requests := [Question(2, 1, b)], daemon := Processing(Question(1, 1, a)));
    r := OneStep(r, s1, DaemonProcess);
    var s2 := s1.(daemon := Receiving(Left(ra)), handled := 1, replies := [Reply(ra, 0)]);
    k := |r.steps|;
    r := OneStep(r, s2, Receive(2));
    var s3 := s2.(replies := [], clients := map[2 := Client(1, Waiting(b, false, 1, false))]);
    assert r.states[k] == s2 && r.states[k + 1] == s3;
    r := OneStep(r, s3, DaemonReceive);
    var s4 := s3.(requests := [], daemon := Processing(Question(2, 1, b)));
    r := OneStep(r, s4, DaemonProcess);
    var s5 := s4.(daemon := Receiving(Left(rb)), handled := 2, replies := [Reply(rb, 1)]);
    r := OneStep(r, s5, Receive(2));
  }
}
