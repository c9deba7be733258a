/** How a client of fakeroot stops waiting, told from the steps of a run alone.

    A client does not look at the result of msgrcv, only at its buffer. As long as no reply was received the buffer
    holds the client's own question, which carries its tag, so an interruption then ends the wait; later it does
    not. */
module FakerootWaits {
  import opened FakeStats
  import opened FakerootProtocol

  /** The steps since this client last sent a question. */
  function SinceAsked(steps: seq<Step>, p: nat): seq<Step> {
    if steps == [] || steps[|steps| - 1] == Send(p) then []
    else SinceAsked(steps[..|steps| - 1], p) + [steps[|steps| - 1]]
  }

  lemma SinceAskedSnoc(steps: seq<Step>, step: Step, p: nat)
    ensures SinceAsked(steps + [step], p) == if step == Send(p) then [] else SinceAsked(steps, p) + [step]
  {
    assert (steps + [step])[..|steps|] == steps;
  }

  lemma {:induction false} SinceAskedIs(steps: seq<Step>, j: nat, p: nat)
    requires j < |steps| && steps[j] == Send(p) && Send(p) !in steps[j + 1..]
    ensures SinceAsked(steps, p) == steps[j + 1..]
  {
    var n := |steps| - 1;
    if j < n {
      assert steps[j + 1..] == steps[..n][j + 1..] + [steps[n]];
      SinceAskedIs(steps[..n], j, p);
    }
  }

  /** Of these steps, the client was interrupted before it received a reply. */
  predicate InterruptedFirst(w: seq<Step>, p: nat) {
    exists i :: 0 <= i < |w| && w[i] == Interrupt(p) && Receive(p) !in w[..i]
  }

  lemma InterruptedSnoc(w: seq<Step>, step: Step, p: nat)
    ensures InterruptedFirst(w + [step], p) <==> InterruptedFirst(w, p) || (step == Interrupt(p) && Receive(p) !in w)
  {
    var v := w + [step];
    if i :| 0 <= i < |v| && v[i] == Interrupt(p) && Receive(p) !in v[..i] {
      assert v[..i] == w[..i];
      if i == |w| { assert w[..i] == w; }
    }
    if i :| 0 <= i < |w| && w[i] == Interrupt(p) && Receive(p) !in w[..i] {
      assert v[i] == Interrupt(p) && v[..i] == w[..i];
    }
    if step == Interrupt(p) && Receive(p) !in w { assert v[|w|] == Interrupt(p) && v[..|w|] == w; }
  }

  // ----- One step

  /** A wait ends with an interruption or with a reply received, and with no other step. */
  lemma WaitEnds(s: State, step: Step, p: nat)
    requires Enabled(s, step) && p in s.clients && s.clients[p].pc.Waiting?
    requires p in Apply(s, step).clients && Apply(s, step).clients[p].pc.Answered?
    ensures
      var origin := Apply(s, step).clients[p].pc.origin;
      (origin.Unanswered? <==> step == Interrupt(p)) && (origin.Replied? <==> step == Receive(p))
  {
    hide After, LeftIn, Leftover;
  }

  /** An interruption ends the wait if and only if the question is still in the buffer. */
  lemma InterruptEndsIff(s: State, p: nat)
    requires Enabled(s, Interrupt(p))
    ensures
      var u := Apply(s, Interrupt(p));
      p in u.clients && (u.clients[p].pc.Answered? <==> s.clients[p].pc.own) && (!s.clients[p].pc.own ==> u == s)
  {
  }

  /** What the steps since its question tell of a client. */
  ghost predicate WaitOk(s: State, w: seq<Step>, p: nat) {
    p in s.clients ==>
      var pc := s.clients[p].pc;
      && (pc.Waiting? ==> (pc.own <==> Receive(p) !in w) && !InterruptedFirst(w, p))
      && (pc.Answered? ==> (pc.origin.Unanswered? <==> InterruptedFirst(w, p)))
  }

  /** A client whose wait a step does not touch. */
  predicate SamePc(a: ClientPc, b: ClientPc) {
    || a == b || (!b.Waiting? && !b.Answered?)
    || (a.Waiting? && b.Waiting? && b.own == a.own)
  }

  lemma OtherStep(s: State, step: Step, p: nat)
    requires Enabled(s, step) && step != Send(p) && step != Receive(p) && step != Interrupt(p)
    requires p in Apply(s, step).clients
    ensures
      var b := Apply(s, step).clients[p].pc;
      if p in s.clients then SamePc(s.clients[p].pc, b) else b.Idle?
  {
    hide After, LeftIn, Leftover;
  }

  lemma WaitKept(s: State, step: Step, w: seq<Step>, p: nat)
    requires Enabled(s, step) && WaitOk(s, w, p)
    ensures WaitOk(Apply(s, step), if step == Send(p) then [] else w + [step], p)
  {
    if step == Send(p) {
    } else {
      InterruptedSnoc(w, step, p);
      hide InterruptedFirst, Leftover;
      if step != Receive(p) && step != Interrupt(p) && p in Apply(s, step).clients {
        OtherStep(s, step, p);
        hide Apply;
      }
    }
  }

  // ----- Every run

  lemma {:induction false} RunWaits(states: seq<State>, steps: seq<Step>, k: nat, p: nat)
    requires IsRun(states, steps) && k < |states|
    ensures WaitOk(states[k], SinceAsked(steps[..k], p), p)
  {
    hide Apply, Enabled, SinceAsked, InterruptedFirst;
    if k > 0 {
      RunWaits(states, steps, k - 1, p);
      WaitKept(states[k - 1], steps[k - 1], SinceAsked(steps[..k - 1], p), p);
      assert steps[..k] == steps[..k - 1] + [steps[k - 1]];
      SinceAskedSnoc(steps[..k - 1], steps[k - 1], p);
    }
  }

  /** The question is still in the buffer of a waiting client if and only if it has received nothing since. */
  lemma OwnIff(states: seq<State>, steps: seq<Step>, k: nat, p: nat)
    requires IsRun(states, steps) && k < |states| && p in states[k].clients && states[k].clients[p].pc.Waiting?
    ensures states[k].clients[p].pc.own <==> Receive(p) !in SinceAsked(steps[..k], p)
  {
    hide IsRun, SinceAsked, InterruptedFirst;
    RunWaits(states, steps, k, p);
  }

  /** In every run, a client has taken its own question for the answer if and only if it was interrupted after it
      sent the question and before it received anything. */
  lemma UnansweredIff(states: seq<State>, steps: seq<Step>, k: nat, p: nat)
    requires IsRun(states, steps) && k < |states| && p in states[k].clients && states[k].clients[p].pc.Answered?
    ensures states[k].clients[p].pc.origin.Unanswered? <==> InterruptedFirst(SinceAsked(steps[..k], p), p)
  {
    hide IsRun, SinceAsked, InterruptedFirst;
    RunWaits(states, steps, k, p);
  }

  lemma {:induction false} SinceAskedHas(steps: seq<Step>, p: nat, step: Step)
    requires step in SinceAsked(steps, p)
    ensures step in steps
  {
    var n := |steps| - 1;
    if step != steps[n] { SinceAskedHas(steps[..n], p, step); }
  }

  /** The simple case: a client that was never interrupted. */
  lemma NeverInterrupted(steps: seq<Step>, k: nat, p: nat)
    requires Interrupt(p) !in steps && k <= |steps|
    ensures !InterruptedFirst(SinceAsked(steps[..k], p), p)
  {
    if Interrupt(p) in SinceAsked(steps[..k], p) { SinceAskedHas(steps[..k], p, Interrupt(p)); }
  }
}
