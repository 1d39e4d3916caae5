// The transmit pipeline never idles while it has work: frames wait beside an
// empty in-flight slot only because the port said so.
module TxStarts {
  import opened Wrappers
  import opened TxPipeline

  // --- One section -------------------------------------------------------------------

  // What waits when the section looks at the queue: a committed frame has joined it.
  function Waiting(p: Pipe, e: Event): seq<Job> {
    if e.DoCommit? then p.rawQ + [Job(e.frame, p.next)] else p.rawQ
  }

  // The sections that may hand a frame to the port.
  predicate Offers(p: Pipe, e: Event) {
    match e
    case TxDone(_) => p.inflight.Some?
    case TxReady(_) => true
    case DoCommit(f, _, _) => f in p.claimed
    case _ => false
  }

  // A completion frees the slot; the other sections need it free.
  predicate SlotFree(p: Pipe, e: Event) { e.TxDone? || p.inflight.None? }

  // The answer that counts: an idle pipeline asks for a committed frame at once.
  function Answer(p: Pipe, e: Event): Port
    requires Offers(p, e)
  {
    match e
    case TxDone(port) => port
    case TxReady(port) => port
    case DoCommit(_, port, later) => if !port.busy && p.inflight.None? && p.rawQ == [] then port else later
  }

  // The oldest waiting frame is in flight; or it still waits, because the slot is
  // taken, the port is busy or the port refused it and is busy now; or an idle
  // port refused it and it was given back.
  ghost predicate Moved(p: Pipe, q: Pipe, e: Event)
    requires Offers(p, e)
  {
    var waiting, port := Waiting(p, e), Answer(p, e);
    if !SlotFree(p, e) then q.inflight == p.inflight && q.rawQ == waiting && q.started == p.started
    else if waiting != [] && !port.busy && port.takes then
      && q.inflight == Some(waiting[0]) && q.rawQ == waiting[1..]
      && q.started == p.started + [waiting[0].ticket]
    else
      && q.inflight.None? && q.started == p.started
      && (if waiting == [] || port.busy || port.busyAfter then q.rawQ == waiting
          else q.rawQ == waiting[1..] && q.released != [] && q.released[|q.released| - 1] == waiting[0].ticket)
  }

  lemma StepMoves(p: Pipe, e: Event)
    requires Offers(p, e)
    ensures Moved(p, Step(p, e), e)
  {
    if e.DoCommit? {
      CommitMoves(p, e);
    }
  }

  lemma CommitMoves(p: Pipe, e: Event)
    requires e.DoCommit? && e.frame in p.claimed
    ensures Moved(p, Step(p, e), e)
  {
    if !e.port.busy && p.inflight.None? && p.rawQ == [] {
      DirectCommit(p, e);
    } else {
      var q := Accepted(p, e.frame).0;
      assert Step(p, e) == TryStart(q.(rawQ := q.rawQ + [Job(e.frame, p.next)]), e.later);
    }
  }

  lemma DirectCommit(p: Pipe, e: Event)
    requires e.DoCommit? && e.frame in p.claimed && !e.port.busy && p.inflight.None? && p.rawQ == []
    ensures Moved(p, Step(p, e), e)
  {
    hide TryStart;
    assert p.rawQ + [Job(e.frame, p.next)] == [Job(e.frame, p.next)];
  }

  // --- Every run ------------------------------------------------------------------------

  // Whether the port has turned the pipeline down since it last took a frame.
  ghost function TurnedDown(p: Pipe, es: seq<Event>, was: bool): bool
    decreases |es|
  {
    if es == [] then was
    else
      var e := es[0];
      TurnedDown(Step(p, e), es[1..],
        if Offers(p, e) && SlotFree(p, e) && Waiting(p, e) != [] then Answer(p, e).busy || !Answer(p, e).takes
        else was)
  }

  ghost predicate Idles(p: Pipe) { p.rawQ != [] && p.inflight.None? }

  lemma StepIdles(p: Pipe, e: Event)
    requires Idles(Step(p, e))
    ensures
      if Offers(p, e) && SlotFree(p, e) && Waiting(p, e) != [] then Answer(p, e).busy || !Answer(p, e).takes
      else Idles(p)
  {
    hide DrainQueue;
    if Offers(p, e) {
      StepMoves(p, e);
    } else if e.TxError? {
      AbortIsEmpty(p);
    }
  }

  lemma {:induction false} DrainedIsEmpty(p: Pipe)
    ensures DrainQueue(p).rawQ == []
    decreases |p.rawQ|
  {
    if p.rawQ != [] { DrainedIsEmpty(Finish(p.(rawQ := p.rawQ[1..]), p.rawQ[0])); }
  }

  lemma AbortIsEmpty(p: Pipe)
    ensures Step(p, TxError).rawQ == []
  {
    hide DrainQueue;
    DrainedIsEmpty(if p.inflight.Some? then Finish(p.(inflight := None), p.inflight.value) else p);
  }

  lemma {:induction false} RunIdles(p: Pipe, es: seq<Event>, was: bool)
    requires Idles(p) ==> was
    ensures Idles(Run(p, es)) ==> TurnedDown(p, es, was)
    decreases |es|
  {
    hide Step;
    hide Idles;
    if es != [] {
      var e := es[0];
      if Idles(Step(p, e)) { StepIdles(p, e); }
      RunIdles(Step(p, e), es[1..],
        if Offers(p, e) && SlotFree(p, e) && Waiting(p, e) != [] then Answer(p, e).busy || !Answer(p, e).takes
        else was);
    }
  }

  // In every run, a section that may start a frame does, as far as the port lets
  // it, and frames wait beside an empty slot only after the port turned the
  // pipeline down.
  lemma WorkIsConserved(es: seq<Event>, e: Event)
    ensures
      var p := Run(Empty, es);
      && (Offers(p, e) ==> Moved(p, Step(p, e), e))
      && (p.rawQ != [] && p.inflight.None? ==> TurnedDown(Empty, es, false))
  {
    hide Step;
    hide Moved;
    RunIdles(Empty, es, false);
    if Offers(Run(Empty, es), e) { StepMoves(Run(Empty, es), e); }
  }

  // --- A port that takes everything --------------------------------------------------------

  function Tickets(js: seq<Job>): seq<nat> {
    if js == [] then [] else [js[0].ticket] + Tickets(js[1..])
  }

  ghost predicate AllTake(es: seq<Event>) {
    forall i :: 0 <= i < |es| ==> es[i].TxDone? && !es[i].port.busy && es[i].port.takes
  }

  lemma CompletionStep(p: Pipe, e: Event)
    requires p.inflight.Some? && e.TxDone? && !e.port.busy && e.port.takes
    ensures
      var q := Step(p, e);
      && q.released == p.released + [p.inflight.value.ticket]
      && (if p.rawQ == [] then q.inflight.None? && q.rawQ == [] && q.started == p.started
          else
            && q.inflight == Some(p.rawQ[0]) && q.rawQ == p.rawQ[1..]
            && q.started == p.started + [p.rawQ[0].ticket])
  {
  }

  // Completions alone empty the queue, oldest first, one frame each.
  lemma {:induction false} CompletionsEmptyTheQueue(p: Pipe, es: seq<Event>)
    requires p.inflight.Some? && AllTake(es) && |es| == |p.rawQ| + 1
    ensures
      var q := Run(p, es);
      && q.rawQ == [] && q.inflight.None?
      && q.started == p.started + Tickets(p.rawQ)
      && q.released == p.released + [p.inflight.value.ticket] + Tickets(p.rawQ)
    decreases |es|
  {
    hide Step;
    var q := Step(p, es[0]);
    CompletionStep(p, es[0]);
    if p.rawQ == [] {
      assert es[1..] == [] && Run(q, []) == q;
    } else {
      var rest := Tickets(p.rawQ[1..]);
      assert forall i :: 0 <= i < |es| - 1 ==> es[1..][i] == es[i + 1];
      CompletionsEmptyTheQueue(q, es[1..]);
      assert Tickets(p.rawQ) == [p.rawQ[0].ticket] + rest;
      assert p.started + [p.rawQ[0].ticket] + rest == p.started + ([p.rawQ[0].ticket] + rest);
      assert q.released + [p.rawQ[0].ticket] + rest == q.released + ([p.rawQ[0].ticket] + rest);
    }
  }

  // --- Gates ------------------------------------------------------------------------------------

  // Nobody prepares the frame, and it is neither queued nor in flight.
  ghost predicate Idle(p: Pipe, f: nat) { f !in p.claimed && forall j :: j in Jobs(p) ==> j.frame != f }

  lemma GateIsOpen(p: Pipe, f: nat)
    requires GateInv(p)
    ensures f in p.gates <==> !Idle(p, f)
  {
    hide Jobs;
    FramesOfIn(Jobs(p), f);
  }

  // In every run: a sender gets a frame exactly when it is idle, a preparation
  // given up makes it idle again, and so does a completion.
  lemma GatesOpenAndClose(es: seq<Event>, f: nat, g: nat, port: Port)
    ensures
      var p := Run(Empty, es);
      && (if Idle(p, f) then Step(p, DoClaim(f)) == p.(gates := p.gates + {f}, claimed := p.claimed + {f})
          else Step(p, DoClaim(f)) == p)
      && (f in p.claimed ==> Step(p, DoUnclaim(f)) == p.(gates := p.gates - {f}, claimed := p.claimed - {f}))
      && (f in p.claimed && Idle(p, g) ==>
        Step(p, DoReplace(f, g)).claimed == p.claimed - {f} + {g}
        && Idle(Step(p, DoReplace(f, g)), f) && !Idle(Step(p, DoReplace(f, g)), g))
      && (f in p.claimed ==> Idle(Step(p, DoUnclaim(f)), f))
      && (p.inflight.Some? ==> Idle(Step(p, TxDone(port)), p.inflight.value.frame))
  {
    hide Run;
    hide Inv;
    EmptyInv();
    RunKeepsInv(Empty, es);
    var p := Run(Empty, es);
    ClaimsMove(p, f, g);
    if p.inflight.Some? {
      CompletedIsIdle(p, port);
    }
  }

  lemma ClaimsMove(p: Pipe, f: nat, g: nat)
    requires Inv(p)
    ensures Step(p, DoClaim(f)) == if Idle(p, f) then p.(gates := p.gates + {f}, claimed := p.claimed + {f}) else p
    ensures f in p.claimed ==>
      && Step(p, DoUnclaim(f)) == p.(gates := p.gates - {f}, claimed := p.claimed - {f})
      && Idle(Step(p, DoUnclaim(f)), f)
    ensures f in p.claimed && Idle(p, g) ==>
      Step(p, DoReplace(f, g)).claimed == p.claimed - {f} + {g}
      && Idle(Step(p, DoReplace(f, g)), f) && !Idle(Step(p, DoReplace(f, g)), g)
  {
    hide OrderInv;
    hide CountInv;
    hide Jobs;
    GateIsOpen(p, f);
    GateIsOpen(p, g);
    FramesOfIn(Jobs(p), f);
    ClaimJobs(p, DoUnclaim(f));
    ClaimJobs(p, DoReplace(f, g));
  }

  lemma CompletedIsIdle(p: Pipe, port: Port)
    requires Inv(p) && p.inflight.Some?
    ensures Idle(Step(p, TxDone(port)), p.inflight.value.frame)
  {
    hide OrderInv;
    hide CountInv;
    hide FramesOf;
    var f, q := p.inflight.value.frame, Step(p, TxDone(port));
    FramesOfIn(p.rawQ, f);
    OthersRemain(p);
    StepMoves(p, TxDone(port));
    DoneKeepsClaims(p, port);
    hide Step;
    forall j | j in Jobs(q) ensures j in p.rawQ {
    }
  }

  lemma OthersRemain(p: Pipe)
    requires GateInv(p) && p.inflight.Some?
    ensures p.inflight.value.frame !in FramesOf(p.rawQ) && p.inflight.value.frame !in p.claimed
  {
    var f := p.inflight.value.frame;
    assert Jobs(p) == [p.inflight.value] + p.rawQ;
    assert Jobs(p)[1..] == p.rawQ && Jobs(p)[0] == p.inflight.value;
    assert p.held == multiset{f} + FramesOf(p.rawQ);
    assert p.held[f] <= 1 && multiset{f}[f] == 1;
  }

  lemma DoneKeepsClaims(p: Pipe, port: Port)
    ensures Step(p, TxDone(port)).claimed == p.claimed
  {
  }
}
