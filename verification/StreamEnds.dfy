// What link events leave behind, as histories of the events: whether a session
// is up, how the last one ended, and what the reader has still to be told.
module StreamEnds {
  import opened Stream

  predicate EndsLink(e: Event) { e.DoClose? || e.DoAbort? || e.DoRefuse? }

  // A session is up from the last connect on, until something ends it.
  predicate Up(es: seq<Event>)
    decreases |es|
  {
    if es == [] then false
    else
      var e := es[|es| - 1];
      e.DoConnect? || (!EndsLink(e) && Up(es[..|es| - 1]))
  }

  // How the last attempt ended, until the next one starts.
  datatype Ending = NoEnding | Orderly | Aborted

  function LastEnding(es: seq<Event>): Ending
    decreases |es|
  {
    if es == [] then NoEnding
    else
      match es[|es| - 1]
      case DoClose => Orderly
      case DoAbort => Aborted
      case DoRefuse => NoEnding
      case DoConnect => NoEnding
      case ClearTerminal => NoEnding
      case _ => LastEnding(es[..|es| - 1])
  }

  predicate Tells(e: Event, ending: Ending) {
    if ending == Orderly then e.DoClose? else e.DoAbort? || e.DoConnect?
  }

  // Whether a session that was up has ended in this way since the reader last
  // took its result; a new connect over a session that is up counts as an abort.
  predicate Untold(es: seq<Event>, ending: Ending)
    decreases |es|
  {
    if es == [] then false
    else
      var before, e := es[..|es| - 1], es[|es| - 1];
      !e.ReaderTakesTerminal? && ((Up(before) && Tells(e, ending)) || Untold(before, ending))
  }

  // How many sessions have ended.
  function Ended(es: seq<Event>): nat
    decreases |es|
  {
    if es == [] then 0
    else
      var before, e := es[..|es| - 1], es[|es| - 1];
      Ended(before) + if Up(before) && (EndsLink(e) || e.DoConnect?) then 1 else 0
  }

  ghost predicate Agrees(l: Link, es: seq<Event>) {
    && l.conn == Up(es)
    && l.orderly == (LastEnding(es) == Orderly) && l.aborted == (LastEnding(es) == Aborted)
    && l.rxOrderly == Untold(es, Orderly) && l.rxAborted == Untold(es, Aborted)
    && l.epoch == Ended(es)
  }

  lemma StepAgrees(s: StreamState, es: seq<Event>, e: Event)
    requires Agrees(s.link, es)
    ensures Agrees(Step(s, e).link, es + [e])
  {
    hide Untold;
    hide Up;
    hide Ended;
    hide LastEnding;
    hide Step;
    UntoldNext(es, e);
    match e
    case DoAdmit(_) => WriterLeavesLink(s, e);
    case DoLoop(_) => WriterLeavesLink(s, e);
    case DoInsert => WriterLeavesLink(s, e);
    case DoLeave => WriterLeavesLink(s, e);
    case _ => LinkAgrees(s, es, e);
  }

  // The writer's sections change neither the supervision state nor what the
  // reader has to be told.
  lemma WriterLeavesLink(s: StreamState, e: Event)
    requires e.DoAdmit? || e.DoLoop? || e.DoInsert? || e.DoLeave?
    ensures
      var l, m := s.link, Step(s, e).link;
      && m.conn == l.conn && m.orderly == l.orderly && m.aborted == l.aborted
      && m.rxOrderly == l.rxOrderly && m.rxAborted == l.rxAborted && m.epoch == l.epoch
  {
  }

  lemma LinkAgrees(s: StreamState, es: seq<Event>, e: Event)
    requires Agrees(s.link, es) && !e.DoAdmit? && !e.DoLoop? && !e.DoInsert? && !e.DoLeave?
    ensures Agrees(Step(s, e).link, es + [e])
  {
    hide Untold;
    hide Up;
    hide Ended;
    hide LastEnding;
    UntoldNext(es, e);
  }

  lemma UntoldNext(es: seq<Event>, e: Event)
    ensures Up(es + [e]) == (e.DoConnect? || (!EndsLink(e) && Up(es)))
    ensures forall k ::
      Untold(es + [e], k) == (!e.ReaderTakesTerminal? && ((Up(es) && Tells(e, k)) || Untold(es, k)))
    ensures Ended(es + [e]) == Ended(es) + if Up(es) && (EndsLink(e) || e.DoConnect?) then 1 else 0
    ensures LastEnding(es + [e]) ==
      if e.DoClose? then Orderly else if e.DoAbort? then Aborted
      else if e.DoRefuse? || e.DoConnect? || e.ClearTerminal? then NoEnding else LastEnding(es)
  {
    assert (es + [e])[..|es|] == es;
  }

  lemma {:induction false} RunAgrees(es: seq<Event>)
    ensures Agrees(Run(Start, es).link, es)
    decreases |es|
  {
    hide Step;
    hide Agrees;
    if es == [] {
      StartAgrees();
    } else {
      var n := |es| - 1;
      RunAgrees(es[..n]);
      assert es == es[..n] + [es[n]];
      RunSnoc(es[..n], es[n]);
      StepAgrees(Run(Start, es[..n]), es[..n], es[n]);
    }
  }

  lemma RunSnoc(es: seq<Event>, e: Event)
    ensures Run(Start, es + [e]) == Step(Run(Start, es), e)
  {
    hide Step;
    RunConcat(Start, es, [e]);
    var s := Run(Start, es);
    assert [e][1..] == [];
    assert Run(s, [e]) == Run(Step(s, e), []);
  }

  lemma StartAgrees()
    ensures Agrees(Start.link, [])
  {
  }

  // In every run the supervision state says exactly what the link events did; an
  // end, whichever it is, empties the queues, except a refusal, which leaves them
  // for the next connect.
  lemma ReaderLearnsTheEnd(es: seq<Event>, e: Event)
    ensures
      var s := Run(Start, es);
      var t := Step(s, e).link;
      && Agrees(s.link, es)
      && (e.DoClose? || e.DoAbort? || e.DoConnect? ==> t.transQ == [] && t.retransQ == [])
      && (e.DoRefuse? || e.ClearTerminal? || e.ReaderTakesTerminal? ==>
        t.transQ == s.link.transQ && t.retransQ == s.link.retransQ)
  {
    hide Run;
    hide Agrees;
    RunAgrees(es);
  }
}
