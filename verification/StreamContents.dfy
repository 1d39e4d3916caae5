// What the fragments of a stream write carry, whatever link events come between
// the writer's sections.
module StreamContents {
  import opened Bytes
  import opened Stream

  // Everything queued so far, oldest first; the fragments of the call admitted
  // last begin at `mark`.
  datatype History = History(all: seq<Fragment>, mark: nat)

  function Note(s: StreamState, e: Event, h: History): History {
    var t := Step(s, e);
    if e.DoAdmit? && s.writer.Out? && !t.writer.Out? then h.(mark := |h.all|)
    else if e.DoInsert? && |t.link.transQ| > |s.link.transQ| then
      h.(all := h.all + [t.link.transQ[|t.link.transQ| - 1]])
    else h
  }

  function Noted(s: StreamState, es: seq<Event>, h: History): History
    decreases |es|
  {
    if es == [] then h else Noted(Step(s, es[0]), es[1..], Note(s, es[0], h))
  }

  function Joined(fs: seq<Fragment>): Octets {
    if fs == [] then [] else fs[0].data + Joined(fs[1..])
  }

  lemma {:induction false} JoinedAppend(fs: seq<Fragment>, f: Fragment)
    ensures Joined(fs + [f]) == Joined(fs) + f.data
  {
    if fs == [] {
      assert fs + [f] == [f] && [f][1..] == [];
    } else {
      assert (fs + [f])[1..] == fs[1..] + [f];
      JoinedAppend(fs[1..], f);
    }
  }

  function Held(l: Link): seq<Fragment> { l.retransQ + l.transQ }

  // What the sender still holds is the newest part of what was queued.
  ghost predicate HeldIsNewest(l: Link, h: History) {
    |Held(l)| <= |h.all| && Held(l) == h.all[|h.all| - |Held(l)|..]
  }

  ghost predicate CallInv(w: Writer, h: History) {
    && h.mark <= |h.all|
    && (!w.Out? ==>
      && w.done <= |w.data|
      && Joined(h.all[h.mark..]) == w.data[..w.done]
      && (forall i :: h.mark <= i < |h.all| ==> h.all[i].epoch == w.admitted && h.all[i].data != [])
      && (w.Filling? ==> w.size > 0)
      && (w.Leaving? && w.outcome == Complete ==> w.done == |w.data|))
  }

  ghost predicate HistoryInv(s: StreamState, h: History) { HeldIsNewest(s.link, h) && CallInv(s.writer, h) }

  lemma Cleared(l: Link, m: Link, h: History)
    requires HeldIsNewest(l, h) && (Held(m) == [] || Held(m) == Held(l) || (Held(l) != [] && Held(m) == Held(l)[1..]))
    ensures HeldIsNewest(m, h)
  {
  }

  lemma SendHeld(l: Link)
    ensures Held(LinkEvent(l, SendOldest)) == Held(l)
  {
    if l.transQ != [] {
      var rest := l.transQ[1..];
      assert l.transQ == [l.transQ[0]] + rest;
      assert (l.retransQ + [l.transQ[0]]) + rest == l.retransQ + ([l.transQ[0]] + rest);
    }
  }

  lemma AckHeld(l: Link)
    ensures
      var m := LinkEvent(l, AckOldest);
      Held(m) == if l.retransQ == [] then Held(l) else Held(l)[1..]
  {
    if l.retransQ != [] {
      assert l.retransQ[1..] + l.transQ == (l.retransQ + l.transQ)[1..];
    }
  }

  lemma RetransmitHeld(l: Link)
    ensures Held(LinkEvent(l, Retransmit)) == Held(l)
  {
    assert [] + Held(l) == Held(l);
  }

  lemma OtherHeld(l: Link, e: Event)
    requires !e.SendOldest? && !e.AckOldest? && !e.Retransmit?
    ensures Held(LinkEvent(l, e)) == [] || Held(LinkEvent(l, e)) == Held(l)
  {
  }

  lemma LinkEventHeld(l: Link, e: Event, h: History)
    requires HeldIsNewest(l, h)
    ensures HeldIsNewest(LinkEvent(l, e), h)
  {
    hide HeldIsNewest;
    hide LinkEvent;
    match e {
      case SendOldest => SendHeld(l);
      case AckOldest => AckHeld(l);
      case Retransmit => RetransmitHeld(l);
      case _ => OtherHeld(l, e);
    }
    Cleared(l, LinkEvent(l, e), h);
  }

  lemma Appended(l: Link, m: Link, h: History, f: Fragment)
    requires HeldIsNewest(l, h) && Held(m) == Held(l) + [f]
    ensures HeldIsNewest(m, h.(all := h.all + [f]))
  {
  }

  // The fragment queued continues the call where it stands.
  lemma CallContinues(w: Writer, h: History, f: Fragment, v: Writer)
    requires CallInv(w, h) && w.Filling? && w.done + w.size <= |w.data|
    requires f == Fragment(w.data[w.done..w.done + w.size], w.admitted)
    requires
      v == (if w.done + w.size < |w.data| then Looping(w.data, w.done + w.size, w.admitted)
            else Leaving(w.data, w.done + w.size, w.admitted, Complete))
    ensures CallInv(v, h.(all := h.all + [f]))
  {
    var all := h.all + [f];
    assert all[h.mark..] == h.all[h.mark..] + [f];
    JoinedAppend(h.all[h.mark..], f);
    assert w.data[..w.done] + w.data[w.done..w.done + w.size] == w.data[..w.done + w.size];
  }

  lemma InsertNotes(s: StreamState, h: History)
    requires HistoryInv(s, h) && s.writer.Filling? && s.writer.done + s.writer.size <= |s.writer.data|
    ensures HistoryInv(Step(s, DoInsert), Note(s, DoInsert, h))
  {
    hide HeldIsNewest;
    hide CallInv;
    var w, t := s.writer, Step(s, DoInsert);
    if !s.link.txReset && s.link.conn {
      var f := Fragment(w.data[w.done..w.done + w.size], w.admitted);
      assert t.link == s.link.(transQ := s.link.transQ + [f]);
      assert Held(t.link) == Held(s.link) + [f];
      Appended(s.link, t.link, h, f);
      CallContinues(w, h, f, t.writer);
    } else {
      CallLeaves(w, t.writer, h);
    }
  }

  // Leaving without success, and the position of an untouched call, keep what is
  // known of it.
  lemma CallLeaves(w: Writer, v: Writer, h: History)
    requires CallInv(w, h)
    requires v.Out? || (!w.Out? && v.data == w.data && v.done == w.done && v.admitted == w.admitted)
    requires v.Filling? ==> v.size > 0 || v == w
    requires v.Leaving? && v.outcome == Complete ==> v == w
    ensures CallInv(v, h)
  {
  }

  lemma SectionNotes(s: StreamState, e: Event, h: History)
    requires HistoryInv(s, h) && (e.DoLoop? || e.DoLeave?)
    ensures HistoryInv(Step(s, e), Note(s, e, h))
  {
    hide CallInv;
    var t := Step(s, e);
    assert Held(t.link) == Held(s.link);
    CallLeaves(s.writer, t.writer, h);
  }

  lemma AdmitNotes(s: StreamState, data: Octets, h: History)
    requires HistoryInv(s, h)
    ensures HistoryInv(Step(s, DoAdmit(data)), Note(s, DoAdmit(data), h))
  {
    assert h.all[|h.all|..] == [];
  }

  lemma StepNotes(s: StreamState, e: Event, h: History)
    requires HistoryInv(s, h)
    ensures HistoryInv(Step(s, e), Note(s, e, h))
  {
    hide HeldIsNewest;
    hide CallInv;
    match e
    case DoInsert =>
      if s.writer.Filling? && s.writer.done + s.writer.size <= |s.writer.data| { InsertNotes(s, h); }
    case DoAdmit(data) => AdmitNotes(s, data, h);
    case DoLoop(_) => SectionNotes(s, e, h);
    case DoLeave => SectionNotes(s, e, h);
    case _ => LinkEventHeld(s.link, e, h);
  }

  lemma {:induction false} RunNotes(s: StreamState, es: seq<Event>, h: History)
    requires HistoryInv(s, h)
    ensures HistoryInv(Run(s, es), Noted(s, es, h))
    decreases |es|
  {
    hide Step;
    hide Note;
    hide HistoryInv;
    if es != [] {
      StepNotes(s, es[0], h);
      RunNotes(Step(s, es[0]), es[1..], Note(s, es[0], h));
    }
  }

  // In every run: what the admitted call has queued is the beginning of its data,
  // in order and without gap or repetition; a call that ends with success has
  // queued exactly its data; and the queues hold, in order, the newest of what was
  // queued.
  lemma QueuedIsWritten(es: seq<Event>)
    ensures
      var s, h := Run(Start, es), Noted(Start, es, History([], 0));
      && h.mark <= |h.all|
      && (!s.writer.Out? ==>
        && s.writer.done <= |s.writer.data|
        && Joined(h.all[h.mark..]) == s.writer.data[..s.writer.done]
        && forall i :: h.mark <= i < |h.all| ==> h.all[i].epoch == s.writer.admitted && h.all[i].data != [])
      && (s.writer.Leaving? && FinalOutcome(s) == Complete ==> Joined(h.all[h.mark..]) == s.writer.data)
      && HeldIsNewest(s.link, h)
  {
    hide Run;
    hide Noted;
    RunNotes(Start, es, History([], 0));
  }

  // The sections do their part: while the session that admitted the call is up it
  // goes on, and each section after it ended makes the call leave with a reset.
  ghost predicate Proceeds(s: StreamState, e: Event, t: StreamState)
    requires !s.writer.Out? && (e.DoInsert? ==> s.writer.Filling?)
  {
    var w, up := s.writer, s.link.conn && s.link.epoch == s.writer.admitted;
    match e
    case DoLoop(env) =>
      t.link == s.link && t.writer ==
        (if !up then Leaving(w.data, w.done, w.admitted, Reset)
         else if env.ready && env.frameFree && 0 < env.size <= |w.data| - w.done
         then Filling(w.data, w.done, w.admitted, env.size)
         else if !env.ready && env.timedOut then Leaving(w.data, w.done, w.admitted, TimedOut)
         else w)
    case DoInsert =>
      if !up then t.writer == Leaving(w.data, w.done, w.admitted, Reset) && t.link == s.link
      else
        && !t.writer.Out? && t.writer.data == w.data && t.writer.done == w.done + w.size
        && |t.link.transQ| == |s.link.transQ| + 1
        && (if t.writer.done < |w.data| then t.writer.Looping? else t.writer.Leaving? && t.writer.outcome == Complete)
    case _ => true
  }

  lemma WriterProceeds(es: seq<Event>, e: Event)
    ensures
      var s := Run(Start, es);
      && (s.writer.Looping? && e.DoLoop? ==> Proceeds(s, e, Step(s, e)))
      && (s.writer.Filling? && e.DoInsert? ==> Proceeds(s, e, Step(s, e)))
      && (s.writer.Out? && e.DoAdmit? ==>
        Step(s, e).writer == if e.data != [] && s.link.conn then Looping(e.data, 0, s.link.epoch) else Out)
      && (s.writer.Leaving? && e.DoLeave? ==> Step(s, e).writer.Out?)
  {
    hide Run;
    hide QueuesOfSession;
    StartInv();
    RunKeepsInv(Start, es);
  }
}
