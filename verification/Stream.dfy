// A logical stream write against the link events of its peer.  Every section
// the code runs under the peer's mutex is one step; a writer may be overtaken
// by any number of link events between two of its sections.
module Stream {
  import opened Bytes

  // `epoch` counts how often the link has left the connected state: it names
  // the session.  A queued fragment carries the epoch its writer was admitted in.
  datatype Fragment = Fragment(data: Octets, epoch: nat)

  // The peer's supervision state and queues, as far as the stream uses them.
  datatype Link = Link(
    conn: bool, sending: bool, orderly: bool, aborted: bool,
    rxOrderly: bool, rxAborted: bool, txReset: bool,
    transQ: seq<Fragment>, retransQ: seq<Fragment>, epoch: nat)

  datatype Outcome = Complete | Partial | TimedOut | Reset | NotConnected

  // Where the admitted writer is: between sections, filling a frame of `size`
  // octets, or on its way to the closing section.  `done` octets are queued.
  datatype Writer =
    | Out
    | Looping(data: Octets, done: nat, admitted: nat)
    | Filling(data: Octets, done: nat, admitted: nat, size: nat)
    | Leaving(data: Octets, done: nat, admitted: nat, outcome: Outcome)

  datatype StreamState = StreamState(link: Link, writer: Writer)

  // --- Link events ---------------------------------------------------------------

  function SetDisconnected(l: Link, orderly: bool, aborted: bool): Link {
    l.(conn := false, orderly := orderly, aborted := aborted,
       rxOrderly := l.rxOrderly || (l.conn && orderly),
       rxAborted := l.rxAborted || (l.conn && aborted),
       txReset := l.txReset || (l.conn && l.sending),
       epoch := if l.conn then l.epoch + 1 else l.epoch)
  }

  function ClearTxQueues(l: Link): Link { l.(transQ := [], retransQ := []) }

  function ClosePeerOrderly(l: Link): Link { SetDisconnected(ClearTxQueues(l), true, false) }

  function AbortPeerLink(l: Link): Link { SetDisconnected(ClearTxQueues(l), false, true) }

  // DM in answer to a mode-setting command: the queues are left alone.
  function LinkRefused(l: Link): Link { SetDisconnected(l, false, false) }

  function ResetPeerVars(l: Link): Link {
    ClearTxQueues(l).(
      conn := false, sending := false, orderly := false, aborted := false,
      rxAborted := l.rxAborted || l.conn,
      txReset := l.txReset || (l.conn && l.sending),
      epoch := if l.conn then l.epoch + 1 else l.epoch)
  }

  // Both ways a link comes up reset the peer first.
  function Connect(l: Link): Link {
    ResetPeerVars(l).(conn := true, orderly := false, aborted := false)
  }

  // --- The writer's sections -------------------------------------------------------

  function Admit(s: StreamState, data: Octets): StreamState
    requires s.writer.Out?
  {
    if data == [] || !s.link.conn then s
    else StreamState(s.link.(sending := true), Looping(data, 0, s.link.epoch))
  }

  // Nothing to write returns at once; a disconnected link is ENOTCONN.

  // The section at the head of the write loop.  `ready` says that flow control
  // lets the writer go on, `timedOut` that its deadline has passed, `frameFree`
  // that the pool has a frame; `size` is the length of the next fragment.
  datatype WriteEnv = WriteEnv(ready: bool, timedOut: bool, frameFree: bool, size: nat)

  function LoopSection(s: StreamState, env: WriteEnv): StreamState
    requires s.writer.Looping?
  {
    var w := s.writer;
    if s.link.txReset then s.(writer := Leaving(w.data, w.done, w.admitted, Reset))
    else if !s.link.conn then s.(writer := Leaving(w.data, w.done, w.admitted, Partial))
    else if !env.ready then
      (if env.timedOut then s.(writer := Leaving(w.data, w.done, w.admitted, TimedOut)) else s)
    else if env.frameFree && 0 < env.size <= |w.data| - w.done
    then s.(writer := Filling(w.data, w.done, w.admitted, env.size))
    else s
  }

  function InsertSection(s: StreamState): StreamState
    requires s.writer.Filling? && s.writer.done + s.writer.size <= |s.writer.data|
  {
    var w := s.writer;
    if s.link.txReset || !s.link.conn
    then s.(writer := Leaving(w.data, w.done, w.admitted, if s.link.txReset then Reset else NotConnected))
    else
      var next := w.done + w.size;
      StreamState(s.link.(transQ := s.link.transQ + [Fragment(w.data[w.done..next], w.admitted)]),
            if next < |w.data| then Looping(w.data, next, w.admitted)
            else Leaving(w.data, next, w.admitted, Complete))
  }

  function FinalOutcome(s: StreamState): Outcome
    requires s.writer.Leaving?
  {
    if s.link.txReset then Reset else s.writer.outcome
  }

  function LeaveSection(s: StreamState): StreamState
    requires s.writer.Leaving?
  {
    StreamState(s.link.(txReset := false, sending := false), Out)
  }

  // --- Runs ----------------------------------------------------------------------------

  datatype Event =
    | DoConnect | DoClose | DoAbort | DoRefuse
    | ClearTerminal        // a link API call starts a new attempt
    | ReaderTakesTerminal
    | SendOldest | AckOldest | Retransmit
    | DoAdmit(data: Octets) | DoLoop(env: WriteEnv) | DoInsert | DoLeave

  function LinkEvent(l: Link, e: Event): Link {
    match e
    case DoConnect => Connect(l)
    case DoClose => ClosePeerOrderly(l)
    case DoAbort => AbortPeerLink(l)
    case DoRefuse => LinkRefused(l)
    case ClearTerminal => l.(orderly := false, aborted := false)
    case ReaderTakesTerminal => l.(rxOrderly := false, rxAborted := false)
    case SendOldest =>
      if l.transQ == [] then l else l.(transQ := l.transQ[1..], retransQ := l.retransQ + [l.transQ[0]])
    case AckOldest => if l.retransQ == [] then l else l.(retransQ := l.retransQ[1..])
    case Retransmit => l.(transQ := l.retransQ + l.transQ, retransQ := [])
    case _ => l
  }

  // A writer event that does not fit the writer's position changes nothing.
  function Step(s: StreamState, e: Event): StreamState {
    match e
    case DoAdmit(data) => if s.writer.Out? then Admit(s, data) else s
    case DoLoop(env) => if s.writer.Looping? then LoopSection(s, env) else s
    case DoInsert =>
      if s.writer.Filling? && s.writer.done + s.writer.size <= |s.writer.data| then InsertSection(s) else s
    case DoLeave => if s.writer.Leaving? then LeaveSection(s) else s
    case _ => s.(link := LinkEvent(s.link, e))
  }

  function Run(s: StreamState, es: seq<Event>): StreamState
    decreases |es|
  {
    if es == [] then s else Run(Step(s, es[0]), es[1..])
  }

  const Start := StreamState(Link(false, false, false, false, false, false, false, [], [], 0), Out)

  // --- What every run keeps --------------------------------------------------------------

  ghost predicate OfEpoch(l: Link, epoch: int) {
    && (forall f :: f in l.transQ ==> f.epoch == epoch)
    && (forall f :: f in l.retransQ ==> f.epoch == epoch)
  }

  // Queued fragments belong to the session that is up, or to the last one while
  // the link is down with its queues not yet cleared.
  ghost predicate QueuesOfSession(l: Link) {
    OfEpoch(l, if l.conn then l.epoch else l.epoch - 1)
  }

  ghost predicate WriterInv(l: Link, w: Writer) {
    if w.Out? then !l.sending && !l.txReset
    else
      && w.admitted <= l.epoch
      && w.done <= |w.data|
      // the reset is pending exactly when a session boundary was crossed
      && (l.txReset <==> l.epoch != w.admitted)
      && (!l.txReset ==> l.conn && l.sending)
      && (w.Looping? ==> w.done < |w.data|)
      && (w.Filling? ==> 0 < w.size <= |w.data| - w.done)
      && (w.Leaving? ==>
        && w.outcome != Partial && w.outcome != NotConnected
        && (w.outcome == Complete ==> w.done == |w.data|)
        && (w.outcome == Reset ==> l.txReset))
  }

  ghost predicate Inv(s: StreamState) { QueuesOfSession(s.link) && WriterInv(s.link, s.writer) }

  lemma LinkEventKeepsInv(s: StreamState, e: Event)
    requires Inv(s)
    ensures Inv(s.(link := LinkEvent(s.link, e)))
  {
    LinkEventQueues(s.link, e);
    LinkEventWriter(s.link, s.writer, e);
  }

  lemma LinkEventWriter(l: Link, w: Writer, e: Event)
    requires WriterInv(l, w)
    ensures WriterInv(LinkEvent(l, e), w)
  {
  }

  lemma LinkEventQueues(l: Link, e: Event)
    requires QueuesOfSession(l)
    ensures QueuesOfSession(LinkEvent(l, e))
  {
  }

  lemma WriterStepKeepsInv(s: StreamState, e: Event)
    requires Inv(s)
    ensures Inv(Step(s, e))
  {
    match e
    case DoInsert =>
      if s.writer.Filling? {
        var l, m := s.link, Step(s, e).link;
        if l.conn && !l.txReset {
          AppendKeepsQueues(l, s.writer.data[s.writer.done..s.writer.done + s.writer.size]);
        }
      }
    case DoAdmit(_) =>
    case DoLoop(_) =>
    case DoLeave =>
    case _ => LinkEventKeepsInv(s, e);
  }

  lemma AppendKeepsQueues(l: Link, data: Octets)
    requires QueuesOfSession(l) && l.conn
    ensures QueuesOfSession(l.(transQ := l.transQ + [Fragment(data, l.epoch)]))
  {
  }

  lemma {:induction false} RunKeepsInv(s: StreamState, es: seq<Event>)
    requires Inv(s)
    ensures Inv(Run(s, es))
    decreases |es|
  {
    hide Inv;
    hide Step;
    if es != [] {
      WriterStepKeepsInv(s, es[0]);
      RunKeepsInv(Step(s, es[0]), es[1..]);
    }
  }

  // --- The theorems --------------------------------------------------------------------------

  // In every run: no stale reset is pending when a writer is admitted, the
  // writer never meets a disconnected link without a reset, and while a session
  // is up every queued fragment is of a call admitted in that session.
  lemma WriteStaysInItsSession(es: seq<Event>)
    ensures
      var s := Run(Start, es);
      && (s.writer.Out? ==> !s.link.txReset)
      && (!s.writer.Out? && !s.link.txReset ==> s.link.conn && s.writer.admitted == s.link.epoch)
      && (s.link.conn ==> forall f :: f in s.link.transQ + s.link.retransQ ==> f.epoch == s.link.epoch)
  {
    hide Run;
    StartInv();
    RunKeepsInv(Start, es);
    var l := Run(Start, es).link;
    forall f | l.conn && f in l.transQ + l.retransQ ensures f.epoch == l.epoch {
    }
  }

  lemma StartInv()
    ensures Inv(Start)
  {
  }

  // A link that has just come up has nothing queued, whatever happened before.
  lemma NothingSurvivesConnect(es: seq<Event>)
    ensures
      var l := Run(Start, es + [DoConnect]).link;
      l.conn && l.transQ == [] && l.retransQ == []
  {
    RunConcat(Start, es, [DoConnect]);
    assert Run(Run(Start, es), [DoConnect]) == Run(Step(Run(Start, es), DoConnect), [DoConnect][1..]);
    assert [DoConnect][1..] == [];
  }

  lemma {:induction false} RunConcat(s: StreamState, es: seq<Event>, fs: seq<Event>)
    ensures Run(s, es + fs) == Run(Run(s, es), fs)
    decreases |es|
  {
    hide Step;
    if es == [] {
      assert es + fs == fs;
    } else {
      assert (es + fs)[1..] == es[1..] + fs;
      RunConcat(Step(s, es[0]), es[1..], fs);
    }
  }

  // How a call ends: ECONNRESET exactly when the session that admitted it ended
  // before it left, success only with everything queued in the session still
  // up.  The outcomes for a disconnected link without a reset never happen.
  lemma OutcomeTellsBoundary(es: seq<Event>)
    requires Run(Start, es).writer.Leaving?
    ensures
      var s := Run(Start, es);
      var o := FinalOutcome(s);
      && (o == Reset <==> s.link.epoch != s.writer.admitted)
      && (o == Complete ==> s.writer.done == |s.writer.data| && s.link.conn && s.link.epoch == s.writer.admitted)
      && o != Partial && o != NotConnected
  {
    hide Run;
    StartInv();
    RunKeepsInv(Start, es);
  }

  // --- The code's sections in place --------------------------------------------------------------

  class StreamPeer {
    var conn: bool
    var sending: bool
    var orderly: bool
    var aborted: bool
    var rxOrderly: bool
    var rxAborted: bool
    var txReset: bool
    var transQ: seq<Fragment>
    var retransQ: seq<Fragment>
    var epoch: nat             // history only: no branch depends on it
    var writer: Writer

    ghost function LinkView(): Link
      reads this
    {
      Link(conn, sending, orderly, aborted, rxOrderly, rxAborted, txReset, transQ, retransQ, epoch)
    }

    ghost function View(): StreamState
      reads this
    {
      StreamState(LinkView(), writer)
    }

    constructor ()
      ensures View() == Start
    {
      conn, sending, orderly, aborted := false, false, false, false;
      rxOrderly, rxAborted, txReset := false, false, false;
      transQ, retransQ, epoch, writer := [], [], 0, Out;
    }

    // The terminal results that outlive the session, for reader and writer.
    method EndSession(termOrderly: bool, termAborted: bool)
      modifies this`rxOrderly, this`rxAborted, this`txReset, this`epoch
      ensures rxOrderly == (old(rxOrderly) || termOrderly) && rxAborted == (old(rxAborted) || termAborted)
      ensures txReset == (old(txReset) || sending) && epoch == old(epoch) + 1
    {
      rxOrderly, rxAborted := rxOrderly || termOrderly, rxAborted || termAborted;
      if sending {
        txReset := true;
      }
      epoch := epoch + 1;
    }

    method SetDisconnectedWith(termOrderly: bool, termAborted: bool)
      modifies this
      ensures LinkView() == SetDisconnected(old(LinkView()), termOrderly, termAborted)
      ensures writer == old(writer)
    {
      if conn {
        EndSession(termOrderly, termAborted);
      }
      conn, orderly, aborted := false, termOrderly, termAborted;
    }

    method SetConnected()
      modifies this
      ensures LinkView() == old(LinkView()).(conn := true, orderly := false, aborted := false)
      ensures writer == old(writer)
    {
      orderly, aborted, conn := false, false, true;
    }

    method ClearQueues()
      modifies this`transQ, this`retransQ
      ensures transQ == [] && retransQ == []
    {
      while retransQ != []
        invariant transQ == old(transQ)
        decreases |retransQ|
      {
        retransQ := retransQ[1..];
      }
      while transQ != []
        invariant retransQ == []
        decreases |transQ|
      {
        transQ := transQ[1..];
      }
    }

    method CloseOrderly()
      modifies this
      ensures View() == Step(old(View()), DoClose)
    {
      ClearQueues();
      SetDisconnectedWith(true, false);
    }

    method AbortLink()
      modifies this
      ensures View() == Step(old(View()), DoAbort)
    {
      ClearQueues();
      SetDisconnectedWith(false, true);
    }

    method ResetVars()
      modifies this
      ensures LinkView() == ResetPeerVars(old(LinkView())) && writer == old(writer)
    {
      if conn {
        EndSession(false, true);
      }
      conn, sending, orderly, aborted := false, false, false, false;
      ClearQueues();
    }

    // A mode-setting command or its acknowledgment.
    method ModeSet()
      modifies this
      ensures View() == Step(old(View()), DoConnect)
    {
      ResetVars();
      SetConnected();
    }

    // ENOTCONN leaves the peer as it was; the assertion is the code's own.
    method AdmitWriter(data: Octets) returns (admitted: bool)
      requires Inv(View()) && writer.Out?
      modifies this
      ensures View() == Step(old(View()), DoAdmit(data))
      ensures admitted <==> writer.Looping?
    {
      if data == [] || !conn {
        return false;
      }
      assert !txReset;
      sending := true;
      writer := Looping(data, 0, epoch);
      return true;
    }

    // The section at the head of the write loop.
    method LoopHead(env: WriteEnv)
      requires writer.Looping?
      modifies this`writer
      ensures View() == Step(old(View()), DoLoop(env))
      ensures old(Inv(View())) ==>
        (writer.Leaving? && writer.outcome == Reset <==> old(epoch) != old(writer).admitted)
    {
      var w := writer;
      if txReset {
        writer := Leaving(w.data, w.done, w.admitted, Reset);
      } else if !conn {
        writer := Leaving(w.data, w.done, w.admitted, Partial);
      } else if !env.ready {
        if env.timedOut {
          writer := Leaving(w.data, w.done, w.admitted, TimedOut);
        }
      } else if env.frameFree && 0 < env.size <= |w.data| - w.done {
        writer := Filling(w.data, w.done, w.admitted, env.size);
      }
    }

    method Insert()
      requires Inv(View()) && writer.Filling?
      modifies this
      ensures View() == Step(old(View()), DoInsert)
    {
      var w := writer;
      if txReset || !conn {
        writer := Leaving(w.data, w.done, w.admitted, if txReset then Reset else NotConnected);
        return;
      }
      var next := w.done + w.size;
      transQ := transQ + [Fragment(w.data[w.done..next], w.admitted)];
      writer :=
        if next < |w.data| then Looping(w.data, next, w.admitted) else Leaving(w.data, next, w.admitted, Complete);
    }

    method Leave() returns (outcome: Outcome)
      requires Inv(View()) && writer.Leaving?
      modifies this
      ensures View() == Step(old(View()), DoLeave)
      ensures outcome == FinalOutcome(old(View()))
      ensures outcome == Reset <==> old(epoch) != old(writer).admitted
    {
      outcome := writer.outcome;
      if txReset {
        txReset := false;
        outcome := Reset;
      }
      sending := false;
      writer := Out;
    }
  }
}
