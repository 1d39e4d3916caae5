// The transmit pipeline of the software driver: frames accepted by the driver
// wait in a queue, at most one is with the port, a gate per frame keeps its
// buffer from being reused meanwhile, and the driver's reference to it is given
// back when it completes, fails or is aborted.
module TxPipeline {
  import opened Wrappers

  // One acceptance of a frame; tickets number the acceptances.
  datatype Job = Job(frame: nat, ticket: nat)

  // `claimed` are the frames a sender is preparing.  `started`, `released` and
  // `next` are history: tickets handed to the port, tickets whose reference was
  // given back, and the next ticket.
  datatype Pipe = Pipe(
    rawQ: seq<Job>, inflight: Option<Job>, gates: set<nat>, held: multiset<nat>, claimed: set<nat>,
    started: seq<nat>, released: seq<nat>, next: nat)

  // What the port says during one section: whether it is busy before a frame is
  // submitted, whether it takes the frame, and whether it is busy afterwards.
  datatype Port = Port(busy: bool, takes: bool, busyAfter: bool)

  const Empty := Pipe([], None, {}, multiset{}, {}, [], [], 0)

  // --- The sections ----------------------------------------------------------------

  // A job is over: gate and reference go back.
  function Finish(p: Pipe, j: Job): Pipe {
    p.(gates := p.gates - {j.frame}, held := p.held - multiset{j.frame}, released := p.released + [j.ticket])
  }

  function TryStart(p: Pipe, port: Port): Pipe {
    if p.inflight.Some? || p.rawQ == [] || port.busy then p
    else
      var j := p.rawQ[0];
      if port.takes
      then p.(rawQ := p.rawQ[1..], inflight := Some(j), started := p.started + [j.ticket])
      else if port.busyAfter then p
      else Finish(p.(rawQ := p.rawQ[1..]), j)
  }

  // A sender takes the gate of a frame; EBUSY if it is taken.
  function Claim(p: Pipe, frame: nat): Pipe {
    if frame in p.gates then p else p.(gates := p.gates + {frame}, claimed := p.claimed + {frame})
  }

  // Preparation failed.
  function Unclaim(p: Pipe, frame: nat): Pipe {
    if frame !in p.claimed then p
    else p.(gates := p.gates - {frame}, claimed := p.claimed - {frame})
  }

  // With transparency the job is a second frame, fresh from the pool.
  function Replace(p: Pipe, frame: nat, encoded: nat): Pipe {
    if frame !in p.claimed || encoded in p.gates then p
    else p.(gates := p.gates - {frame} + {encoded}, claimed := p.claimed - {frame} + {encoded})
  }

  // The prepared frame enters the pipeline with a reference of the driver.
  function Accepted(p: Pipe, frame: nat): (Pipe, Job) {
    var j := Job(frame, p.next);
    (p.(held := p.held + multiset{frame}, claimed := p.claimed - {frame}, next := p.next + 1), j)
  }

  function Commit(p: Pipe, frame: nat, port: Port, later: Port): Pipe {
    if frame !in p.claimed then p
    else
      var (q, j) := Accepted(p, frame);
      if !port.busy && q.inflight.None? && q.rawQ == [] then
        if port.takes then q.(inflight := Some(j), started := q.started + [j.ticket])
        else if port.busyAfter then q.(rawQ := [j])
        else Finish(q, j)
      else TryStart(q.(rawQ := q.rawQ + [j]), later)
  }

  function Done(p: Pipe, port: Port): Pipe {
    match p.inflight
    case None => p
    case Some(j) => TryStart(Finish(p.(inflight := None), j), port)
  }

  function DrainQueue(p: Pipe): Pipe
    decreases |p.rawQ|
  {
    if p.rawQ == [] then p else DrainQueue(Finish(p.(rawQ := p.rawQ[1..]), p.rawQ[0]))
  }

  function Abort(p: Pipe): Pipe {
    DrainQueue(if p.inflight.Some? then Finish(p.(inflight := None), p.inflight.value) else p)
  }

  datatype Event =
    | DoClaim(frame: nat) | DoUnclaim(frame: nat) | DoReplace(frame: nat, encoded: nat)
    | DoCommit(frame: nat, port: Port, later: Port)
    | TxDone(port: Port)   // the port reports the frame it has
    | TxReady(port: Port)
    | TxError

  function Step(p: Pipe, e: Event): Pipe {
    match e
    case DoClaim(f) => Claim(p, f)
    case DoUnclaim(f) => Unclaim(p, f)
    case DoReplace(f, g) => Replace(p, f, g)
    case DoCommit(f, port, later) => Commit(p, f, port, later)
    case TxDone(port) => Done(p, port)
    case TxReady(port) => TryStart(p, port)
    case TxError => Abort(p)
  }

  function Run(p: Pipe, es: seq<Event>): Pipe
    decreases |es|
  {
    if es == [] then p else Run(Step(p, es[0]), es[1..])
  }

  // --- The invariant ---------------------------------------------------------------------

  // The jobs in the pipeline, oldest first.
  function Jobs(p: Pipe): seq<Job> {
    (if p.inflight.Some? then [p.inflight.value] else []) + p.rawQ
  }

  function FramesOf(js: seq<Job>): multiset<nat> {
    if js == [] then multiset{} else multiset{js[0].frame} + FramesOf(js[1..])
  }

  ghost predicate Increasing(js: seq<Job>) {
    forall i, j :: 0 <= i < j < |js| ==> js[i].ticket < js[j].ticket
  }

  ghost predicate IncreasingTickets(ts: seq<nat>) {
    forall i, j :: 0 <= i < j < |ts| ==> ts[i] < ts[j]
  }

  // Gates and references: a gate is taken exactly for the frames being prepared
  // and those in the pipeline, all different; the driver has one reference to
  // each of the latter.
  ghost predicate GateInv(p: Pipe) {
    && p.held == FramesOf(Jobs(p))
    && (forall f :: p.held[f] <= 1)
    && (forall f :: f in p.gates <==> f in p.claimed || f in p.held)
    && (forall f :: f in p.claimed ==> f !in p.held)
  }

  // Order: the queue is in ticket order behind everything ever started.
  ghost predicate OrderInv(p: Pipe) {
    && Increasing(Jobs(p))
    && IncreasingTickets(p.started)
    && (forall j :: j in Jobs(p) ==> j.ticket < p.next)
    && (forall t :: t in p.started ==> t < p.next && forall j :: j in p.rawQ ==> t < j.ticket)
    && (p.inflight.Some? ==> p.started != [] && p.started[|p.started| - 1] == p.inflight.value.ticket)
  }

  ghost predicate InPipe(p: Pipe, t: nat) { exists j :: j in Jobs(p) && j.ticket == t }

  // Accounting: each ticket is in the pipeline or was released, once, not both.
  ghost predicate CountInv(p: Pipe) {
    && (forall t :: t in p.released ==> t < p.next && !InPipe(p, t))
    && (forall t :: 0 <= t < p.next ==> t in p.released || InPipe(p, t))
    && (forall i, j :: 0 <= i < j < |p.released| ==> p.released[i] != p.released[j])
    && (forall t :: t in p.started ==> t in p.released || (p.inflight.Some? && p.inflight.value.ticket == t))
  }

  ghost predicate Inv(p: Pipe) { GateInv(p) && OrderInv(p) && CountInv(p) }

  // --- How the jobs change -------------------------------------------------------------------

  lemma FramesOfAppend(js: seq<Job>, j: Job)
    ensures FramesOf(js + [j]) == FramesOf(js) + multiset{j.frame}
    decreases |js|
  {
    if js == [] {
      assert js + [j] == [j] && [j][1..] == [];
    } else {
      assert (js + [j])[1..] == js[1..] + [j];
      FramesOfAppend(js[1..], j);
    }
  }

  // The first job leaves the pipeline.
  lemma FinishKeepsInv(p: Pipe, q: Pipe, j: Job)
    requires Inv(p) && Jobs(p) == [j] + Jobs(q)
    requires q.inflight.None? && (p.inflight.Some? ==> p.inflight.value == j)
    requires q == p.(inflight := None, rawQ := q.rawQ)
    ensures Inv(Finish(q, j))
  {
    hide GateInv;
    hide OrderInv;
    hide CountInv;
    FinishGates(p, q, j);
    FinishOrder(p, q, j);
    FinishCount(p, q, j);
  }

  lemma FinishGates(p: Pipe, q: Pipe, j: Job)
    requires GateInv(p) && Jobs(p) == [j] + Jobs(q) && q == p.(inflight := None, rawQ := q.rawQ)
    ensures GateInv(Finish(q, j))
  {
    assert Jobs(p)[1..] == Jobs(q);
    assert p.held == multiset{j.frame} + FramesOf(Jobs(q));
    assert Jobs(Finish(q, j)) == Jobs(q);
    assert Finish(q, j).held == FramesOf(Jobs(q));
  }

  lemma FinishOrder(p: Pipe, q: Pipe, j: Job)
    requires OrderInv(p) && Jobs(p) == [j] + Jobs(q) && q == p.(inflight := None, rawQ := q.rawQ)
    requires p.inflight.Some? ==> p.inflight.value == j
    ensures OrderInv(Finish(q, j))
  {
    var r := Finish(q, j);
    assert Jobs(r) == q.rawQ;
    assert forall i :: 0 <= i < |q.rawQ| ==> Jobs(p)[i + 1] == q.rawQ[i];
    forall k | k in q.rawQ ensures k in Jobs(p) && (p.rawQ == q.rawQ || k in p.rawQ) {
      assert k in Jobs(p);
    }
  }

  lemma FinishCount(p: Pipe, q: Pipe, j: Job)
    requires CountInv(p) && OrderInv(p) && Jobs(p) == [j] + Jobs(q) && q == p.(inflight := None, rawQ := q.rawQ)
    requires p.inflight.Some? ==> p.inflight.value == j
    ensures CountInv(Finish(q, j))
  {
    var r := Finish(q, j);
    assert Jobs(r) == Jobs(q);
    assert j in Jobs(p);
    assert InPipe(p, j.ticket);
    forall t ensures InPipe(p, t) <==> t == j.ticket || InPipe(r, t) {
      if InPipe(p, t) {
        var k :| k in Jobs(p) && k.ticket == t;
        assert k == j || k in Jobs(r);
      }
      if InPipe(r, t) {
        var k :| k in Jobs(r) && k.ticket == t;
        assert k in Jobs(p);
      }
    }
    forall k | k in Jobs(r) ensures k.ticket != j.ticket {
      var i :| 0 <= i < |Jobs(r)| && Jobs(r)[i] == k;
      assert Jobs(p)[i + 1] == k && Jobs(p)[0] == j;
    }
    assert forall t :: t in r.released <==> t in p.released || t == j.ticket;
  }

  // The head of the queue goes to the port.
  function Start(p: Pipe): Pipe
    requires p.rawQ != []
  {
    var j := p.rawQ[0];
    p.(rawQ := p.rawQ[1..], inflight := Some(j), started := p.started + [j.ticket])
  }

  lemma StartKeepsInv(p: Pipe)
    requires Inv(p) && p.inflight.None? && p.rawQ != []
    ensures Inv(Start(p))
  {
    hide GateInv;
    hide OrderInv;
    hide CountInv;
    hide Jobs;
    hide Start;
    StartJobs(p);
    StartOrder(p);
    SameJobsGates(p, Start(p));
    StartCount(p);
  }

  lemma StartJobs(p: Pipe)
    requires p.inflight.None? && p.rawQ != []
    ensures Jobs(Start(p)) == Jobs(p)
    ensures Start(p).gates == p.gates && Start(p).held == p.held && Start(p).claimed == p.claimed
  {
  }

  lemma SameJobsGates(p: Pipe, q: Pipe)
    requires GateInv(p) && Jobs(q) == Jobs(p)
    requires q.gates == p.gates && q.held == p.held && q.claimed == p.claimed
    ensures GateInv(q)
  {
    hide Jobs;
  }

  lemma StartOrder(p: Pipe)
    requires OrderInv(p) && p.inflight.None? && p.rawQ != []
    ensures OrderInv(Start(p))
  {
    hide Start;
    hide Jobs;
    hide Increasing;
    hide IncreasingTickets;
    StartJobs(p);
    StartFields(p);
    HeadIsFirst(p);
    AppendIncreasing(p.started, p.rawQ[0].ticket);
  }

  lemma HeadIsFirst(p: Pipe)
    requires p.inflight.None? && p.rawQ != [] && Increasing(Jobs(p))
    ensures p.rawQ[0] in Jobs(p) && p.rawQ[0] in p.rawQ
    ensures forall k :: k in p.rawQ[1..] ==> k in p.rawQ && p.rawQ[0].ticket < k.ticket
  {
    assert Jobs(p) == p.rawQ;
    forall k | k in p.rawQ[1..] ensures k in p.rawQ && p.rawQ[0].ticket < k.ticket {
      var i :| 0 <= i < |p.rawQ[1..]| && p.rawQ[1..][i] == k;
      assert p.rawQ[i + 1] == k;
    }
  }

  lemma StartFields(p: Pipe)
    requires p.rawQ != []
    ensures
      var q, j := Start(p), p.rawQ[0];
      q.rawQ == p.rawQ[1..] && q.started == p.started + [j.ticket] && q.next == p.next
      && q.inflight == Some(j) && q.released == p.released
  {
  }

  lemma AppendIncreasing(ts: seq<nat>, t: nat)
    requires IncreasingTickets(ts) && forall x :: x in ts ==> x < t
    ensures IncreasingTickets(ts + [t])
  {
    forall i, j | 0 <= i < j < |ts| + 1 ensures (ts + [t])[i] < (ts + [t])[j] {
      assert ts[i] in ts;
    }
  }

  lemma SameJobsInPipe(p: Pipe, q: Pipe, t: nat)
    requires Jobs(p) == Jobs(q)
    ensures InPipe(p, t) <==> InPipe(q, t)
  {
    hide Jobs;
  }

  lemma StartCount(p: Pipe)
    requires CountInv(p) && p.inflight.None? && p.rawQ != []
    ensures CountInv(Start(p))
  {
    hide InPipe;
    hide Jobs;
    hide Start;
    StartJobs(p);
    StartFields(p);
    forall t: nat ensures InPipe(Start(p), t) <==> InPipe(p, t) {
      SameJobsInPipe(p, Start(p), t);
    }
  }

  lemma TryStartKeepsInv(p: Pipe, port: Port)
    requires Inv(p)
    ensures Inv(TryStart(p, port))
  {
    hide Inv;
    if !(p.inflight.Some? || p.rawQ == [] || port.busy) {
      StartKeepsInv(p);
      var q := p.(rawQ := p.rawQ[1..]);
      assert Jobs(p) == [p.rawQ[0]] + Jobs(q);
      if !port.takes && !port.busyAfter {
        FinishKeepsInv(p, q, p.rawQ[0]);
      }
    }
  }

  // A new job joins the end of the pipeline.
  function Enqueued(p: Pipe, frame: nat): Pipe {
    var (q, j) := Accepted(p, frame);
    q.(rawQ := q.rawQ + [j])
  }

  lemma QueueKeepsInv(p: Pipe, frame: nat)
    requires Inv(p) && frame in p.claimed
    ensures Inv(Enqueued(p, frame))
  {
    hide GateInv;
    hide OrderInv;
    hide CountInv;
    QueueGates(p, frame);
    QueueOrder(p, frame);
    QueueCount(p, frame);
  }

  lemma QueueGates(p: Pipe, frame: nat)
    requires GateInv(p) && frame in p.claimed
    ensures GateInv(Enqueued(p, frame))
  {
    hide Jobs;
    QueueJobs(p, frame);
    FramesOfAppend(Jobs(p), Job(frame, p.next));
  }

  lemma QueueJobs(p: Pipe, frame: nat)
    ensures Jobs(Enqueued(p, frame)) == Jobs(p) + [Job(frame, p.next)]
  {
  }

  lemma QueueOrder(p: Pipe, frame: nat)
    requires OrderInv(p)
    ensures OrderInv(Enqueued(p, frame))
  {
    hide Jobs;
    QueueJobs(p, frame);
    var js := Jobs(p);
    forall i | 0 <= i < |js| ensures js[i].ticket < p.next {
      assert js[i] in js;
    }
  }

  lemma QueueCount(p: Pipe, frame: nat)
    requires CountInv(p) && OrderInv(p)
    ensures CountInv(Enqueued(p, frame))
  {
    hide Jobs;
    hide Increasing;
    hide IncreasingTickets;
    QueueJobs(p, frame);
    var r, j := Enqueued(p, frame), Job(frame, p.next);
    assert j in Jobs(r);
    forall t: nat ensures InPipe(r, t) <==> t == p.next || InPipe(p, t) {
      if InPipe(p, t) {
        var k :| k in Jobs(p) && k.ticket == t;
        assert k in Jobs(r);
      }
    }
  }

  // Starting it at once, or giving it back at once, is queueing it first.
  lemma CommitKeepsInv(p: Pipe, frame: nat, port: Port, later: Port)
    requires Inv(p)
    ensures Inv(Commit(p, frame, port, later))
  {
    hide Inv;
    if frame in p.claimed {
      var (q, j) := Accepted(p, frame);
      var r := Enqueued(p, frame);
      QueueKeepsInv(p, frame);
      TryStartKeepsInv(r, later);
      if q.inflight.None? && q.rawQ == [] {
        assert r.rawQ == [j] && r.rawQ[1..] == [];
        assert r == q.(rawQ := [j]);
        StartKeepsInv(r);
        assert Jobs(r) == [j] + Jobs(q);
        assert q == r.(rawQ := []);
        FinishKeepsInv(r, q, j);
      }
    }
  }

  lemma {:induction false} DrainKeepsInv(p: Pipe)
    requires Inv(p) && p.inflight.None?
    ensures Inv(DrainQueue(p)) && DrainQueue(p).rawQ == [] && DrainQueue(p).inflight.None?
    ensures DrainQueue(p).next == p.next
    decreases |p.rawQ|
  {
    hide Inv;
    if p.rawQ != [] {
      var q := p.(rawQ := p.rawQ[1..]);
      assert Jobs(p) == [p.rawQ[0]] + Jobs(q);
      FinishKeepsInv(p, q, p.rawQ[0]);
      DrainKeepsInv(Finish(q, p.rawQ[0]));
    }
  }

  lemma ClaimsKeepInv(p: Pipe, e: Event)
    requires Inv(p) && (e.DoClaim? || e.DoUnclaim? || e.DoReplace?)
    ensures Inv(Step(p, e))
  {
    hide GateInv;
    hide OrderInv;
    hide CountInv;
    ClaimsKeepGates(p, e);
    ClaimsKeepRest(p, e);
  }

  lemma ClaimsKeepGates(p: Pipe, e: Event)
    requires GateInv(p) && (e.DoClaim? || e.DoUnclaim? || e.DoReplace?)
    ensures GateInv(Step(p, e))
  {
    hide FramesOf;
    hide Jobs;
    ClaimJobs(p, e);
  }

  lemma ClaimJobs(p: Pipe, e: Event)
    requires e.DoClaim? || e.DoUnclaim? || e.DoReplace?
    ensures Jobs(Step(p, e)) == Jobs(p)
    ensures Step(p, e) == p.(gates := Step(p, e).gates, claimed := Step(p, e).claimed)
  {
  }

  lemma ClaimsKeepRest(p: Pipe, e: Event)
    requires OrderInv(p) && CountInv(p) && (e.DoClaim? || e.DoUnclaim? || e.DoReplace?)
    ensures OrderInv(Step(p, e)) && CountInv(Step(p, e))
  {
    hide Step;
    hide Jobs;
    hide InPipe;
    hide Increasing;
    hide IncreasingTickets;
    ClaimJobs(p, e);
    forall t: nat ensures InPipe(Step(p, e), t) <==> InPipe(p, t) {
      SameJobsInPipe(p, Step(p, e), t);
    }
  }

  lemma StepKeepsInv(p: Pipe, e: Event)
    requires Inv(p)
    ensures Inv(Step(p, e))
  {
    hide Inv;
    hide Claim;
    hide Unclaim;
    hide Replace;
    match e
    case DoCommit(f, port, later) => CommitKeepsInv(p, f, port, later);
    case TxReady(port) => TryStartKeepsInv(p, port);
    case TxDone(port) =>
      if p.inflight.Some? {
        var q := p.(inflight := None);
        assert Jobs(p) == [p.inflight.value] + Jobs(q);
        FinishKeepsInv(p, q, p.inflight.value);
        TryStartKeepsInv(Finish(q, p.inflight.value), port);
      }
    case TxError =>
      if p.inflight.Some? {
        var q := p.(inflight := None);
        assert Jobs(p) == [p.inflight.value] + Jobs(q);
        FinishKeepsInv(p, q, p.inflight.value);
        DrainKeepsInv(Finish(q, p.inflight.value));
      } else {
        DrainKeepsInv(p);
      }
    case _ => ClaimsKeepInv(p, e);
  }

  lemma {:induction false} RunKeepsInv(p: Pipe, es: seq<Event>)
    requires Inv(p)
    ensures Inv(Run(p, es))
    decreases |es|
  {
    hide Inv;
    hide Step;
    if es != [] {
      StepKeepsInv(p, es[0]);
      RunKeepsInv(Step(p, es[0]), es[1..]);
    }
  }

  // --- The theorems -------------------------------------------------------------------------------

  lemma EmptyInv()
    ensures Inv(Empty)
  {
  }

  // Frames start in the order of acceptance, none overtakes one that still
  // waits, and of the started ones at most the newest is not yet given back.
  lemma StartsInOrder(es: seq<Event>)
    ensures
      var p := Run(Empty, es);
      && IncreasingTickets(p.started)
      && (forall t, j :: t in p.started && j in p.rawQ ==> t < j.ticket)
      && (forall i :: 0 <= i < |p.started| ==>
        p.started[i] in p.released || (i == |p.started| - 1 && p.inflight.Some?))
  {
    hide Run;
    EmptyInv();
    RunKeepsInv(Empty, es);
    var p := Run(Empty, es);
    forall i | 0 <= i < |p.started| && p.started[i] !in p.released
      ensures i == |p.started| - 1 && p.inflight.Some?
    {
      assert p.started[i] in p.started;
    }
  }

  // A gate is taken exactly while its frame is prepared, queued or in flight,
  // and the driver has exactly one reference to each frame queued or in flight.
  lemma GatesAndReferences(es: seq<Event>)
    ensures
      var p := Run(Empty, es);
      && (forall f :: f in p.gates <==> f in p.claimed || exists j :: j in Jobs(p) && j.frame == f)
      && (forall f :: p.held[f] == if exists j :: j in Jobs(p) && j.frame == f then 1 else 0)
  {
    hide Run;
    EmptyInv();
    RunKeepsInv(Empty, es);
    var p := Run(Empty, es);
    forall f ensures f in p.held <==> exists j :: j in Jobs(p) && j.frame == f {
      FramesOfIn(Jobs(p), f);
    }
  }

  lemma {:induction false} FramesOfIn(js: seq<Job>, f: nat)
    ensures f in FramesOf(js) <==> exists j :: j in js && j.frame == f
    decreases |js|
  {
    if js != [] {
      FramesOfIn(js[1..], f);
      if exists j :: j in js && j.frame == f {
        var j :| j in js && j.frame == f;
        assert j == js[0] || j in js[1..];
      }
      assert js[0] in js;
    }
  }

  // Each acceptance's reference is given back exactly once, and after an abort
  // none is left out.
  lemma ReleasedExactlyOnce(es: seq<Event>, t: nat)
    ensures
      var p := Run(Empty, es);
      && multiset(p.released)[t] == (if t < p.next && !InPipe(p, t) then 1 else 0)
      && (t < p.next ==> multiset(Step(p, TxError).released)[t] == 1)
  {
    hide Run;
    hide InPipe;
    hide Step;
    EmptyInv();
    RunKeepsInv(Empty, es);
    var p := Run(Empty, es);
    CountOnce(p, t);
    StepKeepsInv(p, TxError);
    var q := Step(p, TxError);
    CountOnce(q, t);
    AbortEmpties(p, t);
  }

  lemma CountOnce(p: Pipe, t: nat)
    requires CountInv(p)
    ensures multiset(p.released)[t] == if t < p.next && !InPipe(p, t) then 1 else 0
  {
    hide InPipe;
    Distinct(p.released, t);
  }

  lemma {:induction false} Distinct(ts: seq<nat>, t: nat)
    requires forall i, j :: 0 <= i < j < |ts| ==> ts[i] != ts[j]
    ensures multiset(ts)[t] == if t in ts then 1 else 0
    decreases |ts|
  {
    if ts != [] {
      var n := |ts| - 1;
      Distinct(ts[..n], t);
      assert ts == ts[..n] + [ts[n]];
    }
  }

  lemma AbortEmpties(p: Pipe, t: nat)
    requires Inv(p)
    ensures !InPipe(Step(p, TxError), t) && Step(p, TxError).next == p.next
  {
    hide Inv;
    if p.inflight.Some? {
      var q := p.(inflight := None);
      assert Jobs(p) == [p.inflight.value] + Jobs(q);
      FinishKeepsInv(p, q, p.inflight.value);
      DrainKeepsInv(Finish(q, p.inflight.value));
    } else {
      DrainKeepsInv(p);
    }
    assert Jobs(Step(p, TxError)) == [];
  }

  // --- The driver's sections in place -----------------------------------------------------------------

  class TxDriver {
    var rawQ: seq<Job>
    var inflight: Option<Job>
    var gates: set<nat>
    var held: multiset<nat>
    var claimed: set<nat>
    var next: nat              // the ticket of the next job
    ghost var started: seq<nat>
    ghost var released: seq<nat>

    ghost function View(): Pipe
      reads this
    {
      Pipe(rawQ, inflight, gates, held, claimed, started, released, next)
    }

    constructor ()
      ensures View() == Empty
    {
      rawQ, inflight, gates, held, claimed := [], None, {}, multiset{}, {};
      started, released, next := [], [], 0;
    }

    // Gate and reference of a job that is over.
    method GiveBack(j: Job)
      modifies this`gates, this`held, this`released
      ensures View() == Finish(old(View()), j)
    {
      gates := gates - {j.frame};
      held := held - multiset{j.frame};
      released := released + [j.ticket];
    }

    // Hands a job to the port; the in-flight slot is set before the call.
    method Submit(j: Job, port: Port) returns (ok: bool)
      modifies this`inflight, this`started
      ensures ok == port.takes
      ensures inflight == (if ok then Some(j) else None)
      ensures started == old(started) + (if ok then [j.ticket] else [])
    {
      inflight := Some(j);
      ok := port.takes;
      if ok {
        started := started + [j.ticket];
      } else {
        inflight := None;
      }
    }

    method TryStartNext(port: Port) returns (failed: Option<Job>)
      modifies this`rawQ, this`inflight, this`started, this`gates, this`held, this`released
      ensures View() == TryStart(old(View()), port)
      ensures failed.Some? ==> old(rawQ) != [] && failed.value == old(rawQ)[0] && !port.takes
    {
      hide Finish;
      failed := None;
      if inflight.Some? || rawQ == [] || port.busy {
        return;
      }
      var j := rawQ[0];
      rawQ := rawQ[1..];
      var ok := Submit(j, port);
      if ok {
        return;
      }
      if port.busyAfter {
        rawQ := [j] + rawQ;
        return;
      }
      assert View() == old(View()).(rawQ := old(rawQ)[1..]);
      GiveBack(j);
      failed := Some(j);
    }

    method Accept(frame: nat) returns (j: Job)
      modifies this`held, this`claimed, this`next
      ensures (View(), j) == Accepted(old(View()), frame)
    {
      j := Job(frame, next);
      held := held + multiset{frame};
      claimed := claimed - {frame};
      next := next + 1;
    }

    // An idle pipeline hands the job to the port without queueing it.
    method Kickstart(j: Job, port: Port) returns (ok: bool)
      requires inflight.None? && rawQ == []
      modifies this`rawQ, this`inflight, this`started, this`gates, this`held, this`released
      ensures ok == (port.takes || port.busyAfter)
      ensures View() ==
        if port.takes then old(View()).(inflight := Some(j), started := old(started) + [j.ticket])
        else if port.busyAfter then old(View()).(rawQ := [j])
        else Finish(old(View()), j)
    {
      ok := Submit(j, port);
      if !ok {
        if port.busyAfter {
          rawQ := rawQ + [j];
          ok := true;
        } else {
          GiveBack(j);
        }
      }
    }

    method SendPrepared(frame: nat, port: Port, later: Port) returns (ok: bool)
      requires frame in claimed
      modifies this
      ensures View() == Step(old(View()), DoCommit(frame, port, later))
      ensures !ok ==> old(rawQ) == [] && old(inflight).None? && !port.takes
    {
      hide Finish;
      hide TryStart;
      var j := Accept(frame);
      if !port.busy && inflight.None? && rawQ == [] {
        ok := Kickstart(j, port);
      } else {
        rawQ := rawQ + [j];
        var failed := TryStartNext(later);
        ok := true;
      }
    }

    method OnTxDone(port: Port) returns (failed: Option<Job>)
      modifies this
      ensures View() == Step(old(View()), TxDone(port))
    {
      failed := None;
      if inflight.Some? {
        var done := inflight.value;
        inflight := None;
        GiveBack(done);
        failed := TryStartNext(port);
      }
    }

    method Drain()
      requires inflight.None?
      modifies this`rawQ, this`gates, this`held, this`released
      ensures View() == DrainQueue(old(View())) && rawQ == []
    {
      hide Finish;
      hide DrainQueue;
      while rawQ != []
        invariant inflight.None? && DrainQueue(View()) == DrainQueue(old(View()))
        decreases |rawQ|
      {
        DrainOne(View());
        var j := rawQ[0];
        rawQ := rawQ[1..];
        ghost var p := View();
        GiveBack(j);
        GiveBackRest(p, j);
      }
      DrainNone(View());
    }

    method OnTxError()
      modifies this
      ensures View() == Step(old(View()), TxError)
      ensures rawQ == [] && inflight.None?
    {
      hide Finish;
      hide DrainQueue;
      if inflight.Some? {
        var done := inflight.value;
        inflight := None;
        ghost var p := View();
        GiveBack(done);
        GiveBackRest(p, done);
      }
      Drain();
    }
  }

  lemma DrainOne(p: Pipe)
    requires p.rawQ != []
    ensures DrainQueue(p) == DrainQueue(Finish(p.(rawQ := p.rawQ[1..]), p.rawQ[0]))
  {
  }

  lemma DrainNone(p: Pipe)
    requires p.rawQ == []
    ensures DrainQueue(p) == p
  {
  }

  lemma GiveBackRest(p: Pipe, j: Job)
    ensures Finish(p, j).rawQ == p.rawQ && Finish(p, j).inflight == p.inflight
  {
  }
}
