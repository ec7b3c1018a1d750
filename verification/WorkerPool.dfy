/** The job pool of the media server, as a state machine over its atomic steps.

    Any number of `Submit` and `Stop` calls run against a fixed set of workers. A step is one
    operation on the read/write lock, the job channel, the `stopped` flag or the wait group.
    A job is named by the `Submit` call that carries it. */
module WorkerPool {

  import opened Wrappers

  /** Where a `Submit` call is; `Refused` has seen `stopped` and still holds the lock. */
  datatype SubmitPc = SubmitStart | Holding | Sending | Sent | Refused | Accepted | Rejected

  /** Where a `Stop` call is; from `Announced` to `Leaving` or `QueueClosed` it owns the writer side. */
  datatype StopPc = StopStart | Announced | Locked | Marked | QueueClosed | Leaving | Waiting | Returned

  datatype WorkerPc = Idle | Running(job: nat) | Exited

  datatype Pool = Pool(
    // the fields of the Go struct, with the channel and the lock spelled out
    capacity: nat, queue: seq<nat>, closed: bool, stopped: bool,
    readers: nat, writer: Option<nat>, wg: int,
    // the goroutines
    submits: seq<SubmitPc>, stops: seq<StopPc>, workers: seq<WorkerPc>,
    // history: jobs in the order they entered the queue, left it, and returned
    accepted: seq<nat>, started: seq<nat>, finished: seq<nat>,
    late: set<nat>, closer: Option<nat>, panicked: bool)

  /** `NewWorkerPool` and `start`: a queue of eight slots per worker. */
  function NewPool(workers: int, numCPU: nat): Pool
    requires numCPU > 0
  {
    var n := if workers <= 0 then numCPU else workers;
    Pool(n * 8, [], false, false, 0, None, n, [], [], seq(n, _ => Idle), [], [], [], {}, None, false)
  }

  datatype Event =
    // Submit
    | BeginSubmit(isNil: bool) | RLock(c: nat) | CheckStopped(c: nat) | Send(c: nat) | RUnlock(c: nat)
    // Stop
    | BeginStop | Announce(s: nat) | Acquire(s: nat) | CheckFirst(s: nat) | CloseQueue(s: nat)
    | Unlock(s: nat) | WaitDone(s: nat)
    // worker
    | Receive(w: nat) | Finish(w: nat) | Exit(w: nat)

  predicate HoldsRead(pc: SubmitPc) { pc.Holding? || pc.Sending? || pc.Sent? || pc.Refused? }
  predicate Writes(pc: StopPc) { pc.Announced? || Excludes(pc) }
  predicate Excludes(pc: StopPc) { pc.Locked? || pc.Marked? || pc.QueueClosed? || pc.Leaving? }

  /** When a step can happen. A send blocks on a full open queue, a reader on any announced
      writer, a writer on the readers before it. */
  predicate Enabled(p: Pool, e: Event) {
    match e
    case BeginSubmit(_) => true
    case RLock(c) => c < |p.submits| && p.submits[c].SubmitStart? && p.writer.None?
    case CheckStopped(c) => c < |p.submits| && p.submits[c].Holding?
    case Send(c) => c < |p.submits| && p.submits[c].Sending? && (p.closed || |p.queue| < p.capacity)
    case RUnlock(c) => c < |p.submits| && (p.submits[c].Sent? || p.submits[c].Refused?)
    case BeginStop => true
    case Announce(s) => s < |p.stops| && p.stops[s].StopStart? && p.writer.None?
    case Acquire(s) => s < |p.stops| && p.stops[s].Announced? && p.readers == 0
    case CheckFirst(s) => s < |p.stops| && p.stops[s].Locked?
    case CloseQueue(s) => s < |p.stops| && p.stops[s].Marked?
    case Unlock(s) => s < |p.stops| && (p.stops[s].QueueClosed? || p.stops[s].Leaving?)
    case WaitDone(s) => s < |p.stops| && p.stops[s].Waiting? && p.wg == 0
    case Receive(w) => w < |p.workers| && p.workers[w].Idle? && p.queue != []
    case Finish(w) => w < |p.workers| && p.workers[w].Running?
    case Exit(w) => w < |p.workers| && p.workers[w].Idle? && p.queue == [] && p.closed
  }

  function Next(p: Pool, e: Event): Pool
    requires Enabled(p, e)
  {
    match e
    case BeginSubmit(isNil) =>
      p.(submits := p.submits + [if isNil then Rejected else SubmitStart],
         late := if p.stopped then p.late + {|p.submits|} else p.late)
    case RLock(c) => p.(submits := p.submits[c := Holding], readers := p.readers + 1)
    case CheckStopped(c) => p.(submits := p.submits[c := if p.stopped then Refused else Sending])
    case Send(c) =>
      if p.closed then p.(panicked := true)
      else p.(submits := p.submits[c := Sent], queue := p.queue + [c], accepted := p.accepted + [c])
    case RUnlock(c) =>
      p.(submits := p.submits[c := if p.submits[c].Sent? then Accepted else Rejected],
         readers := if p.readers > 0 then p.readers - 1 else 0,
         panicked := p.panicked || p.readers == 0)
    case BeginStop => p.(stops := p.stops + [StopStart])
    case Announce(s) => p.(stops := p.stops[s := Announced], writer := Some(s))
    case Acquire(s) => p.(stops := p.stops[s := Locked])
    case CheckFirst(s) =>
      if p.stopped then p.(stops := p.stops[s := Leaving])
      else p.(stops := p.stops[s := Marked], stopped := true)
    case CloseQueue(s) =>
      p.(stops := p.stops[s := QueueClosed], closed := true, closer := Some(s),
         panicked := p.panicked || p.closed)
    case Unlock(s) =>
      p.(stops := p.stops[s := if p.stops[s].Leaving? then Returned else Waiting], writer := None)
    case WaitDone(s) => p.(stops := p.stops[s := Returned])
    case Receive(w) =>
      p.(workers := p.workers[w := Running(p.queue[0])], queue := p.queue[1..],
         started := p.started + [p.queue[0]])
    case Finish(w) =>
      p.(workers := p.workers[w := Idle], finished := p.finished + [p.workers[w].job])
    case Exit(w) =>
      p.(workers := p.workers[w := Exited], wg := p.wg - 1, panicked := p.panicked || p.wg <= 0)
  }

  /** A run: steps taken one after the other from `p`. */
  ghost predicate IsRun(p: Pool, es: seq<Event>)
    decreases |es|, 0
  {
    es == [] || (IsRun(p, es[..|es| - 1]) && Enabled(After(p, es[..|es| - 1]), es[|es| - 1]))
  }

  ghost function After(p: Pool, es: seq<Event>): Pool
    requires IsRun(p, es)
    decreases |es|, 1
  {
    if es == [] then p else Next(After(p, es[..|es| - 1]), es[|es| - 1])
  }

  // ---------------------------------------------------------------- sums over goroutines

  function Sum<T>(f: T -> nat, s: seq<T>): nat {
    if s == [] then 0 else Sum(f, s[..|s| - 1]) + f(s[|s| - 1])
  }

  lemma {:induction false} SumUpdate<T>(f: T -> nat, s: seq<T>, i: int, x: T)
    requires 0 <= i < |s|
    ensures Sum(f, s[i := x]) == Sum(f, s) - f(s[i]) + f(x)
    ensures Sum(f, s) >= f(s[i])
  {
    var n := |s| - 1;
    if i < n {
      SumUpdate(f, s[..n], i, x);
      assert s[i := x][..n] == s[..n][i := x];
    } else {
      assert s[i := x][..n] == s[..n];
    }
  }

  lemma SumAppend<T>(f: T -> nat, s: seq<T>, x: T)
    ensures Sum(f, s + [x]) == Sum(f, s) + f(x)
  {
    assert (s + [x])[..|s|] == s;
  }

  /** The jobs that workers are running. */
  function RunningJobs(ws: seq<WorkerPc>): multiset<nat> {
    if ws == [] then multiset{} else RunningJobs(ws[..|ws| - 1]) + JobOf(ws[|ws| - 1])
  }

  function JobOf(w: WorkerPc): multiset<nat> { if w.Running? then multiset{w.job} else multiset{} }

  lemma RunningSnoc(ws: seq<WorkerPc>)
    requires ws != []
    ensures RunningJobs(ws) == RunningJobs(ws[..|ws| - 1]) + JobOf(ws[|ws| - 1])
  {
  }

  lemma {:induction false} RunningUpdate(ws: seq<WorkerPc>, i: int, x: WorkerPc)
    requires 0 <= i < |ws|
    ensures RunningJobs(ws[i := x]) + JobOf(ws[i]) == RunningJobs(ws) + JobOf(x)
  {
    hide JobOf, RunningJobs;
    var n := |ws| - 1;
    var vs := ws[i := x];
    RunningSnoc(ws);
    RunningSnoc(vs);
    if i < n {
      RunningUpdate(ws[..n], i, x);
      assert vs[..n] == ws[..n][i := x] && vs[n] == ws[n];
      Regroup(RunningJobs(vs[..n]), JobOf(ws[i]), RunningJobs(ws[..n]), JobOf(x), JobOf(ws[n]));
    } else {
      assert vs[..n] == ws[..n] && vs[n] == x;
    }
  }

  lemma Regroup(a: multiset<nat>, b: multiset<nat>, c: multiset<nat>, d: multiset<nat>, e: multiset<nat>)
    requires a + b == c + d
    ensures a + e + b == c + e + d
  {
    assert a + e + b == a + b + e && c + e + d == c + d + e;
  }

  const HoldsCount: SubmitPc -> nat := (pc: SubmitPc) => if HoldsRead(pc) then 1 else 0
  const LiveCount: WorkerPc -> nat := (w: WorkerPc) => if w.Exited? then 0 else 1

  // ---------------------------------------------------------------- the invariant

  ghost predicate LockInv(readers: nat, submits: seq<SubmitPc>) {
    readers == Sum(HoldsCount, submits)
  }

  /** One call owns the writer side, and it excludes the readers once it has the lock. */
  ghost predicate WriterInv(writer: Option<nat>, stops: seq<StopPc>, submits: seq<SubmitPc>) {
    && (writer.Some? ==> writer.value < |stops|)
    && (forall s :: 0 <= s < |stops| ==> (Writes(stops[s]) <==> writer == Some(s)))
    && (writer.Some? && Excludes(stops[writer.value]) ==> NoReader(submits))
  }

  predicate NoReader(submits: seq<SubmitPc>) {
    forall c :: 0 <= c < |submits| ==> !HoldsRead(submits[c])
  }

  /** One call closes the queue, while it owns the writer side. */
  ghost predicate CloserInv(stopped: bool, closed: bool, closer: Option<nat>, writer: Option<nat>, stops: seq<StopPc>) {
    && (closed <==> closer.Some?)
    && (closed ==> stopped)
    && (stopped && !closed <==> writer.Some? && writer.value < |stops| && stops[writer.value].Marked?)
    && (closer.Some? ==> closer.value < |stops| && Closing(stops[closer.value]))
    && (forall s :: 0 <= s < |stops| && (stops[s].QueueClosed? || stops[s].Waiting?) ==> closer == Some(s))
  }

  predicate Closing(pc: StopPc) { pc.QueueClosed? || pc.Waiting? || pc.Returned? }

  /** Nobody is sending once `stopped` is set, and a call begun later never will be. */
  ghost predicate SenderInv(stopped: bool, submits: seq<SubmitPc>, late: set<nat>) {
    && (stopped ==> NoSender(submits))
    && (late != {} ==> stopped)
    && (forall c :: c in late ==> c < |submits| && Turned(submits[c]))
  }

  predicate NoSender(submits: seq<SubmitPc>) {
    forall c :: 0 <= c < |submits| ==> !submits[c].Sending?
  }

  /** Where a call that began after `stopped` was set can be. */
  predicate Turned(pc: SubmitPc) { pc.SubmitStart? || pc.Holding? || pc.Refused? || pc.Rejected? }

  ghost predicate Distinct(s: seq<nat>) { forall i, j :: 0 <= i < j < |s| ==> s[i] != s[j] }

  /** Jobs leave the bounded queue in the order they were accepted. */
  ghost predicate QueueInv(capacity: nat, queue: seq<nat>, accepted: seq<nat>, started: seq<nat>) {
    capacity > 0 && |queue| <= capacity && accepted == started + queue
  }

  /** The accepted jobs are those of the calls that have sent, once each. */
  ghost predicate AcceptInv(accepted: seq<nat>, submits: seq<SubmitPc>) {
    && Distinct(accepted)
    && (forall c :: c in accepted ==> c < |submits|)
    && (forall c :: 0 <= c < |submits| ==> (c in accepted <==> submits[c].Sent? || submits[c].Accepted?))
  }

  ghost predicate RunInv(started: seq<nat>, finished: seq<nat>, workers: seq<WorkerPc>) {
    multiset(started) == RunningJobs(workers) + multiset(finished)
  }

  /** The wait group counts the live workers, and workers leave only a closed, drained queue. */
  ghost predicate WorkerInv(workers: seq<WorkerPc>, wg: int, closed: bool, queue: seq<nat>) {
    && |workers| > 0
    && wg == Sum(LiveCount, workers)
    && (forall w :: 0 <= w < |workers| && workers[w].Exited? ==> closed && queue == [])
  }

  ghost predicate WaitInv(closer: Option<nat>, stops: seq<StopPc>, wg: int) {
    closer.Some? && closer.value < |stops| && stops[closer.value].Returned? ==> wg == 0
  }

  ghost predicate Inv(p: Pool) {
    && LockInv(p.readers, p.submits)
    && WriterInv(p.writer, p.stops, p.submits)
    && CloserInv(p.stopped, p.closed, p.closer, p.writer, p.stops)
    && SenderInv(p.stopped, p.submits, p.late)
    && QueueInv(p.capacity, p.queue, p.accepted, p.started)
    && AcceptInv(p.accepted, p.submits)
    && RunInv(p.started, p.finished, p.workers)
    && WorkerInv(p.workers, p.wg, p.closed, p.queue)
    && WaitInv(p.closer, p.stops, p.wg)
    && !p.panicked
  }

  lemma {:induction false} SumOfIdle(n: nat)
    ensures var ws := seq(n, _ => Idle); Sum(LiveCount, ws) == n && RunningJobs(ws) == multiset{}
  {
    if n > 0 {
      SumOfIdle(n - 1);
      assert seq(n, _ => Idle)[..n - 1] == seq(n - 1, _ => Idle);
    }
  }

  lemma NewPoolInv(workers: int, numCPU: nat)
    requires numCPU > 0
    ensures Inv(NewPool(workers, numCPU))
  {
    SumOfIdle(if workers <= 0 then numCPU else workers);
  }

  // ---------------------------------------------------------------- every step keeps it

  /** The reader count follows a call that takes, keeps or leaves the lock. */
  lemma LockMove(readers: nat, submits: seq<SubmitPc>, c: nat, pc: SubmitPc)
    requires LockInv(readers, submits) && c < |submits|
    ensures !HoldsRead(submits[c]) && HoldsRead(pc) ==> LockInv(readers + 1, submits[c := pc])
    ensures HoldsRead(submits[c]) == HoldsRead(pc) ==> LockInv(readers, submits[c := pc])
    ensures HoldsRead(submits[c]) && !HoldsRead(pc) ==> readers > 0 && LockInv(readers - 1, submits[c := pc])
  {
    SumUpdate(HoldsCount, submits, c, pc);
    hide Sum;
  }

  lemma LockNew(readers: nat, submits: seq<SubmitPc>, pc: SubmitPc)
    requires LockInv(readers, submits) && !HoldsRead(pc)
    ensures LockInv(readers, submits + [pc])
  {
    SumAppend(HoldsCount, submits, pc);
    hide Sum;
  }

  lemma StepLock(p: Pool, e: Event)
    requires Inv(p) && Enabled(p, e)
    ensures var q := Next(p, e); LockInv(q.readers, q.submits)
  {
    hide LockInv, WriterInv, CloserInv, SenderInv, QueueInv, AcceptInv, RunInv, WorkerInv, WaitInv;
    match e
    case BeginSubmit(isNil) => LockNew(p.readers, p.submits, if isNil then Rejected else SubmitStart);
    case RLock(c) => LockMove(p.readers, p.submits, c, Holding);
    case CheckStopped(c) => LockMove(p.readers, p.submits, c, if p.stopped then Refused else Sending);
    case Send(c) => LockMove(p.readers, p.submits, c, Sent);
    case RUnlock(c) => LockMove(p.readers, p.submits, c, if p.submits[c].Sent? then Accepted else Rejected);
    case _ =>
  }

  /** With no reader counted, no call holds the lock. */
  lemma NobodyReads(submits: seq<SubmitPc>)
    requires LockInv(0, submits)
    ensures NoReader(submits)
  {
    forall c | 0 <= c < |submits| ensures !HoldsRead(submits[c]) {
      SumUpdate(HoldsCount, submits, c, submits[c]);
      hide Sum;
    }
  }

  predicate IsSubmitStep(e: Event) { e.BeginSubmit? || e.RLock? || e.CheckStopped? || e.Send? || e.RUnlock? }

  /** A call of `Submit` cannot take the lock past an announced writer. */
  lemma SubmitKeepsWriter(p: Pool, e: Event)
    requires WriterInv(p.writer, p.stops, p.submits) && Enabled(p, e) && IsSubmitStep(e)
    ensures var q := Next(p, e); WriterInv(q.writer, q.stops, q.submits)
  {
  }

  lemma StepWriter(p: Pool, e: Event)
    requires Inv(p) && Enabled(p, e)
    ensures var q := Next(p, e); WriterInv(q.writer, q.stops, q.submits)
  {
    hide LockInv, CloserInv, SenderInv, QueueInv, AcceptInv, RunInv, WorkerInv, WaitInv;
    if IsSubmitStep(e) {
      SubmitKeepsWriter(p, e);
    } else {
      hide NoReader;
      if e.Acquire? { NobodyReads(p.submits); }
    }
  }

  lemma StepCloser(p: Pool, e: Event)
    requires Inv(p) && Enabled(p, e)
    ensures var q := Next(p, e); CloserInv(q.stopped, q.closed, q.closer, q.writer, q.stops)
  {
    hide LockInv, SenderInv, QueueInv, AcceptInv, RunInv, WorkerInv, WaitInv;
  }

  lemma StepSender(p: Pool, e: Event)
    requires Inv(p) && Enabled(p, e)
    ensures var q := Next(p, e); SenderInv(q.stopped, q.submits, q.late)
  {
    hide LockInv, QueueInv, AcceptInv, RunInv, WorkerInv, WaitInv;
  }

  lemma StepQueue(p: Pool, e: Event)
    requires Inv(p) && Enabled(p, e)
    ensures var q := Next(p, e); QueueInv(q.capacity, q.queue, q.accepted, q.started)
  {
    hide LockInv, WriterInv, CloserInv, SenderInv, AcceptInv, RunInv, WorkerInv, WaitInv;
    match e
    case Receive(w) => assert p.queue == [p.queue[0]] + p.queue[1..];
    case _ =>
  }

  lemma StepAccept(p: Pool, e: Event)
    requires Inv(p) && Enabled(p, e)
    ensures var q := Next(p, e); AcceptInv(q.accepted, q.submits)
  {
    hide LockInv, WriterInv, CloserInv, SenderInv, QueueInv, RunInv, WorkerInv, WaitInv;
  }

  lemma RunReceive(started: seq<nat>, finished: seq<nat>, ws: seq<WorkerPc>, w: nat, job: nat)
    requires RunInv(started, finished, ws) && w < |ws| && ws[w].Idle?
    ensures RunInv(started + [job], finished, ws[w := Running(job)])
  {
    hide RunningJobs;
    var ws' := ws[w := Running(job)];
    RunningUpdate(ws, w, Running(job));
    assert RunningJobs(ws') == RunningJobs(ws') + JobOf(ws[w]) == RunningJobs(ws) + multiset{job};
    assert multiset(started + [job]) == multiset(started) + multiset{job};
  }

  lemma RunFinish(started: seq<nat>, finished: seq<nat>, ws: seq<WorkerPc>, w: nat)
    requires RunInv(started, finished, ws) && w < |ws| && ws[w].Running?
    ensures RunInv(started, finished + [ws[w].job], ws[w := Idle])
  {
    hide RunningJobs;
    RunningUpdate(ws, w, Idle);
    var job := ws[w].job;
    assert RunningJobs(ws) == RunningJobs(ws[w := Idle]) + multiset{job};
  }

  lemma RunExit(started: seq<nat>, finished: seq<nat>, ws: seq<WorkerPc>, w: nat)
    requires RunInv(started, finished, ws) && w < |ws| && ws[w].Idle?
    ensures RunInv(started, finished, ws[w := Exited])
  {
    hide RunningJobs;
    var ws' := ws[w := Exited];
    RunningUpdate(ws, w, Exited);
    assert RunningJobs(ws') == RunningJobs(ws') + JobOf(ws[w]) == RunningJobs(ws) + JobOf(Exited) == RunningJobs(ws);
  }

  lemma StepRun(p: Pool, e: Event)
    requires Inv(p) && Enabled(p, e)
    ensures var q := Next(p, e); RunInv(q.started, q.finished, q.workers)
  {
    hide LockInv, WriterInv, CloserInv, SenderInv, QueueInv, AcceptInv, RunInv, WorkerInv, WaitInv;
    match e
    case Receive(w) => RunReceive(p.started, p.finished, p.workers, w, p.queue[0]);
    case Finish(w) => RunFinish(p.started, p.finished, p.workers, w);
    case Exit(w) => RunExit(p.started, p.finished, p.workers, w);
    case _ =>
  }

  lemma StepWorker(p: Pool, e: Event)
    requires Inv(p) && Enabled(p, e)
    ensures var q := Next(p, e); WorkerInv(q.workers, q.wg, q.closed, q.queue) && WaitInv(q.closer, q.stops, q.wg)
  {
    hide LockInv, WriterInv, QueueInv, AcceptInv, RunInv;
    match e
    case Receive(w) => SumUpdate(LiveCount, p.workers, w, Running(p.queue[0]));
    case Finish(w) => SumUpdate(LiveCount, p.workers, w, Idle);
    case Exit(w) => SumUpdate(LiveCount, p.workers, w, Exited);
    case _ =>
  }

  /** No send on the closed queue, no second close, no unlock or Done too many. */
  lemma StepNoPanic(p: Pool, e: Event)
    requires Inv(p) && Enabled(p, e)
    ensures !Next(p, e).panicked
  {
    hide QueueInv, AcceptInv, RunInv, WaitInv;
    match e
    case RUnlock(c) => SumUpdate(HoldsCount, p.submits, c, Accepted);
    case Exit(w) => SumUpdate(LiveCount, p.workers, w, Exited);
    case _ =>
  }

  lemma StepInv(p: Pool, e: Event)
    requires Inv(p) && Enabled(p, e)
    ensures Inv(Next(p, e))
  {
    StepLock(p, e);
    StepWriter(p, e);
    StepCloser(p, e);
    StepSender(p, e);
    StepQueue(p, e);
    StepAccept(p, e);
    StepRun(p, e);
    StepWorker(p, e);
    StepNoPanic(p, e);
  }

  // ---------------------------------------------------------------- safety over every run

  lemma {:induction false} RunKeepsInv(p: Pool, es: seq<Event>)
    requires Inv(p) && IsRun(p, es)
    ensures Inv(After(p, es))
  {
    if es != [] {
      RunKeepsInv(p, es[..|es| - 1]);
      StepInv(After(p, es[..|es| - 1]), es[|es| - 1]);
    }
  }

  ghost predicate Safe(p: Pool) {
    // no send on, or second close of, the closed queue
    && !p.panicked
    // the queue stays within capacity
    && |p.queue| <= p.capacity
    // every accepted job is queued, running or finished, exactly once, and leaves the queue in order
    && Distinct(p.accepted)
    && p.accepted == p.started + p.queue
    && multiset(p.started) == RunningJobs(p.workers) + multiset(p.finished)
    // a call returns true only after its job was accepted, and false only if it was not
    && (forall c :: 0 <= c < |p.submits| && p.submits[c].Accepted? ==> c in p.accepted)
    && (forall c :: 0 <= c < |p.submits| && p.submits[c].Rejected? ==> c !in p.accepted)
    // a call that began after the pool was stopped never gets its job in
    && (forall c :: c in p.late ==> c !in p.accepted)
  }

  lemma InvIsSafe(p: Pool)
    requires Inv(p)
    ensures Safe(p)
  {
  }

  /** Every state that a new pool can reach is safe. */
  lemma PoolIsSafe(workers: int, numCPU: nat, es: seq<Event>)
    requires numCPU > 0 && IsRun(NewPool(workers, numCPU), es)
    ensures Safe(After(NewPool(workers, numCPU), es))
  {
    hide Inv, Safe, NewPool;
    NewPoolInv(workers, numCPU);
    RunKeepsInv(NewPool(workers, numCPU), es);
    InvIsSafe(After(NewPool(workers, numCPU), es));
  }

  // ---------------------------------------------------------------- what a refusal means

  /** Of the calls of `Submit` in a run, in the order they began: was the job nil? */
  ghost function Begun(es: seq<Event>): seq<bool> {
    if es == [] then []
    else Begun(es[..|es| - 1]) + if es[|es| - 1].BeginSubmit? then [es[|es| - 1].isNil] else []
  }

  /** A nil job is turned away at once, any other only by a pool that is stopped. */
  ghost predicate RefusesRightly(p: Pool, begun: seq<bool>) {
    && |begun| == |p.submits|
    && forall c :: 0 <= c < |begun| ==>
         if begun[c] then p.submits[c].Rejected?
         else p.submits[c].Refused? || p.submits[c].Rejected? ==> p.stopped
  }

  lemma RefusalStep(p: Pool, begun: seq<bool>, e: Event)
    requires Enabled(p, e) && RefusesRightly(p, begun)
    ensures RefusesRightly(Next(p, e), begun + if e.BeginSubmit? then [e.isNil] else [])
  {
    if !e.BeginSubmit? { assert begun + [] == begun; }
  }

  lemma {:induction false} RunRefusesRightly(p: Pool, es: seq<Event>)
    requires p.submits == [] && IsRun(p, es)
    ensures RefusesRightly(After(p, es), Begun(es))
  {
    hide Enabled, Next, RefusesRightly;
    if es == [] {
      NobodyRefused(p);
    } else {
      RunRefusesRightly(p, es[..|es| - 1]);
      RefusalStep(After(p, es[..|es| - 1]), Begun(es[..|es| - 1]), es[|es| - 1]);
    }
  }

  lemma NobodyRefused(p: Pool)
    requires p.submits == []
    ensures RefusesRightly(p, [])
  {
  }

  /** In every run `Submit` answers false only for a nil job or a stopped pool, and always for a nil job. */
  lemma FalseOnlyIfStopped(workers: int, numCPU: nat, es: seq<Event>, c: nat)
    requires numCPU > 0 && IsRun(NewPool(workers, numCPU), es) && c < |Begun(es)|
    ensures var q := After(NewPool(workers, numCPU), es);
            && |q.submits| == |Begun(es)|
            && (Begun(es)[c] ==> q.submits[c] == Rejected && c !in q.accepted)
            && (!Begun(es)[c] && (q.submits[c] == Refused || q.submits[c] == Rejected) ==> q.stopped)
  {
    hide Inv, IsRun, After;
    var p := NewPool(workers, numCPU);
    PoolIsSafe(workers, numCPU, es);
    RunRefusesRightly(p, es);
  }

  lemma {:induction false} SizesStay(p: Pool, es: seq<Event>)
    requires IsRun(p, es)
    ensures After(p, es).capacity == p.capacity && |After(p, es).workers| == |p.workers|
  {
    hide Enabled, Next;
    if es != [] {
      SizesStay(p, es[..|es| - 1]);
      SizeStep(After(p, es[..|es| - 1]), es[|es| - 1]);
    }
  }

  lemma SizeStep(p: Pool, e: Event)
    requires Enabled(p, e)
    ensures Next(p, e).capacity == p.capacity && |Next(p, e).workers| == |p.workers|
  {
  }

  lemma WaitsForRoom(p: Pool, c: nat)
    requires Inv(p) && c < |p.submits| && p.submits[c] == Sending
    ensures Enabled(p, Send(c)) <==> |p.queue| < p.capacity
  {
    hide LockInv, WriterInv, AcceptInv, RunInv, WorkerInv, WaitInv;
  }

  /** In every run a call with a job waits for nothing but room among eight jobs for each worker. */
  lemma WaitsOnlyForRoom(workers: int, numCPU: nat, es: seq<Event>, c: nat)
    requires numCPU > 0 && IsRun(NewPool(workers, numCPU), es)
    ensures var q := After(NewPool(workers, numCPU), es);
            && |q.workers| == (if workers <= 0 then numCPU else workers)
            && |q.queue| <= 8 * |q.workers|
            && (c < |q.submits| && q.submits[c] == Sending ==>
                  (Enabled(q, Send(c)) <==> |q.queue| < 8 * |q.workers|))
  {
    var p := NewPool(workers, numCPU);
    NewPoolInv(workers, numCPU);
    RunKeepsInv(p, es);
    SizesStay(p, es);
    PoolIsSafe(workers, numCPU, es);
    hide IsRun, After, Inv, Enabled;
    var q := After(p, es);
    if c < |q.submits| && q.submits[c] == Sending {
      WaitsForRoom(q, c);
    }
  }

  /** When the `Stop` that closed the queue has returned, all accepted jobs have finished. */
  lemma StopWaitsForJobs(p: Pool, s: nat)
    requires Inv(p) && p.closer == Some(s) && p.stops[s].Returned?
    ensures p.queue == [] && RunningJobs(p.workers) == multiset{}
    ensures multiset(p.finished) == multiset(p.accepted)
  {
    NoneLive(p.workers);
    assert p.accepted == p.started;
  }

  lemma {:induction false} NoneLive(ws: seq<WorkerPc>)
    requires Sum(LiveCount, ws) == 0
    ensures ws != [] ==> ws[0].Exited?
    ensures forall w :: 0 <= w < |ws| ==> ws[w].Exited?
    ensures RunningJobs(ws) == multiset{}
  {
    if ws != [] {
      NoneLive(ws[..|ws| - 1]);
      forall w | 0 <= w < |ws| ensures ws[w].Exited? {
        assert w < |ws| - 1 ==> ws[w] == ws[..|ws| - 1][w];
      }
    }
  }

  /** Once `stopped` is set no further job is ever accepted, and `stopped` stays set. */
  lemma {:induction false} StoppedForGood(p: Pool, es: seq<Event>)
    requires Inv(p) && p.stopped && IsRun(p, es)
    ensures After(p, es).stopped && After(p, es).accepted == p.accepted
  {
    hide Inv, Enabled, Next;
    if es != [] {
      StoppedForGood(p, es[..|es| - 1]);
      RunKeepsInv(p, es[..|es| - 1]);
      StoppedStep(After(p, es[..|es| - 1]), es[|es| - 1]);
    }
  }

  lemma StoppedStep(p: Pool, e: Event)
    requires Inv(p) && p.stopped && Enabled(p, e)
    ensures Next(p, e).stopped && Next(p, e).accepted == p.accepted
  {
  }

  lemma Start(p: Pool)
    ensures IsRun(p, []) && After(p, []) == p
  {
  }

  lemma Extend(p: Pool, es: seq<Event>, e: Event)
    requires IsRun(p, es) && Enabled(After(p, es), e)
    ensures IsRun(p, es + [e]) && After(p, es + [e]) == Next(After(p, es), e)
  {
    assert (es + [e])[..|es|] == es;
  }

  lemma {:induction false} ExtendAll(p: Pool, es: seq<Event>, fs: seq<Event>)
    requires IsRun(p, es) && IsRun(After(p, es), fs)
    ensures IsRun(p, es + fs) && After(p, es + fs) == After(After(p, es), fs)
  {
    hide Enabled, Next;
    if fs == [] {
      assert es + fs == es;
    } else {
      var gs, f := fs[..|fs| - 1], fs[|fs| - 1];
      ExtendAll(p, es, gs);
      Extend(p, es + gs, f);
      assert es + fs == es + gs + [f];
    }
  }

  /** One call takes the lock and finds the pool open. */
  lemma SubmitBegins(p: Pool) returns (es: seq<Event>)
    requires p == NewPool(1, 1)
    ensures IsRun(p, es)
    ensures After(p, es) == p.(submits := [Sending], readers := 1)
  {
    hide IsRun, After;
    Start(p);
    es := [];
    Extend(p, es, BeginSubmit(false));
    es := es + [BeginSubmit(false)];
    assert After(p, es) == p.(submits := [SubmitStart]);
    Extend(p, es, RLock(0));
    es := es + [RLock(0)];
    assert After(p, es) == p.(submits := [Holding], readers := 1);
    Extend(p, es, CheckStopped(0));
    es := es + [CheckStopped(0)];
  }

  /** It sends job 0, and the only worker starts it. */
  lemma SubmitEnds(p: Pool) returns (es: seq<Event>)
    requires p == NewPool(1, 1).(submits := [Sending], readers := 1)
    ensures IsRun(p, es)
    ensures After(p, es)
         == NewPool(1, 1).(submits := [Accepted], workers := [Running(0)], accepted := [0], started := [0])
  {
    hide IsRun, After;
    Start(p);
    assert p.workers == [Idle];
    es := [];
    Extend(p, es, Send(0));
    es := es + [Send(0)];
    assert After(p, es) == p.(submits := [Sent], readers := 1, queue := [0], accepted := [0]);
    Extend(p, es, RUnlock(0));
    es := es + [RUnlock(0)];
    assert After(p, es) == p.(submits := [Accepted], readers := 0, queue := [0], accepted := [0]);
    Extend(p, es, Receive(0));
    es := es + [Receive(0)];
  }

  /** The first `Stop` closes the queue and goes to wait. */
  lemma StopOnce(p: Pool) returns (es: seq<Event>)
    requires p.stops == [] && p.writer.None? && p.readers == 0 && !p.stopped && !p.closed && !p.panicked
    ensures IsRun(p, es)
    ensures After(p, es) == p.(stops := [Waiting], stopped := true, closed := true, closer := Some(0))
  {
    hide IsRun, After;
    Start(p);
    es := [];
    Extend(p, es, BeginStop);
    es := es + [BeginStop];
    assert After(p, es) == p.(stops := [StopStart]);
    Extend(p, es, Announce(0));
    es := es + [Announce(0)];
    assert After(p, es) == p.(stops := [Announced], writer := Some(0));
    Extend(p, es, Acquire(0));
    es := es + [Acquire(0)];
    assert After(p, es) == p.(stops := [Locked], writer := Some(0));
    Extend(p, es, CheckFirst(0));
    es := es + [CheckFirst(0)];
    assert After(p, es) == p.(stops := [Marked], writer := Some(0), stopped := true);
    Extend(p, es, CloseQueue(0));
    es := es + [CloseQueue(0)];
    var closed := p.(stopped := true, closed := true, closer := Some(0));
    assert After(p, es) == closed.(stops := [QueueClosed], writer := Some(0));
    Extend(p, es, Unlock(0));
    es := es + [Unlock(0)];
  }

  /** A second `Stop` finds the pool stopped and returns at once. */
  lemma StopAgain(p: Pool) returns (es: seq<Event>)
    requires p.stops == [Waiting] && p.writer.None? && p.readers == 0 && p.stopped
    ensures IsRun(p, es) && After(p, es) == p.(stops := [Waiting, Returned])
  {
    hide IsRun, After;
    Start(p);
    es := [];
    Extend(p, es, BeginStop);
    es := es + [BeginStop];
    assert After(p, es) == p.(stops := [Waiting, StopStart]);
    Extend(p, es, Announce(1));
    es := es + [Announce(1)];
    assert After(p, es) == p.(stops := [Waiting, Announced], writer := Some(1));
    Extend(p, es, Acquire(1));
    es := es + [Acquire(1)];
    assert After(p, es) == p.(stops := [Waiting, Locked], writer := Some(1));
    Extend(p, es, CheckFirst(1));
    es := es + [CheckFirst(1)];
    assert After(p, es) == p.(stops := [Waiting, Leaving], writer := Some(1));
    Extend(p, es, Unlock(1));
    es := es + [Unlock(1)];
  }

  /** Only the closing call waits: another `Stop` can return while a job is still running. */
  lemma OtherStopReturnsEarly() returns (es: seq<Event>)
    ensures IsRun(NewPool(1, 1), es)
    ensures var p := After(NewPool(1, 1), es);
            && p.stops == [Waiting, Returned] && p.closer == Some(0)
            && p.accepted == [0] && p.finished == []
  {
    var p := NewPool(1, 1);
    hide IsRun, After, Next, Enabled;
    es := SubmitBegins(p);
    var rest := SubmitEnds(After(p, es));
    ExtendAll(p, es, rest);
    es := es + rest;
    var first := StopOnce(After(p, es));
    ExtendAll(p, es, first);
    es := es + first;
    var second := StopAgain(After(p, es));
    ExtendAll(p, es, second);
    es := es + second;
  }

  // ---------------------------------------------------------------- exactly when Stop waits

  /** If `Stop` call `s` has returned, every accepted job has finished. */
  ghost predicate ReturnsFinished(p: Pool, s: nat) {
    s < |p.stops| && p.stops[s].Returned? ==> multiset(p.finished) == multiset(p.accepted)
  }

  /** Call `s` is the one that closes the queue: it is about to, or it has. */
  ghost predicate Closes(p: Pool, s: nat) {
    && s < |p.stops|
    && ((p.stops[s].Locked? && !p.stopped) || p.stops[s].Marked? || p.closer == Some(s))
  }

  lemma ClosesStep(p: Pool, s: nat, e: Event)
    requires Inv(p) && Enabled(p, e) && Closes(p, s)
    ensures Closes(Next(p, e), s)
  {
    hide LockInv, SenderInv, QueueInv, AcceptInv, RunInv, WorkerInv, WaitInv;
  }

  lemma {:induction false} ClosesForGood(p: Pool, s: nat, es: seq<Event>)
    requires Inv(p) && Closes(p, s) && IsRun(p, es)
    ensures Closes(After(p, es), s)
  {
    hide Inv, Enabled, Next, Closes;
    if es != [] {
      ClosesForGood(p, s, es[..|es| - 1]);
      RunKeepsInv(p, es[..|es| - 1]);
      ClosesStep(After(p, es[..|es| - 1]), s, es[|es| - 1]);
    }
  }

  lemma CloserReturnsFinished(p: Pool, s: nat)
    requires Inv(p) && Closes(p, s)
    ensures ReturnsFinished(p, s)
  {
    if p.stops[s].Returned? {
      StopWaitsForJobs(p, s);
    }
  }

  /** Jobs that have finished stay finished. */
  lemma {:induction false} FinishedGrows(p: Pool, es: seq<Event>)
    requires IsRun(p, es)
    ensures multiset(p.finished) <= multiset(After(p, es).finished)
  {
    hide Enabled, Next;
    if es != [] {
      FinishedGrows(p, es[..|es| - 1]);
      FinishedStep(After(p, es[..|es| - 1]), es[|es| - 1]);
    }
  }

  lemma FinishedStep(p: Pool, e: Event)
    requires Enabled(p, e)
    ensures multiset(p.finished) <= multiset(Next(p, e).finished)
  {
  }

  lemma FinishedAreAccepted(p: Pool)
    requires Inv(p)
    ensures multiset(p.finished) <= multiset(p.accepted)
  {
    hide LockInv, WriterInv, CloserInv, SenderInv, AcceptInv, WorkerInv, WaitInv;
    assert multiset(p.accepted) == multiset(p.started) + multiset(p.queue);
  }

  /** A call that finds the pool stopped can return at once. */
  lemma LeavesAtOnce(p: Pool, s: nat)
    requires Enabled(p, CheckFirst(s)) && p.stopped
    ensures var es := [CheckFirst(s), Unlock(s)];
            IsRun(p, es) && After(p, es) == p.(stops := p.stops[s := Returned], writer := None)
  {
    hide IsRun, After;
    Start(p);
    Extend(p, [], CheckFirst(s));
    assert [] + [CheckFirst(s)] == [CheckFirst(s)];
    Extend(p, [CheckFirst(s)], Unlock(s));
    assert [CheckFirst(s)] + [Unlock(s)] == [CheckFirst(s), Unlock(s)];
    assert p.stops[s := Leaving][s := Returned] == p.stops[s := Returned];
  }

  lemma StaysFinished(p: Pool, es: seq<Event>)
    requires Inv(p) && p.stopped && multiset(p.finished) == multiset(p.accepted) && IsRun(p, es)
    ensures var q := After(p, es); multiset(q.finished) == multiset(q.accepted)
  {
    hide Inv, Enabled, Next;
    StoppedForGood(p, es);
    FinishedGrows(p, es);
    RunKeepsInv(p, es);
    FinishedAreAccepted(After(p, es));
  }

  /** A `Stop` that holds the lock and is about to look at `stopped` returns, whatever happens next, only
      when all accepted jobs have finished: exactly if it finds the pool open, or nothing left to do. */
  lemma StopWaitsExactly(p: Pool, s: nat)
    requires Inv(p) && Enabled(p, CheckFirst(s))
    ensures (forall es :: IsRun(p, es) ==> ReturnsFinished(After(p, es), s))
       <==> !p.stopped || multiset(p.finished) == multiset(p.accepted)
  {
    var guard := !p.stopped || multiset(p.finished) == multiset(p.accepted);
    if guard {
      hide Inv, Next, IsRun, After;
      forall es | IsRun(p, es) ensures ReturnsFinished(After(p, es), s) {
        if p.stopped {
          StaysFinished(p, es);
        } else {
          ClosesForGood(p, s, es);
          RunKeepsInv(p, es);
          CloserReturnsFinished(After(p, es), s);
        }
      }
    } else {
      LeavesAtOnce(p, s);
      assert !ReturnsFinished(After(p, [CheckFirst(s), Unlock(s)]), s);
    }
  }

  // ---------------------------------------------------------------- Stop returns

  const SubmitWork: SubmitPc -> nat := (pc: SubmitPc) =>
    match pc
    case SubmitStart => 7 case Holding => 6 case Sending => 5 case Sent => 1 case Refused => 1
    case Accepted => 0 case Rejected => 0

  const StopWork: StopPc -> nat := (pc: StopPc) =>
    match pc
    case StopStart => 6 case Announced => 5 case Locked => 4 case Marked => 3 case QueueClosed => 2
    case Leaving => 1 case Waiting => 1 case Returned => 0

  const WorkerWork: WorkerPc -> nat := (w: WorkerPc) =>
    match w case Running(_) => 3 case Idle => 1 case Exited => 0

  /** What is left to do: calls still on their way, queued and running jobs, and live workers. */
  function Work(p: Pool): nat {
    Sum(SubmitWork, p.submits) + Sum(StopWork, p.stops) + Sum(WorkerWork, p.workers) + 3 * |p.queue|
  }

  predicate IsCall(e: Event) { e.BeginSubmit? || e.BeginStop? }

  lemma SubmitStepLowersWork(p: Pool, e: Event)
    requires Enabled(p, e) && (e.Send? ==> !p.closed)
    requires e.RLock? || e.CheckStopped? || e.Send? || e.RUnlock?
    ensures Work(Next(p, e)) < Work(p)
  {
    hide Sum;
    match e
    case RLock(c) => SumUpdate(SubmitWork, p.submits, c, Holding);
    case CheckStopped(c) => SumUpdate(SubmitWork, p.submits, c, if p.stopped then Refused else Sending);
    case Send(c) => SumUpdate(SubmitWork, p.submits, c, Sent);
    case RUnlock(c) => SumUpdate(SubmitWork, p.submits, c, if p.submits[c].Sent? then Accepted else Rejected);
    case _ =>
  }

  lemma StopStepLowersWork(p: Pool, e: Event)
    requires Enabled(p, e)
    requires e.Announce? || e.Acquire? || e.CheckFirst? || e.CloseQueue? || e.Unlock? || e.WaitDone?
    ensures Work(Next(p, e)) < Work(p)
  {
    hide Sum;
    match e
    case Announce(s) => SumUpdate(StopWork, p.stops, s, Announced);
    case Acquire(s) => SumUpdate(StopWork, p.stops, s, Locked);
    case CheckFirst(s) => SumUpdate(StopWork, p.stops, s, if p.stopped then Leaving else Marked);
    case CloseQueue(s) => SumUpdate(StopWork, p.stops, s, QueueClosed);
    case Unlock(s) => SumUpdate(StopWork, p.stops, s, if p.stops[s].Leaving? then Returned else Waiting);
    case WaitDone(s) => SumUpdate(StopWork, p.stops, s, Returned);
    case _ =>
  }

  lemma WorkerStepLowersWork(p: Pool, e: Event)
    requires Enabled(p, e)
    requires e.Receive? || e.Finish? || e.Exit?
    ensures Work(Next(p, e)) < Work(p)
  {
    hide Sum;
    match e
    case Receive(w) => SumUpdate(WorkerWork, p.workers, w, Running(p.queue[0]));
    case Finish(w) => SumUpdate(WorkerWork, p.workers, w, Idle);
    case Exit(w) => SumUpdate(WorkerWork, p.workers, w, Exited);
    case _ =>
  }

  /** Every pool step lowers the work left; a new call adds at most seven. */
  lemma StepLowersWork(p: Pool, e: Event)
    requires Inv(p) && Enabled(p, e)
    ensures !IsCall(e) ==> Work(Next(p, e)) < Work(p)
    ensures IsCall(e) ==> Work(Next(p, e)) <= Work(p) + 7
  {
    hide Sum;
    match e
    case BeginSubmit(isNil) => SumAppend(SubmitWork, p.submits, if isNil then Rejected else SubmitStart);
    case BeginStop => SumAppend(StopWork, p.stops, StopStart);
    case RLock(_) => SubmitStepLowersWork(p, e);
    case CheckStopped(_) => SubmitStepLowersWork(p, e);
    case Send(_) => SubmitStepLowersWork(p, e);
    case RUnlock(_) => SubmitStepLowersWork(p, e);
    case Receive(_) => WorkerStepLowersWork(p, e);
    case Finish(_) => WorkerStepLowersWork(p, e);
    case Exit(_) => WorkerStepLowersWork(p, e);
    case _ => StopStepLowersWork(p, e);
  }

  predicate SubmitDone(pc: SubmitPc) { pc.Accepted? || pc.Rejected? }

  /** A call that has not returned. */
  ghost predicate Unfinished(p: Pool) {
    || (exists c :: 0 <= c < |p.submits| && !SubmitDone(p.submits[c]))
    || (exists s :: 0 <= s < |p.stops| && !p.stops[s].Returned?)
  }

  /** The step that a worker, or the wait for the workers, can take once the queue is closed or full. */
  lemma WorkerCanStep(p: Pool) returns (e: Event)
    requires Inv(p) && (p.queue != [] || p.closed) && p.wg > 0
    ensures !IsCall(e) && Enabled(p, e)
  {
    var w := SomeLive(p.workers);
    e := if p.workers[w].Running? then Finish(w) else if p.queue != [] then Receive(w) else Exit(w);
  }

  lemma {:induction false} SomeLive(ws: seq<WorkerPc>) returns (w: nat)
    requires Sum(LiveCount, ws) > 0
    ensures w < |ws| && !ws[w].Exited?
  {
    var n := |ws| - 1;
    if LiveCount(ws[n]) > 0 {
      w := n;
    } else {
      w := SomeLive(ws[..n]);
    }
  }

  lemma {:induction false} SomeHolder(submits: seq<SubmitPc>) returns (c: nat)
    requires Sum(HoldsCount, submits) > 0
    ensures c < |submits| && HoldsRead(submits[c])
  {
    var n := |submits| - 1;
    if HoldsCount(submits[n]) > 0 {
      c := n;
    } else {
      c := SomeHolder(submits[..n]);
    }
  }

  lemma OpenPoolIsLive(p: Pool)
    requires Inv(p) && !p.closed
    ensures p.wg > 0
  {
    if Sum(LiveCount, p.workers) == 0 {
      NoneLive(p.workers);
    }
  }

  /** A reader that holds the lock is never stuck: when it blocks on a full queue, a worker can move. */
  lemma HolderCanStep(p: Pool, c: nat) returns (e: Event)
    requires Inv(p) && c < |p.submits| && HoldsRead(p.submits[c])
    ensures !IsCall(e) && Enabled(p, e)
  {
    if p.submits[c].Holding? {
      e := CheckStopped(c);
    } else if p.submits[c].Sending? {
      if |p.queue| < p.capacity {
        e := Send(c);
      } else {
        OpenPoolIsLive(p);
        e := WorkerCanStep(p);
      }
    } else {
      e := RUnlock(c);
    }
  }

  /** Whoever owns the writer side, or a reader it waits for, can move. */
  lemma WriterCanStep(p: Pool) returns (e: Event)
    requires Inv(p) && p.writer.Some?
    ensures !IsCall(e) && Enabled(p, e)
  {
    var s := p.writer.value;
    match p.stops[s] {
      case Announced =>
        if p.readers == 0 {
          e := Acquire(s);
        } else {
          var c := SomeHolder(p.submits);
          e := HolderCanStep(p, c);
        }
      case Locked => e := CheckFirst(s);
      case Marked => e := CloseQueue(s);
      case _ => e := Unlock(s);
    }
  }

  /** As long as a call has not returned, some step of the pool can happen. */
  lemma NoDeadlock(p: Pool) returns (e: Event)
    requires Inv(p) && Unfinished(p)
    ensures !IsCall(e) && Enabled(p, e)
  {
    if p.writer.Some? {
      e := WriterCanStep(p);
    } else if c :| 0 <= c < |p.submits| && !SubmitDone(p.submits[c]) {
      if p.submits[c].SubmitStart? {
        e := RLock(c);
      } else {
        e := HolderCanStep(p, c);
      }
    } else {
      var s :| 0 <= s < |p.stops| && !p.stops[s].Returned?;
      if p.stops[s].StopStart? {
        e := Announce(s);
      } else {
        assert !Writes(p.stops[s]);
        if p.wg == 0 { e := WaitDone(s); } else {
          SumPositive(p);
          e := WorkerCanStep(p);
        }
      }
    }
  }

  lemma SumPositive(p: Pool)
    requires Inv(p)
    ensures p.wg >= 0
  {
  }

  function CountCalls(es: seq<Event>): nat {
    if es == [] then 0 else CountCalls(es[..|es| - 1]) + if IsCall(es[|es| - 1]) then 1 else 0
  }

  /** A run takes at most as many pool steps as there was work, plus seven for each new call. */
  lemma {:induction false} RunIsBounded(p: Pool, es: seq<Event>)
    requires Inv(p) && IsRun(p, es)
    ensures |es| - CountCalls(es) + Work(After(p, es)) <= Work(p) + 7 * CountCalls(es)
  {
    hide Inv, Enabled, Next, Work, IsCall;
    if es != [] {
      var fs := es[..|es| - 1];
      RunIsBounded(p, fs);
      RunKeepsInv(p, fs);
      StepLowersWork(After(p, fs), es[|es| - 1]);
    }
  }

  /** A run that no pool step can extend has returned from every call; by RunIsBounded every
      run gets there after finitely many steps once calls stop coming. */
  lemma StuckMeansReturned(p: Pool, es: seq<Event>)
    requires Inv(p) && IsRun(p, es)
    requires forall e: Event :: Enabled(After(p, es), e) ==> IsCall(e)
    ensures var q := After(p, es);
            && (forall s :: 0 <= s < |q.stops| ==> q.stops[s].Returned?)
            && (forall c :: 0 <= c < |q.submits| ==> SubmitDone(q.submits[c]))
            && (|q.stops| > 0 && q.closed ==> multiset(q.finished) == multiset(q.accepted))
  {
    var q := After(p, es);
    RunKeepsInv(p, es);
    if Unfinished(q) {
      var e := NoDeadlock(q);
    }
    if q.closed {
      StopWaitsForJobs(q, q.closer.value);
    }
  }

  lemma {:induction false} NoneRunning(ws: seq<WorkerPc>)
    requires forall w :: 0 <= w < |ws| ==> !ws[w].Running?
    ensures RunningJobs(ws) == multiset{}
  {
    if ws != [] {
      NoneRunning(ws[..|ws| - 1]);
    }
  }

  /** When no pool step is left, every accepted job has finished, stopped or not. */
  lemma StuckMeansFinished(p: Pool)
    requires Inv(p) && forall e: Event :: Enabled(p, e) ==> IsCall(e)
    ensures p.queue == [] && multiset(p.finished) == multiset(p.accepted)
  {
    forall w | 0 <= w < |p.workers| ensures !p.workers[w].Running? {
      assert !Enabled(p, Finish(w));
    }
    NoneRunning(p.workers);
    if p.queue != [] {
      hide LockInv, WriterInv, CloserInv, SenderInv, AcceptInv, RunInv, WaitInv;
      LiveWhileQueued(p);
      var e := WorkerCanStep(p);
    } else {
      assert p.accepted == p.started;
    }
  }

  lemma LiveWhileQueued(p: Pool)
    requires Inv(p) && p.queue != []
    ensures p.wg > 0
  {
    if Sum(LiveCount, p.workers) == 0 {
      NoneLive(p.workers);
    }
  }

  /** A pool that is not stopped takes every job, however full its queue: when no pool step is left, each call
      with a job has returned true, and its job has finished. */
  lemma OpenPoolTakesAll(workers: int, numCPU: nat, es: seq<Event>, c: nat)
    requires numCPU > 0 && IsRun(NewPool(workers, numCPU), es) && c < |Begun(es)|
    requires forall e: Event :: Enabled(After(NewPool(workers, numCPU), es), e) ==> IsCall(e)
    ensures var q := After(NewPool(workers, numCPU), es);
            && |q.submits| == |Begun(es)|
            && (!q.stopped && !Begun(es)[c] ==> q.submits[c] == Accepted && c in q.finished)
  {
    var p := NewPool(workers, numCPU);
    var q := After(p, es);
    FalseOnlyIfStopped(workers, numCPU, es, c);
    NewPoolInv(workers, numCPU);
    RunKeepsInv(p, es);
    hide NewPool, IsRun, After;
    if !q.stopped && !Begun(es)[c] {
      StuckMeansReturnedFrom(q, c);
      StuckMeansFinished(q);
      AcceptedIsListed(q, c);
      assert c in multiset(q.accepted);
    }
  }

  lemma StuckMeansReturnedFrom(p: Pool, c: nat)
    requires Inv(p) && c < |p.submits| && forall e: Event :: Enabled(p, e) ==> IsCall(e)
    ensures SubmitDone(p.submits[c])
  {
    hide Inv, Enabled;
    if !SubmitDone(p.submits[c]) {
      var e := NoDeadlock(p);
    }
  }

  lemma AcceptedIsListed(p: Pool, c: nat)
    requires Inv(p) && c < |p.submits| && p.submits[c].Accepted?
    ensures c in p.accepted
  {
    hide LockInv, WriterInv, CloserInv, SenderInv, QueueInv, RunInv, WorkerInv, WaitInv;
  }
}
