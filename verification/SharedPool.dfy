/** The pool as an object: every atomic step of `Submit`, `Stop` and a worker changes its fields.

    Each method refines one step of the machine in WorkerPool. The object has no field for a panic:
    that no send meets a closed channel, that the channel is closed once and that no lock or wait group
    is released too often is what the proofs of these bodies need. */
module SharedPool {

  import opened WorkerPool
  import opened Wrappers

  class Pool {
    const capacity: nat
    // the channel
    var jobQueue: seq<nat>
    var closed: bool
    // the lock, the flag and the wait group
    var readers: nat
    var writer: Option<nat>
    var stopped: bool
    var wg: int
    // the goroutines
    var submits: seq<SubmitPc>
    var stops: seq<StopPc>
    var workers: seq<WorkerPc>
    // history
    ghost var accepted: seq<nat>
    ghost var started: seq<nat>
    ghost var finished: seq<nat>
    ghost var late: set<nat>
    ghost var closer: Option<nat>

    ghost function State(): WorkerPool.Pool
      reads this
    {
      WorkerPool.Pool(capacity, jobQueue, closed, stopped, readers, writer, wg, submits, stops, workers,
        accepted, started, finished, late, closer, false)
    }

    ghost predicate Valid()
      reads this
    {
      Inv(State())
    }

    /** `NewWorkerPool`, and the loop of `start`. */
    constructor (size: int, numCPU: nat)
      requires numCPU > 0
      ensures State() == NewPool(size, numCPU) && Valid()
    {
      var n := if size <= 0 then numCPU else size;
      capacity := n * 8;
      jobQueue, closed, readers, writer, stopped, wg := [], false, 0, None, false, 0;
      submits, stops, workers := [], [], [];
      accepted, started, finished, late, closer := [], [], [], {}, None;
      new;
      for i := 0 to n
        invariant State() == WorkerPool.Pool(n * 8, [], false, false, 0, None, i, [], [], seq(i, _ => Idle), [], [],
            [], {}, None, false)
      {
        wg := wg + 1;
        workers := workers + [Idle];
        assert workers == seq(i + 1, _ => Idle);
      }
      NewPoolInv(size, numCPU);
    }

    // ------------------------------------------------------------ Submit

    method BeginSubmitCall(isNil: bool) returns (c: nat)
      requires Valid()
      modifies this
      ensures c == |old(submits)|
      ensures State() == Next(old(State()), BeginSubmit(isNil)) && Valid()
    {
      StepInv(State(), BeginSubmit(isNil));
      c := |submits|;
      submits := submits + [if isNil then Rejected else SubmitStart];
      late := if stopped then late + {c} else late;
    }

    method LockForReading(c: nat)
      requires Valid() && Enabled(State(), RLock(c))
      modifies this
      ensures State() == Next(old(State()), RLock(c)) && Valid()
    {
      StepInv(State(), RLock(c));
      readers := readers + 1;
      submits := submits[c := Holding];
    }

    method TestStopped(c: nat)
      requires Valid() && Enabled(State(), CheckStopped(c))
      modifies this
      ensures State() == Next(old(State()), CheckStopped(c)) && Valid()
    {
      StepInv(State(), CheckStopped(c));
      if stopped {
        submits := submits[c := Refused];
      } else {
        submits := submits[c := Sending];
      }
    }

    /** The send of a job: the channel cannot have been closed. */
    method SendJob(c: nat)
      requires Valid() && Enabled(State(), Send(c))
      modifies this
      ensures !old(closed) && State() == Next(old(State()), Send(c)) && Valid()
    {
      StepInv(State(), Send(c));
      jobQueue := jobQueue + [c];
      submits := submits[c := Sent];
      accepted := accepted + [c];
    }

    /** The deferred unlock, and what `Submit` returns. */
    method UnlockForReading(c: nat) returns (result: bool)
      requires Valid() && Enabled(State(), RUnlock(c))
      modifies this
      ensures State() == Next(old(State()), RUnlock(c)) && Valid()
      ensures result <==> c in accepted
    {
      StepInv(State(), RUnlock(c));
      result := submits[c].Sent?;
      readers := readers - 1;
      submits := submits[c := if result then Accepted else Rejected];
    }

    // ------------------------------------------------------------ Stop

    method BeginStopCall() returns (s: nat)
      requires Valid()
      modifies this
      ensures s == |old(stops)|
      ensures State() == Next(old(State()), BeginStop) && Valid()
    {
      StepInv(State(), BeginStop);
      s := |stops|;
      stops := stops + [StopStart];
    }

    /** The first half of `Lock`: new readers are kept out. */
    method AnnounceWriter(s: nat)
      requires Valid() && Enabled(State(), Announce(s))
      modifies this
      ensures State() == Next(old(State()), Announce(s)) && Valid()
    {
      StepInv(State(), Announce(s));
      writer := Some(s);
      stops := stops[s := Announced];
    }

    /** The second half of `Lock`: the readers before it have left. */
    method LockForWriting(s: nat)
      requires Valid() && Enabled(State(), Acquire(s))
      modifies this
      ensures State() == Next(old(State()), Acquire(s)) && Valid()
    {
      StepInv(State(), Acquire(s));
      stops := stops[s := Locked];
    }

    method MarkStopped(s: nat)
      requires Valid() && Enabled(State(), CheckFirst(s))
      modifies this
      ensures State() == Next(old(State()), CheckFirst(s)) && Valid()
    {
      StepInv(State(), CheckFirst(s));
      if stopped {
        stops := stops[s := Leaving];
      } else {
        stopped := true;
        stops := stops[s := Marked];
      }
    }

    /** Closes the channel, which is open. */
    method CloseJobs(s: nat)
      requires Valid() && Enabled(State(), CloseQueue(s))
      modifies this
      ensures !old(closed) && State() == Next(old(State()), CloseQueue(s)) && Valid()
    {
      StepInv(State(), CloseQueue(s));
      closed := true;
      stops := stops[s := QueueClosed];
      closer := Some(s);
    }

    method UnlockForWriting(s: nat)
      requires Valid() && Enabled(State(), Unlock(s))
      modifies this
      ensures State() == Next(old(State()), Unlock(s)) && Valid()
    {
      StepInv(State(), Unlock(s));
      writer := None;
      stops := stops[s := if stops[s].Leaving? then Returned else Waiting];
    }

    /** The end of `Wait`: by now every accepted job has finished. */
    method FinishWaiting(s: nat)
      requires Valid() && Enabled(State(), WaitDone(s))
      modifies this
      ensures State() == Next(old(State()), WaitDone(s)) && Valid()
      ensures jobQueue == [] && multiset(finished) == multiset(accepted)
    {
      StepInv(State(), WaitDone(s));
      stops := stops[s := Returned];
      StopWaitsForJobs(State(), s);
    }

    // ------------------------------------------------------------ worker

    method ReceiveJob(w: nat) returns (job: nat)
      requires Valid() && Enabled(State(), Receive(w))
      modifies this
      ensures State() == Next(old(State()), Receive(w)) && Valid()
      ensures job == old(jobQueue[0])
    {
      hide Inv;
      StepInv(State(), Receive(w));
      job := jobQueue[0];
      jobQueue := jobQueue[1..];
      workers := workers[w := Running(job)];
      started := started + [job];
    }

    method FinishJob(w: nat)
      requires Valid() && Enabled(State(), Finish(w))
      modifies this
      ensures State() == Next(old(State()), Finish(w)) && Valid()
    {
      StepInv(State(), Finish(w));
      finished := finished + [workers[w].job];
      workers := workers[w := Idle];
    }

    /** The deferred `Done` of a worker that found the channel closed and empty. */
    method LeavePool(w: nat)
      requires Valid() && Enabled(State(), Exit(w))
      modifies this
      ensures old(wg) > 0 && State() == Next(old(State()), Exit(w)) && Valid()
    {
      StepInv(State(), Exit(w));
      wg := wg - 1;
      workers := workers[w := Exited];
    }
  }
}
