/** The worker pool in front of the plugin registry (internal/core/pool.go), as a
    state machine over its atomic steps: what one channel operation, one atomic
    store or one recovered panic does.  A run is any list of enabled steps, so it
    stands for every interleaving of callers, workers and Shutdown. */
module WorkerPool {

  type Job = nat

  datatype Reply = Resolved | LookupFailed | GenerationFailed

  /** The goroutine in Get, after its job was accepted. */
  datatype Caller = Waiting | Returned(reply: Reply) | Abandoned

  /** A worker goroutine.  answered is processJob's flag; Recovering is the stretch
      between the recovered panic and the end of processJob. */
  datatype Worker =
    | Idle
    | Busy(job: Job, answered: bool)
    | Recovering(job: Job, answered: bool)
    | Stopped
  {
    predicate Holds() {
      Busy? || Recovering?
    }
  }

  datatype Pool = Pool(
    capacity: nat,
    closed: bool,
    queue: seq<Job>,
    workers: seq<Worker>,
    channel: map<Job, Reply>,   // replies sent and not yet received, one slot per job
    callers: map<Job, Caller>,
    // history
    accepted: seq<Job>,
    taken: seq<Job>,
    answered: seq<Job>)

  datatype Step =
    | Submit(job: Job)                  // Get finds room in the queue
    | HandOff(job: Job, worker: nat)    // Get finds a worker already receiving
    | Overload(job: Job)                // Get finds neither
    | Refuse(job: Job)                  // Get after Shutdown
    | Take(worker: nat)
    | Answer(worker: nat, reply: Reply)
    | Panic(worker: nat)
    | Recover(worker: nat)
    | Finish(worker: nat)
    | Stop(worker: nat)
    | Receive(job: Job)
    | Cancel(job: Job)
    | Close

  predicate Started(p: Pool, w: nat) {
    w < |p.workers|
  }

  /** Send on a job's reply channel, which has one slot. */
  predicate CanSend(p: Pool, j: Job) {
    j !in p.channel
  }

  predicate Enabled(p: Pool, step: Step) {
    match step
    case Submit(j) => !p.closed && j !in p.accepted && |p.queue| < p.capacity
    case HandOff(j, w) => !p.closed && j !in p.accepted && p.queue == [] && Started(p, w) && p.workers[w].Idle?
    case Overload(j) => !p.closed && |p.queue| >= p.capacity
    case Refuse(j) => p.closed
    case Take(w) => Started(p, w) && p.workers[w].Idle? && p.queue != []
    case Answer(w, r) => Started(p, w) && p.workers[w].Busy? && !p.workers[w].answered && !r.GenerationFailed?
                         && CanSend(p, p.workers[w].job)
    case Panic(w) => Started(p, w) && p.workers[w].Busy?
    case Recover(w) => Started(p, w) && p.workers[w].Recovering?
                       && (p.workers[w].answered || CanSend(p, p.workers[w].job))
    case Finish(w) => Started(p, w) && p.workers[w].Busy? && p.workers[w].answered
    case Stop(w) => Started(p, w) && p.workers[w].Idle? && p.closed && p.queue == []
    case Receive(j) => j in p.callers && p.callers[j].Waiting? && j in p.channel
    case Cancel(j) => j in p.callers && p.callers[j].Waiting?
    case Close => !p.closed
  }

  function SetWorker(p: Pool, w: nat, worker: Worker): Pool
    requires Started(p, w)
  {
    p.(workers := p.workers[w := worker])
  }

  function Send(p: Pool, j: Job, r: Reply): Pool {
    p.(channel := p.channel[j := r], answered := p.answered + [j])
  }

  function Accept(p: Pool, j: Job): Pool {
    p.(accepted := p.accepted + [j], callers := p.callers[j := Waiting])
  }

  function Next(p: Pool, step: Step): Pool
    requires Enabled(p, step)
  {
    match step
    case Submit(j) => Accept(p, j).(queue := p.queue + [j])
    case HandOff(j, w) => SetWorker(Accept(p, j).(taken := p.taken + [j]), w, Busy(j, false))
    case Overload(j) => p
    case Refuse(j) => p
    case Take(w) =>
      SetWorker(p.(queue := p.queue[1..], taken := p.taken + [p.queue[0]]), w, Busy(p.queue[0], false))
    case Answer(w, r) => SetWorker(Send(p, p.workers[w].job, r), w, Busy(p.workers[w].job, true))
    case Panic(w) => SetWorker(p, w, Recovering(p.workers[w].job, p.workers[w].answered))
    case Recover(w) =>
      SetWorker(if p.workers[w].answered then p else Send(p, p.workers[w].job, GenerationFailed), w, Idle)
    case Finish(w) => SetWorker(p, w, Idle)
    case Stop(w) => SetWorker(p, w, Stopped)
    case Receive(j) => p.(callers := p.callers[j := Returned(p.channel[j])], channel := p.channel - {j})
    case Cancel(j) => p.(callers := p.callers[j := Abandoned])
    case Close => p.(closed := true)
  }

  /** The pool NewWorkerPool and Start leave behind. */
  function Init(capacity: nat, workers: nat): Pool {
    Pool(capacity, false, [], seq(workers, _ => Idle), map[], map[], [], [], [])
  }

  ghost predicate IsRun(p: Pool, steps: seq<Step>)
    decreases |steps|
  {
    steps == [] || (Enabled(p, steps[0]) && IsRun(Next(p, steps[0]), steps[1..]))
  }

  ghost function After(p: Pool, steps: seq<Step>): Pool
    requires IsRun(p, steps)
    decreases |steps|
  {
    if steps == [] then p else After(Next(p, steps[0]), steps[1..])
  }

  // ----- what every step keeps -----

  ghost predicate Distinct(js: seq<Job>) {
    forall i, k | 0 <= i < k < |js| :: js[i] != js[k]
  }

  /** Worker w holds job j and has not answered it. */
  ghost predicate InWorker(p: Pool, j: Job, w: nat) {
    Started(p, w) && p.workers[w].Holds() && p.workers[w].job == j && !p.workers[w].answered
  }

  ghost predicate Held(p: Pool, j: Job) {
    exists w: nat :: InWorker(p, j, w)
  }

  ghost predicate HistoryInv(p: Pool) {
    && |p.queue| <= p.capacity
    && Distinct(p.accepted)
    && Distinct(p.answered)
    && p.accepted == p.taken + p.queue
    && (forall j | j in p.answered :: j in p.taken)
    && (forall j | j in p.taken :: j in p.answered || Held(p, j))
  }

  ghost predicate WorkersInv(p: Pool) {
    && (forall w | 0 <= w < |p.workers| && p.workers[w].Holds() ::
          p.workers[w].job in p.taken && (p.workers[w].answered <==> p.workers[w].job in p.answered))
    && (forall v, w | 0 <= v < w < |p.workers| && p.workers[v].Holds() && p.workers[w].Holds() ::
          p.workers[v].job != p.workers[w].job)
    && (forall w | 0 <= w < |p.workers| && p.workers[w].Stopped? :: p.closed && p.queue == [])
  }

  ghost predicate CallersInv(p: Pool) {
    && (forall j :: j in p.callers <==> j in p.accepted)
    && (forall j | j in p.channel :: j in p.answered && j in p.callers && !p.callers[j].Returned?)
    && (forall j | j in p.callers && p.callers[j].Returned? :: j in p.answered)
    && (forall j | j in p.answered :: j in p.channel || (j in p.callers && p.callers[j].Returned?))
  }

  ghost predicate Inv(p: Pool) {
    HistoryInv(p) && WorkersInv(p) && CallersInv(p)
  }

  lemma InitInv(capacity: nat, workers: nat)
    ensures Inv(Init(capacity, workers))
  {
  }

  /** What is queued has not been taken yet. */
  lemma QueuedIsNotTaken(p: Pool, i: nat)
    requires HistoryInv(p) && i < |p.queue|
    ensures p.queue[i] !in p.taken
  {
    forall k | 0 <= k < |p.taken|
      ensures p.taken[k] != p.queue[i]
    {
      assert p.taken[k] == p.accepted[k] && p.queue[i] == p.accepted[|p.taken| + i];
    }
  }

  /** A worker starting on a job nobody has taken before. */
  lemma StartJob(p: Pool, q: Pool, w: nat, j: Job)
    requires HistoryInv(p) && WorkersInv(p) && Started(p, w) && p.workers[w].Idle? && j !in p.taken
    requires q.workers == p.workers[w := Busy(j, false)]
    requires q.taken == p.taken + [j] && q.answered == p.answered
    requires q.closed == p.closed && (q.queue == p.queue || (p.queue != [] && q.queue == p.queue[1..]))
    ensures WorkersInv(q)
    ensures forall k | k in q.taken :: k in q.answered || Held(q, k)
    ensures forall k | k in q.answered :: k in q.taken
  {
    forall k | k in q.taken && k !in q.answered
      ensures Held(q, k)
    {
      if k == j {
        assert InWorker(q, k, w);
      } else {
        assert k in p.taken && Held(p, k);
        var v: nat :| InWorker(p, k, v);
        assert InWorker(q, k, v);
      }
    }
  }

  /** A worker that keeps its job, or lets go of an answered one. */
  lemma MoveWorker(p: Pool, w: nat, worker: Worker)
    requires Inv(p) && Started(p, w)
    requires worker.Holds() ==>
             p.workers[w].Holds() && worker.job == p.workers[w].job && worker.answered == p.workers[w].answered
    requires p.workers[w].Holds() && !worker.Holds() ==> p.workers[w].answered
    requires worker.Stopped? ==> p.closed && p.queue == []
    ensures Inv(SetWorker(p, w, worker))
  {
    var q := SetWorker(p, w, worker);
    forall k | k in q.taken && k !in q.answered
      ensures Held(q, k)
    {
      assert Held(p, k);
      var v: nat :| InWorker(p, k, v);
      assert InWorker(q, k, v);
    }
  }

  /** The first reply to a job. */
  lemma SendReply(p: Pool, w: nat, r: Reply, worker: Worker)
    requires Inv(p) && Started(p, w) && p.workers[w].Holds() && !p.workers[w].answered
    requires worker == Busy(p.workers[w].job, true) || worker == Idle
    ensures Inv(SetWorker(Send(p, p.workers[w].job, r), w, worker))
  {
    var j := p.workers[w].job;
    var q := SetWorker(Send(p, j, r), w, worker);
    assert j !in p.answered;
    assert Distinct(q.answered);
    forall k | k in q.taken && k !in q.answered
      ensures Held(q, k)
    {
      assert k != j && Held(p, k);
      var v: nat :| InWorker(p, k, v);
      assert InWorker(q, k, v);
    }
    assert forall k :: k in q.answered <==> k in p.answered || k == j;
  }

  lemma AcceptJob(p: Pool, q: Pool, j: Job)
    requires HistoryInv(p) && CallersInv(p) && j !in p.accepted
    requires q.accepted == p.accepted + [j] && q.callers == p.callers[j := Waiting]
    requires q.channel == p.channel && q.answered == p.answered
    ensures Distinct(q.accepted) && CallersInv(q)
  {
    assert forall k | k in p.answered :: k in p.taken && k in p.accepted;
  }

  /** Steps that touch only the callers' side. */
  lemma SameJobs(p: Pool, q: Pool)
    requires HistoryInv(p) && WorkersInv(p)
    requires q.(channel := p.channel, callers := p.callers, closed := p.closed) == p && (p.closed ==> q.closed)
    ensures HistoryInv(q) && WorkersInv(q)
  {
    forall k | k in q.taken && k !in q.answered
      ensures Held(q, k)
    {
      assert Held(p, k);
      var v: nat :| InWorker(p, k, v);
      assert InWorker(q, k, v);
    }
  }

  lemma SubmitKeepsInv(p: Pool, j: Job)
    requires Inv(p) && Enabled(p, Submit(j))
    ensures Inv(Next(p, Submit(j)))
  {
    var q := Next(p, Submit(j));
    AcceptJob(p, q, j);
    assert q.accepted == q.taken + q.queue;
    forall k | k in q.taken && k !in q.answered
      ensures Held(q, k)
    {
      assert Held(p, k);
      var v: nat :| InWorker(p, k, v);
      assert InWorker(q, k, v);
    }
  }

  lemma HandOffKeepsInv(p: Pool, j: Job, w: nat)
    requires Inv(p) && Enabled(p, HandOff(j, w))
    ensures Inv(Next(p, HandOff(j, w)))
  {
    var q := Next(p, HandOff(j, w));
    AcceptJob(p, q, j);
    assert forall k | k in p.taken :: k in p.accepted;
    StartJob(p, q, w, j);
    assert q.accepted == q.taken + q.queue;
  }

  lemma TakeKeepsInv(p: Pool, w: nat)
    requires Inv(p) && Enabled(p, Take(w))
    ensures Inv(Next(p, Take(w)))
  {
    var q := Next(p, Take(w));
    QueuedIsNotTaken(p, 0);
    StartJob(p, q, w, p.queue[0]);
    assert q.accepted == q.taken + q.queue;
  }

  lemma StepKeepsInv(p: Pool, step: Step)
    requires Inv(p) && Enabled(p, step)
    ensures Inv(Next(p, step))
  {
    match step
    case Submit(j) => SubmitKeepsInv(p, j);
    case HandOff(j, w) => HandOffKeepsInv(p, j, w);
    case Take(w) => TakeKeepsInv(p, w);
    case Answer(w, r) => SendReply(p, w, r, Busy(p.workers[w].job, true));
    case Panic(w) => MoveWorker(p, w, Recovering(p.workers[w].job, p.workers[w].answered));
    case Recover(w) =>
      if p.workers[w].answered {
        MoveWorker(p, w, Idle);
      } else {
        SendReply(p, w, GenerationFailed, Idle);
      }
    case Finish(w) => MoveWorker(p, w, Idle);
    case Stop(w) => MoveWorker(p, w, Stopped);
    case _ => SameJobs(p, Next(p, step));
  }

  lemma {:induction false} RunKeepsInv(p: Pool, steps: seq<Step>)
    requires Inv(p) && IsRun(p, steps)
    ensures Inv(After(p, steps))
    ensures |After(p, steps).workers| == |p.workers| && After(p, steps).capacity == p.capacity
    decreases |steps|
  {
    if steps != [] {
      StepKeepsInv(p, steps[0]);
      RunKeepsInv(Next(p, steps[0]), steps[1..]);
    }
  }

  // ----- what that means for callers and for Shutdown -----

  ghost predicate Reachable(p: Pool) {
    exists capacity: nat, workers: nat, steps: seq<Step> :: ReachedBy(p, capacity, workers, steps)
  }

  ghost predicate ReachedBy(p: Pool, capacity: nat, workers: nat, steps: seq<Step>) {
    IsRun(Init(capacity, workers), steps) && After(Init(capacity, workers), steps) == p
  }

  lemma ReachableInv(p: Pool)
    requires Reachable(p)
    ensures Inv(p)
  {
    var capacity: nat, workers: nat, steps: seq<Step> :| ReachedBy(p, capacity, workers, steps);
    InitInv(capacity, workers);
    RunKeepsInv(Init(capacity, workers), steps);
  }

  /** The queue is bounded, jobs leave it in the order they were accepted, and every
      accepted job is queued, or held by one worker, or answered once. */
  lemma EveryJobIsInOnePlace(p: Pool)
    requires Reachable(p)
    ensures |p.queue| <= p.capacity
    ensures p.accepted == p.taken + p.queue
    ensures forall j | j in p.accepted :: j in p.queue || Held(p, j) || j in p.answered
    ensures forall j :: !(j in p.queue && Held(p, j)) && !(j in p.queue && j in p.answered)
    ensures forall j :: !(Held(p, j) && j in p.answered)
    ensures forall j, v: nat, w: nat | InWorker(p, j, v) && InWorker(p, j, w) :: v == w
    ensures Distinct(p.queue) && Distinct(p.answered)
    ensures forall j | j in p.answered :: j in p.accepted
  {
    ReachableInv(p);
    forall i, k | 0 <= i < k < |p.queue|
      ensures p.queue[i] != p.queue[k]
    {
      assert p.queue[i] == p.accepted[|p.taken| + i] && p.queue[k] == p.accepted[|p.taken| + k];
    }
    forall j | j in p.queue
      ensures j !in p.taken
    {
      var i :| 0 <= i < |p.queue| && p.queue[i] == j;
      QueuedIsNotTaken(p, i);
    }
  }

  /** A worker about to reply, after a lookup or after a panic, always finds the
      reply channel's one slot free, so no step below waits for a caller. */
  lemma RepliesNeverBlock(p: Pool, w: nat)
    requires Reachable(p) && Started(p, w) && p.workers[w].Holds() && !p.workers[w].answered
    ensures CanSend(p, p.workers[w].job)
    ensures p.workers[w].Busy? ==> forall r: Reply :: !r.GenerationFailed? ==> Enabled(p, Answer(w, r))
    ensures p.workers[w].Recovering? ==> Enabled(p, Recover(w))
  {
    ReachableInv(p);
  }

  /** Panics cost no worker: the goroutines Start made are all there, and one ends
      only once the queue is closed and empty. */
  lemma WorkersSurvive(capacity: nat, workers: nat, steps: seq<Step>)
    requires IsRun(Init(capacity, workers), steps)
    ensures var p := After(Init(capacity, workers), steps);
            |p.workers| == workers &&
            ((p.closed && p.queue == []) || forall w | 0 <= w < workers :: !p.workers[w].Stopped?)
  {
    InitInv(capacity, workers);
    RunKeepsInv(Init(capacity, workers), steps);
  }

  /** wg.Wait has returned, so Shutdown returns 0. */
  ghost predicate AllStopped(p: Pool) {
    forall w | 0 <= w < |p.workers| :: p.workers[w].Stopped?
  }

  /** When all workers have finished, every accepted job was answered, provided
      there were workers at all or nothing was left in the queue.  Without Start,
      wg.Wait returns at once and Shutdown reports 0 over a queue that is not empty. */
  lemma ShutdownAnswersEveryone(p: Pool)
    requires Reachable(p) && AllStopped(p)
    ensures (forall j | j in p.accepted :: j in p.answered) <==> (|p.workers| > 0 || p.queue == [])
  {
    EveryJobIsInOnePlace(p);
    ReachableInv(p);
    if |p.workers| > 0 {
      assert p.workers[0].Stopped?;
    }
    if p.queue != [] {
      assert p.queue[0] in p.accepted && p.queue[0] !in p.answered;
    }
  }

  lemma PoolNeverStarted()
    ensures exists p: Pool :: Reachable(p) && AllStopped(p) && p.closed && |p.accepted| == 1 && p.answered == []
  {
    var p0 := Init(1, 0);
    var steps := [Submit(7), Close];
    assert steps[1..] == [Close];
    assert IsRun(p0, steps);
    assert ReachedBy(After(p0, steps), 1, 0, steps);
  }

  // ----- what a caller is told -----

  /** Step i gives job j the reply r: the worker that holds the job answers it, or comes
      back from a panic over a job it has not answered. */
  ghost predicate AnsweredAt(p: Pool, steps: seq<Step>, i: nat, j: Job, r: Reply) {
    && i < |steps| && IsRun(p, steps[..i])
    && var q := After(p, steps[..i]);
       match steps[i]
       case Answer(w, reply) => reply == r && InWorker(q, j, w)
       case Recover(w) => r == GenerationFailed && InWorker(q, j, w)
       case _ => false
  }

  ghost predicate Replied(p: Pool, steps: seq<Step>, j: Job, r: Reply) {
    exists i: nat :: AnsweredAt(p, steps, i, j, r)
  }

  /** The run up to its last step, and that step. */
  lemma {:induction false} LastStep(p: Pool, steps: seq<Step>)
    requires IsRun(p, steps) && steps != []
    ensures var n := |steps| - 1;
            && IsRun(p, steps[..n]) && Enabled(After(p, steps[..n]), steps[n])
            && After(p, steps) == Next(After(p, steps[..n]), steps[n])
    decreases |steps|
  {
    var n := |steps| - 1;
    if n > 0 {
      LastStep(Next(p, steps[0]), steps[1..]);
      assert steps[1..][..n - 1] == steps[..n][1..];
    }
  }

  /** A job is given one reply at most, and each is on record with the pool. */
  ghost predicate OnRecord(p: Pool, steps: seq<Step>, q: Pool) {
    && (forall j, r | Replied(p, steps, j, r) :: j in q.answered)
    && (forall j, r, s | Replied(p, steps, j, r) && Replied(p, steps, j, s) :: r == s)
    && (forall j | j in q.channel :: Replied(p, steps, j, q.channel[j]))
  }

  lemma RepliedBefore(p: Pool, steps: seq<Step>, j: Job, r: Reply)
    requires IsRun(p, steps) && steps != []
    ensures var n := |steps| - 1;
            Replied(p, steps, j, r) <==> Replied(p, steps[..n], j, r) || AnsweredAt(p, steps, n, j, r)
  {
    var n := |steps| - 1;
    forall i: nat | i < n
      ensures AnsweredAt(p, steps, i, j, r) <==> AnsweredAt(p, steps[..n], i, j, r)
    {
      assert steps[..n][..i] == steps[..i];
    }
  }

  /** The step that answers a job finds it unanswered and leaves it answered. */
  lemma AnsweringStep(p: Pool, steps: seq<Step>, j: Job, r: Reply)
    requires IsRun(p, steps) && steps != [] && AnsweredAt(p, steps, |steps| - 1, j, r)
    requires Inv(After(p, steps[..|steps| - 1])) && Enabled(After(p, steps[..|steps| - 1]), steps[|steps| - 1])
    ensures var q := After(p, steps[..|steps| - 1]);
            && j !in q.answered && steps[|steps| - 1].worker < |q.workers| &&
              q.workers[steps[|steps| - 1].worker].job == j
            && var next := Next(q, steps[|steps| - 1]);
               next.answered == q.answered + [j] && next.channel == q.channel[j := r] && next.callers == q.callers
  {
  }

  lemma {:induction false} RecordIsKept(p: Pool, steps: seq<Step>)
    requires Inv(p) && p.answered == [] && p.channel == map[] && IsRun(p, steps)
    ensures Inv(After(p, steps)) && OnRecord(p, steps, After(p, steps))
    decreases |steps|
  {
    RunKeepsInv(p, steps);
    if steps != [] {
      var n := |steps| - 1;
      LastStep(p, steps);
      RecordIsKept(p, steps[..n]);
      RecordStep(p, steps);
    }
  }

  lemma RecordStep(p: Pool, steps: seq<Step>)
    requires IsRun(p, steps) && steps != []
    requires var n := |steps| - 1;
             && IsRun(p, steps[..n]) && Enabled(After(p, steps[..n]), steps[n]) && Inv(After(p, steps[..n]))
             && After(p, steps) == Next(After(p, steps[..n]), steps[n])
             && OnRecord(p, steps[..n], After(p, steps[..n]))
    ensures OnRecord(p, steps, After(p, steps))
  {
    var n := |steps| - 1;
    var before, after := After(p, steps[..n]), After(p, steps);
    forall j, r | Replied(p, steps, j, r)
      ensures j in after.answered
      ensures forall s | Replied(p, steps, j, s) :: r == s
    {
      RepliedBefore(p, steps, j, r);
      if AnsweredAt(p, steps, n, j, r) {
        AnsweringStep(p, steps, j, r);
      }
      forall s | Replied(p, steps, j, s)
        ensures r == s
      {
        RepliedBefore(p, steps, j, s);
        if AnsweredAt(p, steps, n, j, s) {
          AnsweringStep(p, steps, j, s);
        }
      }
    }
    forall j | j in after.channel
      ensures Replied(p, steps, j, after.channel[j])
    {
      RepliedBefore(p, steps, j, after.channel[j]);
      if j !in before.channel || before.channel[j] != after.channel[j] {
        assert AnsweredAt(p, steps, n, j, after.channel[j]);
      }
    }
  }

  /** The caller of job j receives at step k, after the job was given the reply. */
  ghost predicate ToldAt(p: Pool, steps: seq<Step>, k: nat, j: Job, r: Reply) {
    k < |steps| && steps[k] == Receive(j) && Replied(p, steps[..k], j, r)
  }

  ghost predicate Told(p: Pool, steps: seq<Step>, j: Job, r: Reply) {
    exists k: nat :: ToldAt(p, steps, k, j, r)
  }

  lemma ToldBefore(p: Pool, steps: seq<Step>, j: Job, r: Reply)
    requires steps != []
    ensures var n := |steps| - 1;
            Told(p, steps, j, r) <==> Told(p, steps[..n], j, r) || ToldAt(p, steps, n, j, r)
  {
    var n := |steps| - 1;
    forall k: nat | k < n
      ensures ToldAt(p, steps, k, j, r) <==> ToldAt(p, steps[..n], k, j, r)
    {
      assert steps[..n][..k] == steps[..k];
    }
  }

  /** What has become of the caller, by the steps taken: it returns what its worker
      answered, or the failure after a panic; it gives up if it is cancelled first; and
      otherwise it waits. */
  ghost predicate CallerByRun(p: Pool, steps: seq<Step>, q: Pool, j: Job) {
    ReturnsByRun(p, steps, q, j) && WaitsByRun(steps, q, j)
  }

  ghost predicate ReturnsByRun(p: Pool, steps: seq<Step>, q: Pool, j: Job) {
    forall r :: j in q.callers && q.callers[j] == Returned(r) <==> Told(p, steps, j, r)
  }

  ghost predicate WaitsByRun(steps: seq<Step>, q: Pool, j: Job) {
    && (j in q.callers && q.callers[j].Abandoned? <==> Cancel(j) in steps)
    && (j in q.callers && q.callers[j].Waiting? <==> j in q.accepted && Cancel(j) !in steps && Receive(j) !in steps)
    && (Receive(j) in steps ==> j in q.callers && q.callers[j].Returned?)
  }

  lemma {:induction false} CallerFollowsRun(p: Pool, steps: seq<Step>, j: Job)
    requires Inv(p) && p.answered == [] && p.channel == map[] && p.callers == map[] && IsRun(p, steps)
    ensures CallerByRun(p, steps, After(p, steps), j)
    decreases |steps|
  {
    if steps != [] {
      var n := |steps| - 1;
      LastStep(p, steps);
      CallerFollowsRun(p, steps[..n], j);
      RecordIsKept(p, steps[..n]);
      ReturnStep(p, steps, j);
      WaitStep(steps[..n], After(p, steps[..n]), steps[n], j);
      assert steps == steps[..n] + [steps[n]];
    }
  }

  lemma WaitStep(steps: seq<Step>, q: Pool, step: Step, j: Job)
    requires Inv(q) && Enabled(q, step) && WaitsByRun(steps, q, j)
    ensures WaitsByRun(steps + [step], Next(q, step), j)
  {
  }

  lemma ReturnStep(p: Pool, steps: seq<Step>, j: Job)
    requires IsRun(p, steps) && steps != []
    requires var n := |steps| - 1;
             && IsRun(p, steps[..n]) && Enabled(After(p, steps[..n]), steps[n]) && Inv(After(p, steps[..n]))
             && After(p, steps) == Next(After(p, steps[..n]), steps[n])
             && OnRecord(p, steps[..n], After(p, steps[..n]))
             && ReturnsByRun(p, steps[..n], After(p, steps[..n]), j)
    ensures ReturnsByRun(p, steps, After(p, steps), j)
  {
    var n := |steps| - 1;
    var before, after := After(p, steps[..n]), After(p, steps);
    forall r
      ensures j in after.callers && after.callers[j] == Returned(r) <==> Told(p, steps, j, r)
    {
      ToldBefore(p, steps, j, r);
      if steps[n] == Receive(j) {
        assert Replied(p, steps[..n], j, before.channel[j]);
        assert ToldAt(p, steps, n, j, r) <==> r == before.channel[j];
      }
    }
  }

  /** Over whole runs: a caller returns r exactly if its job was given the reply r before it
      received, by the worker that held the job or by that worker's panic. */
  lemma CallerIsTold(capacity: nat, workers: nat, steps: seq<Step>, j: Job)
    requires IsRun(Init(capacity, workers), steps)
    ensures CallerByRun(Init(capacity, workers), steps, After(Init(capacity, workers), steps), j)
    ensures var p := Init(capacity, workers);
            forall r, s | Replied(p, steps, j, r) && Replied(p, steps, j, s) :: r == s
  {
    InitInv(capacity, workers);
    CallerFollowsRun(Init(capacity, workers), steps, j);
    RecordIsKept(Init(capacity, workers), steps);
  }

  lemma {:induction false} EnabledAt(p: Pool, steps: seq<Step>, i: nat)
    requires IsRun(p, steps) && i < |steps|
    ensures IsRun(p, steps[..i]) && Enabled(After(p, steps[..i]), steps[i])
    decreases |steps|
  {
    LastStep(p, steps);
    var n := |steps| - 1;
    if i < n {
      EnabledAt(p, steps[..n], i);
      assert steps[..n][..i] == steps[..i];
    }
  }

  /** The failure that a panic stands for is told after a panic alone. */
  lemma FailureMeansPanic(p: Pool, steps: seq<Step>, i: nat, j: Job)
    requires IsRun(p, steps) && AnsweredAt(p, steps, i, j, GenerationFailed)
    ensures steps[i].Recover?
  {
    EnabledAt(p, steps, i);
  }

  /** A panic after the answer does not change it. */
  lemma PanicAfterAnswer(p: Pool, w: nat, j: Job, r: Reply)
    requires Reachable(p) && Enabled(p, Answer(w, r)) && p.workers[w].job == j
    requires j in p.callers && p.callers[j].Waiting?
    ensures var steps := [Answer(w, r), Panic(w), Recover(w), Receive(j)];
            && IsRun(p, steps) && After(p, steps).workers == p.workers[w := Idle]
            && After(p, steps).callers == p.callers[j := Returned(r)]
  {
    ReachableInv(p);
    var a := SetWorker(Send(p, j, r), w, Busy(j, true));
    var b := SetWorker(a, w, Recovering(j, true));
    var c := SetWorker(b, w, Idle);
    AnsweredPanic(p, w, j, r, a, b, c);
    RunOfFour(p, Answer(w, r), a, Panic(w), b, Recover(w), c, Receive(j), Next(c, Receive(j)));
  }

  lemma AnsweredPanic(p: Pool, w: nat, j: Job, r: Reply, a: Pool, b: Pool, c: Pool)
    requires Enabled(p, Answer(w, r)) && p.workers[w].job == j && j in p.callers && p.callers[j].Waiting?
    requires a == SetWorker(Send(p, j, r), w, Busy(j, true)) && b == SetWorker(a, w, Recovering(j, true))
    requires c == SetWorker(b, w, Idle)
    ensures Next(p, Answer(w, r)) == a && Enabled(a, Panic(w)) && Next(a, Panic(w)) == b
    ensures Enabled(b, Recover(w)) && Next(b, Recover(w)) == c && Enabled(c, Receive(j))
    ensures c.workers == p.workers[w := Idle] && Next(c, Receive(j)).callers == p.callers[j := Returned(r)]
  {
  }

  lemma RunOfFour(p: Pool, a: Step, p1: Pool, b: Step, p2: Pool, c: Step, p3: Pool, d: Step, p4: Pool)
    requires Enabled(p, a) && Next(p, a) == p1 && Enabled(p1, b) && Next(p1, b) == p2
    requires Enabled(p2, c) && Next(p2, c) == p3 && Enabled(p3, d) && Next(p3, d) == p4
    ensures IsRun(p, [a, b, c, d]) && After(p, [a, b, c, d]) == p4
  {
    assert IsRun(p4, []);
    assert [a, b, c, d][1..] == [b, c, d] && [b, c, d][1..] == [c, d] && [c, d][1..] == [d] && [d][1..] == [];
    assert IsRun(p3, [d]) && After(p3, [d]) == p4;
    assert IsRun(p2, [c, d]) && After(p2, [c, d]) == p4;
    assert IsRun(p1, [b, c, d]) && After(p1, [b, c, d]) == p4;
  }

  /** A caller whose job is answered can always receive. */
  lemma AnswerCanBeReceived(p: Pool, j: Job)
    requires Reachable(p) && j in p.answered && j in p.callers && p.callers[j].Waiting?
    ensures Enabled(p, Receive(j))
  {
    ReachableInv(p);
  }

  /** Get is turned away by history alone: after Close, or when as many jobs as the queue
      holds are accepted and not taken. */
  lemma TurnedAwayIff(p: Pool, j: Job)
    requires Reachable(p) && j !in p.accepted
    ensures Enabled(p, Refuse(j)) <==> p.closed
    ensures Enabled(p, Overload(j)) <==> !p.closed && |p.accepted| - |p.taken| == p.capacity
    ensures Enabled(p, Submit(j)) <==> !p.closed && |p.accepted| - |p.taken| < p.capacity
  {
    ReachableInv(p);
  }

  // ----- draining after Close -----

  predicate ByWorker(step: Step) {
    step.Take? || step.Answer? || step.Panic? || step.Recover? || step.Finish? || step.Stop?
  }

  function Weight(w: Worker): nat {
    match w
    case Stopped => 0
    case Idle => 1
    case Recovering(_, _) => 2
    case Busy(_, answered) => if answered then 3 else 4
  }

  function Weights(ws: seq<Worker>): nat {
    if ws == [] then 0 else Weight(ws[0]) + Weights(ws[1..])
  }

  lemma {:induction false} WeightsUpdate(ws: seq<Worker>, i: nat, w: Worker)
    requires i < |ws|
    ensures Weights(ws[i := w]) + Weight(ws[i]) == Weights(ws) + Weight(w)
  {
    if i > 0 {
      assert ws[i := w][1..] == ws[1..][i - 1 := w];
      WeightsUpdate(ws[1..], i - 1, w);
    } else {
      assert ws[i := w][1..] == ws[1..];
    }
  }

  /** How many worker steps a closed pool can still take. */
  function Remaining(p: Pool): nat {
    4 * |p.queue| + Weights(p.workers)
  }

  lemma WorkerStepsRunOut(p: Pool, step: Step)
    requires p.closed && Enabled(p, step)
    ensures Next(p, step).closed
    ensures ByWorker(step) ==> Remaining(Next(p, step)) < Remaining(p)
    ensures !ByWorker(step) ==> Remaining(Next(p, step)) == Remaining(p)
  {
    if ByWorker(step) {
      WeightsUpdate(p.workers, step.worker, Next(p, step).workers[step.worker]);
    }
  }

  /** Once closed, the pool drains in at most Remaining(p) worker steps whatever the
      lookups do, panics included: while a worker is left, some worker can move. */
  lemma ClosedPoolDrains(p: Pool)
    requires Reachable(p) && p.closed && !AllStopped(p)
    ensures exists step: Step :: ByWorker(step) && Enabled(p, step) && Remaining(Next(p, step)) < Remaining(p)
  {
    var w: nat :| w < |p.workers| && !p.workers[w].Stopped?;
    var step := match p.workers[w]
      case Idle => if p.queue != [] then Take(w) else Stop(w)
      case Busy(_, answered) => if answered then Finish(w) else Answer(w, LookupFailed)
      case Recovering(_, _) => Recover(w)
      case Stopped => Stop(w);
    if p.workers[w].Holds() && !p.workers[w].answered {
      RepliesNeverBlock(p, w);
    }
    assert Enabled(p, step);
    WorkerStepsRunOut(p, step);
  }
}
