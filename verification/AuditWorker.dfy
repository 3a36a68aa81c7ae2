/** The audit worker: a bounded queue, batches, retried writes
    (internal/adapters/audit/worker.go).  The class holds the worker's fields; each
    method is one Send or one turn of Run's loop and is proved against a step
    function on values, so that a list of steps stands for any interleaving of
    senders with the one goroutine that runs the loop. */
module AuditWorker {

  type Entry = nat

  /** What became of a batch: written, counted as lost, or dropped by a panic. */
  datatype Fate = Saved | LostOnSave | Panicked

  datatype Flush = Flush(batch: seq<Entry>, fate: Fate)

  datatype Config = Config(bufferSize: nat, batchSize: nat, maxSaveRetries: int, enqueueTimeout: nat)

  datatype Ledger = Ledger(
    cfg: Config,
    queue: seq<Entry>,
    batch: seq<Entry>,
    pending: int,
    closed: bool,
    done: bool,
    lostOnEnqueue: nat,     // audit_events_lost_total by reason
    lostOnSave: nat,
    stored: seq<seq<Entry>>, // statements the database acknowledged
    // history
    sent: seq<Entry>,
    rejected: seq<Entry>,
    enqueued: seq<Entry>,
    flushes: seq<Flush>)

  // ----- one write -----

  /** What SaveBatch answers.  A write that takes effect and then reports an error is one
      that failed: the worker cannot tell, and counts its events as lost. */
  datatype Answer = Accepted | Failed | Panics

  /** The fate of a batch from this attempt on: answer(i) is what SaveBatch does the
      i-th time, expired(i) says the deadline ends the wait after it.  With a
      negative retry limit no attempt is made and the nil error is dereferenced. */
  function SaveFate(maxRetries: int, answer: int -> Answer, expired: int -> bool, attempt: nat): Fate
    decreases maxRetries - attempt
  {
    if attempt > maxRetries then Panicked
    else match answer(attempt)
      case Accepted => Saved
      case Panics => Panicked
      case Failed =>
        if attempt == maxRetries || expired(attempt) then LostOnSave
        else SaveFate(maxRetries, answer, expired, attempt + 1)
  }

  /** Attempt k is made: all before it failed in time to be retried. */
  ghost predicate Attempted(maxRetries: int, answer: int -> Answer, expired: int -> bool, k: nat) {
    k <= maxRetries && forall i | 0 <= i < k :: answer(i).Failed? && !expired(i)
  }

  /** A batch is saved exactly when some attempt that is made is accepted. */
  lemma SavedIff(maxRetries: int, answer: int -> Answer, expired: int -> bool)
    ensures SaveFate(maxRetries, answer, expired, 0).Saved? <==>
            exists k: nat :: Attempted(maxRetries, answer, expired, k) && answer(k).Accepted?
    ensures SaveFate(maxRetries, answer, expired, 0).Panicked? <==>
            maxRetries < 0 || exists k: nat :: Attempted(maxRetries, answer, expired, k) && answer(k).Panics?
  {
    if maxRetries >= 0 {
      FateFrom(maxRetries, answer, expired, 0);
    }
  }

  lemma {:induction false} FateFrom(maxRetries: int, answer: int -> Answer, expired: int -> bool, from: nat)
    requires Attempted(maxRetries, answer, expired, from)
    ensures SaveFate(maxRetries, answer, expired, from).Saved? <==>
            exists k: nat | from <= k :: Attempted(maxRetries, answer, expired, k) && answer(k).Accepted?
    ensures SaveFate(maxRetries, answer, expired, from).Panicked? <==>
            exists k: nat | from <= k :: Attempted(maxRetries, answer, expired, k) && answer(k).Panics?
    decreases maxRetries - from
  {
    if answer(from).Failed? && from < maxRetries && !expired(from) {
      FateFrom(maxRetries, answer, expired, from + 1);
    } else {
      assert forall k: nat | from < k :: !Attempted(maxRetries, answer, expired, k);
    }
  }

  // ----- steps -----

  datatype Step =
    | Send(entry: Entry)
    | Drop(entry: Entry)
    | HandOff(entry: Entry, fate: Fate)   // a sender meets the waiting loop directly
    | Receive(fate: Fate)
    | Tick(fate: Fate)
    | Close
    | Finish(fate: Fate)

  predicate Enabled(w: Ledger, step: Step) {
    match step
    case Send(_) => !w.closed && |w.queue| < w.cfg.bufferSize
    // a zero timeout never waits, so it drops only over a full queue
    case Drop(_) => !w.closed && (w.cfg.enqueueTimeout == 0 ==> |w.queue| >= w.cfg.bufferSize)
    case HandOff(_, _) => !w.closed && !w.done && w.queue == []
    case Receive(_) => !w.done && w.queue != []
    case Tick(_) => !w.done
    case Close => !w.closed
    case Finish(_) => w.closed && !w.done && w.queue == []
  }

  function Flushed(w: Ledger, fate: Fate): Ledger {
    if w.batch == [] then w
    else w.(batch := [], pending := 0,
            flushes := w.flushes + [Flush(w.batch, fate)],
            stored := if fate.Saved? then w.stored + [w.batch] else w.stored,
            lostOnSave := w.lostOnSave + if fate.LostOnSave? then |w.batch| else 0)
  }

  function Taken(w: Ledger, entry: Entry, fate: Fate): Ledger {
    var w' := w.(batch := w.batch + [entry], pending := |w.batch| + 1);
    if |w'.batch| >= w.cfg.batchSize then Flushed(w', fate) else w'
  }

  function Enqueued(w: Ledger, entry: Entry): Ledger {
    w.(queue := w.queue + [entry], sent := w.sent + [entry], enqueued := w.enqueued + [entry])
  }

  function Next(w: Ledger, step: Step): Ledger
    requires Enabled(w, step)
  {
    match step
    case Send(entry) => Enqueued(w, entry)
    case Drop(entry) =>
      w.(sent := w.sent + [entry], rejected := w.rejected + [entry], lostOnEnqueue := w.lostOnEnqueue + 1)
    case HandOff(entry, fate) => Taken(Enqueued(w, entry).(queue := []), entry, fate)
    case Receive(fate) => Taken(w.(queue := w.queue[1..]), w.queue[0], fate)
    case Tick(fate) => Flushed(w, fate)
    case Close => w.(closed := true)
    case Finish(fate) => Flushed(w, fate).(done := true)
  }

  function Init(cfg: Config): Ledger {
    Ledger(cfg, [], [], 0, false, false, 0, 0, [], [], [], [], [])
  }

  ghost predicate IsRun(w: Ledger, steps: seq<Step>)
    decreases |steps|
  {
    steps == [] || (Enabled(w, steps[0]) && IsRun(Next(w, steps[0]), steps[1..]))
  }

  ghost function After(w: Ledger, steps: seq<Step>): Ledger
    requires IsRun(w, steps)
    decreases |steps|
  {
    if steps == [] then w else After(Next(w, steps[0]), steps[1..])
  }

  // ----- what every step keeps -----

  function Flat(flushes: seq<Flush>): seq<Entry> {
    if flushes == [] then [] else flushes[0].batch + Flat(flushes[1..])
  }

  function WithFate(flushes: seq<Flush>, fate: Fate): seq<Flush> {
    if flushes == [] then []
    else (if flushes[0].fate == fate then [flushes[0]] else []) + WithFate(flushes[1..], fate)
  }

  function Batches(flushes: seq<Flush>): seq<seq<Entry>> {
    seq(|flushes|, i requires 0 <= i < |flushes| => flushes[i].batch)
  }

  function Limit(cfg: Config): nat {
    if cfg.batchSize == 0 then 1 else cfg.batchSize
  }

  /** What was stored and counted agrees with the flushes. */
  ghost predicate Counted(w: Ledger) {
    && (forall i | 0 <= i < |w.flushes| :: 1 <= |w.flushes[i].batch| <= Limit(w.cfg))
    && w.stored == Batches(WithFate(w.flushes, Saved))
    && w.lostOnSave == |Flat(WithFate(w.flushes, LostOnSave))|
    && w.lostOnEnqueue == |w.rejected|
    && multiset(w.sent) == multiset(w.enqueued) + multiset(w.rejected)
  }

  /** The entries accepted are, in order, those flushed batch by batch, then the
      batch being filled, then the queue; what was stored and counted agrees. */
  ghost predicate Sound(w: Ledger) {
    && |w.queue| <= w.cfg.bufferSize
    && w.enqueued == Flat(w.flushes) + w.batch + w.queue
    && w.pending == |w.batch| <= Limit(w.cfg)
    && (w.done ==> w.closed && w.queue == [] && w.batch == [])
    && Counted(w)
  }

  /** Between turns of the loop the batch is never full. */
  ghost predicate Inv(w: Ledger) {
    Sound(w) && |w.batch| < Limit(w.cfg)
  }

  lemma {:induction false} FlatAppend(flushes: seq<Flush>, f: Flush)
    ensures Flat(flushes + [f]) == Flat(flushes) + f.batch
  {
    if flushes == [] {
      assert [] + [f] == [f];
    } else {
      assert (flushes + [f])[1..] == flushes[1..] + [f];
      FlatAppend(flushes[1..], f);
    }
  }

  lemma {:induction false} WithFateAppend(flushes: seq<Flush>, f: Flush, fate: Fate)
    ensures WithFate(flushes + [f], fate) == WithFate(flushes, fate) + if f.fate == fate then [f] else []
  {
    if flushes == [] {
      assert [] + [f] == [f];
    } else {
      var rest := flushes[1..];
      WithFateAppend(rest, f, fate);
      var first := if flushes[0].fate == fate then [flushes[0]] else [];
      var last := if f.fate == fate then [f] else [];
      assert (flushes + [f])[0] == flushes[0] && (flushes + [f])[1..] == rest + [f];
      assert first + (WithFate(rest, fate) + last) == first + WithFate(rest, fate) + last;
    }
  }

  lemma FlushKeepsInv(w: Ledger, fate: Fate)
    requires Sound(w)
    ensures Inv(Flushed(w, fate)) && Flushed(w, fate).batch == []
  {
    if w.batch != [] {
      var f := Flush(w.batch, fate);
      FlatAppend(w.flushes, f);
      WithFateAppend(w.flushes, f, Saved);
      WithFateAppend(w.flushes, f, LostOnSave);
      FlatAppend(WithFate(w.flushes, LostOnSave), f);
      assert Batches(WithFate(w.flushes, Saved) + [f]) == Batches(WithFate(w.flushes, Saved)) + [w.batch];
      assert Flat(w.flushes) + w.batch + w.queue == (Flat(w.flushes) + w.batch) + [] + w.queue;
      assert WithFate(w.flushes, LostOnSave) + [] == WithFate(w.flushes, LostOnSave);
      assert WithFate(w.flushes, Saved) + [] == WithFate(w.flushes, Saved);
    }
  }

  /** The loop has just taken entry off the queue. */
  lemma TakenKeepsInv(w: Ledger, entry: Entry, fate: Fate)
    requires !w.done && |w.batch| < Limit(w.cfg) && |w.queue| <= w.cfg.bufferSize && Counted(w)
    requires w.enqueued == Flat(w.flushes) + w.batch + [entry] + w.queue
    ensures Inv(Taken(w, entry, fate))
  {
    var w' := w.(batch := w.batch + [entry], pending := |w.batch| + 1);
    Appended(Flat(w.flushes), w.batch, entry, w.queue);
    FlushKeepsInv(w', fate);
  }

  lemma Appended(a: seq<Entry>, b: seq<Entry>, entry: Entry, c: seq<Entry>)
    ensures a + b + [entry] + c == a + (b + [entry]) + c
  {
  }

  lemma HandOffKeepsInv(w: Ledger, entry: Entry, fate: Fate)
    requires Inv(w) && Enabled(w, HandOff(entry, fate))
    ensures Inv(Next(w, HandOff(entry, fate)))
  {
    assert w.enqueued + [entry] == Flat(w.flushes) + w.batch + [entry] + [];
    TakenKeepsInv(Enqueued(w, entry).(queue := []), entry, fate);
  }

  lemma ReceiveKeepsInv(w: Ledger, fate: Fate)
    requires Inv(w) && Enabled(w, Receive(fate))
    ensures Inv(Next(w, Receive(fate)))
  {
    assert w.enqueued == Flat(w.flushes) + w.batch + [w.queue[0]] + w.queue[1..];
    TakenKeepsInv(w.(queue := w.queue[1..]), w.queue[0], fate);
  }

  lemma SendKeepsInv(w: Ledger, entry: Entry)
    requires Inv(w) && Enabled(w, Send(entry))
    ensures Inv(Next(w, Send(entry)))
  {
    assert w.enqueued + [entry] == Flat(w.flushes) + w.batch + (w.queue + [entry]);
  }

  lemma DropKeepsInv(w: Ledger, entry: Entry)
    requires Inv(w) && Enabled(w, Drop(entry))
    ensures Inv(Next(w, Drop(entry)))
  {
  }

  lemma StepKeepsInv(w: Ledger, step: Step)
    requires Inv(w) && Enabled(w, step)
    ensures Inv(Next(w, step))
  {
    match step
    case Send(entry) => SendKeepsInv(w, entry);
    case Drop(entry) => DropKeepsInv(w, entry);
    case HandOff(entry, fate) => HandOffKeepsInv(w, entry, fate);
    case Receive(fate) => ReceiveKeepsInv(w, fate);
    case Tick(fate) => FlushKeepsInv(w, fate);
    case Close =>
    case Finish(fate) => FlushKeepsInv(w, fate);
  }

  lemma {:induction false} RunKeepsInv(w: Ledger, steps: seq<Step>)
    requires Inv(w) && IsRun(w, steps)
    ensures Inv(After(w, steps)) && After(w, steps).cfg == w.cfg
    decreases |steps|
  {
    if steps != [] {
      StepKeepsInv(w, steps[0]);
      RunKeepsInv(Next(w, steps[0]), steps[1..]);
    }
  }

  // ----- whole runs -----

  lemma {:induction false} FatesPartition(flushes: seq<Flush>)
    ensures multiset(Flat(flushes)) ==
            multiset(Flat(WithFate(flushes, Saved))) + multiset(Flat(WithFate(flushes, LostOnSave)))
            + multiset(Flat(WithFate(flushes, Panicked)))
    ensures |Flat(flushes)| == |Flat(WithFate(flushes, Saved))| + |Flat(WithFate(flushes, LostOnSave))|
                               + |Flat(WithFate(flushes, Panicked))|
  {
    if flushes != [] {
      var f, rest := flushes[0], flushes[1..];
      FatesPartition(rest);
      forall fate: Fate
        ensures Flat(WithFate(flushes, fate)) == (if f.fate == fate then f.batch else []) + Flat(WithFate(rest, fate))
      {
        assert ([f] + WithFate(rest, fate))[1..] == WithFate(rest, fate);
        assert [] + WithFate(rest, fate) == WithFate(rest, fate);
      }
    }
  }

  /** After a drained run every event sent was stored, or counted as lost on save,
      or counted as lost on enqueue, or was in a batch whose write panicked; nothing
      is duplicated, and the counters are those numbers. */
  lemma Conservation(cfg: Config, steps: seq<Step>)
    requires IsRun(Init(cfg), steps) && After(Init(cfg), steps).done
    ensures var w := After(Init(cfg), steps);
            multiset(w.sent) == multiset(Flat(WithFate(w.flushes, Saved)))
              + multiset(Flat(WithFate(w.flushes, LostOnSave)))
                                + multiset(Flat(WithFate(w.flushes, Panicked))) + multiset(w.rejected)
    ensures var w := After(Init(cfg), steps);
            w.lostOnEnqueue == |w.rejected| && w.lostOnSave == |Flat(WithFate(w.flushes, LostOnSave))|
  {
    RunKeepsInv(Init(cfg), steps);
    var w := After(Init(cfg), steps);
    FatesPartition(w.flushes);
    assert w.enqueued == Flat(w.flushes);
  }

  /** The two counters and the stored rows account for every event exactly when no
      write panicked: the barrier in flush clears such a batch without counting it. */
  lemma CountersAccountIff(cfg: Config, steps: seq<Step>)
    requires IsRun(Init(cfg), steps) && After(Init(cfg), steps).done
    ensures var w := After(Init(cfg), steps);
            |w.sent| == |Flat(WithFate(w.flushes, Saved))| + w.lostOnSave + w.lostOnEnqueue <==>
            forall i | 0 <= i < |w.flushes| :: !w.flushes[i].fate.Panicked?
  {
    RunKeepsInv(Init(cfg), steps);
    var w := After(Init(cfg), steps);
    FatesPartition(w.flushes);
    assert w.enqueued == Flat(w.flushes);
    assert |multiset(w.sent)| == |w.sent| &&
           |multiset(w.enqueued) + multiset(w.rejected)| == |w.enqueued| + |w.rejected|;
    NoFlushOfFate(w.flushes, Panicked);
  }

  /** One write that panics: the event was sent, nothing is stored and nothing is counted. */
  lemma PanickedIsUncounted(entry: Entry)
    ensures var cfg := Config(1, 1, 0, 0);
            var steps := [Send(entry), Receive(Panicked), Close, Finish(Panicked)];
            && IsRun(Init(cfg), steps)
            && var w := After(Init(cfg), steps);
               w.done && w.sent == [entry] && w.stored == [] && w.lostOnSave == 0 && w.lostOnEnqueue == 0
  {
    var cfg := Config(1, 1, 0, 0);
    var w0 := Init(cfg);
    var w1 := Next(w0, Send(entry));
    assert w1.queue == [entry] && w1.sent == [entry];
    var w2 := Next(w1, Receive(Panicked));
    assert w2.queue == [] && w2.batch == [] && w2.stored == [];
    var w3 := Next(w2, Close);
    var w4 := Next(w3, Finish(Panicked));
    RunOfFour(w0, Send(entry), w1, Receive(Panicked), w2, Close, w3, Finish(Panicked), w4);
  }

  lemma RunOfFour(w0: Ledger, a: Step, w1: Ledger, b: Step, w2: Ledger, c: Step, w3: Ledger, d: Step, w4: Ledger)
    requires Enabled(w0, a) && Next(w0, a) == w1 && Enabled(w1, b) && Next(w1, b) == w2
    requires Enabled(w2, c) && Next(w2, c) == w3 && Enabled(w3, d) && Next(w3, d) == w4
    ensures IsRun(w0, [a, b, c, d]) && After(w0, [a, b, c, d]) == w4
  {
    assert IsRun(w4, []);
    assert [a, b, c, d][1..] == [b, c, d] && [b, c, d][1..] == [c, d] && [c, d][1..] == [d] && [d][1..] == [];
    assert IsRun(w3, [d]) && After(w3, [d]) == w4;
    assert IsRun(w2, [c, d]) && After(w2, [c, d]) == w4;
    assert IsRun(w1, [b, c, d]) && After(w1, [b, c, d]) == w4;
  }

  lemma FlatOfFirst(f: Flush, rest: seq<Flush>)
    ensures |Flat([f] + rest)| == |f.batch| + |Flat(rest)|
  {
    assert ([f] + rest)[1..] == rest;
  }

  lemma {:induction false} NoFlushOfFate(flushes: seq<Flush>, fate: Fate)
    requires forall i | 0 <= i < |flushes| :: |flushes[i].batch| >= 1
    ensures |Flat(WithFate(flushes, fate))| == 0 <==> forall i | 0 <= i < |flushes| :: flushes[i].fate != fate
  {
    if flushes != [] {
      var rest := flushes[1..];
      NoFlushOfFate(rest, fate);
      assert flushes == [flushes[0]] + rest;
      if flushes[0].fate == fate {
        FlatOfFirst(flushes[0], WithFate(rest, fate));
      } else {
        assert WithFate(flushes, fate) == WithFate(rest, fate);
      }
    }
  }

  /** At any moment of any run: the database holds whole batches, each of at most
      the batch size and each a contiguous stretch of what was enqueued, in that
      order; and pending is the length of the unwritten batch. */
  lemma StoredInOrder(cfg: Config, steps: seq<Step>)
    requires IsRun(Init(cfg), steps)
    ensures var w := After(Init(cfg), steps);
            && Flat(w.flushes) <= w.enqueued
            && w.stored == Batches(WithFate(w.flushes, Saved))
            && (forall i | 0 <= i < |w.stored| :: 1 <= |w.stored[i]| <= Limit(cfg))
            && w.pending == |w.batch|
  {
    RunKeepsInv(Init(cfg), steps);
    var w := After(Init(cfg), steps);
    WithFateIsPart(w.flushes, Saved);
  }

  lemma {:induction false} WithFateIsPart(flushes: seq<Flush>, fate: Fate)
    ensures forall f | f in WithFate(flushes, fate) :: f in flushes && f.fate == fate
  {
    if flushes != [] {
      WithFateIsPart(flushes[1..], fate);
    }
  }

  // ----- when a batch is written -----

  /** The run up to its last step, and that step. */
  lemma {:induction false} LastStep(w: Ledger, steps: seq<Step>)
    requires IsRun(w, steps) && steps != []
    ensures var n := |steps| - 1;
            && IsRun(w, steps[..n]) && Enabled(After(w, steps[..n]), steps[n])
            && After(w, steps) == Next(After(w, steps[..n]), steps[n])
    decreases |steps|
  {
    var n := |steps| - 1;
    if n > 0 {
      LastStep(Next(w, steps[0]), steps[1..]);
      assert steps[1..][..n - 1] == steps[..n][1..];
    }
  }

  lemma OneMoreStep(w: Ledger, steps: seq<Step>, step: Step)
    requires IsRun(w, steps + [step])
    ensures IsRun(w, steps) && Enabled(After(w, steps), step) && After(w, steps + [step]) == Next(After(w, steps), step)
  {
    LastStep(w, steps + [step]);
    assert (steps + [step])[..|steps|] == steps;
  }

  /** A tick, like the end of the loop, leaves no accepted event waiting outside the queue:
      the batch it finds is written, whatever its length, with the fate of that write. */
  lemma TickWritesTheBatch(cfg: Config, steps: seq<Step>, step: Step, fate: Fate)
    requires IsRun(Init(cfg), steps + [step]) && (step == Tick(fate) || step == Finish(fate))
    ensures IsRun(Init(cfg), steps)
    ensures var w, before := After(Init(cfg), steps + [step]), After(Init(cfg), steps);
            && w.batch == [] && w.pending == 0 && w.enqueued == Flat(w.flushes) + w.queue
            && w.flushes == before.flushes + if before.batch == [] then [] else [Flush(before.batch, fate)]
  {
    OneMoreStep(Init(cfg), steps, step);
    RunKeepsInv(Init(cfg), steps);
    TickWrites(After(Init(cfg), steps), step, fate);
  }

  lemma TickWrites(w: Ledger, step: Step, fate: Fate)
    requires Inv(w) && Enabled(w, step) && (step == Tick(fate) || step == Finish(fate))
    ensures var next := Next(w, step);
            && next.batch == [] && next.pending == 0 && next.enqueued == Flat(next.flushes) + next.queue
            && next.flushes == w.flushes + if w.batch == [] then [] else [Flush(w.batch, fate)]
  {
    FlatAppend(w.flushes, Flush(w.batch, fate));
    assert Flat(w.flushes) + [] == Flat(w.flushes);
  }

  /** An event that a sender hands over, or that is received, is written at once exactly if
      it fills the batch; otherwise it waits there behind the others. */
  lemma WrittenWhenFull(cfg: Config, steps: seq<Step>, step: Step, entry: Entry, fate: Fate)
    requires IsRun(Init(cfg), steps + [step])
    requires IsRun(Init(cfg), steps)
    requires step == HandOff(entry, fate) || (step == Receive(fate) && [entry] <= After(Init(cfg), steps).queue)
    ensures var w, before := After(Init(cfg), steps + [step]), After(Init(cfg), steps);
            if |before.batch| + 1 == Limit(cfg)
            then w.batch == [] && w.flushes == before.flushes + [Flush(before.batch + [entry], fate)]
            else w.batch == before.batch + [entry] && w.flushes == before.flushes
  {
    OneMoreStep(Init(cfg), steps, step);
    RunKeepsInv(Init(cfg), steps);
  }

  /** Step k of the run wrote batch i: it took the batch as it stood, at a tick or at the
      end, or filled it. */
  ghost predicate WroteAt(w: Ledger, steps: seq<Step>, k: nat, i: nat) {
    && k < |steps| && IsRun(w, steps[..k]) && IsRun(w, steps[..k + 1])
    && |After(w, steps[..k]).flushes| == i && |After(w, steps[..k + 1]).flushes| == i + 1
    && match steps[k]
       case Tick(fate) =>
         After(w, steps[..k + 1]).flushes[i] == Flush(After(w, steps[..k]).batch, fate)
       case Finish(fate) =>
         After(w, steps[..k + 1]).flushes[i] == Flush(After(w, steps[..k]).batch, fate)
       case Receive(fate) => FilledBy(After(w, steps[..k]), After(w, steps[..k + 1]), i, fate)
       case HandOff(_, fate) => FilledBy(After(w, steps[..k]), After(w, steps[..k + 1]), i, fate)
       case _ => false
  }

  ghost predicate FilledBy(before: Ledger, after: Ledger, i: nat, fate: Fate) {
    i < |after.flushes| && before.batch < after.flushes[i].batch && after.flushes[i].fate == fate
    && |after.flushes[i].batch| == |before.batch| + 1 == Limit(before.cfg)
  }

  /** So every batch of a run was written by a step of its own. */
  lemma {:induction false} EveryBatchHasItsStep(cfg: Config, steps: seq<Step>, i: nat)
    requires IsRun(Init(cfg), steps) && i < |After(Init(cfg), steps).flushes|
    ensures exists k: nat :: WroteAt(Init(cfg), steps, k, i)
    decreases |steps|
  {
    var n := |steps| - 1;
    assert steps != [];
    LastStep(Init(cfg), steps);
    RunKeepsInv(Init(cfg), steps[..n]);
    if i < |After(Init(cfg), steps[..n]).flushes| {
      EveryBatchHasItsStep(cfg, steps[..n], i);
      var k: nat :| WroteAt(Init(cfg), steps[..n], k, i);
      assert steps[..n][..k] == steps[..k] && steps[..n][..k + 1] == steps[..k + 1];
      assert WroteAt(Init(cfg), steps, k, i);
    } else {
      assert steps[..n + 1] == steps;
      StepWrites(After(Init(cfg), steps[..n]), steps[n]);
      assert WroteAt(Init(cfg), steps, n, i);
    }
  }

  lemma StepWrites(w: Ledger, step: Step)
    requires Inv(w) && Enabled(w, step) && |Next(w, step).flushes| > |w.flushes|
    ensures var next, i := Next(w, step), |w.flushes|;
            && |next.flushes| == i + 1
            && match step
               case Tick(fate) => next.flushes[i] == Flush(w.batch, fate)
               case Finish(fate) => next.flushes[i] == Flush(w.batch, fate)
               case Receive(fate) => FilledBy(w, next, i, fate)
               case HandOff(_, fate) => FilledBy(w, next, i, fate)
               case _ => false
  {
  }

  /** Once closed, the loop drains: receiving what is queued and finishing is a run,
      whatever becomes of the batches. */
  lemma {:induction false} ClosedWorkerDrains(w: Ledger, fate: Fate) returns (rest: seq<Step>)
    requires w.closed && !w.done
    ensures |rest| == |w.queue| + 1 && IsRun(w, rest) && After(w, rest).done
    decreases |w.queue|
  {
    if w.queue == [] {
      rest := [Finish(fate)];
      assert IsRun(Next(w, Finish(fate)), rest[1..]);
    } else {
      var next := Next(w, Receive(fate));
      var steps := ClosedWorkerDrains(next, fate);
      rest := [Receive(fate)] + steps;
      assert rest[1..] == steps;
    }
  }

  /** And nothing else can happen meanwhile but ticks, which leave the queue alone. */
  lemma ClosedWorkerOnlyDrains(w: Ledger, step: Step)
    requires w.closed && !w.done && Enabled(w, step)
    ensures var next := Next(w, step);
            next.closed && (next.done || |next.queue| < |w.queue| || (step.Tick? && next.queue == w.queue))
  {
  }

  // ----- the worker itself -----

  class Worker {
    const cfg: Config
    var queue: seq<Entry>
    var batch: seq<Entry>
    var pending: int
    var closed: bool
    var done: bool
    var lostOnEnqueue: nat
    var lostOnSave: nat
    var stored: seq<seq<Entry>>
    ghost var sent: seq<Entry>
    ghost var rejected: seq<Entry>
    ghost var enqueued: seq<Entry>
    ghost var flushes: seq<Flush>

    ghost function Snapshot(): Ledger
      reads this
    {
      Ledger(cfg, queue, batch, pending, closed, done, lostOnEnqueue, lostOnSave, stored,
             sent, rejected, enqueued, flushes)
    }

    constructor (cfg: Config)
      ensures Snapshot() == Init(cfg)
    {
      this.cfg := cfg;
      queue, batch, pending, closed, done := [], [], 0, false, false;
      lostOnEnqueue, lostOnSave, stored := 0, 0, [];
      sent, rejected, enqueued, flushes := [], [], [], [];
    }

    /** room says whether the queue has room before the enqueue timeout passes. */
    method Send(entry: Entry, room: bool)
      requires !closed
      requires room ==> |queue| < cfg.bufferSize
      requires !room && cfg.enqueueTimeout == 0 ==> |queue| >= cfg.bufferSize
      modifies this
      ensures Snapshot() == if room then Next(old(Snapshot()), Step.Send(entry)) else Next(old(Snapshot()), Drop(entry))
    {
      sent := sent + [entry];
      if room {
        queue := queue + [entry];
        enqueued := enqueued + [entry];
      } else {
        lostOnEnqueue := lostOnEnqueue + 1;
        rejected := rejected + [entry];
      }
    }

    method SaveWithRetry(entries: seq<Entry>, answer: int -> Answer, expired: int -> bool) returns (fate: Fate)
      modifies this`stored
      ensures fate == SaveFate(cfg.maxSaveRetries, answer, expired, 0)
      ensures stored == if fate.Saved? then old(stored) + [entries] else old(stored)
    {
      var attempt := 0;
      while attempt <= cfg.maxSaveRetries
        invariant 0 <= attempt && stored == old(stored)
        invariant cfg.maxSaveRetries >= 0 ==> attempt <= cfg.maxSaveRetries
        invariant SaveFate(cfg.maxSaveRetries, answer, expired, attempt) ==
                  SaveFate(cfg.maxSaveRetries, answer, expired, 0)
      {
        match answer(attempt) {
          case Accepted =>
            stored := stored + [entries];
            return Saved;
          case Panics =>
            return Panicked;
          case Failed =>
        }
        if attempt == cfg.maxSaveRetries {
          return LostOnSave;
        }
        if expired(attempt) {
          return LostOnSave;
        }
        attempt := attempt + 1;
      }
      return Panicked;
    }

    method FlushBatch(answer: int -> Answer, expired: int -> bool)
      modifies this
      ensures Snapshot() == Flushed(old(Snapshot()), SaveFate(cfg.maxSaveRetries, answer, expired, 0))
    {
      if |batch| == 0 {
        return;
      }

      var fate := SaveWithRetry(batch, answer, expired);
      if fate == LostOnSave {
        lostOnSave := lostOnSave + |batch|;
      }
      flushes := flushes + [Flush(batch, fate)];
      batch, pending := [], 0;
    }

    /** One turn of Run's select: the ticker fires, an entry arrives, or the queue is
        closed and empty. */
    method Turn(ticked: bool, answer: int -> Answer, expired: int -> bool)
      requires !done && (ticked || closed || queue != [])
      modifies this
      ensures var fate := SaveFate(cfg.maxSaveRetries, answer, expired, 0);
              Snapshot() == Next(old(Snapshot()),
                              if ticked then Tick(fate) else if old(queue) != [] then Receive(fate) else Finish(fate))
    {
      if ticked {
        FlushBatch(answer, expired);
      } else if queue == [] {
        FlushBatch(answer, expired);
        done := true;
      } else {
        var entry := queue[0];
        queue := queue[1..];
        batch := batch + [entry];
        pending := |batch|;
        if |batch| >= cfg.batchSize {
          FlushBatch(answer, expired);
        }
      }
    }
  }
}
