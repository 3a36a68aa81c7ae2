/** The limiter in front of plugin processes (internal/core/pool.go): a weighted
    semaphore, and a counter that bounds how many callers may wait for it.  Each
    step is one atomic operation of one caller; the semaphore itself is taken as
    granting and releasing a slot atomically. */
module GenLimiter {

  /** Where one call of acquire, and the release it hands back, has got to. */
  datatype Phase =
    | Outside      // not called yet, or over
    | Contending   // TryAcquire failed, the counter not yet raised
    | Rejecting    // the raised counter was over the queue depth, not yet lowered
    | Waiting      // admitted to the wait line
    | Granted      // Acquire gave a slot, the counter not yet lowered
    | Cancelled    // Acquire gave up with the context, the counter not yet lowered
    | Running      // holds a slot

  datatype Limiter = Limiter(slots: nat, depth: int, held: nat, waiting: int, callers: seq<Phase>)

  datatype Step =
    | TryAcquire(who: nat)
    | TryFails(who: nat)
    | Enqueue(who: nat)
    | Reject(who: nat)
    | Grant(who: nat)
    | Expire(who: nat)
    | Leave(who: nat)
    | Release(who: nat)

  predicate At(l: Limiter, who: nat, phase: Phase) {
    who < |l.callers| && l.callers[who] == phase
  }

  predicate Enabled(l: Limiter, step: Step) {
    match step
    case TryAcquire(who) => At(l, who, Outside) && l.held < l.slots
    // also when a slot is free but somebody is queued for it in the semaphore
    case TryFails(who) => At(l, who, Outside)
    case Enqueue(who) => At(l, who, Contending)
    case Reject(who) => At(l, who, Rejecting)
    case Grant(who) => At(l, who, Waiting) && l.held < l.slots
    case Expire(who) => At(l, who, Waiting)
    case Leave(who) => At(l, who, Granted) || At(l, who, Cancelled)
    case Release(who) => At(l, who, Running)
  }

  function Move(l: Limiter, who: nat, phase: Phase): Limiter
    requires who < |l.callers|
  {
    l.(callers := l.callers[who := phase])
  }

  /** The subtraction in Release never cuts off at zero: StepKeepsInv says so. */
  function Next(l: Limiter, step: Step): Limiter
    requires Enabled(l, step)
  {
    match step
    case TryAcquire(who) => Move(l, who, Running).(held := l.held + 1)
    case TryFails(who) => Move(l, who, Contending)
    case Enqueue(who) =>
      Move(l, who, if l.waiting + 1 > l.depth then Rejecting else Waiting).(waiting := l.waiting + 1)
    case Reject(who) => Move(l, who, Outside).(waiting := l.waiting - 1)
    case Grant(who) => Move(l, who, Granted).(held := l.held + 1)
    case Expire(who) => Move(l, who, Cancelled)
    case Leave(who) =>
      Move(l, who, if l.callers[who].Granted? then Running else Outside).(waiting := l.waiting - 1)
    case Release(who) => Move(l, who, Outside).(held := if l.held == 0 then 0 else l.held - 1)
  }

  function Init(slots: nat, depth: int, callers: nat): Limiter {
    Limiter(slots, depth, 0, 0, seq(callers, _ => Outside))
  }

  ghost predicate IsRun(l: Limiter, steps: seq<Step>)
    decreases |steps|
  {
    steps == [] || (Enabled(l, steps[0]) && IsRun(Next(l, steps[0]), steps[1..]))
  }

  ghost function After(l: Limiter, steps: seq<Step>): Limiter
    requires IsRun(l, steps)
    decreases |steps|
  {
    if steps == [] then l else After(Next(l, steps[0]), steps[1..])
  }

  // ----- counting callers -----

  function Count(callers: seq<Phase>, phases: set<Phase>): nat {
    if callers == [] then 0
    else (if callers[0] in phases then 1 else 0) + Count(callers[1..], phases)
  }

  function Owners(l: Limiter): nat { Count(l.callers, {Granted, Running}) }
  function Admitted(l: Limiter): nat { Count(l.callers, {Waiting, Granted, Cancelled}) }
  function Refused(l: Limiter): nat { Count(l.callers, {Rejecting}) }

  lemma {:induction false} CountMove(callers: seq<Phase>, who: nat, phase: Phase, phases: set<Phase>)
    requires who < |callers|
    ensures Count(callers[who := phase], phases) ==
            Count(callers, phases) - (if callers[who] in phases then 1 else 0) + (if phase in phases then 1 else 0)
  {
    if who == 0 {
      assert callers[who := phase][1..] == callers[1..];
    } else {
      assert callers[who := phase][1..] == callers[1..][who - 1 := phase];
      CountMove(callers[1..], who - 1, phase, phases);
    }
  }

  lemma {:induction false} CountNone(callers: seq<Phase>, phases: set<Phase>)
    ensures Count(callers, phases) == 0 <==> forall i | 0 <= i < |callers| :: callers[i] !in phases
  {
    if callers != [] {
      CountNone(callers[1..], phases);
      assert forall i | 0 < i < |callers| :: callers[i] == callers[1..][i - 1];
    }
  }

  // ----- the accounting -----

  /** Slots held are callers that own one; the counter is the admitted plus the
      refused who have not lowered it yet; neither bound is ever passed. */
  ghost predicate Inv(l: Limiter) {
    && l.held == Owners(l) <= l.slots
    && l.waiting == Admitted(l) + Refused(l)
    && (Admitted(l) > 0 ==> Admitted(l) <= l.depth)
  }

  lemma InitInv(slots: nat, depth: int, callers: nat)
    ensures Inv(Init(slots, depth, callers))
  {
    var l := Init(slots, depth, callers);
    CountNone(l.callers, {Granted, Running});
    CountNone(l.callers, {Waiting, Granted, Cancelled});
    CountNone(l.callers, {Rejecting});
  }

  lemma StepKeepsInv(l: Limiter, step: Step)
    requires Inv(l) && Enabled(l, step)
    ensures Inv(Next(l, step))
    ensures step.Release? ==> Next(l, step).held == l.held - 1
  {
    var phase := Next(l, step).callers[step.who];
    CountMove(l.callers, step.who, phase, {Granted, Running});
    CountMove(l.callers, step.who, phase, {Waiting, Granted, Cancelled});
    CountMove(l.callers, step.who, phase, {Rejecting});
  }

  lemma {:induction false} RunKeepsInv(l: Limiter, steps: seq<Step>)
    requires Inv(l) && IsRun(l, steps)
    ensures Inv(After(l, steps))
    ensures After(l, steps).slots == l.slots && After(l, steps).depth == l.depth
    decreases |steps|
  {
    if steps != [] {
      StepKeepsInv(l, steps[0]);
      RunKeepsInv(Next(l, steps[0]), steps[1..]);
    }
  }

  /** Over every interleaving: at most slots processes, at most depth admitted
      waiters even while refused callers push the counter above it, and no slot or
      place in line lost or doubled. */
  lemma LimitsHold(slots: nat, depth: int, callers: nat, steps: seq<Step>)
    requires IsRun(Init(slots, depth, callers), steps)
    ensures var l := After(Init(slots, depth, callers), steps);
            && Owners(l) == l.held <= slots
            && l.waiting == Admitted(l) + Refused(l)
            && (Admitted(l) == 0 || Admitted(l) <= depth)
            && Count(l.callers, {Running}) <= slots
  {
    InitInv(slots, depth, callers);
    RunKeepsInv(Init(slots, depth, callers), steps);
    CountSubset(After(Init(slots, depth, callers), steps).callers, {Running}, {Granted, Running});
  }

  lemma {:induction false} CountSubset(callers: seq<Phase>, some: set<Phase>, more: set<Phase>)
    requires some <= more
    ensures Count(callers, some) <= Count(callers, more)
  {
    if callers != [] {
      CountSubset(callers[1..], some, more);
    }
  }

  /** Both counts are back to zero exactly when nobody is inside. */
  lemma Quiescence(slots: nat, depth: int, callers: nat, steps: seq<Step>)
    requires IsRun(Init(slots, depth, callers), steps)
    ensures var l := After(Init(slots, depth, callers), steps);
            l.held == 0 && l.waiting == 0 <==>
            forall i | 0 <= i < |l.callers| :: l.callers[i].Outside? || l.callers[i].Contending?
  {
    InitInv(slots, depth, callers);
    RunKeepsInv(Init(slots, depth, callers), steps);
    var l := After(Init(slots, depth, callers), steps);
    CountNone(l.callers, {Granted, Running});
    CountNone(l.callers, {Waiting, Granted, Cancelled});
    CountNone(l.callers, {Rejecting});
  }

  // ----- when a caller is refused -----

  /** The counter refuses a caller exactly when the admitted and the callers still
      being refused together fill the line. */
  lemma RefusedIff(l: Limiter, who: nat)
    requires Inv(l) && Enabled(l, Enqueue(who))
    ensures Next(l, Enqueue(who)).callers[who].Rejecting? <==> Admitted(l) + Refused(l) >= l.depth
    ensures Refused(l) == 0 ==> (Next(l, Enqueue(who)).callers[who].Rejecting? <==> Admitted(l) >= l.depth)
  {
  }

  lemma OneRunsAndOneWaits()
    ensures Reaches(Init(1, 1, 3), Limiter(1, 1, 1, 1, [Running, Waiting, Outside]))
  {
    var first := Init(1, 1, 3);
    var l0 := Limiter(1, 1, 0, 0, [Outside, Outside, Outside]);
    assert first == l0 && After(first, []) == l0;
    var l1 := Limiter(1, 1, 1, 0, [Running, Outside, Outside]);
    ReachesNext(first, l0, TryAcquire(0), l1);
    ReachesNextTwo(first, l1, TryFails(1), Enqueue(1), Limiter(1, 1, 1, 1, [Running, Waiting, Outside]));
  }

  /** So the comment that everything beyond the queue is refused is one way only: a
      caller can be refused over an empty line, while an earlier refusal has raised
      the counter and not lowered it yet. */
  lemma RefusedOverAnEmptyLine()
    ensures Reaches(Init(1, 1, 3), Limiter(1, 1, 1, 2, [Running, Rejecting, Rejecting]))
  {
    var first := Init(1, 1, 3);
    var l3 := Limiter(1, 1, 1, 1, [Running, Waiting, Outside]);
    OneRunsAndOneWaits();
    var l5 := Limiter(1, 1, 1, 2, [Running, Waiting, Rejecting]);
    ReachesNextTwo(first, l3, TryFails(2), Enqueue(2), l5);
    var l7 := Limiter(1, 1, 1, 1, [Running, Outside, Rejecting]);
    ReachesNextTwo(first, l5, Expire(1), Leave(1), l7);
    ReachesNextTwo(first, l7, TryFails(1), Enqueue(1), Limiter(1, 1, 1, 2, [Running, Rejecting, Rejecting]));
  }

  ghost predicate Reaches(first: Limiter, l: Limiter) {
    exists steps: seq<Step> :: IsRun(first, steps) && After(first, steps) == l
  }

  lemma {:induction false} AppendStep(first: Limiter, steps: seq<Step>, step: Step)
    requires IsRun(first, steps) && Enabled(After(first, steps), step)
    ensures IsRun(first, steps + [step]) && After(first, steps + [step]) == Next(After(first, steps), step)
    decreases |steps|
  {
    if steps == [] {
      assert ([] + [step])[1..] == [];
    } else {
      AppendStep(Next(first, steps[0]), steps[1..], step);
      assert (steps + [step])[1..] == steps[1..] + [step];
    }
  }

  lemma ReachesNext(first: Limiter, l: Limiter, step: Step, next: Limiter)
    requires Reaches(first, l) && Enabled(l, step) && Next(l, step) == next
    ensures Reaches(first, next)
  {
    var steps :| IsRun(first, steps) && After(first, steps) == l;
    AppendStep(first, steps, step);
  }

  lemma ReachesNextTwo(first: Limiter, l: Limiter, a: Step, b: Step, next: Limiter)
    requires Reaches(first, l) && Enabled(l, a) && Enabled(Next(l, a), b) && Next(Next(l, a), b) == next
    ensures Reaches(first, next)
  {
    ReachesNext(first, l, a, Next(l, a));
    ReachesNext(first, Next(l, a), b, next);
  }

  // ----- one caller's way -----

  /** The steps of one caller. */
  function Own(steps: seq<Step>, who: nat): seq<Step> {
    if steps == [] then []
    else Own(steps[..|steps| - 1], who) + if steps[|steps| - 1].who == who then [steps[|steps| - 1]] else []
  }

  /** A caller that has taken these steps has not called yet, or its call is over: it was
      refused, it gave up waiting, or it released its slot. */
  predicate IsOut(own: seq<Step>) {
    own == [] ||
    (var last := own[|own| - 1];
     last.Reject? || last.Release? || (last.Leave? && |own| > 1 && own[|own| - 2].Expire?))
  }

  /** It has a slot to run in: at once, or after waiting. */
  predicate Runs(own: seq<Step>) {
    own != [] &&
    (var last := own[|own| - 1];
     last.TryAcquire? || (last.Leave? && |own| > 1 && own[|own| - 2].Grant?))
  }

  /** What may come next on its way: a slot or the line, admission or refusal, a slot or the
      end of its patience, and a release for every slot. */
  predicate MayTake(own: seq<Step>, step: Step) {
    match step
    case TryAcquire(_) => IsOut(own)
    case TryFails(_) => IsOut(own)
    case Enqueue(_) => own != [] && own[|own| - 1].TryFails?
    case Reject(_) => own != [] && own[|own| - 1].Enqueue?
    case Grant(_) => own != [] && own[|own| - 1].Enqueue?
    case Expire(_) => own != [] && own[|own| - 1].Enqueue?
    case Leave(_) => own != [] && (own[|own| - 1].Grant? || own[|own| - 1].Expire?)
    case Release(_) => Runs(own)
  }

  ghost predicate InOrder(own: seq<Step>) {
    forall k | 0 <= k < |own| :: MayTake(own[..k], own[k])
  }

  /** Where the caller stands, by its own steps. */
  predicate StandsAt(own: seq<Step>, phase: Phase) {
    match phase
    case Outside => IsOut(own)
    case Running => Runs(own)
    case Contending => own != [] && own[|own| - 1].TryFails?
    case Rejecting => own != [] && own[|own| - 1].Enqueue?
    case Waiting => own != [] && own[|own| - 1].Enqueue?
    case Granted => own != [] && own[|own| - 1].Grant?
    case Cancelled => own != [] && own[|own| - 1].Expire?
  }

  lemma {:induction false} LastStep(l: Limiter, steps: seq<Step>)
    requires IsRun(l, steps) && steps != []
    ensures var n := |steps| - 1;
            && IsRun(l, steps[..n]) && Enabled(After(l, steps[..n]), steps[n])
            && After(l, steps) == Next(After(l, steps[..n]), steps[n])
    decreases |steps|
  {
    var n := |steps| - 1;
    if n > 0 {
      LastStep(Next(l, steps[0]), steps[1..]);
      assert steps[1..][..n - 1] == steps[..n][1..];
    }
  }

  /** In every run each caller takes its steps in that order, whatever the others do, and
      stands where they have taken it. */
  lemma {:induction false} CallersKeepOrder(slots: nat, depth: int, callers: nat, steps: seq<Step>, who: nat)
    requires IsRun(Init(slots, depth, callers), steps) && who < callers
    ensures var own, l := Own(steps, who), After(Init(slots, depth, callers), steps);
            InOrder(own) && |l.callers| == callers && StandsAt(own, l.callers[who])
    decreases |steps|
  {
    if steps != [] {
      var n := |steps| - 1;
      LastStep(Init(slots, depth, callers), steps);
      CallersKeepOrder(slots, depth, callers, steps[..n], who);
      var own, before := Own(steps[..n], who), After(Init(slots, depth, callers), steps[..n]);
      OthersStay(before, steps[n], who);
      if steps[n].who == who {
        OrderStep(own, before, steps[n]);
      } else {
        assert Own(steps, who) == own;
      }
    }
  }

  lemma OthersStay(l: Limiter, step: Step, who: nat)
    requires who < |l.callers| && Enabled(l, step)
    ensures |Next(l, step).callers| == |l.callers|
    ensures step.who != who ==> Next(l, step).callers[who] == l.callers[who]
  {
  }

  lemma OrderStep(own: seq<Step>, l: Limiter, step: Step)
    requires InOrder(own) && step.who < |l.callers| && StandsAt(own, l.callers[step.who]) && Enabled(l, step)
    ensures InOrder(own + [step]) && StandsAt(own + [step], Next(l, step).callers[step.who])
  {
    var more := own + [step];
    assert more[..|own|] == own;
    assert forall k | 0 <= k < |own| :: more[..k] == own[..k];
  }

  /** And nobody is stuck: any caller inside can be out in at most three steps of its own,
      a waiting one by giving up. */
  lemma CallerGetsOut(l: Limiter, who: nat) returns (steps: seq<Step>)
    requires who < |l.callers|
    ensures |steps| <= 3 && (forall k | 0 <= k < |steps| :: steps[k].who == who)
    ensures IsRun(l, steps) && After(l, steps).callers == l.callers[who := Outside]
  {
    match l.callers[who]
    case Outside =>
      steps := [];
    case Running =>
      steps := [Release(who)];
      RunOf(l, steps);
    case Granted =>
      steps := [Leave(who), Release(who)];
      RunOf(l, steps);
    case Cancelled =>
      steps := [Leave(who)];
      RunOf(l, steps);
    case Rejecting =>
      steps := [Reject(who)];
      RunOf(l, steps);
    case Waiting =>
      steps := [Expire(who), Leave(who)];
      RunOf(l, steps);
    case Contending =>
      var next := Next(l, Enqueue(who));
      if next.callers[who].Rejecting? {
        steps := [Enqueue(who), Reject(who)];
      } else {
        steps := [Enqueue(who), Expire(who), Leave(who)];
        assert steps[1..] == [Expire(who), Leave(who)];
        RunOf(next, steps[1..]);
      }
      RunOf(l, steps);
  }

  /** The first two steps of a run. */
  lemma RunOf(l: Limiter, steps: seq<Step>)
    requires 1 <= |steps| <= 3 && Enabled(l, steps[0])
    requires |steps| > 1 ==> Enabled(Next(l, steps[0]), steps[1])
    requires |steps| > 2 ==> IsRun(Next(l, steps[0]), steps[1..])
    ensures IsRun(l, steps)
    ensures |steps| == 1 ==> After(l, steps) == Next(l, steps[0])
    ensures |steps| == 2 ==> After(l, steps) == Next(Next(l, steps[0]), steps[1])
    ensures |steps| == 3 ==> After(l, steps) == After(Next(l, steps[0]), steps[1..])
  {
    var next := Next(l, steps[0]);
    if |steps| == 1 {
      assert steps[1..] == [];
      assert IsRun(next, []);
    } else if |steps| == 2 {
      assert steps[1..] == [steps[1]] && [steps[1]][1..] == [];
      assert IsRun(Next(next, steps[1]), []) && After(Next(next, steps[1]), []) == Next(next, steps[1]);
      assert IsRun(next, [steps[1]]) && After(next, [steps[1]]) == Next(next, steps[1]);
      assert After(next, steps[1..]) == Next(next, steps[1]);
    }
  }

  /** A waiting caller runs as soon as a slot is free for it. */
  lemma WaitingGetsSlot(l: Limiter, who: nat)
    requires At(l, who, Waiting) && l.held < l.slots
    ensures IsRun(l, [Grant(who), Leave(who)])
    ensures After(l, [Grant(who), Leave(who)]).callers == l.callers[who := Running]
  {
    RunOf(l, [Grant(who), Leave(who)]);
  }
}
