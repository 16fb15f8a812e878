/** What every run of concurrent jobs keeps: correlation, permits, handlers, deliveries, and that no job is stuck. */
module JobRuns {
  import opened Basics
  import opened AutoResetEvent
  import opened ReferenceIds
  import opened Jobs

  // ---- every run ----

  lemma {:induction false} EveryRunKeeps(counter: int32, maxAmQCalling: nat, steps: seq<Step>)
    ensures Inv(After(counter, maxAmQCalling, steps), maxAmQCalling)
  {
    hide JobsOk, HandlersOk, LookupsOk, PermitsOk, StepJob;
    if steps == [] {
      NothingYet(counter, maxAmQCalling);
    } else {
      var before := After(counter, maxAmQCalling, steps[..|steps| - 1]);
      EveryRunKeeps(counter, maxAmQCalling, steps[..|steps| - 1]);
      KeepsApply(before, maxAmQCalling, steps[|steps| - 1]);
    }
  }

  // ---- what it means ----

  /** A result a job returns was carried by an acknowledgement of its kind and id, whose lookup found this very job. */
  lemma Correlated(counter: int32, maxAmQCalling: nat, steps: seq<Step>, j: nat, ack: Ack)
    requires j < |After(counter, maxAmQCalling, steps).jobs|
    requires After(counter, maxAmQCalling, steps).jobs[j].place == Finished(Some(ack))
    ensures ack.kind == After(counter, maxAmQCalling, steps).jobs[j].kind
    ensures ack.reference == After(counter, maxAmQCalling, steps).jobs[j].id
    ensures (j, ack) in After(counter, maxAmQCalling, steps).lookups
  {
    EveryRunKeeps(counter, maxAmQCalling, steps);
    var s := After(counter, maxAmQCalling, steps);
    JobAt(s, maxAmQCalling, j);
    assert (j, ack) in s.lookups;
  }

  /** Free permits and live guards, also those of other jobs, always add up, and every handler stands for a guard. */
  lemma PermitBound(counter: int32, maxAmQCalling: nat, steps: seq<Step>)
    ensures var s := After(counter, maxAmQCalling, steps);
            s.permits + GuardCount(s.jobs) + s.others == maxAmQCalling && |s.handlers| <= GuardCount(s.jobs)
  {
    EveryRunKeeps(counter, maxAmQCalling, steps);
    RegisteredAreGuarded(After(counter, maxAmQCalling, steps).jobs);
  }

  lemma {:induction false} RegisteredAreGuarded(jobs: seq<Job>)
    ensures RegisteredCount(jobs) <= GuardCount(jobs)
  {
    if jobs != [] {
      RegisteredAreGuarded(jobs[..|jobs| - 1]);
    }
  }

  /** The dictionary holds exactly the handlers of the jobs between their TryAdd and their TryRemove, each its own. */
  lemma OwnHandler(counter: int32, maxAmQCalling: nat, steps: seq<Step>, key: HandlerKey, j: nat)
    ensures var s := After(counter, maxAmQCalling, steps);
            key in s.handlers && s.handlers[key] == j <==>
            j < |s.jobs| && IsRegistered(s.jobs[j].place) && Key(s.jobs[j]) == key
  {
    EveryRunKeeps(counter, maxAmQCalling, steps);
    var s := After(counter, maxAmQCalling, steps);
    if j < |s.jobs| {
      JobAt(s, maxAmQCalling, j);
    }
  }

  /** An entry leaves the dictionary, or is overwritten, by no step but the TryRemove of the job that added it. */
  lemma OnlyOwnRemoved(counter: int32, maxAmQCalling: nat, steps: seq<Step>, step: Step, key: HandlerKey)
    requires key in After(counter, maxAmQCalling, steps).handlers
    ensures var s := After(counter, maxAmQCalling, steps);
            var next := Apply(s, step);
            (key in next.handlers && next.handlers[key] == s.handlers[key]) ||
            (step == RemoveHandler(s.handlers[key]) && key !in next.handlers)
  {
    var s := After(counter, maxAmQCalling, steps);
    if step.RemoveHandler? && step.job < |s.jobs| && s.jobs[step.job].place.Awake? {
      OwnHandler(counter, maxAmQCalling, steps, Key(s.jobs[step.job]), step.job);
    }
    hide Inv, AfterSet, Increment;
  }

  /** When every job has returned and no other job holds a permit, all permits are free and no handler is left behind. */
  lemma NothingLeaks(counter: int32, maxAmQCalling: nat, steps: seq<Step>)
    requires forall job <- After(counter, maxAmQCalling, steps).jobs :: job.place.Finished?
    requires After(counter, maxAmQCalling, steps).others == 0
    ensures After(counter, maxAmQCalling, steps).permits == maxAmQCalling
    ensures After(counter, maxAmQCalling, steps).handlers == map[]
  {
    PermitBound(counter, maxAmQCalling, steps);
    NoneGuarded(After(counter, maxAmQCalling, steps).jobs);
  }

  lemma {:induction false} NoneGuarded(jobs: seq<Job>)
    requires forall job <- jobs :: job.place.Finished?
    ensures GuardCount(jobs) == 0
  {
    if jobs != [] {
      assert jobs[|jobs| - 1] in jobs;
      NoneGuarded(jobs[..|jobs| - 1]);
    }
  }

  // ---- which lookups there are ----

  /** The acknowledgement answers a sent request, and job j has a handler under its kind and id. */
  predicate Awaits(s: State, j: nat, ack: Ack) {
    && Answers(s.jobs, ack)
    && j < |s.jobs| && IsRegistered(s.jobs[j].place) && Key(s.jobs[j]) == HandlerKey(ack.kind, ack.reference)
  }

  lemma LookupStep(counter: int32, max: nat, steps: seq<Step>, step: Step, j: nat, ack: Ack)
    ensures var s := After(counter, max, steps);
            (j, ack) in Apply(s, step).lookups <==> (j, ack) in s.lookups || (step == Lookup(ack) && Awaits(s, j, ack))
  {
    hide AfterSet, AfterWait, AfterCancel, Increment, After, Inv, Answers, IsRegistered;
    OwnHandler(counter, max, steps, HandlerKey(ack.kind, ack.reference), j);
  }

  /** Every acknowledgement that arrives is looked up, and finds exactly the job that then has a handler for it. */
  lemma {:induction false} LookupsHappened(counter: int32, max: nat, steps: seq<Step>, j: nat, ack: Ack)
    ensures (j, ack) in After(counter, max, steps).lookups <==>
            exists i | 0 <= i < |steps| :: steps[i] == Lookup(ack) && Awaits(After(counter, max, steps[..i]), j, ack)
  {
    hide Awaits, Apply;
    if steps == [] {
      NothingYet(counter, max);
    } else {
      var n := |steps| - 1;
      LookupsHappened(counter, max, steps[..n], j, ack);
      LookupStep(counter, max, steps[..n], steps[n], j, ack);
      assert forall i | 0 <= i <= n :: steps[..n][..i] == steps[..i];
    }
  }

  /** It is then delivered to that job. */
  lemma LookupDelivers(counter: int32, max: nat, steps: seq<Step>, j: nat, ack: Ack)
    requires Awaits(After(counter, max, steps), j, ack)
    ensures After(counter, max, steps + [Lookup(ack)]).deliveries == After(counter, max, steps).deliveries + [(j, Some(ack))]
  {
    hide After, Inv;
    OwnHandler(counter, max, steps, HandlerKey(ack.kind, ack.reference), j);
    OneStep(counter, max, steps, Lookup(ack));
  }

  /** An error acknowledgement, or the cancellation of all handlers, delivers null to the job that has the handler. */
  lemma NullDelivers(counter: int32, max: nat, steps: seq<Step>, j: nat)
    requires j < |After(counter, max, steps).jobs| && IsRegistered(After(counter, max, steps).jobs[j].place)
    ensures var s := After(counter, max, steps);
            After(counter, max, steps + [LookupNull(s.jobs[j].kind, s.jobs[j].id)]).deliveries == s.deliveries + [(j, None)]
  {
    hide After, Inv;
    var job := After(counter, max, steps).jobs[j];
    OwnHandler(counter, max, steps, Key(job), j);
    OneStep(counter, max, steps, LookupNull(job.kind, job.id));
  }

  /** A delivery stays pending until its own Set. */
  lemma StaysPending(s: State, step: Step, d: (nat, Option<Ack>))
    requires d in s.deliveries
    ensures d in Apply(s, step).deliveries ||
            (step.Deliver? && step.index < |s.deliveries| && s.deliveries[step.index] == d)
  {
    hide AfterSet, AfterWait, AfterCancel, Increment, Answers;
    if step.Deliver? && step.index < |s.deliveries| && s.deliveries[step.index] != d {
      StaysWithout(s.deliveries, step.index, d);
    }
  }

  lemma StaysWithout<T>(s: seq<T>, k: nat, x: T)
    requires k < |s| && x in s && s[k] != x
    ensures x in Without(s, k)
  {
    var i :| 0 <= i < |s| && s[i] == x;
    assert Without(s, k)[if i < k then i else i - 1] == x;
  }

  // ---- the first delivery decides ----

  /** Nothing has been delivered to the job since its handler was added. */
  predicate Undecided(job: Job) {
    ((job.place.Registered? || job.place.Sent?) && !job.event.signaled) || (job.place.Sleeping? && job.taken.None?)
  }

  /** The job has got the value or is going to get it, unless its request is not sent. */
  predicate Gets(job: Job, value: Option<Ack>) {
    match job.place
    case Registered => !job.sent && job.event == Event([], true, value)
    case Sent => job.sent && job.event == Event([], true, value)
    case Sleeping => job.sent && job.event.waits == [] && job.taken == Some(value)
    case Awake(v) => v == if job.sent then value else None
    case Leaving(v) => v == if job.sent then value else None
    case Finished(v) => v == if job.sent then value else None
    case _ => false
  }

  /** The request has been sent once the job is about to wait. */
  predicate SentInTime(job: Job) {
    match job.place
    case Sent => job.sent
    case Sleeping => job.sent
    case Awake(_) => true
    case Leaving(_) => true
    case Finished(_) => true
    case _ => !job.sent
  }

  lemma SendsInTime(s: State, step: Step, j: nat)
    requires j < |s.jobs| ==> SentInTime(s.jobs[j])
    ensures j < |Apply(s, step).jobs| ==> SentInTime(Apply(s, step).jobs[j])
  {
    hide AfterSet, AfterWait, AfterCancel, Increment, Answers;
  }

  lemma {:induction false} EveryRunSends(counter: int32, max: nat, steps: seq<Step>, j: nat)
    ensures j < |After(counter, max, steps).jobs| ==> SentInTime(After(counter, max, steps).jobs[j])
  {
    hide SentInTime, Apply;
    if steps != [] {
      EveryRunSends(counter, max, steps[..|steps| - 1], j);
      SendsInTime(After(counter, max, steps[..|steps| - 1]), steps[|steps| - 1], j);
    }
  }

  lemma StillGets(s: State, step: Step, j: nat, value: Option<Ack>)
    requires j < |s.jobs| && Gets(s.jobs[j], value)
    ensures j < |Apply(s, step).jobs| && Gets(Apply(s, step).jobs[j], value)
  {
    hide Increment, Answers;
  }

  lemma DeliveryDecides(s: State, max: nat, index: nat, j: nat, value: Option<Ack>)
    requires Inv(s, max) && index < |s.deliveries| && s.deliveries[index] == (j, value)
    requires j < |s.jobs| && Undecided(s.jobs[j]) && SentInTime(s.jobs[j])
    ensures j < |Apply(s, Deliver(index)).jobs| && Gets(Apply(s, Deliver(index)).jobs[j], value)
  {
    hide Inv;
    JobAt(s, max, j);
  }

  /** Whatever happens afterwards, a job gets what is delivered to it first, also before it enters the wait. */
  lemma {:induction false} FirstDeliveryDecides(counter: int32, max: nat, steps: seq<Step>, index: nat, j: nat, value: Option<Ack>,
                                                more: seq<Step>)
    requires index < |After(counter, max, steps).deliveries| && After(counter, max, steps).deliveries[index] == (j, value)
    requires j < |After(counter, max, steps).jobs| && Undecided(After(counter, max, steps).jobs[j])
    ensures var jobs := After(counter, max, steps + [Deliver(index)] + more).jobs; j < |jobs| && Gets(jobs[j], value)
  {
    hide Inv, Apply, Gets, Undecided, SentInTime;
    var run := steps + [Deliver(index)] + more;
    assert run != [];
    if more == [] {
      EveryRunKeeps(counter, max, steps);
      EveryRunSends(counter, max, steps, j);
      assert run[..|run| - 1] == steps;
      DeliveryDecides(After(counter, max, steps), max, index, j, value);
    } else {
      FirstDeliveryDecides(counter, max, steps, index, j, value, more[..|more| - 1]);
      assert run[..|run| - 1] == steps + [Deliver(index)] + more[..|more| - 1];
      StillGets(After(counter, max, run[..|run| - 1]), run[|run| - 1], j, value);
    }
  }

  /** In particular, an acknowledgement that is delivered before the job enters the wait is what the job returns. */
  lemma EarlyAnswerReturned(counter: int32, max: nat, steps: seq<Step>, index: nat, j: nat, ack: Ack, cancelled: bool)
    requires index < |After(counter, max, steps).deliveries|
    requires After(counter, max, steps).deliveries[index] == (j, Some(ack))
    requires j < |After(counter, max, steps).jobs| && After(counter, max, steps).jobs[j].place.Sent?
    requires !After(counter, max, steps).jobs[j].event.signaled
    ensures var jobs := After(counter, max, steps + [Deliver(index), EnterWait(j, cancelled), RemoveHandler(j), Release(j)]).jobs;
            j < |jobs| && jobs[j].place == Finished(Some(ack))
  {
    hide Inv, After;
    var run := steps + [Deliver(index)];
    EveryRunKeeps(counter, max, steps);
    JobAt(After(counter, max, steps), max, j);
    OneStep(counter, max, steps, Deliver(index));
    OneStep(counter, max, run, EnterWait(j, cancelled));
    OneStep(counter, max, run + [EnterWait(j, cancelled)], RemoveHandler(j));
    OneStep(counter, max, run + [EnterWait(j, cancelled)] + [RemoveHandler(j)], Release(j));
    assert run + [EnterWait(j, cancelled)] + [RemoveHandler(j)] + [Release(j)] ==
           steps + [Deliver(index), EnterWait(j, cancelled), RemoveHandler(j), Release(j)];
  }

  // ---- no job is stuck ----

  /** How many steps a job is away from its return when its request is not sent or it stops waiting. */
  function Remaining(s: State, job: Job): nat {
    match job.place
    case Counting => if Low16(Increment(s.counter)) == 0 then 7 else 6
    case Queueing => 5
    case Guarded => 4
    case Registered => 3
    case Sent => 3
    case Sleeping => if job.taken.Some? then 3 else 4
    case Awake(_) => 2
    case Leaving(_) => 1
    case Finished(_) => 0
  }

  /** The next step of a job that takes it there. */
  function WayOut(job: Job, j: nat): Step
    requires !job.place.Finished?
  {
    match job.place
    case Counting => Count(j)
    case Queueing => Acquire(j)
    case Guarded => AddHandler(j)
    case Registered => Send(j, false)
    case Sent => EnterWait(j, true)
    case Sleeping => if job.taken.Some? then Complete(j) else TimeOut(j)
    case Awake(_) => RemoveHandler(j)
    case Leaving(_) => Release(j)
  }

  /** The job holds a permit or has returned it, or there is one to take. */
  predicate CanGoOn(s: State, job: Job) {
    s.permits > 0 || IsGuarded(job.place) || job.place.Finished?
  }

  /** Permits that this job holds or that are free, counted together. */
  function Available(s: State, job: Job): nat { s.permits + One(IsGuarded(job.place)) }

  lemma OneStepOut(s: State, max: nat, j: nat)
    requires Inv(s, max) && j < |s.jobs| && !s.jobs[j].place.Finished? && CanGoOn(s, s.jobs[j])
    ensures var next := Apply(s, WayOut(s.jobs[j], j));
            && |next.jobs| == |s.jobs| && Remaining(next, next.jobs[j]) < Remaining(s, s.jobs[j])
            && CanGoOn(next, next.jobs[j]) && Available(next, next.jobs[j]) == Available(s, s.jobs[j])
  {
    hide Inv;
    JobAt(s, max, j);
    if s.jobs[j].place.Counting? && Low16(Increment(s.counter)) == 0 {
      NoTwoZeros(Increment(s.counter));
    }
    assert RemoveFirst([j], j) == [];
  }

  lemma {:induction false} Finishes(counter: int32, max: nat, steps: seq<Step>, j: nat) returns (more: seq<Step>)
    requires j < |After(counter, max, steps).jobs|
    requires CanGoOn(After(counter, max, steps), After(counter, max, steps).jobs[j])
    ensures var s, last := After(counter, max, steps), After(counter, max, more);
            && steps <= more && |last.jobs| == |s.jobs| && last.jobs[j].place.Finished?
            && last.permits == Available(s, s.jobs[j])
    decreases Remaining(After(counter, max, steps), After(counter, max, steps).jobs[j])
  {
    hide Inv, Apply, After, CanGoOn, WayOut;
    var s := After(counter, max, steps);
    if s.jobs[j].place.Finished? {
      more := steps;
    } else {
      var step := WayOut(s.jobs[j], j);
      EveryRunKeeps(counter, max, steps);
      OneStep(counter, max, steps, step);
      OneStepOut(s, max, j);
      more := Finishes(counter, max, steps + [step], j);
      assert steps <= steps + [step];
    }
  }

  lemma {:induction false} SomeGuarded(jobs: seq<Job>) returns (k: nat)
    requires GuardCount(jobs) > 0
    ensures k < |jobs| && IsGuarded(jobs[k].place)
  {
    if IsGuarded(jobs[|jobs| - 1].place) {
      k := |jobs| - 1;
    } else {
      k := SomeGuarded(jobs[..|jobs| - 1]);
    }
  }

  /** With at least one permit in all there is no deadlock: from every state on, every job can still return. */
  lemma EveryJobCanReturn(counter: int32, max: nat, steps: seq<Step>, j: nat) returns (more: seq<Step>)
    requires max > 0 && j < |After(counter, max, steps).jobs|
    ensures steps <= more && j < |After(counter, max, more).jobs| && After(counter, max, more).jobs[j].place.Finished?
  {
    hide After, Inv;
    var s := After(counter, max, steps);
    if CanGoOn(s, s.jobs[j]) {
      more := Finishes(counter, max, steps, j);
    } else if s.others > 0 {
      OneStep(counter, max, steps, ReleaseOther);
      more := Finishes(counter, max, steps + [ReleaseOther], j);
      assert steps <= steps + [ReleaseOther];
    } else {
      PermitBound(counter, max, steps);
      var k := SomeGuarded(s.jobs);
      var freed := Finishes(counter, max, steps, k);
      more := Finishes(counter, max, freed, j);
    }
  }
}
