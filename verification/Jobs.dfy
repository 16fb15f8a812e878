/** Concurrent read and write jobs: reference ids, the job semaphore, the handler dictionaries and the acknowledgements. */
module Jobs {
  import opened Basics
  import opened AutoResetEvent
  import opened ReferenceIds

  datatype Kind = ReadJob | WriteJob

  /** The telegram carries kind, reference and items (the payload); `request` is the job whose request it answers. */
  datatype Ack = Ack(kind: Kind, reference: u16, payload: nat, request: nat)

  /** Where a job is in ReadPackage or WritePackage; the values are what it has received, None for null. */
  datatype Place =
    | Counting                        // about to increment the reference counter
    | Queueing                        // waiting for the job semaphore
    | Guarded                         // holds a permit, about to add its handler
    | Registered                      // its handler is in the dictionary, about to send
    | Sent                            // about to enter WaitAsync
    | Sleeping                        // parked in its own event
    | Awake(value: Option<Ack>)       // about to remove its handler
    | Leaving(value: Option<Ack>)     // about to release its permit
    | Finished(value: Option<Ack>)

  /**
   * Every job has a fresh event; `taken` is a completion source removed from it but not completed yet. Of its history,
   * `draw` counts the ids drawn before its own, and `sent` says whether its request was sent.
   */
  datatype Job = Job(
    kind: Kind,
    id: u16,
    place: Place,
    event: Event<nat, Ack>,
    taken: Option<Option<Ack>>,
    draw: nat,
    sent: bool
  )

  datatype HandlerKey = HandlerKey(kind: Kind, id: u16)

  /**
   * `others` counts the alarm and metadata jobs that hold a permit of the same semaphore, `deliveries` are handlers
   * looked up by the receiver whose event is not set yet. Of the history, `draws` counts the ids drawn so far and
   * `lookups` are the hits in the dictionaries.
   */
  datatype State = State(
    counter: int32,
    draws: nat,
    permits: nat,
    others: nat,
    jobs: seq<Job>,
    handlers: map<HandlerKey, nat>,
    deliveries: seq<(nat, Option<Ack>)>,
    lookups: set<(nat, Ack)>
  )

  datatype Step =
    | Begin(kind: Kind)
    | Count(job: nat)
    | Acquire(job: nat)
    | AddHandler(job: nat)
    | Send(job: nat, success: bool)
    | EnterWait(job: nat, cancelled: bool)
    | Lookup(ack: Ack)                  // the acknowledgement of a sent request arrives and its handler is looked up
    | LookupNull(kind: Kind, id: u16)   // an error acknowledgement or the cancellation of all handlers
    | Deliver(index: nat)               // the Set on the event of a handler that was looked up
    | TimeOut(job: nat)
    | Complete(job: nat)
    | RemoveHandler(job: nat)
    | Release(job: nat)
    | DrawOther                         // an alarm or metadata job counts
    | AcquireOther
    | ReleaseOther

  function Init(counter: int32, maxAmQCalling: nat): State {
    State(counter, 0, maxAmQCalling, 0, [], map[], [], {})
  }

  function Key(job: Job): HandlerKey { HandlerKey(job.kind, job.id) }

  function Move(s: State, j: nat, place: Place): State
    requires j < |s.jobs|
  {
    s.(jobs := s.jobs[j := s.jobs[j].(place := place)])
  }

  function StepJob(s: State, j: nat, step: Step): State
    requires j < |s.jobs|
  {
    var job := s.jobs[j];
    match step
    case Count(_) =>
      if !job.place.Counting? then s
      else
        var counter := Increment(s.counter);
        var counted := s.(counter := counter);
        if Low16(counter) == 0 then counted
        else counted.(draws := s.draws + 1, jobs := s.jobs[j := job.(id := Low16(counter), draw := s.draws, place := Queueing)])
    case Acquire(_) =>
      if job.place.Queueing? && s.permits > 0 then Move(s, j, Guarded).(permits := s.permits - 1) else s
    case AddHandler(_) =>
      if !job.place.Guarded? then s
      else if Key(job) in s.handlers then Move(s, j, Leaving(None))
      else Move(s, j, Registered).(handlers := s.handlers[Key(job) := j])
    case Send(_, success) =>
      if !job.place.Registered? then s
      else s.(jobs := s.jobs[j := job.(place := if success then Sent else Awake(None), sent := job.sent || success)])
    case EnterWait(_, cancelled) =>
      if !job.place.Sent? then s
      else
        var (event, result) := AfterWait(job.event, j, cancelled);
        s.(jobs := s.jobs[j := job.(event := event, place := if result.Parked? then Sleeping else Awake(result.value))])
    case TimeOut(_) =>
      if !job.place.Sleeping? then s
      else
        var (event, removed) := AfterCancel(job.event, j);
        if removed then s.(jobs := s.jobs[j := job.(event := event, taken := Some(None))]) else s
    case Complete(_) =>
      if job.place.Sleeping? && job.taken.Some?
      then s.(jobs := s.jobs[j := job.(place := Awake(job.taken.value), taken := None)]) else s
    case RemoveHandler(_) =>
      if job.place.Awake? then Move(s, j, Leaving(job.place.value)).(handlers := s.handlers - {Key(job)}) else s
    case Release(_) =>
      if job.place.Leaving? then Move(s, j, Finished(job.place.value)).(permits := s.permits + 1) else s
    case _ => s
  }

  /** The acknowledgement repeats kind and reference of a request that was sent. */
  predicate Answers(jobs: seq<Job>, ack: Ack) {
    ack.request < |jobs| && jobs[ack.request].sent && Key(jobs[ack.request]) == HandlerKey(ack.kind, ack.reference)
  }

  /** One step; a step that is not possible in the state leaves it as it is. */
  function Apply(s: State, step: Step): State {
    match step
    case Begin(kind) => s.(jobs := s.jobs + [Job(kind, 0, Counting, Event([], false, None), None, 0, false)])
    case Lookup(ack) =>
      var key := HandlerKey(ack.kind, ack.reference);
      if key in s.handlers && Answers(s.jobs, ack) then
        s.(deliveries := s.deliveries + [(s.handlers[key], Some(ack))], lookups := s.lookups + {(s.handlers[key], ack)})
      else s
    case LookupNull(kind, id) =>
      if HandlerKey(kind, id) in s.handlers then
        s.(deliveries := s.deliveries + [(s.handlers[HandlerKey(kind, id)], None)])
      else s
    case Deliver(index) =>
      if index >= |s.deliveries| || s.deliveries[index].0 >= |s.jobs| then s
      else
        var (j, value) := s.deliveries[index];
        var (event, result) := AfterSet(s.jobs[j].event, value);
        var taken := if result.Handed? then Some(value) else s.jobs[j].taken;
        s.(deliveries := Without(s.deliveries, index), jobs := s.jobs[j := s.jobs[j].(event := event, taken := taken)])
    case DrawOther =>
      var counter := Increment(s.counter);
      s.(counter := counter, draws := s.draws + if Low16(counter) == 0 then 0 else 1)
    case AcquireOther => if s.permits > 0 then s.(permits := s.permits - 1, others := s.others + 1) else s
    case ReleaseOther => if s.others > 0 then s.(permits := s.permits + 1, others := s.others - 1) else s
    case _ => if step.job < |s.jobs| then StepJob(s, step.job, step) else s
  }

  function After(counter: int32, maxAmQCalling: nat, steps: seq<Step>): State {
    if steps == [] then Init(counter, maxAmQCalling)
    else Apply(After(counter, maxAmQCalling, steps[..|steps| - 1]), steps[|steps| - 1])
  }

  // ---- the invariant ----

  /** The job's handler is in the dictionary. */
  predicate IsRegistered(p: Place) { p.Registered? || p.Sent? || p.Sleeping? || p.Awake? }

  /** The job holds a permit. */
  predicate IsGuarded(p: Place) { p.Guarded? || IsRegistered(p) || p.Leaving? }

  function GuardCount(jobs: seq<Job>): nat {
    if jobs == [] then 0
    else GuardCount(jobs[..|jobs| - 1]) + if IsGuarded(jobs[|jobs| - 1].place) then 1 else 0
  }

  function RegisteredCount(jobs: seq<Job>): nat {
    if jobs == [] then 0
    else RegisteredCount(jobs[..|jobs| - 1]) + if IsRegistered(jobs[|jobs| - 1].place) then 1 else 0
  }

  /** A value that job j has got or is about to get was looked up for job j. */
  predicate Traced(lookups: set<(nat, Ack)>, j: nat, value: Option<Ack>) {
    value.Some? ==> (j, value.value) in lookups
  }

  predicate JobOk(lookups: set<(nat, Ack)>, handlers: map<HandlerKey, nat>, j: nat, job: Job) {
    && job.event.waits == (if job.place.Sleeping? && job.taken.None? then [j] else [])
    && (job.taken.Some? ==> job.place.Sleeping? && Traced(lookups, j, job.taken.value))
    && Traced(lookups, j, job.event.lastValue)
    && (job.place.Awake? || job.place.Leaving? || job.place.Finished? ==> Traced(lookups, j, job.place.value))
    && (IsRegistered(job.place) ==> Key(job) in handlers && handlers[Key(job)] == j)
  }

  ghost predicate JobsOk(jobs: seq<Job>, handlers: map<HandlerKey, nat>, lookups: set<(nat, Ack)>) {
    forall j | 0 <= j < |jobs| :: JobOk(lookups, handlers, j, jobs[j])
  }

  ghost predicate HandlersOk(jobs: seq<Job>, handlers: map<HandlerKey, nat>) {
    forall key <- handlers.Keys ::
      handlers[key] < |jobs| && Key(jobs[handlers[key]]) == key && IsRegistered(jobs[handlers[key]].place)
  }

  ghost predicate LookupsOk(jobs: seq<Job>, deliveries: seq<(nat, Option<Ack>)>, lookups: set<(nat, Ack)>) {
    && (forall l <- lookups :: l.0 < |jobs| && Key(jobs[l.0]) == HandlerKey(l.1.kind, l.1.reference) &&
                               !jobs[l.0].place.Counting?)
    && (forall d <- deliveries :: Traced(lookups, d.0, d.1))
  }

  ghost predicate PermitsOk(jobs: seq<Job>, handlers: map<HandlerKey, nat>, permits: nat, others: nat, max: nat) {
    permits + GuardCount(jobs) + others == max && |handlers| == RegisteredCount(jobs)
  }

  ghost predicate Inv(s: State, max: nat) {
    && JobsOk(s.jobs, s.handlers, s.lookups)
    && HandlersOk(s.jobs, s.handlers)
    && LookupsOk(s.jobs, s.deliveries, s.lookups)
    && PermitsOk(s.jobs, s.handlers, s.permits, s.others, max)
  }

  // ---- one step keeps it ----

  function One(b: bool): nat { if b then 1 else 0 }

  lemma {:induction false} CountsReplace(jobs: seq<Job>, j: nat, job: Job)
    requires j < |jobs|
    ensures GuardCount(jobs[j := job]) + One(IsGuarded(jobs[j].place)) == GuardCount(jobs) + One(IsGuarded(job.place))
    ensures RegisteredCount(jobs[j := job]) + One(IsRegistered(jobs[j].place)) ==
            RegisteredCount(jobs) + One(IsRegistered(job.place))
  {
    hide IsGuarded, IsRegistered;
    var n := |jobs| - 1;
    if j == n {
      assert jobs[j := job][..n] == jobs[..n];
    } else {
      assert jobs[j := job][..n] == jobs[..n][j := job];
      CountsReplace(jobs[..n], j, job);
    }
  }

  lemma CountsAppend(jobs: seq<Job>, job: Job)
    ensures GuardCount(jobs + [job]) == GuardCount(jobs) + One(IsGuarded(job.place))
    ensures RegisteredCount(jobs + [job]) == RegisteredCount(jobs) + One(IsRegistered(job.place))
  {
    assert (jobs + [job])[..|jobs|] == jobs;
  }

  lemma JobAt(s: State, max: nat, j: nat)
    requires Inv(s, max) && j < |s.jobs|
    ensures JobOk(s.lookups, s.handlers, j, s.jobs[j])
  {
    hide JobOk;
  }

  // The four parts of the invariant when one job is replaced.

  lemma JobsReplace(jobs: seq<Job>, handlers: map<HandlerKey, nat>, lookups: set<(nat, Ack)>, j: nat, job: Job)
    requires JobsOk(jobs, handlers, lookups) && j < |jobs| && JobOk(lookups, handlers, j, job)
    ensures JobsOk(jobs[j := job], handlers, lookups)
  {
    hide JobOk;
  }

  lemma HandlersReplace(jobs: seq<Job>, handlers: map<HandlerKey, nat>, j: nat, job: Job)
    requires HandlersOk(jobs, handlers) && j < |jobs|
    requires jobs[j].place.Counting? || Key(job) == Key(jobs[j])
    requires IsRegistered(job.place) == IsRegistered(jobs[j].place)
    ensures HandlersOk(jobs[j := job], handlers)
  {}

  lemma LookupsReplace(jobs: seq<Job>, deliveries: seq<(nat, Option<Ack>)>, lookups: set<(nat, Ack)>, j: nat, job: Job)
    requires LookupsOk(jobs, deliveries, lookups) && j < |jobs|
    requires jobs[j].place.Counting? || (Key(job) == Key(jobs[j]) && !job.place.Counting?)
    ensures LookupsOk(jobs[j := job], deliveries, lookups)
  {
    hide Traced;
  }

  lemma PermitsReplace(s: State, max: nat, j: nat, job: Job, permits: nat, handlers: map<HandlerKey, nat>)
    requires PermitsOk(s.jobs, s.handlers, s.permits, s.others, max) && j < |s.jobs|
    requires permits + One(IsGuarded(job.place)) == s.permits + One(IsGuarded(s.jobs[j].place))
    requires |handlers| + One(IsRegistered(s.jobs[j].place)) == |s.handlers| + One(IsRegistered(job.place))
    ensures PermitsOk(s.jobs[j := job], handlers, permits, s.others, max)
  {
    hide IsGuarded, IsRegistered;
    CountsReplace(s.jobs, j, job);
  }

  /** A job and the permits may change as long as the job keeps its dictionary entry and the permits stay in balance. */
  lemma KeepsReplace(s: State, max: nat, j: nat, job: Job, permits: nat)
    requires Inv(s, max) && j < |s.jobs|
    requires JobOk(s.lookups, s.handlers, j, job)
    requires s.jobs[j].place.Counting? || (Key(job) == Key(s.jobs[j]) && !job.place.Counting?)
    requires IsRegistered(job.place) == IsRegistered(s.jobs[j].place)
    requires permits + One(IsGuarded(job.place)) == s.permits + One(IsGuarded(s.jobs[j].place))
    ensures Inv(s.(jobs := s.jobs[j := job], permits := permits), max)
  {
    hide JobsOk, HandlersOk, LookupsOk, PermitsOk, JobOk;
    JobsReplace(s.jobs, s.handlers, s.lookups, j, job);
    HandlersReplace(s.jobs, s.handlers, j, job);
    LookupsReplace(s.jobs, s.deliveries, s.lookups, j, job);
    PermitsReplace(s, max, j, job, permits, s.handlers);
  }

  lemma KeepsBegin(s: State, max: nat, kind: Kind)
    requires Inv(s, max)
    ensures Inv(Apply(s, Begin(kind)), max)
  {
    hide GuardCount, RegisteredCount, JobsOk, JobOk, Traced;
    var next := Apply(s, Begin(kind));
    CountsAppend(s.jobs, next.jobs[|s.jobs|]);
    FirstOk(s.lookups, s.handlers, |s.jobs|, next.jobs[|s.jobs|]);
    JobsAppend(s.jobs, s.handlers, s.lookups, next.jobs[|s.jobs|]);
  }

  lemma FirstOk(lookups: set<(nat, Ack)>, handlers: map<HandlerKey, nat>, j: nat, job: Job)
    requires job.place.Counting? && job.event == Event([], false, None) && job.taken.None?
    ensures JobOk(lookups, handlers, j, job)
  {}

  lemma JobsAppend(jobs: seq<Job>, handlers: map<HandlerKey, nat>, lookups: set<(nat, Ack)>, job: Job)
    requires JobsOk(jobs, handlers, lookups) && JobOk(lookups, handlers, |jobs|, job)
    ensures JobsOk(jobs + [job], handlers, lookups)
  {
    hide JobOk;
  }

  /** A step of job j that leaves the dictionary alone. */
  lemma KeepsStep(s: State, max: nat, j: nat, step: Step)
    requires Inv(s, max) && j < |s.jobs| && !step.AddHandler? && !step.RemoveHandler?
    ensures Inv(StepJob(s, j, step), max)
  {
    hide JobsOk, HandlersOk, LookupsOk, PermitsOk, Increment;
    JobAt(s, max, j);
    var next := StepJob(s, j, step);
    KeepsReplace(s.(counter := next.counter, draws := next.draws), max, j, next.jobs[j], next.permits);
  }

  // ---- the dictionary ----

  lemma AddedEntry(handlers: map<HandlerKey, nat>, key: HandlerKey, j: nat)
    requires key !in handlers
    ensures |handlers[key := j]| == |handlers| + 1
  {
    assert handlers[key := j].Keys == handlers.Keys + {key};
  }

  lemma RemovedEntry(handlers: map<HandlerKey, nat>, key: HandlerKey)
    requires key in handlers
    ensures |handlers - {key}| + 1 == |handlers|
  {
    assert handlers.Keys == (handlers - {key}).Keys + {key};
  }

  lemma KeepsAddHandler(s: State, max: nat, j: nat)
    requires Inv(s, max) && j < |s.jobs|
    ensures Inv(StepJob(s, j, AddHandler(j)), max)
  {
    hide JobsOk, HandlersOk, LookupsOk, PermitsOk;
    JobAt(s, max, j);
    var job := s.jobs[j];
    if job.place.Guarded? && Key(job) in s.handlers {
      KeepsReplace(s, max, j, job.(place := Leaving(None)), s.permits);
    } else if job.place.Guarded? {
      var added := job.(place := Registered);
      AddedEntry(s.handlers, Key(job), j);
      AddedJobsOk(s, j);
      LookupsReplace(s.jobs, s.deliveries, s.lookups, j, added);
      PermitsReplace(s, max, j, added, s.permits, s.handlers[Key(job) := j]);
    }
  }

  /** The dictionary gains the entry of job j, whose key was not in it. */
  lemma AddedJobsOk(s: State, j: nat)
    requires JobsOk(s.jobs, s.handlers, s.lookups) && HandlersOk(s.jobs, s.handlers)
    requires j < |s.jobs| && s.jobs[j].place.Guarded? && Key(s.jobs[j]) !in s.handlers
    ensures var next := StepJob(s, j, AddHandler(j));
            JobsOk(next.jobs, next.handlers, next.lookups) && HandlersOk(next.jobs, next.handlers)
  {
    hide Traced;
    var next := StepJob(s, j, AddHandler(j));
    forall i | 0 <= i < |s.jobs| ensures JobOk(next.lookups, next.handlers, i, next.jobs[i]) {
      assert JobOk(s.lookups, s.handlers, i, s.jobs[i]);
    }
  }

  lemma KeepsRemoveHandler(s: State, max: nat, j: nat)
    requires Inv(s, max) && j < |s.jobs|
    ensures Inv(StepJob(s, j, RemoveHandler(j)), max)
  {
    hide JobsOk, HandlersOk, LookupsOk, PermitsOk;
    var job := s.jobs[j];
    if job.place.Awake? {
      var removed := job.(place := Leaving(job.place.value));
      JobAt(s, max, j);
      RemovedEntry(s.handlers, Key(job));
      RemovedJobsOk(s, j);
      LookupsReplace(s.jobs, s.deliveries, s.lookups, j, removed);
      PermitsReplace(s, max, j, removed, s.permits, s.handlers - {Key(job)});
    }
  }

  /** The dictionary loses the entry of job j and no other. */
  lemma RemovedJobsOk(s: State, j: nat)
    requires JobsOk(s.jobs, s.handlers, s.lookups) && HandlersOk(s.jobs, s.handlers)
    requires j < |s.jobs| && s.jobs[j].place.Awake?
    ensures var next := StepJob(s, j, RemoveHandler(j));
            JobsOk(next.jobs, next.handlers, next.lookups) && HandlersOk(next.jobs, next.handlers)
  {
    hide Traced;
    var next := StepJob(s, j, RemoveHandler(j));
    assert JobOk(s.lookups, s.handlers, j, s.jobs[j]);
    forall i | 0 <= i < |s.jobs| ensures JobOk(next.lookups, next.handlers, i, next.jobs[i]) {
      assert JobOk(s.lookups, s.handlers, i, s.jobs[i]);
    }
  }

  // ---- the receiver ----

  lemma KeepsLookup(s: State, max: nat, ack: Ack)
    requires Inv(s, max)
    ensures Inv(Apply(s, Lookup(ack)), max)
  {
    hide GuardCount, RegisteredCount, JobOk, JobsOk;
    MoreLookups(s.jobs, s.handlers, s.lookups, Apply(s, Lookup(ack)).lookups);
  }

  lemma MoreLookups(jobs: seq<Job>, handlers: map<HandlerKey, nat>, lookups: set<(nat, Ack)>, more: set<(nat, Ack)>)
    requires JobsOk(jobs, handlers, lookups) && lookups <= more
    ensures JobsOk(jobs, handlers, more)
  {}

  lemma KeepsLookupNull(s: State, max: nat, kind: Kind, id: u16)
    requires Inv(s, max)
    ensures Inv(Apply(s, LookupNull(kind, id)), max)
  {
    hide GuardCount, RegisteredCount, JobOk;
  }

  lemma KeepsDeliver(s: State, max: nat, index: nat)
    requires Inv(s, max)
    ensures Inv(Apply(s, Deliver(index)), max)
  {
    hide Inv, AfterSet, StepJob;
    if index < |s.deliveries| && s.deliveries[index].0 < |s.jobs| {
      var (j, value) := s.deliveries[index];
      Delivered(s, max, index);
      KeepsSet(s.(deliveries := Without(s.deliveries, index)), max, j, value);
    }
  }

  lemma Delivered(s: State, max: nat, index: nat)
    requires Inv(s, max) && index < |s.deliveries|
    ensures Traced(s.lookups, s.deliveries[index].0, s.deliveries[index].1)
    ensures Inv(s.(deliveries := Without(s.deliveries, index)), max)
  {
    hide Traced, JobsOk, HandlersOk, PermitsOk;
    assert s.deliveries[index] in s.deliveries;
    forall d <- Without(s.deliveries, index) ensures d in s.deliveries {}
  }

  lemma KeepsSet(s: State, max: nat, j: nat, value: Option<Ack>)
    requires Inv(s, max) && j < |s.jobs| && Traced(s.lookups, j, value)
    ensures var (event, result) := AfterSet(s.jobs[j].event, value);
            var job := s.jobs[j].(event := event, taken := if result.Handed? then Some(value) else s.jobs[j].taken);
            Inv(s.(jobs := s.jobs[j := job]), max)
  {
    hide JobsOk, HandlersOk, LookupsOk, PermitsOk, Traced;
    JobAt(s, max, j);
    var (event, result) := AfterSet(s.jobs[j].event, value);
    var job := s.jobs[j].(event := event, taken := if result.Handed? then Some(value) else s.jobs[j].taken);
    KeepsReplace(s, max, j, job, s.permits);
  }

  // ---- all steps ----

  lemma NothingYet(counter: int32, maxAmQCalling: nat)
    ensures Inv(Init(counter, maxAmQCalling), maxAmQCalling)
  {}

  lemma KeepsApply(s: State, max: nat, step: Step)
    requires Inv(s, max)
    ensures Inv(Apply(s, step), max)
  {
    hide JobsOk, HandlersOk, LookupsOk, PermitsOk, StepJob, AfterSet;
    match step
    case Begin(kind) => KeepsBegin(s, max, kind);
    case Lookup(ack) => KeepsLookup(s, max, ack);
    case LookupNull(kind, id) => KeepsLookupNull(s, max, kind, id);
    case Deliver(index) => KeepsDeliver(s, max, index);
    case AddHandler(j) => if j < |s.jobs| { KeepsAddHandler(s, max, j); }
    case RemoveHandler(j) => if j < |s.jobs| { KeepsRemoveHandler(s, max, j); }
    case DrawOther =>
    case AcquireOther => OthersBalance(s, max);
    case ReleaseOther => OthersBalance(s, max);
    case _ => if step.job < |s.jobs| { KeepsStep(s, max, step.job, step); }
  }

  lemma OthersBalance(s: State, max: nat)
    requires Inv(s, max)
    ensures s.permits > 0 ==> PermitsOk(s.jobs, s.handlers, s.permits - 1, s.others + 1, max)
    ensures s.others > 0 ==> PermitsOk(s.jobs, s.handlers, s.permits + 1, s.others - 1, max)
  {}

  lemma OneStep(counter: int32, max: nat, steps: seq<Step>, step: Step)
    ensures After(counter, max, steps + [step]) == Apply(After(counter, max, steps), step)
  {
    assert (steps + [step])[..|steps|] == steps;
  }
}
