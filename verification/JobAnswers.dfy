/** Which job's request an acknowledgement answers, and when it is not the job's own. */
module JobAnswers {
  import opened Basics
  import opened AutoResetEvent
  import opened ReferenceIds
  import opened Jobs
  import opened JobRuns

  // ---- whose request an acknowledgement answers ----

  /** Between two draws the counter may rest on a value whose id is zero. */
  predicate CounterOk(start: int32, counter: int32, draws: nat) {
    counter == CounterAfter(start, draws) ||
    (Low16(counter) == 0 && counter == Increment(CounterAfter(start, draws)))
  }

  lemma NextDraw(start: int32, counter: int32, draws: nat)
    requires CounterOk(start, counter, draws)
    ensures var next := Increment(counter);
            if Low16(next) == 0 then CounterOk(start, next, draws)
            else CounterOk(start, next, draws + 1) && Low16(next) == Id(start, draws)
  {
    AdvanceLow(CounterAfter(start, draws));
    if Low16(counter) == 0 {
      NoTwoZeros(counter);
    }
  }

  /** A job that has counted has the id of its draw. */
  predicate HasDrawn(start: int32, draws: nat, job: Job) {
    if job.place.Counting? then !job.sent else job.draw < draws && job.id == Id(start, job.draw)
  }

  ghost predicate JobsDrawn(start: int32, draws: nat, jobs: seq<Job>) {
    && (forall j | 0 <= j < |jobs| :: HasDrawn(start, draws, jobs[j]))
    && (forall i, j | 0 <= i < j < |jobs| && !jobs[i].place.Counting? && !jobs[j].place.Counting? :: jobs[i].draw != jobs[j].draw)
  }

  ghost predicate Drawn(start: int32, s: State) {
    && CounterOk(start, s.counter, s.draws)
    && JobsDrawn(start, s.draws, s.jobs)
    && (forall l <- s.lookups :: Answers(s.jobs, l.1))
  }

  /** A job may change as long as it keeps its key, its draw and what it has sent. */
  lemma DrawnReplace(start: int32, s: State, j: nat, job: Job)
    requires Drawn(start, s) && j < |s.jobs| && !s.jobs[j].place.Counting? && !job.place.Counting?
    requires Key(job) == Key(s.jobs[j]) && job.draw == s.jobs[j].draw && (s.jobs[j].sent ==> job.sent)
    ensures JobsDrawn(start, s.draws, s.jobs[j := job]) && forall l <- s.lookups :: Answers(s.jobs[j := job], l.1)
  {
    hide Id, CounterOk;
  }

  lemma DrawnCount(start: int32, s: State, j: nat)
    requires Drawn(start, s) && j < |s.jobs|
    ensures Drawn(start, StepJob(s, j, Count(j)))
  {
    hide Increment, Id, CounterOk;
    if s.jobs[j].place.Counting? {
      NextDraw(start, s.counter, s.draws);
      assert forall l <- s.lookups :: l.1.request != j;
    }
  }

  lemma DrawnStep(start: int32, s: State, step: Step)
    requires Drawn(start, s)
    ensures Drawn(start, Apply(s, step))
  {
    hide JobsDrawn, Id, CounterOk, Increment, AfterSet, AfterWait, AfterCancel, Answers;
    match step
    case Begin(kind) => DrawnBegin(start, s, kind);
    case Lookup(ack) =>
    case LookupNull(kind, id) =>
    case Deliver(index) => DrawnDeliver(start, s, index);
    case DrawOther => DrawnOther(start, s);
    case AcquireOther =>
    case ReleaseOther =>
    case Count(j) => if j < |s.jobs| { DrawnCount(start, s, j); }
    case _ =>
      if step.job < |s.jobs| && StepJob(s, step.job, step) != s {
        DrawnMove(start, s, step.job, step);
      }
  }

  lemma DrawnBegin(start: int32, s: State, kind: Kind)
    requires Drawn(start, s)
    ensures Drawn(start, Apply(s, Begin(kind)))
  {
    hide Id, CounterOk;
  }

  lemma DrawnOther(start: int32, s: State)
    requires Drawn(start, s)
    ensures Drawn(start, Apply(s, DrawOther))
  {
    hide Id, CounterOk, Increment;
    NextDraw(start, s.counter, s.draws);
  }

  lemma DrawnMove(start: int32, s: State, j: nat, step: Step)
    requires Drawn(start, s) && j < |s.jobs| && !step.Count? && StepJob(s, j, step) != s
    ensures Drawn(start, StepJob(s, j, step))
  {
    hide JobsDrawn, Id, CounterOk, AfterSet, Answers;
    var next := StepJob(s, j, step);
    DrawnReplace(start, s, j, next.jobs[j]);
  }

  lemma DrawnDeliver(start: int32, s: State, index: nat)
    requires Drawn(start, s)
    ensures Drawn(start, Apply(s, Deliver(index)))
  {
    hide Id, CounterOk, AfterSet;
  }

  /** Whatever the steps, ids, draws and acknowledgements belong together. */
  lemma {:induction false} EveryRunDraws(counter: int32, maxAmQCalling: nat, steps: seq<Step>)
    ensures Drawn(counter, After(counter, maxAmQCalling, steps))
  {
    hide JobsDrawn, Id, Answers;
    if steps == [] {
      NothingDrawn(counter, maxAmQCalling);
    } else {
      var before := After(counter, maxAmQCalling, steps[..|steps| - 1]);
      EveryRunDraws(counter, maxAmQCalling, steps[..|steps| - 1]);
      DrawnStep(counter, before, steps[|steps| - 1]);
    }
  }

  lemma NothingDrawn(counter: int32, max: nat)
    ensures Drawn(counter, Init(counter, max))
  {}

  /**
   * A job returns an acknowledgement that answers the request of another job only if at least 65535 ids were drawn
   * between the two.
   */
  lemma OwnAnswer(counter: int32, maxAmQCalling: nat, steps: seq<Step>, j: nat, ack: Ack)
    requires j < |After(counter, maxAmQCalling, steps).jobs|
    requires After(counter, maxAmQCalling, steps).jobs[j].place == Finished(Some(ack))
    ensures ack.request < |After(counter, maxAmQCalling, steps).jobs|
    ensures var jobs := After(counter, maxAmQCalling, steps).jobs;
            ack.request != j ==> jobs[ack.request].draw + 0xffff <= jobs[j].draw || jobs[j].draw + 0xffff <= jobs[ack.request].draw
  {
    hide Inv, Id;
    Correlated(counter, maxAmQCalling, steps, j, ack);
    EveryRunDraws(counter, maxAmQCalling, steps);
    var jobs := After(counter, maxAmQCalling, steps).jobs;
    var d, e := jobs[j].draw, jobs[ack.request].draw;
    if ack.request != j {
      assert d != e;
      IdsAreDistinct(counter, if d < e then d else e, if d < e then e else d);
    }
  }

  // ---- a run in which it happens ----

  const NO_EVENT: Event<nat, Ack> := Event([], false, None)

  /** A job that counts and sends its request. */
  lemma SendingJob() returns (steps: seq<Step>)
    ensures After(0, 1, steps) ==
            State(1, 1, 0, 0, [Job(ReadJob, 1, Sent, NO_EVENT, None, 0, true)], map[HandlerKey(ReadJob, 1) := 0], [], {})
  {
    hide After;
    steps := [];
    NothingDone();
    OneStep(0, 1, steps, Begin(ReadJob));
    steps := steps + [Begin(ReadJob)];
    OneStep(0, 1, steps, Count(0));
    steps := steps + [Count(0)];
    assert After(0, 1, steps) == State(1, 1, 1, 0, [Job(ReadJob, 1, Queueing, NO_EVENT, None, 0, false)], map[], [], {});
    OneStep(0, 1, steps, Acquire(0));
    steps := steps + [Acquire(0)];
    OneStep(0, 1, steps, AddHandler(0));
    steps := steps + [AddHandler(0)];
    OneStep(0, 1, steps, Send(0, true));
    steps := steps + [Send(0, true)];
  }

  /** It times out at once. */
  lemma TimedOutJob() returns (steps: seq<Step>)
    ensures After(0, 1, steps) ==
            State(1, 1, 1, 0, [Job(ReadJob, 1, Finished(None), NO_EVENT, None, 0, true)], map[], [], {})
  {
    hide After;
    steps := SendingJob();
    OneStep(0, 1, steps, EnterWait(0, true));
    steps := steps + [EnterWait(0, true)];
    OneStep(0, 1, steps, RemoveHandler(0));
    steps := steps + [RemoveHandler(0)];
    assert map[HandlerKey(ReadJob, 1) := 0] - {HandlerKey(ReadJob, 1)} == map[];
    OneStep(0, 1, steps, Release(0));
    steps := steps + [Release(0)];
  }

  lemma NothingDone()
    ensures After(0, 1, []) == Init(0, 1)
  {}

  /** The other jobs draw all ids up to 65535. */
  lemma {:induction false} OtherDraws(steps: seq<Step>, n: nat) returns (more: seq<Step>)
    requires n <= 0xfffe && After(0, 1, steps).counter == 1 && After(0, 1, steps).draws == 1
    ensures After(0, 1, more) == After(0, 1, steps).(counter := 1 + n, draws := 1 + n)
  {
    hide After;
    if n == 0 {
      more := steps;
    } else {
      var before := OtherDraws(steps, n - 1);
      OneStep(0, 1, before, DrawOther);
      more := before + [DrawOther];
    }
  }

  /** A job with the same id that returns the late acknowledgement. */
  lemma LuckyJob(steps: seq<Step>, earlier: Job, ack: Ack) returns (more: seq<Step>)
    requires After(0, 1, steps) == State(0xffff, 0xffff, 1, 0, [earlier], map[], [], {})
    requires earlier.kind == ReadJob && earlier.id == 1 && earlier.sent && ack == Ack(ReadJob, 1, 0, 0)
    ensures |After(0, 1, more).jobs| == 2 && After(0, 1, more).jobs[0] == earlier
    ensures After(0, 1, more).jobs[1].place == Finished(Some(ack)) && After(0, 1, more).jobs[1].draw == 0xffff
  {
    hide After;
    var job := Job(ReadJob, 1, Queueing, NO_EVENT, None, 0xffff, false);
    var key := HandlerKey(ReadJob, 1);
    more := steps;
    OneStep(0, 1, more, Begin(ReadJob));
    more := more + [Begin(ReadJob)];
    OneStep(0, 1, more, Count(1));
    more := more + [Count(1)];
    OneStep(0, 1, more, Count(1));
    more := more + [Count(1)];
    assert After(0, 1, more) == State(0x1_0001, 0x1_0000, 1, 0, [earlier, job], map[], [], {});
    OneStep(0, 1, more, Acquire(1));
    more := more + [Acquire(1)];
    OneStep(0, 1, more, AddHandler(1));
    more := more + [AddHandler(1)];
    OneStep(0, 1, more, Send(1, true));
    more := more + [Send(1, true)];
    assert After(0, 1, more) ==
           State(0x1_0001, 0x1_0000, 0, 0, [earlier, job.(place := Sent, sent := true)], map[key := 1], [], {});
    more := LateAck(more, earlier, job, ack);
  }

  lemma LateAck(steps: seq<Step>, earlier: Job, job: Job, ack: Ack) returns (more: seq<Step>)
    requires job == Job(ReadJob, 1, Queueing, NO_EVENT, None, 0xffff, false)
    requires earlier.kind == ReadJob && earlier.id == 1 && earlier.sent && ack == Ack(ReadJob, 1, 0, 0)
    requires After(0, 1, steps) == State(0x1_0001, 0x1_0000, 0, 0, [earlier, job.(place := Sent, sent := true)],
                                         map[HandlerKey(ReadJob, 1) := 1], [], {})
    ensures |After(0, 1, more).jobs| == 2 && After(0, 1, more).jobs[0] == earlier
    ensures After(0, 1, more).jobs[1].place == Finished(Some(ack)) && After(0, 1, more).jobs[1].draw == 0xffff
  {
    hide After, Apply;
    var before := After(0, 1, steps);
    var asleep := before.jobs[1].(place := Sleeping, event := Event([1], false, None));
    LateArrives(before, asleep, ack);
    OneStep(0, 1, steps, EnterWait(1, false));
    more := steps + [EnterWait(1, false)];
    OneStep(0, 1, more, Lookup(ack));
    more := more + [Lookup(ack)];
    LateReturned(After(0, 1, more), asleep, ack);
    OneStep(0, 1, more, Deliver(0));
    more := more + [Deliver(0)];
    OneStep(0, 1, more, Complete(1));
    more := more + [Complete(1)];
    OneStep(0, 1, more, RemoveHandler(1));
    more := more + [RemoveHandler(1)];
    OneStep(0, 1, more, Release(1));
    more := more + [Release(1)];
  }

  lemma LateArrives(s: State, asleep: Job, ack: Ack)
    requires |s.jobs| == 2 && s.jobs[1].place == Sent && s.jobs[1].event == NO_EVENT && Answers(s.jobs, ack)
    requires s.handlers == map[HandlerKey(ack.kind, ack.reference) := 1] && s.deliveries == [] && ack.request == 0
    requires asleep == s.jobs[1].(place := Sleeping, event := Event([1], false, None))
    ensures Apply(Apply(s, EnterWait(1, false)), Lookup(ack)) ==
            s.(jobs := s.jobs[1 := asleep], deliveries := [(1, Some(ack))], lookups := s.lookups + {(1, ack)})
  {
    assert [] + [1] == [1];
    assert Apply(s, EnterWait(1, false)) == s.(jobs := s.jobs[1 := asleep]);
    assert s.deliveries + [(1, Some(ack))] == [(1, Some(ack))];
  }

  lemma LateReturned(s: State, asleep: Job, ack: Ack)
    requires |s.jobs| == 2 && s.jobs[1] == asleep && s.deliveries == [(1, Some(ack))]
    requires asleep.place == Sleeping && asleep.event == Event([1], false, None) && asleep.taken == None
    ensures var last := Apply(Apply(Apply(Apply(s, Deliver(0)), Complete(1)), RemoveHandler(1)), Release(1));
            && |last.jobs| == 2 && last.jobs[0] == s.jobs[0]
            && last.jobs[1].place == Finished(Some(ack)) && last.jobs[1].draw == asleep.draw
  {
    var woken := asleep.(event := NO_EVENT, taken := Some(Some(ack)));
    assert [1][1..] == [] && Without(s.deliveries, 0) == [];
    assert Apply(s, Deliver(0)) == s.(deliveries := [], jobs := s.jobs[1 := woken]);
  }

  /** After exactly 65535 draws a job returns the answer to a request of a job that had timed out. */
  lemma LateAnswerExample() returns (steps: seq<Step>)
    ensures var jobs := After(0, 1, steps).jobs;
            && |jobs| == 2 && jobs[1].draw == jobs[0].draw + 0xffff
            && jobs[1].place == Finished(Some(Ack(ReadJob, 1, 0, 0)))
  {
    hide After;
    var first := TimedOutJob();
    var earlier := Job(ReadJob, 1, Finished(None), NO_EVENT, None, 0, true);
    var drawn := OtherDraws(first, 0xfffe);
    steps := LuckyJob(drawn, earlier, Ack(ReadJob, 1, 0, 0));
  }
}
