/** What every run of producers and the receiver of one alarm subscription keeps. */
module AlarmRuns {
  import opened Basics
  import opened AutoResetEvent
  import opened Alarms

  lemma {:induction false} EveryRunKeeps<D>(steps: seq<Step<D>>)
    ensures QueuedIffParked(After(steps)) && Announced(After(steps))
  {
    hide QueuedIffParked, Announced, Apply;
    if steps != [] {
      EveryRunKeeps(steps[..|steps| - 1]);
      StepKeeps(After(steps[..|steps| - 1]), steps[|steps| - 1]);
    } else {
      InitKeeps<D>();
    }
  }

  /** No wake-up is lost: a receiver parked on a non-empty alarm queue has a producer that has not yet called Set. */
  lemma NoLostWakeUp<D>(steps: seq<Step<D>>)
    ensures Receiver in After(steps).event.waits && After(steps).alarms != [] ==> After(steps).pending > 0
  {
    EveryRunKeeps(steps);
  }

  /** The receiver is about to wake up, or awake and about to try again. */
  ghost predicate Woken<D>(s: State<D>) { (s.receiver.Sleeping? && s.released) || s.receiver.Retrying? }

  /** The oldest datagram has been returned, or the receiver's second try is still to come and will return it. */
  ghost predicate Fetches<D>(before: State<D>, now: State<D>)
    requires before.alarms != []
  {
    if now.returned == before.returned
    then Woken(now) && Apply(Apply(now, Complete), SecondTry).returned == before.returned + [before.alarms[0]]
    else before.returned + [before.alarms[0]] <= now.returned
  }

  /** Once that Set took the receiver's completion source, it is not parked again before it has the oldest datagram. */
  lemma {:induction false} PendingSetWakes<D>(steps: seq<Step<D>>, d: D, more: seq<Step<D>>)
    requires Receiver in After(steps).event.waits && After(steps).alarms != []
    ensures Fetches(After(steps), After(steps + [SetPending(d)] + more))
  {
    hide QueuedIffParked, Announced, Fetches, Apply;
    var run := steps + [SetPending(d)] + more;
    assert run != [];
    if more == [] {
      EveryRunKeeps(steps);
      assert run[..|run| - 1] == steps;
      SetTakes(After(steps), d);
    } else {
      PendingSetWakes(steps, d, more[..|more| - 1]);
      assert run[..|run| - 1] == steps + [SetPending(d)] + more[..|more| - 1];
      StillFetches(After(steps), After(run[..|run| - 1]), more[|more| - 1]);
    }
  }

  lemma StillFetches<D>(before: State<D>, now: State<D>, step: Step<D>)
    requires before.alarms != [] && Fetches(before, now)
    ensures Fetches(before, Apply(now, step))
  {}

  lemma SetTakes<D>(s: State<D>, d: D)
    requires QueuedIffParked(s) && Announced(s) && Receiver in s.event.waits && s.alarms != []
    ensures Fetches(s, Apply(s, SetPending(d)))
  {}

  /** The datagrams of the Enqueue steps, that is all datagrams that indications have brought. */
  function Enqueued<D>(steps: seq<Step<D>>): seq<D> {
    if steps == [] then []
    else
      var last := steps[|steps| - 1];
      Enqueued(steps[..|steps| - 1]) + if last.Enqueue? then [last.datagram] else []
  }

  /** Nothing lost, duplicated or reordered: what was returned followed by what is queued is what was enqueued. */
  lemma {:induction false} AlarmsConserved<D>(steps: seq<Step<D>>)
    ensures After(steps).returned + After(steps).alarms == Enqueued(steps)
  {
    if steps != [] {
      var s, step := After(steps[..|steps| - 1]), steps[|steps| - 1];
      AlarmsConserved(steps[..|steps| - 1]);
      if s.alarms != [] {
        assert s.returned + s.alarms == (s.returned + [s.alarms[0]]) + s.alarms[1..];
      }
      if step.Enqueue? {
        assert s.returned + (s.alarms + [step.datagram]) == (s.returned + s.alarms) + [step.datagram];
      }
    }
  }

  /** A call returns without a datagram only from its second try, after a wait, and only while none is queued. */
  lemma ReturnsOnlyBy<D>(s: State<D>, step: Step<D>)
    requires !s.receiver.Idle? && Apply(s, step).receiver.Idle?
    ensures if s.alarms != [] then Apply(s, step).returned == s.returned + [s.alarms[0]]
            else s.receiver.Retrying? && Apply(s, step).returned == s.returned
  {}

  /** A call waits only when its first try found nothing. */
  lemma WaitsOnlyWhen<D>(s: State<D>, step: Step<D>)
    requires !s.receiver.Waiting? && Apply(s, step).receiver.Waiting?
    ensures s.receiver.Trying? && s.alarms == []
  {}

  /** How many datagrams are enqueued and not yet announced by their producers' Set calls. */
  function Unannounced<D>(steps: seq<Step<D>>): nat {
    if steps == [] then 0
    else
      var before, last := Unannounced(steps[..|steps| - 1]), steps[|steps| - 1];
      if last.Enqueue? then before + 1 else if last.SetPending? && before > 0 then before - 1 else before
  }

  lemma {:induction false} PendingCounts<D>(steps: seq<Step<D>>)
    ensures After(steps).pending == Unannounced(steps)
  {
    if steps != [] {
      PendingCounts(steps[..|steps| - 1]);
    }
  }

  /** A call that finds a datagram returns it at once. */
  lemma ReceivesQueued<D>(s: State<D>)
    requires s.receiver.Idle? && s.alarms != []
    ensures var tried := Apply(Apply(Apply(s, StartReceive), ClearSignal), FirstTry);
            tried.receiver.Idle? && tried.returned == s.returned + [s.alarms[0]]
  {}

  /** A call that finds none is parked, and returns the datagram that arrives then. */
  lemma ReceivesLater<D>(steps: seq<Step<D>>, d: D)
    requires After(steps).receiver.Idle? && After(steps).alarms == []
    ensures var parked := Apply(Apply(Apply(Apply(After(steps), StartReceive), ClearSignal), FirstTry), EnterWait(false));
            var woken := Apply(Apply(Apply(parked, Enqueue(d)), SetPending(d)), Complete);
            && parked.receiver.Sleeping? && parked.event.waits == [Receiver]
            && woken.receiver.Retrying? && Apply(woken, SecondTry).returned == After(steps).returned + [d]
  {
    EveryRunKeeps(steps);
    var s := After(steps);
    var parked := s.(event := Event([Receiver], false, None), receiver := Sleeping);
    assert Apply(Apply(Apply(Apply(s, StartReceive), ClearSignal), FirstTry), EnterWait(false)) == parked;
    assert parked.alarms + [d] == [d];
  }

  /** A parked receiver that is cancelled, or woken by the end of alarm handling, tries a second time as well. */
  lemma WokenOtherwise<D>(steps: seq<Step<D>>)
    requires Receiver in After(steps).event.waits
    ensures Apply(Apply(After(steps), CancelWait), Complete).receiver.Retrying?
    ensures Apply(Apply(After(steps), SpuriousSet), Complete).receiver.Retrying?
    ensures After(steps).alarms == [] ==>
              Apply(Apply(Apply(After(steps), CancelWait), Complete), SecondTry).receiver.Idle?
  {
    EveryRunKeeps(steps);
    assert RemoveFirst([Receiver], Receiver) == [];
  }
}
