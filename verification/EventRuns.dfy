/** Everything concurrent callers can do to one event, one lock section or completion at a time. */
module EventRuns {
  import opened Basics
  import opened AutoResetEvent

  /** Where a parked waiter is: queued, taken by a Set or a cancellation that has not completed it yet, or completed. */
  datatype Phase<V> = Queued | Taken(value: Option<V>) | Withdrawn | Completed(value: Option<V>)

  /** Waiters are numbered in the order in which they entered the queue. The last fields record the history. */
  datatype State<V> = State(
    event: Event<nat, V>,
    phases: seq<Phase<V>>,
    handed: seq<(nat, Option<V>)>,  // what Set calls gave to waiters, in the order of the calls
    cancelled: set<nat>,            // waiters removed by their cancellation callback
    sets: nat,                      // Set calls that returned true
    taken: seq<Option<V>>,          // what WaitAsync calls got from stored signals, in the order of the calls
    dropped: nat                    // signals cleared by Reset
  )

  /** Reset runs outside the lock, so its two assignments are two steps. */
  datatype Step<V> =
    | WaitStep(cancelled: bool)
    | SetStep(value: Option<V>)
    | CancelStep(waiter: nat)
    | CompleteStep(waiter: nat)
    | ClearValue
    | ClearSignal

  function Init<V>(): State<V> {
    State(Event([], false, None), [], [], {}, 0, [], 0)
  }

  /** One step; a step that is not possible in the state leaves it as it is. */
  function Apply<V>(s: State<V>, step: Step<V>): State<V> {
    match step
    case WaitStep(cancelled) =>
      var (event, result) := AfterWait(s.event, |s.phases|, cancelled);
      if result.Parked? then s.(event := event, phases := s.phases + [Queued])
      else s.(event := event, taken := s.taken + if s.event.signaled then [result.value] else [])
    case SetStep(value) =>
      var (event, result) := AfterSet(s.event, value);
      if result.Rejected? then s
      else if result.Stored? then s.(event := event, sets := s.sets + 1)
      else if result.waiter < |s.phases| then
        s.(event := event, sets := s.sets + 1, handed := s.handed + [(result.waiter, value)],
           phases := s.phases[result.waiter := Taken(value)])
      else s
    case CancelStep(w) =>
      if w >= |s.phases| then s
      else
        var (event, removed) := AfterCancel(s.event, w);
        if removed then s.(event := event, phases := s.phases[w := Withdrawn], cancelled := s.cancelled + {w}) else s
    case CompleteStep(w) =>
      if w >= |s.phases| then s
      else if s.phases[w].Taken? then s.(phases := s.phases[w := Completed(s.phases[w].value)])
      else if s.phases[w].Withdrawn? then s.(phases := s.phases[w := Completed(None)])
      else s
    case ClearValue => s.(event := s.event.(lastValue := None))
    case ClearSignal =>
      s.(event := s.event.(signaled := false), dropped := s.dropped + if s.event.signaled then 1 else 0)
  }

  function After<V>(steps: seq<Step<V>>): State<V> {
    if steps == [] then Init() else Apply(After(steps[..|steps| - 1]), steps[|steps| - 1])
  }

  /** The numbers below n that are not in the set, in order. */
  function Others(n: nat, out: set<nat>): seq<nat> {
    if n == 0 then [] else if n - 1 in out then Others(n - 1, out) else Others(n - 1, out) + [n - 1]
  }

  function Receivers<V>(handed: seq<(nat, Option<V>)>): seq<nat> {
    if handed == [] then [] else Receivers(handed[..|handed| - 1]) + [handed[|handed| - 1].0]
  }

  // ---- what every run keeps ----

  /** A signal and a queued waiter exclude each other. */
  ghost predicate Exclusive<V>(s: State<V>) { s.event.signaled ==> s.event.waits == [] }

  /** Every successful Set is accounted for. */
  ghost predicate Conserved<V>(s: State<V>) {
    s.sets == |s.handed| + |s.taken| + s.dropped + if s.event.signaled then 1 else 0
  }

  /** Receivers so far, then the queue: exactly the uncancelled waiters in the order in which they came. */
  ghost predicate Fifo<V>(s: State<V>) {
    Receivers(s.handed) + s.event.waits == Others(|s.phases|, s.cancelled)
  }

  /** A waiter's phase tells who removed it: still queued, handed a value, or cancelled. */
  ghost predicate Phased<V>(s: State<V>) {
    && (forall w | 0 <= w < |s.phases| :: s.phases[w] == Queued ==> w in s.event.waits)
    && (forall w <- s.event.waits :: w < |s.phases| && s.phases[w] == Queued)
    && (forall i | 0 <= i < |s.handed| ::
          s.handed[i].0 < |s.phases| &&
          (s.phases[s.handed[i].0] == Taken(s.handed[i].1) || s.phases[s.handed[i].0] == Completed(s.handed[i].1)))
    && (forall w <- s.cancelled :: w < |s.phases| && (s.phases[w] == Withdrawn || s.phases[w] == Completed(None)))
  }

  ghost predicate Inv<V>(s: State<V>) { Exclusive(s) && Conserved(s) && Fifo(s) && Phased(s) }

  lemma {:induction false} OthersContain(n: nat, out: set<nat>)
    ensures forall w :: w in Others(n, out) <==> 0 <= w < n && w !in out
    ensures forall i, j | 0 <= i < j < |Others(n, out)| :: Others(n, out)[i] < Others(n, out)[j]
  {
    if n > 0 {
      OthersContain(n - 1, out);
      var before := Others(n - 1, out);
      forall i | 0 <= i < |before| ensures before[i] < n - 1 {
        assert before[i] in before;
      }
    }
  }

  lemma {:induction false} OthersRemove(n: nat, out: set<nat>, w: nat)
    requires w < n && w !in out
    ensures Others(n, out + {w}) == RemoveFirst<nat>(Others(n, out), w)
  {
    hide RemoveFirst;
    OthersContain(n - 1, out);
    var before: seq<nat> := Others(n - 1, out);
    if w == n - 1 {
      OthersSame(n - 1, out, w);
      RemoveAppended(before, w);
    } else {
      OthersRemove(n - 1, out, w);
      assert w in before;
      RemoveFirstAppends<nat>(before, [n - 1], w);
    }
  }

  lemma RemoveAppended(before: seq<nat>, w: nat)
    requires w !in before
    ensures RemoveFirst<nat>(before + [w], w) == before
  {
    RemoveFirstAppends<nat>(before, [w], w);
    assert RemoveFirst<nat>([w], w) == [];
  }

  lemma {:induction false} OthersSame(n: nat, out: set<nat>, w: nat)
    requires n <= w
    ensures Others(n, out + {w}) == Others(n, out)
  {
    if n > 0 {
      OthersSame(n - 1, out, w);
    }
  }

  lemma {:induction false} ReceiversContain<V>(handed: seq<(nat, Option<V>)>)
    ensures |Receivers(handed)| == |handed|
    ensures forall i | 0 <= i < |handed| :: Receivers(handed)[i] == handed[i].0
  {
    if handed != [] {
      ReceiversContain(handed[..|handed| - 1]);
    }
  }

  // ---- one step keeps it ----

  lemma ReceiversAppend<V>(handed: seq<(nat, Option<V>)>, w: nat, value: Option<V>)
    ensures Receivers(handed + [(w, value)]) == Receivers(handed) + [w]
  {
    assert (handed + [(w, value)])[..|handed|] == handed;
  }

  lemma AscendingApart(a: seq<nat>, b: seq<nat>)
    requires forall i, j | 0 <= i < j < |a + b| :: (a + b)[i] < (a + b)[j]
    ensures Distinct(b)
    ensures forall i, j | 0 <= i < |a| && 0 <= j < |b| :: a[i] != b[j]
  {
    forall i, j | 0 <= i < j < |b| ensures b[i] != b[j] {
      assert (a + b)[|a| + i] < (a + b)[|a| + j];
    }
    forall i, j | 0 <= i < |a| && 0 <= j < |b| ensures a[i] != b[j] {
      assert (a + b)[i] < (a + b)[|a| + j];
    }
  }

  /** The queued waiters differ from each other and from all waiters that were handed a value. */
  lemma QueueApart<V>(s: State<V>)
    requires Fifo(s)
    ensures Distinct(s.event.waits)
    ensures forall i, j | 0 <= i < |s.handed| && 0 <= j < |s.event.waits| :: s.handed[i].0 != s.event.waits[j]
  {
    OthersContain(|s.phases|, s.cancelled);
    ReceiversContain(s.handed);
    AscendingApart(Receivers(s.handed), s.event.waits);
  }

  lemma KeepsWait<V>(s: State<V>, cancelled: bool)
    requires Inv(s)
    ensures Inv(Apply(s, WaitStep(cancelled)))
  {
    var next := Apply(s, WaitStep(cancelled));
    if !s.event.signaled && !cancelled {
      var n := |s.phases|;
      assert n !in s.cancelled;
      assert Others(n + 1, s.cancelled) == Others(n, s.cancelled) + [n];
      assert Receivers(s.handed) + (s.event.waits + [n]) == (Receivers(s.handed) + s.event.waits) + [n];
      assert Phased(next);
    }
  }

  lemma KeepsSet<V>(s: State<V>, value: Option<V>)
    requires Inv(s)
    ensures Inv(Apply(s, SetStep(value)))
  {
    if s.event.waits != [] {
      QueueApart(s);
      assert s.event.waits[0] in s.event.waits;
      SetKeepsFifo(s, value);
      SetKeepsPhased(s, value);
    }
  }

  lemma SetKeepsFifo<V>(s: State<V>, value: Option<V>)
    requires Fifo(s) && s.event.waits != [] && s.event.waits[0] < |s.phases|
    ensures Fifo(Apply(s, SetStep(value)))
  {
    ReceiversAppend(s.handed, s.event.waits[0], value);
    assert s.event.waits == [s.event.waits[0]] + s.event.waits[1..];
  }

  lemma SetKeepsPhased<V>(s: State<V>, value: Option<V>)
    requires Phased(s) && s.event.waits != [] && Distinct(s.event.waits)
    requires forall i, j | 0 <= i < |s.handed| && 0 <= j < |s.event.waits| :: s.handed[i].0 != s.event.waits[j]
    ensures Phased(Apply(s, SetStep(value)))
  {
    var w := s.event.waits[0];
    var next := Apply(s, SetStep(value));
    assert s.event.waits == [w] + s.event.waits[1..];
    assert w in s.event.waits && forall v <- s.event.waits[1..] :: v in s.event.waits && v != w;
    assert forall i | 0 <= i < |s.handed| :: s.handed[i].0 != w;
    assert w !in s.cancelled;
  }

  lemma KeepsCancel<V>(s: State<V>, w: nat)
    requires Inv(s)
    ensures Inv(Apply(s, CancelStep(w)))
  {
    if w in s.event.waits {
      QueueApart(s);
      CancelKeepsFifo(s, w);
      CancelKeepsPhased(s, w);
    }
  }

  lemma CancelKeepsFifo<V>(s: State<V>, w: nat)
    requires Fifo(s) && w in s.event.waits && w < |s.phases| && w !in s.cancelled
    requires forall i, j | 0 <= i < |s.handed| && 0 <= j < |s.event.waits| :: s.handed[i].0 != s.event.waits[j]
    ensures Fifo(Apply(s, CancelStep(w)))
  {
    OthersRemove(|s.phases|, s.cancelled, w);
    RemoveFirstAppends(Receivers(s.handed), s.event.waits, w);
    ReceiversContain(s.handed);
    assert w !in Receivers(s.handed);
  }

  lemma CancelKeepsPhased<V>(s: State<V>, w: nat)
    requires Phased(s) && w in s.event.waits && Distinct(s.event.waits)
    requires forall i, j | 0 <= i < |s.handed| && 0 <= j < |s.event.waits| :: s.handed[i].0 != s.event.waits[j]
    ensures Phased(Apply(s, CancelStep(w)))
  {
    hide Distinct;
    RemovedOnce(s.event.waits, w);
    assert forall i | 0 <= i < |s.handed| :: s.handed[i].0 != w;
  }

  lemma RemovedOnce(waits: seq<nat>, w: nat)
    requires Distinct(waits) && w in waits
    ensures forall v :: v in RemoveFirst(waits, w) <==> v in waits && v != w
  {
    var k := RemoveFirstLaw(waits, w);
    RemovalKeepsDistinct(waits, k);
    var rest := Without(waits, k);
    forall v | v in waits && v != w ensures v in rest {
      var i :| 0 <= i < |waits| && waits[i] == v;
      assert rest[if i < k then i else i - 1] == v;
    }
    forall v | v in rest ensures v in waits && v != w {
      var i :| 0 <= i < |rest| && rest[i] == v;
      assert rest[i] == waits[if i < k then i else i + 1];
    }
  }

  lemma {:induction false} EveryRunKeeps<V>(steps: seq<Step<V>>)
    ensures Inv(After(steps))
  {
    if steps != [] {
      var s, step := After(steps[..|steps| - 1]), steps[|steps| - 1];
      EveryRunKeeps(steps[..|steps| - 1]);
      match step
      case WaitStep(cancelled) => KeepsWait(s, cancelled);
      case SetStep(value) => KeepsSet(s, value);
      case CancelStep(w) => KeepsCancel(s, w);
      case CompleteStep(w) => KeepsComplete(s, w);
      case ClearValue =>
      case ClearSignal =>
    }
  }

  lemma KeepsComplete<V>(s: State<V>, w: nat)
    requires Inv(s)
    ensures Inv(Apply(s, CompleteStep(w)))
  {}

  // ---- what it means ----

  /** Set calls serve the waiters in the order in which these came, each waiter at most once. */
  lemma ServedInOrder<V>(steps: seq<Step<V>>, i: nat, j: nat)
    requires i < j < |After(steps).handed|
    ensures After(steps).handed[i].0 < After(steps).handed[j].0
  {
    EveryRunKeeps(steps);
    var s := After(steps);
    OthersContain(|s.phases|, s.cancelled);
    ReceiversContain(s.handed);
    assert (Receivers(s.handed) + s.event.waits)[i] < (Receivers(s.handed) + s.event.waits)[j];
  }

  /** A completed waiter was removed either by its own cancellation, then it gets the default, or by one Set, then its value. */
  lemma OneCompleter<V>(steps: seq<Step<V>>, w: nat, v: Option<V>)
    requires w < |After(steps).phases| && After(steps).phases[w] == Completed(v)
    ensures (w in After(steps).cancelled) != ((w, v) in After(steps).handed)
    ensures w in After(steps).cancelled ==> v == None
  {
    EveryRunKeeps(steps);
    var s := After(steps);
    OthersContain(|s.phases|, s.cancelled);
    ReceiversContain(s.handed);
    assert w in Receivers(s.handed) + s.event.waits <==> w !in s.cancelled;
    if w !in s.cancelled {
      var i :| 0 <= i < |s.handed| && Receivers(s.handed)[i] == w;
      assert s.handed[i] == (w, v);
    }
  }

  /** Whoever was handed a value is completed with it, and whoever was cancelled with the default. */
  lemma RemovedCompletes<V>(steps: seq<Step<V>>, w: nat)
    ensures var s, next := After(steps), After(steps + [CompleteStep(w)]);
            && (forall v | (w, v) in s.handed :: w < |next.phases| && next.phases[w] == Completed(v))
            && (w in s.cancelled ==> w < |next.phases| && next.phases[w] == Completed(None))
  {
    EveryRunKeeps(steps);
    assert (steps + [CompleteStep(w)])[..|steps|] == steps;
  }

  // ---- what the steps alone determine ----

  /** The event as its users understand it: waiters in the order of their arrival, or one stored value, or neither. */
  datatype Ideal<V> = Ideal(waiters: seq<nat>, stored: Option<Option<V>>, arrivals: nat)

  /** What a step does for its callers. */
  datatype Effect<V> =
    | Nothing
    | Joined                                   // a new waiter is queued
    | Took(value: Option<V>)                   // a WaitAsync returns the stored value
    | Kept                                     // a Set stores its value
    | Gave(waiter: nat, value: Option<V>)      // a Set hands its value to the first waiter
    | Withdrew(waiter: nat)                    // a cancellation removes its waiter
    | Lost                                     // a Reset discards the stored signal

  function Next<V>(e: Ideal<V>, step: Step<V>): (Ideal<V>, Effect<V>) {
    match step
    case WaitStep(cancelled) =>
      if e.stored.Some? then (e.(stored := None), Took(e.stored.value))
      else if cancelled then (e, Nothing)
      else (e.(waiters := e.waiters + [e.arrivals], arrivals := e.arrivals + 1), Joined)
    case SetStep(value) =>
      if e.waiters != [] then (e.(waiters := e.waiters[1..]), Gave(e.waiters[0], value))
      else if e.stored.None? then (e.(stored := Some(value)), Kept)
      else (e, Nothing)
    case CancelStep(w) =>
      if w in e.waiters then (e.(waiters := RemoveFirst(e.waiters, w)), Withdrew(w)) else (e, Nothing)
    case CompleteStep(_) => (e, Nothing)
    case ClearValue => (if e.stored.Some? then e.(stored := Some(None)) else e, Nothing)
    case ClearSignal => (e.(stored := None), if e.stored.Some? then Lost else Nothing)
  }

  /** The event and the effects after the steps. */
  function Run<V>(steps: seq<Step<V>>): (r: (Ideal<V>, seq<Effect<V>>))
    ensures |r.1| == |steps|
  {
    if steps == [] then (Ideal([], None, 0), [])
    else
      var (before, effects) := Run(steps[..|steps| - 1]);
      var (e, effect) := Next(before, steps[|steps| - 1]);
      (e, effects + [effect])
  }

  /** The values handed to waiters. */
  function Given<V>(effects: seq<Effect<V>>): seq<(nat, Option<V>)> {
    if effects == [] then []
    else
      var last := effects[|effects| - 1];
      Given(effects[..|effects| - 1]) + if last.Gave? then [(last.waiter, last.value)] else []
  }

  /** The values returned by a WaitAsync. */
  function Received<V>(effects: seq<Effect<V>>): seq<Option<V>> {
    if effects == [] then []
    else
      var last := effects[|effects| - 1];
      Received(effects[..|effects| - 1]) + if last.Took? then [last.value] else []
  }

  function Removed<V>(effects: seq<Effect<V>>): set<nat> {
    if effects == [] then {}
    else
      var last := effects[|effects| - 1];
      Removed(effects[..|effects| - 1]) + if last.Withdrew? then {last.waiter} else {}
  }

  /** The Set calls that return true. */
  function Accepted<V>(effects: seq<Effect<V>>): nat {
    if effects == [] then 0
    else
      var last := effects[|effects| - 1];
      Accepted(effects[..|effects| - 1]) + if last.Gave? || last.Kept? then 1 else 0
  }

  function Discarded<V>(effects: seq<Effect<V>>): nat {
    if effects == [] then 0 else Discarded(effects[..|effects| - 1]) + if effects[|effects| - 1].Lost? then 1 else 0
  }

  /** The lock sections over two fields and a queue behave like the ideal event, and the history is that of its effects. */
  ghost predicate Behaves<V>(s: State<V>, e: Ideal<V>, effects: seq<Effect<V>>) {
    && s.event.waits == e.waiters && |s.phases| == e.arrivals
    && s.event.signaled == e.stored.Some? && (s.event.signaled ==> s.event.lastValue == e.stored.value)
    && s.handed == Given(effects) && s.taken == Received(effects) && s.cancelled == Removed(effects)
    && s.sets == Accepted(effects) && s.dropped == Discarded(effects)
  }

  lemma Effects<V>(effects: seq<Effect<V>>, effect: Effect<V>)
    ensures Given(effects + [effect]) == Given(effects) + if effect.Gave? then [(effect.waiter, effect.value)] else []
    ensures Received(effects + [effect]) == Received(effects) + if effect.Took? then [effect.value] else []
    ensures Removed(effects + [effect]) == Removed(effects) + if effect.Withdrew? then {effect.waiter} else {}
    ensures Accepted(effects + [effect]) == Accepted(effects) + if effect.Gave? || effect.Kept? then 1 else 0
    ensures Discarded(effects + [effect]) == Discarded(effects) + if effect.Lost? then 1 else 0
  {
    assert (effects + [effect])[..|effects|] == effects;
  }

  lemma NextBehaves<V>(s: State<V>, e: Ideal<V>, effects: seq<Effect<V>>, step: Step<V>)
    requires Behaves(s, e, effects) && forall w <- s.event.waits :: w < |s.phases|
    ensures var (e', effect) := Next(e, step); Behaves(Apply(s, step), e', effects + [effect])
  {
    hide Given, Received, Removed, Accepted, Discarded, RemoveFirst;
    Effects(effects, Next(e, step).1);
    if s.event.waits != [] {
      assert s.event.waits[0] in s.event.waits;
    }
  }

  lemma {:induction false} EveryRunBehaves<V>(steps: seq<Step<V>>)
    ensures Behaves(After(steps), Run(steps).0, Run(steps).1)
  {
    hide Behaves, Next, Apply;
    if steps == [] {
      StartBehaves<V>();
    } else {
      EveryRunBehaves(steps[..|steps| - 1]);
      EveryRunKeeps(steps[..|steps| - 1]);
      var before := After(steps[..|steps| - 1]);
      assert forall w <- before.event.waits :: w < |before.phases|;
      NextBehaves(before, Run(steps[..|steps| - 1]).0, Run(steps[..|steps| - 1]).1, steps[|steps| - 1]);
    }
  }

  lemma StartBehaves<V>()
    ensures Behaves<V>(Init(), Ideal([], None, 0), [])
  {}

  // ---- where a stored value comes from ----

  /** A step i stored the signal, and it has been there ever since. */
  ghost predicate StoredBy<V>(steps: seq<Step<V>>, i: nat) {
    && i < |steps| && steps[i].SetStep? && !After(steps[..i]).event.signaled
    && forall k | i < k <= |steps| :: After(steps[..k]).event.signaled
  }

  /** What is left of the value that step i stored: nothing when it was cleared since. */
  function Remaining<V>(steps: seq<Step<V>>, i: nat): Option<V>
    requires i < |steps| && steps[i].SetStep?
  {
    if exists k | i < k < |steps| :: steps[k].ClearValue? then None else steps[i].value
  }

  lemma {:induction false} SignalFrom<V>(steps: seq<Step<V>>) returns (i: nat)
    requires After(steps).event.signaled
    ensures StoredBy(steps, i) && After(steps).event.lastValue == Remaining(steps, i)
  {
    hide Apply, StoredBy, Remaining;
    var n := |steps| - 1;
    assert steps != [] by { NotSignaledYet<V>(); }
    if After(steps[..n]).event.signaled {
      i := SignalFrom(steps[..n]);
      StillStored(After(steps[..n]), steps[n]);
      assert steps == steps[..n] + [steps[n]] && After(steps[..n]).event.signaled;
      StoredLonger(steps[..n], steps[n], i);
      StoredAt(steps[..n], i);
      RemainsLonger(steps[..n], steps[n], i);
    } else {
      i := n;
      BecomesSignaled(After(steps[..n]), steps[n]);
      StoredNow(steps);
    }
  }

  lemma StoredAt<V>(steps: seq<Step<V>>, i: nat)
    requires StoredBy(steps, i)
    ensures i < |steps| && steps[i].SetStep?
  {}

  lemma NotSignaledYet<V>()
    ensures !After<V>([]).event.signaled
  {}

  lemma StoredNow<V>(steps: seq<Step<V>>)
    requires steps != [] && steps[|steps| - 1].SetStep? && !After(steps[..|steps| - 1]).event.signaled
    requires After(steps).event.signaled
    ensures StoredBy(steps, |steps| - 1) && Remaining(steps, |steps| - 1) == steps[|steps| - 1].value
  {
    hide Apply, After;
    assert steps[..|steps|] == steps;
  }

  lemma StoredLonger<V>(front: seq<Step<V>>, step: Step<V>, i: nat)
    requires StoredBy(front, i) && After(front + [step]).event.signaled
    ensures StoredBy(front + [step], i)
  {
    hide Apply, After;
    var steps := front + [step];
    assert steps[..|steps|] == steps && steps[..i] == front[..i] && steps[i] == front[i];
    forall k | i < k <= |steps| ensures After(steps[..k]).event.signaled {
      if k <= |front| {
        assert steps[..k] == front[..k];
      }
    }
  }

  lemma RemainsLonger<V>(front: seq<Step<V>>, step: Step<V>, i: nat)
    requires i < |front| && front[i].SetStep?
    ensures Remaining(front + [step], i) == if step.ClearValue? then None else Remaining(front, i)
  {
    var steps := front + [step];
    if step.ClearValue? {
      assert steps[|front|].ClearValue?;
    } else if k :| i < k < |front| && front[k].ClearValue? {
      assert steps[k].ClearValue?;
    }
  }

  lemma StillStored<V>(s: State<V>, step: Step<V>)
    requires s.event.signaled && Apply(s, step).event.signaled
    ensures Apply(s, step).event.lastValue == if step.ClearValue? then None else s.event.lastValue
  {}

  lemma BecomesSignaled<V>(s: State<V>, step: Step<V>)
    requires !s.event.signaled && Apply(s, step).event.signaled
    ensures step.SetStep? && Apply(s, step).event.lastValue == step.value
  {}

  /** A WaitAsync that finds a signal returns the value of the Set that stored it, unless it was cleared in between. */
  lemma TakenSignal<V>(steps: seq<Step<V>>, cancelled: bool) returns (i: nat)
    requires After(steps).event.signaled
    ensures StoredBy(steps, i)
    ensures After(steps + [WaitStep(cancelled)]).taken == After(steps).taken + [Remaining(steps, i)]
    ensures !After(steps + [WaitStep(cancelled)]).event.signaled
  {
    hide StoredBy, Remaining;
    i := SignalFrom(steps);
    assert (steps + [WaitStep(cancelled)])[..|steps|] == steps;
  }
}
