/** One alarm subscription: a concurrent queue and an auto-reset event used together by many producers and one receiver. */
module Alarms {
  import opened Basics
  import opened AutoResetEvent

  /** The single waiter of a subscription's event is its receiver. */
  datatype Waiter = Receiver

  /** The subscription object's two halves of AddDatagram and the dequeue of TryGetDatagram. */
  class AlarmSubscription<D> {
    const alarms: Queue<D>
    const event: AsyncAutoResetEvent<D>

    ghost predicate Valid() { alarms as object != event.waits }

    constructor ()
      ensures Valid() && alarms.contents == [] && event.View() == Event([], false, None)
      ensures fresh(alarms) && fresh(event) && fresh(event.waits)
    {
      alarms := new Queue();
      event := new AsyncAutoResetEvent();
    }

    method TryGetDatagram() returns (datagram: Option<D>)
      modifies alarms
      ensures if old(alarms.contents) == [] then datagram == None && alarms.contents == []
              else datagram == Some(old(alarms.contents)[0]) && alarms.contents == old(alarms.contents)[1..]
    {
      if |alarms.contents| == 0 {
        return None;
      }
      var first := alarms.Dequeue();
      datagram := Some(first);
    }

    method AddDatagram(datagram: D)
      requires Valid()
      modifies alarms, event, event.waits, event.Waiters()
      ensures alarms.contents == old(alarms.contents) + [datagram]
      ensures event.View() == AfterSet(old(event.View()), Some(datagram)).0
    {
      alarms.Enqueue(datagram);
      var _ := event.Set(Some(datagram));
    }
  }

  /** Where the receiver is in ReceiveAlarmUpdatesAsync. */
  datatype Receiving =
    | Idle
    | Resetting          // the value is cleared, the signal not yet
    | Trying             // about to make the first TryGetDatagram
    | Waiting            // the first try found nothing, about to enter WaitAsync
    | Sleeping           // its completion source was enqueued and is not completed yet
    | Retrying           // awake, about to make the second TryGetDatagram

  /** The shared state; `pending` counts producers between their enqueue and their Set, `returned` is history. */
  datatype State<D> = State(
    event: Event<Waiter, D>,
    alarms: seq<D>,
    pending: nat,
    receiver: Receiving,
    released: bool,      // a Set or a cancellation took the receiver's completion source and has not completed it yet
    returned: seq<D>
  )

  datatype Step<D> =
    | Enqueue(datagram: D)
    | SetPending(datagram: D)      // the Set of one of the producers that have enqueued
    | SpuriousSet                  // Set(null) of CancelAlarmHandlingAsync
    | StartReceive
    | ClearSignal
    | FirstTry
    | EnterWait(cancelled: bool)
    | CancelWait
    | Complete                     // TrySetResult by whoever took the completion source
    | SecondTry

  function Init<D>(): State<D> {
    State(Event([], false, None), [], 0, Idle, false, [])
  }

  /** The lock section of a Set, whoever calls it. */
  function Signal<D>(s: State<D>, value: Option<D>): State<D> {
    var (event, result) := AfterSet(s.event, value);
    s.(event := event, released := s.released || result.Handed?)
  }

  /** Takes the next datagram, if any, and returns from the call, else goes on as given. */
  function Try<D>(s: State<D>, otherwise: Receiving): State<D> {
    if s.alarms == [] then s.(receiver := otherwise)
    else s.(alarms := s.alarms[1..], returned := s.returned + [s.alarms[0]], receiver := Idle)
  }

  /** One step; a step that is not possible in the state leaves it as it is. */
  function Apply<D>(s: State<D>, step: Step<D>): State<D> {
    match step
    case Enqueue(d) => s.(alarms := s.alarms + [d], pending := s.pending + 1)
    case SetPending(d) => if s.pending == 0 then s else Signal(s, Some(d)).(pending := s.pending - 1)
    case SpuriousSet => Signal(s, None)
    case StartReceive =>
      if s.receiver.Idle? then s.(event := s.event.(lastValue := None), receiver := Resetting) else s
    case ClearSignal =>
      if s.receiver.Resetting? then s.(event := s.event.(signaled := false), receiver := Trying) else s
    case FirstTry => if s.receiver.Trying? then Try(s, Waiting) else s
    case EnterWait(cancelled) =>
      if !s.receiver.Waiting? then s
      else
        var (event, result) := AfterWait(s.event, Receiver, cancelled);
        s.(event := event, receiver := if result.Parked? then Sleeping else Retrying)
    case CancelWait =>
      if !s.receiver.Sleeping? then s
      else
        var (event, removed) := AfterCancel(s.event, Receiver);
        s.(event := event, released := s.released || removed)
    case Complete => if s.receiver.Sleeping? && s.released then s.(receiver := Retrying, released := false) else s
    case SecondTry => if s.receiver.Retrying? then Try(s, Idle) else s
  }

  function After<D>(steps: seq<Step<D>>): State<D> {
    if steps == [] then Init() else Apply(After(steps[..|steps| - 1]), steps[|steps| - 1])
  }

  /** The receiver's completion source is queued in the event exactly while it is parked and not taken. */
  ghost predicate QueuedIffParked<D>(s: State<D>) {
    && (s.event.waits == if s.receiver.Sleeping? && !s.released then [Receiver] else [])
    && (s.released ==> s.receiver.Sleeping?)
    && (s.event.signaled ==> s.event.waits == [])
  }

  /** A datagram that the receiver is about to sleep on is announced by a signal or by a producer that will still set it. */
  ghost predicate Announced<D>(s: State<D>) {
    && (s.receiver.Waiting? && s.alarms != [] ==> s.event.signaled || s.pending > 0)
    && (s.receiver.Sleeping? && !s.released && s.alarms != [] ==> s.pending > 0)
  }

  lemma InitKeeps<D>()
    ensures QueuedIffParked(Init<D>()) && Announced(Init<D>())
  {}

  lemma StepKeeps<D>(s: State<D>, step: Step<D>)
    requires QueuedIffParked(s) && Announced(s)
    ensures QueuedIffParked(Apply(s, step)) && Announced(Apply(s, step))
  {
    assert RemoveFirst([Receiver], Receiver) == [];
  }
}
