/** The asynchronous auto-reset event: its lock sections, and what every interleaving of them keeps. */
module AutoResetEvent {
  import opened Basics

  // ---- the queue of waiters ----

  /** The sequence without the first occurrence of v. */
  function RemoveFirst<T(==)>(s: seq<T>, v: T): seq<T> {
    if s == [] then []
    else if s[0] == v then s[1..]
    else [s[0]] + RemoveFirst(s[1..], v)
  }

  lemma {:induction false} RemoveFirstAppends<T>(s: seq<T>, t: seq<T>, v: T)
    ensures RemoveFirst(s + t, v) == if v in s then RemoveFirst(s, v) + t else s + RemoveFirst(t, v)
  {
    if s == [] {
      assert s + t == t;
    } else {
      assert (s + t)[1..] == s[1..] + t;
      RemoveFirstAppends(s[1..], t, v);
    }
  }

  /** Only the first occurrence is removed; the others keep their order and number. */
  lemma {:induction false} RemoveFirstLaw<T>(s: seq<T>, v: T) returns (k: nat)
    ensures if v in s then k < |s| && s[k] == v && v !in s[..k] && RemoveFirst(s, v) == Without(s, k)
            else k == |s| && RemoveFirst(s, v) == s
  {
    if s == [] {
      k := 0;
    } else if s[0] == v {
      k := 0;
      assert Without(s, 0) == s[1..];
    } else {
      var i := RemoveFirstLaw(s[1..], v);
      k := i + 1;
      if v in s[1..] {
        assert s[..k] == [s[0]] + s[1..][..i];
        assert Without(s, k) == [s[0]] + Without(s[1..], i);
      }
    }
  }

  class Queue<T> {
    var contents: seq<T>

    constructor ()
      ensures contents == []
    {
      contents := [];
    }

    method Enqueue(x: T)
      modifies this
      ensures contents == old(contents) + [x]
    {
      contents := contents + [x];
    }

    method Dequeue() returns (x: T)
      requires contents != []
      modifies this
      ensures x == old(contents)[0] && contents == old(contents)[1..]
    {
      x := contents[0];
      contents := contents[1..];
    }
  }

  /** Dequeuing entry d and enqueuing it again unless it is the first one equal to v. */
  lemma RotateStep<T>(s: seq<T>, d: nat, v: T)
    requires d < |s|
    ensures (s[d..] + RemoveFirst(s[..d], v))[0] == s[d]
    ensures v in s[..d + 1] <==> v in s[..d] || s[d] == v
    ensures var rest := (s[d..] + RemoveFirst(s[..d], v))[1..];
            s[d + 1..] + RemoveFirst(s[..d + 1], v) == if v !in s[..d] && s[d] == v then rest else rest + [s[d]]
  {
    assert s[..d + 1] == s[..d] + [s[d]];
    RemoveFirstAppends(s[..d], [s[d]], v);
    assert RemoveFirst([s[d]], v) == if s[d] == v then [] else [s[d]];
    if v !in s[..d] {
      var _ := RemoveFirstLaw(s[..d], v);
    }
  }

  lemma NotRotatedYet<T>(s: seq<T>, v: T)
    ensures s[0..] + RemoveFirst(s[..0], v) == s
  {}

  /** Rotates the queue once around, leaving out the first entry equal to the value. */
  method RemoveMidQueue<T(==)>(queue: Queue<T>, valueToRemove: T) returns (found: bool)
    modifies queue
    ensures found == (valueToRemove in old(queue.contents))
    ensures queue.contents == RemoveFirst(old(queue.contents), valueToRemove)
  {
    hide RemoveFirst;
    ghost var s := queue.contents;
    NotRotatedYet(s, valueToRemove);
    var originalCount := |queue.contents|;
    var dequeueCounter := 0;
    found := false;
    while dequeueCounter < originalCount
      invariant 0 <= dequeueCounter <= originalCount == |s|
      invariant found == (valueToRemove in s[..dequeueCounter])
      invariant queue.contents == s[dequeueCounter..] + RemoveFirst(s[..dequeueCounter], valueToRemove)
    {
      RotateStep(s, dequeueCounter, valueToRemove);
      dequeueCounter := dequeueCounter + 1;
      var dequeued := queue.Dequeue();
      if !found && dequeued == valueToRemove {
        found := true;
      } else {
        queue.Enqueue(dequeued);
      }
    }
    assert s[..originalCount] == s;
  }

  // ---- the lock sections as functions ----

  /** The event's fields; W stands for a waiter's completion source, the value None for `default`. */
  datatype Event<W, V> = Event(waits: seq<W>, signaled: bool, lastValue: Option<V>)

  datatype WaitResult<V> = Now(value: Option<V>) | Parked

  datatype SetResult<W> = Handed(waiter: W) | Stored | Rejected

  function AfterWait<W, V>(e: Event<W, V>, w: W, cancelled: bool): (Event<W, V>, WaitResult<V>) {
    if e.signaled then (Event(e.waits, false, None), Now(e.lastValue))
    else if cancelled then (e, Now(None))
    else (e.(waits := e.waits + [w]), Parked)
  }

  function AfterSet<W, V>(e: Event<W, V>, value: Option<V>): (Event<W, V>, SetResult<W>) {
    if e.waits != [] then (e.(waits := e.waits[1..]), Handed(e.waits[0]))
    else if !e.signaled then (Event(e.waits, true, value), Stored)
    else (e, Rejected)
  }

  /** The callback of a cancelled token. */
  function AfterCancel<W(==), V>(e: Event<W, V>, w: W): (Event<W, V>, bool) {
    (e.(waits := RemoveFirst(e.waits, w)), w in e.waits)
  }

  // ---- the class ----

  class TaskCompletionSource<V> {
    var completed: bool
    var value: Option<V>

    constructor ()
      ensures !completed
    {
      completed, value := false, None;
    }

    /** The first result wins. */
    method TrySetResult(result: Option<V>) returns (ok: bool)
      modifies this
      ensures ok == !old(completed) && completed
      ensures value == if ok then result else old(value)
    {
      ok := !completed;
      if ok {
        completed, value := true, result;
      }
    }
  }

  class AsyncAutoResetEvent<V> {
    const waits: Queue<TaskCompletionSource<V>>
    var signaled: bool
    var lastValue: Option<V>

    ghost function View(): Event<TaskCompletionSource<V>, V>
      reads this, waits
    {
      Event(waits.contents, signaled, lastValue)
    }

    ghost function Waiters(): set<TaskCompletionSource<V>>
      reads waits
    {
      set w <- waits.contents
    }

    constructor ()
      ensures View() == Event([], false, None) && fresh(waits)
    {
      waits := new Queue();
      signaled, lastValue := false, None;
    }

    /** The lock section of WaitAsync; a parked caller waits for the returned completion source. */
    method WaitAsync(isCancellationRequested: bool) returns (result: WaitResult<V>, tcs: TaskCompletionSource<V>)
      modifies this, waits
      ensures fresh(tcs) && !tcs.completed
      ensures (View(), result) == AfterWait(old(View()), tcs, isCancellationRequested)
      ensures old(signaled) ==> result == Now(old(lastValue)) && View() == Event(old(waits.contents), false, None)
      ensures !old(signaled) && isCancellationRequested ==> result == Now(None) && View() == old(View())
      ensures !old(signaled) && !isCancellationRequested ==>
                result == Parked && View() == Event(old(waits.contents) + [tcs], false, old(lastValue))
    {
      tcs := new TaskCompletionSource();
      if signaled {
        result := Now(lastValue);
        lastValue := None;
        signaled := false;
      } else if isCancellationRequested {
        result := Now(None);
      } else {
        waits.Enqueue(tcs);
        result := Parked;
      }
    }

    /** The callback registered for the token of a parked waiter. */
    method OnCancelled(tcs: TaskCompletionSource<V>)
      modifies waits, tcs
      ensures (View(), tcs in old(View()).waits) == AfterCancel(old(View()), tcs)
      ensures signaled == old(signaled) && lastValue == old(lastValue)
      ensures tcs in old(View()).waits && !old(tcs.completed) ==> tcs.completed && tcs.value == None
      ensures tcs !in old(View()).waits ==> tcs.completed == old(tcs.completed) && tcs.value == old(tcs.value)
    {
      var removed := RemoveMidQueue(waits, tcs);
      if removed {
        var _ := tcs.TrySetResult(None);
      }
    }

    method Reset()
      modifies this
      ensures View() == Event(old(View()).waits, false, None)
    {
      lastValue := None;
      signaled := false;
    }

    method Set(value: Option<V>) returns (ok: bool)
      modifies this, waits, Waiters()
      ensures View() == AfterSet(old(View()), value).0
      ensures ok == !AfterSet(old(View()), value).1.Rejected?
      ensures ok <==> old(waits.contents) != [] || !old(signaled)
      ensures old(waits.contents) != [] ==> View() == Event(old(waits.contents)[1..], old(signaled), old(lastValue))
      ensures old(waits.contents) == [] && ok ==> View() == Event([], true, value)
      ensures !ok ==> View() == old(View())
      ensures old(View()).waits != [] ==>
                var released := old(View()).waits[0];
                released.completed && released.value == if old(View().waits[0].completed) then old(View().waits[0].value) else value
    {
      var toRelease: TaskCompletionSource?<V> := null;
      if |waits.contents| > 0 {
        toRelease := waits.Dequeue();
      } else if !signaled {
        signaled := true;
        lastValue := value;
      } else {
        return false;
      }
      if toRelease != null {
        var _ := toRelease.TrySetResult(value);
      }
      ok := true;
    }
  }
}
