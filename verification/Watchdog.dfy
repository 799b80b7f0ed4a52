/** The idle counters of the event loops: timer ticks counted since the last notification
    of the device being watched. */
module Watchdog {

  /** One message from the kernel, with the interrupts it reports: what the device's
      handler reads from the controller, if the device is among them, and whether the timer is. */
  datatype Option<+T> = None | Some(value: T)
  datatype Notification<+R> = Notification(device: Option<R>, timer: bool)

  /** What the device's handler reads in the course of the messages. */
  function DeviceReads<R>(ns: seq<Notification<R>>): seq<R> {
    if ns == [] then []
    else DeviceReads(ns[..|ns| - 1]) + if ns[|ns| - 1].device.Some? then [ns[|ns| - 1].device.value] else []
  }

  lemma DeviceReadsNext<R>(ns: seq<Notification<R>>, n: nat)
    requires n < |ns|
    ensures ns[n].device.Some? ==> DeviceReads(ns[..n + 1]) == DeviceReads(ns[..n]) + [ns[n].device.value]
    ensures ns[n].device.None? ==> DeviceReads(ns[..n + 1]) == DeviceReads(ns[..n])
  {
    assert ns[..n + 1][..n] == ns[..n];
  }

  const TICKS_PER_SECOND: nat := 60

  /** The loop's counter after the first `i` messages: a tick in the message that resets
      the counter is counted. */
  function Idle<R>(ns: seq<Notification<R>>, i: nat): nat
    requires i <= |ns|
  {
    if i == 0 then 0
    else (if ns[i - 1].device.Some? then 0 else Idle(ns, i - 1)) + if ns[i - 1].timer then 1 else 0
  }

  /** Timer ticks in messages `j` to `i`. */
  function Ticks<R>(ns: seq<Notification<R>>, j: nat, i: nat): nat
    requires j <= i <= |ns|
  {
    if i == j then 0 else Ticks(ns, j, i - 1) + if ns[i - 1].timer then 1 else 0
  }

  /** From message `j` on, at least `limit` ticks and, after message `j` itself, no word
      from the device. */
  ghost predicate QuietSince<R>(ns: seq<Notification<R>>, j: nat, i: nat, limit: nat)
    requires j <= i <= |ns|
  {
    (forall t :: j < t < i ==> ns[t].device.None?) && Ticks(ns, j, i) >= limit
  }

  ghost predicate Quiet<R>(ns: seq<Notification<R>>, i: nat, limit: nat)
    requires i <= |ns|
  {
    exists j :: 0 <= j <= i && QuietSince(ns, j, i, limit)
  }

  lemma {:induction false} IdleFrom<R>(ns: seq<Notification<R>>, i: nat) returns (j: nat)
    requires i <= |ns|
    ensures j <= i && (forall t :: j < t < i ==> ns[t].device.None?) && Idle(ns, i) == Ticks(ns, j, i)
  {
    if i == 0 {
      j := 0;
    } else if ns[i - 1].device.Some? {
      j := i - 1;
      assert Ticks(ns, j, j) == 0;
    } else {
      j := IdleFrom(ns, i - 1);
    }
  }

  lemma {:induction false} IdleAtLeast<R>(ns: seq<Notification<R>>, j: nat, i: nat)
    requires j <= i <= |ns| && forall t :: j < t < i ==> ns[t].device.None?
    ensures Idle(ns, i) >= Ticks(ns, j, i)
    decreases i
  {
    if j < i {
      if ns[i - 1].device.None? {
        IdleAtLeast(ns, j, i - 1);
      } else {
        assert i - 1 == j;
        assert Ticks(ns, j, j) == 0;
      }
    }
  }

  /** The counter has reached a limit exactly when the device has been quiet that long. */
  lemma IdleMeansQuiet<R>(ns: seq<Notification<R>>, i: nat, limit: nat)
    requires i <= |ns|
    ensures Idle(ns, i) >= limit <==> Quiet(ns, i, limit)
  {
    var j := IdleFrom(ns, i);
    if Idle(ns, i) >= limit {
      assert QuietSince(ns, j, i, limit);
    }
    forall k | 0 <= k <= i && QuietSince(ns, k, i, limit)
      ensures Idle(ns, i) >= limit
    {
      IdleAtLeast(ns, k, i);
    }
  }

  /** The loop condition compares whole seconds. */
  lemma WholeSeconds(counter: nat, n: nat)
    ensures counter / TICKS_PER_SECOND < n <==> counter < TICKS_PER_SECOND * n
  {
  }

  /** The loop condition fails exactly when the device has been quiet for so many seconds. */
  lemma QuietSeconds<R>(ns: seq<Notification<R>>, i: nat, seconds: nat, limit: nat)
    requires i <= |ns| && limit == TICKS_PER_SECOND * seconds
    ensures Idle(ns, i) / TICKS_PER_SECOND < seconds <==> !Quiet(ns, i, limit)
  {
    WholeSeconds(Idle(ns, i), seconds);
    IdleMeansQuiet(ns, i, limit);
  }
}
