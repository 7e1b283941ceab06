/**
 Timers over counters that wrap: lib/KFCBaseLibrary/src/MillisTimer.cpp and lib/KFCBaseLibrary/src/MicrosTimer.cpp.
 Real time is a natural number that never wraps; `millis()` and `micros()` are its last 32 bits. The timers are
 compared with real time.
 */
module Timers {
  const WRAP: nat := 0x1_0000_0000
  const HALF: nat := 0x8000_0000

  type uint32 = x: nat | x < 0x1_0000_0000
  type long = x: int | -0x8000_0000 <= x < 0x8000_0000

  /** What `millis()` and `micros()` return. */
  function Counter(now: nat): uint32 { now % WRAP }

  function Epoch(now: nat): nat { now / WRAP }

  lemma CounterEpoch(now: nat)
    ensures now == Epoch(now) * WRAP + Counter(now)
  {
  }

  /** The last 32 bits, of negative numbers too. */
  function Cut(x: int): uint32 { x % WRAP }

  function AsLong(x: uint32): long { if x < HALF then x else x as int - WRAP }

  lemma CutOfLong(x: uint32)
    ensures Cut(AsLong(x)) == x
  {
  }

  lemma CutSum(a: nat, b: int)
    ensures Cut(a + b) == Cut(a + Cut(b))
  {
  }

  // ---------------------------------------------------------------- when a timer is due

  /** The counter value a timer waits for, not cut. */
  function Deadline(since: nat, delay: uint32): nat { Counter(since) as nat + delay as nat }

  predicate Overflows(since: nat, delay: uint32) {
    Deadline(since, delay) >= WRAP
  }

  /** The stored time; past a wrap it is moved by 0x7fffffff, and so is the counter it is compared with. */
  function TimeFor(since: nat, delay: uint32): uint32 {
    if Overflows(since, delay) then Cut(Deadline(since, delay) - WRAP + 0x7fff_ffff) else Deadline(since, delay)
  }

  /** What `reached` compares. */
  predicate IsDue(since: nat, delay: uint32, now: nat) {
    (if Overflows(since, delay) then Cut(Counter(now) as int + 0x7fff_ffff) else Counter(now)) > TimeFor(since, delay)
  }

  /** The last real time at which polling the timer is as good as comparing real times. */
  function LastPoll(since: nat, delay: uint32): nat {
    (Epoch(since) + 1) * WRAP + if Overflows(since, delay) then HALF else -1
  }

  /** A timer is due exactly while the counter is in a window, which comes again with every wrap. */
  lemma DueInWindow(since: nat, delay: uint32, now: nat)
    requires delay < HALF
    ensures IsDue(since, delay, now) <==>
            if Overflows(since, delay) then Deadline(since, delay) - WRAP < Counter(now) as int <= HALF
            else Deadline(since, delay) < Counter(now)
  {
  }

  lemma Elapsed(since: nat, now: nat)
    ensures now as int - since as int ==
            (Epoch(now) as int - Epoch(since) as int) * WRAP + Counter(now) as int - Counter(since) as int
  {
    CounterEpoch(since);
    CounterEpoch(now);
  }

  /** Up to the last poll a timer is due exactly when more than the delay has passed. */
  lemma DueInTime(since: nat, delay: uint32, now: nat)
    requires delay < HALF && since <= now <= LastPoll(since, delay)
    ensures IsDue(since, delay, now) <==> now - since > delay
  {
    DueInWindow(since, delay, now);
    Elapsed(since, now);
    CounterEpoch(now);
    CounterEpoch(since);
  }

  /** No timer is ever due too early, at whatever real time it is polled. */
  lemma NeverEarly(since: nat, delay: uint32, now: nat)
    requires delay < HALF && since <= now && IsDue(since, delay, now)
    ensures now - since > delay
  {
    DueInWindow(since, delay, now);
    Elapsed(since, now);
    CounterEpoch(now);
    CounterEpoch(since);
  }

  /** Right behind the last poll the timer is not due although its time is up. */
  lemma MissedBehindLastPoll(since: nat, delay: uint32)
    requires delay < HALF
    ensures var now := LastPoll(since, delay) + 1; now - since > delay && !IsDue(since, delay, now)
  {
    var now := LastPoll(since, delay) + 1;
    DueInWindow(since, delay, now);
    CounterEpoch(now);
    CounterEpoch(since);
  }

  lemma LeftInTime(since: nat, delay: uint32, now: nat)
    requires delay < HALF && since <= now <= LastPoll(since, delay)
    ensures var counter := if Overflows(since, delay) then Cut(Counter(now) as int + 0x7fff_ffff) else Counter(now);
            (Overflows(since, delay) || now - since <= delay ==>
               AsLong(Cut(TimeFor(since, delay) as int - counter as int)) == delay as int - (now - since))
  {
    Elapsed(since, now);
    CounterEpoch(now);
    CounterEpoch(since);
  }

  /** A timer that waits for the last counter value is never due, and no other. */
  lemma NeverDueExactlyAtTheLastValue(since: nat, delay: uint32)
    requires delay < HALF
    ensures Deadline(since, delay) == WRAP - 1 <==> forall now: nat | now >= since :: !IsDue(since, delay, now)
  {
    if Deadline(since, delay) != WRAP - 1 {
      var now := LastPoll(since, delay);
      CounterEpoch(since);
      CounterEpoch(now);
      DueInWindow(since, delay, now);
      assert now >= since && IsDue(since, delay, now);
    } else {
      forall now: nat | now >= since ensures !IsDue(since, delay, now) {
        DueInWindow(since, delay, now);
      }
    }
  }

  // ---------------------------------------------------------------- MillisTimer

  class MillisTimer {
    var time: uint32
    var delay: uint32
    var active: bool
    var overflow: bool
    /** The real time of the last call of `set`. */
    ghost var since: nat

    /** The fields are as `set` leaves them. */
    ghost predicate Valid()
      reads this
    {
      active ==> time == TimeFor(since, delay) && overflow == Overflows(since, delay)
    }

    /** Not armed. */
    constructor ()
      ensures Valid() && !active
    {
      active := false;
    }

    /** Arms the timer at real time `now`. */
    method Set(now: nat, delay: long)
      modifies this
      ensures Valid() && active && this.delay == Cut(delay) && since == now
    {
      var millis := Counter(now);
      time := Cut(millis + delay);
      overflow := millis > time;
      if overflow {
        time := Cut(time as int + 0x7fff_ffff);
      }
      active := true;
      this.delay := Cut(delay);
      since := now;
      CutSum(millis, delay);
    }

    /** Whether the time is up; if so the timer is armed again, or no longer active. */
    method Reached(now: nat, reset: bool) returns (result: bool)
      requires Valid() && since <= now
      modifies this
      ensures Valid() && delay == old(delay)
      ensures result == (old(active) && IsDue(old(since), old(delay), now))
      ensures active == (old(active) && (result ==> reset))
      ensures since == if result && reset then now else old(since)
    {
      if !active {
        return false;
      }
      if overflow {
        var millis := Cut(Counter(now) as int + 0x7fff_ffff);
        result := millis > time;
      } else {
        result := Counter(now) > time;
      }
      if result {
        if reset {
          CutOfLong(delay);
          Set(now, AsLong(delay));
        } else {
          active := false;
        }
      }
    }

    /** Milliseconds left, as a signed number; -1 when not active. */
    method Get(now: nat) returns (left: long)
      requires Valid() && since <= now
      ensures !active ==> left == -1
      ensures active && delay < HALF && now <= LastPoll(since, delay) ==>
                left == if overflow || now - since <= delay then delay as int - (now - since) else 0
    {
      if !active {
        return -1;
      }
      if delay < HALF && now <= LastPoll(since, delay) {
        LeftInTime(since, delay, now);
        DueInTime(since, delay, now);
      }
      if overflow {
        left := AsLong(Cut(time as int - Cut(Counter(now) as int + 0x7fff_ffff) as int));
      } else {
        if Counter(now) > time {
          left := 0;
        } else {
          left := AsLong(Cut(time as int - Counter(now) as int));
        }
      }
    }

    method Restart(now: nat)
      modifies this
      ensures Valid() && active && delay == old(delay) && since == now
    {
      CutOfLong(delay);
      Set(now, AsLong(delay));
    }

    method Disable()
      modifies `active
      ensures !active
    {
      active := false;
    }
  }

  // ---------------------------------------------------------------- runs

  function Before(start: nat, times: seq<nat>, i: nat): nat
    requires i <= |times|
  {
    if i == 0 then start else times[i - 1]
  }

  /** Each of the times is at least `gap` after the one before it, the first one after `start`. */
  predicate Spaced(start: nat, times: seq<nat>, gap: nat) {
    forall i :: 0 <= i < |times| ==> Before(start, times, i) + gap <= times[i]
  }

  lemma SpacedNext(start: nat, times: seq<nat>, gap: nat, t: nat)
    requires Spaced(start, times, gap) && Before(start, times, |times|) + gap <= t
    ensures Spaced(start, times + [t], gap)
  {
    forall i | 0 <= i < |times| + 1 ensures Before(start, times + [t], i) + gap <= (times + [t])[i] {
      assert Before(start, times + [t], i) == Before(start, times, i);
    }
  }

  /** The polls at which a periodic timer is due. */
  function DueAt(start: nat, delay: uint32, polls: seq<nat>): seq<nat> {
    if |polls| == 0 then []
    else
      var due, poll := DueAt(start, delay, polls[..|polls| - 1]), polls[|polls| - 1];
      if IsDue(Before(start, due, |due|), delay, poll) then due + [poll] else due
  }

  /** A periodic timer, polled at any real times, never fires twice within its delay. */
  method PollPeriodic(start: nat, delay: uint32, polls: seq<nat>) returns (fired: seq<nat>)
    requires delay < HALF && Spaced(start, polls, 0)
    ensures Spaced(start, fired, delay as nat + 1)
    ensures fired == DueAt(start, delay, polls)
  {
    var timer := new MillisTimer();
    timer.Set(start, delay as int);
    fired := [];
    for k := 0 to |polls|
      invariant fresh(timer) && timer.Valid() && timer.active && timer.delay == delay
      invariant timer.since == Before(start, fired, |fired|) <= Before(start, polls, k)
      invariant Spaced(start, fired, delay as nat + 1) && fired == DueAt(start, delay, polls[..k])
    {
      assert Before(start, polls, k) + 0 <= polls[k] && polls[..k + 1][..k] == polls[..k];
      ghost var since := timer.since;
      var reached := timer.Reached(polls[k], true);
      if reached {
        NeverEarly(since, delay, polls[k]);
        SpacedNext(start, fired, delay as nat + 1, polls[k]);
        fired := fired + [polls[k]];
      }
    }
    assert polls[..|polls|] == polls;
  }

  // ---------------------------------------------------------------- MicrosTimer

  /** `get_time_diff`: the distance modulo 2^32. */
  function GetTimeDiff(start: uint32, end: uint32): uint32 {
    if end >= start then end - start else Cut(end as int + (WRAP - 1 - start) + 1)
  }

  /** The difference of two counters is the real distance exactly when that is below 2^32. */
  lemma TimeDiffIsElapsed(since: nat, now: nat)
    requires since <= now
    ensures GetTimeDiff(Counter(since), Counter(now)) == (now - since) % WRAP
    ensures GetTimeDiff(Counter(since), Counter(now)) == now - since <==> now - since < WRAP
  {
    Elapsed(since, now);
  }

  class MicrosTimer {
    var valid: bool
    var start: uint32
    ghost var since: nat

    ghost predicate Valid()
      reads this
    {
      valid ==> start == Counter(since)
    }

    constructor ()
      ensures Valid() && !valid
    {
      valid := false;
    }

    method Start(now: nat)
      modifies this
      ensures Valid() && valid && since == now
    {
      start, valid, since := Counter(now), true, now;
    }

    /** The time passed since the start; 0 from the first time on that it is found to be too long ago. */
    method GetTime(now: nat) returns (time: uint32)
      requires Valid() && since <= now
      modifies `valid
      ensures Valid()
      ensures valid == (old(valid) && !OutOfSync(since, now))
      ensures time == if valid then (now - since) % WRAP else 0
    {
      if !valid {
        return 0;
      }
      TimeDiffIsElapsed(since, now);
      time := Counter(now);
      if time >= start {
        time := time - start;
      } else {
        time := Cut(time as int + (WRAP - 1 - start) + 1);
        if time >= 0x7fff_ffff {
          valid := false;
          return 0;
        }
      }
    }
  }

  /** The counter has passed a wrap and half its range. */
  predicate OutOfSync(since: nat, now: nat)
    requires since <= now
  {
    Counter(now) < Counter(since) && (now - since) % WRAP >= 0x7fff_ffff
  }

  /** Up to 2^31 - 2 microseconds the timer is exact; up to the next wrap of the counter it is too. */
  lemma ExactWithin(since: nat, now: nat)
    requires since <= now < since + WRAP
    ensures !OutOfSync(since, now) <==> now - since < 0x7fff_ffff || Epoch(now) == Epoch(since)
  {
    Elapsed(since, now);
    CounterEpoch(now);
    CounterEpoch(since);
  }
}
