/**
 Handing serial data to the registered handlers: `writeToTransmit` and `writeToReceive` of src/serial_handler.cpp. A
 handler may call either of them again; what it calls is a parameter, and may depend on all that has happened. One flag
 for each direction keeps that from going on forever: handlers are called at most two levels deep, and the flags are
 always given back.
 */
module SerialHandlers {
  import opened Util

  datatype Direction = Transmit | Receive

  /** A call of one of the two functions; `except` is the handler that is left out. */
  datatype Call = Call(direction: Direction, kind: bv8, except: Option<nat>, buffer: string)

  /** A registered handler: its function, and the types of data it is for. */
  datatype Callback = Callback(callback: nat, flags: bv8)

  predicate HasType(c: Callback, kind: bv8) { c.flags & kind != 0 }

  /** A handler is called: with what, and in how many calls of the two functions. */
  datatype Invocation = Invocation(depth: nat, direction: Direction, callback: nat, kind: bv8, buffer: string)

  /**
   What handlers do: how many steps one takes when it is called, and for each step, what it calls if anything. Handlers
   have a state of their own: both depend on all invocations up to this one, and a step on those its former steps led
   to.
   */
  datatype Behaviour = Behaviour(
    steps: seq<Invocation> -> nat,
    call: (seq<Invocation>, nat, seq<Invocation>) -> Option<Call>)

  datatype Locks = Locks(transmit: bool, receive: bool)

  predicate IsLocked(locks: Locks, d: Direction) {
    match d case Transmit => locks.transmit case Receive => locks.receive
  }

  function WithLock(locks: Locks, d: Direction, locked: bool): Locks {
    match d case Transmit => locks.(transmit := locked) case Receive => locks.(receive := locked)
  }

  function Free(locks: Locks): nat {
    (if locks.transmit then 0 else 1) + if locks.receive then 0 else 1
  }

  function Reversed<T>(s: seq<T>): (r: seq<T>)
    ensures |r| == |s|
  {
    if |s| == 0 then [] else Reversed(s[1..]) + [s[0]]
  }

  /** Received data goes to the handlers registered last first. */
  function Order(handlers: seq<Callback>, d: Direction): seq<Callback> {
    if d.Transmit? then handlers else Reversed(handlers)
  }

  predicate IsFor(handler: Callback, c: Call) {
    HasType(handler, c.kind) && Some(handler.callback) != c.except
  }

  /** All invocations after a call, in their order, when `past` are those before it. */
  function Invocations(handlers: seq<Callback>, act: Behaviour, locks: Locks, c: Call, depth: nat,
                       past: seq<Invocation>): seq<Invocation>
    decreases Free(locks), 0, 0
  {
    if IsLocked(locks, c.direction) || (c.direction.Receive? && |c.buffer| == 0) then past
    else InvokeAll(Order(handlers, c.direction), handlers, act, WithLock(locks, c.direction, true), c, depth + 1, past)
  }

  function InvokeAll(hs: seq<Callback>, handlers: seq<Callback>, act: Behaviour, locks: Locks, c: Call, depth: nat,
                     past: seq<Invocation>): seq<Invocation>
    decreases Free(locks), 2, |hs|
  {
    if |hs| == 0 then past
    else InvokeAll(hs[1..], handlers, act, locks, c, depth, Invoke(hs[0], handlers, act, locks, c, depth, past))
  }

  function Invoke(h: Callback, handlers: seq<Callback>, act: Behaviour, locks: Locks, c: Call, depth: nat,
                  past: seq<Invocation>): seq<Invocation>
    decreases Free(locks), 2, 0
  {
    if IsFor(h, c) then
      var at := past + [Invocation(depth, c.direction, h.callback, c.kind, c.buffer)];
      Steps(at, act.steps(at), handlers, act, locks, depth)
    else past
  }

  /** The first n steps of the handler that was called last. */
  function Steps(at: seq<Invocation>, n: nat, handlers: seq<Callback>, act: Behaviour, locks: Locks, depth: nat)
    : seq<Invocation>
    decreases Free(locks), 1, n
  {
    if n == 0 then at
    else Step(at, n - 1, handlers, act, locks, depth, Steps(at, n - 1, handlers, act, locks, depth))
  }

  function Step(at: seq<Invocation>, k: nat, handlers: seq<Callback>, act: Behaviour, locks: Locks, depth: nat,
                past: seq<Invocation>): seq<Invocation>
    decreases Free(locks), 1, 0
  {
    var call := act.call(at, k, past);
    if call.Some? then Invocations(handlers, act, locks, call.value, depth, past) else past
  }

  class SerialHandler {
    var handlers: seq<Callback>
    var lockedTransmit: bool
    var lockedReceive: bool
    var invoked: seq<Invocation>

    constructor ()
      ensures |handlers| == 0 && Flags() == Locks(false, false) && invoked == []
    {
      handlers, lockedTransmit, lockedReceive, invoked := [], false, false, [];
    }

    function Flags(): Locks
      reads this
    {
      Locks(lockedTransmit, lockedReceive)
    }

    /** Behind the others for data to transmit, in front of them for received data. */
    method AddHandler(callback: nat, flags: bv8)
      modifies `handlers
      ensures Order(handlers, Transmit) == old(Order(handlers, Transmit)) + [Callback(callback, flags)]
      ensures Order(handlers, Receive) == [Callback(callback, flags)] + old(Order(handlers, Receive))
    {
      ReversedSnoc(handlers, Callback(callback, flags));
      handlers := handlers + [Callback(callback, flags)];
    }

    method WriteToTransmit(c: Call, act: Behaviour, depth: nat)
      requires c.direction.Transmit?
      modifies `lockedTransmit, `lockedReceive, `invoked
      ensures Flags() == old(Flags())
      ensures invoked == Invocations(handlers, act, old(Flags()), c, depth, old(invoked))
      decreases Free(Flags()), 0, 0
    {
      if lockedTransmit {
        return;
      }
      lockedTransmit := true;
      InvokeHandlers(handlers, c, act, depth + 1);
      lockedTransmit := false;
    }

    method WriteToReceive(c: Call, act: Behaviour, depth: nat)
      requires c.direction.Receive?
      modifies `lockedTransmit, `lockedReceive, `invoked
      ensures Flags() == old(Flags())
      ensures invoked == Invocations(handlers, act, old(Flags()), c, depth, old(invoked))
      decreases Free(Flags()), 0, 0
    {
      if lockedReceive {
        return;
      }
      lockedReceive := true;
      if |c.buffer| > 0 {
        InvokeHandlers(Reversed(handlers), c, act, depth + 1);
      }
      lockedReceive := false;
    }

    method InvokeHandlers(hs: seq<Callback>, c: Call, act: Behaviour, depth: nat)
      modifies `lockedTransmit, `lockedReceive, `invoked
      ensures Flags() == old(Flags())
      ensures invoked == InvokeAll(hs, handlers, act, old(Flags()), c, depth, old(invoked))
      decreases Free(Flags()), 2, |hs|
    {
      ghost var locks := Flags();
      for i := 0 to |hs|
        invariant Flags() == locks
        invariant InvokeAll(hs, handlers, act, locks, c, depth, old(invoked))
                  == InvokeAll(hs[i..], handlers, act, locks, c, depth, invoked)
      {
        assert hs[i..][1..] == hs[i + 1..];
        if HasType(hs[i], c.kind) && Some(hs[i].callback) != c.except {
          InvokeHandler(hs[i], c, act, depth);
        }
      }
    }

    method InvokeHandler(h: Callback, c: Call, act: Behaviour, depth: nat)
      requires IsFor(h, c)
      modifies `lockedTransmit, `lockedReceive, `invoked
      ensures Flags() == old(Flags())
      ensures invoked == Invoke(h, handlers, act, old(Flags()), c, depth, old(invoked))
      decreases Free(Flags()), 2, 0
    {
      invoked := invoked + [Invocation(depth, c.direction, h.callback, c.kind, c.buffer)];
      var at := invoked;
      ghost var locks := Flags();
      for k := 0 to act.steps(at)
        invariant Flags() == locks
        invariant invoked == Steps(at, k, handlers, act, locks, depth)
      {
        TakeStep(at, k, act, depth);
      }
    }

    method TakeStep(at: seq<Invocation>, k: nat, act: Behaviour, depth: nat)
      modifies `lockedTransmit, `lockedReceive, `invoked
      ensures Flags() == old(Flags())
      ensures invoked == Step(at, k, handlers, act, old(Flags()), depth, old(invoked))
      decreases Free(Flags()), 1, 0
    {
      var call := act.call(at, k, invoked);
      if call.Some? {
        if call.value.direction.Transmit? {
          WriteToTransmit(call.value, act, depth);
        } else {
          WriteToReceive(call.value, act, depth);
        }
      }
    }
  }

  lemma {:induction false} ReversedSnoc<T>(s: seq<T>, x: T)
    ensures Reversed(s + [x]) == [x] + Reversed(s)
  {
    if |s| > 0 {
      assert (s + [x])[1..] == s[1..] + [x];
      ReversedSnoc(s[1..], x);
    }
  }

  // ---------------------------------------------------------------- nesting

  /** Deeper than the call, by no more than there are free locks, and in a direction that is not locked. */
  predicate Nested(o: Invocation, locks: Locks, depth: nat) {
    depth < o.depth <= depth + Free(locks) && !IsLocked(locks, o.direction)
  }

  /** What was is kept, and all that is new is nested. */
  predicate AddsNested(past: seq<Invocation>, after: seq<Invocation>, locks: Locks, depth: nat) {
    |after| >= |past| &&
    (forall i :: 0 <= i < |after| ==> if i < |past| then after[i] == past[i] else Nested(after[i], locks, depth))
  }

  /** The same, where the handlers themselves are called as well. */
  predicate AddsOf(past: seq<Invocation>, after: seq<Invocation>, locks: Locks, d: Direction, depth: nat) {
    |after| >= |past| &&
    (forall i :: 0 <= i < |after| ==>
       if i < |past| then after[i] == past[i]
       else (after[i].depth == depth && after[i].direction == d) || Nested(after[i], locks, depth))
  }

  lemma {:induction false} InvocationsNested(handlers: seq<Callback>, act: Behaviour, locks: Locks, c: Call, depth: nat,
                                             past: seq<Invocation>)
    ensures AddsNested(past, Invocations(handlers, act, locks, c, depth, past), locks, depth)
    decreases Free(locks), 0, 0
  {
    if !IsLocked(locks, c.direction) && !(c.direction.Receive? && |c.buffer| == 0) {
      var inner := WithLock(locks, c.direction, true);
      InvokeAllNested(Order(handlers, c.direction), handlers, act, inner, c, depth + 1, past);
    }
  }

  lemma {:induction false} InvokeAllNested(hs: seq<Callback>, handlers: seq<Callback>, act: Behaviour, locks: Locks,
                                           c: Call, depth: nat, past: seq<Invocation>)
    ensures AddsOf(past, InvokeAll(hs, handlers, act, locks, c, depth, past), locks, c.direction, depth)
    decreases Free(locks), 2, |hs|
  {
    if |hs| > 0 {
      var next := Invoke(hs[0], handlers, act, locks, c, depth, past);
      InvokeNested(hs[0], handlers, act, locks, c, depth, past);
      InvokeAllNested(hs[1..], handlers, act, locks, c, depth, next);
    }
  }

  lemma {:induction false} InvokeNested(h: Callback, handlers: seq<Callback>, act: Behaviour, locks: Locks, c: Call,
                                        depth: nat, past: seq<Invocation>)
    ensures AddsOf(past, Invoke(h, handlers, act, locks, c, depth, past), locks, c.direction, depth)
    decreases Free(locks), 2, 0
  {
    if IsFor(h, c) {
      var at := past + [Invocation(depth, c.direction, h.callback, c.kind, c.buffer)];
      StepsNested(at, act.steps(at), handlers, act, locks, depth);
    }
  }

  lemma {:induction false} StepsNested(at: seq<Invocation>, n: nat, handlers: seq<Callback>, act: Behaviour,
                                       locks: Locks, depth: nat)
    ensures AddsNested(at, Steps(at, n, handlers, act, locks, depth), locks, depth)
    decreases Free(locks), 1, n
  {
    if n > 0 {
      var past := Steps(at, n - 1, handlers, act, locks, depth);
      StepsNested(at, n - 1, handlers, act, locks, depth);
      var call := act.call(at, n - 1, past);
      if call.Some? {
        InvocationsNested(handlers, act, locks, call.value, depth, past);
      }
    }
  }

  /**
   Whatever the handlers do: from a call at rest they are called at most two levels deep, on the first level in its
   direction, on the second in the other.
   */
  lemma AtMostTwoDeep(handlers: seq<Callback>, act: Behaviour, c: Call, past: seq<Invocation>)
    ensures var all := Invocations(handlers, act, Locks(false, false), c, 0, past);
            past <= all &&
            forall o :: o in all[|past|..] ==> if o.direction == c.direction then o.depth == 1 else o.depth == 2
  {
    var inner := WithLock(Locks(false, false), c.direction, true);
    InvokeAllNested(Order(handlers, c.direction), handlers, act, inner, c, 1, past);
  }

  // ---------------------------------------------------------------- deliveries

  function AtDepth(os: seq<Invocation>, depth: nat): seq<Invocation> {
    if |os| == 0 then []
    else
      var last := os[|os| - 1];
      AtDepth(os[..|os| - 1], depth) + if last.depth == depth then [last] else []
  }

  lemma {:induction false} NestedAtDepth(past: seq<Invocation>, after: seq<Invocation>, locks: Locks, depth: nat)
    requires AddsNested(past, after, locks, depth)
    ensures AtDepth(after, depth) == AtDepth(past, depth)
  {
    if |after| > |past| {
      NestedAtDepth(past, after[..|after| - 1], locks, depth);
      assert Nested(after[|after| - 1], locks, depth);
      NothingAdded(AtDepth(after[..|after| - 1], depth));
    } else {
      assert after == past;
    }
  }

  /** One delivery of the data to each handler it is for. */
  function Deliveries(hs: seq<Callback>, c: Call, depth: nat): seq<Invocation> {
    if |hs| == 0 then []
    else if IsFor(hs[0], c)
    then [Invocation(depth, c.direction, hs[0].callback, c.kind, c.buffer)] + Deliveries(hs[1..], c, depth)
    else Deliveries(hs[1..], c, depth)
  }

  /** Data goes to the handlers with the flag of its type, and to no other; the one it comes from is left out. */
  lemma {:induction false} DeliveredExactly(hs: seq<Callback>, c: Call, depth: nat, callback: nat)
    ensures Invocation(depth, c.direction, callback, c.kind, c.buffer) in Deliveries(hs, c, depth)
            <==> c.except != Some(callback) && exists h :: h in hs && h.callback == callback && h.flags & c.kind != 0
  {
    if |hs| > 0 {
      DeliveredExactly(hs[1..], c, depth, callback);
      assert hs == [hs[0]] + hs[1..];
    }
  }

  lemma OneDelivery(h: Callback, handlers: seq<Callback>, act: Behaviour, locks: Locks, c: Call, depth: nat,
                    past: seq<Invocation>)
    requires IsFor(h, c)
    ensures AtDepth(Invoke(h, handlers, act, locks, c, depth, past), depth) ==
            AtDepth(past, depth) + [Invocation(depth, c.direction, h.callback, c.kind, c.buffer)]
  {
    var at := past + [Invocation(depth, c.direction, h.callback, c.kind, c.buffer)];
    StepsNested(at, act.steps(at), handlers, act, locks, depth);
    NestedAtDepth(at, Steps(at, act.steps(at), handlers, act, locks, depth), locks, depth);
    assert at[..|at| - 1] == past;
  }

  /** What handlers do neither keeps the data from other handlers nor delivers it twice. */
  lemma {:induction false} EachHandlerOnce(hs: seq<Callback>, handlers: seq<Callback>, act: Behaviour, locks: Locks,
                                           c: Call, depth: nat, past: seq<Invocation>)
    ensures AtDepth(InvokeAll(hs, handlers, act, locks, c, depth, past), depth) ==
            AtDepth(past, depth) + Deliveries(hs, c, depth)
    decreases |hs|
  {
    NothingAdded(AtDepth(past, depth));
    if |hs| > 0 {
      EachHandlerOnce(hs[1..], handlers, act, locks, c, depth, Invoke(hs[0], handlers, act, locks, c, depth, past));
      if IsFor(hs[0], c) {
        OneDelivery(hs[0], handlers, act, locks, c, depth, past);
        Assoc(AtDepth(past, depth), [Invocation(depth, c.direction, hs[0].callback, c.kind, c.buffer)],
              Deliveries(hs[1..], c, depth));
      }
    }
  }

  /**
   Every call outside of another one of its direction is heard: all handlers the data is for are called once and in
   their order, on the level of the call; only received data of no length, and calls within such a call, go nowhere.
   */
  lemma CallIsHeardExactly(handlers: seq<Callback>, act: Behaviour, locks: Locks, c: Call, depth: nat,
                           past: seq<Invocation>)
    ensures var order := if c.direction == Transmit then handlers else Reversed(handlers);
            var heard := if c.direction == Transmit then !locks.transmit else !locks.receive && |c.buffer| > 0;
            var all := Invocations(handlers, act, locks, c, depth, past);
            if heard then AtDepth(all, depth + 1) == AtDepth(past, depth + 1) + Deliveries(order, c, depth + 1)
            else all == past
  {
    var locked := WithLock(locks, c.direction, true);
    EachHandlerOnce(Order(handlers, c.direction), handlers, act, locked, c, depth + 1, past);
  }

  /** Received data goes to the handler registered last first. */
  lemma {:induction false} ReversedAt<T>(s: seq<T>, i: nat)
    requires i < |s|
    ensures Reversed(s)[i] == s[|s| - 1 - i]
  {
    if i < |s| - 1 {
      ReversedAt(s[1..], i);
    }
  }
}
