/**
 The publish throttle of the web interface: `publishState` in Resources/js/webui.js. Per element at most one message is
 sent within 100 ms, and the last value is never lost. The socket and the timers of the window are part of the state.
 */
module PublishThrottle {
  import opened Util

  const INTERVAL: nat := 100

  datatype Message = Message(time: nat, id: string, value: string, kind: string)

  datatype PendingRequest = PendingRequest(pending: bool, value: string, kind: string)

  /** A timeout not before `due`; its closure has what was sent when it was set. */
  datatype Timer = Timer(due: nat, id: string, value: string, kind: string)

  datatype State = State(requests: map<string, PendingRequest>, sent: seq<Message>, timers: seq<Timer>)

  const INITIAL: State := State(map[], [], [])

  function Publish(s: State, now: nat, id: string, value: string, kind: string): State {
    if id in s.requests && s.requests[id].pending
    then s.(requests := s.requests[id := PendingRequest(true, value, kind)])
    else State(s.requests[id := PendingRequest(true, value, kind)], s.sent + [Message(now, id, value, kind)],
               s.timers + [Timer(now + INTERVAL, id, value, kind)])
  }

  /** Timer i runs out; an exception when the request is not known any longer. */
  function Expire(s: State, now: nat, i: nat): State
    requires i < |s.timers|
  {
    var timer := s.timers[i];
    var rest := s.(timers := Without(s.timers, i));
    if timer.id !in s.requests then rest
    else
      var request := s.requests[timer.id].(pending := false);
      var idle := rest.(requests := s.requests[timer.id := request]);
      if request.value != timer.value || request.kind != timer.kind
      then Publish(idle, now, timer.id, request.value, request.kind) else idle
  }

  /** A new interface: what is pending is forgotten, the timers are not. */
  function Forget(s: State): State {
    s.(requests := map[])
  }

  class WebUIComponent {
    var pendingRequests: map<string, PendingRequest>
    var lockPublish: bool
    var sent: seq<Message>
    var timers: seq<Timer>

    constructor ()
      ensures Abstract() == INITIAL && !lockPublish
    {
      pendingRequests, lockPublish, sent, timers := map[], false, [], [];
    }

    function Abstract(): State
      reads this
    {
      State(pendingRequests, sent, timers)
    }

    method PublishState(now: nat, id: string, value: string, kind: string)
      modifies `pendingRequests, `sent, `timers
      ensures Abstract() == if lockPublish then old(Abstract()) else Publish(old(Abstract()), now, id, value, kind)
    {
      if lockPublish {
        return;
      }
      if id in pendingRequests && pendingRequests[id].pending {
        pendingRequests := pendingRequests[id := pendingRequests[id].(value := value)];
        pendingRequests := pendingRequests[id := pendingRequests[id].(kind := kind)];
      } else {
        pendingRequests := pendingRequests[id := PendingRequest(true, value, kind)];
        sent := sent + [Message(now, id, value, kind)];
        timers := timers + [Timer(now + INTERVAL, id, value, kind)];
      }
    }

    /** The function given to `setTimeout`; the lock is only ever held within a call, never when a timer runs out. */
    method OnTimeout(now: nat, i: nat) returns (ok: bool)
      requires i < |timers| && !lockPublish
      modifies `pendingRequests, `sent, `timers
      ensures Abstract() == Expire(old(Abstract()), now, i)
      ensures ok == (old(timers[i]).id in old(pendingRequests))
    {
      var timer := timers[i];
      timers := Without(timers, i);
      if timer.id !in pendingRequests {
        return false;
      }
      pendingRequests := pendingRequests[timer.id := pendingRequests[timer.id].(pending := false)];
      var request := pendingRequests[timer.id];
      if request.value != timer.value || request.kind != timer.kind {
        PublishState(now, timer.id, request.value, request.kind);
      }
      return true;
    }

    /** While the new elements are built nothing is published, whatever they ask for. */
    method UpdateUI(now: nat, built: seq<Message>)
      modifies this
      ensures Abstract() == Forget(old(Abstract())) && !lockPublish
    {
      lockPublish := true;
      pendingRequests := map[];
      for i := 0 to |built|
        invariant lockPublish && Abstract() == Forget(old(Abstract()))
      {
        PublishState(now, built[i].id, built[i].value, built[i].kind);
      }
      lockPublish := false;
    }
  }

  // ---------------------------------------------------------------- what every step keeps

  function LastSent(sent: seq<Message>, id: string): Option<Message> {
    if |sent| == 0 then None
    else if sent[|sent| - 1].id == id then Some(sent[|sent| - 1])
    else LastSent(sent[..|sent| - 1], id)
  }

  /** Messages for the same element are at least the interval apart. */
  predicate Throttled(sent: seq<Message>) {
    |sent| == 0 ||
    (var last := sent[|sent| - 1];
     var before := sent[..|sent| - 1];
     Throttled(before) &&
     (LastSent(before, last.id).Some? ==> LastSent(before, last.id).value.time + INTERVAL <= last.time))
  }

  predicate OneTimerEach(timers: seq<Timer>) {
    forall i, j :: 0 <= i < j < |timers| ==> timers[i].id != timers[j].id
  }

  predicate HasTimer(timers: seq<Timer>, id: string) {
    exists i :: 0 <= i < |timers| && timers[i].id == id
  }

  /** The timer was set when the last message for its element was sent, and the request is pending. */
  predicate TimerFits(s: State, timer: Timer) {
    && timer.id in s.requests && s.requests[timer.id].pending && timer.due >= INTERVAL
    && LastSent(s.sent, timer.id) == Some(Message(timer.due - INTERVAL, timer.id, timer.value, timer.kind))
  }

  /**
   A request is pending exactly while there is a timer, and otherwise its value was the last one sent; the last message
   for an element without a timer was sent some time ago.
   */
  predicate ElementFits(s: State, id: string, clock: nat) {
    var last := LastSent(s.sent, id);
    && HasTimer(s.timers, id) == (id in s.requests && s.requests[id].pending)
    && (!HasTimer(s.timers, id) && last.Some? ==> last.value.time + INTERVAL <= clock)
    && (id in s.requests ==> last.Some?)
    && (id in s.requests && !s.requests[id].pending ==>
          last.value.value == s.requests[id].value && last.value.kind == s.requests[id].kind)
  }

  ghost predicate Inv(s: State, clock: nat) {
    && OneTimerEach(s.timers) && Throttled(s.sent)
    && (forall timer :: timer in s.timers ==> TimerFits(s, timer))
    && (forall id :: ElementFits(s, id, clock))
  }

  lemma LastSentNext(sent: seq<Message>, m: Message, id: string)
    ensures LastSent(sent + [m], id) == if m.id == id then Some(m) else LastSent(sent, id)
  {
    assert (sent + [m])[..|sent|] == sent;
  }

  lemma {:induction false} LastSentIsSent(sent: seq<Message>, id: string)
    ensures LastSent(sent, id).Some? ==> LastSent(sent, id).value in sent && LastSent(sent, id).value.id == id
  {
    if |sent| > 0 {
      LastSentIsSent(sent[..|sent| - 1], id);
    }
  }

  lemma HasTimerNext(timers: seq<Timer>, t: Timer, id: string)
    ensures HasTimer(timers + [t], id) <==> HasTimer(timers, id) || t.id == id
  {
    if HasTimer(timers, id) {
      var i :| 0 <= i < |timers| && timers[i].id == id;
      assert (timers + [t])[i].id == id;
    }
    if t.id == id {
      assert (timers + [t])[|timers|] == t;
    }
  }

  /** One more timer and message, for an element without a timer: the other elements and timers still fit. */
  lemma SendElementFits(s: State, clock: nat, now: nat, id: string, value: string, kind: string, k: string)
    requires clock <= now && !(id in s.requests && s.requests[id].pending) && ElementFits(s, k, clock)
    ensures ElementFits(Publish(s, now, id, value, kind), k, now)
  {
    LastSentNext(s.sent, Message(now, id, value, kind), k);
    HasTimerNext(s.timers, Timer(now + INTERVAL, id, value, kind), k);
  }

  lemma SendTimerFits(s: State, now: nat, id: string, value: string, kind: string, timer: Timer)
    requires !(id in s.requests && s.requests[id].pending)
    requires timer == Timer(now + INTERVAL, id, value, kind) || TimerFits(s, timer)
    ensures TimerFits(Publish(s, now, id, value, kind), timer)
  {
    LastSentNext(s.sent, Message(now, id, value, kind), timer.id);
  }

  lemma SendThrottled(s: State, clock: nat, now: nat, id: string, value: string, kind: string)
    requires Inv(s, clock) && clock <= now && !(id in s.requests && s.requests[id].pending)
    ensures Throttled(s.sent + [Message(now, id, value, kind)])
  {
    assert (s.sent + [Message(now, id, value, kind)])[..|s.sent|] == s.sent;
    assert ElementFits(s, id, clock);
  }

  lemma SendOneTimer(s: State, t: Timer)
    requires OneTimerEach(s.timers) && !(t.id in s.requests && s.requests[t.id].pending)
    requires forall timer :: timer in s.timers ==> TimerFits(s, timer)
    ensures OneTimerEach(s.timers + [t])
  {
    forall i | 0 <= i < |s.timers| ensures s.timers[i].id != t.id {
      assert s.timers[i] in s.timers && TimerFits(s, s.timers[i]);
    }
  }

  /** A request for an element that has no timer is sent at once, and sets one. */
  lemma SendKeeps(s: State, clock: nat, now: nat, id: string, value: string, kind: string)
    requires Inv(s, clock) && clock <= now && !(id in s.requests && s.requests[id].pending)
    ensures Inv(Publish(s, now, id, value, kind), now)
  {
    var s' := Publish(s, now, id, value, kind);
    SendThrottled(s, clock, now, id, value, kind);
    SendOneTimer(s, Timer(now + INTERVAL, id, value, kind));
    forall timer | timer in s'.timers ensures TimerFits(s', timer) {
      SendTimerFits(s, now, id, value, kind, timer);
    }
    forall k ensures ElementFits(s', k, now) {
      assert ElementFits(s, k, clock);
      SendElementFits(s, clock, now, id, value, kind, k);
    }
  }

  /** A request for an element that has a timer is kept for later. */
  lemma KeepKeeps(s: State, clock: nat, now: nat, id: string, value: string, kind: string)
    requires Inv(s, clock) && clock <= now && id in s.requests && s.requests[id].pending
    ensures Inv(Publish(s, now, id, value, kind), now)
  {
    var s' := Publish(s, now, id, value, kind);
    forall timer | timer in s'.timers ensures TimerFits(s', timer) {
      assert TimerFits(s, timer);
    }
    forall k ensures ElementFits(s', k, now) {
      assert ElementFits(s, k, clock);
    }
  }

  /** The state with timer i gone and its element at rest. */
  function AtRest(s: State, i: nat): State
    requires i < |s.timers|
  {
    var timer := s.timers[i];
    State(s.requests[timer.id := PendingRequest(false, timer.value, timer.kind)], s.sent, Without(s.timers, i))
  }

  lemma WithoutMember<T>(s: seq<T>, i: nat, j: nat)
    requires i < |s| && j < |s| - 1
    ensures Without(s, i)[j] == if j < i then s[j] else s[j + 1]
  {
  }

  lemma AtRestHasTimer(s: State, i: nat, id: string)
    requires i < |s.timers| && OneTimerEach(s.timers)
    ensures HasTimer(Without(s.timers, i), id) <==> HasTimer(s.timers, id) && id != s.timers[i].id
  {
    if HasTimer(s.timers, id) && id != s.timers[i].id {
      var j :| 0 <= j < |s.timers| && s.timers[j].id == id;
      WithoutMember(s.timers, i, if j < i then j else j - 1);
      assert Without(s.timers, i)[if j < i then j else j - 1].id == id;
    }
    if HasTimer(Without(s.timers, i), id) {
      var j :| 0 <= j < |s.timers| - 1 && Without(s.timers, i)[j].id == id;
      WithoutMember(s.timers, i, j);
    }
  }

  lemma RestKeeps(s: State, clock: nat, now: nat, i: nat)
    requires Inv(s, clock) && clock <= now && i < |s.timers| && s.timers[i].due <= now
    ensures Inv(AtRest(s, i), now)
  {
    var s' := AtRest(s, i);
    var t := s.timers[i];
    assert t in s.timers && TimerFits(s, t);
    forall j, k | 0 <= j < k < |s'.timers| ensures s'.timers[j].id != s'.timers[k].id {
      WithoutMember(s.timers, i, j);
      WithoutMember(s.timers, i, k);
    }
    forall j | 0 <= j < |s'.timers| ensures s'.timers[j].id != t.id && TimerFits(s', s'.timers[j]) {
      WithoutMember(s.timers, i, j);
      assert s'.timers[j] in s.timers && TimerFits(s, s'.timers[j]);
    }
    forall id ensures ElementFits(s', id, now) {
      AtRestHasTimer(s, i, id);
      assert ElementFits(s, id, clock);
    }
  }

  lemma PublishKeeps(s: State, clock: nat, now: nat, id: string, value: string, kind: string)
    requires Inv(s, clock) && clock <= now
    ensures Inv(Publish(s, now, id, value, kind), now)
  {
    if id in s.requests && s.requests[id].pending {
      KeepKeeps(s, clock, now, id, value, kind);
    } else {
      SendKeeps(s, clock, now, id, value, kind);
    }
  }

  predicate CaughtUp(s: State, t: Timer)
    requires t.id in s.requests
  {
    s.requests[t.id].value == t.value && s.requests[t.id].kind == t.kind
  }

  lemma ExpireIsPublish(s: State, now: nat, i: nat)
    requires i < |s.timers| && s.timers[i].id in s.requests
    ensures var t := s.timers[i];
            var request := s.requests[t.id];
            Expire(s, now, i) == if CaughtUp(s, t) then AtRest(s, i)
                                 else Publish(AtRest(s, i), now, t.id, request.value, request.kind)
  {
  }

  lemma TimerOfInv(s: State, clock: nat, i: nat)
    requires Inv(s, clock) && i < |s.timers|
    ensures TimerFits(s, s.timers[i])
  {
    assert s.timers[i] in s.timers;
  }

  lemma ExpireKeeps(s: State, clock: nat, now: nat, i: nat)
    requires Inv(s, clock) && clock <= now && i < |s.timers| && s.timers[i].due <= now
    ensures Inv(Expire(s, now, i), now)
  {
    var t := s.timers[i];
    TimerOfInv(s, clock, i);
    ExpireIsPublish(s, now, i);
    RestKeeps(s, clock, now, i);
    PublishKeeps(AtRest(s, i), now, now, t.id, s.requests[t.id].value, s.requests[t.id].kind);
  }

  /** When a timer runs out, the latest request has been sent: now, if it was not before. */
  lemma ExpireSendsLatest(s: State, clock: nat, now: nat, i: nat)
    requires Inv(s, clock) && i < |s.timers|
    ensures var id := s.timers[i].id;
            var last := LastSent(Expire(s, now, i).sent, id);
            id in s.requests && last.Some? &&
            last.value.value == s.requests[id].value && last.value.kind == s.requests[id].kind
  {
    var t := s.timers[i];
    TimerOfInv(s, clock, i);
    var request := s.requests[t.id];
    ExpireIsPublish(s, now, i);
    if !CaughtUp(s, t) {
      LastSentNext(s.sent, Message(now, t.id, request.value, request.kind), t.id);
    }
  }

  /** Without a request in between, an element is at rest after two timers at the latest. */
  lemma RestAfterExpiry(s: State, clock: nat, now: nat, i: nat)
    requires Inv(s, clock) && clock <= now && i < |s.timers| && s.timers[i].due <= now
    ensures var t := s.timers[i];
            var after := Expire(s, now, i);
            t.id in s.requests && t.id in after.requests &&
            after.requests[t.id].value == s.requests[t.id].value && after.requests[t.id].kind == s.requests[t.id].kind
    ensures var t := s.timers[i];
            if CaughtUp(s, t) then !HasTimer(Expire(s, now, i).timers, t.id)
            else Expire(s, now, i).timers[|s.timers| - 1..] ==
                 [Timer(now + 100, t.id, s.requests[t.id].value, s.requests[t.id].kind)]
  {
    TimerOfInv(s, clock, i);
    ExpireIsPublish(s, now, i);
    AtRestHasTimer(s, i, s.timers[i].id);
  }

  /** With no timer left every last message is old enough, so that nothing is lost with the requests. */
  lemma ForgetKeeps(s: State, clock: nat, now: nat)
    requires Inv(s, clock) && clock <= now && |s.timers| == 0
    ensures Inv(Forget(s), now)
  {
    forall id ensures ElementFits(Forget(s), id, now) {
      assert ElementFits(s, id, clock);
    }
  }

  // ---------------------------------------------------------------- runs

  datatype Event =
    | Request(time: nat, id: string, value: string, kind: string)
    | Timeout(time: nat, i: nat)
    | Reset(time: nat)

  function Clock(start: nat, events: seq<Event>): nat {
    if |events| == 0 then start else events[|events| - 1].time
  }

  function Step(s: State, e: Event): State {
    match e
    case Request(time, id, value, kind) => Publish(s, time, id, value, kind)
    case Timeout(time, i) => if i < |s.timers| then Expire(s, time, i) else s
    case Reset(_) => Forget(s)
  }

  function Run(s: State, events: seq<Event>): State {
    if |events| == 0 then s else Step(Run(s, events[..|events| - 1]), events[|events| - 1])
  }

  /** Time does not go back, and timers run out when they are due or later, in any order. */
  predicate Admissible(s: State, start: nat, events: seq<Event>) {
    |events| == 0 ||
    (var before := events[..|events| - 1];
     var e := events[|events| - 1];
     Admissible(s, start, before) && Clock(start, before) <= e.time &&
     (e.Timeout? ==> e.i < |Run(s, before).timers| && Run(s, before).timers[e.i].due <= e.time))
  }

  /** The interface is only reset while no timer is outstanding. */
  predicate ResetsAtRest(s: State, events: seq<Event>) {
    |events| == 0 ||
    (var before := events[..|events| - 1];
     ResetsAtRest(s, before) && (events[|events| - 1].Reset? ==> |Run(s, before).timers| == 0))
  }

  /** The last request for an element since the interface was reset. */
  function LastRequest(events: seq<Event>, id: string): Option<(string, string)> {
    if |events| == 0 then None
    else
      var e := events[|events| - 1];
      if e.Reset? then None
      else if e.Request? && e.id == id then Some((e.value, e.kind)) else LastRequest(events[..|events| - 1], id)
  }

  predicate Requested(events: seq<Event>, id: string) {
    |events| > 0 &&
    (var e := events[|events| - 1];
     Requested(events[..|events| - 1], id) || (e.Request? && e.id == id))
  }

  predicate FollowsRequests(s: State, id: string, last: Option<(string, string)>) {
    if last.None? then id !in s.requests
    else id in s.requests && (s.requests[id].value, s.requests[id].kind) == last.value
  }

  lemma StepKeeps(s: State, clock: nat, e: Event)
    requires Inv(s, clock) && clock <= e.time && (e.Timeout? ==> e.i < |s.timers| && s.timers[e.i].due <= e.time)
    requires e.Reset? ==> |s.timers| == 0
    ensures Inv(Step(s, e), e.time)
  {
    match e {
      case Request(time, id, value, kind) => PublishKeeps(s, clock, time, id, value, kind);
      case Timeout(time, i) => ExpireKeeps(s, clock, time, i);
      case Reset(time) => ForgetKeeps(s, clock, time);
    }
  }

  lemma StepFollows(s: State, clock: nat, e: Event, id: string, last: Option<(string, string)>)
    requires Inv(s, clock) && FollowsRequests(s, id, last)
    ensures FollowsRequests(Step(s, e), id, if e.Reset? then None
                                            else if e.Request? && e.id == id then Some((e.value, e.kind)) else last)
  {
    if e.Timeout? && e.i < |s.timers| {
      TimerOfInv(s, clock, e.i);
      ExpireIsPublish(s, e.time, e.i);
    }
  }

  lemma PublishSends(s: State, now: nat, id: string, value: string, kind: string, k: string)
    requires id in s.requests ==> LastSent(s.sent, id).Some?
    ensures LastSent(Publish(s, now, id, value, kind).sent, k).Some? <==> LastSent(s.sent, k).Some? || id == k
  {
    LastSentNext(s.sent, Message(now, id, value, kind), k);
  }

  /** A message is sent for an element once there was a request for it, and for no other. */
  lemma StepSends(s: State, clock: nat, e: Event, k: string)
    requires Inv(s, clock)
    ensures LastSent(Step(s, e).sent, k).Some? <==> LastSent(s.sent, k).Some? || (e.Request? && e.id == k)
  {
    match e {
      case Request(time, id, value, kind) =>
        assert ElementFits(s, id, clock);
        PublishSends(s, time, id, value, kind, k);
      case Timeout(time, i) =>
        if i < |s.timers| {
          TimerOfInv(s, clock, i);
          ExpireIsPublish(s, time, i);
          var t := s.timers[i];
          PublishSends(AtRest(s, i), time, t.id, s.requests[t.id].value, s.requests[t.id].kind, k);
        }
      case Reset(_) =>
    }
  }

  lemma InitialFits()
    ensures Inv(INITIAL, 0)
  {
  }

  lemma {:induction false} RunKeeps(s: State, start: nat, events: seq<Event>)
    requires Inv(s, start) && Admissible(s, start, events) && ResetsAtRest(s, events)
    ensures Inv(Run(s, events), Clock(start, events))
  {
    if |events| > 0 {
      var before := events[..|events| - 1];
      RunKeeps(s, start, before);
      StepKeeps(Run(s, before), Clock(start, before), events[|events| - 1]);
    }
  }

  lemma {:induction false} RunFollows(events: seq<Event>, id: string)
    requires Admissible(INITIAL, 0, events) && ResetsAtRest(INITIAL, events)
    ensures FollowsRequests(Run(INITIAL, events), id, LastRequest(events, id))
  {
    if |events| > 0 {
      var before := events[..|events| - 1];
      InitialFits();
      RunKeeps(INITIAL, 0, before);
      RunFollows(before, id);
      StepFollows(Run(INITIAL, before), Clock(0, before), events[|events| - 1], id, LastRequest(before, id));
    }
  }

  lemma {:induction false} RunSends(events: seq<Event>, id: string)
    requires Admissible(INITIAL, 0, events) && ResetsAtRest(INITIAL, events)
    ensures LastSent(Run(INITIAL, events).sent, id).Some? <==> Requested(events, id)
  {
    if |events| > 0 {
      var before := events[..|events| - 1];
      InitialFits();
      RunKeeps(INITIAL, 0, before);
      RunSends(before, id);
      StepSends(Run(INITIAL, before), Clock(0, before), events[|events| - 1], id);
    }
  }

  /** In every run: one timer per element, messages spaced, and where no timer is left the last request was sent. */
  lemma LastRequestIsSent(events: seq<Event>, id: string)
    requires Admissible(INITIAL, 0, events) && ResetsAtRest(INITIAL, events)
    ensures var s := Run(INITIAL, events); OneTimerEach(s.timers) && Throttled(s.sent)
    ensures LastSent(Run(INITIAL, events).sent, id).Some? <==> Requested(events, id)
    ensures LastRequest(events, id).Some? && !HasTimer(Run(INITIAL, events).timers, id) ==>
              var last := LastSent(Run(INITIAL, events).sent, id);
              last.Some? && (last.value.value, last.value.kind) == LastRequest(events, id).value
  {
    InitialFits();
    RunKeeps(INITIAL, 0, events);
    RunFollows(events, id);
    RunSends(events, id);
    assert ElementFits(Run(INITIAL, events), id, Clock(0, events));
  }

  // ---------------------------------------------------------------- when a reset breaks the spacing

  /** A timer of an element that was forgotten sends nothing, and nothing is known of the element after it. */
  lemma ForgottenTimerIsSilent(s: State, now: nat, i: nat)
    requires i < |s.timers|
    ensures Expire(Forget(s), now, i) == State(map[], s.sent, s.timers[..i] + s.timers[i + 1..])
  {
  }

  /** Whatever follows, as long as it is not disturbed by a reset itself, messages are spaced. */
  ghost predicate StaysThrottled(s: State, clock: nat) {
    forall events :: Admissible(s, clock, events) && ResetsAtRest(s, events) ==> Throttled(Run(s, events).sent)
  }

  lemma InvStaysThrottled(s: State, clock: nat)
    requires Inv(s, clock)
    ensures StaysThrottled(s, clock)
  {
    forall events | Admissible(s, clock, events) && ResetsAtRest(s, events) ensures Throttled(Run(s, events).sent) {
      RunKeeps(s, clock, events);
    }
  }

  lemma TooEarly(sent: seq<Message>, m: Message)
    requires LastSent(sent, m.id).Some? && LastSent(sent, m.id).value.time + INTERVAL > m.time
    ensures !Throttled(sent + [m])
  {
    assert (sent + [m])[..|sent|] == sent;
  }

  lemma OneEvent(s: State, clock: nat, e: Event)
    requires clock <= e.time && e.Request?
    ensures Admissible(s, clock, [e]) && ResetsAtRest(s, [e]) && Run(s, [e]) == Step(s, e)
  {
    var none: seq<Event> := [e][..0];
    assert Admissible(s, clock, none) && Clock(clock, none) == clock && ResetsAtRest(s, none) && Run(s, none) == s;
  }

  lemma TwoEvents(s: State, clock: nat, e: Event, f: Event)
    requires clock <= e.time <= f.time && e.Request?
    requires f.Timeout? && f.i < |Step(s, e).timers| && Step(s, e).timers[f.i].due <= f.time
    ensures Admissible(s, clock, [e, f]) && ResetsAtRest(s, [e, f]) && Run(s, [e, f]) == Step(Step(s, e), f)
  {
    OneEvent(s, clock, e);
    assert [e, f][..1] == [e];
  }

  /** The timer has not run out: the next request is sent although the last message was sent just before. */
  lemma RequestComesTooEarly(s: State, now: nat, t: Timer) returns (events: seq<Event>)
    requires t in s.timers && TimerFits(s, t) && now < t.due
    ensures Admissible(Forget(s), now, events) && ResetsAtRest(Forget(s), events)
    ensures !Throttled(Run(Forget(s), events).sent)
  {
    var e := Request(now, t.id, t.value, t.kind);
    events := [e];
    OneEvent(Forget(s), now, e);
    TooEarly(s.sent, Message(now, t.id, t.value, t.kind));
  }

  /** The timer is due: a request is sent, and as the timer knows another value, once more at the same time. */
  lemma TimeoutSendsTwice(s: State, now: nat, i: nat) returns (events: seq<Event>)
    requires i < |s.timers| && s.timers[i].due <= now
    ensures Admissible(Forget(s), now, events) && ResetsAtRest(Forget(s), events)
    ensures !Throttled(Run(Forget(s), events).sent)
  {
    var t := s.timers[i];
    var e, f := Request(now, t.id, t.value + "x", t.kind), Timeout(now, i);
    events := [e, f];
    var m := Message(now, t.id, e.value, t.kind);
    TwoEvents(Forget(s), now, e, f);
    LastSentNext(s.sent, m, t.id);
    TooEarly(s.sent + [m], m);
  }

  /** A reset leaves messages spaced in everything that can follow it if and only if no timer is outstanding. */
  lemma ResetKeepsSpacingExactlyAtRest(s: State, clock: nat, now: nat)
    requires Inv(s, clock) && clock <= now
    ensures StaysThrottled(Step(s, Reset(now)), now) <==> |s.timers| == 0
  {
    if |s.timers| == 0 {
      ForgetKeeps(s, clock, now);
      InvStaysThrottled(Forget(s), now);
    } else if now < s.timers[0].due {
      TimerOfInv(s, clock, 0);
      var events := RequestComesTooEarly(s, now, s.timers[0]);
    } else {
      var events := TimeoutSendsTwice(s, now, 0);
    }
  }

  /** What the spacing means: any two messages for the same element, not only neighbours. */
  lemma {:induction false} ThrottledMeansSpaced(sent: seq<Message>, i: nat, j: nat)
    requires Throttled(sent) && i < j < |sent| && sent[i].id == sent[j].id
    ensures sent[i].time + 100 <= sent[j].time
  {
    var before := sent[..|sent| - 1];
    if j < |sent| - 1 {
      ThrottledMeansSpaced(before, i, j);
    } else {
      LastIsLatest(before, i);
    }
  }

  lemma {:induction false} LastIsLatest(sent: seq<Message>, i: nat)
    requires Throttled(sent) && i < |sent|
    ensures LastSent(sent, sent[i].id).Some? && sent[i].time <= LastSent(sent, sent[i].id).value.time
  {
    if i < |sent| - 1 {
      LastIsLatest(sent[..|sent| - 1], i);
    }
  }

  /** An example: the second message comes right after the reset, whatever the values. */
  method MessageAfterReset(start: nat, now: nat, id: string, value: string, next: string) returns (sent: seq<Message>)
    requires start <= now < start + INTERVAL
    ensures sent == [Message(start, id, value, "set"), Message(now, id, next, "set")] && !Throttled(sent)
  {
    var ui := new WebUIComponent();
    ui.PublishState(start, id, value, "set");
    ui.UpdateUI(now, []);
    ui.PublishState(now, id, next, "set");
    sent := ui.sent;
    LastSentNext([], sent[0], id);
    TooEarly([sent[0]], sent[1]);
  }
}
