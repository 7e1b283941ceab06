/**
 Authentication and start/end callbacks of web socket clients: `WsClient::onWsEvent`, `invokeStartOrEndCallback` and
 `broadcast` in src/web_socket.cpp. What a client causes is recorded as a sequence of outputs; checking a session id is
 a parameter.
 */
module WebSocketClients {
  import opened Util

  /** An entry in the client list of a server, and the WsClient linked to it. */
  datatype Socket = Socket(id: nat, connected: bool, authenticated: bool)

  datatype ClientCallbackType = CONNECT | AUTHENTICATED | DISCONNECT

  datatype Opcode = WS_TEXT | WS_BINARY | OTHER

  datatype Output =
    | Ping(id: nat)
    | Text(id: nat, text: string)
    | Close(id: nat)
    | OnConnect(id: nat)
    | OnDisconnect(id: nat)
    | OnErrorFromServer(id: nat)
    | OnErrorAuthenticationFailed(id: nat)
    | OnPong(id: nat)
    | OnText(id: nat, data: string)
    | OnBinary(id: nat, data: string)
    | OnAuthenticated(id: nat)
    | OnStart(id: nat)
    | OnEnd(id: nat)
    | Notify(kind: ClientCallbackType, id: nat)

  /** `reserved` tells whether there is memory for a copy of the session id. */
  datatype Event =
    | Connected(id: nat)
    | Disconnected(id: nat)
    | Error(id: nat)
    | Pong(id: nat)
    | Data(id: nat, opcode: Opcode, data: string, reserved: bool)

  const NUL: char := 0 as char

  /** Up to the first NUL. */
  function CString(s: string): string {
    if |s| == 0 || s[0] == NUL then [] else [s[0]] + CString(s[1..])
  }

  predicate IsSid(data: string) {
    |data| > 10 && data[..5] == "+SID "
  }

  /** Data that authenticates a client. */
  predicate Authenticates(e: Event, verify: string -> bool) {
    e.Data? && IsSid(e.data) && e.reserved && verify(CString(e.data[5..]))
  }

  // ---------------------------------------------------------------- the client list

  function Find(sockets: seq<Socket>, id: nat): (i: nat)
    ensures i <= |sockets| && (i < |sockets| ==> sockets[i].id == id)
  {
    if |sockets| == 0 || sockets[0].id == id then 0 else 1 + Find(sockets[1..], id)
  }

  predicate Counts(s: Socket) { s.connected && s.authenticated }

  function Authenticated(sockets: seq<Socket>): nat {
    if |sockets| == 0 then 0
    else Authenticated(sockets[..|sockets| - 1]) + if Counts(sockets[|sockets| - 1]) then 1 else 0
  }

  predicate Distinct(sockets: seq<Socket>) {
    forall i, j :: 0 <= i < j < |sockets| ==> sockets[i].id != sockets[j].id
  }

  lemma {:induction false} FindIs(sockets: seq<Socket>, i: nat)
    requires i < |sockets| && Distinct(sockets)
    ensures Find(sockets, sockets[i].id) == i
  {
    if i > 0 {
      assert sockets[0].id != sockets[i].id;
      FindIs(sockets[1..], i - 1);
    }
  }

  lemma {:induction false} NotFound(sockets: seq<Socket>, id: nat)
    requires Find(sockets, id) == |sockets|
    ensures forall i :: 0 <= i < |sockets| ==> sockets[i].id != id
  {
    if |sockets| > 0 {
      NotFound(sockets[1..], id);
      forall i | 0 <= i < |sockets| ensures sockets[i].id != id {
        assert i > 0 ==> sockets[i] == sockets[1..][i - 1];
      }
    }
  }

  lemma {:induction false} CountConcat(a: seq<Socket>, b: seq<Socket>)
    ensures Authenticated(a + b) == Authenticated(a) + Authenticated(b)
  {
    if |b| == 0 {
      NothingAdded(a);
    } else {
      CountConcat(a, b[..|b| - 1]);
      assert (a + b)[..|a + b| - 1] == a + b[..|b| - 1];
    }
  }

  function One(s: Socket): nat { if Counts(s) then 1 else 0 }

  lemma CountWith(before: seq<Socket>, s: Socket, behind: seq<Socket>)
    ensures Authenticated(before + [s] + behind) == Authenticated(before) + One(s) + Authenticated(behind)
  {
    CountConcat(before + [s], behind);
    assert (before + [s])[..|before|] == before;
  }

  lemma CountSplit(sockets: seq<Socket>, i: nat)
    requires i < |sockets|
    ensures Authenticated(sockets) ==
            Authenticated(sockets[..i]) + One(sockets[i]) + Authenticated(sockets[i + 1..])
  {
    assert sockets == sockets[..i] + [sockets[i]] + sockets[i + 1..];
    CountWith(sockets[..i], sockets[i], sockets[i + 1..]);
  }

  /** The count when one entry is replaced. */
  lemma CountReplaced(sockets: seq<Socket>, i: nat, s: Socket)
    requires i < |sockets|
    ensures Authenticated(sockets[i := s]) == Authenticated(sockets) - One(sockets[i]) + One(s)
  {
    CountSplit(sockets, i);
    CountSplit(sockets[i := s], i);
    assert sockets[i := s][..i] == sockets[..i] && sockets[i := s][i + 1..] == sockets[i + 1..];
  }

  lemma CountRemoved(sockets: seq<Socket>, i: nat)
    requires i < |sockets|
    ensures Authenticated(Without(sockets, i)) == Authenticated(sockets) - One(sockets[i])
  {
    CountSplit(sockets, i);
    CountConcat(sockets[..i], sockets[i + 1..]);
  }

  // ---------------------------------------------------------------- one event

  datatype State = State(sockets: seq<Socket>, outputs: seq<Output>)

  function Emit(s: State, outputs: seq<Output>): State {
    s.(outputs := s.outputs + outputs)
  }

  /** `invokeStartOrEndCallback`. */
  function StartOrEnd(sockets: seq<Socket>, id: nat, isStart: bool): seq<Output> {
    if isStart then if Authenticated(sockets) == 1 then [OnStart(id)] else []
    else if Authenticated(sockets) == 0 then [OnEnd(id)] else []
  }

  function OnData(id: nat, opcode: Opcode, data: string): seq<Output> {
    match opcode
    case WS_TEXT => [OnText(id, data)]
    case WS_BINARY => [OnBinary(id, data)]
    case OTHER => []
  }

  /** The session id of listed client i was found right. */
  function Accept(s: State, i: nat, id: nat): State
    requires i < |s.sockets|
  {
    var sockets := s.sockets[i := s.sockets[i].(authenticated := true)];
    Emit(s.(sockets := sockets),
         StartOrEnd(sockets, id, true) + [Text(id, "+AUTH_OK"), OnAuthenticated(id), Notify(AUTHENTICATED, id)])
  }

  function Handle(s: State, e: Event, verify: string -> bool): State {
    var i := Find(s.sockets, e.id);
    match e
    case Connected(id) =>
      Emit(s.(sockets := s.sockets + [Socket(id, true, false)]),
           [Ping(id), Text(id, "+REQ_AUTH"), OnConnect(id), Notify(CONNECT, id)])
    case Disconnected(id) =>
      if i == |s.sockets| then s
      else
        var left := s.sockets[i := s.sockets[i].(connected := false)];
        Emit(s.(sockets := Without(left, i)),
             [OnDisconnect(id)] + (StartOrEnd(left, id, false) + [Notify(DISCONNECT, id)]))
    case Error(id) => if i == |s.sockets| then s else Emit(s, [OnErrorFromServer(id)])
    case Pong(id) => if i == |s.sockets| then s else Emit(s, [OnPong(id)])
    case Data(id, opcode, data, reserved) =>
      if i == |s.sockets| then s
      else if s.sockets[i].authenticated then Emit(s, OnData(id, opcode, data))
      else if !IsSid(data) || !reserved then s
      else if Authenticates(e, verify) then Accept(s, i, id)
      else Emit(s, [Text(id, "+AUTH_ERROR"), OnErrorAuthenticationFailed(id), Close(id)])
  }

  /** The server's client list, and what was sent and called so far. */
  class AsyncWebSocket {
    var sockets: seq<Socket>
    var outputs: seq<Output>

    constructor ()
      ensures Abstract() == State([], [])
    {
      sockets, outputs := [], [];
    }

    function Abstract(): State
      reads this
    {
      State(sockets, outputs)
    }

    method InvokeStartOrEndCallback(id: nat, isStart: bool)
      modifies `outputs
      ensures outputs == old(outputs) + StartOrEnd(sockets, id, isStart)
    {
      var authenticatedClients := 0;
      for i := 0 to |sockets|
        invariant authenticatedClients == Authenticated(sockets[..i]) && outputs == old(outputs)
      {
        assert sockets[..i + 1][..i] == sockets[..i];
        if sockets[i].connected && sockets[i].authenticated {
          authenticatedClients := authenticatedClients + 1;
        }
      }
      assert sockets[..|sockets|] == sockets;
      NothingAdded(outputs);
      if isStart {
        if authenticatedClients == 1 {
          outputs := outputs + [OnStart(id)];
        }
      } else {
        if authenticatedClients == 0 {
          outputs := outputs + [OnEnd(id)];
        }
      }
    }

    /** The events of a client come after it connected and not after it disconnected; others are ignored. */
    method OnWsEvent(e: Event, verify: string -> bool)
      modifies this
      ensures Abstract() == Handle(old(Abstract()), e, verify)
    {
      NothingAdded(outputs);
      if e.Connected? {
        sockets := sockets + [Socket(e.id, true, false)];
        outputs := outputs + [Ping(e.id), Text(e.id, "+REQ_AUTH"), OnConnect(e.id), Notify(CONNECT, e.id)];
        return;
      }
      var i := Find(sockets, e.id);
      if i == |sockets| {
        return;
      }
      match e {
        case Disconnected(id) => Disconnect(i);
        case Error(id) => outputs := outputs + [OnErrorFromServer(id)];
        case Pong(id) => outputs := outputs + [OnPong(id)];
        case Data(id, opcode, data, reserved) =>
          if sockets[i].authenticated {
            outputs := outputs + OnData(id, opcode, data);
          } else if |data| > 10 && data[..5] == "+SID " {
            if !reserved {
              return;
            }
            CheckSid(i, verify(CString(data[5..])));
          }
      }
    }

    method Disconnect(i: nat)
      requires i < |sockets|
      modifies this
      ensures var left := old(sockets)[i := old(sockets)[i].(connected := false)];
              var id := old(sockets)[i].id;
              sockets == Without(left, i) &&
              outputs == old(outputs) + ([OnDisconnect(id)] + (StartOrEnd(left, id, false) + [Notify(DISCONNECT, id)]))
    {
      var id := sockets[i].id;
      sockets := sockets[i := sockets[i].(connected := false)];
      outputs := outputs + [OnDisconnect(id)];
      ghost var callback := StartOrEnd(sockets, id, false);
      InvokeStartOrEndCallback(id, false);
      outputs := outputs + [Notify(DISCONNECT, id)];
      Assoc(old(outputs) + [OnDisconnect(id)], callback, [Notify(DISCONNECT, id)]);
      Assoc(old(outputs), [OnDisconnect(id)], callback + [Notify(DISCONNECT, id)]);
      sockets := Without(sockets, i);
    }

    method CheckSid(i: nat, verified: bool)
      requires i < |sockets| && !sockets[i].authenticated
      modifies this
      ensures var id := old(sockets)[i].id;
              var now := old(sockets)[i := old(sockets)[i].(authenticated := true)];
              if verified
              then sockets == now &&
                   outputs == old(outputs) +
                   (StartOrEnd(now, id, true) + [Text(id, "+AUTH_OK"), OnAuthenticated(id), Notify(AUTHENTICATED, id)])
              else sockets == old(sockets) &&
                   outputs == old(outputs) + [Text(id, "+AUTH_ERROR"), OnErrorAuthenticationFailed(id), Close(id)]
    {
      var id := sockets[i].id;
      sockets := sockets[i := sockets[i].(authenticated := verified)];
      if verified {
        ghost var callback := StartOrEnd(sockets, id, true);
        InvokeStartOrEndCallback(id, true);
        var rest := [Text(id, "+AUTH_OK"), OnAuthenticated(id), Notify(AUTHENTICATED, id)];
        outputs := outputs + rest;
        Assoc(old(outputs), callback, rest);
      } else {
        outputs := outputs + [Text(id, "+AUTH_ERROR"), OnErrorAuthenticationFailed(id), Close(id)];
      }
    }

    /** Sends a message to all authenticated clients but the sender. */
    method Broadcast(sender: Option<nat>, message: string)
      modifies `outputs
      ensures outputs == old(outputs) + Broadcasts(sockets, sender, message)
    {
      NothingAdded(outputs);
      for i := 0 to |sockets|
        invariant outputs == old(outputs) + Broadcasts(sockets[..i], sender, message)
      {
        assert sockets[..i + 1][..i] == sockets[..i];
        if sockets[i].connected && Some(sockets[i].id) != sender && sockets[i].authenticated {
          outputs := outputs + [Text(sockets[i].id, message)];
        }
      }
      assert sockets[..|sockets|] == sockets;
    }
  }

  /** One message for each recipient, in the order of the list. */
  function Broadcasts(sockets: seq<Socket>, sender: Option<nat>, message: string): seq<Output> {
    if |sockets| == 0 then []
    else
      var last := sockets[|sockets| - 1];
      Broadcasts(sockets[..|sockets| - 1], sender, message)
      + if Counts(last) && Some(last.id) != sender then [Text(last.id, message)] else []
  }

  /** Exactly the connected and authenticated clients other than the sender get the message. */
  lemma {:induction false} BroadcastReaches(sockets: seq<Socket>, sender: Option<nat>, message: string, id: nat)
    ensures Text(id, message) in Broadcasts(sockets, sender, message)
            <==> Some(id) != sender && exists i :: 0 <= i < |sockets| && sockets[i].id == id && Counts(sockets[i])
  {
    if |sockets| > 0 {
      var before := sockets[..|sockets| - 1];
      BroadcastReaches(before, sender, message, id);
      if Some(id) != sender && exists i :: 0 <= i < |sockets| && sockets[i].id == id && Counts(sockets[i]) {
        var i :| 0 <= i < |sockets| && sockets[i].id == id && Counts(sockets[i]);
        assert i < |before| ==> before[i] == sockets[i];
      }
    }
  }

  /** Nothing else is sent, and nobody gets the message twice. */
  lemma {:induction false} BroadcastOnce(sockets: seq<Socket>, sender: Option<nat>, message: string)
    requires Distinct(sockets)
    ensures var sent := Broadcasts(sockets, sender, message);
            (forall k :: 0 <= k < |sent| ==> sent[k].Text? && sent[k].text == message) &&
            (forall j, k :: 0 <= j < k < |sent| ==> sent[j] != sent[k])
  {
    if |sockets| > 0 {
      var before, last := sockets[..|sockets| - 1], sockets[|sockets| - 1];
      BroadcastOnce(before, sender, message);
      BroadcastReaches(before, sender, message, last.id);
      assert forall i :: 0 <= i < |before| ==> before[i] == sockets[i] && before[i].id != last.id;
    }
  }

  // ---------------------------------------------------------------- runs

  function Run(events: seq<Event>, verify: string -> bool): State {
    if |events| == 0 then State([], [])
    else Handle(Run(events[..|events| - 1], verify), events[|events| - 1], verify)
  }

  /** A client connects once at a time; a connection has its own number. */
  predicate Admissible(events: seq<Event>, verify: string -> bool) {
    |events| == 0 ||
    (var before := events[..|events| - 1];
     var e := events[|events| - 1];
     var sockets := Run(before, verify).sockets;
     Admissible(before, verify) && Fits(sockets, e))
  }

  /** Since it connected, the client has sent a session id that was found right. */
  predicate Verified(events: seq<Event>, id: nat, verify: string -> bool) {
    |events| > 0 &&
    (var e := events[|events| - 1];
     if e.id == id && (e.Connected? || e.Disconnected?) then false
     else (e.id == id && Authenticates(e, verify)) || Verified(events[..|events| - 1], id, verify))
  }

  predicate InOrder(s: State) {
    Distinct(s.sockets) && forall i :: 0 <= i < |s.sockets| ==> s.sockets[i].connected
  }

  lemma HandleKeepsOrder(s: State, e: Event, verify: string -> bool)
    requires InOrder(s) && Fits(s.sockets, e)
    ensures InOrder(Handle(s, e, verify))
  {
    var i := Find(s.sockets, e.id);
    if e.Connected? {
      NotFound(s.sockets, e.id);
    } else if e.Disconnected? {
      var left := s.sockets[i := s.sockets[i].(connected := false)];
      forall j | 0 <= j < |left| - 1 ensures Without(left, i)[j] == s.sockets[if j < i then j else j + 1] {
      }
    }
  }

  lemma {:induction false} RunKeepsOrder(events: seq<Event>, verify: string -> bool)
    requires Admissible(events, verify)
    ensures InOrder(Run(events, verify))
  {
    if |events| > 0 {
      RunKeepsOrder(events[..|events| - 1], verify);
      HandleKeepsOrder(Run(events[..|events| - 1], verify), events[|events| - 1], verify);
    }
  }

  /** A client is in the list and authenticated. */
  predicate IsIn(sockets: seq<Socket>, id: nat) {
    exists i :: 0 <= i < |sockets| && sockets[i].id == id && sockets[i].authenticated
  }

  lemma IsInAppended(sockets: seq<Socket>, s: Socket, id: nat)
    ensures IsIn(sockets + [s], id) <==> IsIn(sockets, id) || (s.id == id && s.authenticated)
  {
    if IsIn(sockets, id) {
      var i :| 0 <= i < |sockets| && sockets[i].id == id && sockets[i].authenticated;
      assert (sockets + [s])[i] == sockets[i];
    }
    if s.id == id && s.authenticated {
      assert (sockets + [s])[|sockets|] == s;
    }
  }

  lemma IsInReplaced(sockets: seq<Socket>, i: nat, s: Socket, id: nat)
    requires Distinct(sockets) && i < |sockets| && s.id == sockets[i].id
    ensures IsIn(sockets[i := s], id) <==> if s.id == id then s.authenticated else IsIn(sockets, id)
  {
    if s.id == id && s.authenticated {
      assert sockets[i := s][i] == s;
    }
    if s.id != id && IsIn(sockets, id) {
      var j :| 0 <= j < |sockets| && sockets[j].id == id && sockets[j].authenticated;
      assert sockets[i := s][j] == sockets[j];
    }
  }

  lemma IsInRemoved(sockets: seq<Socket>, i: nat, id: nat)
    requires Distinct(sockets) && i < |sockets|
    ensures IsIn(Without(sockets, i), id) <==> sockets[i].id != id && IsIn(sockets, id)
  {
    if sockets[i].id != id && IsIn(sockets, id) {
      var j :| 0 <= j < |sockets| && sockets[j].id == id && sockets[j].authenticated;
      assert Without(sockets, i)[if j < i then j else j - 1] == sockets[j];
    }
    if IsIn(Without(sockets, i), id) {
      var j :| 0 <= j < |sockets| - 1 && Without(sockets, i)[j].id == id && Without(sockets, i)[j].authenticated;
      assert Without(sockets, i)[j] == sockets[if j < i then j else j + 1];
    }
  }

  lemma IsInMeansAuthenticated(sockets: seq<Socket>, id: nat)
    requires Distinct(sockets)
    ensures IsIn(sockets, id) <==> Find(sockets, id) < |sockets| && sockets[Find(sockets, id)].authenticated
  {
    if IsIn(sockets, id) {
      var i :| 0 <= i < |sockets| && sockets[i].id == id && sockets[i].authenticated;
      FindIs(sockets, i);
    }
  }

  predicate Fits(sockets: seq<Socket>, e: Event) {
    e.Connected? <==> Find(sockets, e.id) == |sockets|
  }

  lemma HandleAuthenticates(s: State, e: Event, verify: string -> bool, id: nat)
    requires InOrder(s) && Fits(s.sockets, e)
    ensures IsIn(Handle(s, e, verify).sockets, id) <==>
            if e.id == id && (e.Connected? || e.Disconnected?) then false
            else (e.id == id && Authenticates(e, verify)) || IsIn(s.sockets, id)
  {
    var i := Find(s.sockets, e.id);
    IsInMeansAuthenticated(s.sockets, id);
    match e {
      case Connected(k) =>
        IsInAppended(s.sockets, Socket(k, true, false), id);
      case Disconnected(_) =>
        IsInReplaced(s.sockets, i, s.sockets[i].(connected := false), id);
        IsInRemoved(s.sockets[i := s.sockets[i].(connected := false)], i, id);
      case Data(_, _, _, _) =>
        IsInReplaced(s.sockets, i, s.sockets[i].(authenticated := true), id);
      case _ =>
    }
  }

  /** In every run a client is authenticated exactly when it was verified since it connected. */
  lemma {:induction false} AuthenticatedMeansVerified(events: seq<Event>, verify: string -> bool, id: nat)
    requires Admissible(events, verify)
    ensures IsIn(Run(events, verify).sockets, id) <==> Verified(events, id, verify)
  {
    if |events| > 0 {
      var before := events[..|events| - 1];
      RunKeepsOrder(before, verify);
      AuthenticatedMeansVerified(before, verify, id);
      HandleAuthenticates(Run(before, verify), events[|events| - 1], verify, id);
    }
  }

  predicate IsData(o: Output, id: nat) {
    (o.OnText? && o.id == id) || (o.OnBinary? && o.id == id)
  }

  /** What a step adds to the outputs. */
  predicate Adds(before: seq<Output>, o: Output, after: seq<Output>) {
    exists i :: |before| <= i < |after| && after[i] == o
  }

  lemma AddsOneOf(outputs: seq<Output>, more: seq<Output>, o: Output)
    ensures Adds(outputs, o, outputs + more) <==> o in more
  {
    if o in more {
      var k :| 0 <= k < |more| && more[k] == o;
      assert (outputs + more)[|outputs| + k] == o;
    }
    if Adds(outputs, o, outputs + more) {
      var i :| |outputs| <= i < |outputs + more| && (outputs + more)[i] == o;
      assert more[i - |outputs|] == o;
    }
  }

  lemma ExpectedData(known: iset<nat>, e: Event, verify: string -> bool, o: Output, id: nat)
    requires Expected(known, e, verify, o) && IsData(o, id)
    ensures id in known
  {
  }

  lemma HandleDelivers(s: State, e: Event, verify: string -> bool, o: Output, id: nat)
    requires InOrder(s) && IsData(o, id) && Adds(s.outputs, o, Handle(s, e, verify).outputs)
    ensures IsIn(s.sockets, id)
  {
    if Fits(s.sockets, e) {
      EventBrings(s, e, verify, o);
      ExpectedData(Known(s.sockets), e, verify, o, id);
    } else if e.Connected? {
      AddsOneOf(s.outputs, [Ping(e.id), Text(e.id, "+REQ_AUTH"), OnConnect(e.id), Notify(CONNECT, e.id)], o);
    }
  }

  /** Data is passed on only for a client that was verified earlier. */
  lemma DataOnlyWhenVerified(events: seq<Event>, e: Event, verify: string -> bool, o: Output, id: nat)
    requires Admissible(events, verify) && IsData(o, id)
    requires Adds(Run(events, verify).outputs, o, Handle(Run(events, verify), e, verify).outputs)
    ensures Verified(events, id, verify)
  {
    var s := Run(events, verify);
    RunKeepsOrder(events, verify);
    HandleDelivers(s, e, verify, o, id);
    AuthenticatedMeansVerified(events, verify, id);
  }

  // ---------------------------------------------------------------- start and end

  /** The last of the start and end callbacks was a start. */
  predicate Started(outputs: seq<Output>) {
    |outputs| > 0 &&
    (var last := outputs[|outputs| - 1];
     if last.OnStart? then true else if last.OnEnd? then false else Started(outputs[..|outputs| - 1]))
  }

  /** No start follows a start without an end in between. */
  predicate Alternates(outputs: seq<Output>) {
    |outputs| == 0 ||
    (var before := outputs[..|outputs| - 1];
     Alternates(before) && (outputs[|outputs| - 1].OnStart? ==> !Started(before)))
  }

  lemma {:induction false} WithoutMarker(outputs: seq<Output>, more: seq<Output>)
    requires forall i :: 0 <= i < |more| ==> !more[i].OnStart? && !more[i].OnEnd?
    ensures Started(outputs + more) == Started(outputs)
    ensures Alternates(outputs + more) == Alternates(outputs)
  {
    if |more| == 0 {
      NothingAdded(outputs);
    } else {
      var init := more[..|more| - 1];
      WithoutMarker(outputs, init);
      assert (outputs + more)[..|outputs + more| - 1] == outputs + init;
    }
  }

  /** One marker among other outputs. */
  lemma WithMarker(outputs: seq<Output>, front: seq<Output>, marker: seq<Output>, back: seq<Output>)
    requires forall i :: 0 <= i < |front| ==> !front[i].OnStart? && !front[i].OnEnd?
    requires forall i :: 0 <= i < |back| ==> !back[i].OnStart? && !back[i].OnEnd?
    requires |marker| <= 1 && (|marker| == 1 ==> marker[0].OnStart? || marker[0].OnEnd?)
    ensures Started(outputs + (front + (marker + back))) ==
            if |marker| == 0 then Started(outputs) else marker[0].OnStart?
    ensures Alternates(outputs + (front + (marker + back))) ==
            (Alternates(outputs) && (|marker| == 1 && marker[0].OnStart? ==> !Started(outputs)))
  {
    Assoc(outputs, front, marker + back);
    Assoc(outputs + front, marker, back);
    WithoutMarker(outputs, front);
    WithoutMarker(outputs + front + marker, back);
    if |marker| == 0 {
      NothingAdded(outputs + front);
      assert marker == [];
    } else {
      assert (outputs + front + marker)[..|outputs + front|] == outputs + front;
    }
  }

  /** Started exactly while authenticated clients are connected, and starts and ends alternate. */
  predicate StartedFits(s: State) {
    Alternates(s.outputs) && (Started(s.outputs) <==> Authenticated(s.sockets) > 0)
  }

  lemma DisconnectKeepsStarted(s: State, id: nat, verify: string -> bool)
    requires InOrder(s) && Find(s.sockets, id) < |s.sockets| && StartedFits(s)
    ensures StartedFits(Handle(s, Disconnected(id), verify))
  {
    var i := Find(s.sockets, id);
    var left := s.sockets[i := s.sockets[i].(connected := false)];
    CountReplaced(s.sockets, i, left[i]);
    CountRemoved(left, i);
    WithMarker(s.outputs, [OnDisconnect(id)], StartOrEnd(left, id, false), [Notify(DISCONNECT, id)]);
  }

  lemma AcceptKeepsStarted(s: State, i: nat, id: nat)
    requires InOrder(s) && i < |s.sockets| && !s.sockets[i].authenticated && StartedFits(s)
    ensures StartedFits(Accept(s, i, id))
  {
    var sockets := s.sockets[i := s.sockets[i].(authenticated := true)];
    var back := [Text(id, "+AUTH_OK"), OnAuthenticated(id), Notify(AUTHENTICATED, id)];
    CountReplaced(s.sockets, i, sockets[i]);
    NothingAdded(StartOrEnd(sockets, id, true) + back);
    WithMarker(s.outputs, [], StartOrEnd(sockets, id, true), back);
  }

  lemma DataKeepsStarted(s: State, e: Event, verify: string -> bool)
    requires InOrder(s) && e.Data? && Find(s.sockets, e.id) < |s.sockets| && StartedFits(s)
    ensures StartedFits(Handle(s, e, verify))
  {
    var i := Find(s.sockets, e.id);
    if s.sockets[i].authenticated {
      WithoutMarker(s.outputs, OnData(e.id, e.opcode, e.data));
    } else if Authenticates(e, verify) {
      AcceptKeepsStarted(s, i, e.id);
    } else {
      WithoutMarker(s.outputs, [Text(e.id, "+AUTH_ERROR"), OnErrorAuthenticationFailed(e.id), Close(e.id)]);
    }
  }

  lemma HandleKeepsStarted(s: State, e: Event, verify: string -> bool)
    requires InOrder(s) && Fits(s.sockets, e) && StartedFits(s)
    ensures StartedFits(Handle(s, e, verify))
  {
    match e {
      case Connected(id) =>
        assert (s.sockets + [Socket(id, true, false)])[..|s.sockets|] == s.sockets;
        WithoutMarker(s.outputs, [Ping(id), Text(id, "+REQ_AUTH"), OnConnect(id), Notify(CONNECT, id)]);
      case Disconnected(id) => DisconnectKeepsStarted(s, id, verify);
      case Error(id) => WithoutMarker(s.outputs, [OnErrorFromServer(id)]);
      case Pong(id) => WithoutMarker(s.outputs, [OnPong(id)]);
      case Data(_, _, _, _) => DataKeepsStarted(s, e, verify);
    }
  }

  /** In every run starts and ends alternate; the last is a start exactly while a client is authenticated. */
  lemma {:induction false} StartsAndEnds(events: seq<Event>, verify: string -> bool)
    requires Admissible(events, verify)
    ensures Alternates(Run(events, verify).outputs)
    ensures Started(Run(events, verify).outputs) <==> Authenticated(Run(events, verify).sockets) > 0
  {
    if |events| > 0 {
      var before := events[..|events| - 1];
      RunKeepsOrder(before, verify);
      StartsAndEnds(before, verify);
      HandleKeepsStarted(Run(before, verify), events[|events| - 1], verify);
    }
  }

  /**
   In every run, the next event brings an end that no start belongs to exactly when a client leaves while no
   authenticated client is connected: the start and end callbacks do not come in pairs then, and only then.
   */
  lemma EndWithoutStartExactly(events: seq<Event>, e: Event, verify: string -> bool, id: nat)
    requires Admissible(events + [e], verify)
    ensures var s := Run(events, verify);
            !Started(s.outputs) && Adds(s.outputs, OnEnd(id), Run(events + [e], verify).outputs)
            <==> e == Disconnected(id) && Authenticated(s.sockets) == 0
  {
    assert (events + [e])[..|events|] == events;
    var s := Run(events, verify);
    RunKeepsOrder(events, verify);
    StartsAndEnds(events, verify);
    NobodyIsKnown(s.sockets);
    EventBrings(s, e, verify, OnEnd(id));
  }

  /** The shortest such run: a client that leaves without having been authenticated causes an end. */
  lemma EndWithoutStart(id: nat, verify: string -> bool)
    ensures var events := [Connected(id), Disconnected(id)];
            Admissible(events, verify) && OnEnd(id) in Run(events, verify).outputs &&
            forall o :: o in Run(events, verify).outputs ==> !o.OnStart?
  {
    var events := [Connected(id), Disconnected(id)];
    assert events[..1] == [Connected(id)] && [Connected(id)][..0] == [];
    assert Run([], verify) == State([], []) && Admissible([Connected(id)], verify);
    assert Run([Connected(id)], verify).sockets == [Socket(id, true, false)];
    var left := [Socket(id, false, false)];
    assert Authenticated(left) == 0 by {
      assert left[..0] == [];
    }
    assert StartOrEnd(left, id, false) == [OnEnd(id)];
  }

  // ---------------------------------------------------------------- what every event brings

  /** A client that is not known sends a session id, and there is memory to check it. */
  predicate SendsSid(known: bool, e: Event, id: nat) {
    e.Data? && e.id == id && !known && |e.data| > 10 && "+SID " <= e.data && e.reserved
  }

  predicate SidIsRight(e: Event, verify: string -> bool)
    requires e.Data? && |e.data| > 10
  {
    verify(CString(e.data[5..]))
  }

  /** The session id is what is in front of the first NUL. */
  lemma {:induction false} CStringEndsAtNul(s: string)
    ensures CString(s) <= s && '\0' !in CString(s)
    ensures |CString(s)| < |s| ==> s[|CString(s)|] == '\0'
  {
    if |s| > 0 && s[0] != NUL {
      CStringEndsAtNul(s[1..]);
    }
  }

  /** What an event brings about, by the clients that are known when it comes. */
  ghost predicate Expected(known: iset<nat>, e: Event, verify: string -> bool, o: Output) {
    var right := SendsSid(e.id in known, e, o.id) && SidIsRight(e, verify);
    var wrong := SendsSid(e.id in known, e, o.id) && !SidIsRight(e, verify);
    var passed := e.Data? && e.id == o.id && e.id in known;
    match o
    case Ping(id) => e == Connected(id)
    case Text(id, text) =>
      (text == "+REQ_AUTH" && e == Connected(id)) || (text == "+AUTH_OK" && right) || (text == "+AUTH_ERROR" && wrong)
    case Close(_) => wrong
    case OnConnect(id) => e == Connected(id)
    case OnDisconnect(id) => e == Disconnected(id)
    case OnErrorFromServer(id) => e == Error(id)
    case OnErrorAuthenticationFailed(_) => wrong
    case OnPong(id) => e == Pong(id)
    case OnText(_, data) => passed && e.opcode == WS_TEXT && e.data == data
    case OnBinary(_, data) => passed && e.opcode == WS_BINARY && e.data == data
    case OnAuthenticated(_) => right
    case OnStart(_) => right && forall k :: k !in known
    case OnEnd(id) => e == Disconnected(id) && forall k :: k != id ==> k !in known
    case Notify(CONNECT, id) => e == Connected(id)
    case Notify(AUTHENTICATED, _) => right
    case Notify(DISCONNECT, id) => e == Disconnected(id)
  }

  ghost function Known(sockets: seq<Socket>): iset<nat> { iset k | IsIn(sockets, k) }

  ghost function VerifiedBy(events: seq<Event>, verify: string -> bool): iset<nat> {
    iset k | Verified(events, k, verify)
  }

  lemma {:induction false} NobodyCounts(sockets: seq<Socket>)
    ensures Authenticated(sockets) == 0 <==> forall i :: 0 <= i < |sockets| ==> !Counts(sockets[i])
  {
    if |sockets| > 0 {
      NobodyCounts(sockets[..|sockets| - 1]);
      if Authenticated(sockets) == 0 {
        forall i | 0 <= i < |sockets| ensures !Counts(sockets[i]) {
          assert i < |sockets| - 1 ==> sockets[..|sockets| - 1][i] == sockets[i];
        }
      }
    }
  }

  lemma NobodyElseCounts(sockets: seq<Socket>, i: nat)
    requires i < |sockets| && Distinct(sockets) && forall j :: 0 <= j < |sockets| ==> sockets[j].connected
    ensures Authenticated(sockets[i := sockets[i].(connected := false)]) == 0
            <==> forall k :: k != sockets[i].id ==> k !in Known(sockets)
  {
    var left := sockets[i := sockets[i].(connected := false)];
    NobodyCounts(left);
    if Authenticated(left) == 0 {
      forall k | k != sockets[i].id ensures k !in Known(sockets) {
        assert forall j :: 0 <= j < |sockets| && j != i ==> left[j] == sockets[j] && !Counts(left[j]);
      }
    } else {
      var j :| 0 <= j < |left| && Counts(left[j]);
      assert left[j] == sockets[j] && sockets[j].id in Known(sockets) && j != i;
    }
  }

  lemma NobodyIsKnown(sockets: seq<Socket>)
    requires forall j :: 0 <= j < |sockets| ==> sockets[j].connected
    ensures Authenticated(sockets) == 0 <==> forall k :: k !in Known(sockets)
  {
    NobodyCounts(sockets);
    if Authenticated(sockets) > 0 {
      var j :| 0 <= j < |sockets| && Counts(sockets[j]);
      assert sockets[j].id in Known(sockets);
    }
  }

  lemma InThree(front: seq<Output>, middle: seq<Output>, back: seq<Output>, o: Output)
    ensures o in front + (middle + back) <==> o in front || o in middle || o in back
  {
  }

  lemma ExpectedOfDisconnect(known: iset<nat>, id: nat, verify: string -> bool, o: Output)
    ensures Expected(known, Disconnected(id), verify, o) <==>
            o in [OnDisconnect(id)] || o in [Notify(DISCONNECT, id)] ||
            (o == OnEnd(id) && forall k :: k != id ==> k !in known)
  {
  }

  lemma DisconnectBrings(s: State, id: nat, verify: string -> bool, o: Output)
    requires InOrder(s) && Find(s.sockets, id) < |s.sockets|
    ensures Adds(s.outputs, o, Handle(s, Disconnected(id), verify).outputs)
            <==> Expected(Known(s.sockets), Disconnected(id), verify, o)
  {
    var i := Find(s.sockets, id);
    var left := s.sockets[i := s.sockets[i].(connected := false)];
    var front, callback, back := [OnDisconnect(id)], StartOrEnd(left, id, false), [Notify(DISCONNECT, id)];
    NobodyElseCounts(s.sockets, i);
    AddsOneOf(s.outputs, front + (callback + back), o);
    InThree(front, callback, back, o);
    ExpectedOfDisconnect(Known(s.sockets), id, verify, o);
  }

  lemma ExpectedOfSid(known: iset<nat>, e: Event, verify: string -> bool, o: Output)
    requires SendsSid(e.id in known, e, e.id)
    ensures var id := e.id;
            Expected(known, e, verify, o) <==>
            if SidIsRight(e, verify)
            then (o == OnStart(id) && forall k :: k !in known) ||
                 o in [Text(id, "+AUTH_OK"), OnAuthenticated(id), Notify(AUTHENTICATED, id)]
            else o in [Text(id, "+AUTH_ERROR"), OnErrorAuthenticationFailed(id), Close(id)]
  {
  }

  lemma AcceptBrings(s: State, i: nat, e: Event, verify: string -> bool, o: Output)
    requires InOrder(s) && i == Find(s.sockets, e.id) < |s.sockets| && !s.sockets[i].authenticated
    requires SendsSid(false, e, e.id) && SidIsRight(e, verify)
    ensures Adds(s.outputs, o, Accept(s, i, e.id).outputs) <==> Expected(Known(s.sockets), e, verify, o)
  {
    var now := s.sockets[i := s.sockets[i].(authenticated := true)];
    CountReplaced(s.sockets, i, now[i]);
    NobodyIsKnown(s.sockets);
    IsInMeansAuthenticated(s.sockets, e.id);
    AddsOneOf(s.outputs, StartOrEnd(now, e.id, true)
                         + [Text(e.id, "+AUTH_OK"), OnAuthenticated(e.id), Notify(AUTHENTICATED, e.id)], o);
    ExpectedOfSid(Known(s.sockets), e, verify, o);
  }

  lemma DataBrings(s: State, e: Event, verify: string -> bool, o: Output)
    requires InOrder(s) && e.Data? && Find(s.sockets, e.id) < |s.sockets|
    ensures Adds(s.outputs, o, Handle(s, e, verify).outputs) <==> Expected(Known(s.sockets), e, verify, o)
  {
    var i := Find(s.sockets, e.id);
    IsInMeansAuthenticated(s.sockets, e.id);
    NothingAdded(s.outputs);
    if s.sockets[i].authenticated {
      AddsOneOf(s.outputs, OnData(e.id, e.opcode, e.data), o);
    } else if SendsSid(false, e, e.id) {
      if SidIsRight(e, verify) {
        AcceptBrings(s, i, e, verify, o);
      } else {
        AddsOneOf(s.outputs, [Text(e.id, "+AUTH_ERROR"), OnErrorAuthenticationFailed(e.id), Close(e.id)], o);
        ExpectedOfSid(Known(s.sockets), e, verify, o);
      }
    } else {
      AddsOneOf(s.outputs, [], o);
    }
  }

  lemma EventBrings(s: State, e: Event, verify: string -> bool, o: Output)
    requires InOrder(s) && Fits(s.sockets, e)
    ensures Adds(s.outputs, o, Handle(s, e, verify).outputs) <==> Expected(Known(s.sockets), e, verify, o)
  {
    match e {
      case Connected(id) =>
        AddsOneOf(s.outputs, [Ping(id), Text(id, "+REQ_AUTH"), OnConnect(id), Notify(CONNECT, id)], o);
      case Disconnected(id) => DisconnectBrings(s, id, verify, o);
      case Error(id) => AddsOneOf(s.outputs, [OnErrorFromServer(id)], o);
      case Pong(id) => AddsOneOf(s.outputs, [OnPong(id)], o);
      case Data(_, _, _, _) => DataBrings(s, e, verify, o);
    }
  }

  /**
   In every run, an event sends and calls exactly what the history says: known are the clients that were verified
   since they connected. Data of a known client is passed on by its type, with its payload; the first verified client
   brings a start, and a client that leaves no other known one brings an end.
   */
  lemma OutputsExactly(events: seq<Event>, e: Event, verify: string -> bool, o: Output)
    requires Admissible(events + [e], verify)
    ensures Adds(Run(events, verify).outputs, o, Run(events + [e], verify).outputs)
            <==> Expected(VerifiedBy(events, verify), e, verify, o)
  {
    assert (events + [e])[..|events|] == events;
    var s := Run(events, verify);
    RunKeepsOrder(events, verify);
    EventBrings(s, e, verify, o);
    forall k ensures k in Known(s.sockets) <==> k in VerifiedBy(events, verify) {
      AuthenticatedMeansVerified(events, verify, k);
    }
    assert Known(s.sockets) == VerifiedBy(events, verify);
  }
}
