/**
 The acknowledgement-driven response engine of src/async_web_response.cpp.
 `Step` says what one acknowledgement does; class AsyncBaseResponse does it in place,
 building head, chunk header, data and trailer in one allocation.
 */
module ResponseEngine {
  import opened Util
  import opened ChunkedCoding

  const SIZE_T: nat := 0x1_0000_0000  // size_t is 32 bits wide

  datatype Phase = Headers | Content | WaitAck | End | Failed

  datatype Framing = Chunked | UntilClose | ContentLength(total: nat)

  /** What a producer answers when offered a buffer. */
  datatype Fill = TryAgain | Data(bytes: string)

  /** `head` is the part of the header block that has not been handed to the client yet. */
  datatype Response = Response(phase: Phase, framing: Framing, head: string, sent: nat, written: nat, acked: nat)

  datatype AckEvent = AckEvent(acked: nat, space: nat, sourceValid: bool, fill: Fill)

  function SizeT(x: int): nat { if 0 <= x < SIZE_T then x else x % SIZE_T }

  /** Space left behind the pending head, in the wrap-around arithmetic of size_t. */
  function Window(r: Response, space: nat): nat { SizeT(space - |r.head|) }

  /** The phase in which the content branch is decided. */
  function Entered(r: Response, space: nat): Phase {
    if r.phase == Headers && space > |r.head| then Content else r.phase
  }

  /** Whether this acknowledgement reaches the call of the producer. */
  predicate AsksProducer(r: Response, sourceValid: bool, space: nat) {
    sourceValid && Entered(r, space) == Content && (r.framing.Chunked? ==> Window(r, space) > 8)
  }

  /** The buffer size the producer is offered. */
  function Offered(r: Response, space: nat): nat {
    var w := Window(r, space);
    match r.framing
    case Chunked => if w > 8 then w - 8 else 0
    case UntilClose => w
    case ContentLength(total) => Min(w, SizeT(total - r.sent))
  }

  function Coded(framing: Framing, data: string): string {
    if framing.Chunked? then Chunk(data) else data
  }

  /** What a client with that much space takes of what it is handed. */
  function Accepted(out: string, space: nat): (taken: string)
    ensures |taken| <= space
  {
    if |out| <= space then out else out[..space]
  }

  /** Hands the pending head and one answer to a client that takes all of it; an empty answer ends the content. */
  function Deliver(r: Response, data: string): (Response, string) {
    var out := r.head + Coded(r.framing, data);
    (r.(head := "", sent := r.sent + |data|, written := r.written + |out|,
        phase := if |data| == 0 then WaitAck else Content),
     out)
  }

  /** The same for a client that takes no more than it has space for: the head is gone all the same. */
  function DeliverInto(r: Response, data: string, space: nat): (Response, string) {
    var (r', out) := Deliver(r, data);
    (r'.(written := r.written + |Accepted(out, space)|), Accepted(out, space))
  }

  /** The content branch of an acknowledgement. */
  function Answered(r: Response, space: nat, fill: Fill): (Response, string) {
    if AsksProducer(r, true, space) && fill.Data? then DeliverInto(r, fill.bytes, space) else (r, "")
  }

  /** What follows from the phase, with some space and the answer of the producer, if it is asked. */
  function Proceeded(r: Response, space: nat, fill: Fill): (Response, string) {
    var r := r.(phase := Entered(r, space));
    match r.phase
    case Headers =>
      (r.(head := r.head[Min(space, |r.head|)..], written := r.written + Min(space, |r.head|)),
       r.head[..Min(space, |r.head|)])
    case Content => Answered(r, space, fill)
    case WaitAck => (if !r.framing.ContentLength? || r.acked >= r.written then r.(phase := End) else r, "")
    case _ => (r, "")
  }

  /** The new state, and the bytes the client takes. */
  function Step(r: Response, ev: AckEvent): (Response, string) {
    if !ev.sourceValid then (r.(phase := Failed), "")
    else Proceeded(r.(acked := r.acked + ev.acked), ev.space, ev.fill)
  }

  /** What a producer may answer: never more than offered, and at most 0xffff bytes when chunked. */
  predicate FillAllowed(framing: Framing, fill: Fill, offered: nat) {
    fill.Data? ==> |fill.bytes| <= offered && (framing.Chunked? ==> |fill.bytes| <= 0xffff)
  }

  /** Whether this acknowledgement takes an answer from the producer. */
  predicate TakesFill(r: Response, ev: AckEvent) {
    AsksProducer(r, ev.sourceValid, ev.space) && ev.fill.Data?
  }

  /** How many bytes an acknowledgement hands to the client: what `_ack` returns. */
  function Handed(r: Response, ev: AckEvent): nat {
    if TakesFill(r, ev) then |r.head + Coded(r.framing, ev.fill.bytes)|
    else if ev.sourceValid && Entered(r, ev.space) == Headers then ev.space
    else 0
  }

  /** What the producer and the counters keep to. */
  predicate Sound(r: Response, ev: AckEvent) {
    && ev.space < SIZE_T && |r.head| < SIZE_T
    && (r.framing.ContentLength? ==> r.framing.total < SIZE_T)
    && (AsksProducer(r, ev.sourceValid, ev.space) ==> FillAllowed(r.framing, ev.fill, Offered(r, ev.space)))
  }

  /** No more content has been sent than was announced. */
  predicate WithinTotal(r: Response) { r.framing.ContentLength? ==> r.sent <= r.framing.total }

  /** Once content has begun the pending head still fits, or else the framing is by content length. */
  predicate Defined(r: Response, ev: AckEvent) {
    Sound(r, ev) && (r.phase == Content && !r.framing.ContentLength? ==> |r.head| <= ev.space)
  }

  /** The environment the engine is built for: a pending head still fits once content has begun. */
  predicate Admissible(r: Response, ev: AckEvent) {
    Sound(r, ev) && (r.phase == Content ==> |r.head| <= ev.space)
  }

  /** What is handed to the client fits its space, so that none of it is lost, exactly when the pending head does. */
  lemma OutputFitsExactlyWithHead(r: Response, ev: AckEvent)
    requires Sound(r, ev) && TakesFill(r, ev)
    ensures |r.head + Coded(r.framing, ev.fill.bytes)| <= ev.space <==> |r.head| <= ev.space
  {
    if |r.head| <= ev.space {
      HexLength(|ev.fill.bytes|);
    }
  }

  /**
   The producer's window lies inside the allocation exactly when the pending head fits the space:
   the allocation is outLen + headLen bytes (in size_t), the window starts 6 + headLen bytes into it.
   */
  lemma ChunkWindowInBounds(headLen: nat, space: nat)
    requires headLen < SIZE_T && space < SIZE_T
    requires SizeT(space - headLen) > 8
    ensures var outLen := SizeT(space - headLen);
            6 + headLen + (outLen - 8) <= SizeT(outLen + headLen) <==> headLen <= space
  {
    if headLen <= space {
      assert SizeT(space - headLen) == space - headLen;
    } else {
      assert SizeT(space - headLen) == space - headLen + SIZE_T;
    }
  }

  /** The chunk header fits the six bytes reserved for it exactly when the fill is at most 0xffff bytes. */
  lemma ChunkHeaderFits(readLen: nat)
    ensures 3 <= |Hex(readLen) + CRLF|
    ensures |Hex(readLen) + CRLF| <= 6 <==> readLen <= 0xffff
  {
    HexLength(readLen);
  }

  // ---------------------------------------------------------------- runs

  /** A run so far: the state, everything the client took, and the answers taken from the producer. */
  datatype Trace = Trace(resp: Response, wire: string, fills: seq<string>)

  function Start(framing: Framing, head: string): Trace {
    Trace(Response(Headers, framing, head, 0, 0, 0), "", [])
  }

  function Advance(t: Trace, ev: AckEvent): Trace {
    var (r, out) := Step(t.resp, ev);
    Trace(r, t.wire + out, if TakesFill(t.resp, ev) then t.fills + [ev.fill.bytes] else t.fills)
  }

  function Run(t: Trace, evs: seq<AckEvent>): Trace
    decreases |evs|
  {
    if |evs| == 0 then t else Run(Advance(t, evs[0]), evs[1..])
  }

  /**
   Outside such runs the code loses bytes the client has no space for and, unless a content length bounds what is
   allocated, writes past its allocation.
   */
  predicate AdmissibleRun(t: Trace, evs: seq<AckEvent>)
    decreases |evs|
  {
    |evs| > 0 ==> Admissible(t.resp, evs[0]) && AdmissibleRun(Advance(t, evs[0]), evs[1..])
  }

  function CodedAll(framing: Framing, fills: seq<string>): string {
    if framing.Chunked? then Chunks(fills) else Flatten(fills)
  }

  ghost predicate AllNonEmpty(fills: seq<string>) {
    forall i :: 0 <= i < |fills| ==> |fills[i]| > 0
  }

  /** Every answer but the last is non-empty. */
  ghost predicate OnlyLastEmpty(fills: seq<string>) {
    |fills| > 0 ==> AllNonEmpty(fills[..|fills| - 1])
  }

  /** Holds at every point of every run that began with `head`. */
  ghost predicate Accounted(t: Trace, head: string) {
    && t.wire + t.resp.head == head + CodedAll(t.resp.framing, t.fills)
    && |t.resp.head| <= |head|
    && t.resp.written == |t.wire|
    && t.resp.sent == |Flatten(t.fills)|
    && (|t.fills| > 0 ==> |t.resp.head| == 0)
    && OnlyLastEmpty(t.fills)
    && (t.resp.phase == Headers ==> |t.fills| == 0)
    && (t.resp.phase == Content ==> AllNonEmpty(t.fills))
    && (t.resp.phase in {WaitAck, End} ==> |t.fills| > 0 && |t.fills[|t.fills| - 1]| == 0)
  }

  lemma CodedAllSnoc(framing: Framing, fills: seq<string>, data: string)
    ensures CodedAll(framing, fills + [data]) == CodedAll(framing, fills) + Coded(framing, data)
  {
    ChunksSnoc(fills, data);
    FlattenSnoc(fills, data);
  }

  lemma FillStep(r: Response, ev: AckEvent)
    requires Admissible(r, ev) && TakesFill(r, ev)
    ensures Step(r, ev) == Deliver(r.(acked := r.acked + ev.acked, phase := Content), ev.fill.bytes)
  {
    OutputFitsExactlyWithHead(r, ev);
  }

  lemma FillKeepsAccounted(t: Trace, ev: AckEvent, head: string)
    requires Accounted(t, head) && Admissible(t.resp, ev) && TakesFill(t.resp, ev)
    ensures Accounted(Advance(t, ev), head)
  {
    FillStep(t.resp, ev);
    var d := ev.fill.bytes;
    var t' := Advance(t, ev);
    CodedAllSnoc(t.resp.framing, t.fills, d);
    FlattenSnoc(t.fills, d);
    assert t'.fills == t.fills + [d] && t'.fills[..|t'.fills| - 1] == t.fills;
    Assoc(t.wire, t.resp.head, Coded(t.resp.framing, d));
    Assoc(head, CodedAll(t.resp.framing, t.fills), Coded(t.resp.framing, d));
    NothingAdded(t'.wire);
  }

  lemma HeadKeepsAccounted(t: Trace, ev: AckEvent, head: string)
    requires Accounted(t, head) && ev.sourceValid && Entered(t.resp, ev.space) == Headers
    ensures Accounted(Advance(t, ev), head)
  {
    var t' := Advance(t, ev);
    var k := Min(ev.space, |t.resp.head|);
    assert t.resp.head[..k] + t.resp.head[k..] == t.resp.head;
    Assoc(t.wire, t.resp.head[..k], t.resp.head[k..]);
  }

  /** A step that neither takes an answer nor writes head bytes only moves the phase along. */
  lemma QuietStep(r: Response, ev: AckEvent)
    requires !TakesFill(r, ev)
    requires ev.sourceValid ==> Entered(r, ev.space) != Headers
    ensures var (r', out) := Step(r, ev);
            && |out| == 0
            && r' == r.(acked := r'.acked, phase := r'.phase)
            && (r'.phase == r.phase || r'.phase == Failed
                || (r.phase == Headers && r'.phase == Content) || (r.phase == WaitAck && r'.phase == End))
  {
  }

  lemma QuietKeepsAccounted(t: Trace, ev: AckEvent, head: string)
    requires Accounted(t, head) && !TakesFill(t.resp, ev)
    requires ev.sourceValid ==> Entered(t.resp, ev.space) != Headers
    ensures Accounted(Advance(t, ev), head)
  {
    QuietStep(t.resp, ev);
    var (r, out) := Step(t.resp, ev);
    assert t.wire + out == t.wire;
    assert Advance(t, ev) == Trace(r, t.wire, t.fills);
  }

  lemma AdvanceKeepsAccounted(t: Trace, ev: AckEvent, head: string)
    requires Accounted(t, head) && Admissible(t.resp, ev)
    ensures Accounted(Advance(t, ev), head)
  {
    if TakesFill(t.resp, ev) {
      FillKeepsAccounted(t, ev, head);
    } else if ev.sourceValid && Entered(t.resp, ev.space) == Headers {
      HeadKeepsAccounted(t, ev, head);
    } else {
      QuietKeepsAccounted(t, ev, head);
    }
  }

  lemma {:induction false} RunKeepsAccounted(t: Trace, evs: seq<AckEvent>, head: string)
    requires Accounted(t, head) && AdmissibleRun(t, evs)
    ensures Accounted(Run(t, evs), head)
    decreases |evs|
  {
    if |evs| > 0 {
      AdvanceKeepsAccounted(t, evs[0], head);
      RunKeepsAccounted(Advance(t, evs[0]), evs[1..], head);
    }
  }

  lemma {:induction false} RunKeepsFraming(t: Trace, evs: seq<AckEvent>)
    ensures Run(t, evs).resp.framing == t.resp.framing
    decreases |evs|
  {
    if |evs| > 0 {
      RunKeepsFraming(Advance(t, evs[0]), evs[1..]);
    }
  }

  lemma RunIsAccounted(framing: Framing, head: string, evs: seq<AckEvent>)
    requires AdmissibleRun(Start(framing, head), evs)
    ensures Accounted(Run(Start(framing, head), evs), head)
    ensures Run(Start(framing, head), evs).resp.framing == framing
  {
    NothingAdded(head);
    RunKeepsAccounted(Start(framing, head), evs, head);
    RunKeepsFraming(Start(framing, head), evs);
  }

  /**
   At every point of every run, what is on the wire is a prefix of the head, sent once, followed by the coded
   answers in order; once a byte of content is out, nothing of the head is pending.
   */
  lemma WireIsHeadThenContent(framing: Framing, head: string, evs: seq<AckEvent>)
    requires AdmissibleRun(Start(framing, head), evs)
    ensures var t := Run(Start(framing, head), evs);
            && t.wire <= head + CodedAll(framing, t.fills)
            && (|t.fills| > 0 ==> t.wire == head + CodedAll(framing, t.fills))
            && t.resp.sent == |Flatten(t.fills)|
            && t.resp.written == |t.wire|
  {
    RunIsAccounted(framing, head, evs);
    var t := Run(Start(framing, head), evs);
    NothingAdded(t.wire);
  }

  lemma PrefixAndRest(wire: string, pending: string, head: string, content: string)
    requires wire + pending == head + content && |pending| == 0
    ensures head <= wire && wire[|head|..] == content
  {
    NothingAdded(wire);
  }

  lemma CompleteBodyDecodes(t: Trace, head: string)
    requires Accounted(t, head) && t.resp.framing == Chunked && t.resp.phase in {WaitAck, End}
    ensures head <= t.wire && Dechunk(t.wire[|head|..]) == Some(Decoded(Flatten(t.fills), ""))
  {
    PrefixAndRest(t.wire, t.resp.head, head, Chunks(t.fills));
    DechunkInvertsFills(t.fills);
  }

  lemma IncompleteBodyIsRejected(t: Trace, head: string, seen: string)
    requires Accounted(t, head) && t.resp.framing == Chunked && t.resp.phase in {Headers, Content}
    requires head <= t.wire && seen <= t.wire[|head|..]
    ensures Dechunk(seen).None?
  {
    var body := Chunks(t.fills);
    assert |t.wire| <= |head + body| && t.wire == (head + body)[..|t.wire|];
    assert seen == body[..|seen|];
    assert |Chunk("")| > 0;
    assert seen == (body + Chunk(""))[..|seen|];
    DechunkRejectsTruncation(t.fills, seen);
  }

  /**
   On reaching WAIT_ACK the chunked body on the wire decodes to everything the producer gave, with nothing behind
   the last chunk. Before that, a receiver shown any part of the body cannot take it for a complete one.
   */
  lemma ChunkedBodyDecodes(head: string, evs: seq<AckEvent>)
    requires AdmissibleRun(Start(Chunked, head), evs)
    ensures var t := Run(Start(Chunked, head), evs);
            && (t.resp.phase in {WaitAck, End} ==>
                  head <= t.wire && Dechunk(t.wire[|head|..]) == Some(Decoded(Flatten(t.fills), "")))
            && (t.resp.phase in {Headers, Content} && head <= t.wire ==>
                  forall seen | seen <= t.wire[|head|..] :: Dechunk(seen).None?)
  {
    RunIsAccounted(Chunked, head, evs);
    var t := Run(Start(Chunked, head), evs);
    if t.resp.phase in {WaitAck, End} {
      CompleteBodyDecodes(t, head);
    } else if t.resp.phase in {Headers, Content} && head <= t.wire {
      forall seen | seen <= t.wire[|head|..]
        ensures Dechunk(seen).None?
      {
        IncompleteBodyIsRejected(t, head, seen);
      }
    }
  }

  /**
   Without chunking the empty answer is also what a zero-sized offer produces: content ends at an acknowledgement
   exactly when the producer has nothing left or the window is closed, even if content remains.
   */
  lemma IdentityEndsOnClosedWindow(r: Response, ev: AckEvent, remaining: nat)
    requires !r.framing.Chunked? && Admissible(r, ev) && AsksProducer(r, ev.sourceValid, ev.space)
    requires r.framing.ContentLength? ==> remaining == r.framing.total - r.sent
    requires ev.fill.Data? && |ev.fill.bytes| == Min(remaining, Offered(r, ev.space))
    ensures Step(r, ev).0.phase == WaitAck <==> remaining == 0 || ev.space == |r.head|
  {
  }

  /** Whatever the producer has left: a buffer is never longer than what is still to be sent. */
  lemma StepStaysWithinTotal(r: Response, ev: AckEvent)
    requires Sound(r, ev) && WithinTotal(r)
    ensures WithinTotal(Step(r, ev).0)
  {
  }

  /** In no run is more content sent than its length announces. */
  lemma {:induction false} NeverMoreThanAnnounced(t: Trace, evs: seq<AckEvent>, head: string)
    requires Accounted(t, head) && WithinTotal(t.resp) && AdmissibleRun(t, evs)
    ensures var r := Run(t, evs); r.resp.framing.ContentLength? ==> |Flatten(r.fills)| <= r.resp.framing.total
    decreases |evs|
  {
    if |evs| > 0 {
      StepStaysWithinTotal(t.resp, evs[0]);
      AdvanceKeepsAccounted(t, evs[0], head);
      NeverMoreThanAnnounced(Advance(t, evs[0]), evs[1..], head);
    }
  }

  /** Whether an acknowledgement closes the connection. */
  predicate Closes(r: Response, sourceValid: bool) { !sourceValid || (r.phase == WaitAck && r.framing.UntilClose?) }

  // ---------------------------------------------------------------- the phases of a run

  predicate AllValid(evs: seq<AckEvent>) {
    |evs| == 0 || (evs[0].sourceValid && AllValid(evs[1..]))
  }

  function Acked(evs: seq<AckEvent>): nat {
    if |evs| == 0 then 0 else evs[0].acked + Acked(evs[1..])
  }

  /** All the space there has been. */
  function Spaces(evs: seq<AckEvent>): nat {
    if |evs| == 0 then 0 else evs[0].space + Spaces(evs[1..])
  }

  /** A response fails exactly when its source does, and it stays failed. */
  lemma {:induction false} FailedExactly(t: Trace, evs: seq<AckEvent>)
    ensures Run(t, evs).resp.phase == Failed <==> t.resp.phase == Failed || !AllValid(evs)
    decreases |evs|
  {
    if |evs| > 0 {
      FailedExactly(Advance(t, evs[0]), evs[1..]);
    }
  }

  lemma {:induction false} AckedIsCounted(t: Trace, evs: seq<AckEvent>)
    requires AllValid(evs)
    ensures Run(t, evs).resp.acked == t.resp.acked + Acked(evs)
    decreases |evs|
  {
    if |evs| > 0 {
      AckedIsCounted(Advance(t, evs[0]), evs[1..]);
    }
  }

  /** The head goes out alone as long as there has not been more space than it is long. */
  lemma {:induction false} HeadersExactly(t: Trace, evs: seq<AckEvent>)
    requires t.resp.phase == Headers && AllValid(evs)
    ensures Run(t, evs).resp.phase == Headers <==> Spaces(evs) <= |t.resp.head|
    ensures Spaces(evs) <= |t.resp.head| ==> Run(t, evs).wire == t.wire + t.resp.head[..Spaces(evs)]
    decreases |evs|
  {
    NothingAdded(t.wire);
    if |evs| > 0 {
      var ev, head := evs[0], t.resp.head;
      if ev.space <= |head| {
        HeadersExactly(Advance(t, ev), evs[1..]);
        if Spaces(evs) <= |head| {
          TwoParts(head, ev.space, Spaces(evs));
          Assoc(t.wire, head[..ev.space], head[ev.space..][..Spaces(evs[1..])]);
        }
      } else {
        NoWayBack(Advance(t, ev), evs[1..]);
      }
    }
  }

  lemma TwoParts<T>(s: seq<T>, a: nat, b: nat)
    requires a <= b <= |s|
    ensures s[..b] == s[..a] + s[a..][..b - a]
  {
  }

  lemma {:induction false} NoWayBack(t: Trace, evs: seq<AckEvent>)
    requires t.resp.phase != Headers
    ensures Run(t, evs).resp.phase != Headers
    decreases |evs|
  {
    if |evs| > 0 {
      NoWayBack(Advance(t, evs[0]), evs[1..]);
    }
  }

  /** A response waiting for the last acknowledgement ends with the next one exactly when all bytes are acknowledged. */
  lemma EndExactly(framing: Framing, head: string, evs: seq<AckEvent>, ev: AckEvent)
    requires AdmissibleRun(Start(framing, head), evs) && ev.sourceValid
    requires Run(Start(framing, head), evs).resp.phase == WaitAck
    ensures var t := Run(Start(framing, head), evs);
            Advance(t, ev).resp.phase == End <==> !framing.ContentLength? || Acked(evs) + ev.acked >= |t.wire|
  {
    RunIsAccounted(framing, head, evs);
    FailedExactly(Start(framing, head), evs);
    AckedIsCounted(Start(framing, head), evs);
  }

  lemma {:induction false} EndIsCounted(t: Trace, evs: seq<AckEvent>)
    requires t.resp.phase == End && t.resp.framing.ContentLength? ==> t.resp.acked >= t.resp.written
    ensures var r := Run(t, evs).resp; r.phase == End && r.framing.ContentLength? ==> r.acked >= r.written
    decreases |evs|
  {
    if |evs| > 0 {
      EndIsCounted(Advance(t, evs[0]), evs[1..]);
    }
  }

  /** With a content length, a response that has ended has been acknowledged as a whole. */
  lemma EndMeansAcknowledged(framing: Framing, head: string, evs: seq<AckEvent>)
    requires AdmissibleRun(Start(framing, head), evs)
    ensures var t := Run(Start(framing, head), evs);
            t.resp.phase == End && framing.ContentLength? ==> Acked(evs) >= |t.wire|
  {
    RunIsAccounted(framing, head, evs);
    FailedExactly(Start(framing, head), evs);
    EndIsCounted(Start(framing, head), evs);
    if AllValid(evs) {
      AckedIsCounted(Start(framing, head), evs);
    }
  }

  predicate ClosedIn(t: Trace, evs: seq<AckEvent>)
    decreases |evs|
  {
    |evs| > 0 && (Closes(t.resp, evs[0].sourceValid) || ClosedIn(Advance(t, evs[0]), evs[1..]))
  }

  /** The connection has been closed exactly when the response failed, or ended where only that shows its end. */
  lemma {:induction false} ClosedExactly(t: Trace, evs: seq<AckEvent>)
    requires t.resp.phase in {Headers, Content, WaitAck}
    ensures var r := Run(t, evs).resp;
            ClosedIn(t, evs) <==> r.phase == Failed || (r.phase == End && r.framing.UntilClose?)
    decreases |evs|
  {
    if |evs| > 0 {
      var next := Advance(t, evs[0]);
      if next.resp.phase == End {
        StaysEnded(next, evs[1..]);
      } else if next.resp.phase == Failed {
        FailedExactly(next, evs[1..]);
      } else {
        ClosedExactly(next, evs[1..]);
      }
    }
  }

  lemma {:induction false} StaysEnded(t: Trace, evs: seq<AckEvent>)
    requires t.resp.phase == End
    ensures var r := Run(t, evs).resp;
            r.framing == t.resp.framing && (if AllValid(evs) then r.phase == End else r.phase == Failed)
    ensures ClosedIn(t, evs) <==> !AllValid(evs)
    decreases |evs|
  {
    if |evs| > 0 {
      if evs[0].sourceValid {
        StaysEnded(Advance(t, evs[0]), evs[1..]);
      } else {
        FailedExactly(Advance(t, evs[0]), evs[1..]);
        RunKeepsFraming(t, evs);
      }
    }
  }

  /** One acknowledgement of `acked` bytes while the client has `space` bytes free. */
  datatype Poll = Poll(acked: nat, space: nat)

  lemma OneMoreFill(fills: seq<string>, bytes: string, remaining: string)
    ensures Flatten(fills + [bytes]) + remaining == Flatten(fills) + (bytes + remaining)
  {
    FlattenSnoc(fills, bytes);
    Assoc(Flatten(fills), bytes, remaining);
  }

  // ---------------------------------------------------------------- the class

  /** The TCP connection: it takes as much as it has space for. */
  class TcpClient {
    var wire: string
    var space: nat
    var closed: bool

    constructor (space: nat)
      ensures |wire| == 0 && this.space == space && !closed
    {
      wire, this.space, closed := "", space, false;
    }

    method Close()
      modifies `closed
      ensures closed
    {
      closed := true;
    }

    method Write(data: string) returns (n: nat)
      modifies `wire, `space
      ensures n == |Accepted(data, old(space))|
      ensures wire == old(wire) + Accepted(data, old(space)) && space == old(space) - n
    {
      var taken := Accepted(data, space);
      n := |taken|;
      wire, space := wire + taken, space - n;
    }
  }

  /** memcpy into `buf` at `at`. */
  method CopyInto(buf: array<char>, at: nat, data: string)
    requires at + |data| <= buf.Length
    modifies buf
    ensures buf[..at] == old(buf[..at])
    ensures buf[at..at + |data|] == data
    ensures buf[at + |data|..] == old(buf[at + |data|..])
  {
    for i := 0 to |data|
      invariant buf[..at] == old(buf[..at])
      invariant buf[at..at + i] == data[..i]
      invariant buf[at + |data|..] == old(buf[at + |data|..])
    {
      buf[at + i] := data[i];
    }
  }

  lemma DropTake<T>(s: seq<T>, at: nat, n: nat)
    requires at + n <= |s|
    ensures s[at..at + n] == s[at..][..n]
  {
  }

  lemma TwoSlices<T>(s: seq<T>, a: nat, b: nat, c: nat)
    requires a <= b <= c <= |s|
    ensures s[a..c] == s[a..b] + s[b..c]
  {
  }

  /** What is acknowledged only matters when everything has been sent. */
  lemma CountAcked(r: Response, ev: AckEvent) returns (r': Response, ev': AckEvent)
    requires ev.sourceValid && Defined(r, ev)
    ensures r' == r.(acked := r.acked + ev.acked) && ev' == ev.(acked := 0)
    ensures Defined(r', ev') && Offered(r', ev'.space) == Offered(r, ev.space)
    ensures Step(r, ev) == Proceeded(r', ev'.space, ev'.fill) && Handed(r, ev) == Handed(r', ev')
  {
    r', ev' := r.(acked := r.acked + ev.acked), ev.(acked := 0);
  }

  class AsyncBaseResponse {
    var state: Phase
    var head: string
    const framing: Framing
    var sentLength: nat
    var writtenLength: nat
    var ackedLength: nat

    ghost function Model(): Response
      reads this
    {
      Response(state, framing, head, sentLength, writtenLength, ackedLength)
    }

    constructor (framing: Framing, head: string)
      ensures Model() == Start(framing, head).resp
    {
      this.framing, this.head, state := framing, head, Headers;
      sentLength, writtenLength, ackedLength := 0, 0, 0;
    }

    /** One acknowledgement; `fill` is the producer, called with the size of the buffer it is offered. */
    method Ack(client: TcpClient, len: nat, sourceValid: bool, fill: nat -> Fill) returns (n: nat)
      requires WithinTotal(Model())
      requires Defined(Model(), AckEvent(len, client.space, sourceValid, fill(Offered(Model(), client.space))))
      modifies this, client
      ensures var ev := AckEvent(len, old(client.space), sourceValid, fill(Offered(old(Model()), old(client.space))));
              var (r, out) := Step(old(Model()), ev);
              && Model() == r
              && client.wire == old(client.wire) + out
              && n == Handed(old(Model()), ev)
      ensures WithinTotal(Model())
      ensures client.closed == (old(client.closed) || Closes(old(Model()), sourceValid))
    {
      ghost var event := AckEvent(len, client.space, sourceValid, fill(Offered(Model(), client.space)));
      StepStaysWithinTotal(Model(), event);
      if !sourceValid {
        state := Failed;
        client.Close();
        NothingAdded(client.wire);
        return 0;
      }
      ghost var r, counted := CountAcked(Model(), event);
      ackedLength := ackedLength + len;
      assert Model() == r;
      n := Proceed(client, fill);
    }

    method Proceed(client: TcpClient, fill: nat -> Fill) returns (n: nat)
      requires WithinTotal(Model())
      requires Defined(Model(), AckEvent(0, client.space, true, fill(Offered(Model(), client.space))))
      modifies this, client
      ensures var ev := AckEvent(0, old(client.space), true, fill(Offered(old(Model()), old(client.space))));
              var (r, out) := Proceeded(old(Model()), ev.space, ev.fill);
              && Model() == r
              && client.wire == old(client.wire) + out
              && n == Handed(old(Model()), ev)
      ensures client.closed == (old(client.closed) || Closes(old(Model()), true))
    {
      if state == Headers {
        if client.space > |head| {
          state := Content;
        } else {
          n := SendHead(client);
          return;
        }
      }
      if state == Content {
        n := AckWindow(client, fill);
        return;
      }
      NothingAdded(client.wire);
      if state == WaitAck {
        if !framing.ContentLength? || ackedLength >= writtenLength {
          state := End;
          if framing.UntilClose? {
            client.Close();
          }
        }
      }
      return 0;
    }

    /** As much of the head as there is space for. */
    method SendHead(client: TcpClient) returns (n: nat)
      requires client.space <= |head|
      modifies this, client`wire, client`space
      ensures n == old(client.space) <= old(|head|)
      ensures Model() == old(Model()).(head := old(head)[n..], written := old(writtenLength) + n)
      ensures client.wire == old(client.wire) + old(head)[..n]
    {
      n := client.space;
      var written := client.Write(head[..n]);
      writtenLength := writtenLength + written;
      head := head[n..];
    }

    /** The content branch of `Ack`, which needs room for the framing of a chunk. */
    method AckWindow(client: TcpClient, fill: nat -> Fill) returns (n: nat)
      requires state == Content && WithinTotal(Model())
      requires Defined(Model(), AckEvent(0, client.space, true, fill(Offered(Model(), client.space))))
      modifies this, client`wire, client`space
      ensures var ev := AckEvent(0, old(client.space), true, fill(Offered(old(Model()), old(client.space))));
              var (r, out) := Answered(old(Model()), ev.space, ev.fill);
              && Model() == r
              && client.wire == old(client.wire) + out
              && n == Handed(old(Model()), ev)
    {
      var space := SizeT(client.space - |head|);
      if framing.Chunked? && space <= 8 {
        NothingAdded(client.wire);
        return 0;
      }
      n := AckContent(client, space, fill);
    }

    /** The content branch of `Ack`: `space` is what is left behind the pending head. */
    method AckContent(client: TcpClient, space: nat, fill: nat -> Fill) returns (n: nat)
      requires state == Content && space == SizeT(client.space - |head|)
      requires !framing.ContentLength? ==> client.space == space + |head|
      requires framing.Chunked? ==> space > 8
      requires framing.ContentLength? ==> sentLength <= framing.total
      requires FillAllowed(framing, fill(OfferedIn(space)), OfferedIn(space))
      modifies this, client`wire, client`space
      ensures var f := fill(old(OfferedIn(space)));
              var (r, out) := if f.Data? then DeliverInto(old(Model()), f.bytes, old(client.space))
                              else (old(Model()), "");
              && Model() == r
              && client.wire == old(client.wire) + out
              && n == if f.Data? then |old(head) + Coded(framing, f.bytes)| else 0
    {
      var outLen := match framing
        case ContentLength(total) => Min(space, total - sentLength)
        case _ => space;
      var buffer := new char[outLen + |head|];
      var answer := if framing.Chunked? then fill(outLen - 8) else fill(outLen);
      match answer {
        case TryAgain =>
          NothingAdded(client.wire);
          return 0;
        case Data(bytes) =>
          if framing.Chunked? {
            n := SendChunk(client, buffer, bytes);
          } else {
            n := SendPlain(client, buffer, bytes);
          }
      }
    }

    /** The answer framed as a chunk, in the buffer behind the space for the head. */
    method SendChunk(client: TcpClient, buffer: array<char>, bytes: string) returns (n: nat)
      requires state == Content && framing.Chunked?
      requires |bytes| <= 0xffff && |head| + |bytes| + 8 <= buffer.Length
      modifies this, client`wire, client`space, buffer
      ensures var (r, out) := DeliverInto(old(Model()), bytes, old(client.space));
              Model() == r && client.wire == old(client.wire) + out && n == |old(head) + Chunk(bytes)|
    {
      ChunkHeaderFits(|bytes|);
      var at, outLen := FrameChunk(buffer, |head|, Hex(|bytes|) + CRLF, bytes);
      n := SendContent(client, buffer, at, outLen, |bytes|, Chunk(bytes));
    }

    /** The answer as it is. */
    method SendPlain(client: TcpClient, buffer: array<char>, bytes: string) returns (n: nat)
      requires state == Content && !framing.Chunked? && |head| + |bytes| <= buffer.Length
      modifies this, client`wire, client`space, buffer
      ensures var (r, out) := DeliverInto(old(Model()), bytes, old(client.space));
              Model() == r && client.wire == old(client.wire) + out && n == |old(head) + bytes|
    {
      CopyInto(buffer, |head|, bytes);
      n := SendContent(client, buffer, 0, |head| + |bytes|, |bytes|, bytes);
    }

    /** The end of the content branch: the head goes in front of the coded content, and both to the client. */
    method SendContent(client: TcpClient, buffer: array<char>, at: nat, outLen: nat, readLen: nat, ghost coded: string)
      returns (n: nat)
      requires |head| <= outLen && at + outLen <= buffer.Length
      requires buffer[at + |head|..at + outLen] == coded
      modifies this, client`wire, client`space, buffer
      ensures var taken := Accepted(old(head) + coded, old(client.space));
              && client.wire == old(client.wire) + taken && n == outLen
              && Model() == old(Model()).(head := "", sent := old(sentLength) + readLen,
                                          written := old(writtenLength) + |taken|,
                                          phase := if readLen == 0 then WaitAck else old(state))
    {
      sentLength := sentLength + readLen;
      PutHead(buffer, at, head, at + outLen);
      head := "";
      var written := client.Write(buffer[at..at + outLen]);
      writtenLength := writtenLength + written;
      if readLen == 0 {
        state := WaitAck;
      }
      return outLen;
    }

    /** The buffer size offered to the producer when `space` bytes are left behind the head. */
    ghost function OfferedIn(space: nat): nat
      requires framing.Chunked? ==> space > 8
      requires framing.ContentLength? ==> sentLength <= framing.total
      reads this
    {
      match framing
      case Chunked => space - 8
      case UntilClose => space
      case ContentLength(total) => Min(space, total - sentLength)
    }

    /** Puts the pending head, if any, in front of the content that ends at `end`. */
    method PutHead(buffer: array<char>, at: nat, head: string, end: nat)
      requires at + |head| <= end <= buffer.Length
      modifies buffer
      ensures buffer[at..end] == head + old(buffer[at + |head|..end])
    {
      DropTake(buffer[..], at + |head|, end - at - |head|);
      if |head| > 0 {
        CopyInto(buffer, at, head);
      }
      DropTake(buffer[..], at + |head|, end - at - |head|);
      TwoSlices(buffer[..], at, at + |head|, end);
    }

    /**
     Builds one chunk behind `headLen` bytes left free for the head. The data goes where the longest chunk header
     would leave it; the actual header is then put directly in front of it.
     */
    method FrameChunk(buffer: array<char>, headLen: nat, header: string, data: string) returns (at: nat, outLen: nat)
      requires |header| <= 6 && headLen + |data| + 8 <= buffer.Length
      modifies buffer
      ensures at + outLen <= buffer.Length
      ensures outLen == headLen + |header| + |data| + 2
      ensures buffer[at + headLen..at + outLen] == header + data + CRLF
    {
      at := 6;
      CopyInto(buffer, at + headLen, data);
      at := at - |header|;
      outLen := |data| + headLen + |header|;
      PutHead(buffer, at + headLen, header, at + outLen);
      outLen := PutTrailer(buffer, at + headLen, at, outLen);
    }

    /** `buf[outLen++]` twice. */
    method PutTrailer(buffer: array<char>, ghost start: nat, at: nat, length: nat) returns (outLen: nat)
      requires start <= at + length && at + length + 2 <= buffer.Length
      modifies buffer
      ensures outLen == length + 2
      ensures buffer[start..at + outLen] == old(buffer[start..at + length]) + CRLF
    {
      outLen := length;
      buffer[at + outLen] := '\r';
      outLen := outLen + 1;
      assert buffer[start..at + outLen] == old(buffer[start..at + length]) + ['\r'];
      buffer[at + outLen] := '\n';
      outLen := outLen + 1;
      assert buffer[start..at + outLen] == (old(buffer[start..at + length]) + ['\r']) + ['\n'];
    }
  }
}
