/**
 The response engine together with a listing producer, for every schedule of client windows: what a receiver decodes
 from the wire is the whole JSON document, however it was cut into buffers.
 */
module ListingStream {
  import opened Util
  import opened ChunkedCoding
  import opened ResponseEngine
  import opened Listings

  datatype Source = Directory(dir: DirState) | Scan(markup: Markup, position: nat, result: ScanResult)

  /** What the virtual `_fillBuffer` call answers, and the producer afterwards. */
  function Produce(src: Source, len: nat): (Source, string) {
    match src
    case Directory(dir) =>
      var (dir', text) := DirFill(dir, len);
      (Directory(dir'), text)
    case Scan(m, position, result) =>
      var (position', text) := ScanFill(m, position, result, len);
      (Scan(m, position', result), text)
  }

  ghost predicate ValidSource(src: Source) {
    match src
    case Directory(dir) => DirValid(dir)
    case Scan(m, position, Found(networks)) => ScanValid(m, position, networks)
    case Scan(m, position, result) => |ScanDocument(m, result)| > 0
  }

  predicate Fresh(src: Source) {
    match src
    case Directory(dir) => dir.phase == Opening
    case Scan(m, position, result) => position == 0
  }

  /** The document a fresh producer is to deliver. */
  function DocumentOf(src: Source): string {
    match src
    case Directory(dir) => Document(dir.opening, dir.todo)
    case Scan(m, position, result) => ScanDocument(m, result)
  }

  ghost function Remaining(src: Source): string {
    match src
    case Directory(dir) => DirRemaining(dir)
    case Scan(m, position, Found(networks)) => ScanRemaining(m, position, networks)
    case Scan(m, position, result) => if position == EOF_POSITION then "" else ScanDocument(m, result)
  }

  ghost function CallsLeft(src: Source): nat {
    match src
    case Directory(dir) => DirCallsLeft(dir)
    case Scan(m, position, Found(networks)) => ScanCallsLeft(position, networks)
    case Scan(m, position, result) => if position == EOF_POSITION then 0 else 1
  }

  predicate Exhausted(src: Source) {
    match src
    case Directory(dir) => dir.phase == Done
    case Scan(m, position, result) => position == EOF_POSITION
  }

  /** A buffer of `len` bytes holds the opening and any single entry (in a scan: both together), or the message. */
  ghost predicate Roomy(src: Source, len: nat) {
    match src
    case Directory(dir) => DirRoomy(dir, Space(len))
    case Scan(m, position, Found(networks)) => ScanRoomy(m, networks, Space(len))
    case Scan(m, position, result) => |ScanDocument(m, result)| < Int16(len)
  }

  /** The length of the answer survives the type it is kept in: an int16_t for a listing. */
  predicate CountFits(src: Source, len: nat) {
    src.Directory? ==> |Produce(src, len).1| < 0x8000
  }

  lemma RoomySpace(src: Source, len: nat)
    requires ValidSource(src) && Roomy(src, len)
    requires src.Directory? || src.result.Found?
    ensures 0 < Space(len) <= len - 2 && Space(len) < 0x8000
  {
    if src.Scan? {
      OpeningFits(src.markup, src.result.networks, Space(len));
    }
  }

  lemma ProduceStaysRoomy(src: Source, len: nat, later: nat)
    requires ValidSource(src) && Roomy(src, len) && Roomy(src, later)
    ensures Roomy(Produce(src, len).0, later)
  {
    if src.Directory? {
      DirStaysRoomy(src.dir, Space(len), Space(later));
    }
  }

  lemma ProduceFits(src: Source, len: nat)
    requires ValidSource(src) && Roomy(src, len)
    ensures |Produce(src, len).1| <= len && |Produce(src, len).1| <= 0xffff
  {
    match src {
      case Directory(dir) =>
        RoomySpace(src, len);
        DirEmitFits(dir, Space(len));
      case Scan(m, position, Found(networks)) =>
        RoomySpace(src, len);
        OpeningFits(m, networks, Space(len));
        ScanEmitFits(m, position, networks, len);
      case Scan(m, position, result) =>
    }
  }

  lemma OpeningFits(m: Markup, networks: seq<Network>, space: int)
    requires |networks| > 0 && ScanRoomy(m, networks, space)
    ensures |m.opening| < space
  {
    assert |m.opening| + |RowText(m, networks[0])| + 1 < space;
  }

  /** One call emits the next part of the document; it is empty exactly when the document is out. */
  lemma ProduceEmitsNext(src: Source, len: nat)
    requires ValidSource(src) && Roomy(src, len)
    ensures var (src', text) := Produce(src, len);
            && ValidSource(src')
            && text + Remaining(src') == Remaining(src)
            && (|text| == 0 <==> Exhausted(src))
            && (!Exhausted(src) ==> CallsLeft(src') < CallsLeft(src))
            && (Exhausted(src) ==> src' == src)
  {
    match src {
      case Directory(dir) => DirEmitsNext(dir, Space(len));
      case Scan(m, position, Found(networks)) => ScanEmitsNext(m, position, networks, len);
      case Scan(m, position, result) => NothingAdded(Produce(src, len).1);
    }
  }

  lemma FreshRemaining(src: Source)
    requires ValidSource(src) && Fresh(src)
    ensures Remaining(src) == DocumentOf(src)
  {
    if src.Scan? && src.result.Found? {
      assert src.result.networks[0..] == src.result.networks;
    }
  }

  // ---------------------------------------------------------------- runs

  datatype Stream = Stream(trace: Trace, src: Source)

  function Open(head: string, src: Source): Stream {
    Stream(Start(Chunked, head), src)
  }

  function EventOf(s: Stream, p: Poll): AckEvent {
    AckEvent(p.acked, p.space, true, Data(Produce(s.src, Offered(s.trace.resp, p.space)).1))
  }

  function Ack(s: Stream, p: Poll): Stream {
    var asks := AsksProducer(s.trace.resp, true, p.space);
    Stream(Advance(s.trace, EventOf(s, p)),
           if asks then Produce(s.src, Offered(s.trace.resp, p.space)).0 else s.src)
  }

  function RunStream(s: Stream, polls: seq<Poll>): Stream
    decreases |polls|
  {
    if |polls| == 0 then s else RunStream(Ack(s, polls[0]), polls[1..])
  }

  /** A window in which the pending head fits, and which is roomy if it is offered to the producer at all. */
  ghost predicate GoodPoll(s: Stream, p: Poll) {
    && p.space < SIZE_T
    && (s.trace.resp.phase == Content ==> |s.trace.resp.head| <= p.space)
    && (AsksProducer(s.trace.resp, true, p.space) ==>
          Roomy(s.src, Offered(s.trace.resp, p.space)) && CountFits(s.src, Offered(s.trace.resp, p.space)))
  }

  ghost predicate GoodRun(s: Stream, polls: seq<Poll>)
    decreases |polls|
  {
    |polls| > 0 ==> GoodPoll(s, polls[0]) && GoodRun(Ack(s, polls[0]), polls[1..])
  }

  /** Holds at every point: what was taken from the producer and what it still has make up the document. */
  ghost predicate Streaming(s: Stream, head: string, doc: string) {
    && Accounted(s.trace, head) && |head| < SIZE_T
    && s.trace.resp.framing == Chunked
    && s.trace.resp.phase != Failed
    && ValidSource(s.src)
    && Flatten(s.trace.fills) + Remaining(s.src) == doc
    && (s.trace.resp.phase in {WaitAck, End} ==> Exhausted(s.src))
  }

  lemma PollIsAdmissible(s: Stream, p: Poll)
    requires s.trace.resp.framing == Chunked && |s.trace.resp.head| < SIZE_T && ValidSource(s.src) && GoodPoll(s, p)
    ensures Admissible(s.trace.resp, EventOf(s, p))
  {
    if AsksProducer(s.trace.resp, true, p.space) {
      ProduceFits(s.src, Offered(s.trace.resp, p.space));
    }
  }

  lemma ExhaustedRemaining(src: Source)
    requires ValidSource(src) && Exhausted(src)
    ensures |Remaining(src)| == 0
  {
  }

  lemma AckKeepsStreaming(s: Stream, p: Poll, head: string, doc: string)
    requires Streaming(s, head, doc) && GoodPoll(s, p)
    ensures Streaming(Ack(s, p), head, doc)
  {
    var ev := EventOf(s, p);
    PollIsAdmissible(s, p);
    AdvanceKeepsAccounted(s.trace, ev, head);
    if AsksProducer(s.trace.resp, true, p.space) {
      var len := Offered(s.trace.resp, p.space);
      FillStep(s.trace.resp, ev);
      ProduceEmitsNext(s.src, len);
      OneMoreFill(s.trace.fills, ev.fill.bytes, Remaining(Produce(s.src, len).0));
    }
  }

  lemma {:induction false} RunKeepsStreaming(s: Stream, polls: seq<Poll>, head: string, doc: string)
    requires Streaming(s, head, doc) && GoodRun(s, polls)
    ensures Streaming(RunStream(s, polls), head, doc)
    decreases |polls|
  {
    if |polls| > 0 {
      AckKeepsStreaming(s, polls[0], head, doc);
      RunKeepsStreaming(Ack(s, polls[0]), polls[1..], head, doc);
    }
  }

  lemma OpenIsStreaming(head: string, src: Source)
    requires ValidSource(src) && Fresh(src) && |head| < SIZE_T
    ensures Streaming(Open(head, src), head, DocumentOf(src))
  {
    NothingAdded(head);
    NothingAdded(Remaining(src));
    FreshRemaining(src);
  }

  /**
   End to end, for every schedule of windows: on reaching WAIT_ACK the receiver decodes exactly the document; before
   that it has a prefix of it in hand and cannot take any part of the wire for a complete body.
   */
  lemma DocumentIsDelivered(head: string, src: Source, polls: seq<Poll>)
    requires ValidSource(src) && Fresh(src) && |head| < SIZE_T && GoodRun(Open(head, src), polls)
    ensures var t := RunStream(Open(head, src), polls).trace;
            && (t.resp.phase in {WaitAck, End} ==>
                  head <= t.wire && Dechunk(t.wire[|head|..]) == Some(Decoded(DocumentOf(src), "")))
            && (t.resp.phase in {Headers, Content} && head <= t.wire ==>
                  forall seen | seen <= t.wire[|head|..] :: Dechunk(seen).None?)
            && Flatten(t.fills) <= DocumentOf(src)
  {
    OpenIsStreaming(head, src);
    RunKeepsStreaming(Open(head, src), polls, head, DocumentOf(src));
    var s := RunStream(Open(head, src), polls);
    if s.trace.resp.phase in {WaitAck, End} {
      CompleteBodyDecodes(s.trace, head);
      ExhaustedRemaining(s.src);
      NothingAdded(Flatten(s.trace.fills));
    } else if head <= s.trace.wire {
      forall seen | seen <= s.trace.wire[|head|..]
        ensures Dechunk(seen).None?
      {
        IncompleteBodyIsRejected(s.trace, head, seen);
      }
    }
  }

  // ---------------------------------------------------------------- progress

  ghost function Work(s: Stream): nat {
    match s.trace.resp.phase
    case End => 0
    case WaitAck => 1
    case _ => CallsLeft(s.src) + 2
  }

  /** Every acknowledgement that reaches the producer brings the response closer to its end. */
  lemma AckProgresses(s: Stream, p: Poll, head: string, doc: string)
    requires Streaming(s, head, doc) && GoodPoll(s, p)
    ensures Work(Ack(s, p)) <= Work(s)
    ensures AsksProducer(s.trace.resp, true, p.space) || s.trace.resp.phase == WaitAck ==> Work(Ack(s, p)) < Work(s)
  {
    if AsksProducer(s.trace.resp, true, p.space) {
      PollIsAdmissible(s, p);
      FillStep(s.trace.resp, EventOf(s, p));
      ProduceEmitsNext(s.src, Offered(s.trace.resp, p.space));
    }
  }

  predicate Spacious(polls: seq<Poll>, head: string) {
    |polls| > 0 ==> polls[0].space > |head| + 8 && Spacious(polls[1..], head)
  }

  /** With windows that hold the head and a little more, the response ends after CallsLeft + 2 acknowledgements. */
  lemma {:induction false} DeliveryCompletes(s: Stream, polls: seq<Poll>, head: string, doc: string)
    requires Streaming(s, head, doc) && GoodRun(s, polls)
    ensures Spacious(polls, head) && |polls| >= Work(s) ==> RunStream(s, polls).trace.resp.phase == End
    decreases |polls|
  {
    if |polls| > 0 {
      AckKeepsStreaming(s, polls[0], head, doc);
      AckProgresses(s, polls[0], head, doc);
      DeliveryCompletes(Ack(s, polls[0]), polls[1..], head, doc);
    }
  }

  // ---------------------------------------------------------------- schedules known in advance

  /**
   A window that holds the head, the framing of a chunk and, behind the head, a buffer that is roomy for a fresh
   producer; it is small enough for the int16_t lengths of the listing.
   */
  ghost predicate GoodWindow(src: Source, head: string, space: nat) {
    |head| + 8 < space <= 0x7fff + 8 && Roomy(src, space - |head| - 8)
  }

  ghost predicate Scheduled(src: Source, head: string, polls: seq<Poll>) {
    |polls| > 0 ==> GoodWindow(src, head, polls[0].space) && Scheduled(src, head, polls[1..])
  }

  lemma RoomyGrows(src: Source, a: nat, b: nat)
    requires ValidSource(src) && Roomy(src, a) && a <= b <= 0x7fff
    ensures Roomy(src, b)
  {
    if src.Directory? || src.result.Found? {
      RoomySpace(src, a);
      assert Space(a) <= Space(b);
    }
  }

  /** Buffers that were roomy at first still are. */
  ghost predicate StillRoomy(first: Source, src: Source) {
    forall len: nat :: Roomy(first, len) ==> Roomy(src, len)
  }

  lemma ProduceKeepsRoomy(first: Source, src: Source, len: nat)
    requires ValidSource(src) && StillRoomy(first, src) && Roomy(src, len)
    ensures StillRoomy(first, Produce(src, len).0)
  {
    forall later: nat | Roomy(first, later) ensures Roomy(Produce(src, len).0, later) {
      ProduceStaysRoomy(src, len, later);
    }
  }

  lemma OfferedBehindHead(r: Response, space: nat, headLen: nat)
    requires r.framing.Chunked? && |r.head| <= headLen && headLen + 8 < space < SIZE_T
    ensures space - headLen - 8 <= Offered(r, space) <= space - 8
  {
  }

  lemma OfferIsRoomy(s: Stream, p: Poll, head: string, doc: string, first: Source)
    requires Streaming(s, head, doc) && ValidSource(first) && GoodWindow(first, head, p.space)
    ensures |s.trace.resp.head| <= p.space < SIZE_T
    ensures Offered(s.trace.resp, p.space) <= 0x7fff && Roomy(first, Offered(s.trace.resp, p.space))
  {
    OfferedBehindHead(s.trace.resp, p.space, |head|);
    RoomyGrows(first, p.space - |head| - 8, Offered(s.trace.resp, p.space));
  }

  lemma AnswerIsGood(first: Source, src: Source, len: nat)
    requires ValidSource(src) && StillRoomy(first, src) && Roomy(first, len) && len <= 0x7fff
    ensures Roomy(src, len) && CountFits(src, len) && StillRoomy(first, Produce(src, len).0)
  {
    ProduceFits(src, len);
    ProduceKeepsRoomy(first, src, len);
  }

  lemma PollOnSchedule(s: Stream, p: Poll, head: string, doc: string, first: Source)
    requires Streaming(s, head, doc) && ValidSource(first) && StillRoomy(first, s.src)
    requires GoodWindow(first, head, p.space)
    ensures GoodPoll(s, p) && StillRoomy(first, Ack(s, p).src)
  {
    OfferIsRoomy(s, p, head, doc, first);
    AnswerIsGood(first, s.src, Offered(s.trace.resp, p.space));
  }

  /** Such windows are good at every point of the run, whatever the producer has done by then. */
  lemma {:induction false} ScheduleIsGood(s: Stream, polls: seq<Poll>, head: string, doc: string, first: Source)
    requires Streaming(s, head, doc) && ValidSource(first) && StillRoomy(first, s.src)
    requires Scheduled(first, head, polls)
    ensures GoodRun(s, polls) && Spacious(polls, head)
    decreases |polls|
  {
    if |polls| > 0 {
      PollOnSchedule(s, polls[0], head, doc, first);
      AckKeepsStreaming(s, polls[0], head, doc);
      ScheduleIsGood(Ack(s, polls[0]), polls[1..], head, doc, first);
    }
  }

  /** The acknowledgements the engine sees. */
  function EventsOf(s: Stream, polls: seq<Poll>): seq<AckEvent>
    decreases |polls|
  {
    if |polls| == 0 then [] else [EventOf(s, polls[0])] + EventsOf(Ack(s, polls[0]), polls[1..])
  }

  /** A run of engine and producer together is a run of the engine, within what it is built for. */
  lemma {:induction false} StreamIsEngineRun(s: Stream, polls: seq<Poll>, head: string, doc: string)
    requires Streaming(s, head, doc) && GoodRun(s, polls)
    ensures AdmissibleRun(s.trace, EventsOf(s, polls))
    ensures RunStream(s, polls).trace == Run(s.trace, EventsOf(s, polls))
    decreases |polls|
  {
    if |polls| > 0 {
      PollIsAdmissible(s, polls[0]);
      AckKeepsStreaming(s, polls[0], head, doc);
      StreamIsEngineRun(Ack(s, polls[0]), polls[1..], head, doc);
      var evs := EventsOf(s, polls);
      assert evs[0] == EventOf(s, polls[0]) && evs[1..] == EventsOf(Ack(s, polls[0]), polls[1..]);
    }
  }

  /**
   From the schedule alone: windows whose sizes meet the bounds before the run give a run the engine is built for, and
   enough of them deliver exactly the document and end the response.
   */
  lemma DeliveredOnSchedule(head: string, src: Source, polls: seq<Poll>)
    requires ValidSource(src) && Fresh(src) && |head| < SIZE_T && Scheduled(src, head, polls)
    ensures var evs := EventsOf(Open(head, src), polls);
            var t := Run(Start(Chunked, head), evs);
            && AdmissibleRun(Start(Chunked, head), evs)
            && (|polls| > CallsLeft(src) + 1 ==>
                  t.resp.phase == End && head <= t.wire &&
                  Dechunk(t.wire[|head|..]) == Some(Decoded(DocumentOf(src), "")))
  {
    var s, doc := Open(head, src), DocumentOf(src);
    OpenIsStreaming(head, src);
    ScheduleIsGood(s, polls, head, doc, src);
    StreamIsEngineRun(s, polls, head, doc);
    DeliveryCompletes(s, polls, head, doc);
    DocumentIsDelivered(head, src, polls);
  }

  /** What a client of a scan decodes tells it how the scan stands. */
  lemma ScanIsTold(head: string, result: ScanResult, polls: seq<Poll>)
    requires result.Found? ==> 0 < |result.networks| <= 127
    requires |head| < SIZE_T && Scheduled(Scan(ScanMarkup(), 0, result), head, polls)
    requires |polls| > CallsLeft(Scan(ScanMarkup(), 0, result)) + 1
    ensures var t := Run(Start(Chunked, head), EventsOf(Open(head, Scan(ScanMarkup(), 0, result)), polls));
            && head <= t.wire && Dechunk(t.wire[|head|..]).Some?
            && (var body := Dechunk(t.wire[|head|..]).value.body;
                && (PENDING <= body <==> result.Running?)
                && (MESSAGE <= body <==> result.NoNetworks?)
                && (RESULT <= body <==> result.Found?))
  {
    DeliveredOnSchedule(head, Scan(ScanMarkup(), 0, result), polls);
    DocumentTellsResult(result);
  }
}
