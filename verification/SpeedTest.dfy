/**
 The speed test image of src/async_web_response.cpp and its delivery with a content length: for every schedule of open
 windows exactly as many bytes follow the head as it announces.
 */
module SpeedTest {
  import opened Util
  import opened ResponseEngine

  /** sizeof(_header): the bitmap file and information headers. */
  const HEADER_SIZE: nat := 54

  const WHITE: char := 255 as char

  function White(n: nat): (s: string)
    ensures |s| == n
  {
    if n == 0 then "" else [WHITE] + White(n - 1)
  }

  lemma {:induction false} WhiteSplit(n: nat, k: nat)
    requires k <= n
    ensures White(n) == White(k) + White(n - k)
  {
    if k == 0 {
      NothingAdded(White(n));
    } else {
      WhiteSplit(n - 1, k - 1);
      Assoc([WHITE], White(k - 1), White(n - k));
    }
  }

  /** `header` is still to be sent while it is due; `size` bytes are left in all. */
  datatype Image = Image(header: string, due: bool, size: nat)

  ghost predicate ValidImage(i: Image) {
    |i.header| == HEADER_SIZE && (i.due ==> i.size >= HEADER_SIZE)
  }

  function Behind(size: nat): nat { if size < HEADER_SIZE then 0 else size - HEADER_SIZE }

  /** What one call answers. */
  function Produce(i: Image, len: nat): (Image, string) {
    if i.due then (i.(due := false, size := Behind(i.size)), i.header)
    else (i.(size := i.size - Min(i.size, len)), White(Min(i.size, len)))
  }

  function Rest(i: Image): string {
    if i.due then i.header + White(Behind(i.size)) else White(i.size)
  }

  /** The image of a given width; an image without width has no header, and its bytes are all white. */
  function ImageOf(header: string, width: nat): (i: Image)
    requires |header| == HEADER_SIZE
    ensures ValidImage(i) && |Rest(i)| == width * width * 2 + HEADER_SIZE
  {
    Image(header, width > 0, width * width * 2 + HEADER_SIZE)
  }

  lemma {:induction false} WhiteIsWhite(n: nat)
    ensures White(n) == seq(n, k => '\U{00FF}')
  {
    if n > 0 {
      WhiteIsWhite(n - 1);
      assert seq(n, k => '\U{00FF}') == ['\U{00FF}'] + seq(n - 1, k => '\U{00FF}');
    }
  }

  /** The image is its header of 54 bytes and two bytes 0xff for each pixel of a square; without width, 54 of these. */
  lemma ImageIsWhite(header: string, width: nat)
    requires |header| == 54
    ensures Rest(ImageOf(header, width)) ==
            if width > 0 then header + seq(width * width * 2, k => '\U{00FF}') else seq(54, k => '\U{00FF}')
  {
    WhiteIsWhite(width * width * 2);
    WhiteIsWhite(54);
  }

  /** A buffer takes the next part of the image, if it has room for the header while that is due. */
  lemma ProduceEmitsNext(i: Image, len: nat)
    requires ValidImage(i) && (i.due ==> len >= HEADER_SIZE)
    ensures var (i', text) := Produce(i, len);
            && ValidImage(i') && |text| <= len
            && text + Rest(i') == Rest(i)
            && (|text| == 0 <==> len == 0 || |Rest(i)| == 0)
  {
    if !i.due {
      WhiteSplit(i.size, Min(i.size, len));
    }
  }

  class AsyncSpeedTestResponse {
    const header: string
    var width: nat
    var size: nat

    ghost function Model(): Image
      reads this
    {
      Image(header, width > 0, size)
    }

    /** `width` is the integer square root of half the size asked for; the image size fits 31 bits. */
    constructor (header: string, width: nat)
      requires |header| == HEADER_SIZE
      ensures Model() == ImageOf(header, width)
    {
      this.header, this.width, size := header, width, width * width * 2 + HEADER_SIZE;
    }

    method FillBuffer(data: array<char>) returns (n: nat)
      requires ValidImage(Model()) && (width > 0 ==> data.Length >= HEADER_SIZE)
      modifies this, data
      ensures n <= data.Length && (Model(), data[..n]) == Produce(old(Model()), data.Length)
    {
      var available := if size > data.Length then data.Length else size;
      if width != 0 {
        CopyInto(data, 0, header);
        assert data[..HEADER_SIZE] == data[0..0 + |header|];
        width := 0;
        size := size - HEADER_SIZE;
        return HEADER_SIZE;
      }
      for k := 0 to available
        modifies data
        invariant data[..k] == White(k)
      {
        WhiteSplit(k + 1, k);
        assert White(1) == [WHITE] + White(0) == [WHITE];
        data[k] := WHITE;
        assert data[..k + 1] == data[..k] + [WHITE];
      }
      size := size - available;
      return available;
    }
  }

  // ---------------------------------------------------------------- delivery

  datatype Stream = Stream(trace: Trace, image: Image)

  function EventOf(s: Stream, p: Poll): AckEvent {
    AckEvent(p.acked, p.space, true, Data(Produce(s.image, Offered(s.trace.resp, p.space)).1))
  }

  function Ack(s: Stream, p: Poll): Stream {
    Stream(Advance(s.trace, EventOf(s, p)),
           if AsksProducer(s.trace.resp, true, p.space) then Produce(s.image, Offered(s.trace.resp, p.space)).0
           else s.image)
  }

  function RunStream(s: Stream, polls: seq<Poll>): Stream
    decreases |polls|
  {
    if |polls| == 0 then s else RunStream(Ack(s, polls[0]), polls[1..])
  }

  /** Once content has begun there is room behind the head: for the image header while it is due, else for a byte. */
  predicate OpenWindow(s: Stream, p: Poll) {
    && p.space < SIZE_T
    && (AsksProducer(s.trace.resp, true, p.space) ==>
          p.space >= |s.trace.resp.head| + if s.image.due then HEADER_SIZE else 1)
  }

  predicate AllOpen(s: Stream, polls: seq<Poll>)
    decreases |polls|
  {
    |polls| > 0 ==> OpenWindow(s, polls[0]) && AllOpen(Ack(s, polls[0]), polls[1..])
  }

  /** Holds at every point: what was taken and what is left are the image, and the announced length is its length. */
  ghost predicate Streaming(s: Stream, head: string, image: string) {
    && Accounted(s.trace, head) && |head| < SIZE_T
    && s.trace.resp.framing == ContentLength(|image|) && |image| < SIZE_T
    && s.trace.resp.phase != Failed && ValidImage(s.image)
    && Flatten(s.trace.fills) + Rest(s.image) == image
    && (s.trace.resp.phase in {WaitAck, End} ==> |Rest(s.image)| == 0)
  }

  lemma PollIsAdmissible(s: Stream, p: Poll, head: string, image: string)
    requires Streaming(s, head, image) && OpenWindow(s, p)
    ensures Admissible(s.trace.resp, EventOf(s, p))
  {
    if AsksProducer(s.trace.resp, true, p.space) {
      var len := Offered(s.trace.resp, p.space);
      assert len == Min(p.space - |s.trace.resp.head|, |Rest(s.image)|);
      ProduceEmitsNext(s.image, len);
    }
  }

  lemma AckKeepsStreaming(s: Stream, p: Poll, head: string, image: string)
    requires Streaming(s, head, image) && OpenWindow(s, p)
    ensures Streaming(Ack(s, p), head, image)
  {
    var ev := EventOf(s, p);
    PollIsAdmissible(s, p, head, image);
    AdvanceKeepsAccounted(s.trace, ev, head);
    if AsksProducer(s.trace.resp, true, p.space) {
      var len := Offered(s.trace.resp, p.space);
      assert len == Min(p.space - |s.trace.resp.head|, |Rest(s.image)|);
      FillStep(s.trace.resp, ev);
      ProduceEmitsNext(s.image, len);
      OneMoreFill(s.trace.fills, ev.fill.bytes, Rest(Produce(s.image, len).0));
    }
  }

  lemma {:induction false} RunKeepsStreaming(s: Stream, polls: seq<Poll>, head: string, image: string)
    requires Streaming(s, head, image) && AllOpen(s, polls)
    ensures Streaming(RunStream(s, polls), head, image)
    decreases |polls|
  {
    if |polls| > 0 {
      AckKeepsStreaming(s, polls[0], head, image);
      RunKeepsStreaming(Ack(s, polls[0]), polls[1..], head, image);
    }
  }

  /**
   With the length of the image announced, in every run the wire is a prefix of head and image, and on reaching
   WAIT_ACK all of it: exactly as many bytes follow the head as announced.
   */
  lemma ImageIsDelivered(head: string, i: Image, polls: seq<Poll>)
    requires ValidImage(i) && |Rest(i)| < SIZE_T && |head| < SIZE_T
    requires AllOpen(Stream(Start(ContentLength(|Rest(i)|), head), i), polls)
    ensures var t := RunStream(Stream(Start(ContentLength(|Rest(i)|), head), i), polls).trace;
            && t.wire <= head + Rest(i)
            && (t.resp.phase in {WaitAck, End} ==> t.wire == head + Rest(i))
  {
    var s := Stream(Start(ContentLength(|Rest(i)|), head), i);
    NothingAdded(head);
    NothingAdded(Rest(i));
    RunKeepsStreaming(s, polls, head, Rest(i));
    var r := RunStream(s, polls);
    WireIsPrefix(r.trace.wire, r.trace.resp.head, head, Flatten(r.trace.fills), Rest(r.image), Rest(i));
  }

  lemma WireIsPrefix(wire: string, pending: string, head: string, content: string, rest: string, image: string)
    requires wire + pending == head + content && content + rest == image
    ensures wire <= head + image
    ensures |pending| == 0 && |rest| == 0 ==> wire == head + image
  {
    Assoc(head, content, rest);
    Assoc(wire, pending, rest);
    assert head + image == wire + (pending + rest);
    if |pending| == 0 && |rest| == 0 {
      NothingAdded(wire);
      assert pending + rest == [];
    }
  }

  // ---------------------------------------------------------------- schedules known in advance

  /** Windows that hold head and image header together. */
  predicate Wide(head: string, polls: seq<Poll>) {
    |polls| > 0 ==> |head| + HEADER_SIZE <= polls[0].space < SIZE_T && Wide(head, polls[1..])
  }

  function Work(s: Stream): nat {
    if s.trace.resp.phase in {WaitAck, End} then 0 else |Rest(s.image)| + 1
  }

  lemma AckProgresses(s: Stream, p: Poll, head: string, image: string)
    requires Streaming(s, head, image) && |head| + HEADER_SIZE <= p.space < SIZE_T
    ensures OpenWindow(s, p) && (Work(s) > 0 ==> Work(Ack(s, p)) < Work(s)) && (Work(s) == 0 ==> Work(Ack(s, p)) == 0)
  {
    if AsksProducer(s.trace.resp, true, p.space) {
      PollIsAdmissible(s, p, head, image);
      FillStep(s.trace.resp, EventOf(s, p));
      ProduceEmitsNext(s.image, Offered(s.trace.resp, p.space));
    }
  }

  lemma {:induction false} WideRunCompletes(s: Stream, polls: seq<Poll>, head: string, image: string)
    requires Streaming(s, head, image) && Wide(head, polls)
    ensures AllOpen(s, polls)
    ensures |polls| >= Work(s) ==> RunStream(s, polls).trace.resp.phase in {WaitAck, End}
    decreases |polls|
  {
    if |polls| > 0 {
      AckProgresses(s, polls[0], head, image);
      AckKeepsStreaming(s, polls[0], head, image);
      WideRunCompletes(Ack(s, polls[0]), polls[1..], head, image);
    }
  }

  /** From the schedule alone: enough windows that hold head and image header deliver exactly head and image. */
  lemma DeliveredOnSchedule(head: string, i: Image, polls: seq<Poll>)
    requires ValidImage(i) && |Rest(i)| < SIZE_T && |head| < SIZE_T && Wide(head, polls) && |polls| > |Rest(i)|
    ensures RunStream(Stream(Start(ContentLength(|Rest(i)|), head), i), polls).trace.wire == head + Rest(i)
  {
    NothingAdded(head);
    NothingAdded(Rest(i));
    WideRunCompletes(Stream(Start(ContentLength(|Rest(i)|), head), i), polls, head, Rest(i));
    ImageIsDelivered(head, i, polls);
  }

  function AckedBy(polls: seq<Poll>): nat {
    if |polls| == 0 then 0 else polls[0].acked + AckedBy(polls[1..])
  }

  /** What has been acknowledged is counted; an image that has ended has been acknowledged as a whole. */
  lemma {:induction false} RunCountsAcked(s: Stream, polls: seq<Poll>)
    requires s.trace.resp.framing.ContentLength? && s.trace.resp.phase != Failed
    requires s.trace.resp.phase == End ==> s.trace.resp.acked >= s.trace.resp.written
    ensures var r := RunStream(s, polls).trace.resp;
            && r.framing == s.trace.resp.framing && r.phase != Failed
            && r.acked == s.trace.resp.acked + AckedBy(polls)
            && (r.phase == End ==> r.acked >= r.written)
    decreases |polls|
  {
    if |polls| > 0 {
      RunCountsAcked(Ack(s, polls[0]), polls[1..]);
    }
  }

  lemma LastAck(s: Stream, p: Poll)
    requires s.trace.resp.framing.ContentLength? && s.trace.resp.phase in {WaitAck, End}
    requires s.trace.resp.phase == End ==> s.trace.resp.acked >= s.trace.resp.written
    ensures Ack(s, p).trace.resp.phase == End <==> s.trace.resp.acked + p.acked >= s.trace.resp.written
  {
  }

  lemma ImageIsOut(head: string, i: Image, polls: seq<Poll>) returns (s: Stream)
    requires ValidImage(i) && |Rest(i)| < SIZE_T && |head| < SIZE_T && Wide(head, polls) && |polls| > |Rest(i)|
    ensures s == RunStream(Stream(Start(ContentLength(|Rest(i)|), head), i), polls)
    ensures s.trace.resp.phase in {WaitAck, End} && s.trace.resp.written == |head| + |Rest(i)|
  {
    var first := Stream(Start(ContentLength(|Rest(i)|), head), i);
    NothingAdded(head);
    NothingAdded(Rest(i));
    s := RunStream(first, polls);
    WideRunCompletes(first, polls, head, Rest(i));
    RunKeepsStreaming(first, polls, head, Rest(i));
    ImageIsDelivered(head, i, polls);
  }

  /** With the image out, the next acknowledgement ends the response exactly when head and image are acknowledged. */
  lemma EndsWhenAcknowledged(head: string, i: Image, polls: seq<Poll>, last: Poll)
    requires ValidImage(i) && |Rest(i)| < SIZE_T && |head| < SIZE_T && Wide(head, polls) && |polls| > |Rest(i)|
    ensures var s := RunStream(Stream(Start(ContentLength(|Rest(i)|), head), i), polls);
            Ack(s, last).trace.resp.phase == End <==> AckedBy(polls) + last.acked >= |head| + |Rest(i)|
  {
    var s := ImageIsOut(head, i, polls);
    RunCountsAcked(Stream(Start(ContentLength(|Rest(i)|), head), i), polls);
    LastAck(s, last);
  }
}
