/**
 The sampling filter of lib/KFCBaseLibrary/include/ReadADC.h for the ESP8266: readings are averaged when they are close
 to the mean of the last 32. The readings of the analog pin are a parameter, one for each call of analogRead.
 */
module AdcReader {
  import opened CircularBuffers
  import opened Util

  const NUM_BUFFERED: nat := 32

  newtype uint8 = x: int | 0 <= x < 0x100
  newtype uint16 = x: int | 0 <= x < 0x1_0000

  function Sum(values: seq<uint16>): (sum: nat)
    ensures sum <= 0xffff * |values|
  {
    if |values| == 0 then 0 else Sum(values[..|values| - 1]) + values[|values| - 1] as nat
  }

  /** What counts as close to a mean; the upper end is cut to 16 bits. */
  function LowerBound(mean: nat): nat { mean * 1000 / 1004 }

  function UpperBound(mean: nat): nat { mean * 1000 / 985 % 0x1_0000 }

  predicate Accepts(buffered: seq<uint16>, value: uint16)
    requires |buffered| == NUM_BUFFERED
  {
    LowerBound(Sum(buffered) / NUM_BUFFERED) <= value as nat <= UpperBound(Sum(buffered) / NUM_BUFFERED)
  }

  /** Without division: accepted is what lies between mean / 1.004, rounded down, and mean / 0.985. */
  lemma WindowAroundMean(mean: nat, value: nat)
    requires mean <= 64552
    ensures LowerBound(mean) <= value <= UpperBound(mean) <==> value * 985 <= mean * 1000 < (value + 1) * 1004
  {
    var min, max := mean * 1000 / 1004, mean * 1000 / 985;
    assert 1004 * min <= mean * 1000 < 1004 * (min + 1);
    assert 985 * max <= mean * 1000 < 985 * (max + 1);
  }

  // ---------------------------------------------------------------- the loop counter

  /** The 8-bit counter behind an iteration: `i += 9` for an accepted value, and `i++`. */
  function NextCount(i: uint8, accepted: bool): uint8 {
    ((i as int + if accepted then 10 else 1) % 0x100) as uint8
  }

  /** The counter after a sequence of decisions. */
  function CountAfter(decisions: seq<bool>): uint8 {
    if |decisions| == 0 then 0
    else NextCount(CountAfter(decisions[..|decisions| - 1]), decisions[|decisions| - 1])
  }

  /** The loop has been left within the decisions. */
  predicate Ends(num: uint8, decisions: seq<bool>) {
    exists k :: 0 <= k <= |decisions| && CountAfter(decisions[..k]) as int >= num as int * 10
  }

  /** For up to 24 values wanted the loop ends after at most ten times as many decisions, whichever they are. */
  lemma EndsFor24(num: uint8, decisions: seq<bool>)
    requires num <= 24 && |decisions| >= num as int * 10
    ensures Ends(num, decisions)
  {
    var k := Progress(num, decisions, num as int * 10);
  }

  /** As long as the loop runs, the counter is at least the number of decisions. */
  lemma {:induction false} Progress(num: uint8, decisions: seq<bool>, n: nat) returns (k: nat)
    requires num <= 24 && n <= |decisions|
    ensures k <= n
    ensures CountAfter(decisions[..k]) as int >= num as int * 10 || (k == n && CountAfter(decisions[..n]) as int >= n)
  {
    if n == 0 {
      k := 0;
    } else {
      k := Progress(num, decisions, n - 1);
      if CountAfter(decisions[..k]) as int < num as int * 10 {
        k := n;
        assert decisions[..n][..n - 1] == decisions[..n - 1];
      }
    }
  }

  /** Nine rejected and then 24 accepted values take the counter to 249; one more takes it back to 3. */
  function Round(i: nat): bool {
    i >= 9 && (i - 9) % 31 < 25
  }

  function EndlessDecisions(n: nat): seq<bool> {
    seq(n, i requires 0 <= i < n => Round(i))
  }

  /** Where the counter is among endless decisions. */
  function EndlessCount(n: nat): nat {
    if n <= 9 then n
    else
      var k := (n - 9) % 31;
      if k <= 24 then 9 + 10 * k else 3 + (k - 25)
  }

  lemma {:induction false} EndlessCounts(n: nat)
    ensures CountAfter(EndlessDecisions(n)) as int == EndlessCount(n) < 250
  {
    if n > 0 {
      assert EndlessDecisions(n)[..n - 1] == EndlessDecisions(n - 1);
      EndlessCounts(n - 1);
      EndlessNext(n - 1);
    }
  }

  lemma EndlessNext(n: nat)
    ensures EndlessCount(n) < 250
    ensures NextCount(EndlessCount(n) as uint8, Round(n)) as int == EndlessCount(n + 1) < 250
  {
    NextRemainder(n - 9);
  }

  lemma NextRemainder(n: int)
    ensures n >= 0 ==> (n + 1) % 31 == if n % 31 == 30 then 0 else n % 31 + 1
  {
  }

  /** From 25 values wanted on there are decisions that never end the loop. */
  lemma NeverEndsFrom25(num: uint8, n: nat)
    requires num >= 25
    ensures !Ends(num, EndlessDecisions(n))
  {
    forall k | 0 <= k <= n ensures (CountAfter(EndlessDecisions(n)[..k]) as int) < 250 {
      assert EndlessDecisions(n)[..k] == EndlessDecisions(k);
      EndlessCounts(k);
    }
  }

  // ---------------------------------------------------------------- readings that bring decisions about

  /** What is buffered after some readings. */
  function BufferAfter(buffered: seq<uint16>, pin: seq<uint16>): (after: seq<uint16>)
    requires |buffered| == NUM_BUFFERED
    ensures |after| == NUM_BUFFERED
  {
    if |pin| == 0 then buffered
    else Last(BufferAfter(buffered, pin[..|pin| - 1]) + [pin[|pin| - 1]], NUM_BUFFERED)
  }

  /** Which of some readings are close to the mean of what is buffered when they are taken. */
  function Decisions(buffered: seq<uint16>, pin: seq<uint16>): (decisions: seq<bool>)
    requires |buffered| == NUM_BUFFERED
    ensures |decisions| == |pin|
  {
    if |pin| == 0 then []
    else
      var before := pin[..|pin| - 1];
      Decisions(buffered, before) + [Accepts(BufferAfter(buffered, before), pin[|pin| - 1])]
  }

  /** A reading of a 10-bit converter that is accepted, or is not. */
  function Choose(buffered: seq<uint16>, accept: bool): uint16
    requires |buffered| == NUM_BUFFERED
  {
    MeanFits(buffered);
    var mean := Sum(buffered) / NUM_BUFFERED;
    if accept then mean as uint16 else if mean < 500 then 1023 else 0
  }

  lemma FarFromMean(mean: nat)
    requires mean <= 1023
    ensures LowerBound(mean) <= mean <= UpperBound(mean)
    ensures mean < 500 ==> UpperBound(mean) < 1023
    ensures mean >= 500 ==> LowerBound(mean) > 0
  {
  }

  lemma EitherDecision(buffered: seq<uint16>, accept: bool)
    requires |buffered| == NUM_BUFFERED && Within(buffered, 0, 1023)
    ensures Choose(buffered, accept) <= 1023 && Accepts(buffered, Choose(buffered, accept)) == accept
  {
    SumBounds(buffered, 0, 1023);
    var mean := Sum(buffered) / NUM_BUFFERED;
    MeanBounds(Sum(buffered), NUM_BUFFERED, 0, 1023);
    FarFromMean(mean);
  }

  function PinFor(buffered: seq<uint16>, decisions: seq<bool>): (pin: seq<uint16>)
    requires |buffered| == NUM_BUFFERED
    ensures |pin| == |decisions|
  {
    if |decisions| == 0 then []
    else
      var before := PinFor(buffered, decisions[..|decisions| - 1]);
      before + [Choose(BufferAfter(buffered, before), decisions[|decisions| - 1])]
  }

  lemma LastWithin(buffered: seq<uint16>, value: uint16, low: uint16, high: uint16)
    requires Within(buffered, low, high) && low <= value <= high
    ensures Within(Last(buffered + [value], NUM_BUFFERED), low, high)
  {
  }

  lemma {:induction false} BufferWithin(buffered: seq<uint16>, pin: seq<uint16>, low: uint16, high: uint16)
    requires |buffered| == NUM_BUFFERED && Within(buffered, low, high) && Within(pin, low, high)
    ensures Within(BufferAfter(buffered, pin), low, high)
  {
    if |pin| > 0 {
      var before := pin[..|pin| - 1];
      BufferWithin(buffered, before, low, high);
      LastWithin(BufferAfter(buffered, before), pin[|pin| - 1], low, high);
    }
  }

  lemma DecisionsNext(buffered: seq<uint16>, before: seq<uint16>, value: uint16)
    requires |buffered| == NUM_BUFFERED
    ensures Decisions(buffered, before + [value]) ==
            Decisions(buffered, before) + [Accepts(BufferAfter(buffered, before), value)]
    ensures BufferAfter(buffered, before + [value]) == Last(BufferAfter(buffered, before) + [value], NUM_BUFFERED)
  {
    assert (before + [value])[..|before|] == before;
  }

  lemma PinNext(buffered: seq<uint16>, before: seq<uint16>, accept: bool) returns (value: uint16)
    requires |buffered| == NUM_BUFFERED && Within(buffered, 0, 1023) && Within(before, 0, 1023)
    ensures value == Choose(BufferAfter(buffered, before), accept)
    ensures Within(before + [value], 0, 1023)
    ensures Decisions(buffered, before + [value]) == Decisions(buffered, before) + [accept]
  {
    var after := BufferAfter(buffered, before);
    value := Choose(after, accept);
    BufferWithin(buffered, before, 0, 1023);
    EitherDecision(after, accept);
    DecisionsNext(buffered, before, value);
  }

  /** Every sequence of decisions is brought about by readings of a 10-bit converter. */
  lemma {:induction false} EveryDecisionsCanBe(buffered: seq<uint16>, decisions: seq<bool>)
    requires |buffered| == NUM_BUFFERED && Within(buffered, 0, 1023)
    ensures Within(PinFor(buffered, decisions), 0, 1023)
    ensures Decisions(buffered, PinFor(buffered, decisions)) == decisions
  {
    if |decisions| > 0 {
      var before := PinFor(buffered, decisions[..|decisions| - 1]);
      EveryDecisionsCanBe(buffered, decisions[..|decisions| - 1]);
      var value := PinNext(buffered, before, decisions[|decisions| - 1]);
      assert PinFor(buffered, decisions) == before + [value];
    }
  }

  /** Readings that follow the endless decisions; the longer they are, the more follow, the first stay. */
  function EndlessPin(buffered: seq<uint16>, n: nat): (pin: seq<uint16>)
    requires |buffered| == NUM_BUFFERED
    ensures |pin| == n
  {
    PinFor(buffered, EndlessDecisions(n))
  }

  lemma {:induction false} EndlessPinGrows(buffered: seq<uint16>, m: nat, n: nat)
    requires |buffered| == NUM_BUFFERED && m <= n
    ensures EndlessPin(buffered, n)[..m] == EndlessPin(buffered, m)
  {
    if m < n {
      assert EndlessDecisions(n)[..n - 1] == EndlessDecisions(n - 1);
      EndlessPinGrows(buffered, m, n - 1);
    }
  }

  // ---------------------------------------------------------------- sums

  lemma SumNext(values: seq<uint16>, value: uint16)
    ensures Sum(values + [value]) == Sum(values) + value as nat
  {
    assert (values + [value])[..|values|] == values;
  }

  predicate Within(values: seq<uint16>, low: uint16, high: uint16) {
    forall i :: 0 <= i < |values| ==> low <= values[i] <= high
  }

  lemma {:induction false} SumBounds(values: seq<uint16>, low: uint16, high: uint16)
    requires Within(values, low, high)
    ensures low as nat * |values| <= Sum(values) <= high as nat * |values|
  {
    if |values| > 0 {
      var n := |values| - 1;
      SumBounds(values[..n], low, high);
      OneMore(low as nat, n);
      OneMore(high as nat, n);
    }
  }

  lemma OneMore(a: nat, n: nat)
    ensures a * (n + 1) == a * n + a
  {
  }

  lemma MultiplyKeepsOrder(n: nat, a: nat, b: nat)
    requires a <= b
    ensures n * a <= n * b
  {
  }

  lemma MeanBounds(sum: nat, n: nat, low: nat, high: nat)
    requires n > 0 && low * n <= sum <= high * n
    ensures low <= sum / n <= high
  {
    var q := sum / n;
    assert n * q <= sum < n * (q + 1);
    if q < low {
      MultiplyKeepsOrder(n, q + 1, low);
    } else if q > high {
      MultiplyKeepsOrder(n, high + 1, q);
    }
  }

  // ---------------------------------------------------------------- reading

  /** What a call of `read` leaves: the values it accepted, the readings it took and the counter. */
  datatype Reading = Reading(buffered: seq<uint16>, accepted: seq<uint16>, taken: nat, i: uint8)

  function ReadAs(r: Reading, value: uint16, ok: bool): (next: Reading)
    requires |r.buffered| == NUM_BUFFERED
    ensures |next.buffered| == NUM_BUFFERED
  {
    Reading(Last(r.buffered + [value], NUM_BUFFERED), if ok then r.accepted + [value] else r.accepted, r.taken + 1,
            NextCount(r.i, ok))
  }

  function ReadOne(r: Reading, value: uint16): (next: Reading)
    requires |r.buffered| == NUM_BUFFERED
    ensures |next.buffered| == NUM_BUFFERED
  {
    ReadAs(r, value, Accepts(r.buffered, value))
  }

  /** The loop of `read`, up to the end of what is known of the readings. */
  function ReadOn(num: uint8, pin: seq<uint16>, r: Reading): (end: Reading)
    requires |r.buffered| == NUM_BUFFERED && r.taken <= |pin|
    ensures |end.buffered| == NUM_BUFFERED && r.taken <= end.taken <= |pin|
    decreases |pin| - r.taken
  {
    if r.i as int < num as int * 10 && r.taken < |pin| then ReadOn(num, pin, ReadOne(r, pin[r.taken])) else r
  }

  function Start(buffered: seq<uint16>): Reading { Reading(buffered, [], 0, 0) }

  /** The loop is left within the readings. */
  predicate LoopEnds(num: uint8, buffered: seq<uint16>, pin: seq<uint16>)
    requires |buffered| == NUM_BUFFERED
  {
    ReadOn(num, pin, Start(buffered)).i as int >= num as int * 10
  }

  /** The 8-bit number of values. */
  function NumValues(r: Reading): nat { |r.accepted| % 0x100 }

  /** The 32-bit sum of the values. */
  function WrappedSum(r: Reading): nat { Sum(r.accepted) % 0x1_0000_0000 }

  function Average(sum: nat, numValues: nat): uint16
    requires numValues > 0
  {
    (sum / numValues % 0x1_0000) as uint16
  }

  /** The average, cut to 16 bits; without values one more reading. */
  function Result(r: Reading, pin: seq<uint16>): uint16
    requires NumValues(r) == 0 ==> r.taken < |pin|
  {
    if NumValues(r) == 0 then pin[r.taken] else Average(WrappedSum(r), NumValues(r))
  }

  /** What `read` returns, if it returns within the readings. */
  function Outcome(num: uint8, r: Reading, pin: seq<uint16>): Option<uint16> {
    if r.i as int < num as int * 10 || (NumValues(r) == 0 && r.taken >= |pin|) then None else Some(Result(r, pin))
  }

  lemma MeanFits(values: seq<uint16>)
    requires |values| > 0
    ensures Sum(values) / |values| <= 0xffff
  {
    MeanBounds(Sum(values), |values|, 0, 0xffff);
  }

  lemma NothingWraps(sum: nat, n: nat)
    requires 0 < n <= 255 && sum <= n * 0xffff
    ensures sum % 0x1_0000_0000 == sum && n % 0x100 == n && sum / n <= 0xffff && Average(sum, n) as nat == sum / n
  {
    MeanBounds(sum, n, 0, 0xffff);
  }

  /** Up to 255 values neither the sum nor their number wraps around. */
  lemma ResultIsMean(r: Reading, pin: seq<uint16>)
    requires 0 < |r.accepted| <= 255
    ensures Result(r, pin) as nat == Sum(r.accepted) / |r.accepted|
  {
    NothingWraps(Sum(r.accepted), |r.accepted|);
  }

  /** The counter is ten for each accepted reading and one for each other; `low` and `high` bound the readings taken. */
  predicate Counted(num: uint8, r: Reading, low: uint16, high: uint16) {
    && r.i as int == |r.accepted| * 9 + r.taken < num as int * 10 + 10
    && |r.accepted| <= r.taken <= num as int * 10 && |r.accepted| <= num as int
    && Within(r.accepted, low, high)
  }

  lemma CountedNext(num: uint8, r: Reading, value: uint16, ok: bool, low: uint16, high: uint16)
    requires |r.buffered| == NUM_BUFFERED && num <= 24 && Counted(num, r, low, high) && low <= value <= high
    requires r.i as int < num as int * 10
    ensures Counted(num, ReadAs(r, value, ok), low, high)
  {
  }

  /** No more values are counted than wanted, each within the bounds of the readings. */
  lemma {:induction false} CountedToTheEnd(num: uint8, pin: seq<uint16>, r: Reading, low: uint16, high: uint16)
    requires num <= 24 && |r.buffered| == NUM_BUFFERED && r.taken <= |pin|
    requires Counted(num, r, low, high) && Within(pin, low, high)
    ensures Counted(num, ReadOn(num, pin, r), low, high)
    decreases |pin| - r.taken
  {
    if r.i as int < num as int * 10 && r.taken < |pin| {
      CountedNext(num, r, pin[r.taken], Accepts(r.buffered, pin[r.taken]), low, high);
      CountedToTheEnd(num, pin, ReadOne(r, pin[r.taken]), low, high);
    }
  }

  lemma AddModulo(a: nat, b: nat)
    ensures (a + b) % 0x1_0000_0000 == (a % 0x1_0000_0000 + b) % 0x1_0000_0000
  {
  }

  lemma AddWraps(r: Reading, value: uint16)
    requires |r.buffered| == NUM_BUFFERED
    ensures WrappedSum(ReadAs(r, value, true)) == (WrappedSum(r) + value as nat) % 0x1_0000_0000
    ensures NumValues(ReadAs(r, value, true)) == (NumValues(r) + 1) % 0x100
  {
    SumNext(r.accepted, value);
    AddModulo(Sum(r.accepted), value as nat);
  }

  /** What a turn of the loop counts: `i += 9` for an accepted value, then `i++`. */
  method Tally(sum: nat, numValues: nat, i: uint8, value: uint16, ok: bool, ghost r: Reading)
    returns (newSum: nat, newNumValues: nat, newI: uint8)
    requires |r.buffered| == NUM_BUFFERED && sum == WrappedSum(r) && numValues == NumValues(r) && i == r.i
    ensures newSum == WrappedSum(ReadAs(r, value, ok)) && newNumValues == NumValues(ReadAs(r, value, ok))
    ensures newI == ReadAs(r, value, ok).i
  {
    newSum, newNumValues, newI := sum, numValues, i;
    if ok {
      newSum, newNumValues := AddValue(sum, numValues, value, r);
      newI := ((newI as int + 9) % 0x100) as uint8;
    }
    newI := ((newI as int + 1) % 0x100) as uint8;
  }

  method AddValue(sum: nat, numValues: nat, value: uint16, ghost r: Reading) returns (newSum: nat, newNumValues: nat)
    requires |r.buffered| == NUM_BUFFERED && sum == WrappedSum(r) && numValues == NumValues(r)
    ensures newSum == WrappedSum(ReadAs(r, value, true)) && newNumValues == NumValues(ReadAs(r, value, true))
  {
    AddWraps(r, value);
    newSum := (sum + value as nat) % 0x1_0000_0000;
    newNumValues := (numValues + 1) % 0x100;
  }

  class ReadADC {
    const num: uint8
    var buffer: FixedCircularBuffer<uint16>

    ghost predicate Valid()
      reads this, buffer, buffer.values
    {
      buffer.Valid() && buffer.values.Length == NUM_BUFFERED && buffer.Size() == NUM_BUFFERED
    }

    /** Fills the buffer with 32 readings. */
    constructor (num: uint8, pin: seq<uint16>)
      requires |pin| == 32
      ensures Valid() && fresh(buffer) && fresh(buffer.values) && this.num == num
      ensures buffer.Contents() == pin && buffer.count == NUM_BUFFERED
    {
      this.num := num;
      buffer := new FixedCircularBuffer<uint16>(NUM_BUFFERED);
      new;
      for i := 0 to NUM_BUFFERED
        invariant fresh(buffer) && fresh(buffer.values) && buffer.Valid() && buffer.values.Length == NUM_BUFFERED
        invariant buffer.count == i && buffer.Contents() == pin[..i]
      {
        buffer.PushBack(pin[i]);
        assert pin[..i] + [pin[i]] == pin[..i + 1];
      }
      assert pin[..NUM_BUFFERED] == pin;
    }

    /** `_get`: the bounds from the mean over the buffer. */
    method Get() returns (min: uint16, max: uint16)
      requires Valid()
      ensures var mean := Sum(buffer.Contents()) / NUM_BUFFERED;
              min as nat == LowerBound(mean) && max as nat == UpperBound(mean)
    {
      ghost var contents := buffer.Contents();
      var mean, it := 0, buffer.Begin();
      while it != buffer.End()
        invariant buffer.Begin() <= it <= buffer.End() && mean == Sum(contents[..it - buffer.Begin()])
      {
        ghost var k := it - buffer.Begin();
        assert contents[..k + 1][..k] == contents[..k] && it == buffer.readPosition + k;
        mean := mean + buffer.At(it) as nat;
        it := it + 1;
      }
      assert contents[..NUM_BUFFERED] == contents;
      MeanFits(contents);
      mean := mean / buffer.Size();
      min := (mean * 1000 / 1004) as uint16;
      max := (mean * 1000 / 985 % 0x1_0000) as uint16;
    }

    /** Whether a reading is accepted by the bounds from before it; then it is buffered. */
    method TakeReading(value: uint16) returns (ok: bool)
      requires Valid() && buffer.count < SIZE_MAX
      modifies buffer, buffer.values
      ensures Valid() && buffer.values == old(buffer.values) && buffer.count == old(buffer.count) + 1
      ensures ok == Accepts(old(buffer.Contents()), value)
      ensures buffer.Contents() == Last(old(buffer.Contents()) + [value], NUM_BUFFERED)
    {
      var min, max := Get();
      ok := min <= value <= max;
      buffer.PushBack(value);
    }

    /** `pin` is what is known of the next readings; nothing is returned as long as more of them are needed. */
    method Read(pin: seq<uint16>) returns (result: Option<uint16>, ghost end: Reading)
      requires Valid() && buffer.count + |pin| <= SIZE_MAX
      modifies buffer, buffer.values
      ensures Valid() && buffer.values == old(buffer.values)
      ensures end == ReadOn(num, pin, Start(old(buffer.Contents())))
      ensures result == Outcome(num, end, pin)
      ensures buffer.Contents() == if NumValues(end) == 0 && result.Some?
                                   then Last(end.buffered + [result.value], NUM_BUFFERED) else end.buffered
    {
      var sum, numValues, taken := 0, 0, 0;
      var i: uint8 := 0;
      end := Start(buffer.Contents());
      ghost var final := ReadOn(num, pin, end);
      while i as int < num as int * 10 && taken < |pin|
        invariant Valid() && buffer.values == old(buffer.values) && taken <= |pin|
        invariant buffer.count == old(buffer.count) + taken
        invariant end.buffered == buffer.Contents() && end.taken == taken
        invariant sum == WrappedSum(end) && numValues == NumValues(end) && i == end.i
        invariant final == ReadOn(num, pin, end)
        decreases |pin| - taken
      {
        var ok := TakeReading(pin[taken]);
        sum, numValues, i := Tally(sum, numValues, i, pin[taken], ok, end);
        end := ReadAs(end, pin[taken], ok);
        taken := taken + 1;
      }
      if i as int >= num as int * 10 {
        result := Conclude(sum, numValues, pin, taken);
      } else {
        result := None;
      }
    }

    /** The average of the values counted; when there are none, one more reading. */
    method Conclude(sum: nat, numValues: nat, pin: seq<uint16>, taken: nat) returns (result: Option<uint16>)
      requires Valid() && taken <= |pin| && (taken < |pin| ==> buffer.count < SIZE_MAX)
      modifies buffer, buffer.values
      ensures Valid() && buffer.values == old(buffer.values)
      ensures numValues == 0 ==> result == if taken < |pin| then Some(pin[taken]) else None
      ensures numValues > 0 ==> result == Some(Average(sum, numValues))
      ensures buffer.Contents() == if numValues == 0 && result.Some?
                                   then Last(old(buffer.Contents()) + [result.value], NUM_BUFFERED)
                                   else old(buffer.Contents())
    {
      if numValues == 0 {
        if taken == |pin| {
          return None;
        }
        buffer.PushBack(pin[taken]);
        result := Some(pin[taken]);
      } else {
        result := Some(Average(sum, numValues));
      }
    }
  }

  // ---------------------------------------------------------------- what is returned

  /** With a value accepted, the result lies between the smallest and the largest of those accepted. */
  lemma ResultBetweenAccepted(r: Reading, pin: seq<uint16>, low: uint16, high: uint16)
    requires 0 < |r.accepted| <= 255 && Within(r.accepted, low, high)
    ensures low <= Result(r, pin) <= high
  {
    ResultIsMean(r, pin);
    SumBounds(r.accepted, low, high);
    MeanBounds(Sum(r.accepted), |r.accepted|, low as nat, high as nat);
  }

  /** Up to 24 values `read` returns, within the range of the readings: a constant input comes back as it is. */
  lemma ResultBetweenReadings(num: uint8, pin: seq<uint16>, buffered: seq<uint16>, low: uint16, high: uint16)
    requires num <= 24 && |pin| > num as int * 10 && Within(pin, low, high) && |buffered| == NUM_BUFFERED
    ensures var result := Outcome(num, ReadOn(num, pin, Start(buffered)), pin);
            result.Some? && low <= result.value <= high
  {
    var end := ReadOn(num, pin, Start(buffered));
    CountedToTheEnd(num, pin, Start(buffered), low, high);
    EndsFor24(num, Decisions(buffered, pin));
    EndsWithDecisions(num, pin, buffered);
    if |end.accepted| > 0 {
      ResultBetweenAccepted(end, pin, low, high);
    }
  }

  lemma ConstantIsAccepted(buffered: seq<uint16>, v: uint16)
    requires |buffered| == NUM_BUFFERED && Within(buffered, v, v)
    ensures Accepts(buffered, v) <==> v <= 64552
  {
    SumBounds(buffered, v, v);
    MeanBounds(Sum(buffered), NUM_BUFFERED, v as nat, v as nat);
  }

  /** A steady input below the 16-bit overflow of the upper bound is accepted every time: `num` readings are enough. */
  lemma {:induction false} SteadyInputTakesNum(num: uint8, pin: seq<uint16>, v: uint16, r: Reading)
    requires num <= 25 && v <= 64552 && num as int <= |pin| && Within(pin, v, v)
    requires |r.buffered| == NUM_BUFFERED && Within(r.buffered, v, v)
    requires |r.accepted| == r.taken <= num as int && r.i as int == 10 * r.taken
    ensures var end := ReadOn(num, pin, r); |end.accepted| == end.taken == num as int
    decreases |pin| - r.taken
  {
    if r.i as int < num as int * 10 {
      ConstantIsAccepted(r.buffered, v);
      SteadyInputTakesNum(num, pin, v, ReadOne(r, pin[r.taken]));
    }
  }

  // ---------------------------------------------------------------- when it returns

  /** Where the loop is after some readings, all of which it took. */
  predicate Follows(num: uint8, pin: seq<uint16>, buffered: seq<uint16>, r: Reading)
    requires |buffered| == NUM_BUFFERED
  {
    && r.taken <= |pin|
    && r.buffered == BufferAfter(buffered, pin[..r.taken])
    && r.i == CountAfter(Decisions(buffered, pin[..r.taken]))
    && (r.i as int < num as int * 10 ==> !Ends(num, Decisions(buffered, pin[..r.taken])))
  }

  lemma EndsStays(num: uint8, decisions: seq<bool>, next: seq<bool>)
    requires decisions <= next && Ends(num, decisions)
    ensures Ends(num, next)
  {
    var k :| 0 <= k <= |decisions| && CountAfter(decisions[..k]) as int >= num as int * 10;
    assert next[..k] == decisions[..k];
  }

  lemma EndsBefore(num: uint8, decisions: seq<bool>, ok: bool)
    requires Ends(num, decisions + [ok]) && CountAfter(decisions + [ok]) as int < num as int * 10
    ensures Ends(num, decisions)
  {
    var next := decisions + [ok];
    var k :| 0 <= k <= |next| && CountAfter(next[..k]) as int >= num as int * 10;
    assert next[..|next|] == next;
    assert next[..k] == decisions[..k];
  }

  lemma EndsNext(num: uint8, decisions: seq<bool>, ok: bool)
    ensures CountAfter(decisions + [ok]) == NextCount(CountAfter(decisions), ok)
    ensures Ends(num, decisions + [ok]) <==>
            Ends(num, decisions) || CountAfter(decisions + [ok]) as int >= num as int * 10
  {
    var next := decisions + [ok];
    assert next[..|decisions|] == decisions && next[..|next|] == next;
    if Ends(num, decisions) {
      EndsStays(num, decisions, next);
    } else if CountAfter(next) as int < num as int * 10 && Ends(num, next) {
      EndsBefore(num, decisions, ok);
    }
  }

  lemma FollowsNext(num: uint8, pin: seq<uint16>, buffered: seq<uint16>, r: Reading)
    requires |buffered| == NUM_BUFFERED && Follows(num, pin, buffered, r)
    requires r.taken < |pin| && r.i as int < num as int * 10
    ensures Follows(num, pin, buffered, ReadOne(r, pin[r.taken]))
  {
    var before := pin[..r.taken];
    assert pin[..r.taken + 1] == before + [pin[r.taken]];
    DecisionsNext(buffered, before, pin[r.taken]);
    EndsNext(num, Decisions(buffered, before), Accepts(r.buffered, pin[r.taken]));
  }

  lemma {:induction false} DecisionsPrefix(buffered: seq<uint16>, pin: seq<uint16>, k: nat)
    requires |buffered| == NUM_BUFFERED && k <= |pin|
    ensures Decisions(buffered, pin)[..k] == Decisions(buffered, pin[..k])
  {
    if k < |pin| {
      DecisionsPrefix(buffered, pin[..|pin| - 1], k);
      assert pin[..|pin| - 1][..k] == pin[..k];
    } else {
      assert pin[..k] == pin;
    }
  }

  lemma {:induction false} ReadOnFollows(num: uint8, pin: seq<uint16>, buffered: seq<uint16>, r: Reading)
    requires |buffered| == NUM_BUFFERED && Follows(num, pin, buffered, r)
    ensures ReadOn(num, pin, r).i as int >= num as int * 10 <==> Ends(num, Decisions(buffered, pin))
    decreases |pin| - r.taken
  {
    if r.i as int >= num as int * 10 {
      DecisionsPrefix(buffered, pin, r.taken);
    } else if r.taken < |pin| {
      FollowsNext(num, pin, buffered, r);
      ReadOnFollows(num, pin, buffered, ReadOne(r, pin[r.taken]));
    } else {
      assert pin[..r.taken] == pin;
    }
  }

  /** The loop is left within the readings exactly when it is within the decisions they bring about. */
  lemma EndsWithDecisions(num: uint8, pin: seq<uint16>, buffered: seq<uint16>)
    requires |buffered| == NUM_BUFFERED
    ensures LoopEnds(num, buffered, pin) <==> Ends(num, Decisions(buffered, pin))
  {
    ReadOnFollows(num, pin, buffered, Start(buffered));
  }

  /** From 25 values wanted on there are endless readings of a 10-bit converter with which `read` does not return. */
  lemma NeverReturnsFrom25(num: uint8, buffered: seq<uint16>, n: nat)
    requires num >= 25 && |buffered| == NUM_BUFFERED && Within(buffered, 0, 1023)
    ensures Within(EndlessPin(buffered, n), 0, 1023) && !LoopEnds(num, buffered, EndlessPin(buffered, n))
    ensures forall m: nat | m <= n :: EndlessPin(buffered, n)[..m] == EndlessPin(buffered, m)
  {
    EveryDecisionsCanBe(buffered, EndlessDecisions(n));
    NeverEndsFrom25(num, n);
    EndsWithDecisions(num, EndlessPin(buffered, n), buffered);
    forall m: nat | m <= n ensures EndlessPin(buffered, n)[..m] == EndlessPin(buffered, m) {
      EndlessPinGrows(buffered, m, n);
    }
  }

  /** However a 10-bit converter reads, the loop is left within n readings. */
  ghost predicate EndsWithin(num: uint8, buffered: seq<uint16>, n: nat)
    requires |buffered| == NUM_BUFFERED
  {
    forall pin: seq<uint16> | |pin| == n && Within(pin, 0, 1023) :: LoopEnds(num, buffered, pin)
  }

  /** There is a number of readings within which the loop is left exactly when at most 24 values are wanted. */
  lemma EndsExactlyFor24(num: uint8, buffered: seq<uint16>)
    requires |buffered| == NUM_BUFFERED && Within(buffered, 0, 1023)
    ensures num <= 24 <==> exists n: nat :: EndsWithin(num, buffered, n)
  {
    if num <= 24 {
      forall pin: seq<uint16> | |pin| == num as int * 10 && Within(pin, 0, 1023) ensures LoopEnds(num, buffered, pin) {
        EndsFor24(num, Decisions(buffered, pin));
        EndsWithDecisions(num, pin, buffered);
      }
      assert EndsWithin(num, buffered, num as int * 10);
    } else {
      forall n: nat ensures !EndsWithin(num, buffered, n) {
        NeverReturnsFrom25(num, buffered, n);
      }
    }
  }

  /** Some readings end the loop exactly when at most 25 values are wanted: from 26 on none do. */
  lemma CanEndExactlyUpTo25(num: uint8, buffered: seq<uint16>)
    requires |buffered| == NUM_BUFFERED && Within(buffered, 0, 1023)
    ensures num <= 25 <==> exists pin: seq<uint16> :: LoopEnds(num, buffered, pin)
  {
    if num <= 25 {
      var decisions := seq(num as int, i => true);
      EveryDecisionsCanBe(buffered, decisions);
      AllAccepted(num as int);
      assert decisions[..|decisions|] == decisions;
      EndsWithDecisions(num, PinFor(buffered, decisions), buffered);
    }
  }

  lemma {:induction false} AllAccepted(n: nat)
    requires n <= 25
    ensures CountAfter(seq(n, i => true)) as int == 10 * n
  {
    if n > 0 {
      AllAccepted(n - 1);
      assert seq(n, i => true)[..n - 1] == seq(n - 1, i => true);
    }
  }

  /** Whether `read` returns within the readings: when the loop ends, and there is a value or one more reading. */
  lemma ReturnsExactly(num: uint8, pin: seq<uint16>, buffered: seq<uint16>)
    requires |buffered| == NUM_BUFFERED
    ensures var end := ReadOn(num, pin, Start(buffered));
            Outcome(num, end, pin).Some? <==>
            Ends(num, Decisions(buffered, pin)) && (|end.accepted| % 0x100 > 0 || end.taken < |pin|)
  {
    EndsWithDecisions(num, pin, buffered);
  }

  lemma {:induction false} DecisionAt(buffered: seq<uint16>, pin: seq<uint16>, k: nat)
    requires |buffered| == NUM_BUFFERED && k < |pin|
    ensures Decisions(buffered, pin)[k] == Accepts(BufferAfter(buffered, pin[..k]), pin[k])
  {
    var before := pin[..|pin| - 1];
    if k < |before| {
      DecisionAt(buffered, before, k);
      assert before[..k] == pin[..k];
    }
  }

  lemma RejectOne(r: Reading, value: uint16) returns (next: Reading)
    requires |r.buffered| == NUM_BUFFERED && !Accepts(r.buffered, value)
    ensures next == ReadOne(r, value) && next.accepted == r.accepted
    ensures next.taken == r.taken + 1 && (r.i < 255 ==> next.i == r.i + 1)
  {
    next := ReadOne(r, value);
  }

  lemma {:induction false} RejectedToTheEnd(num: uint8, pin: seq<uint16>, buffered: seq<uint16>, r: Reading)
    requires |buffered| == NUM_BUFFERED && num <= 24 && num as int * 10 < |pin| && Follows(num, pin, buffered, r)
    requires |r.accepted| == 0 && r.i as int == r.taken <= num as int * 10
    requires forall k :: 0 <= k < num as int * 10 ==> !Decisions(buffered, pin)[k]
    ensures var end := ReadOn(num, pin, r); |end.accepted| == 0 && end.i as int == end.taken == num as int * 10
    decreases |pin| - r.taken
  {
    if r.taken < num as int * 10 {
      DecisionAt(buffered, pin, r.taken);
      FollowsNext(num, pin, buffered, r);
      var next := RejectOne(r, pin[r.taken]);
      RejectedToTheEnd(num, pin, buffered, next);
    }
  }

  /** When ten readings for each value wanted are all rejected, the one behind them is returned as it is. */
  lemma RejectedReturnsNext(num: uint8, pin: seq<uint16>, buffered: seq<uint16>)
    requires |buffered| == NUM_BUFFERED && num <= 24 && num as int * 10 < |pin|
    requires forall k :: 0 <= k < num as int * 10 ==> !Decisions(buffered, pin)[k]
    ensures Outcome(num, ReadOn(num, pin, Start(buffered)), pin) == Some(pin[num as int * 10])
  {
    assert CountAfter([]) == 0;
    RejectedToTheEnd(num, pin, buffered, Start(buffered));
  }
}
