/**
 The ring of lib/KFCBaseLibrary/include/FixedCircularBuffer.h: counters that only grow, storage that is used modulo its
 size. The contents are stated as a sequence; every operation is shown to act on it as on a bounded queue.
 */
module CircularBuffers {
  const SIZE_MAX: nat := 0xffff_ffff

  /** The slots `from` to `to - 1`, each taken modulo the size of the storage. */
  function Ring<T>(values: seq<T>, from: nat, to: nat): (r: seq<T>)
    requires |values| > 0 && from <= to
    ensures |r| == to - from
    ensures forall i :: 0 <= i < |r| ==> r[i] == values[Slot(from + i, |values|)]
  {
    seq(to - from, i requires 0 <= i < to - from => values[Slot(from + i, |values|)])
  }

  /** The position modulo the size, one round at a time. */
  function Slot(position: nat, size: nat): (slot: nat)
    requires size > 0
    ensures slot < size
  {
    if position < size then position else Slot(position - size, size)
  }

  lemma {:induction false} SlotIsRemainder(position: nat, size: nat)
    requires size > 0
    ensures Slot(position, size) == position % size
  {
    if position >= size {
      SlotIsRemainder(position - size, size);
      RemainderOfRound(position, size);
    }
  }

  lemma RemainderOfRound(position: nat, size: nat)
    requires 0 < size <= position
    ensures (position - size) % size == position % size
  {
    var q, r := position / size, position % size;
    assert position - size == size * (q - 1) + r;
    MultiplesApart(size, (position - size) / size - (q - 1));
  }

  lemma MultiplesApart(size: int, q: int)
    requires size > 0
    ensures q > 0 ==> size * q >= size
    ensures q < 0 ==> size * q <= 0 - size
  {
  }

  /** The last `n` elements, or all when there are fewer. */
  function Last<T>(s: seq<T>, n: nat): seq<T> {
    if |s| <= n then s else s[|s| - n..]
  }

  // ---------------------------------------------------------------- modular positions

  /** Positions less than one round apart have slots of their own. */
  lemma {:induction false} SlotsDiffer(i: nat, j: nat, size: nat)
    requires size > 0 && i < j < i + size
    ensures Slot(i, size) != Slot(j, size)
  {
    if i >= size {
      SlotsDiffer(i - size, j - size, size);
    }
  }

  /** A position may be reduced modulo the size before more is added to it. */
  lemma {:induction false} SlotOfSum(i: nat, k: nat, size: nat)
    requires size > 0
    ensures Slot(Slot(i, size) + k, size) == Slot(i + k, size)
  {
    if i >= size {
      SlotOfSum(i - size, k, size);
    }
  }

  lemma RingFromSlot<T>(values: seq<T>, from: nat, length: nat)
    requires |values| > 0
    ensures Ring(values, Slot(from, |values|), Slot(from, |values|) + length) == Ring(values, from, from + length)
  {
    var start := Slot(from, |values|);
    var reduced, ring := Ring(values, start, start + length), Ring(values, from, from + length);
    forall i | 0 <= i < length ensures reduced[i] == ring[i] {
      SlotOfSum(from, i, |values|);
    }
  }

  /** A part of the ring is the same part of its contents. */
  lemma RingPart<T>(values: seq<T>, from: nat, to: nat, first: nat, last: nat)
    requires |values| > 0 && from <= first <= last <= to
    ensures Ring(values, first, last) == Ring(values, from, to)[first - from..last - from]
  {
    forall i | 0 <= i < last - first
      ensures Ring(values, first, last)[i] == Ring(values, from, to)[first - from..last - from][i]
    {
      assert first + i == from + (first - from + i);
    }
  }

  /** Writing behind the contents: all but what is a whole round older survives. */
  lemma RingPush<T>(values: seq<T>, from: nat, to: nat, x: T)
    requires |values| > 0 && from <= to < from + |values|
    ensures Ring(values[Slot(to, |values|) := x], from, to + 1) == Ring(values, from, to) + [x]
  {
    var after := values[Slot(to, |values|) := x];
    forall i | 0 <= i < to + 1 - from ensures Ring(after, from, to + 1)[i] == (Ring(values, from, to) + [x])[i] {
      if i < to - from {
        SlotsDiffer(from + i, to, |values|);
      }
    }
  }

  /** A push as a whole; the oldest element goes when the ring is full. */
  lemma RingPushLast<T>(values: seq<T>, from: nat, to: nat, x: T, rest: nat)
    requires |values| > 0 && from <= to <= from + |values|
    requires rest == if to - from == |values| then from + 1 else from
    ensures Ring(values[Slot(to, |values|) := x], rest, to + 1) == Last(Ring(values, from, to) + [x], |values|)
  {
    var ring := Ring(values, from, to);
    RingPush(values, rest, to, x);
    RingPart(values, from, to, rest, to);
    if rest == from {
      assert ring[0..to - from] == ring;
    } else {
      assert (ring + [x])[1..] == ring[1..to - from] + [x];
    }
  }

  lemma LastOfLast<T>(s: seq<T>, x: T, n: nat)
    requires n > 0
    ensures Last(Last(s, n) + [x], n) == Last(s + [x], n)
  {
  }

  lemma RingNext<T>(values: seq<T>, from: nat, to: nat)
    requires |values| > 0 && from <= to
    ensures Ring(values, from, to + 1) == Ring(values, from, to) + [values[Slot(to, |values|)]]
  {
  }

  lemma LastOfNone<T>(s: seq<T>, values: seq<T>, first: nat, n: nat)
    requires |values| > 0 && |s| <= n
    ensures s == Last(s + Ring(values, first, first), n)
  {
    assert s + Ring(values, first, first) == s;
  }

  lemma LastOfNext<T>(s: seq<T>, ring: seq<T>, x: T, n: nat)
    requires n > 0
    ensures Last(Last(s + ring, n) + [x], n) == Last(s + (ring + [x]), n)
  {
    LastOfLast(s + ring, x, n);
    assert s + (ring + [x]) == s + ring + [x];
  }

  // ---------------------------------------------------------------- the buffer

  /** An iterator is the distance of its pointer from the first slot. */
  type Iterator = nat

  class FixedCircularBuffer<T(0)> {
    var values: array<T>
    var count: nat
    var writePosition: nat
    var readPosition: nat
    var locked: bool

    ghost predicate Valid()
      reads this
    {
      && 0 < values.Length
      && readPosition <= count <= readPosition + values.Length
      && writePosition == Slot(count, values.Length)
    }

    ghost function Contents(): (contents: seq<T>)
      requires Valid()
      reads this, values
      ensures |contents| == count - readPosition <= values.Length
    {
      Ring(values[..], readPosition, count)
    }

    constructor (size: nat)
      requires 0 < size
      ensures Valid() && fresh(values) && values.Length == size && |Contents()| == 0 && !locked && count == 0
    {
      values := new T[size];
      count, writePosition, readPosition, locked := 0, 0, 0, false;
    }

    function Size(): (size: nat)
      requires Valid()
      reads this, values
      ensures size == |Contents()|
    {
      count - readPosition
    }

    function Begin(): Iterator
      reads this
    {
      readPosition
    }

    function End(): Iterator
      reads this
    {
      count
    }

    function At(it: Iterator): T
      requires Valid()
      reads this, values
    {
      values[Slot(it, values.Length)]
    }

    /** Moves on behind the slot just written; a full buffer gives up its oldest element. */
    method MoveOn()
      requires Valid() && count < SIZE_MAX
      modifies `count, `writePosition, `readPosition
      ensures Valid() && count == old(count) + 1
      ensures readPosition == if old(count) - old(readPosition) == values.Length then old(readPosition) + 1
                              else old(readPosition)
    {
      SlotOfSum(count, 1, values.Length);
      writePosition := Slot(writePosition + 1, values.Length);
      count := count + 1;
      if count - readPosition > values.Length {
        readPosition := readPosition + 1;
      }
    }

    /** The oldest element goes when there is no room for the new one. */
    method PushBack(value: T)
      requires Valid() && count < SIZE_MAX
      modifies `count, `writePosition, `readPosition, values
      ensures Valid() && Contents() == Last(old(Contents()) + [value], values.Length)
      ensures count == old(count) + 1
    {
      ghost var before, from, to := values[..], readPosition, count;
      values[writePosition] := value;
      assert values[..] == before[Slot(to, |before|) := value];
      MoveOn();
      RingPushLast(before, from, to, value, readPosition);
    }

    /** A locked buffer drops the value. */
    method PushBackNoBlock(value: T)
      requires Valid() && count < SIZE_MAX
      modifies `count, `writePosition, `readPosition, values
      ensures Valid()
      ensures Contents() == if locked then old(Contents()) else Last(old(Contents()) + [value], values.Length)
    {
      if !locked {
        PushBack(value);
      }
    }

    method PopFront() returns (value: T)
      requires Valid() && Size() > 0
      modifies `readPosition
      ensures Valid() && old(Contents()) == [value] + Contents()
    {
      RingPart(values[..], readPosition, count, readPosition + 1, count);
      value := Front();
      assert value == Contents()[0];
      readPosition := readPosition + 1;
    }

    method Front() returns (value: T)
      requires Valid() && Size() > 0
      ensures value == Contents()[0]
    {
      assert Contents()[0] == values[..][Slot(readPosition + 0, values.Length)];
      value := At(Begin());
    }

    method Back() returns (value: T)
      requires Valid() && Size() > 0
      ensures value == Contents()[|Contents()| - 1]
    {
      assert readPosition + (|Contents()| - 1) == count - 1;
      value := At(End() - 1);
    }

    method Clear()
      requires Valid()
      modifies `count, `writePosition, `readPosition, `locked
      ensures Valid() && Contents() == [] && !locked
    {
      count, writePosition, readPosition, locked := 0, 0, 0, false;
    }

    /** A loop over the iterators `first` to `last`. */
    method Iterate(first: Iterator, last: Iterator) returns (seen: seq<T>)
      requires Valid() && first <= last
      ensures seen == Ring(values[..], first, last)
      ensures readPosition <= first && last <= count ==> seen == Contents()[first - readPosition..last - readPosition]
    {
      seen := [];
      var it := first;
      while it != last
        invariant first <= it <= last && seen == Ring(values[..], first, it)
      {
        seen := seen + [At(it)];
        it := it + 1;
      }
      if readPosition <= first && last <= count {
        RingPart(values[..], readPosition, count, first, last);
      }
    }

    method IterateAll() returns (seen: seq<T>)
      requires Valid()
      ensures seen == Contents()
    {
      seen := Iterate(Begin(), End());
    }

    /** A buffer of the same size with the elements between the iterators, which must not be more than fit. */
    method Slice(first: Iterator, last: Iterator) returns (tmp: FixedCircularBuffer<T>)
      requires Valid() && first <= last <= first + values.Length
      ensures fresh(tmp) && fresh(tmp.values) && tmp.Valid() && tmp.values.Length == values.Length
      ensures tmp.Contents() == Ring(values[..], first, last)
    {
      tmp := new FixedCircularBuffer<T>(values.Length);
      var it := first;
      while it != last
        invariant first <= it <= last && fresh(tmp) && fresh(tmp.values) && tmp.values.Length == values.Length
        invariant tmp.count == it - first && tmp.readPosition == 0 && values[..] == old(values[..])
        invariant tmp.values[..it - first] == Ring(values[..], first, it)
      {
        tmp.values[tmp.count] := At(it);
        tmp.count := tmp.count + 1;
        it := it + 1;
      }
      tmp.writePosition := Slot(tmp.count, values.Length);
      RingFromStart(tmp.values[..], last - first);
    }

    static lemma RingFromStart(values: seq<T>, length: nat)
      requires 0 < |values| && length <= |values|
      ensures Ring(values, 0, length) == values[..length]
    {
    }

    /** Keeps the elements between the iterators and counts from the first round on. */
    method Shrink(first: Iterator, last: Iterator)
      requires Valid() && first <= last <= first + values.Length
      modifies `count, `writePosition, `readPosition
      ensures Valid() && Contents() == Ring(values[..], first, last)
      ensures old(readPosition) <= first && last <= old(count) ==>
                Contents() == old(Contents())[first - old(readPosition)..last - old(readPosition)]
    {
      RingFromSlot(values[..], first, last - first);
      SlotOfSum(first, last - first, values.Length);
      if readPosition <= first && last <= count {
        RingPart(values[..], readPosition, count, first, last);
      }
      readPosition := Slot(first, values.Length);
      writePosition := Slot(last, values.Length);
      count := last - first + readPosition;
    }

    /** Pushes the elements between the iterators to a buffer of any other size. */
    method Copy(target: FixedCircularBuffer<T>, first: Iterator, last: Iterator)
      requires Valid() && target.Valid() && first <= last && target.count + (last - first) <= SIZE_MAX
      requires target != this && target.values != values
      modifies target`count, target`writePosition, target`readPosition, target.values
      ensures target.Valid()
      ensures target.Contents() ==
              Last(old(target.Contents()) + old(Ring(values[..], first, last)), target.values.Length)
    {
      ghost var before, source := target.Contents(), values[..];
      ghost var copied := [];
      LastOfNone(before, source, first, target.values.Length);
      var it := first;
      while it != last
        invariant first <= it <= last && target.Valid()
        invariant target.count == old(target.count) + (it - first)
        invariant target.values == old(target.values) && unchanged(this) && unchanged(values)
        invariant copied == Ring(source, first, it)
        invariant target.Contents() == Last(before + copied, target.values.Length)
      {
        var value := At(it);
        RingNext(source, first, it);
        target.PushNext(value, before, copied);
        copied := copied + [value];
        it := it + 1;
      }
    }

    method PushNext(value: T, ghost before: seq<T>, ghost copied: seq<T>)
      requires Valid() && count < SIZE_MAX && Contents() == Last(before + copied, values.Length)
      modifies `count, `writePosition, `readPosition, values
      ensures Valid() && count == old(count) + 1 && Contents() == Last(before + (copied + [value]), values.Length)
    {
      LastOfNext(before, copied, value, values.Length);
      PushBack(value);
    }

    /** Move assignment; only as many slots as there are elements are copied, from the first slot on. */
    method MoveFrom(buffer: FixedCircularBuffer<T>)
      requires Valid() && buffer.Valid() && buffer.values.Length == values.Length
      requires buffer != this && buffer.values != values
      modifies `count, `writePosition, `readPosition, `locked, values
      modifies buffer`count, buffer`writePosition, buffer`readPosition, buffer`locked
      ensures Valid() && buffer.Valid() && buffer.Contents() == []
      ensures Contents() == Ring(Moved(old(buffer.values[..]), old(values[..]), old(buffer.Size())),
                                 old(buffer.readPosition), old(buffer.count))
      ensures locked == old(buffer.locked) && !buffer.locked
    {
      count, writePosition, readPosition := buffer.count, buffer.writePosition, buffer.readPosition;
      locked := buffer.locked;
      CopySlots(buffer.values, Size());
      buffer.Clear();
    }

    method CopySlots(source: array<T>, n: nat)
      requires n <= source.Length == values.Length && source != values
      modifies values
      ensures values[..] == Moved(source[..], old(values[..]), n)
    {
      for i := 0 to n
        invariant values[..] == Moved(source[..], old(values[..]), i)
      {
        values[i] := source[i];
      }
    }
  }

  // ---------------------------------------------------------------- what a move keeps

  /** The storage after `memcpy` of n slots. */
  function Moved<T>(source: seq<T>, target: seq<T>, n: nat): (moved: seq<T>)
    requires n <= |source| == |target|
    ensures |moved| == |source|
  {
    source[..n] + target[n..]
  }

  /** Nothing to move, a full buffer, or elements that start in the first slot. */
  predicate MoveIsComplete(size: nat, readPosition: nat, count: nat)
    requires 0 < size && readPosition <= count
  {
    readPosition == count || count - readPosition == size || Slot(readPosition, size) == 0
  }

  lemma MoveKeepsContents<T>(source: seq<T>, target: seq<T>, readPosition: nat, count: nat)
    requires 0 < |source| == |target| && readPosition <= count <= readPosition + |source|
    requires MoveIsComplete(|source|, readPosition, count)
    ensures Ring(Moved(source, target, count - readPosition), readPosition, count) == Ring(source, readPosition, count)
  {
    var n := count - readPosition;
    var moved := Moved(source, target, n);
    forall i | 0 <= i < n ensures Ring(moved, readPosition, count)[i] == Ring(source, readPosition, count)[i] {
      if n < |source| {
        SlotOfSum(readPosition, i, |source|);
      }
    }
  }

  /** Otherwise some element is read from a slot that was not copied. */
  lemma MoveMissesSlot(size: nat, readPosition: nat, count: nat) returns (i: nat)
    requires 0 < size && readPosition <= count <= readPosition + size
    requires !MoveIsComplete(size, readPosition, count)
    ensures i < count - readPosition <= Slot(readPosition + i, size)
  {
    var n, r := count - readPosition, Slot(readPosition, size);
    // n consecutive slots from r > 0 on, fewer than there are, cannot be the first n
    i := if r + n <= size then n - 1 else size - 1 - r;
    SlotOfSum(readPosition, i, size);
  }

  /** A move keeps the contents, whatever was stored in the target before, exactly when it is complete. */
  lemma MoveIsFaithfulExactlyWhenComplete<T(!new)>(source: seq<T>, readPosition: nat, count: nat, a: T, b: T)
    requires 0 < |source| && readPosition <= count <= readPosition + |source| && a != b
    ensures MoveIsComplete(|source|, readPosition, count) <==>
            forall target: seq<T> | |target| == |source| ::
              Ring(Moved(source, target, count - readPosition), readPosition, count)
              == Ring(source, readPosition, count)
  {
    if MoveIsComplete(|source|, readPosition, count) {
      forall target: seq<T> | |target| == |source|
        ensures Ring(Moved(source, target, count - readPosition), readPosition, count)
                == Ring(source, readPosition, count)
      {
        MoveKeepsContents(source, target, readPosition, count);
      }
    } else {
      var i := MoveMissesSlot(|source|, readPosition, count);
      var other := if Ring(source, readPosition, count)[i] == a then b else a;
      var target := seq(|source|, _ => other);
      assert Ring(Moved(source, target, count - readPosition), readPosition, count)[i] == other;
    }
  }

  // ---------------------------------------------------------------- runs

  /** Pops are only made when there is something to pop. */
  datatype Op<T> = Push(x: T) | PopIfAny

  /** All that was pushed, and how many of that are gone, popped or overwritten. */
  datatype History<T> = History(pushed: seq<T>, gone: nat)

  predicate Fits<T>(h: History<T>, size: nat) {
    h.gone <= |h.pushed| <= h.gone + size
  }

  function Left<T>(h: History<T>): seq<T>
    requires h.gone <= |h.pushed|
  {
    h.pushed[h.gone..]
  }

  /** A push takes the oldest element with it when the buffer is full; a pop takes the oldest one if there is any. */
  function Next<T>(h: History<T>, size: nat, op: Op<T>): (next: History<T>)
    requires 0 < size && Fits(h, size)
    ensures Fits(next, size)
  {
    match op
    case Push(x) => History(h.pushed + [x], if |h.pushed| == h.gone + size then h.gone + 1 else h.gone)
    case PopIfAny => History(h.pushed, if h.gone < |h.pushed| then h.gone + 1 else h.gone)
  }

  /** What an operation returns. */
  function Out<T>(h: History<T>, op: Op<T>): seq<T> {
    if op.PopIfAny? && h.gone < |h.pushed| then [h.pushed[h.gone]] else []
  }

  function HistoryOf<T>(size: nat, ops: seq<Op<T>>): (h: History<T>)
    requires 0 < size
    ensures Fits(h, size)
  {
    if |ops| == 0 then History([], 0) else Next(HistoryOf(size, ops[..|ops| - 1]), size, ops[|ops| - 1])
  }

  /** What the pops return: each time the oldest element not gone. */
  function Popped<T>(size: nat, ops: seq<Op<T>>): seq<T>
    requires 0 < size
  {
    if |ops| == 0 then []
    else
      var before := ops[..|ops| - 1];
      Popped(size, before) + Out(HistoryOf(size, before), ops[|ops| - 1])
  }

  function AllPushed<T>(ops: seq<Op<T>>): seq<T> {
    if |ops| == 0 then []
    else
      var before, op := AllPushed(ops[..|ops| - 1]), ops[|ops| - 1];
      if op.Push? then before + [op.x] else before
  }

  lemma {:induction false} HistoryIsAllPushed<T>(size: nat, ops: seq<Op<T>>)
    requires 0 < size
    ensures HistoryOf(size, ops).pushed == AllPushed(ops) && |AllPushed(ops)| <= |ops|
  {
    if |ops| > 0 {
      HistoryIsAllPushed(size, ops[..|ops| - 1]);
    }
  }

  predicate OnlyPushes<T>(ops: seq<Op<T>>) {
    |ops| == 0 || (ops[|ops| - 1].Push? && OnlyPushes(ops[..|ops| - 1]))
  }

  /** Pushes alone leave the last `size` of all elements pushed. */
  lemma {:induction false} PushesLeaveTheLast<T>(size: nat, ops: seq<Op<T>>)
    requires 0 < size && OnlyPushes(ops)
    ensures Left(HistoryOf(size, ops)) == Last(AllPushed(ops), size)
    ensures HistoryOf(size, ops).gone == if |ops| <= size then 0 else |ops| - size
    ensures |AllPushed(ops)| == |ops|
  {
    HistoryIsAllPushed(size, ops);
    if |ops| > 0 {
      PushesLeaveTheLast(size, ops[..|ops| - 1]);
    }
  }

  lemma PrefixNext<T>(h: History<T>, size: nat, op: Op<T>)
    requires 0 < size && Fits(h, size) && |h.pushed| < size
    ensures Next(h, size, op).pushed[..Next(h, size, op).gone] == h.pushed[..h.gone] + Out(h, op)
  {
    if op.Push? {
      assert (h.pushed + [op.x])[..h.gone] == h.pushed[..h.gone];
    }
  }

  /** Where nothing is overwritten, the pops return the first elements pushed, and the others are left. */
  lemma {:induction false} PopsReturnTheFirst<T>(size: nat, ops: seq<Op<T>>)
    requires 0 < size && |ops| <= size
    ensures Popped(size, ops) == HistoryOf(size, ops).pushed[..HistoryOf(size, ops).gone]
  {
    if |ops| > 0 {
      var before := ops[..|ops| - 1];
      PopsReturnTheFirst(size, before);
      HistoryIsAllPushed(size, before);
      PrefixNext(HistoryOf(size, before), size, ops[|ops| - 1]);
    }
  }

  lemma PushToQueue<T>(s: seq<T>, gone: nat, x: T, size: nat)
    requires 0 < size && gone <= |s| <= gone + size
    ensures Last(s[gone..] + [x], size) == (s + [x])[if |s| == gone + size then gone + 1 else gone..]
  {
    assert s[gone..] + [x] == (s + [x])[gone..];
  }

  lemma PopFromQueue<T>(s: seq<T>, gone: nat, x: T, rest: seq<T>)
    requires gone < |s| && s[gone..] == [x] + rest
    ensures x == s[gone] && rest == s[gone + 1..]
  {
    assert s[gone] == s[gone..][0];
    assert s[gone + 1..] == s[gone..][1..];
  }

  method Apply<T(0)>(buffer: FixedCircularBuffer<T>, op: Op<T>, ghost h: History<T>) returns (popped: seq<T>)
    requires buffer.Valid() && buffer.count < SIZE_MAX
    requires Fits(h, buffer.values.Length) && buffer.Contents() == Left(h)
    modifies buffer, buffer.values
    ensures buffer.Valid() && buffer.values == old(buffer.values) && buffer.count <= old(buffer.count) + 1
    ensures buffer.Contents() == Left(Next(h, buffer.values.Length, op)) && popped == Out(h, op)
  {
    popped := [];
    match op {
      case Push(x) =>
        PushToQueue(h.pushed, h.gone, x, buffer.values.Length);
        buffer.PushBack(x);
      case PopIfAny =>
        if buffer.Size() > 0 {
          var value := buffer.PopFront();
          PopFromQueue(h.pushed, h.gone, value, buffer.Contents());
          popped := [value];
        }
    }
  }

  /** Every run leaves the pushed sequence without the elements gone, and pops them in their order. */
  method RunAndIterate<T(0)>(size: nat, ops: seq<Op<T>>) returns (seen: seq<T>, popped: seq<T>)
    requires 0 < size && |ops| <= SIZE_MAX
    ensures seen == Left(HistoryOf(size, ops)) && popped == Popped(size, ops)
  {
    var buffer := new FixedCircularBuffer<T>(size);
    popped := [];
    ghost var h := History([], 0);
    for i := 0 to |ops|
      invariant fresh(buffer) && fresh(buffer.values) && buffer.Valid() && buffer.values.Length == size
      invariant buffer.count <= i && Fits(h, size) && buffer.Contents() == Left(h)
      invariant h == HistoryOf(size, ops[..i]) && popped == Popped(size, ops[..i])
    {
      assert ops[..i + 1][..i] == ops[..i];
      var values := Apply(buffer, ops[i], h);
      popped := popped + values;
      h := Next(h, size, ops[i]);
    }
    assert ops[..|ops|] == ops;
    seen := buffer.IterateAll();
  }
}
