/**
 Registers that take a message one symbol at a time. What is proved here holds of any step function with the stated
 properties; Crc16.dfy shows that its step has them.
 */
module ShiftRegisters {
  import opened Util

  function Feed<W, E>(step: (W, E) -> W, r: W, message: seq<E>): W
    decreases |message|
  {
    if |message| == 0 then r else Feed(step, step(r, message[0]), message[1..])
  }

  lemma {:induction false} FeedConcat<W, E>(step: (W, E) -> W, r: W, a: seq<E>, b: seq<E>)
    ensures Feed(step, r, a + b) == Feed(step, Feed(step, r, a), b)
    decreases |a|
  {
    if |a| == 0 {
      NothingAdded(b);
    } else {
      assert (a + b)[1..] == a[1..] + b;
      FeedConcat(step, step(r, a[0]), a[1..], b);
    }
  }

  /** No symbol makes two registers equal. */
  ghost predicate Injective<W(!new), E(!new)>(step: (W, E) -> W) {
    forall x, y, e :: step(x, e) == step(y, e) ==> x == y
  }

  /** Different registers stay different under the same further symbols. */
  lemma {:induction false} FeedIsInjective<W(!new), E(!new)>(step: (W, E) -> W, x: W, y: W, message: seq<E>)
    requires Injective(step) && x != y
    ensures Feed(step, x, message) != Feed(step, y, message)
    decreases |message|
  {
    if |message| > 0 {
      FeedIsInjective(step, step(x, message[0]), step(y, message[0]), message[1..]);
    }
  }

  /**
   `agree(x, y, n)` bounds how far two registers can differ that meet after `n` symbols. Within the width of the
   window the bound still tells the first symbols apart.
   */
  ghost predicate HasWindow<W(!new), E(!new)>(step: (W, E) -> W, agree: (W, W, nat) -> bool, width: nat) {
    && (forall x :: agree(x, x, 0))
    && (forall x, y, a, b, n: nat :: n < width && agree(step(x, a), step(y, b), n) ==>
          agree(x, y, n + 1) && (x == y ==> a == b))
  }

  lemma {:induction false} MeetingRegisters<W(!new), E(!new)>(
    step: (W, E) -> W, agree: (W, W, nat) -> bool, width: nat, x: W, y: W, a: seq<E>, b: seq<E>)
    requires HasWindow(step, agree, width)
    requires |a| == |b| <= width && Feed(step, x, a) == Feed(step, y, b)
    ensures agree(x, y, |a|)
    decreases |a|
  {
    if |a| > 0 {
      MeetingRegisters(step, agree, width, step(x, a[0]), step(y, b[0]), a[1..], b[1..]);
    }
  }

  /** From one register, different messages within the window lead to different registers. */
  lemma {:induction false} ShortMessagesAreDistinguished<W(!new), E(!new)>(
    step: (W, E) -> W, agree: (W, W, nat) -> bool, width: nat, x: W, a: seq<E>, b: seq<E>)
    requires HasWindow(step, agree, width)
    requires |a| == |b| <= width && Feed(step, x, a) == Feed(step, x, b)
    ensures a == b
    decreases |a|
  {
    if |a| > 0 {
      MeetingRegisters(step, agree, width, step(x, a[0]), step(x, b[0]), a[1..], b[1..]);
      assert a[0] == b[0];
      ShortMessagesAreDistinguished(step, agree, width, step(x, a[0]), a[1..], b[1..]);
      assert a == [a[0]] + a[1..] && b == [b[0]] + b[1..];
    }
  }

  /** The messages agree except from `first` up to, not including, `last`. */
  ghost predicate DifferInBurst<E>(a: seq<E>, b: seq<E>, first: nat, last: nat) {
    first <= last <= |a| == |b| && a[..first] == b[..first] && a[last..] == b[last..]
  }

  lemma FeedBurst<W(!new), E(!new)>(
    step: (W, E) -> W, agree: (W, W, nat) -> bool, width: nat, x: W, m: seq<E>, n: seq<E>, first: nat, last: nat)
    requires Injective(step) && HasWindow(step, agree, width)
    requires m != n && DifferInBurst(m, n, first, last) && last - first <= width
    ensures Feed(step, x, m) != Feed(step, x, n)
  {
    var y := Feed(step, x, m[..first]);
    FeedInThree(step, x, m, first, last);
    FeedInThree(step, x, n, first, last);
    assert m == m[..first] + (m[first..last] + m[last..]);
    assert n == n[..first] + (n[first..last] + n[last..]);
    if Feed(step, y, m[first..last]) == Feed(step, y, n[first..last]) {
      ShortMessagesAreDistinguished(step, agree, width, y, m[first..last], n[first..last]);
      assert false;
    }
    FeedIsInjective(step, Feed(step, y, m[first..last]), Feed(step, y, n[first..last]), m[last..]);
  }

  lemma FeedInThree<W, E>(step: (W, E) -> W, x: W, m: seq<E>, first: nat, last: nat)
    requires first <= last <= |m|
    ensures Feed(step, x, m) == Feed(step, Feed(step, Feed(step, x, m[..first]), m[first..last]), m[last..])
  {
    assert m == m[..first] + (m[first..last] + m[last..]);
    FeedConcat(step, x, m[..first], m[first..last] + m[last..]);
    FeedConcat(step, Feed(step, x, m[..first]), m[first..last], m[last..]);
  }

  function ParityOf<E>(odd: E -> bool, message: seq<E>): bool {
    if |message| == 0 then false else odd(message[0]) != ParityOf(odd, message[1..])
  }

  /** Each step changes the parity of the register exactly when its symbol is odd. */
  ghost predicate KeepsParity<W(!new), E(!new)>(step: (W, E) -> W, parity: W -> bool, odd: E -> bool) {
    forall x, e :: parity(step(x, e)) == (parity(x) != odd(e))
  }

  lemma {:induction false} FeedKeepsParity<W(!new), E(!new)>(
    step: (W, E) -> W, parity: W -> bool, odd: E -> bool, r: W, message: seq<E>)
    requires KeepsParity(step, parity, odd)
    ensures parity(Feed(step, r, message)) == (parity(r) != ParityOf(odd, message))
    decreases |message|
  {
    if |message| > 0 {
      FeedKeepsParity(step, parity, odd, step(r, message[0]), message[1..]);
    }
  }

  /** Whether the number of ones among the lowest `n` bits of a word is odd. */
  function OddIn<W>(low: W -> bool, half: W -> W, w: W, n: nat): bool
    decreases n
  {
    if n == 0 then false else low(w) != OddIn(low, half, half(w), n - 1)
  }

  lemma {:induction false} XorIsOdd<W(!new)>(low: W -> bool, half: W -> W, xor: (W, W) -> W, x: W, y: W, n: nat)
    requires forall v, w :: low(xor(v, w)) == (low(v) != low(w))
    requires forall v, w :: half(xor(v, w)) == xor(half(v), half(w))
    ensures OddIn(low, half, xor(x, y), n) == (OddIn(low, half, x, n) != OddIn(low, half, y, n))
    decreases n
  {
    if n > 0 {
      XorIsOdd(low, half, xor, half(x), half(y), n - 1);
    }
  }
}
