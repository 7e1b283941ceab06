/**
 CRC-16 with the reflected polynomial 0xA001 and initial value 0xFFFF, as in lib/KFCBaseLibrary/include/crc16.h and
 section 6.2.2 of MODBUS over Serial Line V1.02.
 */
module Crc16 {
  import opened Util
  import ShiftRegisters

  const POLYNOMIAL: bv16 := 0xA001
  const INITIAL: bv16 := 0xFFFF

  function Shift(crc: bv16): bv16 {
    if crc & 1 != 0 then (crc >> 1) ^ POLYNOMIAL else crc >> 1
  }

  /** `constexpr_crc16_compute`: the shifts from number `i` up to the eighth. */
  function ComputeFrom(crc: bv16, i: nat): bv16
    decreases 8 - i
  {
    if i < 8 then ComputeFrom(Shift(crc), i + 1) else crc
  }

  function Compute(crc: bv16, data: bv8): bv16 {
    ComputeFrom(crc ^ (data as bv16), 0)
  }

  /** `constexpr_crc16_update`. */
  function Update(crc: bv16, data: seq<bv8>): bv16
    decreases |data|
  {
    if |data| == 0 then crc else Update(Compute(crc, data[0]), data[1..])
  }

  function Calc(data: seq<bv8>): bv16 { Update(INITIAL, data) }

  // ---------------------------------------------------------------- the looped form of the configuration tool

  method ComputeLooped(crc: bv16, a: bv8) returns (r: bv16)
    ensures r == Compute(crc, a)
  {
    r := crc ^ (a as bv16);
    for i := 0 to 8
      invariant ComputeFrom(r, i) == Compute(crc, a)
    {
      if r & 1 != 0 {
        r := (r >> 1) ^ 0xA001;
      } else {
        r := r >> 1;
      }
    }
  }

  method UpdateLooped(crc: bv16, data: seq<bv8>) returns (r: bv16)
    ensures r == Update(crc, data)
  {
    r := crc;
    assert data[0..] == data;
    for i := 0 to |data|
      invariant Update(r, data[i..]) == Update(crc, data)
    {
      assert data[i..][1..] == data[i + 1..];
      r := ComputeLooped(r, data[i]);
    }
  }

  /** The handle of a configuration name. */
  method GetHandle(name: seq<bv8>) returns (handle: bv16)
    ensures handle == Calc(name)
  {
    handle := UpdateLooped(0xffff, name);
  }

  /** The checksum of a concatenation continues from the checksum of its first part. */
  lemma {:induction false} UpdateConcat(crc: bv16, a: seq<bv8>, b: seq<bv8>)
    ensures Update(crc, a + b) == Update(Update(crc, a), b)
    decreases |a|
  {
    if |a| == 0 {
      NothingAdded(b);
    } else {
      assert (a + b)[1..] == a[1..] + b;
      UpdateConcat(Compute(crc, a[0]), a[1..], b);
    }
  }

  // ---------------------------------------------------------------- one bit at a time

  /** A message bit as the register takes it: 0 or 1. */
  type Bit = b: bv16 | b <= 1

  /** One message bit enters the register at its low end. */
  function Step(crc: bv16, b: Bit): bv16 { Shift(crc ^ b) }

  function FirstBits(w: bv16, n: nat): (bits: seq<Bit>)
    ensures |bits| == n
    decreases n
  {
    if n == 0 then [] else [w & 1] + FirstBits(w >> 1, n - 1)
  }

  /** A message as the register sees it: the bits of each byte, least significant first. */
  function Bits(data: seq<bv8>): seq<Bit> {
    if |data| == 0 then [] else FirstBits(data[0] as bv16, 8) + Bits(data[1..])
  }

  function Feed(crc: bv16, bits: seq<Bit>): bv16 { ShiftRegisters.Feed(Step, crc, bits) }

  /** The lowest `n` bits. */
  function Mask(n: nat): bv16 { if n == 0 then 0 else (Mask(n - 1) << 1) | 1 }

  predicate Within(w: bv16, mask: bv16) { w & !mask == 0 }

  lemma HalfWithin(w: bv16, mask: bv16) returns (half: bv16)
    requires Within(w, (mask << 1) | 1)
    ensures half == w >> 1 && Within(half, mask)
  {
    half := w >> 1;
  }

  lemma SplitWord(crc: bv16, w: bv16) returns (all: bv16, first: bv16, rest: bv16)
    ensures all == crc ^ w && first == crc ^ (w & 1) && rest == w >> 1
    ensures all & 1 == first & 1 && all >> 1 == (first >> 1) ^ rest
  {
    all, first, rest := crc ^ w, crc ^ (w & 1), w >> 1;
  }

  lemma XorSwap(x: bv16, y: bv16, z: bv16)
    ensures (x ^ y) ^ z == (x ^ z) ^ y
  {
  }

  lemma ShiftSplit(all: bv16, first: bv16, rest: bv16)
    requires all & 1 == first & 1 && all >> 1 == (first >> 1) ^ rest
    ensures Shift(all) == Shift(first) ^ rest
  {
    if all & 1 != 0 {
      XorSwap(first >> 1, POLYNOMIAL, rest);
    }
  }

  /** A word xored in at once is its lowest bit now, and the rest one shift later. */
  lemma ShiftAbsorbsBit(crc: bv16, w: bv16)
    ensures Shift(crc ^ w) == Shift(crc ^ (w & 1)) ^ (w >> 1)
  {
    var all, first, rest := SplitWord(crc, w);
    ShiftSplit(all, first, rest);
  }

  lemma ShiftAbsorbs(crc: bv16, w: bv16) returns (next: bv16, rest: bv16)
    ensures next == Step(crc, w & 1) && rest == w >> 1
    ensures Shift(crc ^ w) == next ^ rest
  {
    next, rest := Step(crc, w & 1), w >> 1;
    ShiftAbsorbsBit(crc, w);
  }

  /** The shifts from number 8 - n on feed the first n bits of a word that was xored in at once. */
  lemma {:induction false} ComputeFeedsWord(crc: bv16, w: bv16, n: nat)
    requires n <= 8 && Within(w, Mask(n))
    ensures ComputeFrom(crc ^ w, 8 - n) == Feed(crc, FirstBits(w, n))
    decreases n
  {
    if n == 0 {
      XorZero(crc, w);
    } else {
      var half := HalfWithin(w, Mask(n - 1));
      var next, rest := ShiftAbsorbs(crc, w);
      ComputeFeedsWord(next, rest, n - 1);
      assert FirstBits(w, n)[1..] == FirstBits(rest, n - 1);
    }
  }

  lemma XorZero(x: bv16, w: bv16)
    requires w == 0
    ensures x ^ w == x
  {
  }

  lemma ByteIsWithin(b: bv8)
    ensures Within(b as bv16, Mask(8))
  {
    assert Mask(8) == 0xFF;
  }

  /** The byte-wise recursion computes the bit-wise register. */
  lemma {:induction false} UpdateFeedsBits(crc: bv16, data: seq<bv8>)
    ensures Update(crc, data) == Feed(crc, Bits(data))
    decreases |data|
  {
    if |data| > 0 {
      ByteIsWithin(data[0]);
      ComputeFeedsWord(crc, data[0] as bv16, 8);
      ShiftRegisters.FeedConcat(Step, crc, FirstBits(data[0] as bv16, 8), Bits(data[1..]));
      UpdateFeedsBits(Compute(crc, data[0]), data[1..]);
    }
  }

  // ---------------------------------------------------------------- what one step preserves

  /** The inverse of a shift. */
  function Unshift(crc: bv16): bv16 {
    if crc & 0x8000 != 0 then ((crc ^ POLYNOMIAL) << 1) | 1 else crc << 1
  }

  lemma UnshiftInvertsShift(x: bv16)
    ensures Unshift(Shift(x)) == x
  {
  }

  lemma XorTwice(x: bv16, b: bv16)
    ensures (x ^ b) ^ b == x
  {
  }

  lemma StepIsInjective(x: bv16, y: bv16, b: Bit)
    requires Step(x, b) == Step(y, b)
    ensures x == y
  {
    UnshiftInvertsShift(x ^ b);
    UnshiftInvertsShift(y ^ b);
    XorTwice(x, b);
    XorTwice(y, b);
  }

  lemma MaskGrows(m: bv16)
    requires m & (m + 1) == 0
    ensures var n := (m << 1) | 1; n & (n + 1) == 0 && m & !n == 0
  {
  }

  lemma {:induction false} MaskForm(n: nat)
    ensures Mask(n) & (Mask(n) + 1) == 0
  {
    if n > 0 {
      MaskForm(n - 1);
      MaskGrows(Mask(n - 1));
    }
  }

  lemma {:induction false} MaskTopClear(n: nat)
    requires n <= 15
    ensures Mask(n) & 0x8000 == 0
    decreases 15 - n
  {
    if n == 15 {
      assert Mask(15) == 0x7FFF;
    } else {
      MaskForm(n);
      MaskGrows(Mask(n));
      MaskTopClear(n + 1);
    }
  }

  /** Where the top bit of the difference is clear, a shift can be undone on the difference alone. */
  lemma ShiftDifference(x: bv16, y: bv16, mask: bv16) returns (d: bv16)
    requires Within(Shift(x) ^ Shift(y), mask) && mask & 0x8000 == 0
    ensures d == x ^ y && Within(d, (mask << 1) | 1) && d & 1 == 0
  {
    d := x ^ y;
  }

  lemma Rearrange(x: bv16, y: bv16, a: bv16, b: bv16)
    ensures x ^ y == ((x ^ a) ^ (y ^ b)) ^ (a ^ b)
  {
  }

  lemma XorOfBits(a: Bit, b: Bit)
    ensures a ^ b <= 1 && (a ^ b == 0 ==> a == b)
  {
  }

  lemma LowBitWithin(d: bv16, e: bv16, mask: bv16)
    requires e <= 1 && Within(d, (mask << 1) | 1) && d & 1 == 0
    ensures Within(d ^ e, (mask << 1) | 1) && (d ^ e == 0 ==> e == 0)
  {
  }

  lemma StepBack(x: bv16, y: bv16, a: Bit, b: Bit, mask: bv16)
    requires Within(Step(x, a) ^ Step(y, b), mask) && mask & 0x8000 == 0
    ensures Within(x ^ y, (mask << 1) | 1)
    ensures x ^ y == 0 ==> a == b
  {
    var d := ShiftDifference(x ^ a, y ^ b, mask);
    Rearrange(x, y, a, b);
    XorOfBits(a, b);
    LowBitWithin(d, a ^ b, mask);
  }

  lemma XorSelf(x: bv16)
    ensures x ^ x == 0
  {
  }

  /** The two registers differ in their lowest `n` bits at most. */
  predicate AgreeAbove(x: bv16, y: bv16, n: nat) { Within(x ^ y, Mask(n)) }

  lemma CrcStepIsInjective()
    ensures ShiftRegisters.Injective(Step)
  {
    forall x, y, b: Bit | Step(x, b) == Step(y, b)
      ensures x == y
    {
      StepIsInjective(x, y, b);
    }
  }

  lemma CrcStepHasWindow()
    ensures ShiftRegisters.HasWindow(Step, AgreeAbove, 16)
  {
    forall x: bv16
      ensures AgreeAbove(x, x, 0)
    {
      XorSelf(x);
    }
    forall x: bv16, y: bv16, a: Bit, b: Bit, n: nat | n < 16 && AgreeAbove(Step(x, a), Step(y, b), n)
      ensures AgreeAbove(x, y, n + 1) && (x == y ==> a == b)
    {
      MaskTopClear(n);
      StepBack(x, y, a, b, Mask(n));
      XorSelf(x);
    }
  }

  // ---------------------------------------------------------------- error detection

  /** Every error burst of at most 16 bits is detected, wherever it lies in a message of any length. */
  lemma BurstIsDetected(a: seq<bv8>, b: seq<bv8>, first: nat, last: nat)
    requires a != b && |a| == |b|
    requires ShiftRegisters.DifferInBurst(Bits(a), Bits(b), first, last) && last - first <= 16
    ensures Calc(a) != Calc(b)
  {
    if Bits(a) == Bits(b) {
      BitsAreInjective(a, b);
      assert false;
    }
    UpdateFeedsBits(INITIAL, a);
    UpdateFeedsBits(INITIAL, b);
    CrcStepIsInjective();
    CrcStepHasWindow();
    ShiftRegisters.FeedBurst(Step, AgreeAbove, 16, INITIAL, Bits(a), Bits(b), first, last);
  }

  lemma SplitBits(w: bv16, n: nat) returns (low: bv16, half: bv16)
    requires 0 < n && Within(w, Mask(n))
    ensures low == w & 1 && half == w >> 1 && Within(half, Mask(n - 1))
    ensures FirstBits(w, n)[0] == low && FirstBits(w, n)[1..] == FirstBits(half, n - 1)
  {
    low := w & 1;
    half := HalfWithin(w, Mask(n - 1));
  }

  lemma Rejoin(w: bv16) returns (low: bv16, half: bv16)
    ensures low == w & 1 && half == w >> 1 && w == (half << 1) | low
  {
    low, half := w & 1, w >> 1;
  }

  lemma {:induction false} FirstBitsAreInjective(v: bv16, w: bv16, n: nat)
    requires Within(v, Mask(n)) && Within(w, Mask(n)) && FirstBits(v, n) == FirstBits(w, n)
    ensures v == w
    decreases n
  {
    if n > 0 {
      var a, v' := SplitBits(v, n);
      var b, w' := SplitBits(w, n);
      FirstBitsAreInjective(v', w', n - 1);
      a, v' := Rejoin(v);
      b, w' := Rejoin(w);
    }
  }

  lemma SameByte(a: bv8, b: bv8)
    requires FirstBits(a as bv16, 8) == FirstBits(b as bv16, 8)
    ensures a == b
  {
    ByteIsWithin(a);
    ByteIsWithin(b);
    FirstBitsAreInjective(a as bv16, b as bv16, 8);
  }

  lemma {:induction false} BitsAreInjective(a: seq<bv8>, b: seq<bv8>)
    requires |a| == |b| && Bits(a) == Bits(b)
    ensures a == b
  {
    if |a| > 0 {
      assert Bits(a)[..8] == FirstBits(a[0] as bv16, 8) && Bits(b)[..8] == FirstBits(b[0] as bv16, 8);
      assert Bits(a)[8..] == Bits(a[1..]) && Bits(b)[8..] == Bits(b[1..]);
      SameByte(a[0], b[0]);
      BitsAreInjective(a[1..], b[1..]);
      assert a == [a[0]] + a[1..] && b == [b[0]] + b[1..];
    }
  }

  // ---------------------------------------------------------------- odd numbers of errors

  function Low(w: bv16): bool { w & 1 != 0 }
  function Half(w: bv16): bv16 { w >> 1 }
  function Xor(x: bv16, y: bv16): bv16 { x ^ y }

  function OddIn(w: bv16, n: nat): bool { ShiftRegisters.OddIn(Low, Half, w, n) }

  /** Whether the number of ones in a word is odd. */
  function OddWord(w: bv16): bool { OddIn(w, 16) }

  function OddBit(b: Bit): bool { b == 1 }

  lemma XorLow(x: bv16, y: bv16)
    ensures ((x ^ y) & 1 != 0) == ((x & 1 != 0) != (y & 1 != 0))
  {
  }

  lemma XorHalf(x: bv16, y: bv16)
    ensures (x ^ y) >> 1 == (x >> 1) ^ (y >> 1)
  {
  }

  lemma XorIsBitwise()
    ensures forall v, w :: Low(Xor(v, w)) == (Low(v) != Low(w))
    ensures forall v, w :: Half(Xor(v, w)) == Xor(Half(v), Half(w))
  {
    forall v, w
      ensures Low(Xor(v, w)) == (Low(v) != Low(w))
    {
      XorLow(v, w);
    }
    forall v, w
      ensures Half(Xor(v, w)) == Xor(Half(v), Half(w))
    {
      XorHalf(v, w);
    }
  }

  lemma XorIsOdd(x: bv16, y: bv16, n: nat)
    ensures ShiftRegisters.OddIn(Low, Half, Xor(x, y), n) ==
            (ShiftRegisters.OddIn(Low, Half, x, n) != ShiftRegisters.OddIn(Low, Half, y, n))
  {
    XorIsBitwise();
    ShiftRegisters.XorIsOdd(Low, Half, Xor, x, y, n);
  }

  lemma XoredIsOdd(x: bv16, y: bv16, n: nat) returns (z: bv16)
    ensures z == x ^ y && OddIn(z, n) == (OddIn(x, n) != OddIn(y, n))
  {
    XorIsOdd(x, y, n);
    z := Xor(x, y);
  }

  lemma {:induction false} ClearBitsDoNotCount(w: bv16, n: nat)
    requires Within(w, Mask(n))
    ensures OddIn(w, n + 1) == OddIn(w, n)
    decreases n
  {
    if n > 0 {
      var half := HalfWithin(w, Mask(n - 1));
      ClearBitsDoNotCount(half, n - 1);
    }
  }

  lemma ShiftedIsWithin(w: bv16)
    ensures Within(w >> 1, Mask(15))
  {
    assert Mask(15) == 0x7FFF;
  }

  lemma {:induction false} ZeroIsEven(n: nat)
    ensures !OddIn(0, n)
  {
    if n > 0 {
      ZeroIsEven(n - 1);
      assert (0 as bv16) >> 1 == 0;
    }
  }

  lemma OneIsOdd()
    ensures OddIn(1, 16)
  {
    ZeroIsEven(15);
    assert (1 as bv16) >> 1 == 0;
  }

  lemma PolynomialIsOdd()
    ensures OddIn(POLYNOMIAL, 16)
  {
    assert OddIn(1, 1);
    assert OddIn(2, 2);
    assert !OddIn(0x5, 3);
    assert !OddIn(0xA, 4);
    assert !OddIn(0x14, 5);
    assert !OddIn(0x28, 6);
    assert !OddIn(0x50, 7);
    assert !OddIn(0xA0, 8);
    assert !OddIn(0x140, 9);
    assert !OddIn(0x280, 10);
    assert !OddIn(0x500, 11);
    assert !OddIn(0xA00, 12);
    assert !OddIn(0x1400, 13);
    assert !OddIn(0x2800, 14);
    assert !OddIn(0x5000, 15);
  }

  /** The polynomial has three terms below the leading one, so a shift preserves parity. */
  lemma ShiftKeepsParity(x: bv16)
    ensures OddWord(Shift(x)) == OddWord(x)
  {
    ShiftedIsWithin(x);
    ClearBitsDoNotCount(x >> 1, 15);
    var z := XoredIsOdd(x >> 1, POLYNOMIAL, 16);
    PolynomialIsOdd();
  }

  lemma StepChangesParity(x: bv16, b: Bit)
    ensures OddWord(Step(x, b)) == (OddWord(x) != OddBit(b))
  {
    var z := XoredIsOdd(x, b, 16);
    ShiftKeepsParity(z);
    OneIsOdd();
    ZeroIsEven(16);
  }

  /** Messages of any length that differ in an odd number of bits have different checksums. */
  lemma OddErrorIsDetected(a: seq<bv8>, b: seq<bv8>)
    requires ShiftRegisters.ParityOf(OddBit, Bits(a)) != ShiftRegisters.ParityOf(OddBit, Bits(b))
    ensures Calc(a) != Calc(b)
  {
    forall x: bv16, e: Bit
      ensures OddWord(Step(x, e)) == (OddWord(x) != OddBit(e))
    {
      StepChangesParity(x, e);
    }
    UpdateFeedsBits(INITIAL, a);
    UpdateFeedsBits(INITIAL, b);
    ShiftRegisters.FeedKeepsParity(Step, OddWord, OddBit, INITIAL, Bits(a));
    ShiftRegisters.FeedKeepsParity(Step, OddWord, OddBit, INITIAL, Bits(b));
  }

  // ---------------------------------------------------------------- the remainder of a division

  /** The lowest n bits of a word, lowest first: in the reflected register the highest powers come first. */
  function LowBits(w: bv16, n: nat): (bits: seq<bool>)
    ensures |bits| == n
    decreases n
  {
    if n == 0 then [] else [Low(w)] + LowBits(w >> 1, n - 1)
  }

  /** A message as a polynomial over two elements, highest power first: bytes in order, lowest bit first. */
  function MessageBits(data: seq<bv8>): seq<bool> {
    if |data| == 0 then [] else LowBits(data[0] as bv16, 8) + MessageBits(data[1..])
  }

  /** x^16 + x^15 + x^2 + 1 without its leading term. */
  const GENERATOR: seq<bool> :=
    [true, false, false, false, false, false, false, false, false, false, false, false, false, true, false, true]

  function Zeros(n: nat): (s: seq<bool>)
    ensures |s| == n
  {
    if n == 0 then [] else [false] + Zeros(n - 1)
  }

  /** The first coefficients of a polynomial with those of another added to them. */
  function AddFront(w: seq<bool>, s: seq<bool>): (sum: seq<bool>)
    requires |w| <= |s|
    ensures |sum| == |s|
  {
    if |w| == 0 then s else [w[0] != s[0]] + AddFront(w[1..], s[1..])
  }

  /** Long division by a generator, one power at a time, its leading term left out; what is left has as many terms. */
  function Remainder(generator: seq<bool>, s: seq<bool>): (r: seq<bool>)
    requires |generator| <= |s|
    ensures |r| == |generator|
    decreases |s|
  {
    if |s| == |generator| then s
    else if s[0] then Remainder(generator, AddFront(generator, s[1..]))
    else Remainder(generator, s[1..])
  }

  lemma {:induction false} AddTwice(v: seq<bool>, w: seq<bool>, s: seq<bool>)
    requires |v| == |w| <= |s|
    ensures AddFront(v, AddFront(w, s)) == AddFront(AddFront(v, w), s)
  {
    if |v| > 0 {
      AddTwice(v[1..], w[1..], s[1..]);
    }
  }

  lemma {:induction false} AddNothing(w: seq<bool>, s: seq<bool>)
    requires |w| < |s|
    ensures AddFront(w + [false], s) == AddFront(w, s)
  {
    if |w| > 0 {
      assert (w + [false])[1..] == w[1..] + [false];
      AddNothing(w[1..], s[1..]);
    } else {
      assert (w + [false])[1..] == [];
    }
  }

  lemma {:induction false} AddZeros(n: nat, s: seq<bool>)
    requires n <= |s|
    ensures AddFront(Zeros(n), s) == s
  {
    if n > 0 {
      AddZeros(n - 1, s[1..]);
      assert Zeros(n)[1..] == Zeros(n - 1);
    }
  }

  lemma XorInHalves(x: bv16, y: bv16) returns (z: bv16, v: bv16, w: bv16)
    ensures z == x ^ y && v == x >> 1 && w == y >> 1 && z >> 1 == v ^ w
  {
    z, v, w := x ^ y, x >> 1, y >> 1;
    XorHalf(x, y);
  }

  lemma {:induction false} LowBitsOfXor(x: bv16, y: bv16, n: nat) returns (z: bv16)
    ensures z == x ^ y && LowBits(z, n) == AddFront(LowBits(x, n), LowBits(y, n))
    decreases n
  {
    var v, w;
    z, v, w := XorInHalves(x, y);
    if n > 0 {
      XorLow(x, y);
      var half := LowBitsOfXor(v, w, n - 1);
    }
  }

  lemma {:induction false} OneMoreBit(w: bv16, n: nat)
    requires Within(w, Mask(n))
    ensures LowBits(w, n + 1) == LowBits(w, n) + [false]
    decreases n
  {
    if n > 0 {
      var half := HalfWithin(w, Mask(n - 1));
      OneMoreBit(half, n - 1);
    } else {
      XorZero(0, w);
      assert LowBits(w, 1) == [Low(w)] + LowBits(w >> 1, 0);
    }
  }

  /** A register shifted right has its first bit dropped and a zero at the end. */
  lemma BitsOfHalf(w: bv16)
    ensures LowBits(w >> 1, 16) == LowBits(w, 16)[1..] + [false]
  {
    ShiftedIsWithin(w);
    OneMoreBit(w >> 1, 15);
  }

  lemma GeneratorIsPolynomial()
    ensures LowBits(POLYNOMIAL, 16) == GENERATOR
  {
    assert LowBits(0x5, 3) == [true, false, true];
    assert LowBits(0x28, 6) == [false, false, false, true, false, true];
    assert LowBits(0x140, 9) == [false, false, false] + LowBits(0x28, 6);
    assert LowBits(0xA00, 12) == [false, false, false] + LowBits(0x140, 9);
    assert LowBits(0x5000, 15) == [false, false, false] + LowBits(0xA00, 12);
    assert LowBits(0xA001, 16) == [true] + LowBits(0x5000, 15);
  }

  function Bools(bits: seq<Bit>): (bools: seq<bool>)
    ensures |bools| == |bits|
  {
    if |bits| == 0 then [] else [OddBit(bits[0])] + Bools(bits[1..])
  }

  lemma {:induction false} BoolsConcat(a: seq<Bit>, b: seq<Bit>)
    ensures Bools(a + b) == Bools(a) + Bools(b)
  {
    if |a| == 0 {
      NothingAdded(b);
      NothingAdded(Bools(b));
    } else {
      assert (a + b)[1..] == a[1..] + b;
      BoolsConcat(a[1..], b);
      Assoc([OddBit(a[0])], Bools(a[1..]), Bools(b));
    }
  }

  lemma LowOfBit(w: bv16)
    ensures (w & 1 == 1) == (w & 1 != 0)
  {
  }

  lemma {:induction false} BoolsOfWord(w: bv16, n: nat)
    ensures Bools(FirstBits(w, n)) == LowBits(w, n)
    decreases n
  {
    if n > 0 {
      LowOfBit(w);
      BoolsOfWord(w >> 1, n - 1);
    }
  }

  lemma {:induction false} BoolsOfMessage(data: seq<bv8>)
    ensures Bools(Bits(data)) == MessageBits(data)
  {
    if |data| > 0 {
      BoolsConcat(FirstBits(data[0] as bv16, 8), Bits(data[1..]));
      BoolsOfWord(data[0] as bv16, 8);
      BoolsOfMessage(data[1..]);
    }
  }

  lemma LowOfStep(crc: bv16, b: Bit) returns (x: bv16)
    ensures x == crc ^ b && Low(x) == (Low(crc) != OddBit(b))
  {
    x := crc ^ b;
  }

  lemma HalfOfStep(crc: bv16, b: Bit) returns (x: bv16)
    ensures x == crc ^ b && x >> 1 == crc >> 1
  {
    x := crc ^ b;
  }

  lemma XorCommutes(x: bv16, y: bv16)
    ensures x ^ y == y ^ x
  {
  }

  lemma ShiftInHalves(x: bv16) returns (half: bv16, low: bool)
    ensures half == x >> 1 && low == Low(x)
    ensures Shift(x) == if low then POLYNOMIAL ^ half else half
  {
    half, low := x >> 1, x & 1 != 0;
    XorCommutes(half, POLYNOMIAL);
  }

  lemma SteppedWord(crc: bv16, b: Bit) returns (x: bv16)
    ensures Step(crc, b) == Shift(x) && x >> 1 == crc >> 1
    ensures Low(x) == (Low(crc) != OddBit(b))
  {
    x := LowOfStep(crc, b);
    var y := HalfOfStep(crc, b);
  }

  lemma StepInHalves(crc: bv16, b: Bit) returns (half: bv16, low: bool)
    ensures half == crc >> 1 && low == (Low(crc) != OddBit(b))
    ensures Step(crc, b) == if low then POLYNOMIAL ^ half else half
  {
    var x := SteppedWord(crc, b);
    half, low := ShiftInHalves(x);
  }

  lemma BitsOfSum(half: bv16) returns (sum: bv16)
    ensures sum == POLYNOMIAL ^ half && LowBits(sum, 16) == AddFront(GENERATOR, LowBits(half, 16))
  {
    GeneratorIsPolynomial();
    sum := LowBitsOfXor(POLYNOMIAL, half, 16);
  }

  /** What one step does to the coefficients. */
  lemma StepOnBits(crc: bv16, b: Bit) returns (first: bool, bits: seq<bool>, next: seq<bool>)
    ensures bits == LowBits(crc, 16) && next == LowBits(Step(crc, b), 16)
    ensures first == (bits[0] != OddBit(b))
    ensures next == if first then AddFront(GENERATOR, bits[1..] + [false]) else bits[1..] + [false]
  {
    var half, sum;
    half, first := StepInHalves(crc, b);
    sum := BitsOfSum(half);
    bits, next := LowBits(crc, 16), LowBits(if first then sum else half, 16);
    BitsOfHalf(crc);
  }

  lemma SumBehindFirst(bits: seq<bool>, s: seq<bool>) returns (rest: seq<bool>)
    requires |s| > |bits| > 0
    ensures AddFront(bits, s) == [bits[0] != s[0]] + rest && rest == AddFront(bits[1..] + [false], s[1..])
  {
    AddNothing(bits[1..], s[1..]);
    rest := AddFront(bits[1..], s[1..]);
  }

  lemma DivideOnce(generator: seq<bool>, first: bool, rest: seq<bool>)
    requires |rest| >= |generator|
    ensures Remainder(generator, [first] + rest) ==
            Remainder(generator, if first then AddFront(generator, rest) else rest)
  {
    assert ([first] + rest)[1..] == rest;
  }

  lemma NextDividend(generator: seq<bool>, first: bool, shifted: seq<bool>, next: seq<bool>, s: seq<bool>)
    requires |s| >= |shifted| == |generator| && next == if first then AddFront(generator, shifted) else shifted
    ensures AddFront(next, s) == if first then AddFront(generator, AddFront(shifted, s)) else AddFront(shifted, s)
  {
    if first {
      AddTwice(generator, shifted, s);
    }
  }

  lemma DivideSum(generator: seq<bool>, first: bool, shifted: seq<bool>, next: seq<bool>, s: seq<bool>, sum: seq<bool>)
    requires |s| >= |shifted| == |generator| && next == if first then AddFront(generator, shifted) else shifted
    requires sum == [first] + AddFront(shifted, s)
    ensures Remainder(generator, sum) == Remainder(generator, AddFront(next, s))
  {
    NextDividend(generator, first, shifted, next, s);
    DivideOnce(generator, first, AddFront(shifted, s));
  }

  /** One step of the register is one step of the division, of a dividend the register has been added to. */
  lemma StepDivides(crc: bv16, b: Bit, s: seq<bool>)
    requires |s| >= 17 && s[0] == OddBit(b)
    ensures Remainder(GENERATOR, AddFront(LowBits(crc, 16), s)) ==
            Remainder(GENERATOR, AddFront(LowBits(Step(crc, b), 16), s[1..]))
  {
    var first, bits, next := StepOnBits(crc, b);
    var rest := SumBehindFirst(bits, s);
    DivideSum(GENERATOR, first, bits[1..] + [false], next, s[1..], AddFront(bits, s));
  }

  lemma {:induction false} FeedDivides(crc: bv16, bits: seq<Bit>)
    ensures LowBits(Feed(crc, bits), 16) == Remainder(GENERATOR, AddFront(LowBits(crc, 16), Bools(bits) + Zeros(16)))
    decreases |bits|
  {
    var s := Bools(bits) + Zeros(16);
    if |bits| == 0 {
      NothingAdded(Zeros(16));
      ZerosAdded(LowBits(crc, 16));
    } else {
      assert s[1..] == Bools(bits[1..]) + Zeros(16);
      StepDivides(crc, bits[0], s);
      FeedDivides(Step(crc, bits[0]), bits[1..]);
    }
  }

  lemma {:induction false} ZerosAdded(w: seq<bool>)
    ensures AddFront(w, Zeros(|w|)) == w
  {
    if |w| > 0 {
      ZerosAdded(w[1..]);
      assert Zeros(|w|)[1..] == Zeros(|w| - 1);
    }
  }

  function Ones(n: nat): (s: seq<bool>)
    ensures |s| == n
  {
    if n == 0 then [] else [true] + Ones(n - 1)
  }

  lemma InitialIsOnes()
    ensures LowBits(INITIAL, 16) == Ones(16)
  {
    assert LowBits(0xF, 4) == Ones(4);
    assert LowBits(0xFF, 8) == [true, true, true, true] + LowBits(0xF, 4) == Ones(8);
    assert LowBits(0xFFF, 12) == [true, true, true, true] + LowBits(0xFF, 8) == Ones(12);
    assert LowBits(0xFFFF, 16) == [true, true, true, true] + LowBits(0xFFF, 12) == Ones(16);
  }

  /**
   What the checksum is: the remainder of a division by x^16 + x^15 + x^2 + 1 of the message followed by 16 zeros, with
   the first 16 bits of that complemented.
   */
  lemma ChecksumIsRemainder(data: seq<bv8>)
    ensures LowBits(Calc(data), 16) == Remainder(GENERATOR, AddFront(Ones(16), MessageBits(data) + Zeros(16)))
  {
    UpdateFeedsBits(INITIAL, data);
    FeedDivides(INITIAL, Bits(data));
    BoolsOfMessage(data);
    InitialIsOnes();
  }

  /** A zero byte in front of a message is noticed. */
  lemma LeadingZeroIsDetected(data: seq<bv8>)
    ensures Calc([0] + data) != Calc(data)
  {
    assert ([0] + data)[1..] == data;
    var first := Compute(INITIAL, 0);
    FirstZero();
    UpdateFeedsBits(INITIAL, data);
    UpdateFeedsBits(first, data);
    CrcStepIsInjective();
    ShiftRegisters.FeedIsInjective(Step, first, INITIAL, Bits(data));
  }

  lemma FirstZero()
    ensures Compute(INITIAL, 0) == 0x40BF
  {
    assert ComputeFrom(0xFFFF, 0) == ComputeFrom(0xDFFE, 1);
    assert ComputeFrom(0xDFFE, 1) == ComputeFrom(0x6FFF, 2);
    assert ComputeFrom(0x6FFF, 2) == ComputeFrom(0x97FE, 3);
    assert ComputeFrom(0x97FE, 3) == ComputeFrom(0x4BFF, 4);
    assert ComputeFrom(0x4BFF, 4) == ComputeFrom(0x85FE, 5);
    assert ComputeFrom(0x85FE, 5) == ComputeFrom(0x42FF, 6);
    assert ComputeFrom(0x42FF, 6) == ComputeFrom(0x817E, 7);
    assert ComputeFrom(0x817E, 7) == ComputeFrom(0x40BF, 8);
  }
}
