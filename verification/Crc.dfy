/**
 The three reflected CRCs: crc8 of the 1-Wire bus, crc16_modbus and crc32, and the burst errors they detect.
 A message is a sequence of bytes; its bits are taken least significant first, which is transmission order.
 */
module Crc {
  import opened Bits

  const POLY_CRC8 := 0x8C
  const POLY_MODBUS := 0xA001
  const POLY_ETHERNET := 0xEDB88320

  // ---------- The shift register ----------

  /** One bit enters the register: the bit shifted out decides whether the polynomial is applied. */
  function Step(poly: nat, s: nat, b: bool): nat {
    if (s % 2 == 1) != b then Xor(s / 2, poly) else s / 2
  }

  function Steps(poly: nat, s: nat, bits: seq<bool>): nat
    decreases |bits|
  {
    if bits == [] then s else Steps(poly, Step(poly, s, bits[0]), bits[1..])
  }

  /** The lowest k bits of x, least significant first. */
  function LowBits(x: nat, k: nat): (bits: seq<bool>)
    ensures |bits| == k
  {
    if k == 0 then [] else [x % 2 == 1] + LowBits(x / 2, k - 1)
  }

  function MessageBits(data: seq<byte>): (bits: seq<bool>)
    ensures |bits| == 8 * |data|
  {
    if data == [] then [] else LowBits(data[0], 8) + MessageBits(data[1..])
  }

  /** The register after a whole message. */
  function Register(poly: nat, s: nat, data: seq<byte>): nat {
    Steps(poly, s, MessageBits(data))
  }

  lemma {:induction false} StepsAppend(poly: nat, s: nat, a: seq<bool>, b: seq<bool>)
    ensures Steps(poly, s, a + b) == Steps(poly, Steps(poly, s, a), b)
    decreases |a|
  {
    if a == [] {
      assert a + b == b;
    } else {
      assert (a + b)[1..] == a[1..] + b;
      StepsAppend(poly, Step(poly, s, a[0]), a[1..], b);
    }
  }

  lemma {:induction false} MessageBitsAppend(a: seq<byte>, c: byte)
    ensures MessageBits(a + [c]) == MessageBits(a) + LowBits(c, 8)
    decreases |a|
  {
    if a == [] {
      assert a + [c] == [c];
      assert MessageBits([c]) == LowBits(c, 8) + MessageBits([]);
    } else {
      assert (a + [c])[1..] == a[1..] + [c];
      MessageBitsAppend(a[1..], c);
    }
  }

  lemma RegisterAppend(poly: nat, s: nat, a: seq<byte>, c: byte)
    ensures Register(poly, s, a + [c]) == Steps(poly, Register(poly, s, a), LowBits(c, 8))
  {
    MessageBitsAppend(a, c);
    StepsAppend(poly, s, MessageBits(a), LowBits(c, 8));
  }

  lemma {:induction false} StepsBound(poly: nat, s: nat, bits: seq<bool>, n: nat)
    requires s < Pow2(n) && poly < Pow2(n)
    ensures Steps(poly, s, bits) < Pow2(n)
    decreases |bits|
  {
    if bits == [] {
    } else {
      XorBound(s / 2, poly, n);
      StepsBound(poly, Step(poly, s, bits[0]), bits[1..], n);
    }
  }

  // ---------- Folding a whole byte in before shifting ----------

  lemma XorRotate(x: nat, y: nat, z: nat, n: nat)
    requires x < Pow2(n) && y < Pow2(n) && z < Pow2(n)
    ensures Xor(Xor(x, y), z) == Xor(Xor(x, z), y)
  {
    XorBound(x, y, n);
    XorBound(x, z, n);
    XorBound(Xor(x, y), z, n);
    XorBound(Xor(x, z), y, n);
    forall i: nat | i < n
      ensures Bit(Xor(Xor(x, y), z), i) == Bit(Xor(Xor(x, z), y), i)
    {
      XorBit(x, y, i);
      XorBit(x, z, i);
      XorBit(Xor(x, y), z, i);
      XorBit(Xor(x, z), y, i);
    }
    SameBits(Xor(Xor(x, y), z), Xor(Xor(x, z), y), n);
  }

  /** Adding x to the register and then shifting is shifting in the low bit of x and then adding the rest. */
  lemma StepThroughXor(poly: nat, s: nat, x: nat, n: nat)
    requires poly < Pow2(n) && s < Pow2(n) && x < Pow2(n)
    ensures Step(poly, Xor(s, x), false) == Xor(Step(poly, s, x % 2 == 1), x / 2)
  {
    XorHalf(s, x);
    XorRotate(s / 2, x / 2, poly, n);
  }

  function ZeroSteps(poly: nat, s: nat, k: nat): nat
    decreases k
  {
    if k == 0 then s else ZeroSteps(poly, Step(poly, s, false), k - 1)
  }

  lemma {:induction false} ByteAtOnce(poly: nat, s: nat, x: nat, k: nat, n: nat)
    requires poly < Pow2(n) && s < Pow2(n) && x < Pow2(n) && x < Pow2(k)
    ensures ZeroSteps(poly, Xor(s, x), k) == Steps(poly, s, LowBits(x, k))
    decreases k
  {
    if k == 0 {
      assert Xor(s, 0) == s;
    } else {
      StepThroughXor(poly, s, x, n);
      XorBound(s / 2, poly, n);
      ByteAtOnce(poly, Step(poly, s, x % 2 == 1), x / 2, k - 1, n);
    }
  }

  // ---------- The algorithms ----------

  /** The checksum of the 1-Wire bus (Maxim), computed bit by bit. */
  method Crc8(addr: seq<byte>) returns (crc: nat)
    ensures crc == Register(POLY_CRC8, 0, addr) && crc < 256
  {
    crc := 0;
    PowersOfTwo();
    for n := 0 to |addr|
      invariant crc == Register(POLY_CRC8, 0, addr[..n]) && crc < 256
    {
      RegisterAppend(POLY_CRC8, 0, addr[..n], addr[n]);
      assert addr[..n + 1] == addr[..n] + [addr[n]];
      crc := Crc8Byte(crc, addr[n]);
    }
    assert addr[..|addr|] == addr;
  }

  method Crc8Byte(start: nat, c: byte) returns (crc: nat)
    requires start < 256
    ensures crc == Steps(POLY_CRC8, start, LowBits(c, 8)) && crc < 256
  {
    crc := start;
    var inbyte: nat := c;
    PowersOfTwo();
    var i := 8;
    while i > 0
      invariant 0 <= i <= 8 && crc < 256
      invariant Steps(POLY_CRC8, crc, LowBits(inbyte, i)) == Steps(POLY_CRC8, start, LowBits(c, 8))
    {
      var mix := And(Xor(crc, inbyte), 1);
      AndOne(Xor(crc, inbyte));
      XorHalf(crc, inbyte);
      crc := crc / 2;
      XorBound(crc, POLY_CRC8, 8);
      if mix != 0 {
        crc := Xor(crc, POLY_CRC8);
      }
      inbyte := inbyte / 2;
      i := i - 1;
    }
  }

  method ShiftByte(poly: nat, s: nat, c: byte, ghost n: nat) returns (crc: nat)
    requires 8 <= n && poly < Pow2(n) && s < Pow2(n)
    ensures crc == Steps(poly, s, LowBits(c, 8)) && crc < Pow2(n)
  {
    PowersOfTwo();
    if n > 8 { Pow2Monotone(8, n); }
    XorBound(s, c, n);
    crc := Xor(s, c);
    ghost var start := crc;
    for bit := 0 to 8
      invariant ZeroSteps(poly, crc, 8 - bit) == ZeroSteps(poly, start, 8)
    {
      AndOne(crc);
      if And(crc, 1) != 0 {
        crc := crc / 2;
        crc := Xor(crc, poly);
      } else {
        crc := crc / 2;
      }
    }
    ByteAtOnce(poly, s, c, 8, n);
    StepsBound(poly, s, LowBits(c, 8), n);
  }

  method Crc16Modbus(buf: seq<byte>, start: nat := 0xFFFF) returns (crc: nat)
    requires start < 0x1_0000
    ensures crc == Register(POLY_MODBUS, start, buf) && crc < 0x1_0000
  {
    PowersOfTwo();
    crc := start;
    for i := 0 to |buf|
      invariant crc == Register(POLY_MODBUS, start, buf[..i]) && crc < 0x1_0000
    {
      RegisterAppend(POLY_MODBUS, start, buf[..i], buf[i]);
      assert buf[..i + 1] == buf[..i] + [buf[i]];
      crc := ShiftByte(POLY_MODBUS, crc, buf[i], 16);
    }
    assert buf[..|buf|] == buf;
  }

  function Complement32(x: nat): nat
    requires x < 0x1_0000_0000
  {
    0xFFFF_FFFF - x
  }

  method Crc32(buf: seq<byte>, polynomial: nat, start: nat := 0) returns (crc: nat)
    requires polynomial < 0x1_0000_0000 && start < 0x1_0000_0000
    ensures crc < 0x1_0000_0000
    ensures Complement32(crc) == Register(polynomial, Complement32(start), buf)
  {
    PowersOfTwo();
    crc := Complement32(start);
    for i := 0 to |buf|
      invariant crc == Register(polynomial, Complement32(start), buf[..i]) && crc < 0x1_0000_0000
    {
      RegisterAppend(polynomial, Complement32(start), buf[..i], buf[i]);
      assert buf[..i + 1] == buf[..i] + [buf[i]];
      crc := ShiftByte(polynomial, crc, buf[i], 32);
    }
    assert buf[..|buf|] == buf;
    crc := Complement32(crc);
  }

  method Crc32Ethernet(buf: seq<byte>, start: nat := 0) returns (crc: nat)
    requires start < 0x1_0000_0000
    ensures crc < 0x1_0000_0000
    ensures Complement32(crc) == Register(POLY_ETHERNET, Complement32(start), buf)
  {
    crc := Crc32(buf, POLY_ETHERNET, start);
  }

  // ---------- Burst errors ----------

  /** Registers that agree on every bit from j up. */
  ghost predicate AgreeFrom(s: nat, t: nat, j: nat) {
    forall i: nat :: j <= i ==> Bit(s, i) == Bit(t, i)
  }

  /** The polynomial's top bit is the register's top bit, so shifting can be undone. */
  predicate TopBitSet(poly: nat, n: nat) {
    n > 0 && poly < Pow2(n) && Bit(poly, n - 1)
  }

  predicate Applied(s: nat, b: bool) {
    (s % 2 == 1) != b
  }

  lemma StepBit(poly: nat, s: nat, b: bool, i: nat)
    ensures Bit(Step(poly, s, b), i) == (Bit(s, i + 1) != (Applied(s, b) && Bit(poly, i)))
  {
    XorBit(s / 2, poly, i);
  }

  /** The top bit after a step shows whether the polynomial was applied in it. */
  lemma TopBitShows(poly: nat, s: nat, b: bool, n: nat)
    requires TopBitSet(poly, n) && s < Pow2(n)
    ensures Bit(Step(poly, s, b), n - 1) == Applied(s, b)
  {
    StepBit(poly, s, b, n - 1);
    HighBitsClear(s, n, n);
  }

  /** Undoing a step: agreement from bit j, below the top bit, comes from agreement from bit j + 1. */
  lemma StepBackwards(poly: nat, n: nat, s: nat, b: bool, t: nat, c: bool, j: nat)
    requires TopBitSet(poly, n) && s < Pow2(n) && t < Pow2(n) && j < n
    requires AgreeFrom(Step(poly, s, b), Step(poly, t, c), j)
    ensures AgreeFrom(s, t, j + 1) && Applied(s, b) == Applied(t, c)
  {
    TopBitShows(poly, s, b, n);
    TopBitShows(poly, t, c, n);
    forall i: nat | j + 1 <= i
      ensures Bit(s, i) == Bit(t, i)
    {
      StepBit(poly, s, b, i - 1);
      StepBit(poly, t, c, i - 1);
    }
  }

  lemma AgreeFromZero(s: nat, t: nat, n: nat)
    requires s < Pow2(n) && t < Pow2(n) && AgreeFrom(s, t, 0)
    ensures s == t
  {
    SameBits(s, t, n);
  }

  /** The same bits take different registers to different registers. */
  lemma {:induction false} StepsInjective(poly: nat, n: nat, s: nat, t: nat, bits: seq<bool>)
    requires TopBitSet(poly, n) && s < Pow2(n) && t < Pow2(n)
    requires Steps(poly, s, bits) == Steps(poly, t, bits)
    ensures s == t
    decreases |bits|
  {
    if bits == [] {
    } else {
      var s', t' := Step(poly, s, bits[0]), Step(poly, t, bits[0]);
      XorBound(s / 2, poly, n);
      XorBound(t / 2, poly, n);
      StepsInjective(poly, n, s', t', bits[1..]);
      StepBackwards(poly, n, s, bits[0], t, bits[0], 0);
      assert Bit(s, 0) == Bit(t, 0);
      AgreeFromZero(s, t, n);
    }
  }

  /** After |a| steps that end in the same register, only the lowest |a| bits can have differed at the start. */
  lemma {:induction false} StepsAgree(poly: nat, n: nat, s: nat, t: nat, a: seq<bool>, b: seq<bool>)
    requires TopBitSet(poly, n) && s < Pow2(n) && t < Pow2(n)
    requires |a| == |b| <= n && Steps(poly, s, a) == Steps(poly, t, b)
    ensures AgreeFrom(s, t, |a|)
    decreases |a|
  {
    if a == [] {
    } else {
      XorBound(s / 2, poly, n);
      XorBound(t / 2, poly, n);
      StepsAgree(poly, n, Step(poly, s, a[0]), Step(poly, t, b[0]), a[1..], b[1..]);
      StepBackwards(poly, n, s, a[0], t, b[0], |a| - 1);
    }
  }

  /** A burst of at most n bits, in any message, changes an n-bit register. */
  lemma BurstChangesRegister(poly: nat, n: nat, start: nat, before: seq<bool>, a: seq<bool>, b: seq<bool>, after: seq<bool>)
    requires TopBitSet(poly, n) && start < Pow2(n)
    requires |a| == |b| <= n && a != b
    ensures Steps(poly, start, before + a + after) != Steps(poly, start, before + b + after)
  {
    // The burst starts at the first bit that differs.
    var k := 0;
    while a[k] == b[k]
      invariant k < |a| && a[..k] == b[..k] && a[k..] != b[k..]
      decreases |a| - k
    {
      assert a[k..] == [a[k]] + a[k + 1..] && b[k..] == [b[k]] + b[k + 1..];
      assert a[..k + 1] == a[..k] + [a[k]] && b[..k + 1] == b[..k] + [b[k]];
      k := k + 1;
    }
    var prefix, x, y := before + a[..k], a[k..], b[k..];
    assert before + a + after == prefix + (x + after) && before + b + after == prefix + (y + after);
    StepsAppend(poly, start, prefix, x + after);
    StepsAppend(poly, start, prefix, y + after);
    StepsBound(poly, start, prefix, n);
    DifferingFirstBit(poly, n, Steps(poly, start, prefix), x, y, after);
  }

  lemma DifferingFirstBit(poly: nat, n: nat, s: nat, x: seq<bool>, y: seq<bool>, after: seq<bool>)
    requires TopBitSet(poly, n) && s < Pow2(n)
    requires 0 < |x| == |y| <= n && x[0] != y[0]
    ensures Steps(poly, s, x + after) != Steps(poly, s, y + after)
  {
    StepsAppend(poly, s, x, after);
    StepsAppend(poly, s, y, after);
    StepsBound(poly, s, x, n);
    StepsBound(poly, s, y, n);
    if Steps(poly, s, x + after) == Steps(poly, s, y + after) {
      StepsInjective(poly, n, Steps(poly, s, x), Steps(poly, s, y), after);
      XorBound(s / 2, poly, n);
      StepsAgree(poly, n, Step(poly, s, x[0]), Step(poly, s, y[0]), x[1..], y[1..]);
      StepBackwards(poly, n, s, x[0], s, y[0], |x| - 1);
    }
  }

  /** The messages have equal length and their bits differ only inside the window of w bits at position p. */
  ghost predicate DifferInWindow(data: seq<byte>, other: seq<byte>, p: nat, w: nat) {
    var a, b := MessageBits(data), MessageBits(other);
    |data| == |other| && data != other && p + w <= |a| && a[..p] == b[..p] && a[p + w..] == b[p + w..]
  }

  lemma {:induction false} LowBitsDetermine(x: nat, y: nat, k: nat)
    requires x < Pow2(k) && y < Pow2(k) && LowBits(x, k) == LowBits(y, k)
    ensures x == y
    decreases k
  {
    if k == 0 {
    } else {
      assert LowBits(x, k)[0] == LowBits(y, k)[0];
      assert LowBits(x, k)[1..] == LowBits(x / 2, k - 1) && LowBits(y, k)[1..] == LowBits(y / 2, k - 1);
      LowBitsDetermine(x / 2, y / 2, k - 1);
    }
  }

  lemma {:induction false} MessageBitsInjective(a: seq<byte>, b: seq<byte>)
    requires |a| == |b| && MessageBits(a) == MessageBits(b)
    ensures a == b
    decreases |a|
  {
    if a == [] {
    } else {
      var x, y := MessageBits(a), MessageBits(b);
      PowersOfTwo();
      assert x[..8] == LowBits(a[0], 8) && y[..8] == LowBits(b[0], 8);
      assert x[8..] == MessageBits(a[1..]) && y[8..] == MessageBits(b[1..]);
      LowBitsDetermine(a[0], b[0], 8);
      MessageBitsInjective(a[1..], b[1..]);
      assert a == [a[0]] + a[1..] && b == [b[0]] + b[1..];
    }
  }

  /** Two messages that differ only inside a window of at most n bits leave different registers. */
  lemma BurstDetected(poly: nat, n: nat, start: nat, data: seq<byte>, other: seq<byte>, p: nat, w: nat)
    requires TopBitSet(poly, n) && start < Pow2(n)
    requires w <= n && DifferInWindow(data, other, p, w)
    ensures Register(poly, start, data) != Register(poly, start, other)
  {
    var a, b := MessageBits(data), MessageBits(other);
    assert a == a[..p] + a[p..p + w] + a[p + w..] && b == b[..p] + b[p..p + w] + b[p + w..];
    if a[p..p + w] == b[p..p + w] {
      MessageBitsInjective(data, other);
    }
    BurstChangesRegister(poly, n, start, a[..p], a[p..p + w], b[p..p + w], a[p + w..]);
  }

  lemma TopBits()
    ensures TopBitSet(POLY_CRC8, 8) && TopBitSet(POLY_MODBUS, 16) && TopBitSet(POLY_ETHERNET, 32)
  {
    PowersOfTwo();
    HighestBit(POLY_CRC8, 7);
    HighestBit(POLY_MODBUS, 15);
    HighestBit(POLY_ETHERNET, 31);
  }

  /** The three polynomials detect every burst up to their own width. */
  lemma PolynomialsDetectBursts(data: seq<byte>, other: seq<byte>, start: nat, p: nat, w: nat)
    requires DifferInWindow(data, other, p, w)
    ensures w <= 8 && start < 0x100 ==> Register(POLY_CRC8, start, data) != Register(POLY_CRC8, start, other)
    ensures w <= 16 && start < 0x1_0000 ==> Register(POLY_MODBUS, start, data) != Register(POLY_MODBUS, start, other)
    ensures w <= 32 && start < 0x1_0000_0000 ==>
              Register(POLY_ETHERNET, start, data) != Register(POLY_ETHERNET, start, other)
  {
    PowersOfTwo();
    TopBits();
    if w <= 8 && start < 0x100 { BurstDetected(POLY_CRC8, 8, start, data, other, p, w); }
    if w <= 16 && start < 0x1_0000 { BurstDetected(POLY_MODBUS, 16, start, data, other, p, w); }
    if w <= 32 && start < 0x1_0000_0000 { BurstDetected(POLY_ETHERNET, 32, start, data, other, p, w); }
  }

  // ---------- Bursts one bit longer than the register ----------

  lemma StepBound(poly: nat, s: nat, b: bool, n: nat)
    requires s < Pow2(n) && poly < Pow2(n)
    ensures Step(poly, s, b) < Pow2(n)
  {
    XorBound(s / 2, poly, n);
  }

  /** The first k bits of a and b differ exactly where the registers do. */
  ghost predicate DifferAlike(s: nat, t: nat, a: seq<bool>, b: seq<bool>)
    requires |a| == |b|
  {
    forall i: nat :: i < |a| ==> (a[i] != b[i]) == (Bit(s, i) != Bit(t, i))
  }

  /** One step takes differences that match to differences that match, and only those. */
  lemma DifferAlikeStep(poly: nat, s: nat, t: nat, a: seq<bool>, b: seq<bool>)
    requires |a| == |b| > 0 && Applied(s, a[0]) == Applied(t, b[0])
    ensures DifferAlike(s, t, a, b) <==> DifferAlike(Step(poly, s, a[0]), Step(poly, t, b[0]), a[1..], b[1..])
  {
    forall i: nat
      ensures Bit(s, i + 1) != Bit(t, i + 1) <==> Bit(Step(poly, s, a[0]), i) != Bit(Step(poly, t, b[0]), i)
    {
      StepBit(poly, s, a[0], i);
      StepBit(poly, t, b[0], i);
    }
    if DifferAlike(Step(poly, s, a[0]), Step(poly, t, b[0]), a[1..], b[1..]) {
      forall i: nat | i < |a|
        ensures (a[i] != b[i]) == (Bit(s, i) != Bit(t, i))
      {
        if i > 0 { assert a[i] == a[1..][i - 1] && b[i] == b[1..][i - 1]; }
      }
    }
  }

  /** Registers that agree from j + 1 up agree from j up after steps that both apply the polynomial or both do not. */
  lemma StepForwards(poly: nat, s: nat, b: bool, t: nat, c: bool, j: nat)
    requires Applied(s, b) == Applied(t, c) && AgreeFrom(s, t, j + 1)
    ensures AgreeFrom(Step(poly, s, b), Step(poly, t, c), j)
  {
    forall i: nat | j <= i
      ensures Bit(Step(poly, s, b), i) == Bit(Step(poly, t, c), i)
    {
      StepBit(poly, s, b, i);
      StepBit(poly, t, c, i);
    }
  }

  /** Up to n bits take two registers to the same one exactly when the bits differ where the registers do, and the
      registers differ nowhere else. */
  lemma {:induction false} StepsMeetExactlyWhen(poly: nat, n: nat, s: nat, t: nat, a: seq<bool>, b: seq<bool>)
    requires TopBitSet(poly, n) && s < Pow2(n) && t < Pow2(n) && |a| == |b| <= n
    ensures Steps(poly, s, a) == Steps(poly, t, b) <==> AgreeFrom(s, t, |a|) && DifferAlike(s, t, a, b)
    decreases |a|
  {
    if a == [] {
      if AgreeFrom(s, t, 0) { AgreeFromZero(s, t, n); }
    } else {
      var s', t' := Step(poly, s, a[0]), Step(poly, t, b[0]);
      StepBound(poly, s, a[0], n);
      StepBound(poly, t, b[0], n);
      StepsMeetExactlyWhen(poly, n, s', t', a[1..], b[1..]);
      if AgreeFrom(s', t', |a| - 1) {
        StepBackwards(poly, n, s, a[0], t, b[0], |a| - 1);
      }
      if AgreeFrom(s, t, |a|) && DifferAlike(s, t, a, b) {
        assert (a[0] != b[0]) == (Bit(s, 0) != Bit(t, 0));
        StepForwards(poly, s, a[0], t, b[0], |a| - 1);
      }
      if Applied(s, a[0]) == Applied(t, b[0]) {
        DifferAlikeStep(poly, s, t, a, b);
      }
    }
  }

  /** x and y differ in their first bit, and after it exactly where the polynomial has ones. */
  ghost predicate PolynomialBurst(poly: nat, n: nat, x: seq<bool>, y: seq<bool>) {
    |x| == |y| == n + 1 && x[0] != y[0] && forall i: nat :: i < n ==> (x[i + 1] != y[i + 1]) == Bit(poly, i)
  }

  lemma OneMoreBit(poly: nat, n: nat, s: nat, x: seq<bool>, y: seq<bool>)
    requires TopBitSet(poly, n) && s < Pow2(n) && |x| == |y| == n + 1 && x[0] != y[0]
    ensures Steps(poly, s, x) == Steps(poly, s, y) <==> PolynomialBurst(poly, n, x, y)
  {
    var s', t' := Step(poly, s, x[0]), Step(poly, s, y[0]);
    StepBound(poly, s, x[0], n);
    StepBound(poly, s, y[0], n);
    StepsMeetExactlyWhen(poly, n, s', t', x[1..], y[1..]);
    forall i: nat
      ensures Bit(s', i) != Bit(t', i) <==> Bit(poly, i)
      ensures n <= i ==> Bit(s', i) == Bit(t', i)
    {
      StepBit(poly, s, x[0], i);
      StepBit(poly, s, y[0], i);
      if n <= i { HighBitsClear(poly, n, i); }
    }
    assert AgreeFrom(s', t', n);
    if DifferAlike(s', t', x[1..], y[1..]) {
      forall i: nat | i < n
        ensures (x[i + 1] != y[i + 1]) == Bit(poly, i)
      {
        assert x[1..][i] == x[i + 1] && y[1..][i] == y[i + 1];
      }
    }
  }

  lemma SameRegisterAfter(poly: nat, n: nat, start: nat, before: seq<bool>, x: seq<bool>, y: seq<bool>, after: seq<bool>)
    requires TopBitSet(poly, n) && start < Pow2(n)
    ensures var s := Steps(poly, start, before);
            s < Pow2(n) && (Steps(poly, start, before + x + after) == Steps(poly, start, before + y + after)
                            <==> Steps(poly, s, x) == Steps(poly, s, y))
  {
    var s := Steps(poly, start, before);
    StepsBound(poly, start, before, n);
    StepsAppend(poly, start, before, x);
    StepsAppend(poly, start, before, y);
    StepsAppend(poly, start, before + x, after);
    StepsAppend(poly, start, before + y, after);
    StepsBound(poly, s, x, n);
    StepsBound(poly, s, y, n);
    if Steps(poly, start, before + x + after) == Steps(poly, start, before + y + after) {
      StepsInjective(poly, n, Steps(poly, s, x), Steps(poly, s, y), after);
    }
  }

  /** A window of n + 1 bits, in any message and from any start, goes unnoticed exactly when nothing in it changed or the
      change is the polynomial itself behind a one. */
  lemma LongerBurstMissedExactlyWhen(poly: nat, n: nat, start: nat, before: seq<bool>, x: seq<bool>, y: seq<bool>,
                                     after: seq<bool>)
    requires TopBitSet(poly, n) && start < Pow2(n) && |x| == |y| == n + 1
    ensures Steps(poly, start, before + x + after) == Steps(poly, start, before + y + after)
            <==> x == y || PolynomialBurst(poly, n, x, y)
  {
    hide Steps, TopBitSet, Pow2;
    SameRegisterAfter(poly, n, start, before, x, y, after);
    if x[0] != y[0] {
      OneMoreBit(poly, n, Steps(poly, start, before), x, y);
    } else if x != y {
      ShorterBurst(poly, n, Steps(poly, start, before), x, y);
    }
  }

  lemma ShorterBurst(poly: nat, n: nat, s: nat, x: seq<bool>, y: seq<bool>)
    requires TopBitSet(poly, n) && s < Pow2(n) && |x| == |y| == n + 1 && x[0] == y[0] && x != y
    ensures Steps(poly, s, x) != Steps(poly, s, y)
  {
    assert x == [x[0]] + x[1..] + [] && y == [x[0]] + y[1..] + [];
    BurstChangesRegister(poly, n, s, [x[0]], x[1..], y[1..], []);
  }

  /** The same for messages of bytes that differ only inside such a window. */
  lemma MessagesMissedExactlyWhen(poly: nat, n: nat, start: nat, data: seq<byte>, other: seq<byte>, p: nat)
    requires TopBitSet(poly, n) && start < Pow2(n) && DifferInWindow(data, other, p, n + 1)
    ensures Register(poly, start, data) == Register(poly, start, other)
            <==> PolynomialBurst(poly, n, MessageBits(data)[p..p + n + 1], MessageBits(other)[p..p + n + 1])
  {
    var a, b := MessageBits(data), MessageBits(other);
    var x, y := a[p..p + n + 1], b[p..p + n + 1];
    assert a == a[..p] + x + a[p + n + 1..] && b == b[..p] + y + b[p + n + 1..];
    if x == y {
      MessageBitsInjective(data, other);
    }
    LongerBurstMissedExactlyWhen(poly, n, start, a[..p], x, y, a[p + n + 1..]);
  }

  /** The three checksums at windows one bit longer than they are. */
  lemma PolynomialsMissExactlyWhen(data: seq<byte>, other: seq<byte>, start: nat, p: nat)
    ensures DifferInWindow(data, other, p, 9) && start < 0x100 ==>
              (Register(POLY_CRC8, start, data) == Register(POLY_CRC8, start, other)
               <==> PolynomialBurst(POLY_CRC8, 8, MessageBits(data)[p..p + 9], MessageBits(other)[p..p + 9]))
    ensures DifferInWindow(data, other, p, 17) && start < 0x1_0000 ==>
              (Register(POLY_MODBUS, start, data) == Register(POLY_MODBUS, start, other)
               <==> PolynomialBurst(POLY_MODBUS, 16, MessageBits(data)[p..p + 17], MessageBits(other)[p..p + 17]))
    ensures DifferInWindow(data, other, p, 33) && start < 0x1_0000_0000 ==>
              (Register(POLY_ETHERNET, start, data) == Register(POLY_ETHERNET, start, other)
               <==> PolynomialBurst(POLY_ETHERNET, 32, MessageBits(data)[p..p + 33], MessageBits(other)[p..p + 33]))
  {
    PowersOfTwo();
    TopBits();
    hide Register, PolynomialBurst, TopBitSet, Pow2;
    if DifferInWindow(data, other, p, 9) && start < 0x100 {
      MessagesMissedExactlyWhen(POLY_CRC8, 8, start, data, other, p);
    }
    if DifferInWindow(data, other, p, 17) && start < 0x1_0000 {
      MessagesMissedExactlyWhen(POLY_MODBUS, 16, start, data, other, p);
    }
    if DifferInWindow(data, other, p, 33) && start < 0x1_0000_0000 {
      MessagesMissedExactlyWhen(POLY_ETHERNET, 32, start, data, other, p);
    }
  }

  // ---------- Messages that are taken for another ----------

  lemma {:induction false} LowBitsAt(x: nat, k: nat, i: nat)
    requires i < k
    ensures LowBits(x, k)[i] == Bit(x, i)
    decreases k
  {
    if i == 0 {
    } else {
      LowBitsAt(x / 2, k - 1, i - 1);
    }
  }

  lemma {:induction false} LowBitsConcat(c: nat, x: nat, k: nat, m: nat)
    requires c < Pow2(k)
    ensures LowBits(c + Pow2(k) * x, k + m) == LowBits(c, k) + LowBits(x, m)
    decreases k
  {
    if k == 0 {
      assert LowBits(c, 0) + LowBits(x, m) == LowBits(x, m);
    } else {
      var v := c + Pow2(k) * x;
      assert Pow2(k) * x == 2 * (Pow2(k - 1) * x);
      assert v / 2 == c / 2 + Pow2(k - 1) * x && v % 2 == c % 2;
      LowBitsConcat(c / 2, x, k - 1, m);
    }
  }

  /** The number whose bytes the message is, least significant first. */
  function NumberOf(data: seq<byte>): nat {
    if data == [] then 0 else data[0] + 0x100 * NumberOf(data[1..])
  }

  lemma {:induction false} MessageOfNumber(data: seq<byte>)
    ensures MessageBits(data) == LowBits(NumberOf(data), 8 * |data|)
    decreases |data|
  {
    if data == [] {
    } else {
      PowersOfTwo();
      MessageOfNumber(data[1..]);
      LowBitsConcat(data[0], NumberOf(data[1..]), 8, 8 * |data[1..]|);
    }
  }

  lemma SpelledBits(poly: nat, n: nat, a: seq<bool>, b: seq<bool>)
    requires poly < Pow2(n) && |a| == |b| > n
    requires a == LowBits(2 * poly + 1, |a|) && b == LowBits(0, |b|)
    ensures PolynomialBurst(poly, n, a[..n + 1], b[..n + 1]) && a[n + 1..] == b[n + 1..]
  {
    forall i: nat | i < |a|
      ensures a[i] == Bit(2 * poly + 1, i) && !b[i]
      ensures i > n ==> !a[i]
      ensures i > 0 ==> a[i] == Bit(poly, i - 1)
    {
      hide LowBits;
      LowBitsAt(2 * poly + 1, |a|, i);
      LowBitsAt(0, |b|, i);
      ZeroBits(i);
      if i > n { HighBitsClear(2 * poly + 1, n + 1, i); }
    }
    assert a[..n + 1][0] && !b[..n + 1][0];
  }

  /** A message that spells the polynomial behind a one, low bits first, leaves the register that zeros leave, from
      every start. */
  lemma SpelledPolynomial(poly: nat, n: nat, start: nat, data: seq<byte>, zeros: seq<byte>)
    requires TopBitSet(poly, n) && start < Pow2(n) && n < 8 * |data| && |zeros| == |data|
    requires NumberOf(data) == 2 * poly + 1 && NumberOf(zeros) == 0
    ensures Register(poly, start, data) == Register(poly, start, zeros)
  {
    hide MessageBits, LowBits, NumberOf, Steps, PolynomialBurst, Pow2;
    var a, b, w := MessageBits(data), MessageBits(zeros), n + 1;
    MessageOfNumber(data);
    MessageOfNumber(zeros);
    SpelledBits(poly, n, a, b);
    assert a == [] + a[..w] + a[w..] && b == [] + b[..w] + a[w..];
    LongerBurstMissedExactlyWhen(poly, n, start, [], a[..w], b[..w], a[w..]);
  }

  /** The three widths are exact: two messages of bytes that each checksum takes for one another, from every start. */
  lemma LongerBurstMissed(start: nat)
    ensures start < 0x100 ==> Register(POLY_CRC8, start, [0x19, 0x01]) == Register(POLY_CRC8, start, [0, 0])
    ensures start < 0x1_0000 ==>
              Register(POLY_MODBUS, start, [0x03, 0x40, 0x01]) == Register(POLY_MODBUS, start, [0, 0, 0])
    ensures start < 0x1_0000_0000 ==> Register(POLY_ETHERNET, start, [0x41, 0x06, 0x71, 0xDB, 0x01])
                                      == Register(POLY_ETHERNET, start, [0, 0, 0, 0, 0])
  {
    PowersOfTwo();
    TopBits();
    if start < 0x100 { SpelledPolynomial(POLY_CRC8, 8, start, [0x19, 0x01], [0, 0]); }
    if start < 0x1_0000 { SpelledPolynomial(POLY_MODBUS, 16, start, [0x03, 0x40, 0x01], [0, 0, 0]); }
    if start < 0x1_0000_0000 {
      SpelledPolynomial(POLY_ETHERNET, 32, start, [0x41, 0x06, 0x71, 0xDB, 0x01], [0, 0, 0, 0, 0]);
    }
  }

  // ---------- Errors in an odd number of bits ----------

  /** An odd number of ones. */
  predicate Odd(x: nat) {
    x != 0 && (x % 2 == 1) != Odd(x / 2)
  }

  predicate OddBits(bits: seq<bool>) {
    bits != [] && bits[0] != OddBits(bits[1..])
  }

  lemma {:induction false} OddXor(x: nat, y: nat)
    ensures Odd(Xor(x, y)) == (Odd(x) != Odd(y))
    decreases x + y
  {
    if x == 0 || y == 0 {
    } else {
      XorHalf(x, y);
      OddXor(x / 2, y / 2);
    }
  }

  /** A polynomial with an odd number of ones keeps track of the parity of the bits that have entered. */
  lemma {:induction false} OddSteps(poly: nat, s: nat, bits: seq<bool>)
    requires Odd(poly)
    ensures Odd(Steps(poly, s, bits)) == (Odd(s) != OddBits(bits))
    decreases |bits|
  {
    if bits == [] {
    } else {
      OddXor(s / 2, poly);
      OddSteps(poly, Step(poly, s, bits[0]), bits[1..]);
    }
  }

  /** In how many places a and b differ. */
  function Differences(a: seq<bool>, b: seq<bool>): nat
    requires |a| == |b|
    decreases |a|
  {
    if a == [] then 0 else (if a[0] != b[0] then 1 else 0) + Differences(a[1..], b[1..])
  }

  lemma {:induction false} OddDifferences(a: seq<bool>, b: seq<bool>)
    requires |a| == |b|
    ensures Differences(a, b) % 2 == 1 <==> OddBits(a) != OddBits(b)
    decreases |a|
  {
    if a == [] {
    } else {
      OddDifferences(a[1..], b[1..]);
    }
  }

  /** Equal-length messages that differ in an odd number of bits. */
  predicate OddError(data: seq<byte>, other: seq<byte>) {
    |data| == |other| && Differences(MessageBits(data), MessageBits(other)) % 2 == 1
  }

  ghost predicate DetectsOddErrors(poly: nat, start: nat) {
    forall data, other :: OddError(data, other) ==> Register(poly, start, data) != Register(poly, start, other)
  }

  lemma OddErrorChangesRegister(poly: nat, start: nat, data: seq<byte>, other: seq<byte>)
    requires Odd(poly) && OddError(data, other)
    ensures Register(poly, start, data) != Register(poly, start, other)
  {
    var a, b := MessageBits(data), MessageBits(other);
    OddDifferences(a, b);
    OddSteps(poly, start, a);
    OddSteps(poly, start, b);
  }

  lemma {:induction false} OddLowBits(x: nat, k: nat)
    requires x < Pow2(k)
    ensures OddBits(LowBits(x, k)) == Odd(x)
    decreases k
  {
    if k == 0 {
    } else {
      OddLowBits(x / 2, k - 1);
    }
  }

  lemma {:induction false} NumberBound(data: seq<byte>)
    ensures NumberOf(data) < Pow2(8 * |data|)
    decreases |data|
  {
    if data == [] {
    } else {
      NumberBound(data[1..]);
      EightMore(8 * |data[1..]|);
    }
  }

  lemma OddMessageBits(data: seq<byte>)
    ensures OddBits(MessageBits(data)) == Odd(NumberOf(data))
  {
    hide MessageBits, NumberOf, LowBits, Odd, OddBits, Pow2;
    NumberBound(data);
    MessageOfNumber(data);
    OddLowBits(NumberOf(data), 8 * |data|);
  }

  /** The message that spells a polynomial behind a one differs from zeros in an odd number of bits exactly when the
      polynomial has an even number of ones. */
  lemma SpelledIsOdd(poly: nat, data: seq<byte>, zeros: seq<byte>)
    requires |zeros| == |data|
    requires NumberOf(data) == 2 * poly + 1 && NumberOf(zeros) == 0
    ensures OddError(data, zeros) <==> !Odd(poly)
  {
    hide MessageBits, NumberOf, Odd, OddBits, Differences;
    OddBehindOne(poly, NumberOf(data), NumberOf(zeros));
    OddMessageBits(data);
    OddMessageBits(zeros);
    OddDifferences(MessageBits(data), MessageBits(zeros));
  }

  lemma OddBehindOne(poly: nat, spelled: nat, zero: nat)
    requires spelled == 2 * poly + 1 && zero == 0
    ensures Odd(spelled) == !Odd(poly) && !Odd(zero)
  {
    assert spelled / 2 == poly;
  }

  /** A number in k bytes, least significant first. */
  function Spell(x: nat, k: nat): (data: seq<byte>)
    ensures |data| == k
  {
    if k == 0 then [] else [x % 0x100] + Spell(x / 0x100, k - 1)
  }

  lemma {:induction false} SpellRoundTrip(x: nat, k: nat)
    requires x < Pow2(8 * k)
    ensures NumberOf(Spell(x, k)) == x
    decreases k
  {
    if k == 0 {
    } else {
      EightMore(8 * (k - 1));
      SpellRoundTrip(x / 0x100, k - 1);
      assert Spell(x, k)[1..] == Spell(x / 0x100, k - 1);
    }
  }

  lemma EightMore(n: nat)
    ensures Pow2(n + 8) == 0x100 * Pow2(n)
  {
    assert Pow2(n + 2) == 4 * Pow2(n);
    assert Pow2(n + 4) == 4 * Pow2(n + 2);
    assert Pow2(n + 6) == 4 * Pow2(n + 4);
  }

  /** A checksum detects every error in an odd number of bits, wherever they are and whatever the start, if and only if
      its polynomial has an odd number of ones. */
  lemma OddErrorsDetectedExactlyWhen(poly: nat, n: nat, start: nat)
    requires TopBitSet(poly, n) && start < Pow2(n)
    ensures DetectsOddErrors(poly, start) <==> Odd(poly)
  {
    if Odd(poly) {
      forall data, other | OddError(data, other)
        ensures Register(poly, start, data) != Register(poly, start, other)
      {
        OddErrorChangesRegister(poly, start, data, other);
      }
    } else {
      var data, zeros := Spell(2 * poly + 1, n + 1), Spell(0, n + 1);
      assert 2 * poly + 1 < Pow2(n + 1);
      Pow2Monotone(n + 1, 8 * (n + 1));
      SpellRoundTrip(2 * poly + 1, n + 1);
      SpellRoundTrip(0, n + 1);
      SpelledPolynomial(poly, n, start, data, zeros);
      SpelledIsOdd(poly, data, zeros);
    }
  }

  /** crc8 and crc16_modbus detect every error in an odd number of bits. */
  lemma OddErrorsDetected(data: seq<byte>, other: seq<byte>, start: nat)
    requires OddError(data, other)
    ensures Register(POLY_CRC8, start, data) != Register(POLY_CRC8, start, other)
    ensures Register(POLY_MODBUS, start, data) != Register(POLY_MODBUS, start, other)
  {
    OddPolynomials();
    OddErrorChangesRegister(POLY_CRC8, start, data, other);
    OddErrorChangesRegister(POLY_MODBUS, start, data, other);
  }

  lemma OddPolynomials()
    ensures Odd(POLY_CRC8) && Odd(POLY_MODBUS) && !Odd(POLY_ETHERNET)
  {
    assert Odd(0x8) && !Odd(0xA);
    assert !Odd(0xA00);
    assert Odd(0xEDB);
    assert Odd(0xEDB88);
    assert Odd(0xEDB883);
    assert !Odd(0xEDB8832);
  }

  lemma SpelledEthernet()
    ensures NumberOf([0x41, 0x06, 0x71, 0xDB, 0x01]) == 2 * POLY_ETHERNET + 1 && NumberOf([0, 0, 0, 0, 0]) == 0
  {
  }

  /** crc32_ethernet does not: for example, it takes these messages, which differ in 15 bits, for one another. */
  lemma OddErrorMissed(start: nat, data: seq<byte>, zeros: seq<byte>)
    requires start < 0x1_0000_0000 && data == [0x41, 0x06, 0x71, 0xDB, 0x01] && zeros == [0, 0, 0, 0, 0]
    ensures OddError(data, zeros) && Register(POLY_ETHERNET, start, data) == Register(POLY_ETHERNET, start, zeros)
    ensures !DetectsOddErrors(POLY_ETHERNET, start)
  {
    PowersOfTwo();
    OddPolynomials();
    TopBits();
    hide MessageBits, NumberOf, Odd, OddError, Pow2, Register;
    SpelledEthernet();
    LongerBurstMissed(start);
    SpelledIsOdd(POLY_ETHERNET, data, zeros);
  }

  // ---------- All undetected errors ----------

  function XorBits(a: seq<bool>, b: seq<bool>): (d: seq<bool>)
    requires |a| == |b|
    ensures |d| == |a|
  {
    seq(|a|, i requires 0 <= i < |a| => a[i] != b[i])
  }

  function Falses(n: nat): (d: seq<bool>)
    ensures |d| == n
  {
    seq(n, _ => false)
  }

  /** The product of two polynomials over the field of two elements, lowest power first. */
  function Product(q: seq<bool>, g: seq<bool>): (p: seq<bool>)
    requires g != []
    ensures |p| == |q| + |g| - 1
    decreases |q|
  {
    if q == [] then Falses(|g| - 1)
    else XorBits(if q[0] then g + Falses(|q| - 1) else Falses(|g| + |q| - 1), [false] + Product(q[1..], g))
  }

  /** The polynomial behind a one: what a checksum divides by. */
  function Divisor(poly: nat, n: nat): (g: seq<bool>)
    ensures |g| == n + 1
  {
    [true] + LowBits(poly, n)
  }

  /** Zero, or a product of the divisor and another polynomial. */
  ghost predicate IsMultiple(d: seq<bool>, g: seq<bool>)
    requires g != []
  {
    d == Falses(|d|) || exists q :: |q| + |g| == |d| + 1 && Product(q, g) == d
  }

  lemma StepLinear(poly: nat, n: nat, s: nat, t: nat, a: bool, b: bool)
    requires poly < Pow2(n) && s < Pow2(n) && t < Pow2(n)
    ensures Xor(s, t) < Pow2(n) && Step(poly, Xor(s, t), a != b) == Xor(Step(poly, s, a), Step(poly, t, b))
  {
    hide Step, Xor, Bit;
    XorBound(s, t, n);
    StepBound(poly, s, a, n);
    StepBound(poly, t, b, n);
    var x, y := Step(poly, Xor(s, t), a != b), Xor(Step(poly, s, a), Step(poly, t, b));
    StepBound(poly, Xor(s, t), a != b, n);
    XorBound(Step(poly, s, a), Step(poly, t, b), n);
    forall i: nat | i < n
      ensures Bit(x, i) == Bit(y, i)
    {
      StepLinearAt(poly, s, t, a, b, i);
    }
    SameBits(x, y, n);
  }

  lemma StepLinearAt(poly: nat, s: nat, t: nat, a: bool, b: bool, i: nat)
    ensures Bit(Step(poly, Xor(s, t), a != b), i) == Bit(Xor(Step(poly, s, a), Step(poly, t, b)), i)
  {
    hide Step, Xor, Bit;
    XorHalf(s, t);
    StepBit(poly, Xor(s, t), a != b, i);
    StepBit(poly, s, a, i);
    StepBit(poly, t, b, i);
    XorBit(s, t, i + 1);
    XorBit(Step(poly, s, a), Step(poly, t, b), i);
  }

  /** The register is linear in the start and the bits together. */
  lemma {:induction false} StepsLinear(poly: nat, n: nat, s: nat, t: nat, a: seq<bool>, b: seq<bool>)
    requires poly < Pow2(n) && s < Pow2(n) && t < Pow2(n) && |a| == |b|
    ensures Steps(poly, Xor(s, t), XorBits(a, b)) == Xor(Steps(poly, s, a), Steps(poly, t, b))
    decreases |a|
  {
    if a == [] {
    } else {
      StepLinear(poly, n, s, t, a[0], b[0]);
      StepBound(poly, s, a[0], n);
      StepBound(poly, t, b[0], n);
      StepsLinear(poly, n, Step(poly, s, a[0]), Step(poly, t, b[0]), a[1..], b[1..]);
      assert XorBits(a, b)[1..] == XorBits(a[1..], b[1..]) && XorBits(a, b)[0] == (a[0] != b[0]);
    }
  }

  lemma {:induction false} FalsesKeepZero(poly: nat, k: nat)
    ensures Steps(poly, 0, Falses(k)) == 0
    decreases k
  {
    if k == 0 {
    } else {
      FalsesKeepZero(poly, k - 1);
      assert Falses(k)[1..] == Falses(k - 1);
    }
  }

  lemma {:induction false} RegisterCancelled(poly: nat, x: nat, k: nat)
    requires x < Pow2(k)
    ensures Steps(poly, x, LowBits(x, k)) == 0
    decreases k
  {
    if k == 0 {
    } else {
      RegisterCancelled(poly, x / 2, k - 1);
    }
  }

  /** The divisor itself leaves nothing, nor does it with zeros behind it. */
  lemma DivisorLeavesZero(poly: nat, n: nat, k: nat)
    requires poly < Pow2(n)
    ensures Steps(poly, 0, Divisor(poly, n) + Falses(k)) == 0
  {
    StepsAppend(poly, 0, Divisor(poly, n), Falses(k));
    assert Divisor(poly, n)[1..] == LowBits(poly, n);
    RegisterCancelled(poly, poly, n);
    FalsesKeepZero(poly, k);
  }

  /** The part of a division that one quotient bit takes away. */
  function Part(b: bool, poly: nat, n: nat, k: nat): (d: seq<bool>)
    ensures |d| == n + 1 + k && d[0] == b
  {
    if b then Divisor(poly, n) + Falses(k) else Falses(n + 1 + k)
  }

  lemma PartLeavesZero(b: bool, poly: nat, n: nat, k: nat)
    requires poly < Pow2(n)
    ensures Steps(poly, 0, Part(b, poly, n, k)) == 0
  {
    DivisorLeavesZero(poly, n, k);
    FalsesKeepZero(poly, n + 1 + k);
  }

  /** Taking a part away leaves the same register, and a first bit that no longer matters. */
  lemma TakePart(poly: nat, n: nat, d: seq<bool>, k: nat)
    requires poly < Pow2(n) && |d| == n + 1 + k
    ensures var e := XorBits(Part(d[0], poly, n, k), d); !e[0] && Steps(poly, 0, e[1..]) == Steps(poly, 0, d)
  {
    var p := Part(d[0], poly, n, k);
    PartLeavesZero(d[0], poly, n, k);
    StepsLinear(poly, n, 0, 0, p, d);
  }

  lemma {:induction false} MultiplesLeaveZero(poly: nat, n: nat, q: seq<bool>)
    requires poly < Pow2(n)
    ensures Steps(poly, 0, Product(q, Divisor(poly, n))) == 0
    decreases |q|
  {
    var g := Divisor(poly, n);
    if q == [] {
      FalsesKeepZero(poly, n);
    } else {
      var rest := [false] + Product(q[1..], g);
      MultiplesLeaveZero(poly, n, q[1..]);
      assert rest[1..] == Product(q[1..], g);
      PartLeavesZero(q[0], poly, n, |q| - 1);
      StepsLinear(poly, n, 0, 0, Part(q[0], poly, n, |q| - 1), rest);
    }
  }

  /** Long division: bits that leave nothing in the register have a quotient. */
  lemma {:induction false} Quotient(poly: nat, n: nat, d: seq<bool>) returns (q: seq<bool>)
    requires TopBitSet(poly, n) && |d| >= n && Steps(poly, 0, d) == 0
    ensures |q| + n == |d| && Product(q, Divisor(poly, n)) == d
    decreases |d|
  {
    if |d| == n {
      q := [];
      FalsesKeepZero(poly, n);
      StepsMeetExactlyWhen(poly, n, 0, 0, d, Falses(n));
      assert d == Falses(n);
    } else {
      var k := |d| - n - 1;
      var p := Part(d[0], poly, n, k);
      var e := XorBits(p, d);
      TakePart(poly, n, d, k);
      var rest := Quotient(poly, n, e[1..]);
      q := [d[0]] + rest;
      assert q[1..] == rest && [false] + e[1..] == e;
      assert XorBits(p, e) == d;
    }
  }

  lemma ZeroRegisterExactlyWhen(poly: nat, n: nat, d: seq<bool>)
    requires TopBitSet(poly, n)
    ensures Steps(poly, 0, d) == 0 <==> IsMultiple(d, Divisor(poly, n))
  {
    FalsesKeepZero(poly, |d|);
    if Steps(poly, 0, d) == 0 {
      if |d| >= n {
        var q := Quotient(poly, n, d);
      } else {
        StepsMeetExactlyWhen(poly, n, 0, 0, d, Falses(|d|));
        assert d == Falses(|d|);
      }
    } else if IsMultiple(d, Divisor(poly, n)) {
      var q :| |q| + n == |d| && Product(q, Divisor(poly, n)) == d;
      MultiplesLeaveZero(poly, n, q);
    }
  }

  /** Messages of equal length leave the same register, from any start, if and only if their difference is a multiple of
      the polynomial behind a one. */
  lemma UndetectedExactlyWhen(poly: nat, n: nat, start: nat, data: seq<byte>, other: seq<byte>)
    requires TopBitSet(poly, n) && start < Pow2(n) && |data| == |other|
    ensures Register(poly, start, data) == Register(poly, start, other)
            <==> IsMultiple(XorBits(MessageBits(data), MessageBits(other)), Divisor(poly, n))
  {
    var a, b := MessageBits(data), MessageBits(other);
    StepsLinear(poly, n, start, start, a, b);
    XorSelf(start, start);
    XorSelf(Steps(poly, start, a), Steps(poly, start, b));
    ZeroRegisterExactlyWhen(poly, n, XorBits(a, b));
  }

  // ---------- The register as a remainder ----------

  /** The message with the register behind it, and the start added to its first n bits. */
  function Codeword(n: nat, start: nat, bits: seq<bool>, register: nat): (w: seq<bool>)
    ensures |w| == |bits| + n
  {
    XorBits(LowBits(start, n) + Falses(|bits|), bits + LowBits(register, n))
  }

  lemma CodewordLeaves(poly: nat, n: nat, start: nat, bits: seq<bool>, register: nat)
    requires TopBitSet(poly, n) && start < Pow2(n) && register < Pow2(n)
    ensures Steps(poly, 0, Codeword(n, start, bits, register)) == Steps(poly, Steps(poly, start, bits), LowBits(register, n))
  {
    var a, b := LowBits(start, n) + Falses(|bits|), bits + LowBits(register, n);
    StepsLinear(poly, n, start, start, a, b);
    XorSelf(start, start);
    StepsAppend(poly, start, LowBits(start, n), Falses(|bits|));
    RegisterCancelled(poly, start, n);
    FalsesKeepZero(poly, |bits|);
    StepsAppend(poly, start, bits, LowBits(register, n));
  }

  /** The register after a message is the one number below 2^n that, written behind the message, with the start added to
      the first n bits, makes a multiple of the polynomial behind a one: the remainder of the division. */
  lemma RegisterIsRemainder(poly: nat, n: nat, start: nat, data: seq<byte>, register: nat)
    requires TopBitSet(poly, n) && start < Pow2(n) && register < Pow2(n)
    ensures Register(poly, start, data) == register
            <==> IsMultiple(Codeword(n, start, MessageBits(data), register), Divisor(poly, n))
  {
    var r := Register(poly, start, data);
    hide Codeword, IsMultiple, LowBits, MessageBits;
    CodewordLeaves(poly, n, start, MessageBits(data), register);
    ZeroRegisterExactlyWhen(poly, n, Codeword(n, start, MessageBits(data), register));
    RegisterCancelled(poly, register, n);
    StepsBound(poly, start, MessageBits(data), n);
    if Steps(poly, r, LowBits(register, n)) == 0 {
      StepsInjective(poly, n, r, register, LowBits(register, n));
    }
  }

  /** Before the first byte the register is the start. */
  lemma NothingFed(poly: nat, start: nat)
    ensures Register(poly, start, []) == start
  {
  }
}
