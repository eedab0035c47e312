/**
 Known values of the three checksums, computed on machine words, which the solver evaluates.
 */
module CrcValues {
  import opened Bits
  import opened Crc

  /** The number that a machine word holds. */
  function NatOf(x: bv32): nat {
    if x == 0 then 0 else 2 * NatOf(Halved(x)) + Low(x)
  }

  function Low(x: bv32): nat {
    if x & 1 != 0 then 1 else 0
  }

  function Halved(x: bv32): (h: bv32)
    ensures x != 0 ==> h < x
  {
    x >> 1
  }

  lemma Half(x: bv32)
    ensures NatOf(x) == 2 * NatOf(Halved(x)) + Low(x)
  {
  }

  lemma HalfOf(x: bv32)
    ensures NatOf(Halved(x)) == NatOf(x) / 2 && (x & 1 != 0 <==> NatOf(x) % 2 == 1)
  {
    Half(x);
    hide NatOf;
  }

  // ---------- Words are added and shifted like the numbers they hold ----------

  lemma XorHalves(x: bv32, y: bv32)
    ensures Halved(x ^ y) == Halved(x) ^ Halved(y)
    ensures (x ^ y) & 1 != 0 <==> ((x & 1 != 0) != (y & 1 != 0))
  {
  }

  lemma XorFromHalves(a: nat, b: nat, c: nat)
    requires c / 2 == Xor(a / 2, b / 2) && (c % 2 == 1 <==> a % 2 != b % 2)
    ensures c == Xor(a, b)
  {
    XorHalf(a, b);
    hide Xor;
  }

  lemma XorStep(x: bv32, y: bv32)
    requires NatOf(Halved(x) ^ Halved(y)) == Xor(NatOf(Halved(x)), NatOf(Halved(y)))
    ensures NatOf(x ^ y) == Xor(NatOf(x), NatOf(y))
  {
    XorHalves(x, y);
    hide NatOf, Xor;
    HalfOf(x);
    HalfOf(y);
    HalfOf(x ^ y);
    XorFromHalves(NatOf(x), NatOf(y), NatOf(x ^ y));
  }

  lemma {:induction false} XorOf(x: bv32, y: bv32)
    ensures NatOf(x ^ y) == Xor(NatOf(x), NatOf(y))
    decreases x
  {
    if x == 0 {
      assert x ^ y == y;
    } else {
      XorOf(Halved(x), Halved(y));
      XorStep(x, y);
    }
  }

  function Shift(p: bv32, s: bv32): bv32 {
    if s & 1 != 0 then Halved(s) ^ p else Halved(s)
  }

  /** A byte enters the register. */
  function Fed(p: bv32, s: bv32, c: bv32): bv32 {
    Shift(p, Shift(p, Shift(p, Shift(p, Shift(p, Shift(p, Shift(p, Shift(p, s ^ c))))))))
  }

  lemma ShiftOf(p: bv32, s: bv32, k: nat)
    ensures ZeroSteps(NatOf(p), NatOf(s), k + 1) == ZeroSteps(NatOf(p), NatOf(Shift(p, s)), k)
  {
    HalfOf(s);
    XorOf(Halved(s), p);
    hide NatOf, Xor;
  }

  lemma FedOf(p: bv32, s: bv32, c: bv32)
    ensures ZeroSteps(NatOf(p), Xor(NatOf(s), NatOf(c)), 8) == NatOf(Fed(p, s, c))
  {
    XorOf(s, c);
    hide NatOf, Xor, Shift, ZeroSteps;
    var s0 := s ^ c;
    var s1 := Shift(p, s0);
    var s2 := Shift(p, s1);
    var s3 := Shift(p, s2);
    var s4 := Shift(p, s3);
    var s5 := Shift(p, s4);
    var s6 := Shift(p, s5);
    var s7 := Shift(p, s6);
    ShiftOf(p, s0, 7);
    ShiftOf(p, s1, 6);
    ShiftOf(p, s2, 5);
    ShiftOf(p, s3, 4);
    ShiftOf(p, s4, 3);
    ShiftOf(p, s5, 2);
    ShiftOf(p, s6, 1);
    ShiftOf(p, s7, 0);
    NoSteps(NatOf(p), NatOf(Shift(p, s7)));
  }

  lemma NoSteps(poly: nat, s: nat)
    ensures ZeroSteps(poly, s, 0) == s
  {
  }

  /** The word s is the register after the message; after one more byte it is the word Fed(p, s, b). */
  lemma Next(poly: nat, start: nat, data: seq<byte>, c: byte, p: bv32, s: bv32, b: bv32)
    requires poly == NatOf(p) < 0x1_0000_0000 && start < 0x1_0000_0000 && c == NatOf(b)
    requires Register(poly, start, data) == NatOf(s)
    ensures Register(poly, start, data + [c]) == NatOf(Fed(p, s, b))
  {
    hide NatOf, Fed, Register, Steps, ZeroSteps, Xor, LowBits, Pow2;
    PowersOfTwo();
    Pow2Monotone(8, 32);
    RegisterAppend(poly, start, data, c);
    RegisterBound(poly, start, data);
    ByteAtOnce(poly, NatOf(s), c, 8, 32);
    FedOf(p, s, b);
  }

  lemma RegisterBound(poly: nat, start: nat, data: seq<byte>)
    requires poly < 0x1_0000_0000 && start < 0x1_0000_0000
    ensures Register(poly, start, data) < 0x1_0000_0000
  {
    PowersOfTwo();
    StepsBound(poly, start, MessageBits(data), 32);
  }

  // ---------- Numerals ----------

  /** The last hexadecimal digit of a word. */
  lemma Digit(x: bv32)
    ensures NatOf(x) == 16 * NatOf(Halved(Halved(Halved(Halved(x))))) + 8 * Low(Halved(Halved(Halved(x))))
                        + 4 * Low(Halved(Halved(x))) + 2 * Low(Halved(x)) + Low(x)
  {
    hide NatOf, Low, Halved;
    Half(x);
    Half(Halved(x));
    Half(Halved(Halved(x)));
    Half(Halved(Halved(Halved(x))));
  }

  lemma Zero()
    ensures NatOf(0) == 0
  {
  }

  lemma Polynomials()
    ensures NatOf(0xEDB8_8320) == POLY_ETHERNET && NatOf(0xA001) == POLY_MODBUS && NatOf(0x8C) == POLY_CRC8
  {
    hide NatOf;
    Zero();
    Digit(0xEDB8_8320);
    Digit(0xEDB_8832);
    Digit(0xED_B883);
    Digit(0xE_DB88);
    Digit(0xEDB8);
    Digit(0xEDB);
    Digit(0xED);
    Digit(0xE);
    Digit(0xA001);
    Digit(0xA00);
    Digit(0xA0);
    Digit(0xA);
    Digit(0x8C);
    Digit(0x8);
  }

  lemma Starts()
    ensures NatOf(0xFFFF) == 0xFFFF && NatOf(0xFFFF_FFFF) == 0xFFFF_FFFF
  {
    hide NatOf;
    Zero();
    Digit(0xFFFF_FFFF);
    Digit(0xFFF_FFFF);
    Digit(0xFF_FFFF);
    Digit(0xF_FFFF);
    Digit(0xFFFF);
    Digit(0xFFF);
    Digit(0xFF);
    Digit(0xF);
  }

  lemma Results()
    ensures NatOf(0xA2) == 0xA2 && NatOf(0x4B37) == 0x4B37 && NatOf(0x340B_C6D9) == 0x340B_C6D9
  {
    hide NatOf;
    Zero();
    Digit(0xA2);
    Digit(0xA);
    Digit(0x4B37);
    Digit(0x4B3);
    Digit(0x4B);
    Digit(0x4);
    Digit(0x340B_C6D9);
    Digit(0x340_BC6D);
    Digit(0x34_0BC6);
    Digit(0x3_40BC);
    Digit(0x340B);
    Digit(0x340);
    Digit(0x34);
    Digit(0x3);
  }

  lemma Digits()
    ensures NatOf(0x31) == 0x31 && NatOf(0x32) == 0x32 && NatOf(0x33) == 0x33 && NatOf(0x34) == 0x34 && NatOf(0x35) == 0x35
    ensures NatOf(0x36) == 0x36 && NatOf(0x37) == 0x37 && NatOf(0x38) == 0x38 && NatOf(0x39) == 0x39
  {
    hide NatOf;
    Zero();
    Digit(0x3);
    Digit(0x31);
    Digit(0x32);
    Digit(0x33);
    Digit(0x34);
    Digit(0x35);
    Digit(0x36);
    Digit(0x37);
    Digit(0x38);
    Digit(0x39);
  }

  lemma RomBytes()
    ensures NatOf(0x02) == 0x02 && NatOf(0x1C) == 0x1C && NatOf(0xB8) == 0xB8 && NatOf(0x01) == 0x01 && NatOf(0) == 0
  {
    hide NatOf;
    Zero();
    Digit(0x02);
    Digit(0x1C);
    Digit(0x1);
    Digit(0xB8);
    Digit(0xB);
  }

  // ---------- The values ----------

  /** The ASCII digits 1 to n. */
  function Counting(n: nat): (s: seq<byte>)
    requires n <= 9
    ensures |s| == n
  {
    if n == 0 then [] else Counting(n - 1) + [0x30 + n]
  }

  lemma CountingValue()
    ensures Counting(9) == [0x31, 0x32, 0x33, 0x34, 0x35, 0x36, 0x37, 0x38, 0x39]
  {
    assert Counting(3) == [0x31, 0x32, 0x33];
    assert Counting(6) == [0x31, 0x32, 0x33, 0x34, 0x35, 0x36];
  }

  lemma NextDigit(poly: nat, start: nat, n: nat, p: bv32, s: bv32, b: bv32)
    requires poly == NatOf(p) < 0x1_0000_0000 && start < 0x1_0000_0000 && 0 < n <= 9 && NatOf(b) == 0x30 + n
    requires Register(poly, start, Counting(n - 1)) == NatOf(s)
    ensures Register(poly, start, Counting(n)) == NatOf(Fed(p, s, b))
  {
    hide NatOf, Fed, Register;
    Next(poly, start, Counting(n - 1), 0x30 + n, p, s, b);
  }

  lemma NothingYet(poly: nat, start: nat)
    ensures Register(poly, start, Counting(0)) == start
  {
  }

  lemma CountingModbus()
    ensures Register(POLY_MODBUS, 0xFFFF, Counting(9)) == 0x4B37
  {
    hide NatOf, Register, Counting;
    Polynomials();
    Starts();
    Results();
    Digits();
    NothingYet(POLY_MODBUS, 0xFFFF);
    NextDigit(POLY_MODBUS, 0xFFFF, 1, 0xA001, 0xFFFF, 0x31);
    NextDigit(POLY_MODBUS, 0xFFFF, 2, 0xA001, 0x947E, 0x32);
    NextDigit(POLY_MODBUS, 0xFFFF, 3, 0xA001, 0xF595, 0x33);
    NextDigit(POLY_MODBUS, 0xFFFF, 4, 0xA001, 0x7A75, 0x34);
    NextDigit(POLY_MODBUS, 0xFFFF, 5, 0xA001, 0x30BA, 0x35);
    NextDigit(POLY_MODBUS, 0xFFFF, 6, 0xA001, 0xA471, 0x36);
    NextDigit(POLY_MODBUS, 0xFFFF, 7, 0xA001, 0x32E4, 0x37);
    NextDigit(POLY_MODBUS, 0xFFFF, 8, 0xA001, 0x9D73, 0x38);
    NextDigit(POLY_MODBUS, 0xFFFF, 9, 0xA001, 0x37DD, 0x39);
  }

  lemma CountingEthernet()
    ensures Register(POLY_ETHERNET, 0xFFFF_FFFF, Counting(9)) == 0x340B_C6D9
  {
    hide NatOf, Register, Counting;
    Polynomials();
    Starts();
    Results();
    Digits();
    NothingYet(POLY_ETHERNET, 0xFFFF_FFFF);
    NextDigit(POLY_ETHERNET, 0xFFFF_FFFF, 1, 0xEDB8_8320, 0xFFFFFFFF, 0x31);
    NextDigit(POLY_ETHERNET, 0xFFFF_FFFF, 2, 0xEDB8_8320, 0x7C231048, 0x32);
    NextDigit(POLY_ETHERNET, 0xFFFF_FFFF, 3, 0xEDB8_8320, 0xB0ACBB32, 0x33);
    NextDigit(POLY_ETHERNET, 0xFFFF_FFFF, 4, 0xEDB8_8320, 0x77B79C2D, 0x34);
    NextDigit(POLY_ETHERNET, 0xFFFF_FFFF, 5, 0xEDB8_8320, 0x641C1F5C, 0x35);
    NextDigit(POLY_ETHERNET, 0xFFFF_FFFF, 6, 0xEDB8_8320, 0x340AC5E3, 0x36);
    NextDigit(POLY_ETHERNET, 0xFFFF_FFFF, 7, 0xEDB8_8320, 0xF68D2C9E, 0x37);
    NextDigit(POLY_ETHERNET, 0xFFFF_FFFF, 8, 0xEDB8_8320, 0xAFFC9660, 0x38);
    NextDigit(POLY_ETHERNET, 0xFFFF_FFFF, 9, 0xEDB8_8320, 0x651F2550, 0x39);
  }

  lemma RomValue()
    ensures Register(POLY_CRC8, 0, [0x02, 0x1C, 0xB8, 0x01, 0x00, 0x00, 0x00]) == 0xA2
  {
    hide NatOf, Register;
    Polynomials();
    Results();
    RomBytes();
    NothingFed(POLY_CRC8, 0);
    var data: seq<byte> := [];
    Next(POLY_CRC8, 0, data, 0x02, 0x8C, 0x00, 0x02);
    data := data + [0x02];
    Next(POLY_CRC8, 0, data, 0x1C, 0x8C, 0xBC, 0x1C);
    data := data + [0x1C];
    Next(POLY_CRC8, 0, data, 0xB8, 0x8C, 0xAF, 0xB8);
    data := data + [0xB8];
    Next(POLY_CRC8, 0, data, 0x01, 0x8C, 0x1E, 0x01);
    data := data + [0x01];
    Next(POLY_CRC8, 0, data, 0x00, 0x8C, 0xDC, 0x00);
    data := data + [0x00];
    Next(POLY_CRC8, 0, data, 0x00, 0x8C, 0xF4, 0x00);
    data := data + [0x00];
    Next(POLY_CRC8, 0, data, 0x00, 0x8C, 0x15, 0x00);
    data := data + [0x00];
    assert data == [0x02, 0x1C, 0xB8, 0x01, 0x00, 0x00, 0x00];
  }

  /** The check values of the three checksums: of a sensor's ROM, and of the digits 1 to 9. */
  lemma CheckValues()
    ensures Register(0x8C, 0, [0x02, 0x1C, 0xB8, 0x01, 0x00, 0x00, 0x00]) == 0xA2
    ensures Register(0xA001, 0xFFFF, [0x31, 0x32, 0x33, 0x34, 0x35, 0x36, 0x37, 0x38, 0x39]) == 0x4B37
    ensures Register(0xEDB8_8320, 0xFFFF_FFFF, [0x31, 0x32, 0x33, 0x34, 0x35, 0x36, 0x37, 0x38, 0x39])
         == Complement32(0xCBF4_3926)
  {
    hide Register, Counting;
    RomValue();
    CountingValue();
    CountingModbus();
    CountingEthernet();
  }
}
