/**
 Printing decimal integers: the automatic and the zero-padded widths.
 */
module PrintLite {
  import opened Bits
  import opened Decimal

  lemma PrintedPositive(n: nat, fixedWidth: int)
    requires fixedWidth == AUTO || fixedWidth >= 0
    ensures Printed(n, fixedWidth) == Text(n, Width(n, fixedWidth))
  {
    hide Text;
  }

  class PrintLite {
    var out: seq<byte>

    constructor ()
      ensures out == []
    {
      out := [];
    }

    method Write(b: byte)
      modifies this
      ensures out == old(out) + [b]
    {
      out := out + [b];
    }

    static method CountDigits(value: nat) returns (d: nat)
      ensures d == DigitCount(value)
      ensures value < Pow10(d) && (d > 1 ==> Pow10(d - 1) <= value)
    {
      DigitCountMeaning(value);
      var left: nat := value;
      d := 0;
      while left > 0
        invariant DigitCount(value) == if left > 0 then d + DigitCount(left) else if value == 0 then 1 else d
        invariant value == 0 ==> d == 0
        invariant left < value ==> d > 0
      {
        left := left / 10;
        d := d + 1;
      }
      d := if d == 0 then 1 else d;
    }

    static method Pow(n: nat) returns (r: nat)
      ensures r == Pow10(n)
    {
      r := 1;
      for i := 0 to n
        invariant r == Pow10(i)
      {
        r := 10 * r;
      }
    }

    /** Converts a 32-bit number. The text is a numeral for it exactly when it fits the width. */
    method Xtoa(value: nat, fixedWidth: int, zero: bool) returns (count: nat)
      requires value < 0x1_0000_0000 && (fixedWidth == AUTO || 0 <= fixedWidth <= 10)
      modifies this
      ensures out == old(out) + if !zero && value == 0 then [] else Text(value, Width(value, fixedWidth))
      ensures count == |out| - |old(out)|
    {
      if !zero && value == 0 {
        return 0;
      }
      var digits := fixedWidth;
      if digits == AUTO {
        digits := CountDigits(value);
      }
      hide Text;
      var v := value;
      count := 0;
      for d := digits downto 0
        invariant 0 <= v && count == digits - d == |out| - |old(out)|
        invariant old(out) + Text(value, digits) == out + Text(v, d)
      {
        v := PutDigit(v, d);
        count := count + 1;
      }
      NothingLeft(v);
    }

    /** One turn of the loop: the top one of d + 1 digits. */
    method PutDigit(v: nat, d: nat) returns (left: nat)
      modifies this
      ensures |out| == |old(out)| + 1 && out + Text(left, d) == old(out) + Text(v, d + 1)
    {
      hide Text, TopDigit;
      var exp := Pow(d);
      var x := TopDigit(v, exp);
      TextStep(v, d);
      Write((ZERO + x) % 256);
      Taken(v, exp);
      left := v - x * exp;
      Regroup(old(out), [(ZERO + x) % 256], Text(left, d));
    }

    /** The %d conversion, with 32-bit negation, which leaves the most negative number alone, and the cast to an unsigned
        number after it. */
    method PrintSigned(n: int, fixedWidth: int) returns (count: nat)
      requires -0x8000_0000 <= n < 0x8000_0000 && (fixedWidth == AUTO || 0 <= fixedWidth <= 10)
      modifies this
      ensures out == old(out) + Printed(n, fixedWidth) && count == |Printed(n, fixedWidth)|
    {
      hide Text;
      count := 0;
      var m := n;
      if m < 0 {
        m := if n == -0x8000_0000 then n else -n;
        Write(MINUS);
        count := count + 1;
      }
      var digits := Xtoa(m % 0x1_0000_0000, fixedWidth, true);
      Regroup(old(out), if n < 0 then [MINUS] else [], Text(Magnitude(n), Width(Magnitude(n), fixedWidth)));
      count := count + digits;
    }

    /** The %u conversion. */
    method PrintUnsigned(n: nat, fixedWidth: int) returns (count: nat)
      requires n < 0x1_0000_0000 && (fixedWidth == AUTO || 0 <= fixedWidth <= 10)
      modifies this
      ensures out == old(out) + Printed(n, fixedWidth) && count == |Printed(n, fixedWidth)|
    {
      hide Text;
      count := Xtoa(n, fixedWidth, true);
      PrintedPositive(n, fixedWidth);
    }
  }
}
