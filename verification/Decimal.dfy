/**
 Decimal numerals as ASCII bytes: what they are worth, and what the printer makes of a number.
 */
module Decimal {
  import opened Bits

  const ZERO: byte := 0x30
  const MINUS: byte := 0x2D

  predicate IsDigit(c: int) {
    0x30 <= c <= 0x39
  }

  predicate AllDigits(s: seq<byte>) {
    forall i :: 0 <= i < |s| ==> IsDigit(s[i])
  }

  function Pow10(n: nat): (p: nat)
    ensures p > 0
  {
    if n == 0 then 1 else 10 * Pow10(n - 1)
  }

  /** The number a string of digits stands for. */
  function Value(s: seq<byte>): nat
    requires AllDigits(s)
  {
    if s == [] then 0 else 10 * Value(s[..|s| - 1]) + (s[|s| - 1] - ZERO) as nat
  }

  /** The digits of a string, without those that are to be ignored. */
  function Kept(s: seq<byte>, ignore: byte): (ds: seq<byte>)
    ensures AllDigits(ds) && |ds| <= |s|
  {
    if s == [] then []
    else
      var c := s[|s| - 1];
      Kept(s[..|s| - 1], ignore) + if IsDigit(c) && c != ignore then [c] else []
  }

  /** A string of digits without its leading zeros. */
  function Stripped(s: seq<byte>): seq<byte> {
    if s == [] || s[0] != ZERO then s else Stripped(s[1..])
  }

  // ---------- Values ----------

  lemma {:induction false} ValueConcat(a: seq<byte>, b: seq<byte>)
    requires AllDigits(a) && AllDigits(b)
    ensures AllDigits(a + b) && Value(a + b) == Value(a) * Pow10(|b|) + Value(b)
    decreases |b|
  {
    if b == [] {
      assert a + b == a;
    } else {
      var init := b[..|b| - 1];
      ValueConcat(a, init);
      assert (a + b)[..|a + b| - 1] == a + init;
      assert Value(a) * Pow10(|b|) == 10 * (Value(a) * Pow10(|init|));
    }
  }

  lemma {:induction false} ValueBound(s: seq<byte>)
    requires AllDigits(s)
    ensures Value(s) < Pow10(|s|)
    decreases |s|
  {
    if s == [] {
    } else {
      ValueBound(s[..|s| - 1]);
    }
  }

  lemma LeadingDigit(s: seq<byte>)
    requires AllDigits(s) && s != []
    ensures AllDigits(s[1..]) && Value(s) == (s[0] - ZERO) as nat * Pow10(|s| - 1) + Value(s[1..])
  {
    hide Value;
    SingleDigit(s[0]);
    ValueConcat([s[0]], s[1..]);
    assert [s[0]] + s[1..] == s;
  }

  lemma SingleDigit(c: byte)
    requires IsDigit(c)
    ensures AllDigits([c]) && Value([c]) == (c - ZERO) as nat
  {
    assert [c][..0] == [];
  }

  lemma {:induction false} Pow10Monotone(i: nat, j: nat)
    requires i <= j
    ensures Pow10(i) <= Pow10(j)
    decreases j
  {
    if i == j {
    } else {
      Pow10Monotone(i, j - 1);
    }
  }

  lemma {:induction false} StrippedValue(s: seq<byte>)
    requires AllDigits(s)
    ensures AllDigits(Stripped(s)) && Value(Stripped(s)) == Value(s)
    decreases |s|
  {
    if s == [] || s[0] != ZERO {
    } else {
      LeadingDigit(s);
      StrippedValue(s[1..]);
    }
  }

  // ---------- Ignoring digits ----------

  lemma {:induction false} KeptConcat(a: seq<byte>, b: seq<byte>, ignore: byte)
    ensures Kept(a + b, ignore) == Kept(a, ignore) + Kept(b, ignore)
    decreases |b|
  {
    if b == [] {
      assert a + b == a;
    } else {
      KeptConcat(a, b[..|b| - 1], ignore);
      assert (a + b)[..|a + b| - 1] == a + b[..|b| - 1];
    }
  }

  lemma {:induction false} KeptAll(s: seq<byte>, ignore: byte)
    requires AllDigits(s)
    ensures ignore !in s ==> Kept(s, ignore) == s
    ensures ignore in s ==> |Kept(s, ignore)| < |s|
    decreases |s|
  {
    if s == [] {
    } else {
      var init := s[..|s| - 1];
      KeptAll(init, ignore);
      assert s == init + [s[|s| - 1]];
    }
  }

  lemma {:induction false} KeptStripped(s: seq<byte>, ignore: byte)
    requires AllDigits(s)
    ensures AllDigits(Stripped(s)) && Value(Kept(s, ignore)) == Value(Kept(Stripped(s), ignore))
    decreases |s|
  {
    if s == [] || s[0] != ZERO {
    } else {
      KeptStripped(s[1..], ignore);
      KeptZero(s[1..], ignore);
      assert [ZERO] + s[1..] == s;
    }
  }

  lemma KeptZero(s: seq<byte>, ignore: byte)
    ensures Value(Kept([ZERO] + s, ignore)) == Value(Kept(s, ignore))
  {
    KeptConcat([ZERO], s, ignore);
    assert [ZERO][..0] == [];
    assert Kept([ZERO], ignore) == [] || Kept([ZERO], ignore) == [ZERO];
    hide Kept;
    assert [] + Kept(s, ignore) == Kept(s, ignore);
    SingleDigit(ZERO);
    ValueConcat([ZERO], Kept(s, ignore));
  }

  /** Leaving out a digit changes the number exactly when it stands anywhere but among the leading zeros. */
  lemma IgnoredExactlyWhen(s: seq<byte>, ignore: byte)
    requires AllDigits(s)
    ensures Value(Kept(s, ignore)) == Value(s) <==> ignore !in Stripped(s)
  {
    hide Value, Kept, Stripped, Pow10;
    var u := Stripped(s);
    StrippedValue(s);
    KeptStripped(s, ignore);
    KeptAll(u, ignore);
    if ignore in u {
      var k := Kept(u, ignore);
      ValueBound(k);
      Pow10Monotone(|k|, |u| - 1);
      LeadingDigit(u);
      NoLeadingZero(s);
      AtLeastOnce((u[0] - ZERO) as nat, Pow10(|u| - 1));
    }
  }

  lemma AtLeastOnce(d: nat, p: nat)
    requires d > 0
    ensures d * p >= p
  {
  }

  lemma {:induction false} NoLeadingZero(s: seq<byte>)
    ensures Stripped(s) != [] ==> Stripped(s)[0] != ZERO
    decreases |s|
  {
    if s == [] || s[0] != ZERO {
    } else {
      NoLeadingZero(s[1..]);
    }
  }

  // ---------- What the printer makes of a number ----------

  /** The most significant digit, cut to a byte, and what it leaves of the number. */
  function TopDigit(v: nat, exp: nat): (x: nat)
    requires exp > 0
    ensures x < 256
  {
    v / exp % 256
  }

  function Remaining(v: nat, exp: nat): nat
    requires exp > 0
  {
    Taken(v, exp);
    v - TopDigit(v, exp) * exp
  }

  /** The most significant of the given number of digits first. */
  function Text(v: nat, digits: nat): (s: seq<byte>)
    ensures |s| == digits
    decreases digits
  {
    if digits == 0 then []
    else [(ZERO + TopDigit(v, Pow10(digits - 1))) % 256] + Text(Remaining(v, Pow10(digits - 1)), digits - 1)
  }

  lemma NothingLeft(v: nat)
    ensures Text(v, 0) == []
  {
  }

  lemma TextStep(v: nat, d: nat)
    ensures Text(v, d + 1) == [(ZERO + TopDigit(v, Pow10(d))) % 256] + Text(Remaining(v, Pow10(d)), d)
  {
  }

  lemma TimesMore(x: nat, y: nat, p: nat)
    requires x <= y
    ensures x * p <= y * p
  {
  }

  lemma Taken(v: nat, exp: nat)
    requires exp > 0
    ensures TopDigit(v, exp) * exp <= v
    ensures v < 10 * exp ==> TopDigit(v, exp) < 10 && v - TopDigit(v, exp) * exp < exp
  {
    var x, q := TopDigit(v, exp), v / exp;
    assert q * exp <= v < q * exp + exp;
    TimesMore(x, q, exp);
    if v < 10 * exp && q >= 10 {
      TimesMore(10, q, exp);
    }
  }

  /** A number that fits is printed as a numeral of exactly that many digits for it. */
  lemma {:induction false} TextFits(v: nat, digits: nat)
    requires v < Pow10(digits)
    ensures AllDigits(Text(v, digits)) && Value(Text(v, digits)) == v
    decreases digits
  {
    if digits == 0 {
    } else {
      var exp := Pow10(digits - 1);
      assert Pow10(digits) == 10 * exp;
      hide Text, Value, Pow10, TopDigit;
      Taken(v, exp);
      TextFits(Remaining(v, exp), digits - 1);
      TextSplit(v, digits);
    }
  }

  lemma TextSplit(v: nat, digits: nat)
    requires digits > 0 && TopDigit(v, Pow10(digits - 1)) < 10
    requires AllDigits(Text(Remaining(v, Pow10(digits - 1)), digits - 1))
    ensures AllDigits(Text(v, digits))
    ensures Value(Text(v, digits)) == TopDigit(v, Pow10(digits - 1)) * Pow10(digits - 1)
                                      + Value(Text(Remaining(v, Pow10(digits - 1)), digits - 1))
  {
    hide TopDigit, Remaining, Value, Pow10;
    var x, rest := TopDigit(v, Pow10(digits - 1)), Text(Remaining(v, Pow10(digits - 1)), digits - 1);
    assert Text(v, digits) == [(ZERO + x) % 256] + rest;
    hide Text;
    Prepended((ZERO + x) % 256, rest);
  }

  lemma Prepended(c: byte, rest: seq<byte>)
    requires IsDigit(c) && AllDigits(rest)
    ensures AllDigits([c] + rest) && Value([c] + rest) == (c - ZERO) as nat * Pow10(|rest|) + Value(rest)
  {
    hide Value, Pow10;
    assert ([c] + rest)[1..] == rest;
    LeadingDigit([c] + rest);
  }

  /** The text is a numeral for the number exactly when the number fits. */
  lemma FitsExactlyWhen(v: nat, digits: nat)
    ensures AllDigits(Text(v, digits)) && Value(Text(v, digits)) == v <==> v < Pow10(digits)
  {
    if v < Pow10(digits) {
      TextFits(v, digits);
    } else if AllDigits(Text(v, digits)) {
      ValueBound(Text(v, digits));
    }
  }

  /** With a width that is too small, what does not fit goes into the first byte, and the other bytes are the last digits. */
  lemma TextTooNarrow(v: nat, digits: nat)
    requires digits > 0 && v / Pow10(digits - 1) < 256
    ensures var s := Text(v, digits);
            && s[0] == (0x30 + v / Pow10(digits - 1)) % 256
            && AllDigits(s[1..]) && Value(s[1..]) == v % Pow10(digits - 1)
  {
    hide Text, Value, Pow10;
    TopAndRest(v, Pow10(digits - 1));
    hide TopDigit, Remaining;
    TextStep(v, digits - 1);
    TextFits(Remaining(v, Pow10(digits - 1)), digits - 1);
  }

  lemma TopAndRest(v: nat, exp: nat)
    requires exp > 0 && v / exp < 256
    ensures TopDigit(v, exp) == v / exp && Remaining(v, exp) == v % exp < exp
  {
    assert v / exp % 256 == v / exp;
  }

  function DigitCount(v: nat): (d: nat)
    ensures d > 0
  {
    if v < 10 then 1 else 1 + DigitCount(v / 10)
  }

  /** The automatic width is the least that fits, and at least 1. */
  lemma {:induction false} DigitCountMeaning(v: nat)
    ensures v < Pow10(DigitCount(v))
    ensures DigitCount(v) > 1 ==> Pow10(DigitCount(v) - 1) <= v
    decreases v
  {
    if v < 10 {
    } else {
      DigitCountMeaning(v / 10);
    }
  }

  const AUTO := -1

  function Width(v: nat, fixedWidth: int): nat
    requires fixedWidth == AUTO || fixedWidth >= 0
  {
    if fixedWidth == AUTO then DigitCount(v) else fixedWidth
  }

  function Magnitude(n: int): nat {
    if n < 0 then -n else n
  }

  /** A signed number as it is printed: a minus sign if it is negative, then its magnitude. */
  function Printed(n: int, fixedWidth: int): seq<byte>
    requires fixedWidth == AUTO || fixedWidth >= 0
  {
    (if n < 0 then [MINUS] else []) + Text(Magnitude(n), Width(Magnitude(n), fixedWidth))
  }
}
