/** Numbers as text: the digits that print_unsigned emits, and reading them back. */
module Numbers {
  import opened Bytes

  function Digit(d: nat, upper: bool): byte
    requires d < 16
  {
    if d < 10 then 0x30 + d else (if upper then 0x41 else 0x61) + d - 10
  }

  /** The two bases the kernel prints in.  Division, remainder and multiplication by a base are
      written out for each, which keeps the arithmetic linear. */
  predicate IsBase(base: nat) { base == 10 || base == 16 }

  function Quotient(v: nat, base: nat): nat
    requires IsBase(base)
  {
    if base == 10 then v / 10 else v / 16
  }

  function Remainder(v: nat, base: nat): (r: nat)
    requires IsBase(base)
    ensures r < base
  {
    if base == 10 then v % 10 else v % 16
  }

  function Times(v: nat, base: nat): nat
    requires IsBase(base)
  {
    if base == 10 then v * 10 else v * 16
  }

  /** They are the operators of the program. */
  lemma BaseArithmetic(v: nat, base: nat)
    requires IsBase(base)
    ensures Quotient(v, base) == v / base && Remainder(v, base) == v % base && Times(v, base) == v * base
    ensures v == Times(Quotient(v, base), base) + Remainder(v, base)
    ensures v > 0 ==> Quotient(v, base) < v
  {
  }

  /** The digits of v, most significant first; none for 0. */
  function Digits(v: nat, base: nat, upper: bool): (s: seq<byte>)
    requires IsBase(base)
    decreases v
  {
    if v == 0 then [] else Digits(Quotient(v, base), base, upper) + [Digit(Remainder(v, base), upper)]
  }

  /** What print_unsigned emits. */
  function Unsigned(v: nat, base: nat, upper: bool): seq<byte>
    requires IsBase(base)
  {
    if v == 0 then [0x30] else Digits(v, base, upper)
  }

  /** What print_signed emits. */
  function Signed(v: int): seq<byte> {
    if v < 0 then [0x2D] + Unsigned(-v, 10, false) else Unsigned(v, 10, false)
  }

  // ----- reading back -----

  function DigitValue(c: byte): nat {
    if 0x30 <= c <= 0x39 then c - 0x30
    else if 0x41 <= c <= 0x46 then c - 0x41 + 10
    else if 0x61 <= c <= 0x66 then c - 0x61 + 10
    else 0
  }

  /** The usual positional reading of a digit string. */
  function Parse(s: seq<byte>, base: nat): nat
    requires IsBase(base)
  {
    if s == [] then 0 else Times(Parse(s[..|s| - 1], base), base) + DigitValue(s[|s| - 1])
  }

  function ParseSigned(s: seq<byte>): int {
    if s != [] && s[0] == 0x2D then -(Parse(s[1..], 10) as int) else Parse(s, 10)
  }

  lemma {:induction false} ParseDigits(v: nat, base: nat, upper: bool)
    requires IsBase(base)
    ensures Parse(Digits(v, base, upper), base) == v
    decreases v
  {
    if v > 0 {
      var q, r := Quotient(v, base), Remainder(v, base);
      ParseDigits(q, base, upper);
      ParseSnoc(Digits(q, base, upper), Digit(r, upper), base, q);
      DigitInverse(r, upper);
    }
  }

  lemma DigitByText(d: nat)
    requires d < 16
    ensures Digit(d, false) == "0123456789abcdef"[d] as int
    ensures Digit(d, true) == "0123456789ABCDEF"[d] as int
  {
  }

  /** A negative number is a minus sign and the digits of its amount. */
  lemma SignByText(v: int)
    ensures v < 0 ==> Signed(v) == ['-' as int] + Unsigned(-v, 10, false)
    ensures v >= 0 ==> Signed(v) == Unsigned(v, 10, false)
    ensures Unsigned(0, 10, false) == ['0' as int]
  {
  }

  lemma DigitInverse(d: nat, upper: bool)
    requires d < 16
    ensures DigitValue(Digit(d, upper)) == d
  {
  }

  lemma ParseSnoc(s: seq<byte>, c: byte, base: nat, value: nat)
    requires IsBase(base) && Parse(s, base) == value
    ensures Parse(s + [c], base) == Times(value, base) + DigitValue(c)
  {
    assert (s + [c])[..|s|] == s;
  }

  lemma {:induction false} NoLeadingZero(v: nat, base: nat, upper: bool)
    requires IsBase(base) && v > 0
    ensures Digits(v, base, upper) != [] && Digits(v, base, upper)[0] != 0x30
    ensures Digits(v, base, upper)[0] != 0x2D
    decreases v
  {
    if Quotient(v, base) > 0 {
      NoLeadingZero(Quotient(v, base), base, upper);
    }
  }

  function Pow10(n: nat): nat {
    if n == 0 then 1 else 10 * Pow10(n - 1)
  }

  lemma {:induction false} DigitsBound(v: nat, base: nat, upper: bool, n: nat)
    requires IsBase(base) && v < Pow10(n)
    ensures |Digits(v, base, upper)| <= n
    decreases n
  {
    if v > 0 {
      DigitsBound(Quotient(v, base), base, upper, n - 1);
    }
  }

  lemma {:induction false} Pow10Add(a: nat, b: nat)
    ensures Pow10(a + b) == Pow10(a) * Pow10(b)
  {
    if a > 0 {
      Pow10Add(a - 1, b);
    }
  }

  lemma SixtyFourBits()
    ensures 0x1_0000_0000_0000_0000 <= Pow10(20)
  {
    assert Pow10(2) == 100;
    assert Pow10(4) == 10000;
    assert Pow10(5) == 100000;
    Pow10Add(5, 5);
    Pow10Add(10, 10);
  }

  /** Every 64-bit value, in base 10 or 16: at most 20 digits, no leading zero but for 0 itself, and
      reading them back gives the value. */
  lemma UnsignedRoundTrip(v: nat, base: nat, upper: bool)
    requires IsBase(base) && v < 0x1_0000_0000_0000_0000
    ensures var s := Unsigned(v, base, upper);
      && 1 <= |s| <= 20 && (s[0] == 0x30 <==> v == 0) && s[0] != 0x2D && Parse(s, base) == v
  {
    SixtyFourBits();
    DigitsBound(v, base, upper, 20);
    ParseDigits(v, base, upper);
    if v > 0 {
      NoLeadingZero(v, base, upper);
    } else {
      assert [0x30][..0] == [];
    }
  }

  /** Digits are '0' to '9', and behind 9 the letters in the one case asked for. */
  lemma {:induction false} DigitCase(v: nat, base: nat, upper: bool, k: nat)
    requires IsBase(base) && k < |Unsigned(v, base, upper)|
    ensures var c := Unsigned(v, base, upper)[k];
      0x30 <= c <= 0x39 || (base == 16 && if upper then 0x41 <= c <= 0x46 else 0x61 <= c <= 0x66)
    decreases v
  {
    if v > 0 {
      var q := Quotient(v, base);
      if k < |Digits(q, base, upper)| {
        DigitCase(q, base, upper, k);
      }
    }
  }

  /** Every 64-bit signed value, the least one included. */
  lemma SignedRoundTrip(v: int)
    requires -0x8000_0000_0000_0000 <= v < 0x8000_0000_0000_0000
    ensures ParseSigned(Signed(v)) == v && |Signed(v)| <= 20
  {
    if v < 0 {
      UnsignedRoundTrip(-v, 10, false);
      assert Signed(v)[1..] == Unsigned(-v, 10, false);
      NineteenDigits(-v);
    } else {
      UnsignedRoundTrip(v, 10, false);
    }
  }

  lemma NineteenDigits(v: nat)
    requires v <= 0x8000_0000_0000_0000
    ensures |Unsigned(v, 10, false)| <= 19
  {
    assert Pow10(2) == 100;
    assert Pow10(4) == 10000;
    assert Pow10(5) == 100000;
    Pow10Add(5, 4);
    Pow10Add(5, 5);
    Pow10Add(10, 9);
    DigitsBound(v, 10, false, 19);
  }
}
