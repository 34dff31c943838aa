/** The kernel's printf (src/kernel/printf.c) on top of the console. */
module Printing {
  import opened Bytes
  import opened CStrings
  import opened Numbers
  import opened Screens
  import opened TextConsole

  // ----- what a format string means -----

  /** An argument as it lies in a 64-bit slot: a word, or the string that a pointer leads to, or NULL. */
  datatype Arg = Word(w: nat) | Text(s: CString) | Null

  /** va_arg of int, unsigned, long and unsigned long. */
  function AsInt(w: nat): int {
    var u := w % 0x1_0000_0000;
    if u < 0x8000_0000 then u else u - 0x1_0000_0000
  }
  function AsUnsigned(w: nat): nat { w % 0x1_0000_0000 }
  function AsLong(w: nat): int {
    var u := w % 0x1_0000_0000_0000_0000;
    if u < 0x8000_0000_0000_0000 then u else u - 0x1_0000_0000_0000_0000
  }
  function AsUnsignedLong(w: nat): nat { w % 0x1_0000_0000_0000_0000 }

  const PERCENT: byte := 0x25

  /** Conversions that take an argument: c, d, i, u, x, X, p and s. */
  predicate TakesWord(c: byte) {
    c == 0x63 || c == 0x64 || c == 0x69 || c == 0x75 || c == 0x78 || c == 0x58 || c == 0x70
  }
  predicate TakesText(c: byte) { c == 0x73 }
  predicate Takes(c: byte) { TakesWord(c) || TakesText(c) }

  function NullText(): seq<byte> { [0x28, 0x6E, 0x75, 0x6C, 0x6C, 0x29] }

  /** What conversion c prints for a word. */
  function WordText(c: byte, long: bool, w: nat): seq<byte> {
    if c == 0x63 then [w % 0x100]
    else if c == 0x64 || c == 0x69 then Signed(if long then AsLong(w) else AsInt(w))
    else if c == 0x75 then Unsigned(if long then AsUnsignedLong(w) else AsUnsigned(w), 10, false)
    else if c == 0x70 then [0x30, 0x78] + Unsigned(AsUnsignedLong(w), 16, false)
    else Unsigned(if long then AsUnsignedLong(w) else AsUnsigned(w), 16, c == 0x58)
  }

  /** What a directive prints that takes no argument: %% is a percent sign, an unknown one itself. */
  function PlainText(c: byte): seq<byte> {
    if c == PERCENT then [PERCENT] else [PERCENT, c]
  }

  /** The argument fits the conversion. */
  predicate Fits(c: byte, a: Arg) {
    (TakesWord(c) ==> a.Word?) && (TakesText(c) ==> a.Text? || a.Null?)
  }

  /** The first position from p on that does not hold the length modifier 'l'. */
  function SkipLongs(fmt: CString, p: nat): (q: nat)
    requires p <= |fmt|
    ensures p <= q <= |fmt| && (q < |fmt| ==> fmt[q] != 0x6C) && forall i :: p <= i < q ==> fmt[i] == 0x6C
    decreases |fmt| - p
  {
    if p < |fmt| && fmt[p] == 0x6C then SkipLongs(fmt, p + 1) else p
  }

  /** From position p of the format string and argument a on, the arguments are enough and of the
      right kinds. */
  predicate ArgsFit(fmt: CString, p: nat, args: seq<Arg>, a: nat)
    decreases |fmt| - p
  {
    if p >= |fmt| then true
    else if fmt[p] != PERCENT then ArgsFit(fmt, p + 1, args, a)
    else
      var q := SkipLongs(fmt, p + 1);
      if q == |fmt| then true
      else if Takes(fmt[q]) then a < |args| && Fits(fmt[q], args[a]) && ArgsFit(fmt, q + 1, args, a + 1)
      else ArgsFit(fmt, q + 1, args, a)
  }

  /** The text that the format denotes from position p and argument a on. */
  function Format(fmt: CString, p: nat, args: seq<Arg>, a: nat): seq<byte>
    requires ArgsFit(fmt, p, args, a)
    decreases |fmt| - p
  {
    if p >= |fmt| then []
    else if fmt[p] != PERCENT then [fmt[p]] + Format(fmt, p + 1, args, a)
    else
      var q := SkipLongs(fmt, p + 1);
      if q == |fmt| then []
      else if Takes(fmt[q]) then Converted(fmt[q], q > p + 1, args[a]) + Format(fmt, q + 1, args, a + 1)
      else PlainText(fmt[q]) + Format(fmt, q + 1, args, a)
  }

  function Converted(c: byte, long: bool, a: Arg): seq<byte>
    requires Takes(c) && Fits(c, a)
  {
    match a
    case Word(w) => WordText(c, long, w)
    case Text(s) => s
    case Null => NullText()
  }

  /** A stretch without percent signs stands for itself. */
  lemma {:induction false} FormatOfPlain(fmt: CString, p: nat, q: nat, args: seq<Arg>, a: nat)
    requires p <= q <= |fmt| && ArgsFit(fmt, p, args, a) && forall k :: p <= k < q ==> fmt[k] != PERCENT
    ensures ArgsFit(fmt, q, args, a) && Format(fmt, p, args, a) == fmt[p..q] + Format(fmt, q, args, a)
    decreases q - p
  {
    if p == q {
      assert fmt[p..q] + Format(fmt, q, args, a) == Format(fmt, q, args, a);
    } else {
      FormatOfPlain(fmt, p + 1, q, args, a);
      var rest := Format(fmt, q, args, a);
      assert [fmt[p]] + (fmt[p + 1..q] + rest) == fmt[p..q] + rest;
    }
  }

  /** What %ld and %d print reads back as the argument, for every word. */
  lemma SignedReadsBack(w: nat)
    ensures ParseSigned(WordText(0x64, true, w)) == AsLong(w)
    ensures ParseSigned(WordText(0x64, false, w)) == AsInt(w)
  {
    SignedRoundTrip(AsLong(w));
    SignedRoundTrip(AsInt(w));
  }

  /** The argument of %d is the 32-bit two's complement number in the word, that of %ld the 64-bit one. */
  lemma SignedArgument(w: nat)
    ensures -0x8000_0000 <= AsInt(w) < 0x8000_0000 && (AsInt(w) - w) % 0x1_0000_0000 == 0
    ensures -0x8000_0000_0000_0000 <= AsLong(w) < 0x8000_0000_0000_0000
    ensures (AsLong(w) - w) % 0x1_0000_0000_0000_0000 == 0
  {
  }

  /** What a conversion with an unsigned argument sees of the word. */
  function LowBits(w: nat, long: bool): (v: nat)
    ensures v < 0x1_0000_0000_0000_0000
  {
    if long then w % 0x1_0000_0000_0000_0000 else w % 0x1_0000_0000
  }

  /** What %u, %lu, %x, %lx, %X and %lX print reads back as the low 32 or all 64 bits of the argument. */
  lemma UnsignedReadsBack(w: nat, long: bool)
    ensures Parse(WordText('u' as int, long, w), 10) == LowBits(w, long)
    ensures Parse(WordText('x' as int, long, w), 16) == LowBits(w, long)
    ensures Parse(WordText('X' as int, long, w), 16) == LowBits(w, long)
  {
    UnsignedRoundTrip(LowBits(w, long), 10, false);
    UnsignedRoundTrip(LowBits(w, long), 16, false);
    UnsignedRoundTrip(LowBits(w, long), 16, true);
    var v := if long then AsUnsignedLong(w) else AsUnsigned(w);
    assert v == LowBits(w, long);
  }

  /** %x prints digits and small letters, %X digits and capitals, %u digits alone. */
  lemma CaseOfConversions(w: nat, long: bool, k: nat)
    ensures var s := WordText('x' as int, long, w);
      k < |s| ==> '0' as int <= s[k] <= '9' as int || 'a' as int <= s[k] <= 'f' as int
    ensures var s := WordText('X' as int, long, w);
      k < |s| ==> '0' as int <= s[k] <= '9' as int || 'A' as int <= s[k] <= 'F' as int
    ensures var s := WordText('u' as int, long, w);
      k < |s| ==> '0' as int <= s[k] <= '9' as int
  {
    var v := if long then AsUnsignedLong(w) else AsUnsigned(w);
    if k < |Unsigned(v, 16, false)| {
      DigitCase(v, 16, false, k);
    }
    if k < |Unsigned(v, 16, true)| {
      DigitCase(v, 16, true, k);
    }
    if k < |Unsigned(v, 10, false)| {
      DigitCase(v, 10, false, k);
    }
  }

  /** %p prints 0x and the 64-bit number in small hexadecimal digits, %i what %d does, %c its byte. */
  lemma PointerAndChar(w: nat, long: bool)
    ensures var s := WordText('p' as int, long, w);
      && |s| > 2 && s[0] == '0' as int && s[1] == 'x' as int
      && s[2..] == WordText('x' as int, true, w) && Parse(s[2..], 16) == w % 0x1_0000_0000_0000_0000
    ensures WordText('i' as int, long, w) == WordText('d' as int, long, w)
    ensures WordText('c' as int, long, w) == [w % 0x100]
  {
    var s := WordText('p' as int, long, w);
    UnsignedRoundTrip(AsUnsignedLong(w), 16, false);
    assert s[2..] == WordText('x' as int, true, w);
  }

  /** %s prints its string, for NULL the text (null); %% prints a percent sign; and an unknown directive
      prints itself. */
  lemma TextAndPlain(s: CString, long: bool, c: byte)
    ensures Converted('s' as int, long, Text(s)) == s
    ensures var t, text := Converted('s' as int, long, Null), "(null)";
      |t| == |text| && forall k :: 0 <= k < |text| ==> t[k] == text[k] as int
    ensures PlainText('%' as int) == ['%' as int]
    ensures c != '%' as int ==> PlainText(c) == ['%' as int, c]
  {
  }

  /** A directive: a percent sign, length modifiers 'l', and a conversion.  Those of c, d, i, u, x, X, p
      and s take the next argument, all others none. */
  lemma FormatOfDirective(fmt: CString, p: nat, q: nat, args: seq<Arg>, a: nat)
    requires p < q < |fmt| && fmt[p] == '%' as int && fmt[q] != 'l' as int && ArgsFit(fmt, p, args, a)
    requires forall k :: p < k < q ==> fmt[k] == 'l' as int
    ensures
      if exists k :: 0 <= k < 8 && fmt[q] == "cdiuxXps"[k] as int then
        && a < |args| && Takes(fmt[q]) && Fits(fmt[q], args[a]) && ArgsFit(fmt, q + 1, args, a + 1)
        && Format(fmt, p, args, a) == Converted(fmt[q], q > p + 1, args[a]) + Format(fmt, q + 1, args, a + 1)
      else
        && ArgsFit(fmt, q + 1, args, a)
        && Format(fmt, p, args, a) == PlainText(fmt[q]) + Format(fmt, q + 1, args, a)
  {
    SkipsLongs(fmt, p + 1, q);
    var cs := "cdiuxXps";
    assert cs[0] == 'c' && cs[1] == 'd' && cs[2] == 'i' && cs[3] == 'u';
    assert cs[4] == 'x' && cs[5] == 'X' && cs[6] == 'p' && cs[7] == 's';
  }

  /** A format that ends within a directive prints nothing for it. */
  lemma FormatOfCutDirective(fmt: CString, p: nat, args: seq<Arg>, a: nat)
    requires p < |fmt| && fmt[p] == '%' as int && ArgsFit(fmt, p, args, a)
    requires forall k :: p < k < |fmt| ==> fmt[k] == 'l' as int
    ensures Format(fmt, p, args, a) == []
  {
    SkipsToEnd(fmt, p + 1);
  }

  lemma {:induction false} SkipsToEnd(fmt: CString, p: nat)
    requires p <= |fmt| && forall k :: p <= k < |fmt| ==> fmt[k] == 'l' as int
    ensures SkipLongs(fmt, p) == |fmt|
    decreases |fmt| - p
  {
    if p < |fmt| {
      SkipsToEnd(fmt, p + 1);
    }
  }

  lemma {:induction false} SkipsLongs(fmt: CString, p: nat, q: nat)
    requires p <= q < |fmt| && fmt[q] != 'l' as int && forall k :: p <= k < q ==> fmt[k] == 'l' as int
    ensures SkipLongs(fmt, p) == q
    decreases q - p
  {
    if p < q {
      SkipsLongs(fmt, p + 1, q);
    }
  }

  // ----- printing -----

  /** Printing `text` took the screen from a to b. */
  ghost predicate Printed(a: Screen, b: Screen, cols: nat, rows: nat, text: seq<byte>) {
    ValidScreen(a, cols, rows) && b == PutAll(a, cols, rows, text)
  }

  lemma PrintedThen(a: Screen, b: Screen, c: Screen, cols: nat, rows: nat, s: seq<byte>, t: seq<byte>)
    requires Printed(a, b, cols, rows, s) && Printed(b, c, cols, rows, t)
    ensures Printed(a, c, cols, rows, s + t)
  {
    PutAllConcat(a, cols, rows, s, t);
  }

  method EmitChar(console: Console, c: byte)
    requires console.Valid()
    modifies console`cx, console`cy, console`lines, console.pixels
    ensures console.Valid()
    ensures Printed(old(console.Text()), console.Text(), console.ColCount(), console.RowCount(), [c])
  {
    ghost var a := console.Text();
    console.Putc(c);
    assert [c][1..] == [];
  }

  method EmitText(console: Console, s: seq<byte>)
    requires console.Valid()
    modifies console`cx, console`cy, console`lines, console.pixels
    ensures console.Valid()
    ensures Printed(old(console.Text()), console.Text(), console.ColCount(), console.RowCount(), s)
  {
    console.Puts(s);
  }

  /** The first n bytes read the other way round. */
  function Reversed(s: seq<byte>, n: nat): seq<byte>
    requires n <= |s|
  {
    if n == 0 then [] else [s[n - 1]] + Reversed(s, n - 1)
  }

  lemma {:induction false} ReversedPrefix(s: seq<byte>, t: seq<byte>, n: nat)
    requires n <= |s| && n <= |t| && forall k :: 0 <= k < n ==> s[k] == t[k]
    ensures Reversed(s, n) == Reversed(t, n)
  {
    if n > 0 {
      ReversedPrefix(s, t, n - 1);
    }
  }

  lemma DigitMoves(u: nat, base: nat, upper: bool, rest: seq<byte>)
    requires IsBase(base) && u > 0
    ensures Digits(Quotient(u, base), base, upper) + ([Digit(Remainder(u, base), upper)] + rest)
         == Digits(u, base, upper) + rest
  {
  }

  /** Digits still to come and digits in the buffer make up the number. */
  ghost predicate Collecting(v: nat, base: nat, upper: bool, u: nat, buf: seq<byte>, i: nat)
    requires IsBase(base)
  {
    && i <= |buf| && i + |Digits(u, base, upper)| == |Digits(v, base, upper)|
    && Digits(u, base, upper) + Reversed(buf, i) == Digits(v, base, upper)
  }

  lemma CollectStep(v: nat, base: nat, upper: bool, u: nat, done: seq<byte>, i: nat, buf: seq<byte>)
    requires IsBase(base) && u > 0 && Collecting(v, base, upper, u, done, i)
    requires i < |done| && buf == done[i := Digit(Remainder(u, base), upper)]
    ensures Collecting(v, base, upper, Quotient(u, base), buf, i + 1)
  {
    ReversedPrefix(done, buf, i);
    DigitMoves(u, base, upper, Reversed(done, i));
  }

  /** The first loop of print_unsigned: fills the 32-byte buffer with the digits, last one first. */
  method CollectDigits(v: nat, base: nat, upper: bool, buf: array<byte>) returns (i: nat)
    requires 0 < v < 0x1_0000_0000_0000_0000 && IsBase(base) && buf.Length == 32
    modifies buf
    ensures i <= 20 && Reversed(buf[..], i) == Digits(v, base, upper)
  {
    SixtyFourBits();
    DigitsBound(v, base, upper, 20);
    i := 0;
    var u: nat := v;
    assert Digits(u, base, upper) + [] == Digits(u, base, upper);
    while u > 0
      invariant u < 0x1_0000_0000_0000_0000 && Collecting(v, base, upper, u, buf[..], i)
      decreases u
    {
      ghost var done := buf[..];
      BaseArithmetic(u, base);
      var d := u % base;
      buf[i] := if d < 10 then 0x30 + d else (if upper then 0x41 else 0x61) + d - 10;
      CollectStep(v, base, upper, u, done, i, buf[..]);
      i := i + 1;
      u := u / base;
    }
    assert [] + Reversed(buf[..], i) == Reversed(buf[..], i);
  }

  lemma ReversedStep(out: seq<byte>, bs: seq<byte>, i: nat)
    requires i < |bs|
    ensures (out + [bs[i]]) + Reversed(bs, i) == out + Reversed(bs, i + 1)
  {
    assert out + ([bs[i]] + Reversed(bs, i)) == (out + [bs[i]]) + Reversed(bs, i);
  }

  /** The second loop: drains the buffer backwards. */
  method DrainDigits(console: Console, buf: array<byte>, n: nat)
    requires console.Valid() && buf.Length == 32 && n <= 32 && buf != console.pixels as object
    modifies console`cx, console`cy, console`lines, console.pixels
    ensures console.Valid()
    ensures Printed(old(console.Text()), console.Text(), console.ColCount(), console.RowCount(),
                    Reversed(old(buf[..]), n))
  {
    ghost var start, cols, rows, bs := console.Text(), console.ColCount(), console.RowCount(), buf[..];
    ghost var out: seq<byte> := [];
    assert out + Reversed(bs, n) == Reversed(bs, n);
    var i := n;
    while i > 0
      invariant 0 <= i <= n && console.Valid() && console.ColCount() == cols && console.RowCount() == rows
      invariant buf[..] == bs && out + Reversed(bs, i) == Reversed(bs, n)
      invariant Printed(start, console.Text(), cols, rows, out)
    {
      i := i - 1;
      ghost var mid := console.Text();
      assert buf[i] == bs[i];
      EmitChar(console, buf[i]);
      PrintedThen(start, mid, console.Text(), cols, rows, out, [bs[i]]);
      ReversedStep(out, bs, i);
      out := out + [bs[i]];
    }
    assert out + [] == out;
  }

  method PrintUnsigned(console: Console, v: nat, base: nat, upper: bool)
    requires console.Valid() && v < 0x1_0000_0000_0000_0000 && IsBase(base)
    modifies console`cx, console`cy, console`lines, console.pixels
    ensures console.Valid()
    ensures Printed(old(console.Text()), console.Text(), console.ColCount(), console.RowCount(),
                    Unsigned(v, base, upper))
  {
    if v == 0 {
      EmitChar(console, 0x30);
      return;
    }
    var buf := new byte[32];
    var i := CollectDigits(v, base, upper, buf);
    DrainDigits(console, buf, i);
  }

  method PrintSigned(console: Console, v: int)
    requires console.Valid() && -0x8000_0000_0000_0000 <= v < 0x8000_0000_0000_0000
    modifies console`cx, console`cy, console`lines, console.pixels
    ensures console.Valid()
    ensures Printed(old(console.Text()), console.Text(), console.ColCount(), console.RowCount(), Signed(v))
  {
    if v < 0 {
      ghost var a := console.Text();
      EmitChar(console, 0x2D);
      ghost var b := console.Text();
      // -(v + 1) does not overflow a signed 64-bit integer even for the least value.
      assert 0 <= -(v + 1) < 0x8000_0000_0000_0000;
      var u := -(v + 1) + 1;
      PrintUnsigned(console, u, 10, false);
      PrintedThen(a, b, console.Text(), console.ColCount(), console.RowCount(), [0x2D], Unsigned(u, 10, false));
    } else {
      PrintUnsigned(console, v, 10, false);
    }
  }

  /** The cases of the switch that take a word. */
  method PrintWord(console: Console, c: byte, long: bool, w: nat)
    requires console.Valid() && TakesWord(c)
    modifies console`cx, console`cy, console`lines, console.pixels
    ensures console.Valid()
    ensures Printed(old(console.Text()), console.Text(), console.ColCount(), console.RowCount(), WordText(c, long, w))
  {
    if c == 0x63 {
      EmitChar(console, w % 0x100);
    } else if c == 0x64 || c == 0x69 {
      PrintSigned(console, if long then AsLong(w) else AsInt(w));
    } else if c == 0x75 {
      PrintUnsigned(console, if long then AsUnsignedLong(w) else AsUnsigned(w), 10, false);
    } else if c == 0x70 {
      PrintPointer(console, w);
    } else {
      PrintUnsigned(console, if long then AsUnsignedLong(w) else AsUnsigned(w), 16, c == 0x58);
    }
  }

  method PrintPointer(console: Console, w: nat)
    requires console.Valid()
    modifies console`cx, console`cy, console`lines, console.pixels
    ensures console.Valid()
    ensures Printed(old(console.Text()), console.Text(), console.ColCount(), console.RowCount(),
                    [0x30, 0x78] + Unsigned(AsUnsignedLong(w), 16, false))
  {
    ghost var a := console.Text();
    EmitText(console, [0x30, 0x78]);
    ghost var b := console.Text();
    PrintUnsigned(console, AsUnsignedLong(w), 16, false);
    PrintedThen(a, b, console.Text(), console.ColCount(), console.RowCount(),
                [0x30, 0x78], Unsigned(AsUnsignedLong(w), 16, false));
  }

  /** The switch, for conversions with an argument. */
  method PrintArg(console: Console, c: byte, long: bool, arg: Arg)
    requires console.Valid() && Takes(c) && Fits(c, arg)
    modifies console`cx, console`cy, console`lines, console.pixels
    ensures console.Valid()
    ensures Printed(old(console.Text()), console.Text(), console.ColCount(), console.RowCount(),
                    Converted(c, long, arg))
  {
    match arg
    case Word(w) => PrintWord(console, c, long, w);
    case Text(s) => EmitText(console, s);
    case Null => EmitText(console, NullText());
  }

  // ----- the format loop -----

  /** Counts the length modifiers from position p on. */
  method ScanLongs(fmt: CString, p: nat) returns (q: nat, isLong: nat)
    requires p <= |fmt|
    ensures q == SkipLongs(fmt, p) && isLong == q - p
  {
    q, isLong := p, 0;
    while CharAt(fmt, q) == 0x6C
      invariant p <= q <= |fmt| && q == p + isLong && SkipLongs(fmt, p) == SkipLongs(fmt, q)
      decreases |fmt| - q
    {
      isLong, q := isLong + 1, q + 1;
    }
  }

  /** What the conversion at q prints, given the argument number a if it takes one. */
  function ConversionText(fmt: CString, q: nat, long: bool, args: seq<Arg>, a: nat): seq<byte>
    requires q < |fmt| && (Takes(fmt[q]) ==> a < |args| && Fits(fmt[q], args[a]))
  {
    if Takes(fmt[q]) then Converted(fmt[q], long, args[a]) else PlainText(fmt[q])
  }

  /** A round of the loop consumed the format up to p2 and the arguments up to a2, printing `text`. */
  ghost predicate ItemDone(fmt: CString, p: nat, args: seq<Arg>, a: nat, p2: nat, a2: nat, text: seq<byte>)
    requires ArgsFit(fmt, p, args, a)
  {
    && p < p2 <= |fmt| && ArgsFit(fmt, p2, args, a2)
    && Format(fmt, p, args, a) == text + Format(fmt, p2, args, a2)
  }

  lemma PlainItem(fmt: CString, p: nat, args: seq<Arg>, a: nat)
    requires p < |fmt| && fmt[p] != PERCENT && ArgsFit(fmt, p, args, a)
    ensures ItemDone(fmt, p, args, a, p + 1, a, [fmt[p]])
  {
  }

  lemma CutItem(fmt: CString, p: nat, args: seq<Arg>, a: nat)
    requires p < |fmt| && fmt[p] == PERCENT && ArgsFit(fmt, p, args, a) && SkipLongs(fmt, p + 1) == |fmt|
    ensures ItemDone(fmt, p, args, a, |fmt|, a, [])
  {
  }

  lemma ConversionFits(fmt: CString, p: nat, q: nat, args: seq<Arg>, a: nat)
    requires p < |fmt| && fmt[p] == PERCENT && ArgsFit(fmt, p, args, a) && q == SkipLongs(fmt, p + 1) < |fmt|
    ensures Takes(fmt[q]) ==> a < |args| && Fits(fmt[q], args[a])
  {
  }

  lemma ConversionItem(fmt: CString, p: nat, q: nat, args: seq<Arg>, a: nat, a2: nat, text: seq<byte>)
    requires p < |fmt| && fmt[p] == PERCENT && ArgsFit(fmt, p, args, a) && q == SkipLongs(fmt, p + 1) < |fmt|
    requires Takes(fmt[q]) ==> a < |args| && Fits(fmt[q], args[a])
    requires a2 == (if Takes(fmt[q]) then a + 1 else a) && text == ConversionText(fmt, q, q > p + 1, args, a)
    ensures ItemDone(fmt, p, args, a, q + 1, a2, text)
  {
  }

  /** The switch on the conversion at q. */
  method PrintConversion(console: Console, fmt: CString, q: nat, long: bool, args: seq<Arg>, a: nat)
    returns (a2: nat, ghost text: seq<byte>)
    requires console.Valid() && q < |fmt| && (Takes(fmt[q]) ==> a < |args| && Fits(fmt[q], args[a]))
    modifies console`cx, console`cy, console`lines, console.pixels
    ensures console.Valid()
    ensures a2 == (if Takes(fmt[q]) then a + 1 else a) && text == ConversionText(fmt, q, long, args, a)
    ensures Printed(old(console.Text()), console.Text(), console.ColCount(), console.RowCount(), text)
  {
    if Takes(fmt[q]) {
      PrintArg(console, fmt[q], long, args[a]);
      return a + 1, Converted(fmt[q], long, args[a]);
    }
    text := PlainText(fmt[q]);
    a2 := a;
    if fmt[q] == PERCENT {
      EmitChar(console, PERCENT);
    } else {
      EmitText(console, [PERCENT, fmt[q]]);
    }
  }

  /** One round of the format loop. */
  method PrintItem(console: Console, fmt: CString, p: nat, args: seq<Arg>, a: nat)
    returns (p2: nat, a2: nat, ghost text: seq<byte>)
    requires console.Valid() && p < |fmt| && ArgsFit(fmt, p, args, a)
    modifies console`cx, console`cy, console`lines, console.pixels
    ensures console.Valid()
    ensures ItemDone(fmt, p, args, a, p2, a2, text)
    ensures Printed(old(console.Text()), console.Text(), console.ColCount(), console.RowCount(), text)
  {
    if fmt[p] != PERCENT {
      PlainItem(fmt, p, args, a);
      EmitChar(console, fmt[p]);
      return p + 1, a, [fmt[p]];
    }
    var q, isLong := ScanLongs(fmt, p + 1);
    if CharAt(fmt, q) == 0 {
      CutItem(fmt, p, args, a);
      return q, a, [];
    }
    ConversionFits(fmt, p, q, args, a);
    a2, text := PrintConversion(console, fmt, q, isLong >= 1, args, a);
    ConversionItem(fmt, p, q, args, a, a2, text);
    p2 := q + 1;
  }

  /** What has been printed, followed by what the rest of the format asks for, is the whole text. */
  ghost predicate Progress(fmt: CString, args: seq<Arg>, p: nat, a: nat, out: seq<byte>)
    requires ArgsFit(fmt, 0, args, 0)
  {
    && p <= |fmt| && ArgsFit(fmt, p, args, a)
    && out + Format(fmt, p, args, a) == Format(fmt, 0, args, 0)
  }

  lemma ProgressStep(fmt: CString, args: seq<Arg>, p: nat, a: nat, out: seq<byte>, p2: nat, a2: nat, text: seq<byte>)
    requires ArgsFit(fmt, 0, args, 0) && Progress(fmt, args, p, a, out) && ItemDone(fmt, p, args, a, p2, a2, text)
    ensures Progress(fmt, args, p2, a2, out + text)
  {
    assert out + (text + Format(fmt, p2, args, a2)) == (out + text) + Format(fmt, p2, args, a2);
  }

  /** printf: for arguments that fit the format string, exactly the text that the format denotes
      reaches the console, and no byte behind the terminator is read. */
  method Printf(console: Console, fmt: CString, args: seq<Arg>) returns (rc: int)
    requires console.Valid() && ArgsFit(fmt, 0, args, 0)
    modifies console`cx, console`cy, console`lines, console.pixels
    ensures rc == 0 && console.Valid()
    ensures Printed(old(console.Text()), console.Text(), console.ColCount(), console.RowCount(),
                    Format(fmt, 0, args, 0))
  {
    ghost var start, cols, rows := console.Text(), console.ColCount(), console.RowCount();
    ghost var out: seq<byte> := [];
    assert out + Format(fmt, 0, args, 0) == Format(fmt, 0, args, 0);
    var p, a := 0, 0;
    while CharAt(fmt, p) != 0
      invariant Progress(fmt, args, p, a, out)
      invariant console.Valid() && console.ColCount() == cols && console.RowCount() == rows
      invariant Printed(start, console.Text(), cols, rows, out)
      decreases |fmt| - p
    {
      ghost var mid := console.Text();
      ghost var text;
      var p2, a2;
      p2, a2, text := PrintItem(console, fmt, p, args, a);
      PrintedThen(start, mid, console.Text(), cols, rows, out, text);
      ProgressStep(fmt, args, p, a, out, p2, a2, text);
      p, a, out := p2, a2, out + text;
    }
    assert out + [] == out;
    rc := 0;
  }
}
