// Number printing and the format scanner of printf.

module Printf {
  import opened Common

  const INT_MAX := 0x7FFF_FFFF

  type I32 = x: int | -0x8000_0000 <= x < 0x8000_0000

  // ---------------------------------------------------------------- digits

  function Digit(d: nat): char
    requires d < 16
  {
    "0123456789abcdef"[d]
  }

  function DigitValue(c: char): int {
    if '0' <= c <= '9' then c as int - '0' as int else c as int - 'a' as int + 10
  }

  lemma DigitReadsBack(d: nat)
    requires d < 16
    ensures DigitValue(Digit(d)) == d && Digit(d) != '\0' && (Digit(d) == '0' <==> d == 0)
    ensures Digit(d) == (if d < 10 then '0' + d as char else 'a' + (d - 10) as char)
  {
  }

  // The numeral of `v`: most significant digit first, no leading zero.
  function Numeral(v: nat, base: nat): (s: string)
    requires 2 <= base <= 16
    ensures |s| >= 1
    decreases v
  {
    if v < base then [Digit(v)] else DivideDown(v, base); Numeral(v / base, base) + [Digit(v % base)]
  }

  lemma DivideDown(v: nat, base: nat)
    requires 2 <= base <= v
    ensures 0 < v / base < v && 0 <= v % base < base && v == base * (v / base) + v % base
    ensures base >= 3 ==> 3 * (v / base) <= v
  {
    var q := v / base;
    assert v == base * q + v % base;
    TimesNegative(base, q);
    assert q > 0;
    TimesAtLeast(base, 2, q);
    if base >= 3 {
      TimesAtLeast(base, 3, q);
    }
  }

  lemma TimesNegative(a: nat, q: int)
    ensures q <= 0 ==> a * q <= 0
  {
    if q <= 0 {
      TimesAtLeast(a, 0, -q);
    }
  }

  lemma {:induction false} TimesAtLeast(a: nat, b: nat, q: nat)
    requires a >= b
    ensures a * q >= b * q
  {
    if q > 0 {
      TimesAtLeast(a, b, q - 1);
    }
  }

  // The value that a numeral denotes.
  function Parse(s: string, base: nat): int {
    if s == [] then 0 else Parse(s[..|s| - 1], base) * base + DigitValue(s[|s| - 1])
  }

  lemma ParseOneMore(s: string, c: char, base: nat)
    ensures Parse(s + [c], base) == Parse(s, base) * base + DigitValue(c)
  {
    assert (s + [c])[..|s|] == s;
  }

  // A numeral reads back as its value, and only the numeral of 0 starts with a zero.
  lemma {:induction false} ParseNumeral(v: nat, base: nat)
    requires 2 <= base <= 16
    ensures Parse(Numeral(v, base), base) == v
    ensures Numeral(v, base)[0] == '0' <==> v == 0
    decreases v
  {
    hide Parse, Digit, DigitValue;
    if v < base {
      DigitReadsBack(v);
      ParseOneMore([], Digit(v), base);
      ParseNothing(base);
      assert [] + [Digit(v)] == [Digit(v)];
    } else {
      var q, r := v / base, v % base;
      DivideDown(v, base);
      ParseNumeral(q, base);
      DigitReadsBack(r);
      ParseOneMore(Numeral(q, base), Digit(r), base);
      assert q * base == base * q;
      assert Numeral(v, base) == Numeral(q, base) + [Digit(r)];
    }
  }

  lemma ParseNothing(base: nat)
    ensures Parse([], base) == 0
  {
  }

  // ---------------------------------------------------------------- how long a numeral is

  function Power(base: nat, n: nat): nat {
    if n == 0 then 1 else base * Power(base, n - 1)
  }

  // In base 2, n digits are enough exactly for the values below 2^n.
  lemma {:induction false} BinaryLength(v: nat, n: nat)
    requires n >= 1
    ensures |Numeral(v, 2)| <= n <==> v < Power(2, n)
    decreases n
  {
    if v < 2 {
      PowerPositive(2, n - 1);
    } else if n > 1 {
      BinaryLength(v / 2, n - 1);
    } else {
      assert Power(2, 1) == 2 * Power(2, 0);
    }
  }

  lemma {:induction false} PowerPositive(base: nat, n: nat)
    requires base >= 1
    ensures Power(base, n) >= 1
  {
    if n > 0 {
      PowerPositive(base, n - 1);
    }
  }

  // In a base above 2, a value below 3^n needs at most n digits.
  lemma {:induction false} OtherLength(v: nat, base: nat, n: nat)
    requires 3 <= base <= 16 && n >= 1 && v < Power(3, n)
    ensures |Numeral(v, base)| <= n
    decreases n
  {
    if v >= base {
      DivideDown(v, base);
      assert n > 1 by {
        assert Power(3, 1) == 3 * Power(3, 0);
      }
      OtherLength(v / base, base, n - 1);
    }
  }

  lemma PowerValues()
    ensures Power(2, 31) == 0x8000_0000 && Power(2, 32) == TWO32
    ensures Power(3, 31) > TWO32
  {
    assert Power(2, 4) == 16 && Power(2, 8) == 256;
    assert Power(2, 16) == 0x1_0000;
    assert Power(2, 24) == 0x100_0000;
    assert Power(2, 31) == 0x8000_0000;
    assert Power(3, 8) == 6561;
    assert Power(3, 16) == 43046721;
    assert Power(3, 24) == 282429536481;
  }

  // The 32-byte buffer holds every numeral but the ones of 32 binary digits.
  lemma BufferHolds(v: U32, base: nat)
    requires 2 <= base <= 16
    ensures |Numeral(v, base)| <= 31 <==> !(base == 2 && v >= 0x8000_0000)
    ensures |Numeral(v, base)| <= 32
  {
    PowerValues();
    if base == 2 {
      BinaryLength(v, 31);
      BinaryLength(v, 32);
    } else {
      OtherLength(v, base, 31);
    }
  }

  // What print_uint emits: the last 31 digits.
  function Printed(v: nat, base: nat): string
    requires 2 <= base <= 16
  {
    var s := Numeral(v, base);
    if |s| <= 31 then s else s[|s| - 31..]
  }

  lemma {:induction false} ParseLeadingOne(s: string)
    requires s != [] && s[0] == '1'
    ensures Parse(s, 2) == Power(2, |s| - 1) + Parse(s[1..], 2)
  {
    if |s| > 1 {
      var n := |s| - 1;
      ParseLeadingOne(s[..n]);
      assert s[..n][1..] == s[1..][..n - 1];
    } else {
      assert s[..0] == [] && s[1..] == [];
    }
  }

  // The output reads back as the value exactly when the guard on the buffer did not cut it.
  lemma PrintedReadsBack(v: U32, base: nat)
    requires 2 <= base <= 16
    ensures Parse(Printed(v, base), base) == v <==> !(base == 2 && v >= 0x8000_0000)
    ensures base == 2 && v >= 0x8000_0000 ==> Parse(Printed(v, base), base) == v - 0x8000_0000
  {
    hide Numeral, Parse, Power;
    BufferHolds(v, base);
    ParseNumeral(v, base);
    if base == 2 && v >= 0x8000_0000 {
      var s := Numeral(v, 2);
      LeadingOne(v);
      ParseLeadingOne(s);
      PowerValues();
    }
  }

  lemma {:induction false} LeadingOne(v: nat)
    requires v >= 1
    ensures Numeral(v, 2)[0] == '1'
    decreases v
  {
    if v >= 2 {
      LeadingOne(v / 2);
    }
  }

  // ---------------------------------------------------------------- signed numbers

  function Magnitude(v: int): nat {
    if v < 0 then -v else v
  }

  function SignedText(v: I32): string {
    (if v < 0 then "-" else "") + Numeral(Magnitude(v), 10)
  }

  function ParseSigned(s: string): int {
    if s != [] && s[0] == '-' then -Parse(s[1..], 10) else Parse(s, 10)
  }

  lemma SignedReadsBack(v: I32)
    ensures ParseSigned(SignedText(v)) == v
  {
    ParseNumeral(Magnitude(v), 10);
    if v < 0 {
      assert SignedText(v)[1..] == Numeral(Magnitude(v), 10);
    } else {
      StartsWithDigit(v, 10);
      assert SignedText(v) == Numeral(v, 10);
    }
  }

  lemma {:induction false} StartsWithDigit(v: nat, base: nat)
    requires 2 <= base <= 16
    ensures Numeral(v, base)[0] != '-' && forall i :: 0 <= i < |Numeral(v, base)| ==> Numeral(v, base)[i] != '\0'
    decreases v
  {
    if v < base {
      DigitReadsBack(v);
    } else {
      DivideDown(v, base);
      StartsWithDigit(v / base, base);
      DigitReadsBack(v % base);
    }
  }

  // ---------------------------------------------------------------- formats

  datatype Arg = Char(c: char) | Str(s: string) | Unsigned(u: U32) | Signed(i: I32) | Address(p: U32)

  predicate IsDirective(c: char) {
    c in {'c', 's', 'u', 'd', 'x', 'p'}
  }

  // The argument is what the directive takes. C strings hold no NUL.
  predicate Suits(c: char, a: Arg) {
    match c
    case 'c' => a.Char?
    case 's' => a.Str? && '\0' !in a.s
    case 'd' => a.Signed?
    case 'p' => a.Address?
    case _ => a.Unsigned?
  }

  function Text(c: char, a: Arg): string
    requires IsDirective(c) && Suits(c, a)
  {
    match c
    case 'c' => [a.c]
    case 's' => a.s
    case 'u' => Numeral(a.u, 10)
    case 'd' => SignedText(a.i)
    case 'x' => Numeral(a.u, 16)
    case _ => "0x" + Numeral(a.p, 16)
  }

  // Digits of the base, small letters above nine, and no leading zero but of "0" itself.
  predicate IsNumeral(s: string, base: nat) {
    && s != [] && (s[0] == '0' ==> |s| == 1)
    && forall i :: 0 <= i < |s| ==> ('0' <= s[i] <= '9' || 'a' <= s[i] <= 'f') && DigitValue(s[i]) < base
  }

  lemma {:induction false} NumeralDigits(v: nat, base: nat)
    requires 2 <= base <= 16
    ensures IsNumeral(Numeral(v, base), base)
    decreases v
  {
    if v < base {
      DigitReadsBack(v);
    } else {
      DivideDown(v, base);
      NumeralDigits(v / base, base);
      DigitReadsBack(v % base);
      ParseNumeral(v, base);
    }
  }

  // What each directive prints reads back as its argument: %u and %d in decimal, %x in
  // hexadecimal, %p in hexadecimal after "0x".
  lemma TextReadsBack(c: char, a: Arg)
    requires IsDirective(c) && Suits(c, a)
    ensures match a
            case Char(x) => Text(c, a) == [x]
            case Str(s) => Text(c, a) == s
            case Unsigned(u) =>
              var base := if c == 'x' then 16 else 10;
              IsNumeral(Text(c, a), base) && Parse(Text(c, a), base) == u
            case Signed(i) =>
              ParseSigned(Text(c, a)) == i && IsNumeral(if i < 0 then Text(c, a)[1..] else Text(c, a), 10)
            case Address(p) =>
              var t := Text(c, a);
              |t| > 2 && t[0] == '0' && t[1] == 'x' && IsNumeral(t[2..], 16) && Parse(t[2..], 16) == p
  {
    hide Numeral, Parse, IsNumeral;
    match a
    case Unsigned(u) =>
      ParseNumeral(u, if c == 'x' then 16 else 10);
      NumeralDigits(u, if c == 'x' then 16 else 10);
    case Signed(i) =>
      SignedReadsBack(i);
      NumeralDigits(Magnitude(i), 10);
      assert i >= 0 ==> Text(c, a) == Numeral(Magnitude(i), 10);
      assert i < 0 ==> Text(c, a)[1..] == Numeral(Magnitude(i), 10);
    case Address(p) =>
      ParseNumeral(p, 16);
      NumeralDigits(p, 16);
      assert Text(c, a)[2..] == Numeral(p, 16);
    case _ =>
  }

  // ---------------------------------------------------------------- formats as pieces

  // A caller's view of a format: literal text, a percent sign, a percent sign before a character
  // that makes no directive of it, or a directive with its argument.
  datatype Piece = Literal(s: string) | Percent | Stray(c: char) | Directive(c: char, a: Arg)

  predicate PieceOk(p: Piece) {
    match p
    case Literal(s) => '%' !in s && '\0' !in s
    case Percent => true
    case Stray(c) => !IsDirective(c) && c != '%' && c != '\0'
    case Directive(c, a) => IsDirective(c) && Suits(c, a)
  }

  function Format(ps: seq<Piece>): string {
    if ps == [] then ""
    else
      (match ps[0]
       case Literal(s) => s
       case Percent => "%%"
       case Stray(c) => ['%', c]
       case Directive(c, _) => ['%', c]) + Format(ps[1..])
  }

  function Args(ps: seq<Piece>): seq<Arg> {
    if ps == [] then [] else (match ps[0] case Directive(_, a) => [a] case _ => []) + Args(ps[1..])
  }

  // The text that the caller means, and the count that printf makes of it.
  ghost function Meaning(ps: seq<Piece>): (string, nat)
    requires forall p :: p in ps ==> PieceOk(p)
  {
    if ps == [] then ("", 0)
    else
      assert forall p :: p in ps[1..] ==> p in ps;
      assert PieceOk(ps[0]);
      var (text, count) := Meaning(ps[1..]);
      match ps[0]
      case Literal(s) => (s + text, |s| + count)
      case Percent => ("%" + text, 1 + count)
      case Stray(c) => (['%', c] + text, 2 + count)
      case Directive(c, a) =>
        (Text(c, a) + text, (if c == 'd' || c == 'x' || c == 'p' then 1 else |Text(c, a)|) + count)
  }

  // The arguments from `k` on suit the directives from `i` on.
  predicate Matching(f: string, i: nat, args: seq<Arg>, k: nat)
    decreases |f| - i
  {
    if i >= |f| then true
    else if f[i] != '%' || i + 1 == |f| then Matching(f, i + 1, args, k)
    else if f[i + 1] == '%' then Matching(f, i + 2, args, k)
    else if IsDirective(f[i + 1]) then
      k < |args| && Suits(f[i + 1], args[k]) && Matching(f, i + 2, args, k + 1)
    else Matching(f, i + 1, args, k)
  }

  // What a format means, one character at a time: a doubled percent sign is one, a percent
  // sign before anything that is no directive, or before the end, stands for itself.
  function Render(f: string, i: nat, args: seq<Arg>, k: nat): string
    requires Matching(f, i, args, k)
    decreases |f| - i
  {
    if i >= |f| then ""
    else if f[i] != '%' || i + 1 == |f| then [f[i]] + Render(f, i + 1, args, k)
    else if f[i + 1] == '%' then "%" + Render(f, i + 2, args, k)
    else if IsDirective(f[i + 1]) then Text(f[i + 1], args[k]) + Render(f, i + 2, args, k + 1)
    else "%" + Render(f, i + 1, args, k)
  }

  // What printf counts for a directive: what print_int or print_uint prints counts as one
  // character, whatever its length.
  function Counted(c: char, a: Arg): nat
    requires IsDirective(c) && Suits(c, a)
  {
    if c in {'d', 'x', 'p'} then 1 else |Text(c, a)|
  }

  // The count for the format from `i` on.
  function Tally(f: string, i: nat, args: seq<Arg>, k: nat): nat
    requires Matching(f, i, args, k)
    decreases |f| - i
  {
    if i >= |f| then 0
    else if f[i] != '%' || i + 1 == |f| then 1 + Tally(f, i + 1, args, k)
    else if f[i + 1] == '%' then 1 + Tally(f, i + 2, args, k)
    else if IsDirective(f[i + 1]) then Counted(f[i + 1], args[k]) + Tally(f, i + 2, args, k + 1)
    else 1 + Tally(f, i + 1, args, k)
  }

  // From `count` on, the count passes the greatest int first in a directive that prints before
  // it looks: %u, %d, %x or %p.
  predicate Overflows(f: string, i: nat, args: seq<Arg>, k: nat, count: int)
    requires Matching(f, i, args, k)
    decreases |f| - i
  {
    if i >= |f| then false
    else if f[i] == '%' && i + 1 < |f| && f[i + 1] != '%' && IsDirective(f[i + 1]) then
      var more := count + Counted(f[i + 1], args[k]);
      if more > INT_MAX then f[i + 1] in {'u', 'd', 'x', 'p'} else Overflows(f, i + 2, args, k + 1, more)
    else
      count < INT_MAX
      && Overflows(f, if f[i] == '%' && i + 1 < |f| && f[i + 1] == '%' then i + 2 else i + 1, args, k, count + 1)
  }

  // A tally that fits never overflows.
  lemma {:induction false} TallyFits(f: string, i: nat, args: seq<Arg>, k: nat, count: int)
    requires Matching(f, i, args, k) && count + Tally(f, i, args, k) <= INT_MAX
    ensures !Overflows(f, i, args, k, count)
    decreases |f| - i
  {
    hide Text, Counted, IsDirective, Suits;
    if i < |f| {
      if f[i] != '%' || i + 1 == |f| {
        TallyFits(f, i + 1, args, k, count + 1);
      } else if f[i + 1] == '%' {
        TallyFits(f, i + 2, args, k, count + 1);
      } else if IsDirective(f[i + 1]) {
        TallyFits(f, i + 2, args, k + 1, count + Counted(f[i + 1], args[k]));
      } else {
        TallyFits(f, i + 1, args, k, count + 1);
      }
    }
  }

  // Literal text is looked at before it is printed.
  lemma {:induction false} PlainOverflows(f: string, i: nat, j: nat, args: seq<Arg>, k: nat, count: int)
    requires i <= j <= |f| && Matching(f, i, args, k) && Matching(f, j, args, k) && '%' !in f[i..j]
    ensures count + j - i > INT_MAX && count <= INT_MAX ==> !Overflows(f, i, args, k, count)
    ensures count + j - i <= INT_MAX ==> Overflows(f, i, args, k, count) == Overflows(f, j, args, k, count + j - i)
    decreases j - i
  {
    hide Text, Counted, IsDirective, Suits;
    if i < j {
      OneCharacter(f, i, j);
      PlainOverflows(f, i + 1, j, args, k, count + 1);
    }
  }

  // No %d, %x or %p prints more than one character.
  predicate ShortNumbers(f: string, i: nat, args: seq<Arg>, k: nat)
    requires Matching(f, i, args, k)
    decreases |f| - i
  {
    if i >= |f| then true
    else if f[i] != '%' || i + 1 == |f| then ShortNumbers(f, i + 1, args, k)
    else if f[i + 1] == '%' then ShortNumbers(f, i + 2, args, k)
    else if IsDirective(f[i + 1]) then
      (f[i + 1] in {'d', 'x', 'p'} ==> |Text(f[i + 1], args[k])| == 1) && ShortNumbers(f, i + 2, args, k + 1)
    else ShortNumbers(f, i + 1, args, k)
  }

  // The count is the length of the text exactly when it has only short numbers.
  lemma {:induction false} TallyIsLength(f: string, i: nat, args: seq<Arg>, k: nat)
    requires Matching(f, i, args, k)
    ensures Tally(f, i, args, k) <= |Render(f, i, args, k)|
    ensures Tally(f, i, args, k) == |Render(f, i, args, k)| <==> ShortNumbers(f, i, args, k)
    decreases |f| - i
  {
    hide Numeral;
    if i < |f| {
      if f[i] != '%' || i + 1 == |f| {
        TallyIsLength(f, i + 1, args, k);
      } else if f[i + 1] == '%' {
        TallyIsLength(f, i + 2, args, k);
      } else if IsDirective(f[i + 1]) {
        TextNotEmpty(f[i + 1], args[k]);
        TallyIsLength(f, i + 2, args, k + 1);
      } else {
        TallyIsLength(f, i + 1, args, k);
      }
    }
  }

  lemma TextNotEmpty(c: char, a: Arg)
    requires IsDirective(c) && Suits(c, a)
    ensures c != 's' ==> |Text(c, a)| >= 1
  {
  }

  // A stretch without percent signs stands for itself.
  lemma {:induction false} PlainStretch(f: string, i: nat, j: nat, args: seq<Arg>, k: nat)
    requires i <= j <= |f| && Matching(f, i, args, k) && '%' !in f[i..j]
    ensures Matching(f, j, args, k) && Tally(f, i, args, k) == j - i + Tally(f, j, args, k)
    ensures Render(f, i, args, k) == f[i..j] + Render(f, j, args, k)
    decreases j - i
  {
    hide Text, Suits, IsDirective, Counted;
    if i < j {
      OneCharacter(f, i, j);
      PlainStretch(f, i + 1, j, args, k);
    } else {
      assert f[i..j] == "";
    }
  }

  lemma OneCharacter(f: string, i: nat, j: nat)
    requires i < j <= |f| && '%' !in f[i..j]
    ensures f[i..j] == [f[i]] + f[i + 1..j] && f[i] != '%' && '%' !in f[i + 1..j]
  {
    assert f[i] == f[i..j][0] && f[i + 1..j] == f[i..j][1..];
  }

  lemma FormatTail(f: string, i: nat, a: string, b: string)
    requires i <= |f| && f[i..] == a + b
    ensures i + |a| <= |f| && f[i..i + |a|] == a && f[i + |a|..] == b
  {
    assert f[i..][..|a|] == a && f[i..][|a|..] == b;
  }

  lemma LiteralPiece(f: string, i: nat, s: string, rest: string, args: seq<Arg>, k: nat)
    requires i <= |f| && f[i..] == s + rest && '%' !in s && Matching(f, i + |s|, args, k)
    ensures Matching(f, i, args, k) && Render(f, i, args, k) == s + Render(f, i + |s|, args, k)
    ensures Tally(f, i, args, k) == |s| + Tally(f, i + |s|, args, k)
  {
    hide Text, Suits, IsDirective, Counted, Render, Tally;
    FormatTail(f, i, s, rest);
    PlainMatches(f, i, i + |s|, args, k);
    PlainStretch(f, i, i + |s|, args, k);
  }

  lemma PercentPiece(f: string, i: nat, args: seq<Arg>, k: nat)
    requires i + 1 < |f| && f[i] == f[i + 1] == '%' && Matching(f, i + 2, args, k)
    ensures Matching(f, i, args, k) && Render(f, i, args, k) == "%" + Render(f, i + 2, args, k)
    ensures Tally(f, i, args, k) == 1 + Tally(f, i + 2, args, k)
  {
  }

  lemma StrayPiece(f: string, i: nat, args: seq<Arg>, k: nat, c: char)
    requires i + 1 < |f| && f[i] == '%' && f[i + 1] == c && !IsDirective(c) && c != '%' && Matching(f, i + 2, args, k)
    ensures Matching(f, i, args, k) && Render(f, i, args, k) == ['%', c] + Render(f, i + 2, args, k)
    ensures Tally(f, i, args, k) == 2 + Tally(f, i + 2, args, k)
  {
    assert Matching(f, i + 1, args, k);
    assert "%" + ([c] + Render(f, i + 2, args, k)) == ['%', c] + Render(f, i + 2, args, k);
  }

  lemma DirectivePiece(f: string, i: nat, args: seq<Arg>, k: nat, c: char, a: Arg)
    requires i + 1 < |f| && f[i] == '%' && f[i + 1] == c && IsDirective(c) && Suits(c, a)
    requires k < |args| && args[k] == a && Matching(f, i + 2, args, k + 1)
    ensures Matching(f, i, args, k) && Render(f, i, args, k) == Text(c, a) + Render(f, i + 2, args, k + 1)
    ensures Tally(f, i, args, k) == Counted(c, a) + Tally(f, i + 2, args, k + 1)
  {
    hide Text, Suits;
  }

  lemma {:induction false} PlainMatches(f: string, i: nat, j: nat, args: seq<Arg>, k: nat)
    requires i <= j <= |f| && Matching(f, j, args, k) && '%' !in f[i..j]
    ensures Matching(f, i, args, k)
    decreases j - i
  {
    hide Text, Suits, IsDirective;
    if i < j {
      OneCharacter(f, i, j);
      PlainMatches(f, i + 1, j, args, k);
    }
  }

  // printf takes every format apart as it was put together.
  lemma {:induction false} RenderMeans(ps: seq<Piece>, f: string, i: nat, args: seq<Arg>, k: nat)
    requires forall p :: p in ps ==> PieceOk(p)
    requires i <= |f| && f[i..] == Format(ps) && k <= |args| && args[k..] == Args(ps)
    ensures Matching(f, i, args, k)
    ensures Render(f, i, args, k) == Meaning(ps).0 && Tally(f, i, args, k) == Meaning(ps).1
    decreases |ps|
  {
    hide Text, Suits, IsDirective, Render, Tally, Matching;
    if ps == [] {
      assert i == |f|;
      RenderEnd(f, args);
    } else {
      var rest := ps[1..];
      assert PieceOk(ps[0]);
      match ps[0]
      case Literal(s) =>
        FormatTail(f, i, s, Format(rest));
        assert args[k..] == Args(rest);
        RenderMeans(rest, f, i + |s|, args, k);
        LiteralPiece(f, i, s, Format(rest), args, k);
      case Percent =>
        FormatTail(f, i, "%%", Format(rest));
        assert f[i] == f[i..][0] == '%' && f[i + 1] == f[i..][1] == '%';
        RenderMeans(rest, f, i + 2, args, k);
        PercentPiece(f, i, args, k);
      case Stray(c) =>
        FormatTail(f, i, ['%', c], Format(rest));
        assert f[i] == f[i..][0] == '%' && f[i + 1] == f[i..][1] == c;
        RenderMeans(rest, f, i + 2, args, k);
        StrayPiece(f, i, args, k, c);
      case Directive(c, a) =>
        FormatTail(f, i, ['%', c], Format(rest));
        assert f[i] == f[i..][0] == '%' && f[i + 1] == f[i..][1] == c;
        assert args[k..][0] == a && args[k + 1..] == args[k..][1..] == Args(rest);
        RenderMeans(rest, f, i + 2, args, k + 1);
        DirectivePiece(f, i, args, k, c, a);
    }
  }

  // ---------------------------------------------------------------- the library

  class Console {
    var out: string

    constructor ()
      ensures out == ""
    {
      out := "";
    }

    // putchar never fails in the kernel, so neither does print.
    method Print(data: string) returns (ok: bool)
      modifies this
      ensures ok && out == old(out) + data
    {
      var i := 0;
      while i < |data|
        invariant 0 <= i <= |data| && out == old(out) + data[..i]
      {
        out := out + [data[i]];
        i := i + 1;
      }
      ok := true;
    }

    // The digit loop of print_uint: the buffer is filled from its end, and the loop stops
    // when the value or the room runs out.
    method FillDigits(buffer: array<char>, v: U32, base: U32) returns (pos: nat)
      requires buffer.Length == 32 && 2 <= base <= 16 && v > 0
      modifies buffer
      ensures pos <= 31 && buffer[pos..31] == Printed(v, base)
    {
      var value: nat := v;
      ghost var whole := Numeral(v, base);
      pos := 31;
      buffer[31] := '\0';
      while value != 0 && pos > 0
        invariant 0 <= pos <= 31
        invariant value == 0 ==> pos < 31 && whole == buffer[pos..31]
        invariant value > 0 ==> whole == Numeral(value, base) + buffer[pos..31]
        decreases value
      {
        var digit := value % base;
        NumeralStep(value, base);
        ghost var tail := buffer[pos..31];
        pos := pos - 1;
        buffer[pos] := Digit(digit);
        assert buffer[pos..31] == [Digit(digit)] + tail;
        value := value / base;
      }
    }

    lemma NumeralStep(value: nat, base: nat)
      requires 2 <= base <= 16 && value > 0
      ensures value / base < value
      ensures value / base == 0 ==> Numeral(value, base) == [Digit(value % base)]
      ensures value / base > 0 ==> Numeral(value, base) == Numeral(value / base, base) + [Digit(value % base)]
    {
      if value >= base {
        DivideDown(value, base);
      }
    }

    method PrintUint(value: U32, base: U32) returns (ok: bool)
      modifies this
      ensures ok == (2 <= base <= 16)
      ensures out == old(out) + if ok then Printed(value, base) else ""
    {
      if base < 2 || base > 16 {
        return false;
      }
      if value == 0 {
        ok := Print("0");
        return;
      }
      var buffer := new char[32];
      var pos := FillDigits(buffer, value, base);
      ok := Print(buffer[pos..31]);
    }

    // INT_MIN is negated without overflow.
    method PrintInt(value: I32) returns (ok: bool)
      modifies this
      ensures ok && out == old(out) + SignedText(value)
    {
      BufferHolds(Magnitude(value), 10);
      hide Numeral;
      if value < 0 {
        ok := Print("-");
        if !ok {
          return false;
        }
        var magnitude: U32 := -(value + 1) + 1;
        ok := PrintUint(magnitude, 10);
        return;
      }
      ok := PrintUint(value, 10);
    }

    // The %u branch of printf, which repeats the digit loop; `len` is what it adds to the count.
    method PrintUnsignedInline(v: U32) returns (len: nat)
      modifies this
      ensures out == old(out) + Numeral(v, 10) && len == |Numeral(v, 10)|
    {
      BufferHolds(v, 10);
      if v == 0 {
        len := 1;
        var _ := Print("0");
      } else {
        var buffer := new char[32];
        var pos := FillDigits(buffer, v, 10);
        len := 31 - pos;
        var _ := Print(buffer[pos..31]);
      }
    }

    lemma PrintedWhole(v: U32, base: nat)
      requires 3 <= base <= 16
      ensures Printed(v, base) == Numeral(v, base)
    {
      BufferHolds(v, base);
    }

    // One directive after its percent sign: -1 if the text exceeds the room, and otherwise
    // what the count grows by.
    method PrintDirective(c: char, a: Arg, maxRem: int) returns (grown: int)
      requires IsDirective(c) && Suits(c, a)
      modifies this
      ensures grown == -1 ==> Counted(c, a) > maxRem && (c == 'c' || c == 's') && out == old(out)
      ensures grown != -1 && (c == 'c' || c == 's') ==> Counted(c, a) <= maxRem
      ensures grown != -1 ==> out == old(out) + Text(c, a) && grown == Counted(c, a)
    {
      hide Numeral, Printed;
      var ok := true;
      match c
      case 'c' =>
        if maxRem <= 0 {
          return -1;
        }
        ok := Print([a.c]);
        grown := 1;
      case 's' =>
        if maxRem < |a.s| {
          return -1;
        }
        ok := Print(a.s);
        grown := |a.s|;
      case 'u' =>
        grown := PrintUnsignedInline(a.u);
      case 'd' =>
        ok := PrintInt(a.i);
        grown := 1;
      case 'x' =>
        PrintedWhole(a.u, 16);
        ok := PrintUint(a.u, 16);
        grown := 1;
      case _ =>
        PrintedWhole(a.p, 16);
        ok := Print("0x");
        ok := PrintUint(a.p, 16);
        grown := 1;
    }

    // The end of the stretch of literal text at `i`, whose first character counts whatever
    // it is.
    method StretchLength(format: string, i: nat) returns (amount: nat)
      requires i < |format|
      ensures 1 <= amount <= |format| - i
      ensures '%' !in format[i + 1..i + amount]
    {
      amount := 1;
      while i + amount < |format| && format[i + amount] != '%'
        invariant 1 <= amount <= |format| - i
        invariant '%' !in format[i + 1..i + amount]
      {
        assert format[i + 1..i + amount + 1] == format[i + 1..i + amount] + [format[i + amount]];
        amount := amount + 1;
      }
    }

    // The scan of printf: literal text goes out in stretches, and the output is what the
    // format means. Where the count would pass the greatest int it gives up before the text that
    // would not fit, unless that is a number, which is printed first.
    method Printf(format: string, args: seq<Arg>) returns (written: int)
      requires '\0' !in format && Matching(format, 0, args, 0)
      modifies this
      ensures Tally(format, 0, args, 0) <= INT_MAX ==>
                out == old(out) + Render(format, 0, args, 0) && written == Tally(format, 0, args, 0)
      ensures Tally(format, 0, args, 0) > INT_MAX && !Overflows(format, 0, args, 0, 0) ==>
                written == -1 && old(out) <= out <= old(out) + Render(format, 0, args, 0)
    {
      RenderEnd(format, args);
      hide Text, Suits, IsDirective, Render, Matching, Tally, Counted, Overflows;
      ghost var start := out;
      ghost var whole := Render(format, 0, args, 0);
      var i, k := 0, 0;
      written := 0;
      while i < |format|
        invariant 0 <= i <= |format| && Matching(format, i, args, k)
        invariant out + Render(format, i, args, k) == start + whole
        invariant 0 <= written && written + Tally(format, i, args, k) == Tally(format, 0, args, 0)
        invariant start <= out
        invariant if written <= INT_MAX then Overflows(format, 0, args, 0, 0) == Overflows(format, i, args, k, written)
                  else Overflows(format, 0, args, 0, 0)
        decreases |format| - i
      {
        ghost var before := out;
        var maxRem := INT_MAX - written;
        if format[i] != '%' || (i + 1 < |format| && format[i + 1] == '%') {
          ghost var at := i;
          if format[i] == '%' {
            i := i + 1;
          }
          var amount := StretchLength(format, i);
          StretchRenders(format, at, i, amount, args, k);
          StretchOverflows(format, at, i, amount, args, k, written);
          if maxRem < amount {
            return -1;
          }
          var ok := Print(format[i..i + amount]);
          Regroup(before, format[i..i + amount], Render(format, i + amount, args, k));
          i := i + amount;
          written := written + amount;
        } else if i + 1 < |format| && IsDirective(format[i + 1]) {
          DirectiveRenders(format, i, args, k);
          DirectiveOverflows(format, i, args, k, written);
          var grown := PrintDirective(format[i + 1], args[k], maxRem);
          if grown == -1 {
            return -1;
          }
          Regroup(before, Text(format[i + 1], args[k]), Render(format, i + 2, args, k + 1));
          i := i + 2;
          k := k + 1;
          written := written + grown;
        } else {
          PercentRenders(format, i, args, k);
          PercentOverflows(format, i, args, k, written);
          if maxRem <= 0 {
            return -1;
          }
          var ok := Print("%");
          Regroup(before, "%", Render(format, i + 1, args, k));
          i := i + 1;
          written := written + 1;
        }
      }
    }
  }

  lemma Regroup(a: string, b: string, c: string)
    ensures a + (b + c) == (a + b) + c
  {
  }

  lemma RenderEnd(f: string, args: seq<Arg>)
    ensures forall k: nat :: Matching(f, |f|, args, k) && Render(f, |f|, args, k) == "" && Tally(f, |f|, args, k) == 0
  {
  }

  lemma DirectiveRenders(f: string, i: nat, args: seq<Arg>, k: nat)
    requires i + 1 < |f| && f[i] == '%' && IsDirective(f[i + 1]) && Matching(f, i, args, k)
    ensures k < |args| && Suits(f[i + 1], args[k]) && Matching(f, i + 2, args, k + 1)
    ensures Render(f, i, args, k) == Text(f[i + 1], args[k]) + Render(f, i + 2, args, k + 1)
    ensures Tally(f, i, args, k) == Counted(f[i + 1], args[k]) + Tally(f, i + 2, args, k + 1)
  {
  }

  lemma PercentRenders(f: string, i: nat, args: seq<Arg>, k: nat)
    requires i < |f| && f[i] == '%' && Matching(f, i, args, k)
    requires i + 1 < |f| ==> f[i + 1] != '%' && !IsDirective(f[i + 1])
    ensures Matching(f, i + 1, args, k) && Render(f, i, args, k) == "%" + Render(f, i + 1, args, k)
    ensures Tally(f, i, args, k) == 1 + Tally(f, i + 1, args, k)
  {
  }

  lemma StretchHead(f: string, at: nat, i: nat, args: seq<Arg>, k: nat)
    requires at < |f| && Matching(f, at, args, k) && i < |f|
    requires (i == at && f[at] != '%') || (i == at + 1 && f[at] == '%' && f[i] == '%')
    ensures Matching(f, i + 1, args, k) && Render(f, at, args, k) == [f[i]] + Render(f, i + 1, args, k)
    ensures Tally(f, at, args, k) == 1 + Tally(f, i + 1, args, k)
  {
  }

  // A stretch of literal text, from a plain character or from the second of two percent signs.
  lemma StretchRenders(f: string, at: nat, i: nat, amount: nat, args: seq<Arg>, k: nat)
    requires at < |f| && Matching(f, at, args, k) && 1 <= amount && i + amount <= |f|
    requires (i == at && f[at] != '%') || (i == at + 1 && f[at] == '%' && f[i] == '%')
    requires '%' !in f[i + 1..i + amount]
    ensures Matching(f, i + amount, args, k) && Tally(f, at, args, k) == amount + Tally(f, i + amount, args, k)
    ensures Render(f, at, args, k) == f[i..i + amount] + Render(f, i + amount, args, k)
  {
    hide Render, Matching, Tally;
    StretchHead(f, at, i, args, k);
    PlainStretch(f, i + 1, i + amount, args, k);
    Regroup([f[i]], f[i + 1..i + amount], Render(f, i + amount, args, k));
    assert f[i..i + amount] == [f[i]] + f[i + 1..i + amount];
  }

  lemma DirectiveOverflows(f: string, i: nat, args: seq<Arg>, k: nat, count: int)
    requires i + 1 < |f| && f[i] == '%' && IsDirective(f[i + 1]) && Matching(f, i, args, k)
    ensures k < |args| && Suits(f[i + 1], args[k]) && Matching(f, i + 2, args, k + 1)
    ensures var more := count + Counted(f[i + 1], args[k]);
            Overflows(f, i, args, k, count)
            == if more > INT_MAX then f[i + 1] != 'c' && f[i + 1] != 's' else Overflows(f, i + 2, args, k + 1, more)
  {
    hide Text, Suits;
  }

  lemma PercentOverflows(f: string, i: nat, args: seq<Arg>, k: nat, count: int)
    requires i < |f| && f[i] == '%' && Matching(f, i, args, k)
    requires i + 1 < |f| ==> f[i + 1] != '%' && !IsDirective(f[i + 1])
    ensures Matching(f, i + 1, args, k)
    ensures Overflows(f, i, args, k, count) == (count < INT_MAX && Overflows(f, i + 1, args, k, count + 1))
  {
    hide Text, Suits, Counted;
  }

  lemma StretchOverflows(f: string, at: nat, i: nat, amount: nat, args: seq<Arg>, k: nat, count: int)
    requires at < |f| && Matching(f, at, args, k) && 1 <= amount && i + amount <= |f|
    requires (i == at && f[at] != '%') || (i == at + 1 && f[at] == '%' && f[i] == '%')
    requires '%' !in f[i + 1..i + amount]
    ensures Matching(f, i + amount, args, k)
    ensures count <= INT_MAX ==>
              Overflows(f, at, args, k, count)
              == (count + amount <= INT_MAX && Overflows(f, i + amount, args, k, count + amount))
  {
    hide Text, Suits, Counted, Render;
    StretchHead(f, at, i, args, k);
    PlainStretch(f, i + 1, i + amount, args, k);
    PlainOverflows(f, i + 1, i + amount, args, k, count + 1);
  }
}
