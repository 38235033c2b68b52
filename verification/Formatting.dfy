/** What the kernel's format strings mean, and that numbers printed by them read back. */
module Formatting {

  const DECIMAL: string := "0123456789"
  const LOWER: string := "0123456789abcdef"
  const UPPER: string := "0123456789ABCDEF"

  /** Distinct digit characters, zero first. */
  predicate IsAlphabet(a: string) {
    2 <= |a| && a[0] == '0' && forall i, j :: 0 <= i < j < |a| ==> a[i] != a[j]
  }

  lemma Alphabets()
    ensures IsAlphabet(DECIMAL) && |DECIMAL| == 10
    ensures IsAlphabet(LOWER) && |LOWER| == 16
    ensures IsAlphabet(UPPER) && |UPPER| == 16
  {
  }

  function LowDigit(n: nat, a: string): char
    requires IsAlphabet(a)
  {
    a[n % |a|]
  }

  /** A number without its low digit. */
  function HighPart(n: nat, a: string): (q: nat)
    requires IsAlphabet(a)
    ensures n > 0 ==> q < n
  {
    LastDigit(n, |a|);
    n / |a|
  }

  lemma LastDigit(n: nat, b: nat)
    requires b >= 2
    ensures n == n / b * b + n % b && (n > 0 ==> n / b < n)
  {
  }

  lemma QuotientBound(n: nat, b: nat, p: nat)
    requires b >= 2 && n < b * p
    ensures n / b < p
  {
    LastDigit(n, b);
    ProductGrows(n / b, p, b);
  }

  lemma ProductGrows(q: nat, p: nat, b: nat)
    ensures q >= p ==> q * b >= p * b
  {
  }

  /** The digits of a number, most significant first, none for 0. */
  function Digits(n: nat, a: string): string
    requires IsAlphabet(a)
    decreases n
  {
    if n == 0 then "" else Digits(HighPart(n, a), a) + [LowDigit(n, a)]
  }

  /** A number as printed: its digits, or a single 0. */
  function Numeral(n: nat, a: string): string
    requires IsAlphabet(a)
  {
    if n == 0 then "0" else Digits(n, a)
  }

  function DigitValue(c: char, a: string): (v: nat)
    requires c in a
    ensures v < |a| && a[v] == c
  {
    if a[0] == c then 0 else 1 + DigitValue(c, a[1..])
  }

  ghost predicate IsNumeral(s: string, a: string) {
    forall c :: c in s ==> c in a
  }

  /** Reading a numeral back. */
  ghost function Value(s: string, a: string): nat
    requires IsNumeral(s, a)
  {
    if s == "" then 0 else Value(s[..|s| - 1], a) * |a| + DigitValue(s[|s| - 1], a)
  }

  lemma {:induction false} DigitRoundTrip(a: string, i: nat)
    requires IsAlphabet(a) && i < |a|
    ensures DigitValue(a[i], a) == i
  {
    var v := DigitValue(a[i], a);
    assert a[v] == a[i];
  }

  lemma {:induction false} ValueExtends(s: string, c: char, a: string)
    requires IsNumeral(s, a) && c in a
    ensures IsNumeral(s + [c], a) && Value(s + [c], a) == Value(s, a) * |a| + DigitValue(c, a)
  {
    assert (s + [c])[..|s + [c]| - 1] == s;
  }

  lemma {:induction false} DigitsRoundTrip(n: nat, a: string)
    requires IsAlphabet(a)
    ensures IsNumeral(Digits(n, a), a) && Value(Digits(n, a), a) == n
    decreases n
  {
    if n > 0 {
      LastDigit(n, |a|);
      var q, r := n / |a|, n % |a|;
      DigitsRoundTrip(q, a);
      DigitRoundTrip(a, r);
      ValueExtends(Digits(q, a), a[r], a);
    }
  }

  lemma {:induction false} NoLeadingZero(n: nat, a: string)
    requires IsAlphabet(a) && n > 0
    ensures Digits(n, a) != "" && Digits(n, a)[0] != '0'
    decreases n
  {
    LastDigit(n, |a|);
    if n / |a| > 0 {
      NoLeadingZero(n / |a|, a);
    } else {
      assert Digits(n, a) == [a[n]];
    }
  }

  /** Every number reads back from its numeral, which has no leading zero. */
  lemma {:induction false} NumeralRoundTrip(n: nat, a: string)
    requires IsAlphabet(a)
    ensures IsNumeral(Numeral(n, a), a) && Value(Numeral(n, a), a) == n
    ensures Numeral(n, a)[0] == '0' <==> n == 0
  {
    if n == 0 {
      DigitRoundTrip(a, 0);
      assert "0" == "" + [a[0]];
      ValueExtends("", a[0], a);
    } else {
      DigitsRoundTrip(n, a);
      NoLeadingZero(n, a);
    }
  }

  function Power(b: nat, e: nat): nat {
    if e == 0 then 1 else b * Power(b, e - 1)
  }

  lemma {:induction false} DigitsBound(n: nat, a: string, e: nat)
    requires IsAlphabet(a) && n < Power(|a|, e)
    ensures |Digits(n, a)| <= e
    decreases e
  {
    if n > 0 {
      QuotientBound(n, |a|, Power(|a|, e - 1));
      DigitsBound(HighPart(n, a), a, e - 1);
    }
  }

  lemma WordPowers()
    ensures Power(10, 20) == 100_000_000_000_000_000_000
    ensures Power(16, 16) == 0x1_0000_0000_0000_0000
  {
    assert Power(10, 5) == 100_000;
    assert Power(10, 10) == 10_000_000_000;
    assert Power(10, 15) == 1_000_000_000_000_000;
    assert Power(16, 5) == 0x10_0000;
    assert Power(16, 10) == 0x100_0000_0000;
    assert Power(16, 13) == 0x10_0000_0000_0000;
  }

  /** A 64-bit number takes at most 20 decimal or 16 hexadecimal digits. */
  lemma {:induction false} WordDigits(n: nat, a: string)
    requires a in {DECIMAL, LOWER, UPPER} && n < 0x1_0000_0000_0000_0000
    ensures IsAlphabet(a)
    ensures 1 <= |Numeral(n, a)| <= (if a == DECIMAL then 20 else 16)
  {
    WordPowers();
    Alphabets();
    DigitsBound(n, a, if a == DECIMAL then 20 else 16);
    if n > 0 {
      NoLeadingZero(n, a);
    }
  }

  datatype Arg = Text(s: string) | Number(n: nat)

  /** The low `width`-bit signed value of an argument word. */
  function Signed(n: nat, modulus: nat): int
    requires modulus > 0
  {
    var low := n % modulus;
    if 2 * low < modulus then low else low - modulus
  }

  const TWO_32: nat := 0x1_0000_0000
  const TWO_64: nat := 0x1_0000_0000_0000_0000

  /** A negative value negated in two's complement, then widened to an unsigned 64-bit word. */
  function Negated(v: int, modulus: nat): (m: nat)
    requires modulus > 0
    ensures m < TWO_64
  {
    Signed((-v) % modulus, modulus) % TWO_64
  }

  /** A signed argument: a minus sign and the negated value, or the value. */
  function SignedText(n: nat, modulus: nat): string
    requires modulus > 0
  {
    Alphabets();
    var v := Signed(n, modulus);
    if v < 0 then "-" + Numeral(Negated(v, modulus), DECIMAL) else Numeral(v, DECIMAL)
  }

  /** A negative %d argument prints as its value, except the most negative one, which cannot be negated in 32 bits. */
  lemma {:induction false} DecimalTextCorrectIff(n: nat)
    requires Signed(n, TWO_32) < 0
    ensures IsAlphabet(DECIMAL)
    ensures SignedText(n, TWO_32) == "-" + Numeral(-Signed(n, TWO_32), DECIMAL) <==> Signed(n, TWO_32) != -0x8000_0000
  {
    Alphabets();
    var v := Signed(n, TWO_32);
    MostNegative(v);
    SameText(Negated(v, TWO_32), -v);
  }

  lemma {:induction false} SameText(x: nat, y: nat)
    requires IsAlphabet(DECIMAL)
    ensures "-" + Numeral(x, DECIMAL) == "-" + Numeral(y, DECIMAL) <==> x == y
  {
    NumeralRoundTrip(x, DECIMAL);
    NumeralRoundTrip(y, DECIMAL);
    assert ("-" + Numeral(x, DECIMAL))[1..] == Numeral(x, DECIMAL);
    assert ("-" + Numeral(y, DECIMAL))[1..] == Numeral(y, DECIMAL);
  }

  /** A negative %q argument always prints as its value: the negated word is read as unsigned. */
  lemma {:induction false} QuadTextCorrect(n: nat)
    requires Signed(n, TWO_64) < 0
    ensures IsAlphabet(DECIMAL)
    ensures SignedText(n, TWO_64) == "-" + Numeral(-Signed(n, TWO_64), DECIMAL)
  {
    Alphabets();
    NegatedQuad(Signed(n, TWO_64));
  }

  lemma NegatedQuad(v: int)
    requires -0x8000_0000_0000_0000 <= v < 0
    ensures Negated(v, TWO_64) == -v
  {
  }

  lemma MostNegative(v: int)
    requires -0x8000_0000 <= v < 0
    ensures Negated(v, TWO_32) == -v <==> v != -0x8000_0000
  {
  }

  predicate NoNul(s: string) {
    forall c :: c in s ==> c != '\0'
  }

  function Takes(c: char): (kind: int)
  {
    if c == 's' then 1 else if c in "cdqxX" then 2 else 0
  }

  /** Every conversion finds an argument of its kind, and the format does not end in a lone percent sign. */
  predicate Proper(fmt: string, args: seq<Arg>) {
    if fmt == "" then true
    else if fmt[0] == '\0' then false
    else if fmt[0] != '%' then Proper(fmt[1..], args)
    else if |fmt| == 1 || fmt[1] == '\0' then false
    else if Takes(fmt[1]) == 0 then Proper(fmt[2..], args)
    else
      && args != []
      && (if Takes(fmt[1]) == 1 then args[0].Text? && NoNul(args[0].s) else args[0].Number? && args[0].n < TWO_64)
      && Proper(fmt[2..], args[1..])
  }

  /** What one conversion prints. */
  function Converted(c: char, arg: Arg): string
    requires Takes(c) != 0 && (if Takes(c) == 1 then arg.Text? else arg.Number?)
  {
    Alphabets();
    match c
    case 's' => arg.s
    case 'c' => [(arg.n % 256) as char]
    case 'd' => SignedText(arg.n, TWO_32)
    case 'q' => SignedText(arg.n, TWO_64)
    case 'x' => Numeral(arg.n, LOWER)
    case _ => Numeral(arg.n, UPPER)
  }

  /** The text of a format; unknown conversions print nothing and take no argument. */
  function Format(fmt: string, args: seq<Arg>): string
    requires Proper(fmt, args)
  {
    if fmt == "" then ""
    else if fmt[0] != '%' then [fmt[0]] + Format(fmt[1..], args)
    else if Takes(fmt[1]) == 0 then Format(fmt[2..], args)
    else Converted(fmt[1], args[0]) + Format(fmt[2..], args[1..])
  }

  /** From position `p` with argument `a` next, `written` followed by what is left prints `whole`. */
  ghost predicate Remaining(fmt: string, args: seq<Arg>, p: nat, a: nat, written: string, whole: string) {
    p <= |fmt| && a <= |args| && Proper(fmt[p..], args[a..]) && written + Format(fmt[p..], args[a..]) == whole
  }

  lemma {:induction false} LiteralNext(fmt: string, args: seq<Arg>, p: nat, a: nat, written: string, whole: string)
    requires Remaining(fmt, args, p, a, written, whole) && p < |fmt| && fmt[p] != '%'
    ensures Remaining(fmt, args, p + 1, a, written + [fmt[p]], whole) && |written| < |whole|
  {
    assert fmt[p..][1..] == fmt[p + 1..];
    assert (written + [fmt[p]]) + Format(fmt[p + 1..], args[a..]) == written + ([fmt[p]] + Format(fmt[p + 1..], args[a..]));
  }

  lemma {:induction false} UnknownNext(fmt: string, args: seq<Arg>, p: nat, a: nat, written: string, whole: string)
    requires Remaining(fmt, args, p, a, written, whole) && p < |fmt| && fmt[p] == '%'
    ensures p + 1 < |fmt| && (Takes(fmt[p + 1]) == 0 ==> Remaining(fmt, args, p + 2, a, written, whole))
  {
    assert fmt[p..][2..] == fmt[p + 2..];
  }

  lemma {:induction false} ConversionNext(fmt: string, args: seq<Arg>, p: nat, a: nat, written: string, whole: string)
    requires Remaining(fmt, args, p, a, written, whole) && p + 1 < |fmt| && fmt[p] == '%' && Takes(fmt[p + 1]) != 0
    ensures a < |args| && (if Takes(fmt[p + 1]) == 1 then args[a].Text? else args[a].Number? && args[a].n < TWO_64)
    ensures var text := Converted(fmt[p + 1], args[a]);
            Remaining(fmt, args, p + 2, a + 1, written + text, whole) && |written + text| <= |whole|
  {
    assert fmt[p..][2..] == fmt[p + 2..] && args[a..][0] == args[a] && args[a..][1..] == args[a + 1..];
    var text, rest := Converted(fmt[p + 1], args[a]), Format(fmt[p + 2..], args[a + 1..]);
    assert (written + text) + rest == written + (text + rest);
  }

  lemma NothingRemains(fmt: string, args: seq<Arg>, a: nat, written: string, whole: string)
    requires Remaining(fmt, args, |fmt|, a, written, whole)
    ensures written == whole
  {
    assert fmt[|fmt|..] == "";
  }

  // What each conversion prints, in terms of the argument.

  /** The alphabets are the usual digits, so reading a numeral back is reading it as everyone does. */
  lemma UsualDigits(i: nat)
    requires i < 16
    ensures |DECIMAL| == 10 && |LOWER| == 16 && |UPPER| == 16
    ensures i < 10 ==> DECIMAL[i] as int == '0' as int + i && LOWER[i] == DECIMAL[i] && UPPER[i] == DECIMAL[i]
    ensures i >= 10 ==> LOWER[i] as int == 'a' as int + i - 10 && UPPER[i] as int == 'A' as int + i - 10
  {
  }

  /** %x prints a numeral that reads back as the argument, in lower case. */
  lemma {:induction false} HexReadsBack(n: nat)
    ensures Takes('x') == 2 && IsNumeral(Converted('x', Number(n)), LOWER) && Value(Converted('x', Number(n)), LOWER) == n
    ensures Converted('x', Number(n))[0] == '0' <==> n == 0
  {
    Alphabets();
    NumeralRoundTrip(n, LOWER);
  }

  /** %X the same, in upper case. */
  lemma {:induction false} UpperHexReadsBack(n: nat)
    ensures Takes('X') == 2 && IsNumeral(Converted('X', Number(n)), UPPER) && Value(Converted('X', Number(n)), UPPER) == n
    ensures Converted('X', Number(n))[0] == '0' <==> n == 0
  {
    Alphabets();
    NumeralRoundTrip(n, UPPER);
  }

  /** %s prints the string and %c the low byte of the argument. */
  lemma TextsAsGiven(text: string, n: nat)
    ensures Takes('s') == 1 && Converted('s', Text(text)) == text
    ensures Takes('c') == 2 && |Converted('c', Number(n))| == 1 && Converted('c', Number(n))[0] as int == n % 256
  {
  }

  /** Decimal digits, perhaps after a minus sign. */
  ghost predicate IsSignedNumeral(text: string) {
    text != "" && IsNumeral(if text[0] == '-' then text[1..] else text, DECIMAL)
  }

  /** The number a signed decimal text stands for. */
  ghost function SignedValue(text: string): int
    requires IsSignedNumeral(text)
  {
    if text[0] == '-' then -(Value(text[1..], DECIMAL) as int) else Value(text, DECIMAL)
  }

  /** The signed value is the argument's low bits, read as two's complement: in range, and a multiple of the modulus away. */
  lemma SignedMeaning(n: nat, half: int) returns (q: int)
    requires half > 0
    ensures -half <= Signed(n, 2 * half) < half && n == q * (2 * half) + Signed(n, 2 * half)
  {
    var low := n % (2 * half);
    q := n / (2 * half);
    assert n == q * (2 * half) + low;
    if low >= half {
      assert (q + 1) * (2 * half) == q * (2 * half) + 2 * half;
      q := q + 1;
    }
  }

  lemma {:induction false} SignedTextReadsBack(v: int, m: nat, text: string)
    requires IsAlphabet(DECIMAL)
    requires text == if v < 0 then "-" + Numeral(m, DECIMAL) else Numeral(m, DECIMAL)
    ensures IsSignedNumeral(text) && SignedValue(text) == if v < 0 then -(m as int) else m
  {
    NumeralRoundTrip(m, DECIMAL);
    if v < 0 {
      assert text[1..] == Numeral(m, DECIMAL);
    } else {
      assert text[0] in DECIMAL;
    }
  }

  /** %d prints the signed value of the low 32 bits, exactly unless it is the most negative one. */
  lemma {:induction false} DecimalReadsBackIff(n: nat)
    ensures Takes('d') == 2 && IsSignedNumeral(Converted('d', Number(n)))
    ensures SignedValue(Converted('d', Number(n))) == Signed(n, TWO_32) <==> Signed(n, TWO_32) != -0x8000_0000
  {
    Alphabets();
    var v := Signed(n, TWO_32);
    if v < 0 {
      MostNegative(v);
      SignedTextReadsBack(v, Negated(v, TWO_32), SignedText(n, TWO_32));
    } else {
      SignedTextReadsBack(v, v, SignedText(n, TWO_32));
    }
  }

  /** %q prints the signed value of the whole word, always. */
  lemma {:induction false} QuadReadsBack(n: nat)
    ensures Takes('q') == 2 && IsSignedNumeral(Converted('q', Number(n)))
    ensures SignedValue(Converted('q', Number(n))) == Signed(n, TWO_64)
  {
    Alphabets();
    var v := Signed(n, TWO_64);
    if v < 0 {
      NegatedQuad(v);
      SignedTextReadsBack(v, Negated(v, TWO_64), SignedText(n, TWO_64));
    } else {
      SignedTextReadsBack(v, v, SignedText(n, TWO_64));
    }
  }

  // How a format is put together from its pieces.

  /** A format that starts with an ordinary character prints it and goes on. */
  lemma {:induction false} LiteralPrints(c: char, fmt: string, args: seq<Arg>)
    requires c != '%' && c != '\0' && Proper(fmt, args)
    ensures Proper([c] + fmt, args) && Format([c] + fmt, args) == [c] + Format(fmt, args)
  {
    assert ([c] + fmt)[1..] == fmt;
  }

  /** A conversion prints its argument and goes on with the next. */
  lemma {:induction false} ConversionPrints(c: char, arg: Arg, fmt: string, args: seq<Arg>)
    requires Proper(fmt, args) && Takes(c) != 0 && (if c == 's' then arg.Text? && NoNul(arg.s) else arg.Number? && arg.n < TWO_64)
    ensures Proper(['%', c] + fmt, [arg] + args)
    ensures Format(['%', c] + fmt, [arg] + args) == Converted(c, arg) + Format(fmt, args)
  {
    assert (['%', c] + fmt)[2..] == fmt && ([arg] + args)[1..] == args;
  }

  /** An unknown conversion prints nothing and takes no argument. */
  lemma {:induction false} UnknownPrintsNothing(c: char, fmt: string, args: seq<Arg>)
    requires c !in "scdqxX" && c != '\0' && Proper(fmt, args)
    ensures Proper(['%', c] + fmt, args) && Format(['%', c] + fmt, args) == Format(fmt, args)
  {
    assert (['%', c] + fmt)[2..] == fmt;
  }
}
