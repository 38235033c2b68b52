/** The two formatters, lib64/string.c into a buffer and lib64/printk.c onto the serial line. */
module Printing {
  import opened Formatting

  const DEFAULT_RESOLVE_STACK: nat := 128

  function Reversed(s: string): (r: string)
    ensures |r| == |s|
  {
    if s == "" then "" else Reversed(s[1..]) + [s[0]]
  }

  lemma {:induction false} ReversedSnoc(s: string, c: char)
    ensures Reversed(s + [c]) == [c] + Reversed(s)
  {
    if s != "" {
      assert (s + [c])[1..] == s[1..] + [c];
      ReversedSnoc(s[1..], c);
    } else {
      assert s + [c] == [c] && [c][1..] == "";
    }
  }

  /**
  The digit-stack loop that all four resolve functions share. `digits` bounds the digits of any
  64-bit number, so the guard on the stack never cuts one short.
  */
  method StackDigits(qword: nat, a: string, ghost digits: nat) returns (stack: array<char>, top: nat)
    requires IsAlphabet(a) && qword < Power(|a|, digits) && 0 < digits <= 20
    ensures fresh(stack) && top <= digits < stack.Length
    ensures Reversed(stack[..top]) == Numeral(qword, a)
  {
    stack := new char[DEFAULT_RESOLVE_STACK];
    top := 0;
    var q: nat := qword;
    assert stack[..0] == "";
    while q != 0 && top < DEFAULT_RESOLVE_STACK
      invariant top <= digits && Stacked(qword, a, digits, q, stack[..top])
      decreases q
    {
      StackStep(qword, a, digits, q, stack[..top]);
      ghost var below := stack[..top];
      stack[top] := LowDigit(q, a);
      assert stack[..top + 1] == below + [LowDigit(q, a)];
      top := top + 1;
      q := HighPart(q, a);
    }
    if top == 0 {
      stack[top] := '0';
      top := top + 1;
      assert stack[..1] == "" + ['0'];
      ReversedSnoc("", '0');
    }
  }

  /** The digits still in q, then those on the stack, are the digits of qword; the rest will fit. */
  ghost predicate Stacked(qword: nat, a: string, digits: nat, q: nat, stack: string)
    requires IsAlphabet(a)
  {
    && |stack| <= digits && q < Power(|a|, digits - |stack|)
    && Digits(q, a) + Reversed(stack) == Digits(qword, a)
    && (stack == "" ==> q == qword)
  }

  lemma {:induction false} StackStep(qword: nat, a: string, digits: nat, q: nat, stack: string)
    requires IsAlphabet(a) && q > 0 && Stacked(qword, a, digits, q, stack)
    ensures Stacked(qword, a, digits, HighPart(q, a), stack + [LowDigit(q, a)])
  {
    QuotientBound(q, |a|, Power(|a|, digits - |stack| - 1));
    ReversedSnoc(stack, LowDigit(q, a));
  }

  /** The digits every 64-bit number of an alphabet fits in. */
  lemma WordFits(qword: nat, a: string)
    requires a == DECIMAL || a == LOWER || a == UPPER
    requires qword < TWO_64
    ensures IsAlphabet(a) && qword < Power(|a|, if a == DECIMAL then 20 else 16)
  {
    Alphabets();
    WordPowers();
  }

  lemma {:induction false} ReversedTop(s: string)
    requires s != ""
    ensures Reversed(s) == [s[|s| - 1]] + Reversed(s[..|s| - 1])
  {
    var below, top := s[..|s| - 1], s[|s| - 1];
    ReversedSnoc(below, top);
    assert s == below + [top];
  }

  // lib64/string.c

  /** resolve_decimal and resolve_hexadecimal: append a numeral to the buffer. */
  method ResolveToBuffer(buff: array<char>, iptr: nat, qword: nat, a: string) returns (end: nat)
    requires (a == DECIMAL || a == LOWER || a == UPPER) && IsAlphabet(a) && qword < TWO_64
    requires iptr + |Numeral(qword, a)| <= buff.Length
    modifies buff
    ensures end == iptr + |Numeral(qword, a)|
    ensures buff[..end] == old(buff[..iptr]) + Numeral(qword, a) && buff[end..] == old(buff[end..])
  {
    WordFits(qword, a);
    var stack, top := StackDigits(qword, a, if a == DECIMAL then 20 else 16);
    end := PopToBuffer(buff, iptr, stack, top);
  }

  method PopToBuffer(buff: array<char>, iptr: nat, stack: array<char>, count: nat) returns (end: nat)
    requires count <= stack.Length && iptr + count <= buff.Length && buff != stack
    modifies buff
    ensures end == iptr + count
    ensures buff[..end] == old(buff[..iptr]) + Reversed(stack[..count]) && buff[end..] == old(buff[end..])
  {
    ghost var s := stack[..count];
    end := iptr;
    var top: nat := count;
    assert s[..count] == s;
    while top > 0
      invariant top <= count && end == iptr + count - top && s == stack[..count]
      invariant buff[..end] + Reversed(s[..top]) == old(buff[..iptr]) + Reversed(s)
      invariant buff[end..] == old(buff[end..])
    {
      ReversedTop(s[..top]);
      assert s[..top][..top - 1] == s[..top - 1];
      ghost var written := buff[..end];
      top := top - 1;
      buff[end] := stack[top];
      assert buff[..end + 1] == written + [s[top]];
      end := end + 1;
    }
  }

  /** Append a string argument or a single character. */
  method CopyToBuffer(buff: array<char>, iptr: nat, text: string) returns (end: nat)
    requires iptr + |text| <= buff.Length
    modifies buff
    ensures end == iptr + |text|
    ensures buff[..end] == old(buff[..iptr]) + text && buff[end..] == old(buff[end..])
  {
    end := iptr;
    var i := 0;
    while i < |text|
      invariant i <= |text| && end == iptr + i
      invariant buff[..end] == old(buff[..iptr]) + text[..i] && buff[end..] == old(buff[end..])
    {
      ghost var written := buff[..end];
      buff[end] := text[i];
      assert buff[..end + 1] == written + [text[i]];
      end, i := end + 1, i + 1;
    }
  }

  method PutChar(buff: array<char>, iptr: nat, c: char)
    requires iptr < buff.Length
    modifies buff
    ensures buff[..iptr + 1] == old(buff[..iptr]) + [c] && buff[iptr + 1..] == old(buff[iptr + 1..])
  {
    buff[iptr] := c;
  }

  /** A signed conversion of sprintf_raw: the minus sign, then the negated value. */
  method SignedToBuffer(buff: array<char>, iptr: nat, n: nat, modulus: nat) returns (end: nat)
    requires 0 < modulus <= TWO_64 && iptr + |SignedText(n, modulus)| <= buff.Length
    modifies buff
    ensures end == iptr + |SignedText(n, modulus)|
    ensures buff[..end] == old(buff[..iptr]) + SignedText(n, modulus) && buff[end..] == old(buff[end..])
  {
    Alphabets();
    var v := Signed(n, modulus);
    if v < 0 {
      PutChar(buff, iptr, '-');
      end := ResolveToBuffer(buff, iptr + 1, Negated(v, modulus), DECIMAL);
    } else {
      end := ResolveToBuffer(buff, iptr, v, DECIMAL);
    }
  }

  /** One conversion of sprintf_raw. */
  method ConvertToBuffer(buff: array<char>, iptr: nat, c: char, arg: Arg) returns (end: nat)
    requires Takes(c) != 0 && (if Takes(c) == 1 then arg.Text? else arg.Number? && arg.n < TWO_64)
    requires iptr + |Converted(c, arg)| <= buff.Length
    modifies buff
    ensures end == iptr + |Converted(c, arg)|
    ensures buff[..end] == old(buff[..iptr]) + Converted(c, arg) && buff[end..] == old(buff[end..])
  {
    Alphabets();
    match c {
      case 's' => end := CopyToBuffer(buff, iptr, arg.s);
      case 'c' => end := CopyToBuffer(buff, iptr, [(arg.n % 256) as char]);
      case 'd' => end := SignedToBuffer(buff, iptr, arg.n, TWO_32);
      case 'q' => end := SignedToBuffer(buff, iptr, arg.n, TWO_64);
      case 'x' => end := ResolveToBuffer(buff, iptr, arg.n, LOWER);
      case _ => end := ResolveToBuffer(buff, iptr, arg.n, UPPER);
    }
  }

  /** sprintf_raw: the formatted text and a terminating NUL. */
  method Sprintf(buff: array<char>, fmt: string, args: seq<Arg>)
    requires Proper(fmt, args) && |Format(fmt, args)| < buff.Length
    modifies buff
    ensures var n := |Format(fmt, args)|;
            buff[..n] == Format(fmt, args) && buff[n] == '\0' && buff[n + 1..] == old(buff[n + 1..])
  {
    var p: nat, a: nat, iptr: nat := 0, 0, 0;
    ghost var whole, first := Format(fmt, args), buff[..];
    assert fmt[0..] == fmt && args[0..] == args && buff[..0] == "";
    while p < |fmt|
      invariant iptr <= |whole| && Remaining(fmt, args, p, a, buff[..iptr], whole)
      invariant SameFrom(first, buff[..], |whole|)
      decreases |fmt| - p
    {
      ghost var before := buff[..];
      if fmt[p] != '%' {
        LiteralNext(fmt, args, p, a, buff[..iptr], whole);
        PutChar(buff, iptr, fmt[p]);
        iptr, p := iptr + 1, p + 1;
      } else {
        UnknownNext(fmt, args, p, a, buff[..iptr], whole);
        if Takes(fmt[p + 1]) != 0 {
          ConversionNext(fmt, args, p, a, buff[..iptr], whole);
          iptr := ConvertToBuffer(buff, iptr, fmt[p + 1], args[a]);
          a := a + 1;
        }
        p := p + 2;
      }
      TailStays(first, before, buff[..], |whole|, iptr, |whole|);
    }
    NothingRemains(fmt, args, a, buff[..iptr], whole);
    ghost var before := buff[..];
    PutChar(buff, iptr, '\0');
    assert buff[..iptr] == buff[..iptr + 1][..iptr] && buff[iptr] == buff[..iptr + 1][iptr];
    TailStays(first, before, buff[..], iptr, iptr + 1, iptr + 1);
  }

  /** Two buffers agree from an index on. */
  ghost predicate SameFrom(s: string, t: string, n: nat) {
    n <= |s| == |t| && s[n..] == t[n..]
  }

  /** A change below `end` leaves what lies from `n` on. */
  lemma TailStays(first: string, before: string, after: string, k: nat, end: nat, n: nat)
    requires SameFrom(first, before, k) && SameFrom(before, after, end) && k <= n && end <= n <= |first|
    ensures SameFrom(first, after, n)
  {
    assert first[n..] == first[k..][n - k..] && before[n..] == before[k..][n - k..];
    assert before[n..] == before[end..][n - end..] && after[n..] == after[end..][n - end..];
  }

  // lib64/printk.c

  class SerialLine {
    var sent: string

    constructor ()
      ensures sent == ""
    {
      sent := "";
    }

    /** write_serial */
    method Write(c: char)
      modifies this
      ensures sent == old(sent) + [c]
    {
      sent := sent + [c];
    }

    /** resolve_qword and resolve_hex_qword */
    method Resolve(qword: nat, a: string)
      requires (a == DECIMAL || a == LOWER || a == UPPER) && IsAlphabet(a) && qword < TWO_64
      modifies this
      ensures sent == old(sent) + Numeral(qword, a)
    {
      WordFits(qword, a);
      var stack, top := StackDigits(qword, a, if a == DECIMAL then 20 else 16);
      Pop(stack, top);
    }

    method Pop(stack: array<char>, count: nat)
      requires count <= stack.Length
      modifies this
      ensures sent == old(sent) + Reversed(stack[..count])
    {
      ghost var s := stack[..count];
      var top: nat := count;
      assert s[..count] == s;
      while top > 0
        invariant top <= count && sent + Reversed(s[..top]) == old(sent) + Reversed(s)
      {
        ReversedTop(s[..top]);
        assert s[..top][..top - 1] == s[..top - 1];
        top := top - 1;
        Write(stack[top]);
      }
    }

    method WriteText(text: string)
      modifies this
      ensures sent == old(sent) + text
    {
      var i := 0;
      while i < |text|
        invariant i <= |text| && sent == old(sent) + text[..i]
      {
        Write(text[i]);
        i := i + 1;
      }
    }

    method WriteSigned(n: nat, modulus: nat)
      requires 0 < modulus <= TWO_64
      modifies this
      ensures sent == old(sent) + SignedText(n, modulus)
    {
      Alphabets();
      var v := Signed(n, modulus);
      if v < 0 {
        Write('-');
        Resolve(Negated(v, modulus), DECIMAL);
      } else {
        Resolve(v, DECIMAL);
      }
    }

    method Convert(c: char, arg: Arg)
      requires Takes(c) != 0 && (if Takes(c) == 1 then arg.Text? else arg.Number? && arg.n < TWO_64)
      modifies this
      ensures sent == old(sent) + Converted(c, arg)
    {
      Alphabets();
      match c {
        case 's' => WriteText(arg.s);
        case 'c' => Write((arg.n % 256) as char);
        case 'd' => WriteSigned(arg.n, TWO_32);
        case 'q' => WriteSigned(arg.n, TWO_64);
        case 'x' => Resolve(arg.n, LOWER);
        case _ => Resolve(arg.n, UPPER);
      }
    }

    /** printk_mp_raw: the same text as sprintf_raw, byte by byte onto the line. */
    method Printk(fmt: string, args: seq<Arg>)
      requires Proper(fmt, args)
      modifies this
      ensures sent == old(sent) + Format(fmt, args)
    {
      var p: nat, a: nat := 0, 0;
      ghost var whole := sent + Format(fmt, args);
      assert fmt[0..] == fmt && args[0..] == args;
      while p < |fmt|
        invariant Remaining(fmt, args, p, a, sent, whole)
        decreases |fmt| - p
      {
        if fmt[p] != '%' {
          LiteralNext(fmt, args, p, a, sent, whole);
          Write(fmt[p]);
          p := p + 1;
        } else {
          UnknownNext(fmt, args, p, a, sent, whole);
          if Takes(fmt[p + 1]) != 0 {
            ConversionNext(fmt, args, p, a, sent, whole);
            Convert(fmt[p + 1], args[a]);
            a := a + 1;
          }
          p := p + 2;
        }
      }
      NothingRemains(fmt, args, a, sent, whole);
    }
  }
}
