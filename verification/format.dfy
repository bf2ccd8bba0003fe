/** The text that src/stdlib/format.c would print with unlimited room. */
module FormatSpec {
  import opened Words

  /** Arguments as the caller passes them; `Str(None)` is a null pointer. */
  datatype Arg = Chr(c: char) | Str(s: Text) | Int(n: int32) | Uint(u: uint32)
  datatype Text = Null | Text(chars: seq<char>)

  datatype Directive = Directive(left: bool, zero: bool, width: int, kind: char, next: nat)

  predicate IsDigit(c: char) { '0' <= c <= '9' }

  /** The character at `i`, with the terminator behind the last one. */
  function At(s: seq<char>, i: nat): char {
    if i < |s| then s[i] else '\0'
  }

  /** The number read so far is `acc`: its final value and where it ends. */
  function Width(fmt: seq<char>, i: nat, acc: nat): (nat, nat)
    decreases |fmt| - i
  {
    if i < |fmt| && IsDigit(fmt[i]) then Width(fmt, i + 1, 10 * acc + (fmt[i] as int - '0' as int)) else (acc, i)
  }

  /** The directive whose first character behind the percent sign is at `i`; a missing width is -1. */
  function Parse(fmt: seq<char>, i: nat): Directive {
    var c := At(fmt, i);
    var left, zero := c == '-', c == '0';
    var j := if left || zero then i + 1 else i;
    var (w, k) := Width(fmt, j, 0);
    Directive(left, zero, if k > j then w else -1, At(fmt, k), k + 1)
  }

  lemma {:induction false} WidthAdvances(fmt: seq<char>, i: nat, acc: nat)
    requires i <= |fmt|
    ensures i <= Width(fmt, i, acc).1 <= |fmt|
    decreases |fmt| - i
  {
    if i < |fmt| && IsDigit(fmt[i]) {
      WidthAdvances(fmt, i + 1, 10 * acc + (fmt[i] as int - '0' as int));
    }
  }

  predicate TakesArg(kind: char) {
    kind in "csduxXp"
  }

  predicate Fits(kind: char, a: Arg) {
    match kind
    case 'c' => a.Chr?
    case 's' => a.Str?
    case 'd' => a.Int?
    case _ => a.Uint?
  }

  /** Every directive is complete, its width is an `int`, and the arguments have the types asked for. */
  predicate WellFormed(fmt: seq<char>, i: nat, args: seq<Arg>)
    decreases |fmt| - i
  {
    if i >= |fmt| then true
    else if fmt[i] != '%' then WellFormed(fmt, i + 1, args)
    else
      var d := Parse(fmt, i + 1);
      i < d.next <= |fmt| && d.width < TWO_31 &&
      if TakesArg(d.kind) then args != [] && Fits(d.kind, args[0]) && WellFormed(fmt, d.next, args[1..])
      else WellFormed(fmt, d.next, args)
  }

  // ---------- numerals ----------

  function Digit(d: nat, upper: bool): char
    requires d < 16
  {
    (if upper then "0123456789ABCDEF" else "0123456789abcdef")[d]
  }

  /** All digits of `n` but the last, and the last. */
  function Front(n: nat, base: nat): (q: nat)
    requires 2 <= base <= 16
    ensures q <= n && (n > 0 ==> q < n)
  {
    n / base
  }

  function Last(n: nat, base: nat): (d: nat)
    requires 2 <= base <= 16
    ensures d < 16
  {
    n % base
  }

  function Numeral(n: nat, base: nat, upper: bool): (r: seq<char>)
    requires 2 <= base <= 16
    ensures |r| > 0
  {
    if n < base then [Digit(n, upper)] else Numeral(Front(n, base), base, upper) + [Digit(Last(n, base), upper)]
  }

  function Power(base: nat, k: nat): nat {
    if k == 0 then 1 else base * Power(base, k - 1)
  }

  lemma Cancel(base: nat, q: nat, m: nat)
    requires base > 0 && base * q < base * m
    ensures q < m
  {}

  lemma DivLess(n: nat, base: nat, m: nat)
    requires base > 0 && n < base * m
    ensures n / base < m
  {
    Cancel(base, n / base, m);
  }

  lemma {:induction false} NumeralLength(n: nat, base: nat, upper: bool, k: nat)
    requires 2 <= base <= 16 && 0 < k && n < Power(base, k)
    ensures |Numeral(n, base, upper)| <= k
    decreases k
  {
    if n >= base && k > 1 {
      DivLess(n, base, Power(base, k - 1));
      NumeralLength(n / base, base, upper, k - 1);
    }
  }

  /** The magnitude a signed argument is printed with. */
  function Magnitude(n: int32): nat {
    var m: int := n;
    if m < 0 then -m else m
  }

  // ---------- padding ----------

  function Repeat(c: char, n: int): (r: seq<char>)
    ensures |r| == if n < 0 then 0 else n
  {
    if n <= 0 then [] else Repeat(c, n - 1) + [c]
  }

  /** `s` in a field of at least `width` characters. */
  function Field(s: seq<char>, zero: bool, left: bool, width: int): seq<char> {
    var pad := Repeat(if zero then '0' else ' ', width - |s|);
    if left then s + pad else pad + s
  }

  function Padded(s: seq<char>, d: Directive): seq<char> {
    Field(s, d.zero, d.left, d.width)
  }

  /** What one directive prints; an unknown one prints nothing. */
  function Print(d: Directive, args: seq<Arg>): seq<char>
    requires TakesArg(d.kind) ==> args != [] && Fits(d.kind, args[0])
  {
    match d.kind
    case '%' => "%"
    case 'c' => [args[0].c]
    case 's' => Padded(if args[0].s.Null? then "(null)" else args[0].s.chars, d)
    case 'd' =>
      (if args[0].n < 0 then "-" else "") + Padded(Numeral(Magnitude(args[0].n), 10, false), d)
    case 'u' => Padded(Numeral(args[0].u, 10, false), d)
    case 'x' => Padded(Numeral(args[0].u, 16, false), d)
    case 'X' => Padded(Numeral(args[0].u, 16, true), d)
    case 'p' => "0x" + Padded(Numeral(args[0].u, 16, false), d)
    case _ => ""
  }

  function Expand(fmt: seq<char>, i: nat, args: seq<Arg>): seq<char>
    requires WellFormed(fmt, i, args)
    decreases |fmt| - i
  {
    if i >= |fmt| then []
    else if fmt[i] != '%' then [fmt[i]] + Expand(fmt, i + 1, args)
    else
      var d := Parse(fmt, i + 1);
      Print(d, args) + Expand(fmt, d.next, if TakesArg(d.kind) then args[1..] else args)
  }

  /** A field has the larger of its width and its content; the sign of %d and the 0x of %p are not counted. */
  lemma FieldLength(d: Directive, args: seq<Arg>)
    requires d.kind in "suxXdp" && args != [] && Fits(d.kind, args[0])
    ensures var content := match d.kind
        case 's' => |if args[0].s.Null? then "(null)" else args[0].s.chars|
        case 'd' => |Numeral(Magnitude(args[0].n), 10, false)|
        case 'u' => |Numeral(args[0].u, 10, false)|
        case _ => |Numeral(args[0].u, 16, d.kind == 'X')|;
      |Print(d, args)| == (if d.width > content then d.width else content) +
                           (if d.kind == 'd' && args[0].n < 0 then 1 else if d.kind == 'p' then 2 else 0)
  {}
}

/** The formatter itself: a cursor that stops at the end of the buffer. */
module Format {
  import opened Words
  import opened FormatSpec

  /** `_outs` pads on one side; padding a second time by a negative width adds nothing. */
  lemma FieldIs(text: seq<char>, s: seq<char>, zero: bool, left: bool, width: int)
    ensures var pad := Repeat(if zero then '0' else ' ', width);
      text + Field(s, zero, left, width + |s|) == if left then text + s + pad else text + pad + s
  {}

  /** `text` and the first `i` characters of `s`. */
  ghost function Printed(text: seq<char>, s: seq<char>, i: nat): seq<char>
    requires i <= |s|
  {
    text + s[..i]
  }

  lemma NextChar(text: seq<char>, s: seq<char>, i: nat)
    requires i <= |s|
    ensures Printed(text, s, 0) == text && Printed(text, s, |s|) == text + s
    ensures i < |s| ==> Printed(text, s, i + 1) == Printed(text, s, i) + [s[i]]
  {
    assert s[..|s|] == s;
  }

  lemma RepeatNone(c: char, n: int)
    requires n <= 0
    ensures Repeat(c, n) == []
  {}

  lemma Regroup(a: seq<char>, b: seq<char>, c: seq<char>)
    ensures a + (b + c) == a + b + c
  {}

  /** `formatter_t`; `text` is everything printed so far, stored or not. */
  class Formatter {
    const buf: array<char>
    const str: nat
    const end: int
    var p: nat
    var padZero: bool
    var padLeft: bool
    var width: int
    ghost var text: seq<char>
    ghost const before: seq<char>

    /** How many of `n` characters fit in front of the terminator. */
    ghost function Stored(n: nat): nat {
      if end < str then 0 else if n <= end - str then n else end - str
    }

    ghost predicate Valid()
      reads this`p, this`text, buf
    {
      && str - 1 <= end < buf.Length && |before| == buf.Length
      && str <= p <= buf.Length && p - str == Stored(|text|)
      && buf[str..p] == text[..p - str]
      && (forall i :: 0 <= i < buf.Length && !(str <= i < p) ==> buf[i] == before[i])
    }

    constructor (buf: array<char>, str: nat, size: nat)
      requires str + size <= buf.Length
      ensures Valid() && text == [] && before == buf[..]
      ensures this.buf == buf && this.str == str && this.end == str + size - 1
    {
      this.buf, this.str, this.end, this.p := buf, str, str + size - 1, str;
      padZero, padLeft, width := false, false, -1;
      text, before := [], buf[..];
    }

    /** `_outc`. */
    method OutC(c: char)
      requires Valid()
      modifies this`p, this`text, buf
      ensures Valid() && text == old(text) + [c]
    {
      if p < end {
        buf[p] := c;
        p := p + 1;
      }
      text := text + [c];
    }

    /** The loop `while (--width >= 0) _outc(f, padchar)`. */
    method Pad(c: char, n: int) returns (left: int)
      requires Valid()
      modifies this`p, this`text, buf
      ensures Valid() && text == old(text) + Repeat(c, n) && left < 0
    {
      left := n - 1;
      while left >= 0
        invariant Valid() && left <= n - 1
        invariant text == old(text) + Repeat(c, if left >= 0 then n - 1 - left else n)
        invariant left < 0 ==> n <= 0 || left == -1
        decreases left + 1
      {
        OutC(c);
        left := left - 1;
      }
    }

    /** `_outs`: the field width has already been reduced by the length of `s`. */
    method OutS(s: seq<char>)
      requires Valid()
      modifies this`p, this`text, buf
      ensures Valid()
      ensures text == old(text) + Field(s, padZero, padLeft, width + |s|)
    {
      hide Valid, Repeat, Field, Printed;
      ghost var t0 := text;
      var w := width;
      var padchar := if padZero then '0' else ' ';
      if !padLeft {
        w := Pad(padchar, w);
        RepeatNone(padchar, w);
      }
      ghost var t := text;
      var i := 0;
      NextChar(t, s, 0);
      while i < |s|
        invariant Valid() && i <= |s| && text == Printed(t, s, i)
      {
        NextChar(t, s, i);
        OutC(s[i]);
        i := i + 1;
      }
      assert t + s == text by { NextChar(t, s, |s|); }
      assert text + [] == text;
      w := Pad(padchar, w);
      FieldIs(t0, s, padZero, padLeft, width);
    }

    static lemma TenDigits(n: uint32, base: nat, upper: bool)
      requires base == 10 || base == 16
      ensures |Numeral(n, base, upper)| <= 10
    {
      assert Power(10, 5) == 100000 && Power(10, 10) == 10000000000 by {
        assert Power(10, 2) == 100;
        assert Power(10, 4) == 10000;
        assert Power(10, 6) == 1000000;
        assert Power(10, 8) == 100000000;
      }
      assert Power(16, 8) == TWO_32 by {
        assert Power(16, 2) == 0x100;
        assert Power(16, 4) == 0x1_0000;
        assert Power(16, 6) == 0x100_0000;
      }
      NumeralLength(n, base, upper, if base == 10 then 10 else 8);
    }

    /** The numeral without what the loop has already written behind it. */
    static function Unwritten(n: nat, base: nat, upper: bool): seq<char>
      requires 2 <= base <= 16
    {
      if n > 0 then Numeral(n, base, upper) else []
    }

    static lemma Divided(n: nat, base: nat)
      requires 2 <= base <= 16
      ensures n == base * Front(n, base) + Last(n, base) && Last(n, base) < base
    {}

    static lemma AtLeastOnce(base: nat, q: nat)
      requires q > 0
      ensures base * q >= base
    {
      assert base * q == base + base * (q - 1);
    }

    static lemma SmallNumeral(n: nat, base: nat)
      requires 2 <= base <= 16
      ensures n < base <==> Front(n, base) == 0
      ensures n < base ==> Last(n, base) == n
    {
      Divided(n, base);
      var q, r := Front(n, base), Last(n, base);
      hide Front, Last;
      if q == 0 {
        assert base * q == 0;
      } else {
        AtLeastOnce(base, q);
      }
    }

    static lemma SplitLast(n: nat, base: nat, upper: bool)
      requires 2 <= base <= 16
      ensures Numeral(n, base, upper) == Unwritten(Front(n, base), base, upper) + [Digit(Last(n, base), upper)]
    {
      hide Digit;
      assert [] + [Digit(Last(n, base), upper)] == [Digit(Last(n, base), upper)];
      SmallNumeral(n, base);
    }

    static lemma LastDigit(n: nat, base: nat, upper: bool, written: seq<char>)
      requires 2 <= base <= 16
      ensures Numeral(n, base, upper) + written ==
              Unwritten(Front(n, base), base, upper) + ([Digit(Last(n, base), upper)] + written)
    {
      SplitLast(n, base, upper);
      hide Numeral, Unwritten, Digit, Front, Last;
      Regroup(Unwritten(Front(n, base), base, upper), [Digit(Last(n, base), upper)], written);
    }

    /** The loop of `_outdec` and, with another base, of `_outhex`. */
    static method Digits(n: uint32, base: nat, upper: bool) returns (digits: seq<char>)
      requires base == 10 || base == 16
      ensures digits == Numeral(n, base, upper)
    {
      hide Digit, Numeral, Front, Last;
      var scratch := new char[32];
      var s, rest: nat := 31, n;
      TenDigits(n, base, upper);
      LastDigit(rest, base, upper, []);
      assert Numeral(n, base, upper) + [] == Numeral(n, base, upper);
      scratch[31] := '\0';
      s := s - 1;
      scratch[s] := Digit(Last(rest, base), upper);
      rest := Front(rest, base);
      ghost var written := [scratch[s]] + [];
      while rest > 0
        invariant s + |written| == 31 && scratch[s..31] == written
        invariant Numeral(n, base, upper) == Unwritten(rest, base, upper) + written
        decreases rest
      {
        LastDigit(rest, base, upper, written);
        s := s - 1;
        scratch[s] := Digit(Last(rest, base), upper);
        written := [scratch[s]] + written;
        rest := Front(rest, base);
      }
      digits := scratch[s..31];
    }

    /** `_outdec`: the digits are written backwards into a 32-character scratch buffer. */
    method OutDec(n: uint32)
      requires Valid()
      modifies this`p, this`text, this`width, buf
      ensures Valid()
      ensures text == old(text) + Field(Numeral(n, 10, false), padZero, padLeft, old(width))
    {
      var digits := Digits(n, 10, false);
      width := width - |digits|;
      OutS(digits);
    }

    /** `_outhex`. */
    method OutHex(upper: bool, n: uint32)
      requires Valid()
      modifies this`p, this`text, this`width, buf
      ensures Valid()
      ensures text == old(text) + Field(Numeral(n, 16, upper), padZero, padLeft, old(width))
    {
      var digits := Digits(n, 16, upper);
      width := width - |digits|;
      OutS(digits);
    }

    /** The end of `vsnprintf`: the terminator, and the number of characters stored. */
    method Terminate() returns (n: nat)
      requires Valid()
      modifies buf
      ensures n == Stored(|text|) && str + n <= buf.Length && buf[str..str + n] == text[..n]
      ensures str <= end + 1 && (str <= end ==> str + n <= end && buf[str + n] == '\0')
      ensures forall i :: 0 <= i < buf.Length && !(str <= i < str + (if str <= end then n + 1 else 0)) ==> buf[i] == before[i]
    {
      if p < end + 1 {
        buf[p] := '\0';
      }
      n := p - str;
    }
  }

  /** The parsing part of `vsnprintf`, from behind the percent sign. */
  method ParseDirective(fmt: seq<char>, start: nat) returns (d: Directive)
    requires start <= |fmt|
    ensures d == Parse(fmt, start)
  {
    var i := start;
    var c := At(fmt, i);
    var left, zero := false, false;
    if c == '-' {
      left := true;
      i := i + 1;
    } else if c == '0' {
      zero := true;
      i := i + 1;
    }
    var width := -1;
    if i < |fmt| && IsDigit(fmt[i]) {
      ghost var j := i;
      width := 0;
      WidthAdvances(fmt, i + 1, fmt[i] as int - '0' as int);
      while i < |fmt| && IsDigit(fmt[i])
        invariant j <= i <= |fmt| && 0 <= width
        invariant Width(fmt, j, 0) == Width(fmt, i, width)
        decreases |fmt| - i
      {
        width := 10 * width + (fmt[i] as int - '0' as int);
        i := i + 1;
      }
    }
    d := Directive(left, zero, width, At(fmt, i), i + 1);
  }

  predicate Loaded(f: Formatter, d: Directive)
    reads f
  {
    f.padLeft == d.left && f.padZero == d.zero && f.width == d.width
  }

  /** The case of %d: the sign goes in front of the padding. */
  method PrintSigned(f: Formatter, d: Directive, n: int32)
    requires f.Valid() && Loaded(f, d)
    modifies f, f.buf
    ensures f.Valid()
    ensures f.text == old(f.text) + ((if n < 0 then "-" else "") + Padded(Numeral(Magnitude(n), 10, false), d))
  {
    hide Formatter.Valid, Numeral, Field;
    if n < 0 {
      f.OutC('-');
    }
    f.OutDec(Magnitude(n));
    ghost var digits := Padded(Numeral(Magnitude(n), 10, false), d);
    assert old(f.text) + ['-'] + digits == old(f.text) + ("-" + digits);
    assert old(f.text) + digits == old(f.text) + ("" + digits);
  }

  /** The case of %p: 0x goes in front of the padding. */
  method PrintPointer(f: Formatter, d: Directive, u: uint32)
    requires f.Valid() && Loaded(f, d)
    modifies f, f.buf
    ensures f.Valid() && f.text == old(f.text) + ("0x" + Padded(Numeral(u, 16, false), d))
  {
    hide Formatter.Valid, Numeral, Field;
    f.OutC('0');
    f.OutC('x');
    f.OutHex(false, u);
    ghost var digits := Padded(Numeral(u, 16, false), d);
    assert old(f.text) + ['0'] + ['x'] + digits == old(f.text) + ("0x" + digits);
  }

  /** A width that is not positive pads nothing, whether or not the length is subtracted from it. */
  lemma NoPadding(s: seq<char>, zero: bool, left: bool, width: int)
    ensures width <= 0 ==> Field(s, zero, left, width) == s && Field(s, zero, left, width + |s|) == s
  {
    if width <= 0 {
      assert Repeat(if zero then '0' else ' ', width - |s|) == [];
      assert Repeat(if zero then '0' else ' ', width) == [];
      assert s + [] == s && [] + s == s;
    }
  }

  /** The switch of `vsnprintf`. */
  method PrintDirective(f: Formatter, d: Directive, args: seq<Arg>)
    requires f.Valid() && (TakesArg(d.kind) ==> args != [] && Fits(d.kind, args[0]))
    modifies f, f.buf
    ensures f.Valid() && f.text == old(f.text) + Print(d, args)
  {
    hide Formatter.Valid, Numeral, Repeat, Field;
    ghost var before := f.text;
    f.padLeft, f.padZero, f.width := d.left, d.zero, d.width;
    if d.kind == '%' {
      f.OutC('%');
    } else if d.kind == 'c' {
      f.OutC(args[0].c);
    } else if d.kind == 's' {
      var s := if args[0].s.Null? then "(null)" else args[0].s.chars;
      if f.width > 0 {
        f.width := f.width - |s|;
      }
      f.OutS(s);
      NoPadding(s, d.zero, d.left, d.width);
    } else if d.kind == 'd' {
      PrintSigned(f, d, args[0].n);
    } else if d.kind == 'u' {
      f.OutDec(args[0].u);
    } else if d.kind == 'x' || d.kind == 'X' {
      f.OutHex(d.kind == 'X', args[0].u);
    } else if d.kind == 'p' {
      PrintPointer(f, d, args[0].u);
    } else {
      assert before + "" == before;
    }
  }

  lemma PlainStep(fmt: seq<char>, i: nat, args: seq<Arg>)
    requires i < |fmt| && fmt[i] != '%' && WellFormed(fmt, i, args)
    ensures WellFormed(fmt, i + 1, args) && Expand(fmt, i, args) == [fmt[i]] + Expand(fmt, i + 1, args)
  {}

  lemma DirectiveStep(fmt: seq<char>, i: nat, args: seq<Arg>, d: Directive, rest: seq<Arg>)
    requires i < |fmt| && fmt[i] == '%' && WellFormed(fmt, i, args) && d == Parse(fmt, i + 1)
    requires rest == if TakesArg(d.kind) && args != [] then args[1..] else args
    ensures i < d.next <= |fmt| && (TakesArg(d.kind) ==> args != [] && Fits(d.kind, args[0]))
    ensures WellFormed(fmt, d.next, rest) && Expand(fmt, i, args) == Print(d, args) + Expand(fmt, d.next, rest)
  {}

  lemma EndStep(fmt: seq<char>, args: seq<Arg>)
    ensures WellFormed(fmt, |fmt|, args) && Expand(fmt, |fmt|, args) == []
  {}

  /** Characters stored for a text of length `n` in a buffer of `size`. */
  function Kept(n: nat, size: nat): (r: nat)
    ensures if size == 0 then r == 0 else r <= n && r < size && (r == n || r + 1 == size)
  {
    if size == 0 then 0 else if n < size then n else size - 1
  }

  /**
   `vsnprintf`: exactly the first size - 1 characters of the unlimited text, a terminator if there
   is room for anything at all, nothing outside, and the number of characters stored.
   */
  method Vsnprintf(str: array<char>, at: nat, size: nat, fmt: seq<char>, args: seq<Arg>) returns (n: nat)
    requires at + size <= str.Length
    requires WellFormed(fmt, 0, args)
    modifies str
    ensures n == Kept(|Expand(fmt, 0, args)|, size)
    ensures str[at..at + n] == Expand(fmt, 0, args)[..n]
    ensures size > 0 ==> str[at + n] == '\0'
    ensures forall i :: 0 <= i < str.Length && !(at <= i < at + (if size > 0 then n + 1 else 0)) ==> str[i] == old(str[i])
  {
    hide Formatter.Valid, Parse, Print, WellFormed, Expand, Fits;
    var f := new Formatter(str, at, size);
    ghost var text := Expand(fmt, 0, args);
    var i := 0;
    var rest := args;
    while i < |fmt|
      invariant f.Valid() && f.buf == str && f.str == at && f.end == at + size - 1 && f.before == old(str[..]) && fresh(f)
      invariant i <= |fmt| && WellFormed(fmt, i, rest)
      invariant text == f.text + Expand(fmt, i, rest)
      decreases |fmt| - i
    {
      var c := fmt[i];
      if c != '%' {
        PlainStep(fmt, i, rest);
        Regroup(f.text, [c], Expand(fmt, i + 1, rest));
        f.OutC(c);
        i := i + 1;
      } else {
        var d := ParseDirective(fmt, i + 1);
        ghost var next := if TakesArg(d.kind) && rest != [] then rest[1..] else rest;
        DirectiveStep(fmt, i, rest, d, next);
        Regroup(f.text, Print(d, rest), Expand(fmt, d.next, next));
        PrintDirective(f, d, rest);
        if TakesArg(d.kind) {
          rest := rest[1..];
        }
        i := d.next;
      }
    }
    EndStep(fmt, rest);
    n := f.Terminate();
  }
}
