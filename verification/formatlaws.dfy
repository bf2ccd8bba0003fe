/** What the text printed by src/stdlib/format.c denotes, told from its characters alone. */
module FormatLaws {
  import opened Words
  import opened FormatSpec
  import Format

  // ---------- digits ----------

  /** The value of a hexadecimal digit in either case; 16 if `c` is none. */
  function HexValue(c: char): nat {
    if '0' <= c <= '9' then c as int - '0' as int
    else if 'a' <= c <= 'f' then c as int - 'a' as int + 10
    else if 'A' <= c <= 'F' then c as int - 'A' as int + 10
    else 16
  }

  /** A digit, or a letter of the right case. */
  predicate IsHexDigit(c: char, upper: bool) {
    '0' <= c <= '9' || (if upper then 'A' <= c <= 'F' else 'a' <= c <= 'f')
  }

  /** A text read as a number. */
  function ValueOf(text: seq<char>, base: nat): nat {
    if text == [] then 0 else base * ValueOf(text[..|text| - 1], base) + HexValue(text[|text| - 1])
  }

  lemma DigitDenotes(d: nat, upper: bool)
    requires d < 16
    ensures HexValue(Digit(d, upper)) == d && IsHexDigit(Digit(d, upper), upper)
    ensures '0' <= Digit(d, upper) <= '9' <==> d < 10
    ensures Digit(d, upper) == '0' <==> d == 0
  {}

  lemma ValueAppend(text: seq<char>, c: char, base: nat)
    ensures ValueOf(text + [c], base) == base * ValueOf(text, base) + HexValue(c)
  {
    assert (text + [c])[..|text|] == text;
  }

  lemma NothingIsZero(base: nat)
    ensures ValueOf([], base) == 0
  {}

  /** A number printed in base 10 or 16 is read back, digit by digit, as itself. */
  lemma {:induction false} NumeralDenotes(n: nat, base: nat, upper: bool)
    requires base == 10 || base == 16
    ensures ValueOf(Numeral(n, base, upper), base) == n
    decreases n
  {
    if n < base {
      DigitDenotes(n, upper);
      ValueAppend([], Digit(n, upper), base);
      assert [] + [Digit(n, upper)] == [Digit(n, upper)];
      hide Digit, ValueOf;
      assert ValueOf([], base) == 0 by { NothingIsZero(base); }
    } else {
      NumeralDenotes(Front(n, base), base, upper);
      DigitDenotes(Last(n, base), upper);
      ValueAppend(Numeral(Front(n, base), base, upper), Digit(Last(n, base), upper), base);
      Format.Formatter.Divided(n, base);
      hide Digit, ValueOf, Front, Last, HexValue;
    }
  }

  /** Its digits are of the right kind and case, and it does not begin with a superfluous zero. */
  lemma {:induction false} NumeralLooks(n: nat, base: nat, upper: bool)
    requires base == 10 || base == 16
    ensures forall c :: c in Numeral(n, base, upper) ==> IsHexDigit(c, upper) && (base == 10 ==> '0' <= c <= '9')
    ensures Numeral(n, base, upper)[0] == '0' <==> n == 0
    ensures n == 0 ==> |Numeral(n, base, upper)| == 1
    decreases n
  {
    hide Digit, IsHexDigit;
    if n < base {
      DigitDenotes(n, upper);
    } else {
      NumeralLooks(Front(n, base), base, upper);
      DigitDenotes(Last(n, base), upper);
      Format.Formatter.SmallNumeral(n, base);
    }
  }

  // ---------- directives ----------

  /** Nothing but the character a field is padded with. */
  ghost predicate IsPadding(t: seq<char>, d: Directive) {
    forall i :: 0 <= i < |t| ==> t[i] == if d.zero then '0' else ' '
  }

  lemma {:induction false} RepeatIs(c: char, n: int)
    ensures forall i :: 0 <= i < |Repeat(c, n)| ==> Repeat(c, n)[i] == c
  {
    if n > 0 {
      RepeatIs(c, n - 1);
    }
  }

  /** A field is its content in one piece, padded up to the width on the side the flag asks for. */
  lemma FieldShows(s: seq<char>, d: Directive) returns (before: seq<char>, after: seq<char>)
    ensures Padded(s, d) == before + s + after
    ensures IsPadding(before, d) && IsPadding(after, d)
    ensures if d.left then before == [] else after == []
    ensures |before + s + after| == if d.width > |s| then d.width else |s|
  {
    var c := if d.zero then '0' else ' ';
    var pad := Repeat(c, d.width - |s|);
    RepeatIs(c, d.width - |s|);
    before, after := if d.left then [] else pad, if d.left then pad else [];
    assert [] + s + pad == s + pad && pad + s + [] == pad + s;
  }

  /** Digits of the base, letters in one case, that read `n`, without a superfluous zero in front. */
  ghost predicate Reads(body: seq<char>, base: nat, upper: bool, n: nat) {
    && |body| > 0 && ValueOf(body, base) == n && (body[0] == '0' <==> n == 0) && (n == 0 ==> |body| == 1)
    && forall c :: c in body ==> IsHexDigit(c, upper) && (base == 10 ==> '0' <= c <= '9')
  }

  /** What the content of each directive stands for. */
  ghost predicate Denotes(kind: char, a: Arg, body: seq<char>)
    requires kind in "suxXdp" && Fits(kind, a)
  {
    match kind
    case 's' => body == if a.s.Null? then "(null)" else a.s.chars
    case 'd' => Reads(body, 10, false, if a.n < 0 then -(a.n as int) else a.n)
    case 'u' => Reads(body, 10, false, a.u)
    case _ => Reads(body, 16, kind == 'X', a.u)
  }

  function Content(kind: char, a: Arg): seq<char>
    requires kind in "suxXdp" && Fits(kind, a)
  {
    match kind
    case 's' => if a.s.Null? then "(null)" else a.s.chars
    case 'd' => Numeral(Magnitude(a.n), 10, false)
    case 'u' => Numeral(a.u, 10, false)
    case _ => Numeral(a.u, 16, kind == 'X')
  }

  function Sign(d: Directive, a: Arg): seq<char>
    requires d.kind in "suxXdp" && Fits(d.kind, a)
  {
    if d.kind == 'p' then "0x" else if d.kind == 'd' && a.n < 0 then "-" else ""
  }

  lemma PrintIs(d: Directive, args: seq<Arg>)
    requires d.kind in "suxXdp" && args != [] && Fits(d.kind, args[0])
    ensures Print(d, args) == Sign(d, args[0]) + Padded(Content(d.kind, args[0]), d)
  {
    hide Padded, Numeral;
  }

  lemma ContentDenotes(kind: char, a: Arg)
    requires kind in "suxXdp" && Fits(kind, a)
    ensures Denotes(kind, a, Content(kind, a))
  {
    if kind != 's' {
      var base := if kind == 'd' || kind == 'u' then 10 else 16;
      var n := if kind == 'd' then Magnitude(a.n) else a.u;
      NumeralDenotes(n, base, kind == 'X');
      NumeralLooks(n, base, kind == 'X');
      hide Numeral, ValueOf, IsHexDigit;
    }
  }

  /**
   What a directive contributes: a sign or 0x, then one run of text that denotes the argument, with
   padding on one side of that run only, up to the width.
   */
  lemma DirectiveDenotes(d: Directive, args: seq<Arg>)
      returns (front: seq<char>, before: seq<char>, body: seq<char>, after: seq<char>)
    requires d.kind in "suxXdp" && args != [] && Fits(d.kind, args[0])
    ensures Print(d, args) == front + (before + body + after)
    ensures front == if d.kind == 'p' then "0x" else if d.kind == 'd' && args[0].n < 0 then "-" else ""
    ensures IsPadding(before, d) && IsPadding(after, d) && (if d.left then before == [] else after == [])
    ensures |before + body + after| == if d.width > |body| then d.width else |body|
    ensures Denotes(d.kind, args[0], body)
  {
    front, body := Sign(d, args[0]), Content(d.kind, args[0]);
    PrintIs(d, args);
    ContentDenotes(d.kind, args[0]);
    hide Print, Padded, Content, Denotes, IsPadding;
    before, after := FieldShows(body, d);
  }

  /** %c contributes its character, whatever the width, and %% a percent sign. */
  lemma CharacterShows(d: Directive, args: seq<Arg>)
    requires TakesArg(d.kind) ==> args != [] && Fits(d.kind, args[0])
    ensures d.kind == 'c' ==> |Print(d, args)| == 1 && Print(d, args)[0] == args[0].c
    ensures d.kind == '%' ==> Print(d, args) == ['%']
    ensures d.kind !in "%csduxXp" ==> Print(d, args) == []
  {}

  // ---------- reading a directive ----------

  function WidthText(d: Directive): (r: seq<char>)
    requires d.width >= -1
    ensures |r| > 0
  {
    (if d.width < 0 then "" else Numeral(d.width, 10, false)) + [d.kind]
  }

  /** A directive as it is written in a format. */
  function Written(d: Directive): seq<char>
    requires d.width >= -1
  {
    (if d.left then "-" else if d.zero then "0" else "") + WidthText(d)
  }

  /** Flag and width can be told apart, and the width from the type. */
  predicate Readable(d: Directive) {
    && d.width >= -1 && !(d.left && d.zero) && !IsDigit(d.kind)
    && (!d.left && !d.zero ==> d.width != 0 && (d.width < 0 ==> d.kind != '-'))
  }

  /** `acc` with the digits of `text` behind it. */
  function Shifted(acc: nat, text: seq<char>): nat
    requires forall c :: c in text ==> IsDigit(c)
    decreases |text|
  {
    if text == [] then acc else Shifted(10 * acc + HexValue(text[0]), text[1..])
  }

  /** A text without anything but decimal digits, followed by something else, is read as a width. */
  lemma {:induction false} WidthIs(fmt: seq<char>, i: nat, text: seq<char>, acc: nat)
    requires i + |text| < |fmt| && fmt[i..i + |text|] == text && !IsDigit(fmt[i + |text|])
    requires forall c :: c in text ==> IsDigit(c)
    ensures Width(fmt, i, acc) == (Shifted(acc, text), i + |text|)
    decreases |text|
  {
    if text != [] {
      assert fmt[i] == fmt[i..i + |text|][0] == text[0];
      assert fmt[i + 1..i + 1 + |text[1..]|] == fmt[i..i + |text|][1..];
      WidthIs(fmt, i + 1, text[1..], 10 * acc + HexValue(text[0]));
    }
  }

  lemma {:induction false} ShiftedIs(acc: nat, text: seq<char>, c: char)
    requires IsDigit(c) && forall c :: c in text ==> IsDigit(c)
    ensures Shifted(acc, text + [c]) == 10 * Shifted(acc, text) + HexValue(c)
    decreases |text|
  {
    if text == [] {
      assert text + [c] == [c] && [c][1..] == [];
    } else {
      assert (text + [c])[1..] == text[1..] + [c];
      ShiftedIs(10 * acc + HexValue(text[0]), text[1..], c);
    }
  }

  lemma {:induction false} ShiftedValue(text: seq<char>)
    requires forall c :: c in text ==> IsDigit(c)
    ensures Shifted(0, text) == ValueOf(text, 10)
  {
    if text != [] {
      var front, c := text[..|text| - 1], text[|text| - 1];
      assert text == front + [c];
      ShiftedValue(front);
      ShiftedIs(0, front, c);
    }
  }

  /** Two pieces found in a row are found one behind the other. */
  lemma Slices(s: seq<char>, i: nat, a: seq<char>, b: seq<char>)
    requires i + |a + b| <= |s| && s[i..i + |a + b|] == a + b
    ensures s[i..i + |a|] == a && s[i + |a|..i + |a| + |b|] == b
    ensures b != [] ==> s[i + |a|] == b[0]
    ensures a != [] ==> s[i] == a[0]
  {
    assert s[i..i + |a|] == s[i..i + |a + b|][..|a|];
    assert s[i + |a|..i + |a| + |b|] == s[i..i + |a + b|][|a|..];
    if b != [] {
      assert s[i + |a|] == s[i + |a|..i + |a| + |b|][0];
    }
    if a != [] {
      assert s[i] == s[i..i + |a|][0];
    }
  }

  function WidthDigits(d: Directive): (n: nat) {
    if d.width < 0 then 0 else |Numeral(d.width, 10, false)|
  }

  lemma WidthTextStarts(d: Directive)
    requires d.width >= -1 && !IsDigit(d.kind)
    ensures d.width < 0 ==> WidthText(d)[0] == d.kind
    ensures d.width >= 0 ==> IsDigit(WidthText(d)[0]) && (WidthText(d)[0] == '0' <==> d.width == 0)
    ensures |WidthText(d)| == WidthDigits(d) + 1 && (WidthDigits(d) > 0 <==> d.width >= 0)
  {
    if d.width >= 0 {
      NumeralLooks(d.width, 10, false);
      var digits := Numeral(d.width, 10, false);
      assert WidthText(d)[0] == digits[0] && digits[0] in digits;
    }
    hide Numeral;
  }

  function DigitsOf(d: Directive): seq<char> {
    if d.width < 0 then "" else Numeral(d.width, 10, false)
  }

  lemma DigitsDenote(d: Directive)
    ensures forall c :: c in DigitsOf(d) ==> IsDigit(c)
    ensures Shifted(0, DigitsOf(d)) == if d.width < 0 then 0 else d.width
  {
    if d.width >= 0 {
      NumeralLooks(d.width, 10, false);
      NumeralDenotes(d.width, 10, false);
      hide Numeral, ValueOf;
      ShiftedValue(DigitsOf(d));
    }
  }

  lemma WidthTextIs(d: Directive)
    requires d.width >= -1
    ensures WidthText(d) == DigitsOf(d) + [d.kind] && WidthDigits(d) == |DigitsOf(d)|
  {}

  lemma WidthIsRead(fmt: seq<char>, i: nat, d: Directive)
    requires d.width >= -1 && !IsDigit(d.kind)
    requires i + |WidthText(d)| <= |fmt| && fmt[i..i + |WidthText(d)|] == WidthText(d)
    ensures i + WidthDigits(d) < |fmt| && fmt[i + WidthDigits(d)] == d.kind
    ensures Width(fmt, i, 0) == (if d.width < 0 then 0 else d.width, i + WidthDigits(d))
  {
    hide *;
    WidthTextIs(d);
    Slices(fmt, i, DigitsOf(d), [d.kind]);
    DigitsDenote(d);
    WidthIs(fmt, i, DigitsOf(d), 0);
  }

  lemma ParseIs(fmt: seq<char>, i: nat, w: nat, k: nat)
    requires i < |fmt| && k < |fmt| && Width(fmt, if fmt[i] == '-' || fmt[i] == '0' then i + 1 else i, 0) == (w, k)
    ensures var j := if fmt[i] == '-' || fmt[i] == '0' then i + 1 else i;
      Parse(fmt, i) == Directive(fmt[i] == '-', fmt[i] == '0', if k > j then w else -1, fmt[k], k + 1)
  {
    hide Width;
  }

  function FlagLength(d: Directive): nat {
    if d.left || d.zero then 1 else 0
  }

  lemma FlagIsRead(fmt: seq<char>, i: nat, d: Directive)
    requires Readable(d)
    requires i + |Written(d)| <= |fmt| && fmt[i..i + |Written(d)|] == Written(d)
    ensures i < |fmt| && (fmt[i] == '-') == d.left && (fmt[i] == '0') == d.zero
    ensures var j := i + FlagLength(d);
      j + |WidthText(d)| == i + |Written(d)| && |WidthText(d)| == WidthDigits(d) + 1 &&
      fmt[j..j + |WidthText(d)|] == WidthText(d)
  {
    var flag := if d.left then "-" else if d.zero then "0" else "";
    assert Written(d) == flag + WidthText(d);
    Slices(fmt, i, flag, WidthText(d));
    WidthTextStarts(d);
    hide WidthText, WidthDigits, Written;
  }

  /** A directive written behind a percent sign is read as that directive. */
  lemma DirectiveIsRead(fmt: seq<char>, i: nat, d: Directive)
    requires Readable(d)
    requires i + |Written(d)| <= |fmt| && fmt[i..i + |Written(d)|] == Written(d)
    requires d.next == i + |Written(d)|
    ensures Parse(fmt, i) == d
  {
    FlagIsRead(fmt, i, d);
    assert WidthDigits(d) > 0 <==> d.width >= 0 by { WidthTextStarts(d); }
    hide Parse, Written, WidthText, WidthDigits, Width;
    WidthIsRead(fmt, i + FlagLength(d), d);
    ParseIs(fmt, i, if d.width < 0 then 0 else d.width, i + FlagLength(d) + WidthDigits(d));
  }

  // ---------- whole formats ----------

  /** A format is plain characters and directives; where the next piece starts does not matter here. */
  datatype Piece = Plain(c: char) | Conversion(d: Directive)

  predicate Sound(p: Piece) {
    match p
    case Plain(c) => c != '%'
    case Conversion(d) => Readable(d) && d.width < TWO_31
  }

  function TextOf(p: Piece): seq<char>
    requires Sound(p)
  {
    match p
    case Plain(c) => [c]
    case Conversion(d) => "%" + Written(d)
  }

  function FormatOf(ps: seq<Piece>): seq<char>
    requires forall p :: p in ps ==> Sound(p)
  {
    if ps == [] then [] else TextOf(ps[0]) + FormatOf(ps[1..])
  }

  /** Every conversion finds an argument of its type. */
  predicate Served(ps: seq<Piece>, args: seq<Arg>) {
    ps == [] ||
    (match ps[0]
     case Plain(_) => Served(ps[1..], args)
     case Conversion(d) =>
       if TakesArg(d.kind) then args != [] && Fits(d.kind, args[0]) && Served(ps[1..], args[1..])
       else Served(ps[1..], args))
  }

  /** The pieces one after the other, each conversion with the next argument. */
  function Shown(ps: seq<Piece>, args: seq<Arg>): seq<char>
    requires Served(ps, args)
  {
    if ps == [] then []
    else match ps[0]
         case Plain(c) => [c] + Shown(ps[1..], args)
         case Conversion(d) => Print(d, args) + Shown(ps[1..], if TakesArg(d.kind) then args[1..] else args)
  }

  lemma PlainShown(fmt: seq<char>, i: nat, c: char, rest: seq<char>, args: seq<Arg>)
    requires i <= |fmt| && fmt[i..] == [c] + rest && c != '%'
    ensures i < |fmt| && fmt[i + 1..] == rest
    ensures WellFormed(fmt, i, args) <==> WellFormed(fmt, i + 1, args)
    ensures WellFormed(fmt, i, args) ==> Expand(fmt, i, args) == [c] + Expand(fmt, i + 1, args)
  {
    assert fmt[i] == fmt[i..][0];
    assert fmt[i + 1..] == fmt[i..][1..];
  }

  lemma ThreePieces(s: seq<char>, i: nat, c: char, a: seq<char>, b: seq<char>)
    requires i <= |s| && s[i..] == [c] + a + b
    ensures i + 1 + |a| <= |s| && s[i] == c && s[i + 1..i + 1 + |a|] == a && s[i + 1 + |a|..] == b
  {
    assert s[i] == s[i..][0];
    assert s[i + 1..i + 1 + |a|] == s[i..][1..1 + |a|];
    assert s[i + 1 + |a|..] == s[i..][1 + |a|..];
  }

  lemma SameWritten(d: Directive, e: nat)
    ensures Readable(d.(next := e)) == Readable(d) && (Readable(d) ==> Written(d.(next := e)) == Written(d))
  {}

  lemma ConversionAt(fmt: seq<char>, i: nat, d: Directive, rest: seq<char>)
    requires Readable(d) && i <= |fmt| && fmt[i..] == "%" + Written(d) + rest
    ensures var e := i + 1 + |Written(d)|;
      i < e <= |fmt| && fmt[i] == '%' && Parse(fmt, i + 1) == d.(next := e) && fmt[e..] == rest
  {
    var e := i + 1 + |Written(d)|;
    ThreePieces(fmt, i, '%', Written(d), rest);
    SameWritten(d, e);
    hide *;
    DirectiveIsRead(fmt, i + 1, d.(next := e));
  }

  lemma SamePrint(d: Directive, e: nat, args: seq<Arg>)
    requires TakesArg(d.kind) ==> args != [] && Fits(d.kind, args[0])
    ensures Print(d.(next := e), args) == Print(d, args)
  {}

  lemma ConversionShown(fmt: seq<char>, i: nat, d: Directive, args: seq<Arg>)
    requires i < |fmt| && fmt[i] == '%' && Parse(fmt, i + 1) == d && i < d.next <= |fmt| && d.width < TWO_31
    requires TakesArg(d.kind) ==> args != [] && Fits(d.kind, args[0])
    ensures var left := if TakesArg(d.kind) then args[1..] else args;
      && (WellFormed(fmt, d.next, left) ==> WellFormed(fmt, i, args))
      && (WellFormed(fmt, d.next, left) ==> Expand(fmt, i, args) == Print(d, args) + Expand(fmt, d.next, left))
  {
    hide Parse, Print, Fits, TakesArg;
  }

  lemma EmptyShown(fmt: seq<char>, i: nat, args: seq<Arg>)
    requires i == |fmt|
    ensures WellFormed(fmt, i, args) && Expand(fmt, i, args) == []
  {}

  /** A format prints its pieces in order, each conversion with the next argument. */
  lemma {:induction false} FormatShows(fmt: seq<char>, i: nat, ps: seq<Piece>, args: seq<Arg>)
    requires (forall p :: p in ps ==> Sound(p)) && Served(ps, args)
    requires i <= |fmt| && fmt[i..] == FormatOf(ps)
    ensures WellFormed(fmt, i, args) && Expand(fmt, i, args) == Shown(ps, args)
    decreases |ps|
  {
    hide WellFormed, Expand, Print, Written, Fits, TakesArg, Parse;
    if ps == [] {
      EmptyShown(fmt, i, args);
    } else if ps[0].Plain? {
      assert Sound(ps[0]);
      PlainShown(fmt, i, ps[0].c, FormatOf(ps[1..]), args);
      FormatShows(fmt, i + 1, ps[1..], args);
    } else {
      assert Sound(ps[0]);
      var d := ps[0].d;
      var e := i + 1 + |Written(d)|;
      ConversionAt(fmt, i, d, FormatOf(ps[1..]));
      FormatShows(fmt, e, ps[1..], if TakesArg(d.kind) then args[1..] else args);
      SamePrint(d, e, args);
      ConversionShown(fmt, i, d.(next := e), args);
    }
  }
}
