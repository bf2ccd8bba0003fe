/** The scanner of src/stdlib/format.c as a function of its input. */
module ScanSpec {
  import opened Words
  import opened FormatSpec

  predicate IsSpace(c: char) {
    c == ' ' || c == '\t' || c == '\r' || c == '\n' || c == 12 as char || c == 11 as char
  }

  /** A 32-bit register read as a signed number. */
  function ToInt32(n: int): int32 {
    var m := n % TWO_32;
    if m < TWO_31 then m else m - TWO_32
  }

  function DigitValue(c: char): int {
    c as int - '0' as int
  }

  /** The digit loop of %d: the number so far is `n`. */
  function Digits(s: seq<char>, k: nat, n: int32): (int32, nat)
    decreases |s| - k
  {
    if k < |s| && IsDigit(s[k]) then Digits(s, k + 1, ToInt32(10 * (n as int) + DigitValue(s[k]))) else (n, k)
  }

  /** What %d reads at `k`: nothing at the end of the input, otherwise a number, 0 if there are no digits. */
  function Number(s: seq<char>, k: nat): Option<(int32, nat)> {
    if k >= |s| then None
    else if s[k] == '-' then
      var (n, e) := Digits(s, k + 1, 0);
      Some((ToInt32(-(n as int)), e))
    else
      Some(Digits(s, k, 0))
  }

  function SkipSpace(s: seq<char>, k: nat): nat
    decreases |s| - k
  {
    if k < |s| && IsSpace(s[k]) then SkipSpace(s, k + 1) else k
  }

  /** The numbers read before the scan stops, and whether it stopped because the input ran out. */
  datatype Scanned = Scanned(values: seq<int32>, exhausted: bool) {
    /** The return value of `vsscanf`. */
    function Count(): int {
      if exhausted && values == [] then -1 else |values|
    }

    function Prepend(v: int32): Scanned {
      Scanned([v] + values, exhausted)
    }
  }

  function Scan(fmt: seq<char>, i: nat, s: seq<char>, k: nat): Scanned
    decreases |fmt| - i
  {
    if i >= |fmt| then Scanned([], false)
    else if IsSpace(fmt[i]) then Scan(fmt, i + 1, s, SkipSpace(s, k))
    else if fmt[i] != '%' then Literal(fmt, i, s, k, fmt[i])
    else if At(fmt, i + 1) == '%' then Literal(fmt, i + 1, s, k, '%')
    else if At(fmt, i + 1) == 'd' then
      match Number(s, k)
      case None => Scanned([], true)
      case Some(v) => Scan(fmt, i + 2, s, v.1).Prepend(v.0)
    else Scan(fmt, i + 2, s, k)
  }

  /** A format character that has to be met in the input; the format goes on behind `i`. */
  function Literal(fmt: seq<char>, i: nat, s: seq<char>, k: nat, c: char): Scanned
    requires i < |fmt|
    decreases |fmt| - i, 0
  {
    if k >= |s| then Scanned([], true)
    else if s[k] != c then Scanned([], false)
    else Scan(fmt, i + 1, s, k + 1)
  }

  /** The six blanks, by their codes. */
  predicate IsBlank(c: char) {
    c as int in {9, 10, 11, 12, 13, 32}
  }

  /** A blank in a format stands for all the blanks that come next in the input, if any. */
  lemma {:induction false} BlanksAreSkipped(fmt: seq<char>, i: nat, s: seq<char>, k: nat, e: nat)
    requires i < |fmt| && IsBlank(fmt[i]) && k <= e <= |s|
    requires (forall j :: k <= j < e ==> IsBlank(s[j])) && (e < |s| ==> !IsBlank(s[e]))
    ensures Scan(fmt, i, s, k) == Scan(fmt, i + 1, s, e)
    decreases e - k
  {
    hide Number;
    if k < e {
      BlanksAreSkipped(fmt, i, s, k + 1, e);
    }
  }

  /** A literal has to be met: the scan goes on behind it, or ends with what it has read before. */
  lemma LiteralIsMet(fmt: seq<char>, i: nat, s: seq<char>, k: nat)
    requires i < |fmt| && !IsBlank(fmt[i]) && (fmt[i] == '%' ==> i + 1 < |fmt| && fmt[i + 1] == '%')
    ensures var next := if fmt[i] == '%' then i + 2 else i + 1;
      Scan(fmt, i, s, k) == if k >= |s| then Scanned([], true)
                            else if s[k] == fmt[i] then Scan(fmt, next, s, k + 1)
                            else Scanned([], false)
  {
    hide Number;
  }

  /** The return value: -1 if the input ends before the first number, and otherwise how many were read. */
  lemma CountMeans(fmt: seq<char>, s: seq<char>)
    requires |fmt| >= 2 && fmt[0] == '%' && fmt[1] == 'd'
    ensures Scan(fmt, 0, s, 0).Count() == if s == [] then -1 else |Scan(fmt, 0, s, 0).values|
    ensures s != [] ==> |Scan(fmt, 0, s, 0).values| > 0
  {
    hide ToInt32;
  }

  // ---------- what a scan leaves in memory ----------

  /** The four bytes of a stored number, lowest first. */
  function LowByte(v: int32): byte {
    (v % 0x100) as int
  }

  function Store32(m: seq<byte>, p: nat, v: int32): (r: seq<byte>)
    requires p + 4 <= |m|
    ensures |r| == |m| && r[p] == LowByte(v)
    ensures forall i :: 0 <= i < |m| && !(p <= i < p + 4) ==> r[i] == m[i]
  {
    var w: int := v;
    m[p := LowByte(v)][p + 1 := w / 0x100 % 0x100][p + 2 := w / 0x1_0000 % 0x100][p + 3 := w / 0x100_0000 % 0x100]
  }

  lemma SplitWord(x: int)
    ensures x % 0x1_0000_0000 == x % 0x100 + 0x100 * (x / 0x100 % 0x100_0000)
  {}

  lemma SplitThree(x: int)
    ensures x % 0x100_0000 == x % 0x100 + 0x100 * (x / 0x100 % 0x1_0000)
  {}

  lemma SplitTwo(x: int)
    ensures x % 0x1_0000 == x % 0x100 + 0x100 * (x / 0x100 % 0x100)
  {}

  lemma ByBytes(x: int)
    ensures x / 0x100 / 0x100 == x / 0x1_0000 && x / 0x1_0000 / 0x100 == x / 0x100_0000
  {}

  /** A number is stored as a word of four bytes, the lowest first. */
  lemma StoredWord(m: seq<byte>, p: nat, v: int32)
    requires p + 4 <= |m|
    ensures var r := Store32(m, p, v);
      r[p] as int + 0x100 * (r[p + 1] as int) + 0x1_0000 * (r[p + 2] as int) + 0x100_0000 * (r[p + 3] as int) == v % TWO_32
  {
    var w: int := v;
    SplitWord(w);
    SplitThree(w / 0x100);
    SplitTwo(w / 0x100 / 0x100);
    ByBytes(w);
    var r := Store32(m, p, v);
    assert r[p] == w % 0x100 && r[p + 1] == w / 0x100 % 0x100;
    assert r[p + 2] == w / 0x1_0000 % 0x100 && r[p + 3] == w / 0x100_0000 % 0x100;
    hide Store32;
  }

  function StoreAll(m: seq<byte>, ptrs: seq<nat>, values: seq<int32>): (r: seq<byte>)
    requires |values| <= |ptrs| && forall i :: 0 <= i < |ptrs| ==> ptrs[i] + 4 <= |m|
    ensures |r| == |m|
    decreases |values|
  {
    if values == [] then m else StoreAll(Store32(m, ptrs[0], values[0]), ptrs[1..], values[1..])
  }

  lemma {:induction false} StoreAllLast(m: seq<byte>, ptrs: seq<nat>, values: seq<int32>, v: int32)
    requires |values| < |ptrs| && forall i :: 0 <= i < |ptrs| ==> ptrs[i] + 4 <= |m|
    ensures StoreAll(m, ptrs, values + [v]) == Store32(StoreAll(m, ptrs, values), ptrs[|values|], v)
    decreases |values|
  {
    if values == [] {
      assert (values + [v])[1..] == [] && values + [v] == [v];
    } else {
      assert (values + [v])[1..] == values[1..] + [v];
      StoreAllLast(Store32(m, ptrs[0], values[0]), ptrs[1..], values[1..], v);
    }
  }

  /** Number of %d directives from `i` on. */
  function Conversions(fmt: seq<char>, i: nat): nat
    decreases |fmt| - i
  {
    if i >= |fmt| then 0
    else if fmt[i] != '%' then Conversions(fmt, i + 1)
    else (if At(fmt, i + 1) == 'd' then 1 else 0) + Conversions(fmt, i + 2)
  }

  /** The format does not end in a lone percent sign. */
  predicate Complete(fmt: seq<char>, i: nat)
    decreases |fmt| - i
  {
    i >= |fmt| || (if fmt[i] != '%' then Complete(fmt, i + 1) else i + 1 < |fmt| && Complete(fmt, i + 2))
  }

  // ---------- reading back what was printed ----------

  lemma SameInt32(a: int, b: int, k: int)
    requires b - a == k * TWO_32
    ensures ToInt32(a) == ToInt32(b)
  {
    assert b % TWO_32 == a % TWO_32;
  }

  lemma ToInt32Step(n: int, d: int)
    ensures ToInt32(10 * (ToInt32(n) as int) + d) == ToInt32(10 * n + d)
  {
    var q := n / TWO_32;
    var t: int := ToInt32(n);
    assert t == n - q * TWO_32 || t == n - q * TWO_32 - TWO_32;
    SameInt32(10 * t + d, 10 * n + d, if t == n - q * TWO_32 then 10 * q else 10 * q + 10);
  }

  lemma DigitIsRead(d: nat)
    requires d < 10
    ensures DigitValue(Digit(d, false)) == d && IsDigit(Digit(d, false))
  {}

  lemma OneDigit(s: seq<char>, k: nat, n: int32, d: nat)
    requires k < |s| && d < 10 && s[k] == Digit(d, false)
    ensures Digits(s, k, n) == Digits(s, k + 1, ToInt32(10 * (n as int) + d))
  {
    DigitIsRead(d);
  }

  /** The digits of a decimal numeral, read from `k` on, give its value modulo 2^32. */
  lemma {:induction false} NumeralIsRead(n: nat, text: seq<char>, s: seq<char>, k: nat)
    requires text == Numeral(n, 10, false)
    requires k + |text| <= |s| && s[k..k + |text|] == text
    ensures Digits(s, k, 0) == Digits(s, k + |text|, ToInt32(n))
    decreases n
  {
    hide ToInt32, Digit, Digits;
    var last := k + |text| - 1;
    assert s[k..k + |text|][|text| - 1] == s[last];
    if n < 10 {
      OneDigit(s, k, 0, n);
    } else {
      var front := Numeral(n / 10, 10, false);
      assert text == front + [Digit(n % 10, false)];
      assert s[k..k + |front|] == s[k..k + |text|][..|front|];
      NumeralIsRead(n / 10, front, s, k);
      OneDigit(s, last, ToInt32(n / 10), n % 10);
      ToInt32Step(n / 10, n % 10);
    }
  }

  /** What %d prints, without a width. */
  function Decimal(v: int32): seq<char> {
    (if v < 0 then "-" else "") + Numeral(Magnitude(v), 10, false)
  }

  lemma NumeralStart(n: nat)
    ensures IsDigit(Numeral(n, 10, false)[0]) && Numeral(n, 10, false)[0] != '-'
    decreases n
  {
    if n >= 10 {
      NumeralStart(n / 10);
    } else {
      DigitIsRead(n);
    }
  }

  lemma NoMoreDigits(s: seq<char>, k: nat, n: int32)
    requires k < |s| ==> !IsDigit(s[k])
    ensures Digits(s, k, n) == (n, k)
  {}

  lemma SignedMagnitude(v: int32)
    ensures v < 0 ==> ToInt32(-(ToInt32(Magnitude(v)) as int)) == v
    ensures v >= 0 ==> ToInt32(Magnitude(v)) == v
  {}

  /**
   Print and read back: %d gives back every 32-bit number it printed, the least one included (its
   digits overflow to itself), as long as no digit follows.
   */
  lemma DecimalRoundTrip(v: int32, s: seq<char>, k: nat)
    requires k + |Decimal(v)| <= |s| && s[k..k + |Decimal(v)|] == Decimal(v)
    requires k + |Decimal(v)| < |s| ==> !IsDigit(s[k + |Decimal(v)|])
    ensures Number(s, k) == Some((v, k + |Decimal(v)|))
  {
    hide ToInt32, Digits, Numeral;
    var text, n := Decimal(v), Numeral(Magnitude(v), 10, false);
    NumeralStart(Magnitude(v));
    assert s[k] == s[k..k + |text|][0];
    NoMoreDigits(s, k + |text|, ToInt32(Magnitude(v)));
    SignedMagnitude(v);
    if v < 0 {
      assert s[k + 1..k + 1 + |n|] == s[k..k + |text|][1..];
      assert text[1..] == n;
      NumeralIsRead(Magnitude(v), n, s, k + 1);
    } else {
      assert text == n;
      NumeralIsRead(Magnitude(v), n, s, k);
    }
  }
}
