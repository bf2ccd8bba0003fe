/** `vsscanf`, and the textual addresses of src/net/addr.c. */
module Scanner {
  import opened Words
  import opened FormatSpec
  import opened ScanSpec

  /** The scan so far has read `read`; `rest` is what is still to come. */
  function Resume(read: seq<int32>, rest: Scanned): Scanned {
    Scanned(read + rest.values, rest.exhausted)
  }

  lemma ResumePrepend(read: seq<int32>, v: int32, rest: Scanned)
    ensures Resume(read, rest.Prepend(v)) == Resume(read + [v], rest)
  {
    assert read + ([v] + rest.values) == read + [v] + rest.values;
  }

  method StoreAt(mem: array<byte>, p: nat, v: int32)
    requires p + 4 <= mem.Length
    modifies mem
    ensures mem[..] == Store32(old(mem[..]), p, v)
  {
    var w: int := v;
    mem[p], mem[p + 1], mem[p + 2], mem[p + 3] := LowByte(v), w / 0x100 % 0x100, w / 0x1_0000 % 0x100, w / 0x100_0000 % 0x100;
  }

  /** The case of %d; `None` is the end of the input. */
  method ReadNumber(s: seq<char>, start: nat) returns (r: Option<(int32, nat)>)
    requires start <= |s|
    ensures r == Number(s, start)
  {
    var k := start;
    if k == |s| {
      return None;
    }
    var negative := s[k] == '-';
    if negative {
      k := k + 1;
    }
    var n: int32 := 0;
    ghost var from := k;
    while k < |s| && IsDigit(s[k])
      invariant k <= |s| && Digits(s, from, 0) == Digits(s, k, n)
    {
      n := ToInt32(10 * (n as int) + DigitValue(s[k]));
      k := k + 1;
    }
    r := Some((if negative then ToInt32(-(n as int)) else n, k));
  }

  lemma StoreNothing(m: seq<byte>, ptrs: seq<nat>)
    requires forall i :: 0 <= i < |ptrs| ==> ptrs[i] + 4 <= |m|
    ensures StoreAll(m, ptrs, []) == m
  {}

  lemma {:induction false} DigitsEnd(s: seq<char>, k: nat, n: int32)
    requires k <= |s|
    ensures k <= Digits(s, k, n).1 <= |s|
    decreases |s| - k
  {
    if k < |s| && IsDigit(s[k]) {
      DigitsEnd(s, k + 1, ToInt32(10 * (n as int) + DigitValue(s[k])));
    }
  }

  lemma NumberEnds(s: seq<char>, k: nat)
    requires k <= |s| && Number(s, k).Some?
    ensures k <= Number(s, k).value.1 <= |s|
  {
    DigitsEnd(s, k, 0);
    if s[k] == '-' {
      DigitsEnd(s, k + 1, 0);
    }
  }

  /** `vsscanf`: stores the numbers it reads through the pointers it was given, in order. */
  method Vsscanf(s: seq<char>, fmt: seq<char>, mem: array<byte>, ptrs: seq<nat>) returns (count: int)
    requires Complete(fmt, 0) && Conversions(fmt, 0) <= |ptrs|
    requires forall i :: 0 <= i < |ptrs| ==> ptrs[i] + 4 <= mem.Length
    modifies mem
    ensures count == Scan(fmt, 0, s, 0).Count() && |Scan(fmt, 0, s, 0).values| <= |ptrs|
    ensures mem[..] == StoreAll(old(mem[..]), ptrs, Scan(fmt, 0, s, 0).values)
  {
    hide Number, ToInt32, StoreAll, Store32, LowByte;
    var i, k: nat := 0, 0;
    ghost var all, read := Scan(fmt, 0, s, 0), [];
    StoreNothing(mem[..], ptrs);
    count := 0;
    while i < |fmt|
      invariant i <= |fmt| && k <= |s| && Complete(fmt, i)
      invariant count == |read| && |read| + Conversions(fmt, i) <= |ptrs|
      invariant all == Resume(read, Scan(fmt, i, s, k))
      invariant mem[..] == StoreAll(old(mem[..]), ptrs, read)
      decreases |fmt| - i
    {
      var c := fmt[i];
      if IsSpace(c) {
        while k < |s| && IsSpace(s[k])
          invariant k <= |s| && all == Resume(read, Scan(fmt, i + 1, s, SkipSpace(s, k)))
        {
          k := k + 1;
        }
        i := i + 1;
      } else if c != '%' || fmt[i + 1] == '%' {
        if c == '%' {
          i := i + 1;
        }
        if k == |s| {
          assert read + [] == read;
          return if count != 0 then count else -1;
        }
        if s[k] != fmt[i] {
          assert read + [] == read;
          return;
        }
        k := k + 1;
        i := i + 1;
      } else {
        if fmt[i + 1] == 'd' {
          var r := ReadNumber(s, k);
          if r.None? {
            assert read + [] == read;
            return if count != 0 then count else -1;
          }
          NumberEnds(s, k);
          StoreAllLast(old(mem[..]), ptrs, read, r.value.0);
          ResumePrepend(read, r.value.0, Scan(fmt, i + 2, s, r.value.1));
          StoreAt(mem, ptrs[count], r.value.0);
          count := count + 1;
          k := r.value.1;
          read := read + [r.value.0];
        }
        i := i + 2;
      }
    }
    assert read + [] == read;
  }
}

module Addr {
  import opened Words
  import opened FormatSpec
  import Format
  import opened ScanSpec
  import opened Scanner
  import opened Frames

  const DOTTED: seq<char> := "%d.%d.%d.%d"

  function Args(v: seq<int32>): seq<Arg>
    requires |v| == 4
  {
    [Int(v[0]), Int(v[1]), Int(v[2]), Int(v[3])]
  }

  /** Four numbers with dots in between. */
  function Dotted(v: seq<int32>): seq<char>
    requires |v| == 4
  {
    Decimal(v[0]) + ("." + (Decimal(v[1]) + ("." + (Decimal(v[2]) + ("." + Decimal(v[3]))))))
  }

  function Numbers(a: IPv4Addr): (v: seq<int32>)
    ensures |v| == 4
  {
    [a.n0, a.n1, a.n2, a.n3]
  }

  /** A plain %d in a format. */
  lemma PrintsDecimal(fmt: seq<char>, i: nat, args: seq<Arg>)
    requires i + 1 < |fmt| && fmt[i] == '%' && fmt[i + 1] == 'd'
    requires args != [] && args[0].Int? && WellFormed(fmt, i + 2, args[1..])
    ensures WellFormed(fmt, i, args) && Expand(fmt, i, args) == Decimal(args[0].n) + Expand(fmt, i + 2, args[1..])
  {
    assert Width(fmt, i + 1, 0) == (0, i + 1);
    var d := Directive(false, false, -1, 'd', i + 2);
    assert Parse(fmt, i + 1) == d;
    var digits := Numeral(Magnitude(args[0].n), 10, false);
    assert Repeat(' ', -1 - |digits|) == [];
    assert [] + digits == digits;
  }

  lemma PrintsItself(fmt: seq<char>, i: nat, args: seq<Arg>)
    requires i < |fmt| && fmt[i] != '%' && WellFormed(fmt, i + 1, args)
    ensures WellFormed(fmt, i, args) && Expand(fmt, i, args) == [fmt[i]] + Expand(fmt, i + 1, args)
  {}

  lemma DottedIsPrinted(v: seq<int32>)
    requires |v| == 4
    ensures WellFormed(DOTTED, 0, Args(v)) && Expand(DOTTED, 0, Args(v)) == Dotted(v)
  {
    hide Decimal, Parse, WellFormed, Expand;
    var args := Args(v);
    Format.EndStep(DOTTED, args[4..]);
    PrintsDecimal(DOTTED, 9, args[3..]);
    PrintsItself(DOTTED, 8, args[3..]);
    PrintsDecimal(DOTTED, 6, args[2..]);
    PrintsItself(DOTTED, 5, args[2..]);
    PrintsDecimal(DOTTED, 3, args[1..]);
    PrintsItself(DOTTED, 2, args[1..]);
    PrintsDecimal(DOTTED, 0, args);
    assert Decimal(v[3]) + [] == Decimal(v[3]);
  }

  lemma DottedLength(a: IPv4Addr)
    ensures 7 <= |Dotted(Numbers(a))| <= 15
  {
    assert Power(10, 2) == 100 && Power(10, 3) == 1000;
    NumeralLength(a.n0, 10, false, 3);
    NumeralLength(a.n1, 10, false, 3);
    NumeralLength(a.n2, 10, false, 3);
    NumeralLength(a.n3, 10, false, 3);
  }

  /** `addr_ipv4_tostr`: 16 characters always hold the address and its terminator. */
  method AddrIpv4ToStr(str: array<char>, at: nat, size: nat, a: IPv4Addr)
    requires at + size <= str.Length
    modifies str
    ensures var text := Dotted(Numbers(a));
      var n := Format.Kept(|text|, size);
      str[at..at + n] == text[..n] && (size > 0 ==> str[at + n] == '\0') && (size >= 16 ==> n == |text|)
    ensures forall i :: 0 <= i < str.Length && !(at <= i < at + size) ==> str[i] == old(str[i])
  {
    DottedIsPrinted(Numbers(a));
    DottedLength(a);
    var _ := Format.Vsnprintf(str, at, size, DOTTED, Args(Numbers(a)));
  }

  // ---------- and back ----------

  lemma ReadsDecimal(fmt: seq<char>, i: nat, s: seq<char>, k: nat, v: int32, rest: seq<char>)
    requires i + 1 < |fmt| && fmt[i] == '%' && fmt[i + 1] == 'd'
    requires k <= |s| && s[k..] == Decimal(v) + rest && (rest != [] ==> !IsDigit(rest[0]))
    ensures k + |Decimal(v)| <= |s| && s[k + |Decimal(v)|..] == rest
    ensures Scan(fmt, i, s, k) == Scan(fmt, i + 2, s, k + |Decimal(v)|).Prepend(v)
  {
    var e := k + |Decimal(v)|;
    assert s[k..e] == s[k..][..|Decimal(v)|] == Decimal(v);
    assert s[e..] == s[k..][|Decimal(v)|..] == rest;
    if rest != [] {
      assert s[e] == rest[0];
    }
    DecimalRoundTrip(v, s, k);
  }

  lemma ReadsItself(fmt: seq<char>, i: nat, s: seq<char>, k: nat, rest: seq<char>)
    requires i < |fmt| && fmt[i] != '%' && !IsSpace(fmt[i])
    requires k <= |s| && s[k..] == [fmt[i]] + rest
    ensures k + 1 <= |s| && s[k + 1..] == rest && Scan(fmt, i, s, k) == Scan(fmt, i + 1, s, k + 1)
  {
    assert s[k] == s[k..][0];
    assert s[k + 1..] == s[k..][1..];
  }

  /** A %d and the dot behind it. */
  lemma ReadsDecimalDot(fmt: seq<char>, i: nat, s: seq<char>, k: nat, v: int32, rest: seq<char>) returns (e: nat)
    requires i + 2 < |fmt| && fmt[i] == '%' && fmt[i + 1] == 'd' && fmt[i + 2] == '.'
    requires k <= |s| && s[k..] == Decimal(v) + ("." + rest)
    ensures e <= |s| && s[e..] == rest && Scan(fmt, i, s, k) == Scan(fmt, i + 3, s, e).Prepend(v)
  {
    hide Decimal, Scan;
    ReadsDecimal(fmt, i, s, k, v, "." + rest);
    e := k + |Decimal(v)| + 1;
    ReadsItself(fmt, i + 2, s, e - 1, rest);
  }

  lemma FormatEnds(fmt: seq<char>, s: seq<char>, k: nat)
    ensures Scan(fmt, |fmt|, s, k) == Scanned([], false)
  {}

  /** Scanning four dotted numbers gives them back. */
  lemma DottedIsRead(v: seq<int32>)
    requires |v| == 4
    ensures Scan(DOTTED, 0, Dotted(v), 0) == Scanned(v, false)
  {
    hide Decimal, Scan;
    var s := Dotted(v);
    var t3 := Decimal(v[3]) + [];
    assert Decimal(v[3]) == t3;
    var k1 := ReadsDecimalDot(DOTTED, 0, s, 0, v[0], Decimal(v[1]) + ("." + (Decimal(v[2]) + ("." + t3))));
    var k2 := ReadsDecimalDot(DOTTED, 3, s, k1, v[1], Decimal(v[2]) + ("." + t3));
    var k3 := ReadsDecimalDot(DOTTED, 6, s, k2, v[2], t3);
    ReadsDecimal(DOTTED, 9, s, k3, v[3], []);
    FormatEnds(DOTTED, s, k3 + |Decimal(v[3])|);
    assert [v[0]] + ([v[1]] + ([v[2]] + ([v[3]] + []))) == v;
  }

  /** What `addr_strto_ipv4` makes of a text: the low bytes of four numbers. */
  function StrToIpv4(s: seq<char>): Option<IPv4Addr> {
    var sc := Scan(DOTTED, 0, s, 0);
    if sc.Count() == 4
    then Some(IPv4Addr(LowByte(sc.values[0]), LowByte(sc.values[1]), LowByte(sc.values[2]), LowByte(sc.values[3])))
    else None
  }

  /** Four 4-byte stores, each one byte behind the last, leave the low bytes of the numbers. */
  lemma OverlappingStores(m: seq<byte>, v: seq<int32>)
    requires |m| == 7 && |v| == 4
    ensures forall i :: 0 <= i < 4 ==> StoreAll(m, [0, 1, 2, 3], v)[i] == LowByte(v[i])
  {
    hide LowByte;
    var m0 := Store32(m, 0, v[0]);
    var m1 := Store32(m0, 1, v[1]);
    var m2 := Store32(m1, 2, v[2]);
    var m3 := Store32(m2, 3, v[3]);
    var p: seq<nat> := [0, 1, 2, 3];
    assert p[1..] == [1, 2, 3] && p[1..][1..] == [2, 3] && p[1..][1..][1..] == [3] && p[1..][1..][1..][1..] == [];
    assert v[1..][0] == v[1] && v[1..][1..][0] == v[2] && v[1..][1..][1..][0] == v[3] && v[1..][1..][1..][1..] == [];
    assert StoreAll(m3, [], []) == m3;
    assert StoreAll(m2, p[1..][1..][1..], v[1..][1..][1..]) == m3;
    assert StoreAll(m1, p[1..][1..], v[1..][1..]) == m3;
    assert StoreAll(m0, p[1..], v[1..]) == m3;
  }

  lemma DottedFormat()
    ensures Complete(DOTTED, 0) && Conversions(DOTTED, 0) == 4
  {
    assert Complete(DOTTED, 9) && Conversions(DOTTED, 9) == 1;
    assert Complete(DOTTED, 6) && Conversions(DOTTED, 6) == 2;
    assert Complete(DOTTED, 3) && Conversions(DOTTED, 3) == 3;
  }

  /** `addr_strto_ipv4`, whose four one-byte variables are modelled with the three bytes behind them. */
  method AddrStrToIpv4(s: seq<char>) returns (r: Option<IPv4Addr>)
    ensures r == StrToIpv4(s)
  {
    var a := new byte[7];
    DottedFormat();
    ghost var before := a[..];
    ghost var sc := Scan(DOTTED, 0, s, 0);
    var count := Vsscanf(s, DOTTED, a, [0, 1, 2, 3]);
    if count == 4 {
      OverlappingStores(before, sc.values);
      assert forall i :: 0 <= i < 4 ==> a[i] == a[..][i];
      return Some(IPv4Addr(a[0], a[1], a[2], a[3]));
    }
    r := None;
  }

  /** Four dotted numbers of any size are accepted, and cut to bytes. */
  lemma NumbersAreCut(v: seq<int32>)
    requires |v| == 4
    ensures StrToIpv4(Dotted(v)) == Some(IPv4Addr(LowByte(v[0]), LowByte(v[1]), LowByte(v[2]), LowByte(v[3])))
  {
    DottedIsRead(v);
  }

  /** Every address survives being printed and read back. */
  lemma AddressRoundTrip(a: IPv4Addr)
    ensures StrToIpv4(Dotted(Numbers(a))) == Some(a)
  {
    hide StrToIpv4, Dotted;
    NumbersAreCut(Numbers(a));
  }

  // ---------- hardware addresses ----------

  const COLONS: seq<char> := "%02x:%02x:%02x:" + "%02x:%02x:%02x"

  /** A field "%02x" of the format. */
  predicate HexField(fmt: seq<char>, i: nat) {
    i + 4 <= |fmt| && fmt[i] == '%' && fmt[i + 1] == '0' && fmt[i + 2] == '2' && fmt[i + 3] == 'x'
  }

  lemma ColonsFormat()
    ensures |COLONS| == 29
    ensures HexField(COLONS, 0) && HexField(COLONS, 5) && HexField(COLONS, 10)
    ensures HexField(COLONS, 15) && HexField(COLONS, 20) && HexField(COLONS, 25)
    ensures COLONS[4] == ':' && COLONS[9] == ':' && COLONS[14] == ':' && COLONS[19] == ':' && COLONS[24] == ':'
  {}

  function EthArgs(a: EthAddr): seq<Arg> {
    [Uint(a.n0), Uint(a.n1), Uint(a.n2), Uint(a.n3), Uint(a.n4), Uint(a.n5)]
  }

  function HexPair(n: byte): (r: seq<char>)
    ensures |r| == 2
  {
    [Digit(n / 16, false), Digit(n % 16, false)]
  }

  function EthText(a: EthAddr): seq<char> {
    HexPair(a.n0) + (":" + (HexPair(a.n1) + (":" + (HexPair(a.n2) + (":" +
    (HexPair(a.n3) + (":" + (HexPair(a.n4) + (":" + HexPair(a.n5))))))))))
  }

  lemma PaddedPair(n: byte, d: Directive)
    requires d.zero && !d.left && d.width == 2
    ensures Padded(Numeral(n, 16, false), d) == HexPair(n)
  {
    if n < 16 {
      assert Repeat('0', 0) == [];
      assert Repeat('0', 1) == ['0'];
    } else {
      assert Numeral(n / 16, 16, false) == [Digit(n / 16, false)];
      assert Repeat('0', 0) == [];
    }
  }

  lemma PrintsHexPair(fmt: seq<char>, i: nat, args: seq<Arg>)
    requires HexField(fmt, i)
    requires args != [] && args[0].Uint? && args[0].u < 0x100 && WellFormed(fmt, i + 4, args[1..])
    ensures WellFormed(fmt, i, args) && Expand(fmt, i, args) == HexPair(args[0].u) + Expand(fmt, i + 4, args[1..])
  {
    assert Width(fmt, i + 3, 2) == (2, i + 3);
    assert Width(fmt, i + 2, 0) == (2, i + 3);
    var d := Directive(false, true, 2, 'x', i + 4);
    assert Parse(fmt, i + 1) == d;
    PaddedPair(args[0].u, d);
  }

  /** `addr_eth_tostr` always prints 17 characters, two hexadecimal digits for each byte. */
  lemma EthIsPrinted(a: EthAddr)
    ensures WellFormed(COLONS, 0, EthArgs(a)) && Expand(COLONS, 0, EthArgs(a)) == EthText(a)
    ensures |EthText(a)| == 17
  {
    hide HexPair, Parse, WellFormed, Expand, HexField, COLONS;
    ColonsFormat();
    var args := EthArgs(a);
    Format.EndStep(COLONS, args[6..]);
    PrintsHexPair(COLONS, 25, args[5..]);
    PrintsItself(COLONS, 24, args[5..]);
    PrintsHexPair(COLONS, 20, args[4..]);
    PrintsItself(COLONS, 19, args[4..]);
    PrintsHexPair(COLONS, 15, args[3..]);
    PrintsItself(COLONS, 14, args[3..]);
    PrintsHexPair(COLONS, 10, args[2..]);
    PrintsItself(COLONS, 9, args[2..]);
    PrintsHexPair(COLONS, 5, args[1..]);
    PrintsItself(COLONS, 4, args[1..]);
    PrintsHexPair(COLONS, 0, args);
    assert HexPair(a.n5) + [] == HexPair(a.n5);
  }
}
