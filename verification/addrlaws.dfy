/** Which texts src/net/addr.c takes for addresses, told from their characters alone. */
module AddrLaws {
  import opened Words
  import opened Frames
  import opened FormatSpec
  import opened ScanSpec
  import opened Scanner
  import opened Addr
  import opened FormatLaws

  // ---------- a number in a text ----------

  predicate IsDecimal(c: char) { '0' <= c <= '9' }

  /** Where the digits of a number at `a` begin. */
  function DigitsFrom(s: seq<char>, a: nat): nat
    requires a < |s|
  {
    if s[a] == '-' then a + 1 else a
  }

  /** An optional minus sign and all the digits behind it, if any; there has to be something at `a`. */
  ghost predicate NumberField(s: seq<char>, a: nat, b: nat) {
    && a < |s| && DigitsFrom(s, a) <= b <= |s|
    && (forall i :: DigitsFrom(s, a) <= i < b ==> IsDecimal(s[i]))
    && (b < |s| ==> !IsDecimal(s[b]))
  }

  /** The number modulo 256. */
  ghost function FieldByte(s: seq<char>, a: nat, b: nat): byte
    requires NumberField(s, a, b)
  {
    var n := ValueOf(s[DigitsFrom(s, a)..b], 10);
    (if s[a] == '-' then -(n as int) else n) % 256
  }

  lemma {:induction false} FindEnd(s: seq<char>, k: nat) returns (b: nat)
    requires k <= |s|
    ensures k <= b <= |s| && (forall i :: k <= i < b ==> IsDecimal(s[i])) && (b < |s| ==> !IsDecimal(s[b]))
    decreases |s| - k
  {
    b := k;
    if k < |s| && IsDecimal(s[k]) {
      b := FindEnd(s, k + 1);
    }
  }

  lemma FindField(s: seq<char>, a: nat) returns (b: nat)
    requires a < |s|
    ensures NumberField(s, a, b)
  {
    b := FindEnd(s, DigitsFrom(s, a));
  }

  lemma Zero()
    ensures ToInt32(0) == 0
  {}

  /** The digit loop reads the digits between `k` and `b`. */
  lemma {:induction false} DigitsAre(s: seq<char>, k: nat, b: nat, x: nat)
    requires k <= b <= |s| && (forall i :: k <= i < b ==> IsDecimal(s[i])) && (b < |s| ==> !IsDecimal(s[b]))
    ensures forall c :: c in s[k..b] ==> IsDigit(c)
    ensures Digits(s, k, ToInt32(x)) == (ToInt32(Shifted(x, s[k..b])), b)
    decreases b - k
  {
    hide ToInt32;
    if k < b {
      DigitsAre(s, k + 1, b, 10 * x + HexValue(s[k]));
      assert s[k..b][1..] == s[k + 1..b];
      ToInt32Step(x, HexValue(s[k]));
    }
  }

  lemma SameByte(x: int, y: int, k: int)
    requires x == y + 256 * k
    ensures x % 256 == y % 256
  {}

  lemma LowByteIs(x: int)
    ensures LowByte(ToInt32(x)) == x % 256
  {
    var q := x / TWO_32;
    var t: int := ToInt32(x);
    assert x == t + 256 * (0x100_0000 * q) || x == t + 256 * (0x100_0000 * (q + 1));
    SameByte(x, t, if x == t + 256 * (0x100_0000 * q) then 0x100_0000 * q else 0x100_0000 * (q + 1));
  }

  lemma NegatedByte(n: nat)
    ensures LowByte(ToInt32(-(ToInt32(n) as int))) == -(n as int) % 256
  {
    LowByteIs(-(n as int));
    var t: int := ToInt32(n);
    var q := n / TWO_32;
    assert n == t + TWO_32 * q || n == t + TWO_32 * (q + 1);
    SameInt32(-t, -(n as int), if n == t + TWO_32 * q then -q else -q - 1);
  }

  /** %d reads a field, and its low byte is the number modulo 256. */
  lemma FieldIsRead(s: seq<char>, a: nat, b: nat)
    requires NumberField(s, a, b)
    ensures Number(s, a).Some? && Number(s, a).value.1 == b && LowByte(Number(s, a).value.0) == FieldByte(s, a, b)
  {
    var m := DigitsFrom(s, a);
    Zero();
    DigitsAre(s, m, b, 0);
    ShiftedValue(s[m..b]);
    LowByteIs(ValueOf(s[m..b], 10));
    NegatedByte(ValueOf(s[m..b], 10));
    hide LowByte, ToInt32, ValueOf, Digits;
  }

  // ---------- four of them ----------

  predicate Dot(s: seq<char>, k: nat) {
    k < |s| && s[k] == '.'
  }

  /** Four number fields with dots in between, then anything. */
  ghost predicate IsAddress(s: seq<char>, e0: nat, e1: nat, e2: nat, e3: nat) {
    && NumberField(s, 0, e0) && Dot(s, e0) && NumberField(s, e0 + 1, e1) && Dot(s, e1)
    && NumberField(s, e1 + 1, e2) && Dot(s, e2) && NumberField(s, e2 + 1, e3)
  }

  lemma SomeNumber(s: seq<char>, k: nat)
    ensures Number(s, k).Some? <==> k < |s|
  {}

  /** What a scan does at a %d. */
  lemma ScanField(i: nat, s: seq<char>, k: nat)
    requires i + 1 < |DOTTED| && DOTTED[i] == '%' && DOTTED[i + 1] == 'd'
    ensures k >= |s| ==> Scan(DOTTED, i, s, k).values == []
    ensures k < |s| ==> Number(s, k).Some? &&
                        Scan(DOTTED, i, s, k).values == [Number(s, k).value.0] + Scan(DOTTED, i + 2, s, Number(s, k).value.1).values
  {
    hide Number;
    assert k < |s| ==> Number(s, k).Some? by { SomeNumber(s, k); }
    assert k >= |s| ==> Number(s, k).None? by { SomeNumber(s, k); }
  }

  /** What it does at a dot. */
  lemma ScanDot(i: nat, s: seq<char>, k: nat)
    requires i < |DOTTED| && DOTTED[i] == '.'
    ensures Scan(DOTTED, i, s, k).values == if Dot(s, k) then Scan(DOTTED, i + 1, s, k + 1).values else []
  {}

  /** A field and the dot behind it. */
  lemma FieldThenDot(i: nat, s: seq<char>, k: nat, b: nat)
    requires i + 2 < |DOTTED| && DOTTED[i] == '%' && DOTTED[i + 1] == 'd' && DOTTED[i + 2] == '.'
    requires NumberField(s, k, b)
    ensures var values := Scan(DOTTED, i, s, k).values;
      |values| > 0 && LowByte(values[0]) == FieldByte(s, k, b) &&
      values[1..] == if Dot(s, b) then Scan(DOTTED, i + 3, s, b + 1).values else []
  {
    FieldIsRead(s, k, b);
    ScanField(i, s, k);
    ScanDot(i + 2, s, b);
    hide LowByte, Scan, Number;
  }

  lemma LastField(s: seq<char>, k: nat, b: nat)
    requires NumberField(s, k, b)
    ensures |Scan(DOTTED, 9, s, k).values| == 1 && LowByte(Scan(DOTTED, 9, s, k).values[0]) == FieldByte(s, k, b)
  {
    FieldIsRead(s, k, b);
    ScanField(9, s, k);
    FormatEnds(DOTTED, s, b);
    hide LowByte, Scan, Number;
  }

  lemma AcceptedIf(s: seq<char>)
    ensures StrToIpv4(s).Some? <==> |Scan(DOTTED, 0, s, 0).values| == 4
    ensures StrToIpv4(s).Some? ==>
              var v := Scan(DOTTED, 0, s, 0).values;
              StrToIpv4(s) == Some(IPv4Addr(LowByte(v[0]), LowByte(v[1]), LowByte(v[2]), LowByte(v[3])))
  {
    hide Scan, LowByte;
  }

  /** The value of an accepted text: its numbers modulo 256, in the order they are written. */
  lemma AcceptedValue(s: seq<char>, e0: nat, e1: nat, e2: nat, e3: nat)
    requires IsAddress(s, e0, e1, e2, e3)
    ensures StrToIpv4(s) ==
            Some(IPv4Addr(FieldByte(s, 0, e0), FieldByte(s, e0 + 1, e1), FieldByte(s, e1 + 1, e2), FieldByte(s, e2 + 1, e3)))
  {
    AcceptedIf(s);
    hide Scan, StrToIpv4, NumberField, FieldByte, LowByte;
    FieldThenDot(0, s, 0, e0);
    FieldThenDot(3, s, e0 + 1, e1);
    FieldThenDot(6, s, e1 + 1, e2);
    LastField(s, e2 + 1, e3);
  }

  lemma FieldFound(i: nat, s: seq<char>, k: nat) returns (e: nat)
    requires i + 2 < |DOTTED| && DOTTED[i] == '%' && DOTTED[i + 1] == 'd' && DOTTED[i + 2] == '.'
    requires Scan(DOTTED, i, s, k).values != []
    ensures NumberField(s, k, e)
    ensures |Scan(DOTTED, i, s, k).values| == 1 + if Dot(s, e) then |Scan(DOTTED, i + 3, s, e + 1).values| else 0
  {
    ScanField(i, s, k);
    hide Scan, NumberField, Dot;
    e := FindField(s, k);
    FieldThenDot(i, s, k, e);
  }

  /** Where a field is missing the scan stops. */
  lemma Shape(s: seq<char>) returns (e0: nat, e1: nat, e2: nat, e3: nat)
    requires StrToIpv4(s).Some?
    ensures IsAddress(s, e0, e1, e2, e3)
  {
    AcceptedIf(s);
    hide Scan, StrToIpv4, NumberField, Dot;
    e0 := FieldFound(0, s, 0);
    e1 := FieldFound(3, s, e0 + 1);
    e2 := FieldFound(6, s, e1 + 1);
    ScanField(9, s, e2 + 1);
    e3 := FindField(s, e2 + 1);
  }

  /** `addr_strto_ipv4` accepts exactly the texts that begin with four number fields with dots in between. */
  lemma AcceptedIff(s: seq<char>)
    ensures StrToIpv4(s).Some? <==> exists e0, e1, e2, e3 :: IsAddress(s, e0, e1, e2, e3)
  {
    hide StrToIpv4, IsAddress;
    if StrToIpv4(s).Some? {
      var e0, e1, e2, e3 := Shape(s);
    }
    if e0, e1, e2, e3 :| IsAddress(s, e0, e1, e2, e3) {
      AcceptedValue(s, e0, e1, e2, e3);
    }
  }

  /** A host name, or any text that begins with neither digit nor sign nor dot, is refused. */
  lemma NamesAreRefused(s: seq<char>)
    requires s != [] ==> !IsDecimal(s[0]) && s[0] != '-' && s[0] != '.'
    ensures StrToIpv4(s) == None
  {
    hide StrToIpv4;
    if StrToIpv4(s).Some? {
      var e0, e1, e2, e3 := Shape(s);
    }
  }

  // ---------- hardware addresses ----------

  lemma PairDenotes(n: byte)
    ensures ValueOf(HexPair(n), 16) == n
  {
    DigitDenotes(n / 16, false);
    DigitDenotes(n % 16, false);
    ValueAppend([Digit(n / 16, false)], Digit(n % 16, false), 16);
    ValueAppend([], Digit(n / 16, false), 16);
    assert [Digit(n / 16, false)] + [Digit(n % 16, false)] == HexPair(n);
    assert [] + [Digit(n / 16, false)] == [Digit(n / 16, false)];
    NothingIsZero(16);
    hide Digit, HexValue, ValueOf;
  }

  /** A pair and a colon at `i`, and what comes behind them. */
  lemma PairThenColon(t: seq<char>, i: nat, pair: seq<char>, rest: seq<char>)
    requires i <= |t| && |pair| == 2 && t[i..] == pair + (":" + rest)
    ensures i + 3 <= |t| && t[i..i + 2] == pair && t[i + 2] == ':' && t[i + 3..] == rest
  {
    assert t[i..i + 2] == t[i..][..2];
    assert t[i + 2] == t[i..][2];
    assert t[i + 3..] == t[i..][3..];
  }

  lemma PairsAt(a: EthAddr)
    ensures var t := EthText(a);
      |t| == 17 && t[0..2] == HexPair(a.n0) && t[3..5] == HexPair(a.n1) && t[6..8] == HexPair(a.n2) &&
      t[9..11] == HexPair(a.n3) && t[12..14] == HexPair(a.n4) && t[15..17] == HexPair(a.n5)
    ensures var t := EthText(a); t[2] == t[5] == t[8] == t[11] == t[14] == ':'
  {
    var t := EthText(a);
    var r5 := HexPair(a.n5);
    var r4 := HexPair(a.n4) + (":" + r5);
    var r3 := HexPair(a.n3) + (":" + r4);
    var r2 := HexPair(a.n2) + (":" + r3);
    var r1 := HexPair(a.n1) + (":" + r2);
    assert t[0..] == t == HexPair(a.n0) + (":" + r1);
    hide HexPair, EthText;
    PairThenColon(t, 0, HexPair(a.n0), r1);
    PairThenColon(t, 3, HexPair(a.n1), r2);
    PairThenColon(t, 6, HexPair(a.n2), r3);
    PairThenColon(t, 9, HexPair(a.n3), r4);
    PairThenColon(t, 12, HexPair(a.n4), r5);
    assert t[15..17] == t[15..];
  }

  lemma PairLooks(t: seq<char>, i: nat, n: byte)
    requires i + 2 <= |t| && t[i..i + 2] == HexPair(n)
    ensures IsHexDigit(t[i], false) && IsHexDigit(t[i + 1], false)
  {
    assert t[i] == t[i..i + 2][0] && t[i + 1] == t[i..i + 2][1];
    DigitDenotes(n / 16, false);
    DigitDenotes(n % 16, false);
    hide IsHexDigit, Digit;
  }

  /** The text of a hardware address is its six bytes in order, two lower-case hexadecimal digits each. */
  lemma EthTextDenotes(a: EthAddr)
    ensures var t := EthText(a);
      && |t| == 17
      && ValueOf(t[0..2], 16) == a.n0 && ValueOf(t[3..5], 16) == a.n1 && ValueOf(t[6..8], 16) == a.n2
      && ValueOf(t[9..11], 16) == a.n3 && ValueOf(t[12..14], 16) == a.n4 && ValueOf(t[15..17], 16) == a.n5
  {
    PairsAt(a);
    PairDenotes(a.n0);
    PairDenotes(a.n1);
    PairDenotes(a.n2);
    PairDenotes(a.n3);
    PairDenotes(a.n4);
    PairDenotes(a.n5);
    hide *;
  }

  lemma EthTextLooks(a: EthAddr)
    ensures var t := EthText(a);
      |t| == 17 && forall i :: 0 <= i < 17 ==> if i in {2, 5, 8, 11, 14} then t[i] == ':' else IsHexDigit(t[i], false)
  {
    var t := EthText(a);
    PairsAt(a);
    hide *;
    PairLooks(t, 0, a.n0);
    PairLooks(t, 3, a.n1);
    PairLooks(t, 6, a.n2);
    PairLooks(t, 9, a.n3);
    PairLooks(t, 12, a.n4);
    PairLooks(t, 15, a.n5);
  }
}
