/** Which destinations a route of src/net/route.c matches: bit by bit, and by prefix. */
module RouteMatching {
  import opened Words
  import opened Frames
  import opened RouteSpec

  function TwoTo(i: nat): (r: nat)
    ensures r > 0
  {
    if i == 0 then 1 else 2 * TwoTo(i - 1)
  }

  function Bit(x: nat, i: nat): nat {
    x / TwoTo(i) % 2
  }

  // ---------- bit by bit ----------

  lemma LowestBit(x: nat)
    ensures Bit(x, 0) == x % 2
  {}

  lemma HigherBit(x: nat, i: nat)
    requires i < 8
    ensures Bit(x, i + 1) == Bit(x / 2, i)
  {
    assert TwoTo(1) == 2 && TwoTo(2) == 4 && TwoTo(3) == 8 && TwoTo(4) == 16;
    assert TwoTo(5) == 32 && TwoTo(6) == 64 && TwoTo(7) == 128 && TwoTo(8) == 256;
    hide TwoTo;
  }

  lemma AndStep(x: nat, y: nat)
    ensures And(x, y) % 2 == 1 <==> x % 2 == 1 && y % 2 == 1
    ensures And(x, y) / 2 == And(x / 2, y / 2)
  {}

  lemma {:induction false} AndBit(x: nat, y: nat, i: nat)
    requires i < 8
    ensures Bit(And(x, y), i) == 1 <==> Bit(x, i) == 1 && Bit(y, i) == 1
    decreases i
  {
    AndStep(x, y);
    if i == 0 {
      LowestBit(x);
      LowestBit(y);
      LowestBit(And(x, y));
    } else {
      hide And, Bit;
      HigherBit(x, i - 1);
      HigherBit(y, i - 1);
      HigherBit(And(x, y), i - 1);
      AndBit(x / 2, y / 2, i - 1);
    }
  }

  lemma BitIsBinary(x: nat, i: nat)
    ensures Bit(x, i) == 0 || Bit(x, i) == 1
  {}

  /** Numbers below 2^n with the same `n` bits are the same. */
  lemma {:induction false} SameBits(x: nat, y: nat, n: nat)
    requires n <= 8 && x < TwoTo(n) && y < TwoTo(n)
    requires forall i :: 0 <= i < n ==> (Bit(x, i) == 1 <==> Bit(y, i) == 1)
    ensures x == y
  {
    if n > 0 {
      assert Bit(x, 0) == 1 <==> Bit(y, 0) == 1;
      LowestBit(x);
      LowestBit(y);
      hide Bit;
      forall i | 0 <= i < n - 1
        ensures Bit(x / 2, i) == 1 <==> Bit(y / 2, i) == 1
      {
        HigherBit(x, i);
        HigherBit(y, i);
        assert Bit(x, i + 1) == 1 <==> Bit(y, i + 1) == 1;
      }
      SameBits(x / 2, y / 2, n - 1);
    }
  }

  lemma {:induction false} AndBelow(x: nat, y: nat)
    ensures And(x, y) <= x
  {
    if x > 0 && y > 0 {
      AndBelow(x / 2, y / 2);
    }
  }

  lemma ByteMatches(x: byte, mask: byte, want: byte)
    ensures And(x, mask) == want <==>
            forall i :: 0 <= i < 8 ==> (Bit(want, i) == 1 <==> Bit(x, i) == 1 && Bit(mask, i) == 1)
  {
    AndBelow(x, mask);
    assert TwoTo(8) == 256;
    hide And, Bit, TwoTo;
    forall i | 0 <= i < 8
      ensures Bit(And(x, mask), i) == 1 <==> Bit(x, i) == 1 && Bit(mask, i) == 1
    {
      AndBit(x, mask, i);
    }
    if forall i :: 0 <= i < 8 ==> (Bit(want, i) == 1 <==> Bit(x, i) == 1 && Bit(mask, i) == 1) {
      SameBits(And(x, mask), want, 8);
    }
  }

  /** Bit `i` of byte `k` of an address. */
  function AddrBit(a: IPv4Addr, k: nat, i: nat): nat
    requires k < 4
  {
    Bit([a.n0, a.n1, a.n2, a.n3][k], i)
  }

  /** In each of the 32 positions the network has a one exactly where destination and mask both have one. */
  lemma MatchesBitByBit(r: Route, dst: IPv4Addr)
    ensures Matches(r, dst) <==>
            forall k, i :: 0 <= k < 4 && 0 <= i < 8 ==>
              (AddrBit(r.dst, k, i) == 1 <==> AddrBit(dst, k, i) == 1 && AddrBit(r.mask, k, i) == 1)
  {
    hide And, Bit;
    ByteMatches(dst.n0, r.mask.n0, r.dst.n0);
    ByteMatches(dst.n1, r.mask.n1, r.dst.n1);
    ByteMatches(dst.n2, r.mask.n2, r.dst.n2);
    ByteMatches(dst.n3, r.mask.n3, r.dst.n3);
    if Matches(r, dst) {
      forall k, i | 0 <= k < 4 && 0 <= i < 8
        ensures AddrBit(r.dst, k, i) == 1 <==> AddrBit(dst, k, i) == 1 && AddrBit(r.mask, k, i) == 1
      {}
    } else {
      var k := if And(dst.n0, r.mask.n0) != r.dst.n0 then 0 else if And(dst.n1, r.mask.n1) != r.dst.n1 then 1
               else if And(dst.n2, r.mask.n2) != r.dst.n2 then 2 else 3;
      var d, m := [dst.n0, dst.n1, dst.n2, dst.n3][k], [r.mask.n0, r.mask.n1, r.mask.n2, r.mask.n3][k];
      var w := [r.dst.n0, r.dst.n1, r.dst.n2, r.dst.n3][k];
      var i :| 0 <= i < 8 && !(Bit(w, i) == 1 <==> Bit(d, i) == 1 && Bit(m, i) == 1);
      assert !(AddrBit(r.dst, k, i) == 1 <==> AddrBit(dst, k, i) == 1 && AddrBit(r.mask, k, i) == 1);
    }
  }

  // ---------- by prefix ----------

  /** An address as a number, in the order it is written. */
  function Number(a: IPv4Addr): nat {
    0x100 * (0x100 * (0x100 * (a.n0 as int) + a.n1) + a.n2) + a.n3
  }

  lemma LastByte(h: nat, x: byte, g: nat, y: byte)
    ensures 0x100 * h + x == 0x100 * g + y <==> h == g && x == y
  {}

  lemma SameNumber(a: IPv4Addr, b: IPv4Addr)
    ensures Number(a) == Number(b) <==> a == b
  {
    LastByte(0x100 * (0x100 * (a.n0 as int) + a.n1) + a.n2, a.n3, 0x100 * (0x100 * (b.n0 as int) + b.n1) + b.n2, b.n3);
    LastByte(0x100 * (a.n0 as int) + a.n1, a.n2, 0x100 * (b.n0 as int) + b.n1, b.n2);
    LastByte(a.n0, a.n1, b.n0, b.n1);
  }

  /** h * 2^n */
  function Doubled(h: nat, n: nat): nat {
    if n == 0 then h else 2 * Doubled(h, n - 1)
  }

  lemma AtLeast(d: nat, m: nat)
    requires m > 0
    ensures d * m >= d
  {
    assert d * m == d * (m - 1) + d;
  }

  lemma Minus(d: int, a: int, b: int)
    ensures d * a - d * b == d * (a - b)
  {}

  lemma UniqueQuotient(d: nat, a: nat, r: nat, b: nat, s: nat)
    requires r < d && s < d && d * a + r == d * b + s
    ensures a == b
  {
    Minus(d, a, b);
    Minus(d, b, a);
    if a > b {
      AtLeast(d, a - b);
    } else if b > a {
      AtLeast(d, b - a);
    }
  }

  lemma Divided(n: nat, d: nat)
    requires d > 0
    ensures n == d * (n / d) + n % d && n % d < d
  {}

  lemma QuotientIs(n: nat, d: nat, q: nat, r: nat)
    requires r < d && n == d * q + r
    ensures n / d == q && n % d == r
  {
    Divided(n, d);
    UniqueQuotient(d, q, r, n / d, n % d);
  }

  lemma TwiceTimes(d: nat, q: nat)
    ensures 2 * d * q == 2 * (d * q)
  {}

  lemma HalveThenDivide(x: nat, d: nat)
    requires d > 0
    ensures x / (2 * d) == x / 2 / d
  {
    var q, r := x / 2 / d, x / 2 % d;
    Divided(x / 2, d);
    TwiceTimes(d, q);
    QuotientIs(x, 2 * d, q, 2 * r + x % 2);
  }

  lemma {:induction false} DoubledIsProduct(h: nat, n: nat)
    ensures Doubled(h, n) == TwoTo(n) * h
  {
    if n > 0 {
      DoubledIsProduct(h, n - 1);
      TwiceTimes(TwoTo(n - 1), h);
    }
  }

  /** x == 2 * half + bit */
  lemma Halves(x: nat) returns (half: nat, bit: nat)
    ensures half <= x && bit < 2 && x == 2 * half + bit
  {
    half, bit := x / 2, x % 2;
  }

  lemma AndPair(v: nat, w: nat, x: nat, a: nat, y: nat, b: nat)
    requires a < 2 && b < 2 && v == 2 * x + a && w == 2 * y + b
    ensures And(v, w) == 2 * And(x, y) + if a == 1 && b == 1 then 1 else 0
  {
    assert v / 2 == x && v % 2 == a && w / 2 == y && w % 2 == b;
  }

  /** Words are compared byte by byte. */
  lemma {:induction false} AndJoin(h: nat, g: nat, x: nat, y: nat, n: nat, v: nat, w: nat)
    requires x < TwoTo(n) && y < TwoTo(n) && v == Doubled(h, n) + x && w == Doubled(g, n) + y
    ensures And(v, w) == Doubled(And(h, g), n) + And(x, y)
    decreases n
  {
    if n > 0 {
      var x2, a := Halves(x);
      var y2, b := Halves(y);
      var v2, w2 := Doubled(h, n - 1) + x2, Doubled(g, n - 1) + y2;
      assert TwoTo(n) == 2 * TwoTo(n - 1);
      assert Doubled(h, n) == 2 * Doubled(h, n - 1) && Doubled(g, n) == 2 * Doubled(g, n - 1);
      assert Doubled(And(h, g), n) == 2 * Doubled(And(h, g), n - 1);
      hide *;
      AndJoin(h, g, x2, y2, n - 1, v2, w2);
      AndPair(x, y, x2, a, y2, b);
      AndPair(v, w, v2, a, w2, b);
    }
  }

  lemma DoubledEight(h: nat)
    ensures Doubled(h, 8) == 0x100 * h
  {
    assert Doubled(h, 1) == 2 * h;
    assert Doubled(h, 3) == 8 * h;
    assert Doubled(h, 5) == 0x20 * h;
    assert Doubled(h, 7) == 0x80 * h;
  }

  lemma JoinByte(h: nat, g: nat, x: byte, y: byte)
    ensures And(0x100 * h + x, 0x100 * g + y) == 0x100 * And(h, g) + And(x, y)
  {
    assert TwoTo(8) == 0x100;
    DoubledEight(h);
    DoubledEight(g);
    DoubledEight(And(h, g));
    hide *;
    AndJoin(h, g, x, y, 8, 0x100 * h + x, 0x100 * g + y);
  }

  function AndByte(x: byte, y: byte): byte {
    AndBelow(x, y);
    And(x, y)
  }

  function Masked(a: IPv4Addr, mask: IPv4Addr): IPv4Addr {
    IPv4Addr(AndByte(a.n0, mask.n0), AndByte(a.n1, mask.n1), AndByte(a.n2, mask.n2), AndByte(a.n3, mask.n3))
  }

  lemma MatchesMasked(r: Route, dst: IPv4Addr)
    ensures Matches(r, dst) <==> Masked(dst, r.mask) == r.dst
  {
    hide And;
  }

  lemma MaskedNumber(a: IPv4Addr, mask: IPv4Addr)
    ensures Number(Masked(a, mask)) == And(Number(a), Number(mask))
  {
    hide And;
    JoinByte(a.n0, mask.n0, a.n1, mask.n1);
    JoinByte(0x100 * (a.n0 as int) + a.n1, 0x100 * (mask.n0 as int) + mask.n1, a.n2, mask.n2);
    JoinByte(0x100 * (0x100 * (a.n0 as int) + a.n1) + a.n2, 0x100 * (0x100 * (mask.n0 as int) + mask.n1) + mask.n2, a.n3, mask.n3);
  }

  lemma {:induction false} TwoToGrows(j: nat, n: nat)
    requires j <= n
    ensures TwoTo(j) <= TwoTo(n)
  {
    if j < n {
      TwoToGrows(j, n - 1);
    }
  }

  function Quotient(x: nat, d: nat): nat
    requires d > 0
  {
    x / d
  }

  /** All bits of `x` but the last `j`. */
  function Front(x: nat, j: nat): nat {
    Quotient(x, TwoTo(j))
  }

  lemma FrontStep(x: nat, h: nat, b: nat, j: nat)
    requires 0 < j && b < 2 && x == 2 * h + b
    ensures Front(x, j) == Front(h, j - 1)
  {
    assert x / 2 == h;
    HalveThenDivide(x, TwoTo(j - 1));
  }

  lemma NotDoubled(h: nat)
    ensures Doubled(h, 0) == h
  {}

  lemma FrontIsAll(x: nat)
    ensures Front(x, 0) == x
  {}

  /** `n` ones of which the last `j` are cleared keep all bits but the last `j`. */
  lemma {:induction false} AndOnes(x: nat, n: nat, j: nat, y: nat)
    requires j <= n && x < TwoTo(n) && y + TwoTo(j) == TwoTo(n)
    ensures And(x, y) == Doubled(Front(x, j), j)
    decreases n
  {
    if n > 0 {
      var h, b := Halves(x);
      assert TwoTo(n) == 2 * TwoTo(n - 1) && TwoTo(0) == 1 && (j > 0 ==> TwoTo(j) == 2 * TwoTo(j - 1));
      var f := Front(x, j);
      assert Doubled(f, 0) == f && (j > 0 ==> Doubled(f, j) == 2 * Doubled(f, j - 1));
      hide *;
      var y2 := TwoTo(n - 1) - TwoTo(if j > 0 then j - 1 else 0);
      if j > 0 {
        TwoToGrows(j - 1, n - 1);
        AndOnes(h, n - 1, j - 1, y2);
        FrontStep(x, h, b, j);
        AndPair(x, y, h, b, y2, 0);
      } else {
        TwoToGrows(0, n - 1);
        AndOnes(h, n - 1, 0, y2);
        FrontIsAll(x);
        FrontIsAll(h);
        NotDoubled(h);
        AndPair(x, y, h, b, y2, 1);
      }
    } else {
      FrontIsAll(x);
    }
  }

  lemma MaskByteIs(k: nat)
    requires k <= 8
    ensures MaskByte(k) == 0x100 - TwoTo(8 - k)
  {
    assert TwoTo(0) == 1 && TwoTo(1) == 2 && TwoTo(2) == 4 && TwoTo(3) == 8 && TwoTo(4) == 16;
    assert TwoTo(5) == 32 && TwoTo(6) == 64 && TwoTo(7) == 128 && TwoTo(8) == 256;
    hide TwoTo;
  }

  lemma EightMore(i: nat)
    ensures TwoTo(i + 8) == 0x100 * TwoTo(i)
  {
    assert TwoTo(i + 2) == 4 * TwoTo(i);
    assert TwoTo(i + 4) == 0x10 * TwoTo(i);
    assert TwoTo(i + 6) == 0x40 * TwoTo(i);
  }

  lemma BytesOfMask(p: nat, q: nat)
    requires 8 * q <= p <= 8 * q + 8 && q < 4
    ensures var m := PrefixMask(p);
      m.n0 == (if q > 0 then 0xFF else 0x100 - TwoTo(8 - p)) &&
      m.n1 == (if q > 1 then 0xFF else if q < 1 then 0 else 0x100 - TwoTo(16 - p)) &&
      m.n2 == (if q > 2 then 0xFF else if q < 2 then 0 else 0x100 - TwoTo(24 - p)) &&
      m.n3 == if q < 3 then 0 else 0x100 - TwoTo(32 - p)
  {
    MaskByteIs(p - 8 * q);
    hide TwoTo;
  }

  /** A prefix mask is `p` ones in front of zeros. */
  lemma PrefixMaskIs(p: nat)
    requires p <= 32
    ensures TwoTo(32 - p) <= TWO_32 && Number(PrefixMask(p)) == TWO_32 - TwoTo(32 - p)
  {
    hide TwoTo, PrefixMask;
    if p <= 8 {
      BytesOfMask(p, 0);
      EightMore(8 - p);
      EightMore(16 - p);
      EightMore(24 - p);
    } else if p <= 16 {
      BytesOfMask(p, 1);
      EightMore(16 - p);
      EightMore(24 - p);
    } else if p <= 24 {
      BytesOfMask(p, 2);
      EightMore(24 - p);
    } else {
      BytesOfMask(p, 3);
    }
  }

  lemma ThirtyTwo()
    ensures TwoTo(32) == TWO_32
  {
    EightMore(0);
    EightMore(8);
    EightMore(16);
    EightMore(24);
  }

  lemma SameDoubled(a: nat, b: nat, e: nat)
    requires b % TwoTo(e) == 0
    ensures Doubled(a, e) == b <==> a == Front(b, e)
  {
    DoubledIsProduct(a, e);
    Divided(b, TwoTo(e));
    hide TwoTo, Doubled;
    if TwoTo(e) * a == b {
      UniqueQuotient(TwoTo(e), a, 0, b / TwoTo(e), 0);
    }
  }

  /** The comparison of the kernel, on whole words. */
  lemma MatchesWord(r: Route, dst: IPv4Addr)
    ensures Matches(r, dst) <==> And(Number(dst), Number(r.mask)) == Number(r.dst)
  {
    hide *;
    MatchesMasked(r, dst);
    MaskedNumber(dst, r.mask);
    SameNumber(Masked(dst, r.mask), r.dst);
  }

  lemma NumberFits(a: IPv4Addr)
    ensures Number(a) < TWO_32
  {}

  lemma PrefixKept(r: Route, p: nat, dst: IPv4Addr)
    requires p <= 32 && r.mask == PrefixMask(p)
    ensures Matches(r, dst) <==> Doubled(Front(Number(dst), 32 - p), 32 - p) == Number(r.dst)
  {
    hide *;
    MatchesWord(r, dst);
    NumberFits(dst);
    ThirtyTwo();
    PrefixMaskIs(p);
    AndOnes(Number(dst), 32, 32 - p, Number(r.mask));
  }

  /**
   Longest-prefix matching of RFC 1812, section 5.2.4.3: a route for a network of `p` bits matches
   exactly the destinations whose first `p` bits are the network's.
   */
  lemma MatchesByPrefix(r: Route, p: nat, dst: IPv4Addr)
    requires p <= 32 && r.mask == PrefixMask(p) && Number(r.dst) % TwoTo(32 - p) == 0
    ensures Matches(r, dst) <==> Number(dst) / TwoTo(32 - p) == Number(r.dst) / TwoTo(32 - p)
  {
    PrefixKept(r, p, dst);
    SameDoubled(Front(Number(dst), 32 - p), Number(r.dst), 32 - p);
    hide Matches, Number, TwoTo, Doubled, PrefixMask;
  }

  /** A mistaken route: a network with a one behind its mask matches nothing. */
  lemma StrayBitMatchesNothing(r: Route, dst: IPv4Addr, k: nat, i: nat)
    requires k < 4 && i < 8 && AddrBit(r.dst, k, i) == 1 && AddrBit(r.mask, k, i) != 1
    ensures !Matches(r, dst)
  {
    MatchesBitByBit(r, dst);
    hide Matches, AddrBit;
  }

  /** Masks are compared with their bytes in the opposite order: the last byte counts most. */
  lemma MasksAreReversed(a: IPv4Addr)
    ensures Bits(a) == Number(IPv4Addr(a.n3, a.n2, a.n1, a.n0))
  {}

  ghost predicate FirstMatch(s: seq<Route>, dst: IPv4Addr, i: nat) {
    i < |s| && Matches(s[i], dst) && forall j :: 0 <= j < i ==> !Matches(s[j], dst)
  }

  lemma FoundAt(s: seq<Route>, dst: IPv4Addr) returns (i: nat)
    requires Find(s, dst).Some?
    ensures FirstMatch(s, dst, i) && s[i] == Find(s, dst).value
  {
    hide Matches;
    i :| 0 <= i < |s| && s[i] == Find(s, dst).value && Matches(s[i], dst) && forall j :: 0 <= j < i ==> !Matches(s[j], dst);
  }

  /** Where a packet goes next: to the gateway of the first route that matches, or straight to its destination. */
  lemma NextHopIff(s: seq<Route>, dst: IPv4Addr, next: IPv4Addr)
    ensures NextHop(s, dst) == Some(next) <==>
            exists i: nat :: FirstMatch(s, dst, i) && next == if s[i].gateway == IPv4Addr(0, 0, 0, 0) then dst else s[i].gateway
  {
    if Find(s, dst).Some? {
      var i := FoundAt(s, dst);
      hide FirstMatch, Find;
      assert next == (if s[i].gateway == IPv4Addr(0, 0, 0, 0) then dst else s[i].gateway) ==> NextHop(s, dst) == Some(next);
    }
    forall i: nat | FirstMatch(s, dst, i)
      ensures Find(s, dst) == Some(s[i])
    {
      FindIs(s, dst, i);
    }
    hide FirstMatch, Find;
  }
}
