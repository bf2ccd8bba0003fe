/** The route table of src/net/route.c: its order, as a function of the insertions. */
module RouteSpec {
  import opened Words
  import opened Rings
  import opened Frames

  /** A gateway of 0.0.0.0 means the destination is on the link. */
  datatype Route = Route(dst: IPv4Addr, mask: IPv4Addr, gateway: IPv4Addr)

  /** The address as the kernel compares it: a little-endian word. */
  function Bits(a: IPv4Addr): uint32 {
    a.n0 as int + 0x100 * (a.n1 as int) + 0x1_0000 * (a.n2 as int) + 0x100_0000 * (a.n3 as int)
  }

  /** Bitwise and of two bytes. */
  function And(x: nat, y: nat): nat {
    if x == 0 || y == 0 then 0 else 2 * And(x / 2, y / 2) + if x % 2 == 1 && y % 2 == 1 then 1 else 0
  }

  predicate Matches(r: Route, dst: IPv4Addr) {
    && And(dst.n0, r.mask.n0) == r.dst.n0
    && And(dst.n1, r.mask.n1) == r.dst.n1
    && And(dst.n2, r.mask.n2) == r.dst.n2
    && And(dst.n3, r.mask.n3) == r.dst.n3
  }

  // ---------- insertion ----------

  /** Index of the first route with a larger mask, or the number of routes. */
  function FirstLarger(s: seq<Route>, mask: IPv4Addr): (k: nat)
    ensures k <= |s|
    ensures forall i :: 0 <= i < k ==> Bits(s[i].mask) <= Bits(mask)
    ensures k < |s| ==> Bits(s[k].mask) > Bits(mask)
  {
    if s == [] then 0
    else if Bits(s[0].mask) > Bits(mask) then 0
    else
      var k := FirstLarger(s[1..], mask);
      assert forall i :: 1 <= i < k + 1 ==> s[i] == s[1..][i - 1];
      k + 1
  }

  lemma FirstLargerIs(s: seq<Route>, mask: IPv4Addr, k: nat)
    requires k <= |s|
    requires forall i :: 0 <= i < k ==> Bits(s[i].mask) <= Bits(mask)
    requires k < |s| ==> Bits(s[k].mask) > Bits(mask)
    ensures FirstLarger(s, mask) == k
  {}

  /** `net_route_add`: right behind the first larger mask, or in front if there is none. */
  function InsertRoute(s: seq<Route>, r: Route): seq<Route> {
    var k := FirstLarger(s, r.mask);
    if k < |s| then Insert(s, k + 1, r) else Insert(s, 0, r)
  }

  /** `net_route_find`: the first route that matches. */
  function Find(s: seq<Route>, dst: IPv4Addr): (r: Option<Route>)
    ensures r.None? <==> forall i :: 0 <= i < |s| ==> !Matches(s[i], dst)
    ensures r.Some? ==> exists i :: 0 <= i < |s| && s[i] == r.value && Matches(s[i], dst) &&
                                    forall j :: 0 <= j < i ==> !Matches(s[j], dst)
  {
    if s == [] then None
    else if Matches(s[0], dst) then Some(s[0])
    else
      assert forall i :: 1 <= i < |s| ==> s[i] == s[1..][i - 1];
      Find(s[1..], dst)
  }

  /** `net_route_next_addr` of the route found: its gateway, or the destination itself. */
  function NextHop(s: seq<Route>, dst: IPv4Addr): Option<IPv4Addr> {
    match Find(s, dst)
    case None => None
    case Some(route) => Some(if route.gateway == NULL_IP then dst else route.gateway)
  }

  lemma {:induction false} FindIs(s: seq<Route>, dst: IPv4Addr, k: nat)
    requires k <= |s| && forall i :: 0 <= i < k ==> !Matches(s[i], dst)
    requires k < |s| ==> Matches(s[k], dst)
    ensures Find(s, dst) == if k < |s| then Some(s[k]) else None
    decreases k
  {
    if k > 0 {
      FindIs(s[1..], dst, k - 1);
    }
  }

  function Build(rs: seq<Route>): seq<Route> {
    if rs == [] then [] else InsertRoute(Build(rs[..|rs| - 1]), rs[|rs| - 1])
  }

  // ---------- what every table keeps ----------

  ghost predicate HeadIsLargest(s: seq<Route>) {
    forall i :: 0 <= i < |s| ==> Bits(s[i].mask) <= Bits(s[0].mask)
  }

  lemma InsertConserves(s: seq<Route>, r: Route)
    ensures multiset(InsertRoute(s, r)) == multiset(s) + multiset{r}
  {
    var k := if FirstLarger(s, r.mask) < |s| then FirstLarger(s, r.mask) + 1 else 0;
    assert s == s[..k] + s[k..];
  }

  /**
   Below its largest mask the table is a stack: a route with a mask at least as large as the head's
   becomes the head, any other goes right behind the head.
   */
  lemma InsertIsPush(s: seq<Route>, r: Route)
    requires HeadIsLargest(s)
    ensures InsertRoute(s, r) ==
            if s == [] || Bits(s[0].mask) <= Bits(r.mask) then [r] + s else [s[0], r] + s[1..]
    ensures HeadIsLargest(InsertRoute(s, r))
  {
    if s != [] && Bits(s[0].mask) > Bits(r.mask) {
      FirstLargerIs(s, r.mask, 0);
      assert Insert(s, 1, r) == [s[0], r] + s[1..];
    } else {
      FirstLargerIs(s, r.mask, |s|);
      assert Insert(s, 0, r) == [r] + s;
    }
  }

  /** Over every run of insertions no route is lost or made up. */
  lemma {:induction false} BuildConserves(rs: seq<Route>)
    ensures multiset(Build(rs)) == multiset(rs)
  {
    hide InsertRoute;
    if rs != [] {
      var front, r := rs[..|rs| - 1], rs[|rs| - 1];
      BuildConserves(front);
      InsertConserves(Build(front), r);
      assert rs == front + [r];
    }
  }

  lemma NoHead()
    ensures HeadIsLargest([])
  {}

  /** Over every run of insertions the head has the largest mask. */
  lemma {:induction false} BuildHeadIsLargest(rs: seq<Route>)
    ensures HeadIsLargest(Build(rs))
  {
    hide HeadIsLargest;
    if rs != [] {
      BuildHeadIsLargest(rs[..|rs| - 1]);
      InsertIsPush(Build(rs[..|rs| - 1]), rs[|rs| - 1]);
    } else {
      assert HeadIsLargest([]) by { NoHead(); }
    }
  }

  lemma BuildMembers(rs: seq<Route>)
    ensures forall r :: r in Build(rs) <==> r in rs
  {
    BuildConserves(rs);
    forall r
      ensures r in Build(rs) <==> r in rs
    {
      assert r in Build(rs) <==> r in multiset(Build(rs));
    }
  }

  // ---------- longest match ----------

  ghost predicate Sorted(s: seq<Route>) {
    forall i, j :: 0 <= i < j < |s| ==> Bits(s[j].mask) <= Bits(s[i].mask)
  }

  /** An insertion keeps a sorted table sorted exactly when no second route has a larger mask than the new one. */
  lemma InsertKeepsSortedIff(s: seq<Route>, r: Route)
    requires Sorted(s)
    ensures Sorted(InsertRoute(s, r)) <==> |s| < 2 || Bits(s[1].mask) <= Bits(r.mask)
  {
    var t := InsertRoute(s, r);
    InsertIsPush(s, r);
    if |s| >= 2 && Bits(s[1].mask) > Bits(r.mask) {
      assert t[1] == r && t[2] == s[1];
    }
  }

  ghost predicate Longest(s: seq<Route>, dst: IPv4Addr, r: Route) {
    Matches(r, dst) && r in s && forall q :: q in s && Matches(q, dst) ==> Bits(q.mask) <= Bits(r.mask)
  }

  /** In a sorted table the first match is a longest one. */
  lemma SortedFindsLongest(s: seq<Route>, dst: IPv4Addr)
    requires Sorted(s) && Find(s, dst).Some?
    ensures Longest(s, dst, Find(s, dst).value)
  {
    var i :| 0 <= i < |s| && s[i] == Find(s, dst).value && Matches(s[i], dst) && forall j :: 0 <= j < i ==> !Matches(s[j], dst);
    forall q | q in s && Matches(q, dst)
      ensures Bits(q.mask) <= Bits(s[i].mask)
    {
      var j :| 0 <= j < |s| && s[j] == q;
    }
  }

  // ---------- exactly when a lookup is a longest match ----------

  /** A lookup of `dst` finds nothing, or a longest match. */
  ghost predicate LongestAt(s: seq<Route>, dst: IPv4Addr) {
    Find(s, dst).Some? ==> Longest(s, dst, Find(s, dst).value)
  }

  ghost predicate FindsLongest(s: seq<Route>) {
    forall dst: IPv4Addr :: LongestAt(s, dst)
  }

  predicate HeadMatches(s: seq<Route>, dst: IPv4Addr) {
    s != [] && Matches(s[0], dst)
  }

  /** No route of `s` that matches `dst` has a larger mask than `r`. */
  ghost predicate Largest(s: seq<Route>, r: Route, dst: IPv4Addr) {
    forall q :: q in s && Matches(q, dst) ==> Bits(q.mask) <= Bits(r.mask)
  }

  lemma FoundAtFront(r: Route, s: seq<Route>, dst: IPv4Addr)
    requires Matches(r, dst)
    ensures LongestAt([r] + s, dst) <==> Largest(s, r, dst)
  {
    var t := [r] + s;
    assert Find(t, dst) == Some(r);
    assert forall q :: q in t <==> q == r || q in s;
  }

  lemma SkippedAtFront(r: Route, s: seq<Route>, dst: IPv4Addr)
    requires !Matches(r, dst)
    ensures LongestAt([r] + s, dst) <==> LongestAt(s, dst)
  {
    var t := [r] + s;
    assert t[1..] == s;
    assert Find(t, dst) == Find(s, dst);
    assert forall q :: q in t <==> q == r || q in s;
  }

  lemma InsertedBehindHead(s: seq<Route>, r: Route, dst: IPv4Addr)
    requires HeadIsLargest(s) && s != [] && Bits(s[0].mask) > Bits(r.mask)
    ensures LongestAt([s[0], r] + s[1..], dst) <==>
            if Matches(r, dst) then Matches(s[0], dst) || Largest(s, r, dst) else LongestAt(s, dst)
  {
    hide Matches, Bits, Find, LongestAt;
    var head, rest := s[0], s[1..];
    assert s == [head] + rest && [head, r] + rest == [head] + ([r] + rest);
    assert forall q :: q in s <==> q == head || q in rest;
    assert forall q :: q in [r] + rest <==> q == r || q in rest;
    if Matches(head, dst) {
      FoundAtFront(head, [r] + rest, dst);
      FoundAtFront(head, rest, dst);
    } else {
      SkippedAtFront(head, [r] + rest, dst);
      SkippedAtFront(head, rest, dst);
      if Matches(r, dst) {
        FoundAtFront(r, rest, dst);
      } else {
        SkippedAtFront(r, rest, dst);
      }
    }
  }

  /**
   For one destination, what an insertion does.  A route that does not match it changes nothing.  One
   that does leaves its lookup a longest match exactly when the head matches it too, or no matching
   route has a larger mask.
   */
  lemma InsertLongestAtIff(s: seq<Route>, r: Route, dst: IPv4Addr)
    requires HeadIsLargest(s)
    ensures LongestAt(InsertRoute(s, r), dst) <==>
            if Matches(r, dst) then HeadMatches(s, dst) || Largest(s, r, dst) else LongestAt(s, dst)
  {
    hide Matches, Bits, InsertRoute, LongestAt;
    InsertIsPush(s, r);
    if s == [] || Bits(s[0].mask) <= Bits(r.mask) {
      if Matches(r, dst) {
        FoundAtFront(r, s, dst);
      } else {
        SkippedAtFront(r, s, dst);
      }
    } else {
      InsertedBehindHead(s, r, dst);
    }
  }

  /**
   An insertion into a table whose lookups are longest matches keeps them so exactly when the new
   route becomes the head, or wherever it matches and the head does not it has the largest mask.
   */
  lemma InsertFindsLongestIff(s: seq<Route>, r: Route)
    requires HeadIsLargest(s) && FindsLongest(s)
    ensures FindsLongest(InsertRoute(s, r)) <==>
            s == [] || Bits(s[0].mask) <= Bits(r.mask) ||
            forall q, dst :: q in s && Matches(q, dst) && Matches(r, dst) && !Matches(s[0], dst) ==> Bits(q.mask) <= Bits(r.mask)
  {
    hide Matches, Bits, InsertRoute, LongestAt;
    forall dst: IPv4Addr
      ensures LongestAt(InsertRoute(s, r), dst) <==> (Matches(r, dst) ==> HeadMatches(s, dst) || Largest(s, r, dst))
    {
      InsertLongestAtIff(s, r, dst);
      assert LongestAt(s, dst);
    }
    if s != [] && Bits(s[0].mask) > Bits(r.mask) && FindsLongest(InsertRoute(s, r)) {
      forall q, dst | q in s && Matches(q, dst) && Matches(r, dst) && !Matches(s[0], dst)
        ensures Bits(q.mask) <= Bits(r.mask)
      {
        assert LongestAt(InsertRoute(s, r), dst);
      }
    }
  }

  /** Route `j` is the last one added that matches `dst`. */
  ghost predicate LastMatch(rs: seq<Route>, dst: IPv4Addr, j: nat) {
    j < |rs| && Matches(rs[j], dst) && forall k :: j < k < |rs| ==> !Matches(rs[k], dst)
  }

  /** The head is the last route added among those with the largest mask. */
  ghost predicate LastLargest(rs: seq<Route>, h: nat) {
    h < |rs| && (forall i :: 0 <= i < |rs| ==> Bits(rs[i].mask) <= Bits(rs[h].mask)) &&
    forall i :: h < i < |rs| ==> Bits(rs[i].mask) < Bits(rs[h].mask)
  }

  lemma {:induction false} HeadIsLastLargest(rs: seq<Route>, h: nat)
    requires LastLargest(rs, h)
    ensures Build(rs) != [] && Build(rs)[0] == rs[h]
  {
    hide Bits, InsertRoute, HeadIsLargest;
    var front, r := rs[..|rs| - 1], rs[|rs| - 1];
    var s := Build(front);
    assert Build(rs) == InsertRoute(s, r);
    BuildHeadIsLargest(front);
    BuildMembers(front);
    hide Build;
    InsertIsPush(s, r);
    if h < |front| {
      HeadIsLastLargest(front, h);
      assert Bits(rs[|front|].mask) < Bits(rs[h].mask);
    } else if s != [] {
      assert s[0] in front;
    }
  }

  lemma LargestInTable(rs: seq<Route>, r: Route, dst: IPv4Addr)
    ensures Largest(Build(rs), r, dst) <==> Largest(rs, r, dst)
    ensures rs == [] ==> Build(rs) == []
  {
    BuildMembers(rs);
  }

  /**
   Longest match, exactly, for every order of insertion: only the last route added that matches a
   destination matters.  The lookup is a longest match if and only if no earlier matching route has a
   larger mask, or the head of the table at that time matches as well.
   */
  lemma {:induction false} LookupIsLongestIff(rs: seq<Route>, dst: IPv4Addr, j: nat)
    requires LastMatch(rs, dst, j)
    ensures LongestAt(Build(rs), dst) <==>
            Largest(rs[..j], rs[j], dst) || HeadMatches(Build(rs[..j]), dst)
  {
    hide Matches, Bits, InsertRoute, LongestAt, Largest;
    var front, r := rs[..|rs| - 1], rs[|rs| - 1];
    BuildHeadIsLargest(front);
    InsertLongestAtIff(Build(front), r, dst);
    if j < |front| {
      assert front[..j] == rs[..j];
      LookupIsLongestIff(front, dst, j);
    } else {
      assert front == rs[..j];
      LargestInTable(front, r, dst);
    }
  }

  lemma {:induction false} NothingMatches(rs: seq<Route>, dst: IPv4Addr)
    requires forall k :: 0 <= k < |rs| ==> !Matches(rs[k], dst)
    ensures LongestAt(Build(rs), dst)
  {
    BuildMembers(rs);
    var s := Build(rs);
    assert forall i :: 0 <= i < |s| ==> s[i] in rs;
  }

  lemma {:induction false} SomeLastMatch(rs: seq<Route>, dst: IPv4Addr, i: nat) returns (j: nat)
    requires i < |rs| && Matches(rs[i], dst)
    ensures LastMatch(rs, dst, j)
    decreases |rs| - i
  {
    if k :| i < k < |rs| && Matches(rs[k], dst) {
      j := SomeLastMatch(rs, dst, k);
    } else {
      j := i;
    }
  }

  /** The table answers every lookup with a longest match if and only if that holds of each destination's last match. */
  lemma TableFindsLongestIff(rs: seq<Route>)
    ensures FindsLongest(Build(rs)) <==>
            forall dst, j: nat :: LastMatch(rs, dst, j) ==>
              Largest(rs[..j], rs[j], dst) || HeadMatches(Build(rs[..j]), dst)
  {
    hide Matches, Bits, Build, LongestAt, Largest;
    forall dst, j: nat | LastMatch(rs, dst, j)
      ensures LongestAt(Build(rs), dst) <==>
              Largest(rs[..j], rs[j], dst) || HeadMatches(Build(rs[..j]), dst)
    {
      LookupIsLongestIff(rs, dst, j);
    }
    forall dst: IPv4Addr | forall k :: 0 <= k < |rs| ==> !Matches(rs[k], dst)
      ensures LongestAt(Build(rs), dst)
    {
      NothingMatches(rs, dst);
    }
    forall dst: IPv4Addr, i | 0 <= i < |rs| && Matches(rs[i], dst)
      ensures exists j: nat :: LastMatch(rs, dst, j)
    {
      var j := SomeLastMatch(rs, dst, i);
    }
  }

  // ---------- an order of insertion that always works ----------

  ghost predicate Ascending(rs: seq<Route>) {
    forall i, j :: 0 <= i < j < |rs| ==> Bits(rs[i].mask) <= Bits(rs[j].mask)
  }

  lemma PushKeepsSorted(t: seq<Route>, r: Route)
    requires Sorted(t) && (t == [] || Bits(t[0].mask) <= Bits(r.mask))
    ensures Sorted([r] + t)
  {
    hide Bits;
    var u := [r] + t;
    assert forall i :: 0 < i < |u| ==> u[i] == t[i - 1];
  }

  /** Routes added in order of their masks, shortest first, make a sorted table. */
  lemma {:induction false} AscendingMakesSorted(rs: seq<Route>)
    requires Ascending(rs)
    ensures Sorted(Build(rs))
  {
    hide Bits;
    if rs != [] {
      var front, r := rs[..|rs| - 1], rs[|rs| - 1];
      AscendingMakesSorted(front);
      BuildHeadIsLargest(front);
      BuildMembers(front);
      var t := Build(front);
      if t != [] {
        assert t[0] in front;
      }
      InsertIsPush(t, r);
      PushKeepsSorted(t, r);
    }
  }

  /** Longest-match lookup, for the insertion order that supports it. */
  lemma AscendingFindsLongest(rs: seq<Route>, dst: IPv4Addr)
    requires Ascending(rs)
    ensures Find(Build(rs), dst).None? <==> forall r :: r in rs ==> !Matches(r, dst)
    ensures Find(Build(rs), dst).Some? ==> Longest(rs, dst, Find(Build(rs), dst).value)
  {
    var s := Build(rs);
    AscendingMakesSorted(rs);
    BuildMembers(rs);
    if Find(s, dst).Some? {
      SortedFindsLongest(s, dst);
    }
  }

  // ---------- contiguous masks ----------

  /** A byte with its `k` highest bits set. */
  function MaskByte(k: nat): byte
    requires k <= 8
  {
    [0, 128, 192, 224, 240, 248, 252, 254, 255][k]
  }

  function BitsInByte(p: nat, i: nat): nat
    requires i < 4
  {
    if p <= 8 * i then 0 else if p >= 8 * i + 8 then 8 else p - 8 * i
  }

  /** The mask of a prefix of `p` bits. */
  function PrefixMask(p: nat): IPv4Addr
    requires p <= 32
  {
    IPv4Addr(MaskByte(BitsInByte(p, 0)), MaskByte(BitsInByte(p, 1)), MaskByte(BitsInByte(p, 2)), MaskByte(BitsInByte(p, 3)))
  }

  lemma OnlyByteGrows(p: nat, i: nat)
    requires p < 32 && i == p / 8
    ensures i < 4 && BitsInByte(p, i) == p - 8 * i && BitsInByte(p + 1, i) == p - 8 * i + 1 <= 8
    ensures forall j :: 0 <= j < 4 && j != i ==> BitsInByte(p, j) == BitsInByte(p + 1, j)
  {}

  lemma MaskByteGrows(k: nat)
    requires k < 8
    ensures MaskByte(k) < MaskByte(k + 1)
  {}

  lemma OneMoreBit(p: nat)
    requires p < 32
    ensures Bits(PrefixMask(p)) < Bits(PrefixMask(p + 1))
  {
    var i := p / 8;
    OnlyByteGrows(p, i);
    MaskByteGrows(p - 8 * i);
    hide MaskByte, BitsInByte;
    var m, n := PrefixMask(p), PrefixMask(p + 1);
    if i == 0 {
      assert m.n0 < n.n0 && m.n1 == n.n1 && m.n2 == n.n2 && m.n3 == n.n3;
    } else if i == 1 {
      assert m.n0 == n.n0 && m.n1 < n.n1 && m.n2 == n.n2 && m.n3 == n.n3;
    } else if i == 2 {
      assert m.n0 == n.n0 && m.n1 == n.n1 && m.n2 < n.n2 && m.n3 == n.n3;
    } else {
      assert m.n0 == n.n0 && m.n1 == n.n1 && m.n2 == n.n2 && m.n3 < n.n3;
    }
  }

  /** Although the bytes are compared in the wrong order, a longer prefix has a larger mask. */
  lemma {:induction false} LongerPrefixIsLarger(p: nat, q: nat)
    requires p < q <= 32
    ensures Bits(PrefixMask(p)) < Bits(PrefixMask(q))
    decreases q - p
  {
    OneMoreBit(p);
    if p + 1 < q {
      LongerPrefixIsLarger(p + 1, q);
    }
  }

  /** For contiguous masks, longest means longest prefix. */
  lemma LongestIsLongestPrefix(p: nat, q: nat)
    requires p <= 32 && q <= 32
    ensures Bits(PrefixMask(p)) <= Bits(PrefixMask(q)) <==> p <= q
  {
    if p < q {
      LongerPrefixIsLarger(p, q);
    } else if q < p {
      LongerPrefixIsLarger(q, p);
    }
  }

  // ---------- the order matters ----------

  function Via(n: byte): IPv4Addr { IPv4Addr(192, 168, 0, n) }

  lemma NoBits(x: nat)
    ensures And(x, 0) == 0
  {}

  /** A mask of ones keeps the byte. */
  lemma {:induction false} WholeByte(x: nat, k: nat)
    requires k <= 8 && x < [1, 2, 4, 8, 16, 32, 64, 128, 256][k]
    ensures And(x, [1, 2, 4, 8, 16, 32, 64, 128, 256][k] - 1) == x
  {
    if x > 0 {
      WholeByte(x / 2, k - 1);
    }
  }

  lemma SmallerMask(a: IPv4Addr, b: IPv4Addr)
    requires a.n0 == b.n0 && a.n1 < b.n1 && a.n2 == b.n2 && a.n3 == b.n3
    ensures Bits(a) < Bits(b)
  {}

  lemma ShortestMatchesFirst(r24: Route, r16: Route, r8: Route, dst: IPv4Addr)
    requires r24.dst == IPv4Addr(10, 1, 2, 0) && r24.mask == IPv4Addr(255, 255, 255, 0)
    requires r16.dst == IPv4Addr(10, 1, 0, 0) && r16.mask == IPv4Addr(255, 255, 0, 0)
    requires r8.dst == IPv4Addr(10, 0, 0, 0) && r8.mask == IPv4Addr(255, 0, 0, 0)
    requires dst == IPv4Addr(10, 1, 9, 9)
    ensures Find([r24, r8, r16], dst) == Some(r8) && Matches(r16, dst) && !Longest([r24, r8, r16], dst, r8)
  {
    hide And, Bits;
    WholeByte(10, 8);
    WholeByte(1, 8);
    WholeByte(9, 8);
    NoBits(1);
    NoBits(9);
    assert Bits(r8.mask) < Bits(r16.mask) by { SmallerMask(r8.mask, r16.mask); }
    assert !Matches(r24, dst) && Matches(r8, dst) && Matches(r16, dst);
    FindIs([r24, r8, r16], dst, 1);
    assert [r24, r8, r16][2] == r16;
  }

  lemma BuildStep(rs: seq<Route>, r: Route)
    ensures Build([]) == [] && Build(rs + [r]) == InsertRoute(Build(rs), r)
  {
    assert (rs + [r])[..|rs|] == rs;
  }

  lemma ThreeDescending(a: Route, b: Route, c: Route)
    requires Bits(c.mask) < Bits(b.mask) < Bits(a.mask)
    ensures Build([a, b, c]) == [a, c, b]
  {
    hide *;
    assert HeadIsLargest([]) by { NoHead(); }
    BuildStep([], a);
    InsertIsPush([], a);
    assert [] + [a] == [a] + [] == [a];
    BuildStep([a], b);
    InsertIsPush([a], b);
    assert [a] + [b] == [a, b] == [a, b] + [a][1..];
    BuildStep([a, b], c);
    InsertIsPush([a, b], c);
    assert [a, b] + [c] == [a, b, c] && [a, c] + [a, b][1..] == [a, c, b];
  }

  lemma WholeBytes()
    ensures PrefixMask(8) == IPv4Addr(255, 0, 0, 0) && PrefixMask(16) == IPv4Addr(255, 255, 0, 0)
    ensures PrefixMask(24) == IPv4Addr(255, 255, 255, 0)
  {}

  /** Three nested networks added longest first: the shortest prefix ends up in front of the middle one. */
  lemma DescendingOrderShadows(r24: Route, r16: Route, r8: Route, dst: IPv4Addr)
    requires r24 == Route(IPv4Addr(10, 1, 2, 0), PrefixMask(24), Via(1))
    requires r16 == Route(IPv4Addr(10, 1, 0, 0), PrefixMask(16), Via(2))
    requires r8 == Route(IPv4Addr(10, 0, 0, 0), PrefixMask(8), Via(3))
    requires dst == IPv4Addr(10, 1, 9, 9)
    ensures Build([r24, r16, r8]) == [r24, r8, r16]
    ensures Find(Build([r24, r16, r8]), dst) == Some(r8) && Matches(r16, dst)
    ensures !Longest(Build([r24, r16, r8]), dst, r8)
  {
    WholeBytes();
    LongerPrefixIsLarger(8, 16);
    LongerPrefixIsLarger(16, 24);
    hide *;
    ThreeDescending(r24, r16, r8);
    ShortestMatchesFirst(r24, r16, r8, dst);
  }
}

/** The table itself: a circular list of links behind a sentinel. */
module Routes {
  import opened Words
  import opened Rings
  import opened Links
  import opened Frames
  import opened RouteSpec

  class RouteTable {
    const head: Link<Route>
    ghost var links: seq<Link<Route>>
    ghost var routes: seq<Route>

    ghost predicate Valid()
      reads this, head, links
    {
      && Circle([head] + links)
      && |links| == |routes|
      && forall i :: 0 <= i < |links| ==> links[i].data == routes[i]
    }

    constructor ()
      ensures Valid() && routes == [] && fresh(head)
    {
      head := new Link(Route(NULL_IP, NULL_IP, NULL_IP));
      links, routes := [], [];
    }

    lemma Next(k: nat)
      requires Valid() && k <= |links|
      ensures ([head] + links)[k].next == if k < |links| then links[k] else head
      ensures head !in links
    {
      var s := [head] + links;
      FirstIsApart(head, links);
      assert s[k].next == s[After(|s|, k)];
    }

    /** `net_route_find`. */
    method Find(dst: IPv4Addr) returns (r: Option<Route>)
      requires Valid()
      ensures r == RouteSpec.Find(routes, dst)
    {
      Next(0);
      var it := head.next;
      ghost var k := 0;
      while it != head
        invariant k <= |links| && it == if k < |links| then links[k] else head
        invariant forall i :: 0 <= i < k ==> !Matches(routes[i], dst)
        decreases |links| - k
      {
        Next(k);
        Next(k + 1);
        if Matches(it.data, dst) {
          FindIs(routes, dst, k);
          return Some(it.data);
        }
        it := it.next;
        k := k + 1;
      }
      Next(0);
      FindIs(routes, dst, k);
      r := None;
    }

    /** The loop of `net_route_add`: the first link with a larger mask, or the head of the list. */
    method Position(mask: IPv4Addr) returns (prev: Link<Route>, ghost k: nat)
      requires Valid()
      ensures k == FirstLarger(routes, mask)
      ensures |links| == |routes| && prev == if FirstLarger(routes, mask) < |links| then links[FirstLarger(routes, mask)] else head
      ensures prev == ([head] + links)[if k < |links| then k + 1 else 0] && head !in links
    {
      Next(0);
      prev := head.next;
      k := 0;
      while prev != head
        invariant k <= |links| && prev == if k < |links| then links[k] else head
        invariant forall i :: 0 <= i < k ==> Bits(routes[i].mask) <= Bits(mask)
        decreases |links| - k
      {
        Next(k);
        Next(k + 1);
        if Bits(prev.data.mask) > Bits(mask) {
          break;
        }
        prev := prev.next;
        k := k + 1;
      }
      Next(0);
      FirstLargerIs(routes, mask, k);
    }

    /** Links and routes stay in step when one of each is inserted at the same place. */
    lemma SameInsert(x: Link<Route>, at: nat)
      requires |links| == |routes| && at <= |links|
      requires forall i :: 0 <= i < |links| ==> links[i].data == routes[i]
      ensures |Insert(links, at, x)| == |Insert(routes, at, x.data)| == |links| + 1
      ensures forall i :: 0 <= i <= |links| ==> Insert(links, at, x)[i].data == Insert(routes, at, x.data)[i]
    {
      InsertIndex(links, at, x);
      InsertIndex(routes, at, x.data);
    }

    /** `link_after` on the table: `prev` is the head or link number at - 1. */
    method LinkIn(prev: Link<Route>, x: Link<Route>, ghost at: nat)
      requires Valid() && x != head && x !in links
      requires at <= |links| && prev == ([head] + links)[at]
      modifies this, head`next, head`prev, links`next, links`prev, x`next, x`prev
      ensures Valid() && links == Insert(old(links), at, x) && routes == Insert(old(routes), at, x.data)
    {
      hide Circle, Insert;
      LinkAfter(prev, x, [head] + links, at);
      InsertBehind(head, links, at, x);
      SameInsert(x, at);
      links := Insert(links, at, x);
      routes := Insert(routes, at, x.data);
    }

    /** `net_route_add`: a missing gateway becomes 0.0.0.0. */
    method Add(dst: IPv4Addr, mask: IPv4Addr, gateway: Option<IPv4Addr>)
      requires Valid()
      modifies this, head, links
      ensures Valid()
      ensures routes == InsertRoute(old(routes), Route(dst, mask, if gateway.Some? then gateway.value else NULL_IP))
    {
      var route := Route(dst, mask, if gateway.Some? then gateway.value else NULL_IP);
      hide Circle, Insert;
      var x := new Link(route);
      var prev, k := Position(mask);
      LinkIn(prev, x, if k < |links| then k + 1 else 0);
    }

    /** `net_route_next_addr`: the gateway of the route found, or the destination itself. */
    method NextHop(dst: IPv4Addr) returns (next: Option<IPv4Addr>)
      requires Valid()
      ensures next == RouteSpec.NextHop(routes, dst)
      ensures next.None? <==> forall i :: 0 <= i < |routes| ==> !Matches(routes[i], dst)
    {
      var r := Find(dst);
      next := match r
        case None => None
        case Some(route) => Some(if route.gateway == NULL_IP then dst else route.gateway);
    }
  }
}
