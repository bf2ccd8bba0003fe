/** The reaper of src/tasking.c among processes that neither start nor exit: one look per lap of the ring. */
module ReaperLaps {
  import opened Words
  import opened Rings
  import opened RoundRobin

  function Index<T(==)>(s: seq<T>, x: T): (i: nat)
    requires x in s
    ensures i < |s| && s[i] == x
  {
    if s[0] == x then 0 else Index(s[1..], x) + 1
  }

  lemma IndexIs<T>(s: seq<T>, i: nat)
    requires Distinct(s) && i < |s|
    ensures Index(s, s[i]) == i
  {}

  /** `x` is not among the first `m` members. */
  ghost predicate NotBefore<T>(s: seq<T>, x: T, m: nat) {
    m <= |s| && forall i :: 0 <= i < m ==> s[i] != x
  }

  /** The ring after `m` turns. */
  function Turned<T>(s: seq<T>, m: nat): seq<T>
    requires m <= |s|
  {
    s[m..] + s[..m]
  }

  lemma IndexIsFirst<T>(s: seq<T>, x: T)
    requires x in s
    ensures NotBefore(s, x, Index(s, x))
  {}

  lemma NotAtFront<T>(s: seq<T>, x: T, m: nat)
    requires NotBefore(s, x, m) && m > 0
    ensures m <= |s| && s[0] != x && NotBefore(Rotate(s), x, m - 1)
  {
    var u := Rotate(s);
    assert forall i :: 0 <= i < m - 1 ==> u[i] == s[i + 1];
  }

  lemma TurnedOneMore<T>(s: seq<T>, m: nat)
    requires 0 < m <= |s|
    ensures |Rotate(s)| == |s| && Turned(Rotate(s), m - 1) == Turned(s, m)
  {}

  lemma TurnedNone<T>(s: seq<T>)
    ensures Turned(s, 0) == s
  {}

  lemma TurnedBack<T>(t: seq<T>)
    requires |t| > 0
    ensures |Rotate(t)| == |t| && Turned(Rotate(t), |t| - 1) == t
  {}

  lemma TurnedMembers<T>(s: seq<T>, r: nat, x: T)
    requires r < |s| && x in s
    ensures |Turned(s, r)| == |s| && Turned(s, r)[0] == s[r] && x in Turned(s, r)
  {
    assert s == s[..r] + s[r..];
  }

  /** The running reaper passes itself by. */
  function SkipSelf<T(==)>(s: seq<T>, y: T): T
    requires |s| > 0
  {
    if y == s[0] && |s| > 1 then s[1] else y
  }

  /** The process the running reaper goes on to. */
  function NextOf<T(==)>(s: seq<T>, cur: Cursor<T>): T
    requires |s| > 0 && Good(s, cur)
  {
    SkipSelf(s, match cur
                case On(x) => s[After(|s|, Index(s, x))]
                case Off(y) => y)
  }

  /**
   A ring with its reaper, the process the reaper looks at next, and the marked processes.  Nobody is
   added and nobody exits; `idle` cannot be marked.
   */
  datatype Watch<T> = Watch(ring: seq<T>, reaper: T, next: T, marked: set<T>, idle: T)

  ghost predicate Patrolled<T>(w: Watch<T>) {
    && Distinct(w.ring) && w.reaper in w.ring
    && w.next in w.ring && w.next != w.reaper
    && w.idle in w.ring && w.idle != w.reaper && w.idle !in w.marked
  }

  lemma PatrolFacts<T>(w: Watch<T>)
    requires Patrolled(w)
    ensures |w.ring| > 1 && Distinct(w.ring) && w.reaper in w.ring && w.next in w.ring && w.next != w.reaper
  {}

  /** What the running reaper does before it yields: one look, at `next`. */
  ghost function Look<T>(w: Watch<T>): Watch<T>
    requires Patrolled(w) && w.ring[0] == w.reaper
  {
    var s, k := w.ring, Index(w.ring, w.next);
    var reaped := w.next in w.marked;
    var t := if reaped then Remove(s, k) else s;
    RoundLeavesGoodCursor(s, k, reaped);
    w.(ring := t, next := NextOf(t, CursorAt(s, k, reaped)))
  }

  /** The look, by indices. */
  lemma LookAt<T>(w: Watch<T>, k: nat)
    requires Patrolled(w) && w.ring[0] == w.reaper && k < |w.ring| && w.ring[k] == w.next
    ensures k > 0 && Patrolled(Look(w)) && Look(w).ring[0] == w.reaper
    ensures var t := Look(w).ring;
      t == (if w.next in w.marked then Remove(w.ring, k) else w.ring) && |t| > 1 &&
      var m := if w.next in w.marked then k else k + 1;
      Look(w).next == t[if m == |t| then 1 else m]
  {
    var s := w.ring;
    IndexIs(s, k);
    if w.next in w.marked {
      var t := Remove(s, k);
      RemoveIndex(s, k);
      RemovedIsGone(s, k);
      assert Distinct(t);
      assert t[0] == s[0];
      if k < |t| {
        assert t[k] == s[k + 1];
      }
    }
  }

  lemma RotateKeepsPatrol<T>(w: Watch<T>)
    requires Patrolled(w)
    ensures Patrolled(w.(ring := Rotate(w.ring)))
  {
    RotateIndex(w.ring);
    assert Distinct(Rotate(w.ring));
  }

  lemma LookKeepsPatrol<T>(w: Watch<T>)
    requires Patrolled(w) && w.ring[0] == w.reaper
    ensures Patrolled(Look(w)) && Look(w).ring[0] == w.reaper
    ensures Look(w).reaper == w.reaper && Look(w).marked == w.marked && Look(w).idle == w.idle
  {
    LookAt(w, Index(w.ring, w.next));
  }

  /** One turn of the running process. */
  ghost function Turn<T>(w: Watch<T>): (u: Watch<T>)
    requires Patrolled(w)
    ensures Patrolled(u) && u.reaper == w.reaper && u.marked == w.marked && u.idle == w.idle
  {
    hide Look;
    var v := if w.ring[0] == w.reaper then LookKeepsPatrol(w); Look(w) else w;
    RotateKeepsPatrol(v);
    hide Patrolled;
    v.(ring := Rotate(v.ring))
  }

  /** Any process but the reaper just passes the turn on. */
  lemma OtherTurn<T>(w: Watch<T>)
    requires Patrolled(w) && w.ring[0] != w.reaper
    ensures Turn(w) == w.(ring := Rotate(w.ring))
  {
    hide Patrolled;
  }

  lemma ReaperTurn<T>(w: Watch<T>, k: nat)
    requires Patrolled(w) && w.ring[0] == w.reaper && k < |w.ring| && w.ring[k] == w.next
    ensures var t := if w.next in w.marked then Remove(w.ring, k) else w.ring;
      Look(w).ring == t && |t| > 1 && t[0] == w.reaper && Turn(w) == Look(w).(ring := Rotate(t))
  {
    LookAt(w, k);
    hide Patrolled, Look;
  }

  ghost function Turns<T>(w: Watch<T>, n: nat): (u: Watch<T>)
    requires Patrolled(w)
    ensures Patrolled(u) && u.reaper == w.reaper && u.marked == w.marked && u.idle == w.idle
    decreases n
  {
    hide Patrolled, Turn;
    if n == 0 then w else Turns(Turn(w), n - 1)
  }

  ghost predicate RunsWithin<T>(w: Watch<T>, n: nat, v: T)
    requires Patrolled(w)
    decreases n
  {
    PatrolFacts(w);
    hide Patrolled, Turn;
    w.ring[0] == v || (n > 0 && RunsWithin(Turn(w), n - 1, v))
  }

  lemma {:induction false} RunsWithinMore<T>(w: Watch<T>, m: nat, n: nat, v: T)
    requires Patrolled(w) && m <= n && RunsWithin(w, m, v)
    ensures RunsWithin(w, n, v)
    decreases n
  {
    hide Patrolled, Turn;
    PatrolFacts(w);
    if w.ring[0] != v {
      RunsWithinMore(Turn(w), m - 1, n - 1, v);
    }
  }

  lemma TurnAddsNobody<T>(w: Watch<T>, v: T)
    requires Patrolled(w) && v !in w.ring
    ensures v !in Turn(w).ring
  {
    PatrolFacts(w);
    RotateIndex(w.ring);
    if w.ring[0] == w.reaper {
      var k := Index(w.ring, w.next);
      ReaperTurn(w, k);
      RemoveIndex(w.ring, k);
      RemovedIsGone(w.ring, k);
      RotateIndex(Look(w).ring);
    } else {
      OtherTurn(w);
    }
    hide Patrolled, Turn, Look;
  }

  lemma {:induction false} ReapedNeverRuns<T>(w: Watch<T>, n: nat, v: T)
    requires Patrolled(w) && v !in w.ring
    ensures !RunsWithin(w, n, v)
    decreases n
  {
    hide Patrolled, Turn;
    PatrolFacts(w);
    if n > 0 {
      TurnAddsNobody(w, v);
      ReapedNeverRuns(Turn(w), n - 1, v);
    }
  }

  lemma OneTurnLess<T>(w: Watch<T>, n: nat, v: T)
    requires Patrolled(w)
    ensures |w.ring| > 0 && (RunsWithin(w, n, v) <==> w.ring[0] == v || (n > 0 && RunsWithin(Turn(w), n - 1, v)))
  {
    PatrolFacts(w);
    hide Patrolled, Turn;
  }

  /** A process the reaper is not in front of gets its turn. */
  lemma {:induction false} WaitsForTurn<T>(w: Watch<T>, d: nat)
    requires Patrolled(w) && d < |w.ring| && NotBefore(w.ring, w.reaper, d)
    ensures RunsWithin(w, d, w.ring[d])
    decreases d
  {
    hide Patrolled, Turn, RunsWithin, NotBefore;
    OneTurnLess(w, d, w.ring[d]);
    if d > 0 {
      NotAtFront(w.ring, w.reaper, d);
      OtherTurn(w);
      WaitsForTurn(Turn(w), d - 1);
    }
  }

  /** The reaper runs and looks at `v`: it never runs again. */
  lemma LookedAt<T>(w: Watch<T>, k: nat, n: nat)
    requires Patrolled(w) && w.ring[0] == w.reaper && k < |w.ring| && w.ring[k] == w.next && w.next in w.marked
    ensures !RunsWithin(w, n, w.next)
  {
    LookAt(w, k);
    RemovedIsGone(w.ring, k);
    RotateIndex(Look(w).ring);
    hide *;
    PatrolFacts(w);
    ReaperTurn(w, k);
    OneTurnLess(w, n, w.next);
    if n > 0 {
      ReapedNeverRuns(Turn(w), n - 1, w.next);
    }
  }

  lemma ReaperIsLast<T>(w: Watch<T>)
    requires Patrolled(w) && w.ring[0] == w.reaper
    ensures |w.ring| > 0 && NotBefore(Rotate(w.ring), w.reaper, |w.ring| - 1)
  {
    var u := Rotate(w.ring);
    assert forall i :: 0 <= i < |w.ring| - 1 ==> u[i] == w.ring[i + 1];
  }

  function MemberIndex(k: nat, i: nat, reaped: bool): nat {
    if reaped && k < i then i - 1 else i
  }

  /** Where the next process to look at and member `i` are after a look at another member `k`. */
  function NextIndex(size: nat, k: nat, reaped: bool): nat
    requires size > 0
  {
    var m, left := if reaped then k else k + 1, if reaped then size - 1 else size;
    if m == left then 1 else m
  }

  /** Looks before the one at member `i`, when the next one is at member `k`. */
  function LooksBefore(size: nat, k: nat, i: nat): nat
    requires 0 < k < size && 0 < i < size
  {
    if k <= i then i - k else i - k + size - 1
  }

  lemma OneLookCloser(size: nat, k: nat, i: nat, reaped: bool)
    requires 0 < k < size && 0 < i < size && k != i
    ensures var left, l, j := if reaped then size - 1 else size, NextIndex(size, k, reaped), MemberIndex(k, i, reaped);
      0 < l < left && 0 < j < left && LooksBefore(left, l, j) == LooksBefore(size, k, i) - 1
  {}

  /** A lap that does not reap member `i`. */
  lemma NotReapedYet<T>(w: Watch<T>, k: nat, i: nat)
    requires Patrolled(w) && w.ring[0] == w.reaper
    requires 0 < k < |w.ring| && w.ring[k] == w.next && 0 < i < |w.ring| && k != i
    ensures var reaped, u := w.next in w.marked, Look(w);
      var l, j := NextIndex(|w.ring|, k, reaped), MemberIndex(k, i, reaped);
      |u.ring| == (if reaped then |w.ring| - 1 else |w.ring|) && l < |u.ring| && j < |u.ring| &&
      u.ring[j] == w.ring[i] && u.ring[l] == u.next
  {
    var reaped := w.next in w.marked;
    LookAt(w, k);
    hide Patrolled, Look;
    RemoveIndex(w.ring, k);
    OneLookCloser(|w.ring|, k, i, reaped);
  }

  lemma MemberIndexIs(k: nat, i: nat, reaped: bool)
    requires k > 0 && i > 0
    ensures 0 < MemberIndex(k, i, reaped) <= i
  {}

  lemma RotatedAt<T>(s: seq<T>, i: nat)
    requires 0 < i < |s|
    ensures |Rotate(s)| == |s| && Rotate(s)[i - 1] == s[i]
  {}

  lemma NotBeforeLess<T>(s: seq<T>, x: T, m: nat, n: nat)
    requires NotBefore(s, x, n) && m <= n
    ensures NotBefore(s, x, m)
  {}

  /** The reaper runs and looks elsewhere: `v` runs next time round. */
  lemma Overlooked<T>(w: Watch<T>, k: nat, d: nat)
    requires Patrolled(w) && w.ring[0] == w.reaper && k < |w.ring| && w.ring[k] == w.next
    requires 0 < d < |w.ring| && d != k
    ensures RunsWithin(w, d, w.ring[d])
  {
    hide *;
    var v, l, u := w.ring[d], Look(w), Turn(w);
    var e := MemberIndex(k, d, w.next in w.marked);
    LookAt(w, k);
    NotReapedYet(w, k, d);
    MemberIndexIs(k, d, w.next in w.marked);
    LookKeepsPatrol(w);
    ReaperIsLast(l);
    ReaperTurn(w, k);
    RotatedAt(l.ring, e);
    NotBeforeLess(u.ring, w.reaper, e - 1, |l.ring| - 1);
    OneTurnLess(w, d, v);
    WaitsForTurn(u, e - 1);
    RunsWithinMore(u, e - 1, d - 1, v);
  }

  lemma MarkedWhileReaperRuns<T>(w: Watch<T>, d: nat, n: nat)
    requires Patrolled(w) && w.ring[0] == w.reaper && 0 < d < |w.ring| && w.ring[d] in w.marked
    ensures var v := w.ring[d]; if w.next == v then !RunsWithin(w, n, v) else RunsWithin(w, d, v)
  {
    PatrolFacts(w);
    var k := Index(w.ring, w.next);
    hide *;
    if w.next == w.ring[d] {
      LookedAt(w, d, n);
    } else {
      Overlooked(w, k, d);
    }
  }

  /**
   Which killed processes run again, when nobody is added and nobody exits: a marked process `d` turns
   away runs again unless the reaper is closer and looks at it next, and then it never does.
   */
  lemma {:induction false} MarkedRunsUnlessNext<T>(w: Watch<T>, r: nat, d: nat, n: nat)
    requires Patrolled(w) && r < |w.ring| && w.ring[r] == w.reaper
    requires d < |w.ring| && d != r && w.ring[d] in w.marked
    ensures var v := w.ring[d]; if r < d && w.next == v then !RunsWithin(w, n, v) else RunsWithin(w, d, v)
    decreases d
  {
    hide Patrolled, Turn, Look, Turns;
    PatrolFacts(w);
    var s, v, u := w.ring, w.ring[d], Turn(w);
    if d > 0 {
      if r > 0 {
        OtherTurn(w);
        RotateIndex(s);
        assert u.ring[d - 1] == v && u.ring[r - 1] == w.reaper;
        MarkedRunsUnlessNext(u, r - 1, d - 1, if n > 0 then n - 1 else 0);
      } else {
        MarkedWhileReaperRuns(w, d, n);
      }
    }
  }

  // ---------- everyone marked is reaped ----------

  lemma {:induction false} TurnsSplit<T>(w: Watch<T>, m: nat, n: nat)
    requires Patrolled(w)
    ensures Turns(w, m + n) == Turns(Turns(w, m), n)
    decreases m
  {
    hide Patrolled, Turn;
    if m > 0 {
      TurnsSplit(Turn(w), m - 1, n);
    }
  }

  /** While the reaper does not run, the ring only turns. */
  lemma {:induction false} OthersTurn<T>(w: Watch<T>, m: nat)
    requires Patrolled(w) && m <= |w.ring| && NotBefore(w.ring, w.reaper, m)
    ensures Turns(w, m) == w.(ring := Turned(w.ring, m))
    decreases m
  {
    hide Patrolled, Turn, NotBefore, Turned, Rotate;
    if m == 0 {
      TurnedNone(w.ring);
    } else {
      NotAtFront(w.ring, w.reaper, m);
      OtherTurn(w);
      TurnedOneMore(w.ring, m);
      OthersTurn(Turn(w), m - 1);
    }
  }

  lemma TurnsStep<T>(w: Watch<T>, n: nat)
    requires Patrolled(w)
    ensures Turns(w, n + 1) == Turns(Turn(w), n)
  {
    hide Patrolled, Turn;
  }

  /** One lap: the reaper has had its look and runs again. */
  lemma LapIsLook<T>(w: Watch<T>)
    requires Patrolled(w) && w.ring[0] == w.reaper
    ensures Turns(w, |Look(w).ring|) == Look(w)
  {
    hide *;
    PatrolFacts(w);
    LookKeepsPatrol(w);
    var k, l, u := Index(w.ring, w.next), Look(w), Turn(w);
    ReaperTurn(w, k);
    TurnedBack(l.ring);
    ReaperIsLast(l);
    OthersTurn(u, |l.ring| - 1);
    TurnsStep(w, |l.ring| - 1);
  }

  /** The lap that reaps. */
  lemma ReapedNow<T>(w: Watch<T>, k: nat)
    requires Patrolled(w) && w.ring[0] == w.reaper && k < |w.ring| && w.ring[k] == w.next && w.next in w.marked
    ensures |Look(w).ring| <= |w.ring| && w.next !in Turns(w, |Look(w).ring|).ring
  {
    LookAt(w, k);
    RemovedIsGone(w.ring, k);
    RemoveIndex(w.ring, k);
    hide *;
    PatrolFacts(w);
    LapIsLook(w);
  }

  lemma OneLap(steps: nat, n: nat, lap: nat)
    requires lap <= n
    ensures lap <= Times(steps + 1, n)
  {}

  lemma OneLapMore(steps: nat, n: nat, lap: nat, rest: nat)
    requires lap <= n && steps > 0 && rest <= Times(steps, lap)
    ensures lap + rest <= Times(steps + 1, n)
  {
    TimesGrows(steps, lap, n);
  }

  lemma {:induction false} ReapedFromFront<T>(w: Watch<T>, k: nat, i: nat) returns (t: nat)
    requires Patrolled(w) && w.ring[0] == w.reaper
    requires 0 < k < |w.ring| && w.ring[k] == w.next && 0 < i < |w.ring| && w.ring[i] in w.marked
    ensures t <= Times(LooksBefore(|w.ring|, k, i) + 1, |w.ring|) && w.ring[i] !in Turns(w, t).ring
    decreases LooksBefore(|w.ring|, k, i)
  {
    hide *;
    PatrolFacts(w);
    var n, u, steps := |w.ring|, Look(w), LooksBefore(|w.ring|, k, i);
    if k == i {
      ReapedNow(w, k);
      OneLap(steps, n, |u.ring|);
      t := |u.ring|;
    } else {
      var reaped := w.next in w.marked;
      var l, j := NextIndex(n, k, reaped), MemberIndex(k, i, reaped);
      LookKeepsPatrol(w);
      NotReapedYet(w, k, i);
      OneLookCloser(n, k, i, reaped);
      var rest := ReapedFromFront(u, l, j);
      OneLapMore(steps, n, |u.ring|, rest);
      LapIsLook(w);
      TurnsSplit(w, |u.ring|, rest);
      t := |u.ring| + rest;
    }
  }

  lemma LapsBound(steps: nat, n: nat, r: nat, rest: nat)
    requires steps + 1 <= n - 1 && r < n && rest <= Times(steps + 1, n)
    ensures r + rest <= n * n
  {
    TimesMonotone(steps + 1, n - 1, n);
    TimesIsProduct(n, n);
  }

  lemma FrontFacts<T>(w: Watch<T>, k: nat, i: nat, n: nat)
    requires Patrolled(w) && w.ring[0] == w.reaper && |w.ring| == n
    requires k < n && w.ring[k] == w.next && i < n && w.ring[i] != w.reaper
    ensures 0 < k && 0 < i && LooksBefore(n, k, i) + 1 <= n - 1
  {}

  /** When nobody is added and nobody exits, every marked process is reaped within n * n turns of n processes. */
  lemma EveryMarkedIsReaped<T>(w: Watch<T>, v: T) returns (t: nat)
    requires Patrolled(w) && v in w.ring && v in w.marked && v != w.reaper
    ensures t <= |w.ring| * |w.ring| && v !in Turns(w, t).ring
  {
    hide *;
    PatrolFacts(w);
    var s, r := w.ring, Index(w.ring, w.reaper);
    IndexIsFirst(s, w.reaper);
    OthersTurn(w, r);
    var u := Turns(w, r);
    TurnedMembers(s, r, v);
    PatrolFacts(u);
    var k, i := Index(u.ring, u.next), Index(u.ring, v);
    FrontFacts(u, k, i, |s|);
    var rest := ReapedFromFront(u, k, i);
    TurnsSplit(w, r, rest);
    LapsBound(LooksBefore(|s|, k, i), |s|, r, rest);
    t := r + rest;
  }
}
