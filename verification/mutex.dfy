/**
 The compare-and-exchange lock of src/mutex.c, interleaved by the process ring.

 Between two yields a process makes at most one access to the lock: one exchange in `mutex_lock`
 or one store in `mutex_unlock`.  A run is therefore a sequence of atomic accesses.
 */
module MutexSteps {
  import opened Words
  import opened Rings

  // ---------- the lock word ----------

  /** Value of the lock word after an exchange that found `locked`. */
  function LockedAfter(locked: byte): byte {
    if locked == 0 then 1 else locked
  }

  class Mutex {
    var locked: byte

    constructor ()
      ensures locked == 0
    {
      locked := 0;
    }

    /** The exchange inside the retry loop of `mutex_lock`: `retry` is what the loop tests next. */
    method Attempt() returns (retry: byte)
      modifies this
      ensures locked == LockedAfter(old(locked)) == if old(locked) == 0 then 1 else old(locked)
      ensures retry == 0 <==> old(locked) == 0
    {
      var al: byte := 0;
      if locked == al {
        locked := 1;
      } else {
        al := locked;
      }
      retry := al;
    }

    method Unlock()
      modifies this
      ensures locked == 0
    {
      locked := 0;
    }
  }

  // ---------- processes sharing one lock ----------

  datatype Phase = Outside | Spinning | Holding

  /** What a process does before it next yields. */
  datatype Access = Pass | Lock | Unlock

  /** `turns` counts the passes the holder has made since it acquired the lock. */
  datatype State = State(locked: byte, phase: seq<Phase>, turns: nat)

  function Init(n: nat): State {
    State(0, seq(n, _ => Outside), 0)
  }

  function Apply(s: State, i: nat, a: Access): State
    requires i < |s.phase|
  {
    match a
    case Pass => if s.phase[i].Holding? then s.(turns := s.turns + 1) else s
    case Lock =>
      if s.locked == 0
      then State(LockedAfter(s.locked), s.phase[i := Holding], 0)
      else State(LockedAfter(s.locked), s.phase[i := Spinning], s.turns)
    case Unlock => State(0, s.phase[i := Outside], 0)
  }

  /** A spinning process does nothing but retry; only a holder unlocks, and it does not lock again. */
  predicate Legal(p: Phase, a: Access) {
    match p
    case Outside => a != Unlock
    case Spinning => a == Lock
    case Holding => a != Lock
  }

  predicate Acquires(s: State, i: nat, a: Access)
    requires i < |s.phase|
  {
    a == Lock && s.locked == 0
  }

  ghost predicate Exclusive(s: State) {
    && s.locked <= 1
    && (forall i, j :: 0 <= i < |s.phase| && 0 <= j < |s.phase| && s.phase[i].Holding? && s.phase[j].Holding? ==> i == j)
    && (s.locked == 1 <==> exists i :: 0 <= i < |s.phase| && s.phase[i].Holding?)
  }

  // ---------- arbitrary preemption ----------

  /** A run under preemption names the process of every access. */
  predicate LegalRun(s: State, steps: seq<(nat, Access)>)
    decreases |steps|
  {
    steps == [] ||
    (steps[0].0 < |s.phase| && Legal(s.phase[steps[0].0], steps[0].1) &&
     LegalRun(Apply(s, steps[0].0, steps[0].1), steps[1..]))
  }

  function Run(s: State, steps: seq<(nat, Access)>): State
    requires LegalRun(s, steps)
    decreases |steps|
  {
    if steps == [] then s else Run(Apply(s, steps[0].0, steps[0].1), steps[1..])
  }

  lemma LegalKeepsExclusive(s: State, i: nat, a: Access)
    requires Exclusive(s) && i < |s.phase| && Legal(s.phase[i], a)
    ensures Exclusive(Apply(s, i, a))
  {
    var t := Apply(s, i, a);
    if a == Lock && s.locked == 0 {
      assert t.phase[i].Holding?;
    } else if s.locked == 1 && a != Unlock {
      var h :| 0 <= h < |s.phase| && s.phase[h].Holding?;
      assert t.phase[h].Holding?;
    }
  }

  /** Mutual exclusion over every preemptive run: the word is 1 exactly when one process holds the lock. */
  lemma {:induction false} MutualExclusion(s: State, steps: seq<(nat, Access)>)
    requires Exclusive(s) && LegalRun(s, steps)
    ensures Exclusive(Run(s, steps))
    decreases |steps|
  {
    if steps != [] {
      LegalKeepsExclusive(s, steps[0].0, steps[0].1);
      MutualExclusion(Apply(s, steps[0].0, steps[0].1), steps[1..]);
    }
  }

  lemma InitExclusive(n: nat)
    ensures Exclusive(Init(n))
  {}

  /** An unlock keeps exclusion exactly when the lock is free or the caller holds it. */
  lemma UnlockIsSafeIff(s: State, i: nat)
    requires Exclusive(s) && i < |s.phase|
    ensures Exclusive(Apply(s, i, Unlock)) <==> s.locked == 0 || s.phase[i].Holding?
  {
    var t := Apply(s, i, Unlock);
    if s.locked == 1 && !s.phase[i].Holding? {
      var h :| 0 <= h < |s.phase| && s.phase[h].Holding?;
      assert t.phase[h].Holding?;
    }
  }

  // ---------- one access per turn of the ring ----------

  // The process whose turn it is makes one access and yields to its successor, the one `After` it.

  /** Yields from `i` until it is the turn of `w`. */
  function Distance(n: nat, i: nat, w: nat): (d: nat)
    requires i < n && w < n
    ensures d < n
    ensures d == 0 <==> i == w
  {
    if i <= w then w - i else w + n - i
  }

  /** A yield brings every other process one turn closer, and sends the yielding one to the back. */
  lemma DistanceStep(n: nat, i: nat, w: nat)
    requires i < n && w < n
    ensures Distance(n, After(n, i), w) == if i == w then n - 1 else Distance(n, i, w) - 1
  {}

  predicate LegalTurns(s: State, cur: nat, acts: seq<Access>)
    decreases |acts|
  {
    acts == [] ||
    (cur < |s.phase| && Legal(s.phase[cur], acts[0]) &&
     LegalTurns(Apply(s, cur, acts[0]), After(|s.phase|, cur), acts[1..]))
  }

  /** State and current process after the turns `acts`. */
  function Turns(s: State, cur: nat, acts: seq<Access>): (State, nat)
    requires LegalTurns(s, cur, acts)
    decreases |acts|
  {
    if acts == [] then (s, cur) else Turns(Apply(s, cur, acts[0]), After(|s.phase|, cur), acts[1..])
  }

  function Acquisitions(s: State, cur: nat, acts: seq<Access>): nat
    requires LegalTurns(s, cur, acts)
    decreases |acts|
  {
    if acts == [] then 0
    else (if Acquires(s, cur, acts[0]) then 1 else 0) +
         Acquisitions(Apply(s, cur, acts[0]), After(|s.phase|, cur), acts[1..])
  }

  /** `w` is inside the retry loop in every state of the run. */
  predicate SpinsThroughout(s: State, cur: nat, acts: seq<Access>, w: nat)
    requires LegalTurns(s, cur, acts)
    decreases |acts|
  {
    w < |s.phase| && s.phase[w].Spinning? &&
    (acts == [] || SpinsThroughout(Apply(s, cur, acts[0]), After(|s.phase|, cur), acts[1..], w))
  }

  /** Reachable shape: a process that has just had its turn is not left spinning on a free lock. */
  ghost predicate Settled(s: State, cur: nat) {
    && Exclusive(s)
    && cur < |s.phase|
    && (s.locked == 0 ==> forall w :: 0 <= w < |s.phase| && s.phase[w].Spinning? ==> cur != After(|s.phase|, w))
  }

  ghost function Holder(s: State): (h: nat)
    requires Exclusive(s) && s.locked == 1
    ensures h < |s.phase| && s.phase[h].Holding?
  {
    var h :| 0 <= h < |s.phase| && s.phase[h].Holding?;
    h
  }

  /** How many processes can still be served before `w`: those between the lock and `w` on the ring. */
  ghost function Ahead(s: State, cur: nat, w: nat): int
    requires Settled(s, cur) && w < |s.phase|
  {
    if s.locked == 1 then Distance(|s.phase|, Holder(s), w) - 1 else Distance(|s.phase|, cur, w)
  }

  lemma TurnKeepsSettled(s: State, cur: nat, a: Access)
    requires Settled(s, cur) && Legal(s.phase[cur], a)
    ensures Settled(Apply(s, cur, a), After(|s.phase|, cur))
  {
    LegalKeepsExclusive(s, cur, a);
  }

  /** A turn by another process never puts more processes ahead of `w`; an acquisition uses one up. */
  lemma TurnShrinksAhead(s: State, cur: nat, a: Access, w: nat)
    requires Settled(s, cur) && Legal(s.phase[cur], a)
    requires w < |s.phase| && s.phase[w].Spinning? && Apply(s, cur, a).phase[w].Spinning?
    ensures Settled(Apply(s, cur, a), After(|s.phase|, cur))
    ensures Ahead(Apply(s, cur, a), After(|s.phase|, cur), w) + (if Acquires(s, cur, a) then 1 else 0) <= Ahead(s, cur, w)
  {
    TurnKeepsSettled(s, cur, a);
    DistanceStep(|s.phase|, cur, w);
    var t := Apply(s, cur, a);
    if s.locked == 1 && t.locked == 1 {
      assert t.phase[Holder(s)].Holding?;
    } else if s.locked == 0 && t.locked == 1 {
      assert t.phase[cur].Holding?;
    }
  }

  lemma AheadBound(s: State, cur: nat, w: nat)
    requires Settled(s, cur) && w < |s.phase| && s.phase[w].Spinning?
    ensures 0 <= Ahead(s, cur, w) <= |s.phase| - 2
  {
    var n := |s.phase|;
    if s.locked == 0 {
      assert cur != After(n, w);
    }
  }

  lemma {:induction false} AheadBoundsAcquisitions(s: State, cur: nat, acts: seq<Access>, w: nat)
    requires Settled(s, cur) && LegalTurns(s, cur, acts) && SpinsThroughout(s, cur, acts, w)
    ensures Acquisitions(s, cur, acts) <= Ahead(s, cur, w)
    decreases |acts|
  {
    AheadBound(s, cur, w);
    if acts != [] {
      TurnShrinksAhead(s, cur, acts[0], w);
      AheadBoundsAcquisitions(Apply(s, cur, acts[0]), After(|s.phase|, cur), acts[1..], w);
    }
  }

  lemma {:induction false} TurnsKeepSettled(s: State, cur: nat, acts: seq<Access>)
    requires Settled(s, cur) && LegalTurns(s, cur, acts)
    ensures Settled(Turns(s, cur, acts).0, Turns(s, cur, acts).1)
    ensures |Turns(s, cur, acts).0.phase| == |s.phase|
    decreases |acts|
  {
    if acts != [] {
      TurnKeepsSettled(s, cur, acts[0]);
      TurnsKeepSettled(Apply(s, cur, acts[0]), After(|s.phase|, cur), acts[1..]);
    }
  }

  /**
   Bounded bypass: in any run of `n` processes from the start, while `w` waits in `mutex_lock`
   the lock is acquired by others at most n - 2 times.
   */
  lemma BoundedBypass(n: nat, before: seq<Access>, acts: seq<Access>, w: nat)
    requires n > 0 && LegalTurns(Init(n), 0, before)
    requires LegalTurns(Turns(Init(n), 0, before).0, Turns(Init(n), 0, before).1, acts)
    requires SpinsThroughout(Turns(Init(n), 0, before).0, Turns(Init(n), 0, before).1, acts, w)
    ensures Acquisitions(Turns(Init(n), 0, before).0, Turns(Init(n), 0, before).1, acts) <= n - 2
  {
    InitExclusive(n);
    TurnsKeepSettled(Init(n), 0, before);
    var (s, cur) := Turns(Init(n), 0, before);
    AheadBoundsAcquisitions(s, cur, acts, w);
    AheadBound(s, cur, w);
  }

  // ---------- bounded waiting ----------

  /** No holder makes more than `k` passes before it unlocks. */
  predicate PromptTurns(s: State, cur: nat, acts: seq<Access>, k: nat)
    requires LegalTurns(s, cur, acts)
    decreases |acts|
  {
    s.turns <= k &&
    (acts == [] || PromptTurns(Apply(s, cur, acts[0]), After(|s.phase|, cur), acts[1..], k))
  }

  /** Turns one critical section can last, counted from the turn after its acquisition. */
  function Section(n: nat, k: nat): nat {
    Times(k + 1, n)
  }

  /** Turns `w` can still spin when the lock is free and `ahead` processes may be served first. */
  function FreeWait(n: nat, k: nat, ahead: nat): nat {
    Times(ahead, Section(n, k) + 1)
  }

  /** Upper bound on the turns `w` can still spend spinning. */
  ghost function Wait(s: State, cur: nat, w: nat, k: nat): int
    requires Settled(s, cur) && w < |s.phase| && s.phase[w].Spinning? && s.turns <= k
  {
    var n := |s.phase|;
    AheadBound(s, cur, w);
    if s.locked == 1
    then Distance(n, cur, Holder(s)) + Times(k - s.turns, n) + 1 + FreeWait(n, k, Ahead(s, cur, w))
    else FreeWait(n, k, Ahead(s, cur, w))
  }

  lemma HeldTurnShrinksWait(s: State, cur: nat, a: Access, w: nat, k: nat)
    requires Settled(s, cur) && Legal(s.phase[cur], a) && s.locked == 1
    requires w < |s.phase| && s.phase[w].Spinning? && s.turns <= k
    requires Apply(s, cur, a).phase[w].Spinning? && Apply(s, cur, a).turns <= k
    ensures Settled(Apply(s, cur, a), After(|s.phase|, cur))
    ensures Wait(Apply(s, cur, a), After(|s.phase|, cur), w, k) < Wait(s, cur, w, k)
  {
    var n, h := |s.phase|, Holder(s);
    var t, next := Apply(s, cur, a), After(n, cur);
    TurnKeepsSettled(s, cur, a);
    AheadBound(s, cur, w);
    AheadBound(t, next, w);
    DistanceStep(n, cur, h);
    DistanceStep(n, cur, w);
    if t.locked == 1 {
      assert t.phase[h].Holding?;
      assert Holder(t) == h;
    } else {
      assert cur == h;
    }
  }

  lemma FreeTurnShrinksWait(s: State, cur: nat, a: Access, w: nat, k: nat)
    requires Settled(s, cur) && Legal(s.phase[cur], a) && s.locked == 0
    requires w < |s.phase| && s.phase[w].Spinning? && s.turns <= k
    requires Apply(s, cur, a).phase[w].Spinning? && Apply(s, cur, a).turns <= k
    ensures Settled(Apply(s, cur, a), After(|s.phase|, cur))
    ensures Wait(Apply(s, cur, a), After(|s.phase|, cur), w, k) < Wait(s, cur, w, k)
  {
    var n := |s.phase|;
    var t, next := Apply(s, cur, a), After(n, cur);
    TurnKeepsSettled(s, cur, a);
    AheadBound(s, cur, w);
    AheadBound(t, next, w);
    DistanceStep(n, cur, cur);
    DistanceStep(n, cur, w);
    assert cur != w;
    if t.locked == 1 {
      assert t.phase[cur].Holding?;
      assert Holder(t) == cur;
    }
  }

  lemma {:induction false} WaitBoundsTurns(s: State, cur: nat, acts: seq<Access>, w: nat, k: nat)
    requires Settled(s, cur) && LegalTurns(s, cur, acts) && SpinsThroughout(s, cur, acts, w)
    requires PromptTurns(s, cur, acts, k)
    ensures |acts| <= Wait(s, cur, w, k)
    decreases |acts|
  {
    AheadBound(s, cur, w);
    if acts != [] {
      if s.locked == 1 {
        HeldTurnShrinksWait(s, cur, acts[0], w, k);
      } else {
        FreeTurnShrinksWait(s, cur, acts[0], w, k);
      }
      WaitBoundsTurns(Apply(s, cur, acts[0]), After(|s.phase|, cur), acts[1..], w, k);
    }
  }

  lemma WaitIsBounded(s: State, cur: nat, w: nat, k: nat)
    requires Settled(s, cur) && w < |s.phase| && s.phase[w].Spinning? && s.turns <= k
    ensures Wait(s, cur, w, k) <= FreeWait(|s.phase|, k, |s.phase| - 1)
  {
    var n, ahead := |s.phase|, Ahead(s, cur, w);
    AheadBound(s, cur, w);
    TimesMonotone(ahead, n - 1, Section(n, k) + 1);
    if s.locked == 1 {
      TimesMonotone(ahead, n - 2, Section(n, k) + 1);
      TimesMonotone(k - s.turns, k, n);
      assert FreeWait(n, k, n - 1) == Section(n, k) + 1 + Times(n - 2, Section(n, k) + 1);
    }
  }

  lemma SpinningTurns(s: State, cur: nat, acts: seq<Access>, w: nat, k: nat)
    requires Settled(s, cur) && LegalTurns(s, cur, acts) && SpinsThroughout(s, cur, acts, w)
    requires PromptTurns(s, cur, acts, k)
    ensures |acts| <= FreeWait(|s.phase|, k, |s.phase| - 1)
  {
    AheadBound(s, cur, w);
    WaitBoundsTurns(s, cur, acts, w, k);
    WaitIsBounded(s, cur, w, k);
  }

  /**
   No starvation: if every critical section lasts at most `k` passes of its holder, a process
   spins for at most (n - 1) * ((k + 1) * n + 1) turns of the ring before it holds the lock.
   */
  lemma BoundedWaiting(s: State, cur: nat, acts: seq<Access>, w: nat, k: nat)
    requires Settled(s, cur) && LegalTurns(s, cur, acts) && SpinsThroughout(s, cur, acts, w)
    requires PromptTurns(s, cur, acts, k)
    ensures |acts| <= (|s.phase| - 1) * ((k + 1) * |s.phase| + 1)
  {
    var n := |s.phase|;
    SpinningTurns(s, cur, acts, w, k);
    TimesIsProduct(k + 1, n);
    TimesIsProduct(n - 1, Section(n, k) + 1);
  }

  // ---------- the bound on bypass is reached ----------

  /** Every process has tried; those before `k` have been served and `k` holds the lock. */
  function Served(n: nat, k: nat): State
    requires k < n
  {
    State(1, seq(n, i => if i < k then Outside else if i == k then Holding else Spinning), 0)
  }

  function Repeat(a: Access, m: nat): (r: seq<Access>)
    ensures |r| == m
  {
    if m == 0 then [] else [a] + Repeat(a, m - 1)
  }

  /** One lap of the ring that passes the lock from `k` to `k + 1`. */
  function Handover(n: nat, k: nat): seq<Access>
    requires k + 1 < n
  {
    [Unlock, Lock] + Repeat(Lock, n - k - 2) + Repeat(Pass, k + 1)
  }

  function Handovers(n: nat, k: nat): seq<Access>
    requires k < n
  {
    if k == 0 then [] else Handovers(n, k - 1) + Handover(n, k - 1)
  }

  lemma {:induction false} TurnsAppend(s: State, cur: nat, a: seq<Access>, b: seq<Access>, w: nat)
    requires cur < |s.phase| && LegalTurns(s, cur, a) && SpinsThroughout(s, cur, a, w)
    requires LegalTurns(Turns(s, cur, a).0, Turns(s, cur, a).1, b)
    requires SpinsThroughout(Turns(s, cur, a).0, Turns(s, cur, a).1, b, w)
    ensures LegalTurns(s, cur, a + b) && SpinsThroughout(s, cur, a + b, w)
    ensures Turns(s, cur, a + b) == Turns(Turns(s, cur, a).0, Turns(s, cur, a).1, b)
    ensures Acquisitions(s, cur, a + b) == Acquisitions(s, cur, a) + Acquisitions(Turns(s, cur, a).0, Turns(s, cur, a).1, b)
    decreases |a|
  {
    if a == [] {
      assert a + b == b;
    } else {
      assert (a + b)[1..] == a[1..] + b;
      TurnsAppend(Apply(s, cur, a[0]), After(|s.phase|, cur), a[1..], b, w);
    }
  }

  /** A failed attempt of a spinner, or a pass of an outsider. */
  predicate Idle(p: Phase, a: Access) {
    (p.Spinning? && a == Lock) || (p.Outside? && a == Pass)
  }

  lemma IdleTurn(s: State, i: nat, a: Access)
    requires s.locked == 1 && i < |s.phase|
    requires Idle(s.phase[i], a)
    ensures Apply(s, i, a) == s
  {
    assert a == Lock ==> s.phase[i := Spinning] == s.phase;
  }

  /** Idle turns change nothing while the lock is held. */
  lemma {:induction false} IdleTurns(s: State, cur: nat, a: Access, m: nat, w: nat)
    requires s.locked == 1 && cur + m <= |s.phase| && cur < |s.phase|
    requires w < |s.phase| && s.phase[w].Spinning?
    requires forall i :: cur <= i < cur + m ==> Idle(s.phase[i], a)
    ensures LegalTurns(s, cur, Repeat(a, m)) && SpinsThroughout(s, cur, Repeat(a, m), w)
    ensures Turns(s, cur, Repeat(a, m)) == (s, if cur + m == |s.phase| then 0 else cur + m)
    ensures Acquisitions(s, cur, Repeat(a, m)) == 0
    decreases m
  {
    if m > 0 {
      IdleTurn(s, cur, a);
      assert Repeat(a, m)[1..] == Repeat(a, m - 1);
      if m > 1 {
        IdleTurns(s, cur + 1, a, m - 1, w);
      }
    }
  }

  lemma OneTurn(s: State, cur: nat, a: Access, w: nat)
    requires cur < |s.phase| && Legal(s.phase[cur], a)
    requires w < |s.phase| && s.phase[w].Spinning? && Apply(s, cur, a).phase[w].Spinning?
    ensures LegalTurns(s, cur, [a]) && SpinsThroughout(s, cur, [a], w)
    ensures Turns(s, cur, [a]) == (Apply(s, cur, a), After(|s.phase|, cur))
    ensures Acquisitions(s, cur, [a]) == if Acquires(s, cur, a) then 1 else 0
  {
    assert [a][1..] == [];
  }

  lemma SwapServesNext(n: nat, k: nat)
    requires k + 2 < n
    ensures LegalTurns(Served(n, k), k, [Unlock, Lock])
    ensures SpinsThroughout(Served(n, k), k, [Unlock, Lock], n - 1)
    ensures Turns(Served(n, k), k, [Unlock, Lock]) == (Served(n, k + 1), k + 2)
    ensures Acquisitions(Served(n, k), k, [Unlock, Lock]) == 1
  {
    var released := Apply(Served(n, k), k, Unlock);
    assert Apply(released, k + 1, Lock) == Served(n, k + 1);
    OneTurn(Served(n, k), k, Unlock, n - 1);
    OneTurn(released, k + 1, Lock, n - 1);
    TurnsAppend(Served(n, k), k, [Unlock], [Lock], n - 1);
    assert [Unlock, Lock] == [Unlock] + [Lock];
  }

  lemma Append3(s: State, cur: nat, a: seq<Access>, b: seq<Access>, c: seq<Access>, t: State, mid: nat, w: nat)
    requires cur < |s.phase| && mid < |t.phase|
    requires LegalTurns(s, cur, a) && SpinsThroughout(s, cur, a, w) && Turns(s, cur, a) == (t, mid)
    requires LegalTurns(t, mid, b) && SpinsThroughout(t, mid, b, w) && Turns(t, mid, b) == (t, 0)
    requires LegalTurns(t, 0, c) && SpinsThroughout(t, 0, c, w)
    ensures LegalTurns(s, cur, a + b + c) && SpinsThroughout(s, cur, a + b + c, w)
    ensures Turns(s, cur, a + b + c) == Turns(t, 0, c)
    ensures Acquisitions(s, cur, a + b + c) == Acquisitions(s, cur, a) + Acquisitions(t, mid, b) + Acquisitions(t, 0, c)
  {
    TurnsAppend(s, cur, a, b, w);
    TurnsAppend(s, cur, a + b, c, w);
  }

  lemma HandoverServesNext(n: nat, k: nat)
    requires k + 2 < n
    ensures LegalTurns(Served(n, k), k, Handover(n, k))
    ensures SpinsThroughout(Served(n, k), k, Handover(n, k), n - 1)
    ensures Turns(Served(n, k), k, Handover(n, k)) == (Served(n, k + 1), k + 1)
    ensures Acquisitions(Served(n, k), k, Handover(n, k)) == 1
  {
    var s, t := Served(n, k), Served(n, k + 1);
    SwapServesNext(n, k);
    IdleTurns(t, k + 2, Lock, n - k - 2, n - 1);
    IdleTurns(t, 0, Pass, k + 1, n - 1);
    Append3(s, k, [Unlock, Lock], Repeat(Lock, n - k - 2), Repeat(Pass, k + 1), t, k + 2, n - 1);
  }

  lemma ServedFacts(n: nat)
    requires n > 1
    ensures |Served(n, 0).phase| == n && Served(n, 0).phase[n - 1].Spinning?
  {}

  lemma NoTurns(s: State, cur: nat, w: nat)
    requires cur < |s.phase| && w < |s.phase| && s.phase[w].Spinning?
    ensures LegalTurns(s, cur, []) && SpinsThroughout(s, cur, [], w)
    ensures Turns(s, cur, []) == (s, cur) && Acquisitions(s, cur, []) == 0
  {}

  /** The bound of `BoundedBypass` is exact: the last of `n` contenders is overtaken n - 2 times. */
  lemma {:induction false} BypassBoundIsReached(n: nat, k: nat)
    requires k + 1 < n
    ensures LegalTurns(Served(n, 0), 0, Handovers(n, k))
    ensures SpinsThroughout(Served(n, 0), 0, Handovers(n, k), n - 1)
    ensures Turns(Served(n, 0), 0, Handovers(n, k)) == (Served(n, k), k)
    ensures Acquisitions(Served(n, 0), 0, Handovers(n, k)) == k
    decreases k
  {
    ServedFacts(n);
    hide Turns, LegalTurns, SpinsThroughout, Acquisitions, Served, Handover;
    if k == 0 {
      NoTurns(Served(n, 0), 0, n - 1);
    } else {
      BypassBoundIsReached(n, k - 1);
      HandoverServesNext(n, k - 1);
      TurnsAppend(Served(n, 0), 0, Handovers(n, k - 1), Handover(n, k - 1), n - 1);
    }
  }

  /** The first `m` of `n` contenders have tried. */
  function Tried(n: nat, m: nat): State
    requires 0 < m <= n
  {
    State(1, seq(n, i => if i == 0 then Holding else if i < m then Spinning else Outside), 0)
  }

  lemma {:induction false} RemainingTry(n: nat, m: nat)
    requires 0 < m < n
    ensures LegalTurns(Tried(n, m), m, Repeat(Lock, n - m))
    ensures Turns(Tried(n, m), m, Repeat(Lock, n - m)) == (Tried(n, n), 0)
    decreases n - m
  {
    assert Apply(Tried(n, m), m, Lock) == Tried(n, m + 1);
    assert Repeat(Lock, n - m)[1..] == Repeat(Lock, n - m - 1);
    if m + 1 < n {
      RemainingTry(n, m + 1);
    }
  }

  /** The state the bound is reached from is itself reached when all `n` processes contend at once. */
  lemma AllContend(n: nat)
    requires n > 1
    ensures LegalTurns(Init(n), 0, Repeat(Lock, n))
    ensures Turns(Init(n), 0, Repeat(Lock, n)) == (Served(n, 0), 0)
  {
    assert Apply(Init(n), 0, Lock) == Tried(n, 1);
    assert Repeat(Lock, n)[1..] == Repeat(Lock, n - 1);
    RemainingTry(n, 1);
    assert Tried(n, n) == Served(n, 0);
  }

  // ---------- and it needs the yields ----------

  /** Acquisitions by others while `w` is in its retry loop. */
  function Overtakes(s: State, steps: seq<(nat, Access)>, w: nat): nat
    requires LegalRun(s, steps) && w < |s.phase|
    decreases |steps|
  {
    if steps == [] then 0
    else (if s.phase[w].Spinning? && steps[0].0 != w && Acquires(s, steps[0].0, steps[0].1) then 1 else 0) +
         Overtakes(Apply(s, steps[0].0, steps[0].1), steps[1..], w)
  }

  predicate NeverHolds(s: State, steps: seq<(nat, Access)>, w: nat)
    requires LegalRun(s, steps) && w < |s.phase|
    decreases |steps|
  {
    !s.phase[w].Holding? && (steps == [] || NeverHolds(Apply(s, steps[0].0, steps[0].1), steps[1..], w))
  }

  function Contended(): State {
    State(1, [Holding, Spinning], 0)
  }

  /** Process 0 releases and retakes the lock `k` times, process 1 trying only in between. */
  function Barging(k: nat): seq<(nat, Access)> {
    if k == 0 then [] else [(0, Unlock), (0, Lock), (1, Lock)] + Barging(k - 1)
  }

  lemma BargeOnce(b: seq<(nat, Access)>, rest: seq<(nat, Access)>, k: nat)
    requires b == [(0, Unlock), (0, Lock), (1, Lock)] + rest
    requires LegalRun(Contended(), rest) && NeverHolds(Contended(), rest, 1) && Overtakes(Contended(), rest, 1) == k
    ensures LegalRun(Contended(), b) && NeverHolds(Contended(), b, 1) && Overtakes(Contended(), b, 1) == k + 1
  {
    var b1 := b[1..];
    var b2 := b1[1..];
    assert b2[1..] == rest;
    var free := Apply(Contended(), 0, Unlock);
    assert free == State(0, [Outside, Spinning], 0);
    assert Apply(free, 0, Lock) == Contended();
    assert Apply(Contended(), 1, Lock) == Contended();
    assert LegalRun(Contended(), b2) && NeverHolds(Contended(), b2, 1) && Overtakes(Contended(), b2, 1) == k;
    assert LegalRun(free, b1) && NeverHolds(free, b1, 1) && Overtakes(free, b1, 1) == k + 1;
  }

  /** Under preemption there is no bound: a waiter can be overtaken any number of times. */
  lemma {:induction false} NoBoundUnderPreemption(k: nat)
    ensures LegalRun(Contended(), Barging(k))
    ensures NeverHolds(Contended(), Barging(k), 1)
    ensures Overtakes(Contended(), Barging(k), 1) == k
  {
    if k > 0 {
      NoBoundUnderPreemption(k - 1);
      BargeOnce(Barging(k), Barging(k - 1), k - 1);
    }
  }

  lemma OneStep(s: State, i: nat, a: Access, rest: seq<(nat, Access)>)
    requires i < |s.phase| && Legal(s.phase[i], a) && LegalRun(Apply(s, i, a), rest)
    ensures LegalRun(s, [(i, a)] + rest) && Run(s, [(i, a)] + rest) == Run(Apply(s, i, a), rest)
  {
    assert ([(i, a)] + rest)[1..] == rest;
    hide Apply, Legal;
  }

  lemma NoSteps(s: State)
    ensures LegalRun(s, []) && Run(s, []) == s
  {}

  lemma TwoContend()
    ensures Apply(Init(2), 0, Lock) == State(1, [Holding, Outside], 0)
    ensures Apply(State(1, [Holding, Outside], 0), 1, Lock) == Contended()
  {}

  /** The contended state is reachable. */
  lemma ContendedIsReachable()
    ensures LegalRun(Init(2), [(0, Lock), (1, Lock)])
    ensures Run(Init(2), [(0, Lock), (1, Lock)]) == Contended()
  {
    hide LegalRun, Run, Apply;
    TwoContend();
    NoSteps(Contended());
    OneStep(State(1, [Holding, Outside], 0), 1, Lock, []);
    OneStep(Init(2), 0, Lock, [(1, Lock)] + []);
    assert [(0, Lock)] + ([(1, Lock)] + []) == [(0, Lock), (1, Lock)];
  }
}
