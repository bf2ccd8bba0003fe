/**
 The order in which a round-robin ring serves its members.  The running member is first.
 */
module RoundRobin {
  import opened Rings

  datatype Op<T> = Switch | Add(member: T) | Leave | Reap(k: nat)

  /** The running member leaves only if another remains; a new member is new; only others are reaped. */
  predicate Legal<T(==)>(s: seq<T>, op: Op<T>) {
    |s| > 0 &&
    match op
    case Switch => true
    case Add(x) => x !in s
    case Leave => |s| > 1
    case Reap(k) => 0 < k < |s|
  }

  function Step<T>(s: seq<T>, op: Op<T>): (t: seq<T>)
    requires Legal(s, op)
    ensures |t| > 0
  {
    match op
    case Switch => Rotate(s)
    case Add(x) => Insert(s, 1, x)
    case Leave => Remove(s, 0)
    case Reap(k) => Remove(s, k)
  }

  predicate LegalRun<T(==)>(s: seq<T>, ops: seq<Op<T>>)
    decreases |ops|
  {
    |s| > 0 && (ops == [] || (Legal(s, ops[0]) && LegalRun(Step(s, ops[0]), ops[1..])))
  }

  function Run<T>(s: seq<T>, ops: seq<Op<T>>): (t: seq<T>)
    requires LegalRun(s, ops)
    ensures |t| > 0
    decreases |ops|
  {
    if ops == [] then s else Run(Step(s, ops[0]), ops[1..])
  }

  /** `x` is a member in every state of the run. */
  predicate Stays<T(==)>(s: seq<T>, ops: seq<Op<T>>, x: T)
    requires LegalRun(s, ops)
    decreases |ops|
  {
    x in s && (ops == [] || Stays(Step(s, ops[0]), ops[1..], x))
  }

  /** `x` is the running member in some state of the run. */
  predicate Runs<T(==)>(s: seq<T>, ops: seq<Op<T>>, x: T)
    requires LegalRun(s, ops)
    decreases |ops|
  {
    s[0] == x || (ops != [] && Runs(Step(s, ops[0]), ops[1..], x))
  }

  /** Every switch, and every departure of the running member, moves the ring on. */
  function Switches<T>(ops: seq<Op<T>>): nat {
    if ops == [] then 0 else (if ops[0].Switch? || ops[0].Leave? then 1 else 0) + Switches(ops[1..])
  }

  function Adds<T>(ops: seq<Op<T>>): nat {
    if ops == [] then 0 else (if ops[0].Add? then 1 else 0) + Adds(ops[1..])
  }

  lemma StepKeepsDistinct<T>(s: seq<T>, op: Op<T>)
    requires Legal(s, op) && Distinct(s)
    ensures Distinct(Step(s, op))
  {}

  /** Where a waiting member at `d` is after one step. */
  lemma StepMoves<T>(s: seq<T>, op: Op<T>, d: nat) returns (e: nat)
    requires Legal(s, op) && Distinct(s) && 0 < d < |s|
    requires s[d] in Step(s, op)
    ensures e < |Step(s, op)| && Step(s, op)[e] == s[d]
    ensures e <= d + (if op.Add? then 1 else 0) - (if op.Switch? || op.Leave? then 1 else 0)
  {
    match op {
      case Switch => e := d - 1;
      case Add(x) => e := d + 1;
      case Leave => e := d - 1;
      case Reap(k) => e := if d < k then d else d - 1;
    }
  }

  function SwitchOften<T>(k: nat): (r: seq<Op<T>>)
    ensures |r| == k
  {
    seq(k, _ => Switch)
  }

  /** Members are served in the order of the ring. */
  lemma {:induction false} ServedInOrder<T>(s: seq<T>, k: nat)
    requires k < |s|
    ensures LegalRun(s, SwitchOften(k)) && Run(s, SwitchOften(k))[0] == s[k]
    decreases k
  {
    if k > 0 {
      assert SwitchOften<T>(k)[1..] == SwitchOften<T>(k - 1);
      assert Rotate(s)[k - 1] == s[k];
      ServedInOrder(Rotate(s), k - 1);
    }
  }

  /** A new member is served right after the running one, and everyone else behind it, in the old order. */
  lemma NewcomerIsNext<T>(s: seq<T>, x: T, k: nat)
    requires Legal(s, Add(x)) && k < |s|
    ensures var t := Step(s, Add(x));
      && LegalRun(t, SwitchOften(k + 1))
      && Run(t, SwitchOften(k + 1))[0] == if k == 0 then x else s[k]
  {
    var t := Step(s, Add(x));
    InsertIndex(s, 1, x);
    ServedInOrder(t, k + 1);
  }

  /** Whoever leaves, or is reaped, the order of the others stays. */
  lemma OthersKeepOrder<T>(s: seq<T>, k: nat, j: nat)
    requires |s| > 1 && j + 1 < |s| && k < |s|
    ensures Step(s, Leave)[j] == s[j + 1]
    ensures k > 0 ==> Step(s, Reap(k))[j] == if j < k then s[j] else s[j + 1]
  {}

  /** Fairness: a member at distance d that stays runs within d plus the number of adds switches. */
  lemma {:induction false} WaitIsBounded<T>(s: seq<T>, ops: seq<Op<T>>, d: nat)
    requires Distinct(s) && LegalRun(s, ops) && d < |s|
    requires Stays(s, ops, s[d])
    requires Switches(ops) >= d + Adds(ops)
    ensures Runs(s, ops, s[d])
    decreases |ops|
  {
    if d > 0 {
      StepKeepsDistinct(s, ops[0]);
      var e := StepMoves(s, ops[0], d);
      WaitIsBounded(Step(s, ops[0]), ops[1..], e);
    }
  }

  /** A member that has gone never runs again, unless it is added again. */
  lemma {:induction false} GoneForGood<T>(s: seq<T>, ops: seq<Op<T>>, x: T)
    requires LegalRun(s, ops) && x !in s
    requires forall i :: 0 <= i < |ops| ==> ops[i] != Add(x)
    ensures !Runs(s, ops, x)
    decreases |ops|
  {
    if ops != [] {
      assert ops[0] != Add(x);
      GoneForGood(Step(s, ops[0]), ops[1..], x);
    }
  }

  // ---------- a killed process ----------

  /** `x` is reaped before it has had another turn. */
  predicate ReapedFirst<T(==)>(s: seq<T>, ops: seq<Op<T>>, x: T)
    requires LegalRun(s, ops)
    decreases |ops|
  {
    s[0] != x && ops != [] &&
    ((ops[0].Reap? && s[ops[0].k] == x) || ReapedFirst(Step(s, ops[0]), ops[1..], x))
  }

  lemma ReapedIsGone<T>(s: seq<T>, k: nat)
    requires Legal(s, Reap(k)) && Distinct(s)
    ensures s[k] !in Step(s, Reap(k))
  {
    RemovedIsGone(s, k);
  }

  /** A waiting member leaves the ring only if it is reaped. */
  lemma WaitingStays<T>(s: seq<T>, op: Op<T>, d: nat)
    requires Legal(s, op) && Distinct(s) && 0 < d < |s| && !(op.Reap? && op.k == d)
    ensures s[d] in Step(s, op)
  {
    match op {
      case Switch => assert Step(s, op)[d - 1] == s[d];
      case Add(y) => assert Step(s, op)[d + 1] == s[d];
      case Leave => assert Step(s, op)[d - 1] == s[d];
      case Reap(k) => assert Step(s, op)[if d < k then d else d - 1] == s[d];
    }
  }

  /**
   The scheduler never looks at a mark, so marking is no step of the ring: over a run with switches
   enough, a member at distance d runs again exactly when the reaper does not come to it first.
   */
  lemma {:induction false} RunsUnlessReapedFirst<T>(s: seq<T>, ops: seq<Op<T>>, d: nat)
    requires Distinct(s) && LegalRun(s, ops) && d < |s|
    requires Switches(ops) >= d + Adds(ops) && forall i :: 0 <= i < |ops| ==> ops[i] != Add(s[d])
    ensures Runs(s, ops, s[d]) <==> !ReapedFirst(s, ops, s[d])
    decreases |ops|
  {
    if d > 0 {
      StepKeepsDistinct(s, ops[0]);
      if ops[0].Reap? && ops[0].k == d {
        ReapedIsGone(s, d);
        GoneForGood(Step(s, ops[0]), ops[1..], s[d]);
      } else {
        WaitingStays(s, ops[0], d);
        var e := StepMoves(s, ops[0], d);
        RunsUnlessReapedFirst(Step(s, ops[0]), ops[1..], e);
      }
    }
  }

  // ---------- the cursor of the reaper ----------

  /**
   What the reaper holds between its turns: a process it passed by, or the `next` of one that is no
   longer in the ring, because the reaper unlinked it or because it has exited since.
   */
  datatype Cursor<T> = On(member: T) | Off(next: T)

  /**
   A run of the other processes while the reaper waits for its next turn: nobody reaps, and what is
   added is new, never a member that has left.
   */
  ghost predicate FreshRun<T(!new)>(s: seq<T>, ops: seq<Op<T>>)
    decreases |ops|
  {
    LegalRun(s, ops) && (ops == [] ||
    (!ops[0].Reap? && (forall x :: x in s ==> Add(x) !in ops) && FreshRun(Step(s, ops[0]), ops[1..])))
  }

  /** The cursor points into the ring. */
  predicate Good<T(==)>(s: seq<T>, cur: Cursor<T>) {
    match cur
    case On(x) => x in s
    case Off(y) => y in s
  }

  /** A process that leaves keeps the `next` it had. */
  function Follow<T(==)>(s: seq<T>, op: Op<T>, cur: Cursor<T>): Cursor<T>
    requires Legal(s, op)
  {
    if cur.On? && op.Leave? && s[0] == cur.member then Off(s[1]) else cur
  }

  function FollowRun<T(==)>(s: seq<T>, ops: seq<Op<T>>, cur: Cursor<T>): Cursor<T>
    requires LegalRun(s, ops)
    decreases |ops|
  {
    if ops == [] then cur else FollowRun(Step(s, ops[0]), ops[1..], Follow(s, ops[0], cur))
  }

  /** Where the reaper left off: behind member `k`, which it has unlinked or passed by. */
  function CursorAt<T>(s: seq<T>, k: nat, reaped: bool): Cursor<T>
    requires k < |s|
  {
    if reaped then Off(s[After(|s|, k)]) else On(s[k])
  }

  /** `x` kills itself at some point of the run. */
  predicate Leaves<T(==)>(s: seq<T>, ops: seq<Op<T>>, x: T)
    requires LegalRun(s, ops)
    decreases |ops|
  {
    ops != [] && ((ops[0].Leave? && s[0] == x) || Leaves(Step(s, ops[0]), ops[1..], x))
  }

  /**
   The cursor loses the ring.  Off the ring already, that takes the exit of the process it leads to;
   on the ring, the exit of its process and then of that process's successor at the time.
   */
  predicate Stranded<T(==)>(s: seq<T>, ops: seq<Op<T>>, cur: Cursor<T>)
    requires LegalRun(s, ops)
    decreases |ops|
  {
    match cur
    case Off(y) => Leaves(s, ops, y)
    case On(x) =>
      ops != [] &&
      if ops[0].Leave? && s[0] == x
      then Leaves(Step(s, ops[0]), ops[1..], s[1])
      else Stranded(Step(s, ops[0]), ops[1..], cur)
  }

  lemma OthersStay<T>(s: seq<T>, op: Op<T>, x: T)
    requires Legal(s, op) && !op.Reap? && x in s && !(op.Leave? && s[0] == x)
    ensures x in Step(s, op)
  {
    var i :| 0 <= i < |s| && s[i] == x;
    match op {
      case Switch => RotateIndex(s);
      case Add(y) => assert Step(s, op)[if i == 0 then 0 else i + 1] == x;
      case Leave => assert Step(s, op)[i - 1] == x;
      case Reap(k) => assert false;
    }
  }

  lemma {:induction false} StaysGone<T(!new)>(s: seq<T>, ops: seq<Op<T>>, x: T)
    requires LegalRun(s, ops) && x !in s && Add(x) !in ops
    ensures x !in Run(s, ops)
    decreases |ops|
  {
    if ops != [] {
      assert ops[0] != Add(x);
      StaysGone(Step(s, ops[0]), ops[1..], x);
    }
  }

  lemma LeftIsGone<T>(s: seq<T>)
    requires Legal(s, Leave) && Distinct(s)
    ensures s[0] !in Step(s, Leave) && s[1] in Step(s, Leave)
  {
    assert Step(s, Leave) == s[1..];
    FirstIsApart(s[0], s[1..]);
    assert s == [s[0]] + s[1..];
    assert s[1..][0] == s[1];
  }

  /** While nobody reaps, a member leaves the ring exactly by killing itself. */
  lemma {:induction false} MemberUnlessLeft<T(!new)>(s: seq<T>, ops: seq<Op<T>>, x: T)
    requires FreshRun(s, ops) && Distinct(s) && x in s
    ensures x in Run(s, ops) <==> !Leaves(s, ops, x)
    decreases |ops|
  {
    if ops != [] {
      assert Add(x) !in ops;
      StepKeepsDistinct(s, ops[0]);
      if ops[0].Leave? && s[0] == x {
        LeftIsGone(s);
        StaysGone(Step(s, ops[0]), ops[1..], x);
      } else {
        OthersStay(s, ops[0], x);
        MemberUnlessLeft(Step(s, ops[0]), ops[1..], x);
      }
    }
  }

  lemma {:induction false} OffStaysOff<T(!new)>(s: seq<T>, ops: seq<Op<T>>, y: T)
    requires LegalRun(s, ops)
    ensures FollowRun(s, ops, Off(y)) == Off(y)
    decreases |ops|
  {
    if ops != [] {
      OffStaysOff(Step(s, ops[0]), ops[1..], y);
    }
  }

  /** Whatever the reaper holds still leads into the ring at its next turn exactly when it was not stranded. */
  lemma {:induction false} CursorIsGoodIff<T(!new)>(s: seq<T>, ops: seq<Op<T>>, cur: Cursor<T>)
    requires FreshRun(s, ops) && Distinct(s) && Good(s, cur)
    ensures Good(Run(s, ops), FollowRun(s, ops, cur)) <==> !Stranded(s, ops, cur)
    decreases |ops|
  {
    if cur.Off? {
      OffStaysOff(s, ops, cur.next);
      MemberUnlessLeft(s, ops, cur.next);
    } else if ops != [] {
      StepKeepsDistinct(s, ops[0]);
      if ops[0].Leave? && s[0] == cur.member {
        LeftIsGone(s);
      } else {
        OthersStay(s, ops[0], cur.member);
      }
      CursorIsGoodIff(Step(s, ops[0]), ops[1..], Follow(s, ops[0], cur));
    }
  }

  /** The cursor is good when the reaper yields, whether it has just passed by member `k` or unlinked it. */
  lemma RoundLeavesGoodCursor<T>(s: seq<T>, k: nat, reaped: bool)
    requires Distinct(s) && k < |s| && (reaped ==> Legal(s, Reap(k)))
    ensures Good(if reaped then Step(s, Reap(k)) else s, CursorAt(s, k, reaped))
  {
    if reaped {
      RemovedIsGone(s, k);
      assert s[After(|s|, k)] != s[k];
    }
  }

  /** Two neighbours exit in a row, and the step of a reaper that passed the first leaves the ring. */
  lemma NeighboursExit<T(!new)>(x: T, y: T, z: T)
    requires x != y && y != z && z != x
    ensures FreshRun([x, y, z], [Leave, Leave]) && Stranded([x, y, z], [Leave, Leave], On(x))
    ensures Run([x, y, z], [Leave, Leave]) == [z]
    ensures FollowRun([x, y, z], [Leave, Leave], On(x)) == Off(y)
  {
    var ops: seq<Op<T>> := [Leave, Leave];
    assert ops[1..] == [Leave] && ops[1..][1..] == [];
    assert Step([x, y, z], Leave) == [y, z] && Step([y, z], Leave) == [z];
    assert Leaves([y, z], ops[1..], y);
    assert FollowRun([y, z], ops[1..], Off(y)) == FollowRun([z], [], Off(y));
  }

  /** After the reaper `j` has unlinked zombie `z`, the exit of z's successor alone is enough. */
  lemma SuccessorOfReapedExits<T(!new)>(j: T, z: T, y: T, i: T)
    requires Distinct([j, z, y, i])
    ensures Step([j, z, y, i], Reap(1)) == [j, y, i] && CursorAt([j, z, y, i], 1, true) == Off(y)
    ensures FreshRun([j, y, i], [Switch, Leave]) && Stranded([j, y, i], [Switch, Leave], Off(y))
    ensures Run([j, y, i], [Switch, Leave]) == [i, j]
  {
    var s, ops: seq<Op<T>> := [j, z, y, i], [Switch, Leave];
    assert s[0] != s[2] && s[0] != s[3] && s[2] != s[3];
    assert ops[1..] == [Leave] && ops[1..][1..] == [];
    assert Step([j, y, i], Switch) == [y, i, j] && Step([y, i, j], Leave) == [i, j];
    assert Leaves([y, i, j], ops[1..], y);
  }
}

/**
 The process ring of src/tasking.c: a circular doubly linked list entered at the running process.
 */
module Tasking {
  import opened Words
  import opened Rings

  const IDLE_PID: uint32 := 1

  datatype Life = Alive | Zombie

  class Process {
    var prev: Process?
    var next: Process?
    const pid: uint32
    var state: Life

    constructor (pid: uint32)
      ensures this.pid == pid && state == Alive && prev == null && next == null
    {
      prev, next := null, null;
      this.pid := pid;
      state := Alive;
    }
  }

  /** `s` lists, once each, the processes met from s[0] by following `next`; `prev` goes back. */
  ghost predicate Circle(s: seq<Process>)
    reads s
  {
    && |s| > 0
    && Distinct(s)
    && (forall i {:trigger s[i].next} :: 0 <= i < |s| ==> s[i].next == s[After(|s|, i)])
    && (forall i {:trigger s[i].prev} :: 0 <= i < |s| ==> s[i].prev == s[Before(|s|, i)])
  }

  /** Links `x` in behind the first process. */
  method LinkAfterFirst(x: Process, ghost s: seq<Process>, first: Process)
    requires Circle(s) && s[0] == first && x !in s
    modifies s, x
    ensures Circle(Insert(s, 1, x))
    ensures x.state == old(x.state) && forall q :: q in s ==> q.state == old(q.state)
  {
    x.next := first.next;
    x.next.prev := x;
    x.prev := first;
    first.next := x;
    ghost var t := Insert(s, 1, x);
    InsertIndex(s, 1, x);
    assert forall i :: 0 <= i < |t| ==> t[i] == if i == 0 then s[0] else if i == 1 then x else s[i - 1];
  }

  lemma UnlinkedCircle(s: seq<Process>, k: nat)
    requires |s| > 1 && Distinct(s) && k < |s|
    requires forall i {:trigger s[i].next} :: 0 <= i < |s| ==> s[i].next == s[if i == Before(|s|, k) then After(|s|, k) else After(|s|, i)]
    requires forall i {:trigger s[i].prev} :: 0 <= i < |s| ==> s[i].prev == s[if i == After(|s|, k) then Before(|s|, k) else Before(|s|, i)]
    ensures Circle(Remove(s, k)) && s[After(|s|, k)] in Remove(s, k)
  {
    var t := Remove(s, k);
    RemoveIndex(s, k);
    assert s[After(|s|, k)] == t[if k == |t| then 0 else k];
    forall i | 0 <= i < |t|
      ensures t[i].next == t[After(|t|, i)] && t[i].prev == t[Before(|t|, i)]
    {
      var j := if i < k then i else i + 1;
      assert t[i] == s[j] && t[After(|t|, i)] == s[if j == Before(|s|, k) then After(|s|, k) else After(|s|, j)];
      assert t[Before(|t|, i)] == s[if j == After(|s|, k) then Before(|s|, k) else Before(|s|, j)];
    }
  }

  lemma CutOff(s: seq<Process>, x: Process)
    requires x in s && (x.next !in s || x.prev !in s)
    ensures !Circle(s)
  {
    var i :| 0 <= i < |s| && s[i] == x;
    assert s[i].next !in s || s[i].prev !in s;
  }

  /** Makes the neighbours of `x` point at each other, whether or not `x` is still in the ring. */
  method Unlink(x: Process, ghost s: seq<Process>, ghost k: nat)
    requires Circle(s) && x.prev != null && x.next != null
    requires x in s ==> |s| > 1 && k < |s| && s[k] == x
    modifies s, x.prev, x.next
    ensures x in s ==> Circle(Remove(s, k)) && x.next == s[After(|s|, k)] && x.next in Remove(s, k)
    ensures x !in s && old(x.prev) in s && old(x.next) in s ==>
              (Circle(s) <==> old(x.prev.next) == old(x.next) && old(x.next.prev) == old(x.prev))
    ensures x !in s && old(x.prev) !in s && old(x.next) !in s ==> Circle(s)
    ensures x !in s && (old(x.prev) in s <==> old(x.next) !in s) ==> !Circle(s)
    ensures forall q :: q in s ==> q.state == old(q.state)
  {
    x.prev.next := x.next;
    x.next.prev := x.prev;
    if x in s {
      UnlinkedCircle(s, k);
    } else if old(x.prev) in s && old(x.next) in s {
      ghost var i, j :| 0 <= i < |s| && s[i] == old(x.prev) && 0 <= j < |s| && s[j] == old(x.next);
      assert old(s[i].next) == s[After(|s|, i)] && old(s[j].prev) == s[Before(|s|, j)];
    } else if old(x.prev) in s {
      CutOff(s, x.prev);
    } else if old(x.next) in s {
      CutOff(s, x.next);
    }
  }

  ghost predicate PidsDistinct(s: seq<Process>) {
    forall p, q :: p in s && q in s && p.pid == q.pid ==> p == q
  }

  class Scheduler {
    var c: Process
    var lpid: uint32
    ghost var ring: seq<Process>
    ghost var idle: Process

    ghost predicate Valid()
      reads this, ring
    {
      && Circle(ring) && ring[0] == c
      && PidsDistinct(ring)
      && idle in ring && idle.pid == IDLE_PID && idle.state == Alive
      && (forall p :: p in ring ==> p.pid <= lpid)
    }

    /** `tasking_init`, before its first `__addProcess`: the idle process alone. */
    constructor ()
      ensures Valid() && ring == [idle] && lpid == 1 && fresh(idle)
    {
      var p := new Process(IDLE_PID);
      p.next := p;
      p.prev := p;
      c := p;
      idle := p;
      lpid := 1;
      ring := [p];
    }

    /** The pid of `createProcess` is new to the ring unless the 32-bit counter wraps. */
    method CreateProcess() returns (p: Process)
      requires Valid()
      modifies this`lpid
      ensures fresh(p) && p.state == Alive && p.pid == (old(lpid) + 1) % TWO_32 == lpid
      ensures lpid != 0 ==> Valid() && forall q :: q in ring ==> q.pid < p.pid
    {
      lpid := (lpid + 1) % TWO_32;
      p := new Process(lpid);
    }

    /** `__addProcess`: links `p` in right after the running process. */
    method AddProcess(p: Process)
      requires Valid() && p !in ring && p.pid <= lpid
      requires forall q :: q in ring ==> q.pid != p.pid
      modifies this`ring, ring, p
      ensures Valid() && c == old(c) && idle == old(idle)
      ensures ring == Insert(old(ring), 1, p)
      ensures p.state == old(p.state) && forall q :: q in old(ring) ==> q.state == old(q.state)
    {
      LinkAfterFirst(p, ring, c);
      ring := Insert(ring, 1, p);
    }

    /** The step `c = c->next` of `schedule`. */
    method Schedule()
      requires Valid()
      modifies this`c, this`ring
      ensures Valid() && idle == old(idle)
      ensures ring == Rotate(old(ring))
    {
      RotateIndex(ring);
      assert c.next == ring[After(|ring|, 0)];
      c := c.next;
      ring := Rotate(ring);
    }

    /** `_kill`, with the switch it ends in: the running process unlinks itself. */
    method KillSelf() returns (panic: bool)
      requires Valid()
      modifies this`c, this`ring, ring
      ensures Valid() && idle == old(idle)
      ensures panic <==> old(c).pid == IDLE_PID
      ensures ring == if panic then old(ring) else Remove(old(ring), 0)
      ensures !panic ==> old(c) !in ring && |old(ring)| > 1 && old(c).next == old(ring)[1]
      ensures forall q :: q in old(ring) ==> q.state == old(q.state)
    {
      if c.pid == IDLE_PID {
        return true;
      }
      assert idle in ring && idle != ring[0];
      RemovedIsGone(ring, 0);
      Unlink(c, ring, 0);
      ring := Remove(ring, 0);
      c := c.next;
      panic := false;
    }

    /** `kill`: another process is only marked; the caller itself goes at once; idle is refused. */
    method Kill(pid: uint32) returns (panic: bool)
      requires Valid()
      modifies this`c, this`ring, ring
      ensures Valid() && idle == old(idle)
      ensures panic <==> pid == IDLE_PID
      ensures ring == if !panic && pid == old(c).pid then Remove(old(ring), 0) else old(ring)
      ensures forall q :: q in old(ring) ==>
                q.state == if !panic && q.pid == pid && q != old(c) then Zombie else old(q.state)
    {
      if pid == IDLE_PID {
        return true;
      }
      if pid == c.pid {
        panic := KillSelf();
        return;
      }
      panic := false;
      var p := c;
      ghost var i := 0;
      while true
        invariant 0 <= i < |ring| && p == ring[i]
        invariant forall k :: 0 <= k < i ==> ring[k].pid != pid
        invariant Valid() && forall q :: q in ring ==> q.state == old(q.state)
        decreases |ring| - i
      {
        if p.pid == pid {
          p.state := Zombie;
          break;
        }
        p := p.next;
        if p == c {
          break;
        }
        i := i + 1;
      }
    }

    /** `is_pid_running`: once around the ring decides membership. */
    method IsPidRunning(pid: uint32) returns (found: bool)
      requires Valid()
      ensures found <==> exists p :: p in ring && p.pid == pid
    {
      var p := c;
      ghost var i := 0;
      while true
        invariant 0 <= i < |ring| && p == ring[i]
        invariant forall k :: 0 <= k < i ==> ring[k].pid != pid
        decreases |ring| - i
      {
        if p.pid == pid {
          return true;
        }
        p := p.next;
        if p == c {
          return false;
        }
        i := i + 1;
      }
    }

    /**
     One round of `jack_the_ripper`: the cursor moves on and, unless it is the running process, a
     zombie under it is unlinked.  From a cursor whose `next` has left the ring the step only moves on,
     if what it finds there is alive.  A zombie there is unlinked a second time, which leaves the ring
     whole exactly when its old neighbours are still neighbours on the ring, or have both left it.  What
     was added between them is lost, and a process whose old neighbour has left is cut off.
     */
    method ReapNext(p: Process) returns (q: Process, ghost k: nat)
      requires Valid() && p.next != null && p.next.prev != null && p.next.next != null
      modifies this`ring, ring, p.next.prev, p.next.next
      ensures q == old(p.next) && c == old(c) && idle == old(idle)
      ensures q in old(ring) ==> Valid() && k < |old(ring)| && q == old(ring)[k]
      ensures q in old(ring) ==>
                ring == if k > 0 && old(q.state) == Zombie then Remove(old(ring), k) else old(ring)
      ensures q in old(ring) ==> q.next == old(ring)[After(|old(ring)|, k)] && q.next in ring
      ensures q !in old(ring) && old(q.state) != Zombie ==> Valid() && ring == old(ring) && q.next == old(q.next)
      ensures q !in old(ring) && old(q.state) == Zombie && old(q.prev) in old(ring) && old(q.next) in old(ring) ==>
                (Valid() <==> old(q.prev.next) == old(q.next) && old(q.next.prev) == old(q.prev))
      ensures q !in old(ring) && old(q.state) == Zombie && old(q.prev) !in old(ring) && old(q.next) !in old(ring) ==> Valid()
      ensures q !in old(ring) && old(q.state) == Zombie && (old(q.prev) in old(ring) <==> old(q.next) !in old(ring)) ==> !Valid()
      ensures q !in old(ring) ==> ring == old(ring)
      ensures forall r :: r in old(ring) ==> r.state == old(r.state)
    {
      q, k := p.next, 0;
      if q in ring {
        k :| 0 <= k < |ring| && ring[k] == q;
        assert q.next == ring[After(|ring|, k)];
      }
      hide Circle, Remove, After;
      if q == c {
        return;
      }
      if q.state == Zombie {
        if q in ring {
          RemovedIsGone(ring, k);
        }
        Unlink(q, ring, k);
        if q in ring {
          ring := Remove(ring, k);
        }
      }
    }

    /** A marked process still gets its turn: here the next one. */
    method KilledProcessRuns() returns (panic: bool)
      requires Valid() && |ring| > 1 && ring[1] != idle
      modifies this`c, this`ring, ring
      ensures Valid() && !panic && c == old(ring)[1] && c.state == Zombie
    {
      assert ring[1] in ring && ring[1].pid != IDLE_PID && ring[1] != ring[0];
      assert c.next == ring[After(|ring|, 0)];
      panic := Kill(c.next.pid);
      RotateIndex(ring);
      Schedule();
    }
  }
}
