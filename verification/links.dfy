/** Sequences read as circles. */
module Rings {
  ghost predicate Distinct<T>(s: seq<T>) {
    forall i, j :: 0 <= i < |s| && 0 <= j < |s| && s[i] == s[j] ==> i == j
  }

  function After(n: nat, i: nat): nat
    requires i < n
  {
    if i + 1 == n then 0 else i + 1
  }

  function Before(n: nat, i: nat): nat
    requires i < n
  {
    if i == 0 then n - 1 else i - 1
  }

  function Rotate<T>(s: seq<T>): seq<T>
    requires |s| > 0
  {
    s[1..] + [s[0]]
  }

  function Remove<T>(s: seq<T>, k: nat): seq<T>
    requires k < |s|
  {
    s[..k] + s[k + 1..]
  }

  function Insert<T>(s: seq<T>, k: nat, x: T): seq<T>
    requires k <= |s|
  {
    s[..k] + [x] + s[k..]
  }

  lemma RotateIndex<T>(s: seq<T>)
    requires |s| > 0
    ensures |Rotate(s)| == |s|
    ensures forall i :: 0 <= i < |s| ==> Rotate(s)[i] == s[After(|s|, i)]
    ensures forall x :: x in Rotate(s) <==> x in s
  {
    forall x | x in s
      ensures x in Rotate(s)
    {
      var i :| 0 <= i < |s| && s[i] == x;
      assert Rotate(s)[Before(|s|, i)] == x;
    }
  }

  lemma RemoveIndex<T>(s: seq<T>, k: nat)
    requires k < |s|
    ensures |Remove(s, k)| == |s| - 1
    ensures forall i :: 0 <= i < |s| - 1 ==> Remove(s, k)[i] == s[if i < k then i else i + 1]
  {}

  lemma InsertIndex<T>(s: seq<T>, k: nat, x: T)
    requires k <= |s|
    ensures |Insert(s, k, x)| == |s| + 1
    ensures forall i :: 0 <= i < |s| + 1 ==> Insert(s, k, x)[i] == if i < k then s[i] else if i == k then x else s[i - 1]
    ensures forall y :: y in Insert(s, k, x) ==> y in s || y == x
  {}

  lemma InsertBehind<T>(h: T, s: seq<T>, k: nat, x: T)
    requires k <= |s|
    ensures Insert([h] + s, k + 1, x) == [h] + Insert(s, k, x)
  {
    assert ([h] + s)[..k + 1] == [h] + s[..k];
  }

  lemma InsertKeepsDistinct<T>(s: seq<T>, k: nat, x: T)
    requires Distinct(s) && k <= |s| && x !in s
    ensures Distinct(Insert(s, k, x))
  {
    InsertIndex(s, k, x);
  }

  lemma FirstIsApart<T>(x: T, s: seq<T>)
    requires Distinct([x] + s)
    ensures x !in s && Distinct(s)
  {
    var t := [x] + s;
    forall i | 0 <= i < |s|
      ensures s[i] != x
    {
      assert t[i + 1] == s[i] && t[0] == x;
    }
    forall i, j | 0 <= i < |s| && 0 <= j < |s| && s[i] == s[j]
      ensures i == j
    {
      assert t[i + 1] == t[j + 1];
    }
  }

  function Elements<T>(s: seq<T>): set<T> {
    set x | x in s
  }

  lemma {:induction false} CountDistinct<T>(s: seq<T>)
    requires Distinct(s)
    ensures |Elements(s)| == |s|
  {
    if s != [] {
      var front, x := s[..|s| - 1], s[|s| - 1];
      assert s == front + [x];
      CountDistinct(front);
      assert Elements(s) == Elements(front) + {x};
    }
  }

  /** What is taken out of a list without repeats is no longer in it; everything else is. */
  lemma RemovedIsGone<T>(s: seq<T>, k: nat)
    requires Distinct(s) && k < |s|
    ensures s[k] !in Remove(s, k)
    ensures forall x :: x in s && x != s[k] ==> x in Remove(s, k)
    ensures forall x :: x in Remove(s, k) ==> x in s
  {
    forall x | x in s && x != s[k]
      ensures x in Remove(s, k)
    {
      var i :| 0 <= i < |s| && s[i] == x;
      assert Remove(s, k)[if i < k then i else i - 1] == x;
    }
  }
}

/**
 The intrusive circular lists of include/link.h.  A link is the first member of the structure that
 contains it, so a link and its container are one object here, with the container's other members
 in `data`.
 */
module Links {
  import opened Rings

  class Link<D> {
    var prev: Link?<D>
    var next: Link?<D>
    var data: D

    /** `link_init` on a new structure. */
    constructor (data: D)
      ensures this.data == data && Circle([this])
    {
      this.data := data;
      prev := this;
      next := this;
    }
  }

  /** `s` lists, once each, the links met from s[0] by following `next`; `prev` goes back. */
  ghost predicate Circle<D>(s: seq<Link<D>>)
    reads s
  {
    && |s| > 0
    && Distinct(s)
    && (forall i {:trigger s[i].next} :: 0 <= i < |s| ==> s[i].next == s[After(|s|, i)])
    && (forall i {:trigger s[i].prev} :: 0 <= i < |s| ==> s[i].prev == s[Before(|s|, i)])
  }

  lemma InsertNeighbours<T>(s: seq<T>, k: nat, x: T, i: nat)
    requires k < |s| && i <= |s|
    ensures var t, n, j := Insert(s, k + 1, x), |s|, if i <= k then i else i - 1;
      if i == k + 1
      then t[i] == x && t[After(n + 1, i)] == s[After(n, k)] && t[Before(n + 1, i)] == s[k]
      else t[i] == s[j] &&
           t[After(n + 1, i)] == (if j == k then x else s[After(n, j)]) &&
           t[Before(n + 1, i)] == (if j == After(n, k) then x else s[Before(n, j)])
  {
    InsertIndex(s, k + 1, x);
  }

  lemma InsertedCircle<D>(s: seq<Link<D>>, k: nat, x: Link<D>)
    requires |s| > 0 && Distinct(s) && k < |s| && x !in s
    requires forall i {:trigger s[i].next} :: 0 <= i < |s| ==> s[i].next == if i == k then x else s[After(|s|, i)]
    requires forall i {:trigger s[i].prev} :: 0 <= i < |s| ==> s[i].prev == if i == After(|s|, k) then x else s[Before(|s|, i)]
    requires x.next == s[After(|s|, k)] && x.prev == s[k]
    ensures Circle(Insert(s, k + 1, x))
  {
    var t, n := Insert(s, k + 1, x), |s|;
    InsertKeepsDistinct(s, k + 1, x);
    forall i | 0 <= i < |t|
      ensures t[i].next == t[After(|t|, i)] && t[i].prev == t[Before(|t|, i)]
    {
      InsertNeighbours(s, k, x, i);
    }
  }

  /** `link_after`: `x` comes right behind `a`. */
  method LinkAfter<D>(a: Link<D>, x: Link<D>, ghost s: seq<Link<D>>, ghost k: nat)
    requires Circle(s) && k < |s| && s[k] == a && x !in s
    modifies s`next, s`prev, x`next, x`prev
    ensures Circle(Insert(s, k + 1, x))
  {
    var p, n := a, a.next;
    n.prev := x;
    x.next := n;
    x.prev := p;
    p.next := x;
    InsertedCircle(s, k, x);
  }

  lemma RemovedCircle<D>(s: seq<Link<D>>, k: nat)
    requires |s| > 1 && Distinct(s) && k < |s|
    requires forall i {:trigger s[i].next} :: 0 <= i < |s| && i != k ==> s[i].next == s[After(|s|, if i == Before(|s|, k) then k else i)]
    requires forall i {:trigger s[i].prev} :: 0 <= i < |s| && i != k ==> s[i].prev == s[Before(|s|, if i == After(|s|, k) then k else i)]
    ensures Circle(Remove(s, k))
  {
    var t, n := Remove(s, k), |s|;
    RemoveIndex(s, k);
    forall i | 0 <= i < |t|
      ensures t[i].next == t[After(|t|, i)] && t[i].prev == t[Before(|t|, i)]
    {
      var j := if i < k then i else i + 1;
      assert t[i] == s[j];
      assert t[After(n - 1, i)] == s[After(n, if j == Before(n, k) then k else j)];
      assert t[Before(n - 1, i)] == s[Before(n, if j == After(n, k) then k else j)];
    }
  }

  /** `link_before`: `x` comes right before `a`; before the first link means at the end of the circle. */
  method LinkBefore<D>(a: Link<D>, x: Link<D>, ghost s: seq<Link<D>>, ghost k: nat)
    requires Circle(s) && k < |s| && s[k] == a && x !in s
    modifies s`next, s`prev, x`next, x`prev
    ensures Circle(Insert(s, if k == 0 then |s| else k, x))
  {
    var p, n := a.prev, a;
    n.prev := x;
    x.next := n;
    x.prev := p;
    p.next := x;
    InsertedCircle(s, Before(|s|, k), x);
  }

  /** Makes the neighbours of `x` point at each other; a link alone is its own neighbour. */
  method Detach<D>(x: Link<D>, ghost s: seq<Link<D>>, ghost k: nat)
    requires Circle(s) && k < |s| && s[k] == x
    modifies s`next, s`prev
    ensures |s| > 1 ==> Circle(Remove(s, k))
    ensures x.next == old(x.next) && x.prev == old(x.prev)
  {
    var p, n := x.prev, x.next;
    n.prev := p;
    p.next := n;
    if |s| > 1 {
      RemovedCircle(s, k);
    }
  }

  /** `link_remove`: a link that was alone leaves nothing behind. */
  method LinkRemove<D>(x: Link<D>, ghost s: seq<Link<D>>, ghost k: nat)
    requires Circle(s) && k < |s| && s[k] == x
    modifies s`next, s`prev
    ensures x.next == null && x.prev == null
    ensures |s| > 1 ==> Circle(Remove(s, k))
  {
    Detach(x, s, k);
    RemovedIsGone(s, k);
    x.next := null;
    x.prev := null;
  }

  /** A link of circle `s` is moved within it, or to another circle. */
  ghost predicate Destination<D>(s: seq<Link<D>>, k: nat, t: seq<Link<D>>)
    requires k < |s|
    reads t
  {
    t == Remove(s, k) || (Circle(t) && forall y :: y in t ==> y !in s)
  }

  /** `link_move_after`: takes `x` out and puts it right behind `a`, in circle `t`. */
  method LinkMoveAfter<D>(a: Link<D>, x: Link<D>, ghost s: seq<Link<D>>, ghost k: nat, ghost t: seq<Link<D>>, ghost j: nat)
    requires Circle(s) && k < |s| && s[k] == x
    requires Destination(s, k, t) && j < |t| && t[j] == a
    modifies s`next, s`prev, t`next, t`prev
    ensures Circle(Insert(t, j + 1, x))
    ensures t != Remove(s, k) && |s| > 1 ==> Circle(Remove(s, k))
  {
    ghost var r := Remove(s, k);
    RemovedIsGone(s, k);
    assert t != r ==> forall i :: 0 <= i < |t| ==> t[i] !in s;
    Detach(x, s, k);
    assert Circle(t);
    assert t != r ==> forall i :: 0 <= i < |r| ==> r[i] in s && r[i] !in t && r[i] != x;
    LinkAfter(a, x, t, j);
  }

  /** `link_move_before`: takes `x` out and puts it right before `a`, in circle `t`. */
  method LinkMoveBefore<D>(a: Link<D>, x: Link<D>, ghost s: seq<Link<D>>, ghost k: nat, ghost t: seq<Link<D>>, ghost j: nat)
    requires Circle(s) && k < |s| && s[k] == x
    requires Destination(s, k, t) && j < |t| && t[j] == a
    modifies s`next, s`prev, t`next, t`prev
    ensures Circle(Insert(t, if j == 0 then |t| else j, x))
    ensures t != Remove(s, k) && |s| > 1 ==> Circle(Remove(s, k))
  {
    ghost var r := Remove(s, k);
    RemovedIsGone(s, k);
    assert t != r ==> forall i :: 0 <= i < |t| ==> t[i] !in s;
    Detach(x, s, k);
    assert Circle(t);
    assert t != r ==> forall i :: 0 <= i < |r| ==> r[i] in s && r[i] !in t && r[i] != x;
    LinkBefore(a, x, t, j);
  }

  /** `link_list_is_empty` of a list's head. */
  predicate IsEmpty<D>(x: Link<D>)
    reads x
  {
    x.next == x
  }

  lemma EmptyMeansAlone<D>(s: seq<Link<D>>)
    requires Circle(s)
    ensures IsEmpty(s[0]) <==> |s| == 1
  {
    assert s[0].next == s[After(|s|, 0)];
  }

  /** Removing what was just inserted gives back the list, so the free list of buffers is a stack. */
  lemma RemoveUndoesInsert<T>(s: seq<T>, k: nat, x: T)
    requires k <= |s|
    ensures Remove(Insert(s, k, x), k) == s
  {
    assert Insert(s, k, x)[k + 1..] == s[k..];
  }
}
