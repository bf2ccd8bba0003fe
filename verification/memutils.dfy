/** Copying bytes, as src/memory/memutils.c does it. */
module CopySpec {
  import opened Words

  /** Memory after copying `num` bytes one by one, lowest address first. */
  function Forward(m: seq<byte>, dst: nat, src: nat, num: nat): (r: seq<byte>)
    requires dst + num <= |m| && src + num <= |m|
    ensures |r| == |m|
  {
    if num == 0 then m
    else
      var r := Forward(m, dst, src, num - 1);
      r[dst + num - 1 := r[src + num - 1]]
  }

  /** Memory with the old source range in place of the destination range. */
  function Copied(m: seq<byte>, dst: nat, src: nat, num: nat): (r: seq<byte>)
    requires dst + num <= |m| && src + num <= |m|
    ensures |r| == |m|
  {
    m[..dst] + m[src..src + num] + m[dst + num..]
  }

  lemma CopyOne(m: seq<byte>, dst: nat, src: nat, k: nat)
    requires dst + k < |m| && src + k < |m|
    ensures Copied(m, dst, src, k + 1) == Copied(m, dst, src, k)[dst + k := m[src + k]]
  {}

  lemma CopiedAt(m: seq<byte>, dst: nat, src: nat, num: nat, i: nat)
    requires dst + num <= |m| && src + num <= |m| && i < |m|
    ensures Copied(m, dst, src, num)[i] == if dst <= i < dst + num then m[src + (i - dst)] else m[i]
  {}

  lemma {:induction false} ForwardCopies(m: seq<byte>, dst: nat, src: nat, num: nat)
    requires dst + num <= |m| && src + num <= |m|
    requires dst <= src || src + num <= dst
    ensures Forward(m, dst, src, num) == Copied(m, dst, src, num)
  {
    if num > 0 {
      ForwardCopies(m, dst, src, num - 1);
      CopiedAt(m, dst, src, num - 1, src + num - 1);
      CopyOne(m, dst, src, num - 1);
    }
  }

  lemma {:induction false} ForwardLeaves(m: seq<byte>, dst: nat, src: nat, num: nat, i: nat)
    requires dst + num <= |m| && src + num <= |m| && i < |m| && !(dst <= i < dst + num)
    ensures Forward(m, dst, src, num)[i] == m[i]
  {
    if num > 0 {
      ForwardLeaves(m, dst, src, num - 1, i);
    }
  }

  /** Once written, a byte of the destination is not written again. */
  lemma {:induction false} ForwardIsFinal(m: seq<byte>, dst: nat, src: nat, k: nat, num: nat, i: nat)
    requires dst + num <= |m| && src + num <= |m| && k <= num && i < dst + k
    ensures Forward(m, dst, src, num)[i] == Forward(m, dst, src, k)[i]
    decreases num
  {
    if k < num {
      ForwardIsFinal(m, dst, src, k, num - 1, i);
    }
  }

  /** The remainder of `i` by `d`, by repeated subtraction. */
  function Remainder(i: nat, d: nat): (r: nat)
    requires d > 0
    ensures r < d
  {
    if i < d then i else Remainder(i - d, d)
  }

  /** A destination behind the source's start repeats the bytes between the two over and over. */
  lemma {:induction false} ForwardRepeats(m: seq<byte>, dst: nat, src: nat, num: nat, i: nat)
    requires dst + num <= |m| && src < dst && i < num
    ensures Forward(m, dst, src, num)[dst + i] == m[src + Remainder(i, dst - src)]
    decreases num, i
  {
    if i + 1 < num {
      ForwardIsFinal(m, dst, src, i + 1, num, dst + i);
      ForwardRepeats(m, dst, src, i + 1, i);
    } else if i < dst - src {
      ForwardLeaves(m, dst, src, i, src + i);
    } else {
      ForwardRepeats(m, dst, src, i, i - (dst - src));
      assert src + i == dst + (i - (dst - src));
    }
  }

  ghost predicate Arrives(m: seq<byte>, dst: nat, src: nat, num: nat)
    requires dst + num <= |m| && src + num <= |m|
  {
    Forward(m, dst, src, num) == Copied(m, dst, src, num)
  }

  lemma ApartArrives(m: seq<byte>, dst: nat, src: nat, num: nat)
    requires dst + num <= |m| && src + num <= |m| && (dst <= src || src + num <= dst)
    ensures Arrives(m, dst, src, num)
  {
    ForwardCopies(m, dst, src, num);
  }

  lemma OverlapSpoils(m: seq<byte>, dst: nat, src: nat, num: nat)
    requires dst + num <= |m| && src < dst < src + num && m[src] != m[dst]
    ensures !Arrives(m, dst, src, num)
  {
    var d := dst - src;
    ForwardRepeats(m, dst, src, num, d);
    CopiedAt(m, dst, src, num, dst + d);
  }

  ghost predicate AlwaysArrives(size: nat, dst: nat, src: nat, num: nat)
    requires dst + num <= size && src + num <= size
  {
    forall m: seq<byte> :: |m| == size ==> Arrives(m, dst, src, num)
  }

  function OneAt(size: nat, k: nat): (m: seq<byte>)
    ensures |m| == size && forall i :: 0 <= i < size ==> m[i] == if i == k then 1 else 0
  {
    seq(size, i => if i == k then 1 else 0)
  }

  /** The bytes arrive whatever they are exactly when the destination does not start inside the source. */
  lemma CopyIsExactIff(size: nat, dst: nat, src: nat, num: nat)
    requires dst + num <= size && src + num <= size
    ensures AlwaysArrives(size, dst, src, num) <==> dst <= src || src + num <= dst
  {
    hide Arrives;
    if dst <= src || src + num <= dst {
      forall m: seq<byte> | |m| == size
        ensures Arrives(m, dst, src, num)
      {
        ApartArrives(m, dst, src, num);
      }
    } else {
      var m := OneAt(size, src);
      OverlapSpoils(m, dst, src, num);
    }
  }
}

module Memutils {
  import opened Words
  import opened CopySpec

  lemma ForwardOne(m: seq<byte>, dst: nat, src: nat, k: nat)
    requires dst + k < |m| && src + k < |m|
    ensures var r := Forward(m, dst, src, k);
      Forward(m, dst, src, k + 1) == r[dst + k := r[src + k]]
  {}

  /** The body of the copying loop. */
  method CopyPair(mem: array<byte>, d: nat, s: nat, ghost dst: nat, ghost src: nat, ghost m: seq<byte>)
    requires d + 2 <= mem.Length == |m| && s + 2 <= mem.Length && d - dst == s - src >= 0
    requires mem[..] == Forward(m, dst, src, d - dst)
    modifies mem
    ensures mem[..] == Forward(m, dst, src, d + 2 - dst)
  {
    hide Forward;
    ForwardOne(m, dst, src, d - dst);
    ForwardOne(m, dst, src, d + 1 - dst);
    mem[d] := mem[s];
    assert mem[..] == Forward(m, dst, src, d + 1 - dst);
    mem[d + 1] := mem[s + 1];
  }

  lemma ForwardNone(m: seq<byte>, dst: nat, src: nat)
    requires dst <= |m| && src <= |m|
    ensures Forward(m, dst, src, 0) == m
  {}

  /** `memcpy`: an odd byte first, then pairs. */
  method Memcpy(mem: array<byte>, dst: nat, src: nat, num: nat)
    requires dst + num <= mem.Length && src + num <= mem.Length
    modifies mem
    ensures mem[..] == Forward(old(mem[..]), dst, src, num)
    ensures dst <= src || src + num <= dst ==> mem[..] == Copied(old(mem[..]), dst, src, num)
  {
    hide Forward, Copied;
    ghost var m := mem[..];
    var d, s := dst, src;
    ForwardNone(m, dst, src);
    if num % 2 == 1 {
      ForwardOne(m, dst, src, 0);
      mem[d] := mem[s];
      d := d + 1;
      s := s + 1;
    }
    var left := num / 2;
    while left != 0
      invariant 0 <= left && d - dst == s - src == num - 2 * left
      invariant mem[..] == Forward(m, dst, src, d - dst)
    {
      CopyPair(mem, d, s, dst, src, m);
      d := d + 2;
      s := s + 2;
      left := left - 1;
    }
    if dst <= src || src + num <= dst {
      ForwardCopies(m, dst, src, num);
    }
  }
}
