/**
 The Internet checksum of src/net/checksum.c, against the definition of RFC 1071:
 the one's-complement of the one's-complement sum of the big-endian 16-bit words.
 */
module Checksum {
  import opened Words

  const MAX_LEN: nat := 131074

  // ---------- the accumulator ----------

  /** The unbounded sum of the little-endian words of `data`; an odd last byte counts as a low byte. */
  function WordSum(data: seq<byte>): nat {
    if |data| == 0 then 0
    else if |data| == 1 then data[0]
    else Word16(data[1], data[0]) + WordSum(data[2..])
  }

  lemma {:induction false} WordSumAppend(a: seq<byte>, b: seq<byte>)
    requires |a| % 2 == 0
    ensures WordSum(a + b) == WordSum(a) + WordSum(b)
  {
    if |a| == 0 {
      assert a + b == b;
    } else {
      assert (a + b)[2..] == a[2..] + b;
      WordSumAppend(a[2..], b);
    }
  }

  /** Every two bytes add at most 0xFFFF, so MAX_LEN bytes cannot wrap a 32-bit accumulator. */
  lemma {:induction false} WordSumBound(data: seq<byte>)
    ensures WordSum(data) <= ((|data| + 1) / 2) * 0xFFFF
    ensures |data| <= MAX_LEN ==> WordSum(data) < TWO_32
  {
    if |data| >= 2 {
      WordSumBound(data[2..]);
    }
  }

  /** What a 32-bit register keeps of a number. */
  function Low32(n: nat): uint32 {
    n % TWO_32
  }

  lemma Low32Add(a: nat, w: nat)
    ensures Low32(Low32(a) + w) == Low32(a + w)
  {
    var q := a / TWO_32;
    assert a + w == (a % TWO_32 + w) + q * TWO_32;
  }

  lemma Low32Sum(start: nat, a: nat, w: nat, b: nat)
    requires b == a + w
    ensures Low32(Low32(start + a) + w) == Low32(start + b)
  {
    Low32Add(start + a, w);
    hide Low32;
  }

  lemma WordSumStep(data: seq<byte>, p: nat)
    requires p % 2 == 0 && p + 1 < |data|
    ensures WordSum(data[..p + 2]) == WordSum(data[..p]) + Word16(data[p + 1], data[p])
  {
    assert data[..p + 2] == data[..p] + [data[p], data[p + 1]];
    WordSumAppend(data[..p], [data[p], data[p + 1]]);
    assert WordSum([data[p], data[p + 1]]) == Word16(data[p + 1], data[p]);
  }

  /** What the register holds after `p` bytes. */
  function Summed(start: uint32, data: seq<byte>, p: nat): uint32
    requires p <= |data|
  {
    Low32(start + WordSum(data[..p]))
  }

  lemma SummedAdds(start: uint32, data: seq<byte>, p: nat, q: nat, w: nat)
    requires p <= q <= |data| && WordSum(data[..q]) == WordSum(data[..p]) + w
    ensures Summed(start, data, q) == Low32(Summed(start, data, p) + w)
  {
    Low32Sum(start, WordSum(data[..p]), w, WordSum(data[..q]));
    hide Low32, WordSum;
  }

  lemma SummedStep(start: uint32, data: seq<byte>, p: nat)
    requires p % 2 == 0 && p + 1 < |data|
    ensures Summed(start, data, p + 2) == Low32(Summed(start, data, p) + Word16(data[p + 1], data[p]))
  {
    WordSumStep(data, p);
    hide *;
    SummedAdds(start, data, p, p + 2, Word16(data[p + 1], data[p]));
  }

  lemma WordSumLast(data: seq<byte>, p: nat)
    requires p % 2 == 0 && p + 1 == |data|
    ensures WordSum(data) == WordSum(data[..p]) + data[p]
  {
    WordSumAppend(data[..p], data[p..]);
    assert data[..p] + data[p..] == data;
    assert data[p..] == [data[p]];
  }

  lemma SummedLast(start: uint32, data: seq<byte>, p: nat)
    requires p % 2 == 0 && p + 1 == |data|
    ensures Summed(start, data, |data|) == Low32(Summed(start, data, p) + data[p])
  {
    WordSumLast(data, p);
    assert data[..|data|] == data;
    hide *;
    SummedAdds(start, data, p, |data|, data[p]);
  }

  lemma SummedEnds(start: uint32, data: seq<byte>)
    ensures Summed(start, data, 0) == start
    ensures Summed(start, data, |data|) == (start + WordSum(data)) % TWO_32
  {
    assert data[..|data|] == data;
  }

  method Accumulate(data: seq<byte>, start: uint32) returns (sum: uint32)
    ensures sum == (start + WordSum(data)) % TWO_32
  {
    SummedEnds(start, data);
    hide WordSum, Word16, Low32, Summed;
    var len := |data|;
    var p := 0;
    sum := start;
    while len > 1
      invariant 0 <= p <= |data| && len == |data| - p && p % 2 == 0
      invariant sum == Summed(start, data, p)
    {
      SummedStep(start, data, p);
      sum := Low32(sum + Word16(data[p + 1], data[p]));
      p := p + 2;
      len := len - 2;
    }
    if len != 0 {
      SummedLast(start, data, p);
      sum := Low32(sum + data[p]);
    }
  }

  // ---------- the folds ----------

  /** Two end-around-carry folds, cut to 16 bits. */
  function Folded(sum: uint32): uint16 {
    var s1 := sum % TWO_16 + sum / TWO_16;
    (s1 + s1 / TWO_16) % TWO_16
  }

  /** Fold, complement, swap the bytes. */
  function Final(sum: uint32): (r: uint16) {
    Swap16(0xFFFF - Folded(sum))
  }

  function Computed(data: seq<byte>): uint16 {
    Final(WordSum(data) % TWO_32)
  }

  // ---------- the definition of RFC 1071 ----------

  /** One's-complement addition of 16-bit words: the carry comes back in at the bottom. */
  function OnesAdd(a: uint16, b: uint16): uint16 {
    if a + b < TWO_16 then a + b else a + b - 0xFFFF
  }

  /** One's-complement sum of the big-endian words, an odd last byte padded with a zero on its right. */
  function OnesSum(data: seq<byte>): uint16 {
    if |data| == 0 then 0
    else if |data| == 1 then Word16(data[0], 0)
    else OnesAdd(Word16(data[0], data[1]), OnesSum(data[2..]))
  }

  /** The representative of n modulo 0xFFFF that one's-complement sums keep: zero only for zero. */
  function Residue(n: nat): uint16 {
    if n == 0 then 0 else (n - 1) % 0xFFFF + 1
  }

  lemma ResidueUnique(r: uint16, n: nat, k: int)
    requires n - r == k * 0xFFFF
    requires r == 0 <==> n == 0
    ensures r == Residue(n)
  {
    if n > 0 {
      assert n - 1 == (r - 1) + k * 0xFFFF;
      assert (n - 1) % 0xFFFF == r - 1;
    }
  }

  lemma ResidueWitness(n: nat) returns (k: nat)
    ensures n - Residue(n) == k * 0xFFFF
    ensures Residue(n) == 0 <==> n == 0
  {
    k := if n == 0 then 0 else (n - 1) / 0xFFFF;
  }

  lemma FoldParts(lo: uint16, hi: uint16, sum: uint32)
    requires sum == hi * TWO_16 + lo
    ensures (lo + hi + (lo + hi) / TWO_16) % TWO_16 == Residue(sum)
  {
    if lo + hi < TWO_16 {
      ResidueUnique(lo + hi, sum, hi);
    } else {
      ResidueUnique(lo + hi + 1 - TWO_16, sum, hi + 1);
    }
  }

  /** Two folds are enough: they leave the residue for every 32-bit sum. */
  lemma TwoFoldsSuffice(sum: uint32)
    ensures Folded(sum) == Residue(sum)
  {
    var hi, lo := sum / TWO_16, sum % TWO_16;
    assert sum == hi * TWO_16 + lo;
    FoldParts(lo, hi, sum);
  }

  /** Byte order does not matter: swapping the residue of n gives the residue of 256 * n. */
  lemma SwapResidue(n: nat)
    ensures Swap16(Residue(n)) == Residue(256 * n)
  {
    var k := ResidueWitness(n);
    var r: int := Residue(n);
    assert Swap16(r) == 256 * r - (r / 256) * 0xFFFF;
    assert 256 * n - Swap16(r) == (256 * k + r / 256) * 0xFFFF;
    ResidueUnique(Swap16(r), 256 * n, 256 * k + r / 256);
  }

  lemma {:induction false} OnesSumResidue(data: seq<byte>)
    ensures OnesSum(data) == Residue(256 * WordSum(data))
  {
    if |data| == 1 {
      ResidueUnique(Word16(data[0], 0), Word16(data[0], 0), 0);
    } else if |data| > 1 {
      var rest := WordSum(data[2..]);
      OnesSumResidue(data[2..]);
      var k := ResidueWitness(256 * rest);
      var r := Residue(256 * rest);
      var w := Word16(data[0], data[1]);
      var low: int := data[1];
      var carry := if w + r < TWO_16 then 0 else 1;
      var n := 256 * WordSum(data);
      assert n == w + low * 0xFFFF + 256 * rest;
      assert n - OnesAdd(w, r) == (low + k + carry) * 0xFFFF;
      ResidueUnique(OnesAdd(w, r), n, low + k + carry);
    }
  }

  lemma SwapComplement(x: uint16)
    ensures Swap16(0xFFFF - x) == 0xFFFF - Swap16(x)
  {
    assert (0xFFFF - x) / 256 == 255 - x / 256;
  }

  lemma FinalFromResidue(n: uint32)
    ensures Final(n) == 0xFFFF - Swap16(Residue(n))
  {
    TwoFoldsSuffice(n);
    SwapComplement(Residue(n));
  }

  lemma NoWrap(n: nat)
    requires n < TWO_32
    ensures n % TWO_32 == n
  {}

  /** What the kernel computes, in terms of the residue of its little-endian sum. */
  lemma ComputedFromResidue(data: seq<byte>)
    requires |data| <= MAX_LEN
    ensures Computed(data) == 0xFFFF - Swap16(Residue(WordSum(data)))
  {
    var n := WordSum(data);
    WordSumBound(data);
    NoWrap(n);
    FinalFromResidue(n);
  }

  /** Main result: below the length limit the kernel's little-endian computation is the RFC's big-endian one. */
  lemma ChecksumIsRfc1071(data: seq<byte>)
    requires |data| <= MAX_LEN
    ensures Computed(data) == 0xFFFF - OnesSum(data)
  {
    ComputedFromResidue(data);
    SwapResidue(WordSum(data));
    OnesSumResidue(data);
  }

  method NetChecksum(data: seq<byte>) returns (r: uint16)
    ensures r == Computed(data)
    ensures |data| <= MAX_LEN ==> r == 0xFFFF - OnesSum(data)
  {
    var sum := Accumulate(data, 0);
    r := Final(sum);
    if |data| <= MAX_LEN {
      ChecksumIsRfc1071(data);
    }
  }

  // ---------- checking what was stored ----------

  /** `data` with the checksum `c` stored high byte first at offset `at`. */
  function Stored(data: seq<byte>, at: nat, c: uint16): seq<byte>
    requires at + 1 < |data|
  {
    data[at := c / 256][at + 1 := c % 256]
  }

  lemma WordSumPair(x: byte, y: byte, rest: seq<byte>)
    ensures WordSum([x, y] + rest) == Word16(y, x) + WordSum(rest)
  {
    assert ([x, y] + rest)[2..] == rest;
  }

  /** Filling a zeroed, even-aligned pair of bytes adds its little-endian word to the sum. */
  lemma WordSumFilled(data: seq<byte>, at: nat, x: byte, y: byte)
    requires at % 2 == 0 && at + 1 < |data|
    requires data[at] == 0 && data[at + 1] == 0
    ensures WordSum(data[at := x][at + 1 := y]) == WordSum(data) + Word16(y, x)
  {
    var before, after := data[..at], data[at + 2..];
    assert data[at := x][at + 1 := y] == before + ([x, y] + after);
    assert data == before + ([0, 0] + after);
    WordSumAppend(before, [x, y] + after);
    WordSumAppend(before, [0, 0] + after);
    WordSumPair(x, y, after);
    WordSumPair(0, 0, after);
  }

  lemma FullResidue(n: nat, r: uint16)
    requires r == Residue(n)
    ensures Swap16(Residue(n + (0xFFFF - r))) == 0xFFFF
  {
    var k := ResidueWitness(n);
    ResidueUnique(0xFFFF, n + (0xFFFF - r), k);
  }

  lemma ComplementVerifies(data: seq<byte>, at: nat, x: byte, y: byte)
    requires |data| <= MAX_LEN
    requires at % 2 == 0 && at + 1 < |data|
    requires data[at] == 0 && data[at + 1] == 0
    requires Word16(y, x) == 0xFFFF - Residue(WordSum(data))
    ensures Computed(data[at := x][at + 1 := y]) == 0
  {
    WordSumFilled(data, at, x, y);
    FullResidue(WordSum(data), Residue(WordSum(data)));
    ComputedFromResidue(data[at := x][at + 1 := y]);
  }

  lemma SwapTwice(x: uint16)
    ensures Swap16(Swap16(x)) == x
  {
    assert Swap16(x) / 256 == x % 256 && Swap16(x) % 256 == x / 256;
  }

  /** The two bytes of what the kernel computes, read back little-endian, complement the residue. */
  lemma ComputedBytes(data: seq<byte>)
    requires |data| <= MAX_LEN
    ensures Word16(Computed(data) % 256, Computed(data) / 256) == 0xFFFF - Residue(WordSum(data))
  {
    var r := Residue(WordSum(data));
    ComputedFromResidue(data);
    hide Computed, Residue, WordSum;
    SwapComplement(Swap16(r));
    SwapTwice(r);
  }

  /** A message that carries its own checksum at an even offset sums to zero, for odd lengths too. */
  lemma StoredChecksumVerifies(data: seq<byte>, at: nat)
    requires |data| <= MAX_LEN
    requires at % 2 == 0 && at + 1 < |data|
    requires data[at] == 0 && data[at + 1] == 0
    ensures Computed(Stored(data, at, Computed(data))) == 0
  {
    ComputedBytes(data);
    ComplementVerifies(data, at, Computed(data) / 256, Computed(data) % 256);
  }

  /** A receiver that finds zero has a message whose one's-complement sum is all ones, and conversely. */
  lemma ZeroMeansAllOnes(data: seq<byte>)
    requires |data| <= MAX_LEN
    ensures Computed(data) == 0 <==> OnesSum(data) == 0xFFFF
  {
    ChecksumIsRfc1071(data);
  }

  function Ones(n: nat): (s: seq<byte>)
    ensures |s| == n
  {
    seq(n, _ => 0xFF)
  }

  lemma {:induction false} SumOfOnes(n: nat)
    ensures WordSum(Ones(2 * n)) == n * 0xFFFF
    ensures OnesSum(Ones(2 * n)) == if n == 0 then 0 else 0xFFFF
  {
    if n > 0 {
      assert Ones(2 * n)[2..] == Ones(2 * (n - 1));
      SumOfOnes(n - 1);
    }
  }

  function Zeros(n: nat): (s: seq<byte>)
    ensures |s| == n && forall i :: 0 <= i < n ==> s[i] == 0
  {
    seq(n, _ => 0)
  }

  lemma {:induction false} SumOfZeros(data: seq<byte>)
    requires forall i :: 0 <= i < |data| ==> data[i] == 0
    ensures WordSum(data) == 0
  {
    if |data| > 1 {
      SumOfZeros(data[2..]);
    }
  }

  /** One byte more than the limit, and zeros behind it: the accumulator wraps exactly once. */
  function Wrapping(n: nat): (s: seq<byte>)
    requires n > MAX_LEN
    ensures |s| == n
  {
    Ones(MAX_LEN) + ([0xFF] + Zeros(n - MAX_LEN - 1))
  }

  lemma OneAndZeros(k: nat)
    ensures WordSum([0xFF] + Zeros(k)) == 0xFF
  {
    var zeros := Zeros(k);
    var s := [0xFF] + zeros;
    if k == 0 {
      assert |s| == 1;
    } else {
      assert s[0] == 0xFF && s[1] == zeros[0] == 0 && s[2..] == zeros[1..];
      SumOfZeros(zeros[1..]);
      hide Zeros;
      assert WordSum(s) == Word16(s[1], s[0]) + WordSum(s[2..]);
    }
  }

  lemma WrappingSum(n: nat)
    requires n > MAX_LEN
    ensures WordSum(Wrapping(n)) == TWO_32 + 0xFE
  {
    var tail := [0xFF] + Zeros(n - MAX_LEN - 1);
    OneAndZeros(n - MAX_LEN - 1);
    SumOfOnes(65537);
    hide WordSum, Ones, Zeros;
    assert MAX_LEN == 2 * 65537;
    WordSumAppend(Ones(MAX_LEN), tail);
  }

  lemma WrapsWrongly(n: nat)
    requires n > MAX_LEN
    ensures Computed(Wrapping(n)) == 0x01FF && OnesSum(Wrapping(n)) == 0xFF00
  {
    WrappingSum(n);
    var sum := WordSum(Wrapping(n));
    assert sum % TWO_32 == 0xFE;
    assert Folded(0xFE) == 0xFE;
    OnesSumResidue(Wrapping(n));
    assert 256 * sum - 0xFF00 == 0xFFFF * (256 * 0x1_0001);
    ResidueUnique(0xFF00, 256 * sum, 256 * 0x1_0001);
  }

  /** Every message of `n` bytes gets the checksum of RFC 1071. */
  ghost predicate ExactAt(n: nat) {
    forall data: seq<byte> :: |data| == n ==> Computed(data) == 0xFFFF - OnesSum(data)
  }

  /** The limit is sharp: the kernel's checksum is the RFC's for all messages of a length if and only if it is at most 131074. */
  lemma ExactIffWithinLimit(n: nat)
    ensures ExactAt(n) <==> n <= MAX_LEN
  {
    hide Computed, OnesSum, Wrapping;
    if n <= MAX_LEN {
      forall data: seq<byte> | |data| == n
        ensures Computed(data) == 0xFFFF - OnesSum(data)
      {
        ChecksumIsRfc1071(data);
      }
    } else {
      WrapsWrongly(n);
      assert |Wrapping(n)| == n;
    }
  }
}
