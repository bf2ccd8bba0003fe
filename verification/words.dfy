// Machine words of the 32-bit kernel, as integer ranges.
module Words {
  const TWO_8: int := 0x100
  const TWO_16: int := 0x1_0000
  const TWO_31: int := 0x8000_0000
  const TWO_32: int := 0x1_0000_0000

  type byte = x: int | 0 <= x < 0x100
  type uint16 = x: int | 0 <= x < 0x1_0000
  type uint32 = x: int | 0 <= x < 0x1_0000_0000
  type int32 = x: int | -0x8000_0000 <= x < 0x8000_0000

  datatype Option<+T> = None | Some(value: T)

  /** The 16-bit word whose high and low bytes are given. */
  function Word16(high: byte, low: byte): uint16 {
    256 * (high as int) + low
  }

  /** Exchanges the two bytes of a 16-bit word. */
  function Swap16(x: uint16): (r: uint16)
  {
    Word16(x % 256, x / 256)
  }

  /** a * n, by repeated addition. */
  function Times(a: nat, n: nat): nat {
    if a == 0 then 0 else n + Times(a - 1, n)
  }

  lemma {:induction false} TimesIsProduct(a: nat, n: nat)
    ensures Times(a, n) == a * n
  {
    if a > 0 {
      TimesIsProduct(a - 1, n);
      assert a * n == (a - 1) * n + n;
    }
  }

  lemma {:induction false} TimesMonotone(a: nat, b: nat, n: nat)
    requires a <= b
    ensures Times(a, n) <= Times(b, n)
    decreases b
  {
    if a < b {
      TimesMonotone(a, b - 1, n);
    }
  }

  lemma {:induction false} TimesGrows(a: nat, m: nat, n: nat)
    requires m <= n
    ensures Times(a, m) <= Times(a, n)
    decreases a
  {
    if a > 0 {
      TimesGrows(a - 1, m, n);
    }
  }
}
