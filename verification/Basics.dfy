/** Machine limits, the optional value and small arithmetic, shared by all modules. */
module Basics {
  const UINT32_MAX: nat := 0xFFFF_FFFF
  const UINT64_MAX: nat := 0xFFFF_FFFF_FFFF_FFFF

  /** The targets are 64-bit, so `size_t` is too. */
  const SIZE_MAX: nat := UINT64_MAX

  /** The values of `uint32_t` and of `uint64_t` wrap modulo these. */
  const TWO_32: nat := UINT32_MAX + 1
  const TWO_64: nat := UINT64_MAX + 1

  datatype Option<+T> = None | Some(value: T)

  function Max(a: nat, b: nat): nat {
    if a < b then b else a
  }

  lemma MulMonotone(a: nat, b: nat, width: nat)
    requires a <= b
    ensures a * width <= b * width
  {
    assert b * width == a * width + (b - a) * width;
  }

  lemma Assoc<T>(a: seq<T>, b: seq<T>, c: seq<T>)
    ensures a + b + c == a + (b + c)
  {
  }
}
