/** The per-device suitability score of `rateDeviceSuitability`
    (src/main.cpp), with the driver queries replaced by a device record. */
module Suitability {
  import opened Wrappers

  /** Largest value of a 32-bit C++ `int`. */
  const INT_MAX: int := 0x7FFF_FFFF

  /** Number of values of a C++ `uint32_t`. */
  const UINT32_MODULUS: int := 0x1_0000_0000

  /** Score added for a discrete GPU. */
  const DISCRETE_BONUS: nat := 1000

  type Uint32 = x: int | 0 <= x < UINT32_MODULUS

  /** A `maxImageDimension2D` limit small enough that adding the discrete
      bonus to it stays within a C++ `int`. */
  type Dimension = x: nat | x <= INT_MAX - DISCRETE_BONUS

  /** The kinds of physical device a Vulkan driver reports. */
  datatype DeviceType = Other | IntegratedGpu | DiscreteGpu | VirtualGpu | Cpu

  /** What the selection rule needs to know about one enumerated device: an
      opaque handle, its reported type and its largest 2D image dimension. */
  datatype Device = Device(id: nat, kind: DeviceType, maxImageDimension2D: Dimension)

  /** The suitability score of a device: the discrete bonus, if any, plus its
      largest 2D image dimension. The score fits in a C++ `int`, is never
      below the dimension, and exceeds it exactly for discrete GPUs. */
  function Score(d: Device): (s: int)
    ensures 0 <= d.maxImageDimension2D <= s <= INT_MAX
    ensures s == d.maxImageDimension2D <==> d.kind != DiscreteGpu
  {
    (if d.kind == DiscreteGpu then DISCRETE_BONUS else 0) + d.maxImageDimension2D
  }

  /** C++ `lhs += rhs` with `lhs` an `int` and `rhs` a `uint32_t`: `lhs` is
      converted to unsigned (modulo 2^32), the sum is reduced modulo 2^32 and
      the result is converted back to `int`. That last conversion is
      implementation-defined for values above INT_MAX, which yields None.
      The result is defined exactly when the sum reduced modulo 2^32 fits in
      an `int`. A defined result is the exact sum whenever that fits in an `int`, and
      is congruent to the exact sum modulo 2^32 in every case. */
  function AddUnsignedToInt(lhs: int, rhs: Uint32): (r: Option<int>)
    requires -INT_MAX - 1 <= lhs <= INT_MAX
    ensures r.Some? <==> (lhs + rhs) % UINT32_MODULUS <= INT_MAX
    ensures 0 <= lhs + rhs <= INT_MAX ==> r == Some(lhs + rhs)
    ensures r.Some? ==> 0 <= r.value <= INT_MAX && (r.value - (lhs + rhs)) % UINT32_MODULUS == 0
  {
    var sum := (lhs % UINT32_MODULUS + rhs) % UINT32_MODULUS;
    if sum <= INT_MAX then Some(sum) else None
  }

  /** `rateDeviceSuitability` step by step in C++ arithmetic, on the raw
      32-bit limit the driver reports. A defined score is a non-negative
      `int` that agrees with bonus plus limit modulo 2^32; it is undefined
      only where that sum lies strictly between INT_MAX and 2^32. */
  function RateDeviceSuitability(kind: DeviceType, maxImageDimension2D: Uint32): (r: Option<int>)
    ensures var exact := (if kind == DiscreteGpu then DISCRETE_BONUS else 0) + maxImageDimension2D;
      && (r.Some? ==> 0 <= r.value <= INT_MAX && (r.value - exact) % UINT32_MODULUS == 0)
      && (r.None? <==> INT_MAX < exact < UINT32_MODULUS)
  {
    var bonus := if kind == DiscreteGpu then DISCRETE_BONUS else 0;
    AddUnsignedToInt(bonus, maxImageDimension2D)
  }

  /** On every device record of the model, the C++ computation is defined and
      equals the exact sum `Score`. */
  lemma ScoreMatchesCppArithmetic(d: Device)
    ensures RateDeviceSuitability(d.kind, d.maxImageDimension2D) == Some(Score(d))
  {
  }

  /** Where the C++ computation is defined: when the exact sum fits in an
      `int`, or when it wraps past 2^32 (a discrete GPU whose limit is within
      1000 of 2^32), in which case the score is the wrapped, small value. */
  lemma CppArithmeticDefinedness(kind: DeviceType, dim: Uint32)
    ensures var bonus := if kind == DiscreteGpu then DISCRETE_BONUS else 0;
      && (RateDeviceSuitability(kind, dim).Some? <==>
          bonus + dim <= INT_MAX || UINT32_MODULUS <= bonus + dim)
      && (bonus + dim <= INT_MAX ==> RateDeviceSuitability(kind, dim) == Some(bonus + dim))
      && (UINT32_MODULUS <= bonus + dim ==>
          RateDeviceSuitability(kind, dim) == Some(bonus + dim - UINT32_MODULUS))
  {
  }
}
