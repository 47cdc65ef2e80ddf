/** Comparing IEEE-754 doubles by their 64-bit patterns. */
module Floats {
  import opened Bytes
  import opened TopN
  import opened Json

  predicate IsNaN(x: u64) {
    (x / 0x10_0000_0000_0000) % 2048 == 2047 && x % 0x10_0000_0000_0000 != 0
  }

  /** Orders the non-NaN patterns by value; both zeros map to 0. */
  function ByValue(x: u64): int {
    if x < TWO_63 then x else TWO_63 - x
  }

  predicate FloatLess(x: u64, y: u64) {
    !IsNaN(x) && !IsNaN(y) && ByValue(x) < ByValue(y)
  }

  predicate FloatAtMost(x: u64, y: u64) {
    !IsNaN(x) && !IsNaN(y) && ByValue(x) <= ByValue(y)
  }

  predicate FloatSame(x: u64, y: u64) {
    !IsNaN(x) && !IsNaN(y) && ByValue(x) == ByValue(y)
  }

  function Compare(a: int, b: int): Ordering {
    if a < b then Lesser else if a == b then Equal else Greater
  }

  /** `partial_cmp(..).unwrap_or(Equal)`. */
  function PartialCompare(x: u64, y: u64): Ordering {
    if IsNaN(x) || IsNaN(y) then Equal else Compare(ByValue(x), ByValue(y))
  }

  /** The IEEE-754 total order, under which -0 is below +0 and NaNs are at the ends. */
  function ByBits(x: u64): int {
    if x < TWO_63 then x else TWO_63 - 1 - x
  }

  /** `total_cmp`. */
  function TotalCompare(x: u64, y: u64): Ordering {
    Compare(ByBits(x), ByBits(y))
  }

  function Negate(x: u64): u64 {
    if x < TWO_63 then x + TWO_63 else x - TWO_63
  }

  lemma TotalComparePreorder()
    ensures Preorder(TotalCompare)
    ensures forall x, y :: TotalCompare(x, y) == Equal <==> x == y
  {
  }

  /** Sorting negated values ascending is sorting the values descending. */
  lemma NegateReverses(x: u64, y: u64)
    ensures TotalCompare(Negate(x), Negate(y)) == TotalCompare(y, x)
    ensures Negate(Negate(x)) == x
  {
  }

  // ----- The order is the order of the values -----

  const TWO_52: nat := 0x10_0000_0000_0000

  function Pow2(n: nat): nat
    ensures Pow2(n) > 0
  {
    if n == 0 then 1 else 2 * Pow2(n - 1)
  }

  lemma {:induction false} Pow2Grows(a: nat, b: nat)
    requires a <= b
    ensures Pow2(a) <= Pow2(b)
  {
    if a < b { Pow2Grows(a, b - 1); }
  }

  /** The magnitude of a finite double in units of 2^-1074, the smallest subnormal: IEEE 754 section 3.4. */
  function Magnitude(x: nat): nat {
    var e, m := x / TWO_52, x % TWO_52;
    if e == 0 then m else (TWO_52 + m) * Pow2(e - 1)
  }

  /** The exact value of a finite double in the same units. */
  function Scaled(x: u64): int {
    if x < TWO_63 then Magnitude(x) else 0 - (Magnitude(x - TWO_63) as int)
  }

  lemma Times(a: nat, b: nat, p: nat)
    requires p > 0
    ensures a < b ==> a * p < b * p
    ensures a <= b ==> a * p <= b * p
  {
  }

  /** Within one exponent, and up to the first pattern of the next. */
  lemma MagnitudeBounds(x: nat)
    ensures Magnitude(x) < TWO_52 * Pow2(x / TWO_52)
    ensures x / TWO_52 > 0 ==> TWO_52 * Pow2(x / TWO_52 - 1) <= Magnitude(x)
  {
    var e, m := x / TWO_52, x % TWO_52;
    if e > 0 {
      Times(TWO_52 + m, 2 * TWO_52, Pow2(e - 1));
      Times(TWO_52, TWO_52 + m, Pow2(e - 1));
    }
  }

  lemma MagnitudeGrows(a: nat, b: nat)
    requires a < b
    ensures Magnitude(a) < Magnitude(b)
  {
    var e, f := a / TWO_52, b / TWO_52;
    if e == f {
      if e > 0 { Times(TWO_52 + a % TWO_52, TWO_52 + b % TWO_52, Pow2(e - 1)); }
    } else {
      hide Magnitude;
      MagnitudeBounds(a);
      MagnitudeBounds(b);
      Pow2Grows(e, f - 1);
      Times(Pow2(e), Pow2(f - 1), TWO_52);
    }
  }

  /** Comparing doubles compares the numbers they stand for. */
  lemma OrderIsValueOrder(x: FiniteDouble, y: FiniteDouble)
    ensures FloatLess(x, y) <==> Scaled(x) < Scaled(y)
    ensures FloatAtMost(x, y) <==> Scaled(x) <= Scaled(y)
    ensures FloatSame(x, y) <==> Scaled(x) == Scaled(y)
    ensures PartialCompare(x, y) == Compare(Scaled(x), Scaled(y))
  {
    hide Magnitude, ByValue, Scaled;
    FiniteIsNumber(x);
    FiniteIsNumber(y);
    ScaledGrows(x, y);
    ScaledGrows(y, x);
  }

  lemma FiniteIsNumber(x: FiniteDouble)
    ensures !IsNaN(x)
  {
  }

  lemma ScaledGrows(x: u64, y: u64)
    ensures ByValue(x) < ByValue(y) ==> Scaled(x) < Scaled(y)
    ensures ByValue(x) == ByValue(y) ==> Scaled(x) == Scaled(y)
  {
    hide Magnitude;
    ZeroMagnitude();
    var a, b := ByValue(x), ByValue(y);
    if 0 <= a < b { MagnitudeGrows(a, b); }
    else if a < b <= 0 { MagnitudeGrows(-b, -a); }
    else if a < 0 < b { MagnitudeGrows(0, b); MagnitudeGrows(0, -a); }
  }

  lemma ZeroMagnitude()
    ensures Magnitude(0) == 0
  {
  }
}
