/** A change of length, kept unsigned as an amount and a direction
    (src/delta.rs), applied to a `usize` with `+=`. */
module Deltas {
  import opened Prelude

  datatype Delta = Add(amount: usize) | Sub(amount: usize)

  /** The signed change a delta stands for. */
  function Signed(d: Delta): int
  {
    match d
    case Add(a) => a as int
    case Sub(a) => -(a as int)
  }

  /** `Delta::new(old, new)`: the change that leads from `before` to `after`.
      Growth is an `Add` of a positive amount; everything else, no change
      included, is a `Sub`. Neither subtraction can underflow. */
  function New(before: usize, after: usize): (d: Delta)
    ensures before + Signed(d) == after
    ensures d.Add? <==> after > before
    ensures d.Add? ==> d.amount > 0
  {
    if after > before then Add(after - before) else Sub(before - after)
  }

  /** `*x += rhs` on a `usize`. Rust's checked arithmetic panics on
      overflow and underflow, so both are excluded here. */
  method AddAssign(x: usize, rhs: Delta) returns (x': usize)
    requires rhs.Add? ==> x + rhs.amount <= USIZE_MAX
    requires rhs.Sub? ==> rhs.amount <= x
    ensures x' == x + Signed(rhs)
  {
    match rhs
    case Add(amt) => x' := x + amt;
    case Sub(amt) => x' := x - amt;
  }

  /** Starting from `before`, adding `Delta::new(before, after)` lands on
      `after`, for every pair of lengths. */
  method ApplyNew(before: usize, after: usize) returns (x: usize)
    ensures x == after
  {
    x := before;
    x := AddAssign(x, New(before, after));
  }
}
