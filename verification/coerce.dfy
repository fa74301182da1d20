/** Fail-soft numeric coercion (`safe_float`, `safe_int`).

    Python's `float()` on a string is left abstract: a reader maps a string to
    the finite value it denotes, or None where `float()` raises `ValueError`. */
module Coerce {
  import opened Wrappers

  /** `safe_float`: None for a missing or empty value, otherwise what `float()`
      makes of it, with a parse failure turned into None. */
  function SafeFloat(value: Option<string>, read: string -> Option<real>): (r: Option<real>)
    ensures r.Some? ==> value.Some? && value.value != "" && read(value.value) == r
    ensures value.Some? && value.value != "" && read(value.value).Some? ==> r.Some?
  {
    match value
    case None => None
    case Some(s) => if s == "" then None else read(s)
  }

  /** `int(x)` for a float: truncation toward zero. */
  function Truncate(x: real): (n: int)
    ensures x >= 0.0 ==> n as real <= x < n as real + 1.0
    ensures x < 0.0 ==> n as real - 1.0 < x <= n as real
  {
    if x >= 0.0 then x.Floor else -((-x).Floor)
  }

  /** `safe_int`: `int(float(value))`, None where `safe_float` would be None. */
  function SafeInt(value: Option<string>, read: string -> Option<real>): (r: Option<int>)
    ensures r.Some? <==> SafeFloat(value, read).Some?
    ensures r.Some? ==> r.value == Truncate(SafeFloat(value, read).value)
  {
    match SafeFloat(value, read)
    case None => None
    case Some(x) => Some(Truncate(x))
  }

  /** Truncation moves toward zero by less than one and never changes the sign. */
  lemma TruncateTowardZero(x: real)
    ensures Abs(Truncate(x) as real) <= Abs(x) < Abs(Truncate(x) as real) + 1.0
    ensures Truncate(x) > 0 ==> x > 0.0
    ensures Truncate(x) < 0 ==> x < 0.0
  {
  }

  /** Whole numbers are unchanged by truncation. */
  lemma TruncateWhole(n: int)
    ensures Truncate(n as real) == n
  {
  }

  function Abs(x: real): real {
    if x < 0.0 then -x else x
  }

  /** The integer `safe_int` returns is the float `safe_float` returns,
      truncated toward zero: the floor of a non-negative float and the ceiling
      of a negative one, never further from zero than the float. */
  lemma SafeIntAgreesWithSafeFloat(value: Option<string>, read: string -> Option<real>)
    ensures SafeInt(value, read).Some? <==> SafeFloat(value, read).Some?
    ensures SafeInt(value, read).Some? ==>
              var n, x := SafeInt(value, read).value, SafeFloat(value, read).value;
              && (x >= 0.0 ==> n as real <= x < n as real + 1.0)
              && (x < 0.0 ==> n as real - 1.0 < x <= n as real)
              && Abs(n as real) <= Abs(x) < Abs(n as real) + 1.0
  {
    if SafeFloat(value, read).Some? {
      TruncateTowardZero(SafeFloat(value, read).value);
    }
  }
}
