/** USD conversion: a Decimal product in a 28-digit context, rounded half up to whole cents. */
module Fx {
  import opened Prelude
  import opened Ledger

  const PRECISION := 28
  const TEN_28 := 10_000_000_000_000_000_000_000_000_000
  const NUMERIC_18 := 1_000_000_000_000_000_000

  /** The decimal coefficient / 10^scale. */
  datatype Rate = Rate(coefficient: nat, scale: nat)

  /** What _resolve_usd_conversion_rate can return: Decimal("1"), or a NUMERIC(18,8) column. */
  predicate IsRate(r: Rate) {
    r == Rate(1, 0) || (r.scale == 8 && r.coefficient < NUMERIC_18)
  }

  function Pow10(n: nat): (p: nat)
    ensures 1 <= p
  {
    if n == 0 then 1 else 10 * Pow10(n - 1)
  }

  function Unit(r: Rate): (u: int)
    ensures 1 <= u
  {
    Pow10(r.scale)
  }

  datatype DecimalError = InvalidOperation

  function Digits(n: nat): (d: nat)
    ensures 1 <= d
  {
    if n < 10 then 1 else 1 + Digits(n / 10)
  }

  /** The context's own rounding: the nearest multiple of p, ties to an even quotient. */
  function RoundHalfEven(n: nat, p: nat): nat
    requires 0 < p
  {
    var q, r := n / p, n % p;
    if 2 * r > p || (2 * r == p && q % 2 == 1) then (q + 1) * p else q * p
  }

  /** Decimal multiplication of an integer by a coefficient; the result keeps the scale. */
  function Multiply(amount: nat, coefficient: nat): nat {
    var product := amount * coefficient;
    var digits := Digits(product);
    if digits <= PRECISION then product else RoundHalfEven(product, Pow10(digits - PRECISION))
  }

  function HalfUp(n: nat, unit: nat): nat
    requires 0 < unit
  {
    if 2 * (n % unit) >= unit then n / unit + 1 else n / unit
  }

  /** quantize(Decimal("1"), ROUND_HALF_UP): refused when the result has more digits than the context. */
  function Quantize(n: nat, unit: nat): Result<nat, DecimalError>
    requires 0 < unit
  {
    var c := HalfUp(n, unit);
    if c >= TEN_28 then Err(InvalidOperation) else Ok(c)
  }

  function ConvertAmountUsd(amount: nat, rate: Rate): Result<nat, DecimalError> {
    Quantize(Multiply(amount, rate.coefficient), Unit(rate))
  }

  /** c is n / unit rounded to the nearest integer, ties up. */
  predicate Nearest(c: int, n: nat, unit: nat) {
    unit * (2 * c - 1) <= 2 * n < unit * (2 * c + 1)
  }

  /** The exact product amount * rate, rounded half up once. */
  function Usd(amount: nat, rate: Rate): nat {
    HalfUp(amount * rate.coefficient, Unit(rate))
  }

  /******* Rounding *******/

  lemma {:induction false} HalfUpIsNearest(n: nat, unit: nat)
    requires 0 < unit
    ensures Nearest(HalfUp(n, unit), n, unit)
  {
    var q, r := n / unit, n % unit;
    assert n == q * unit + r;
    assert unit * (2 * q + 1) == 2 * (q * unit) + unit;
    assert unit * (2 * q - 1) == 2 * (q * unit) - unit;
    assert unit * (2 * (q + 1) + 1) == 2 * (q * unit) + 3 * unit;
    assert unit * (2 * (q + 1) - 1) == 2 * (q * unit) + unit;
  }

  lemma {:induction false} CancelUnit(unit: int, x: int, y: int)
    requires 0 < unit && unit * x < unit * y
    ensures x < y
  {
  }

  lemma {:induction false} NearestIsUnique(c: int, c': int, n: nat, unit: nat)
    requires 0 < unit && Nearest(c, n, unit) && Nearest(c', n, unit)
    ensures c == c'
  {
    CancelUnit(unit, 2 * c - 1, 2 * c' + 1);
    CancelUnit(unit, 2 * c' - 1, 2 * c + 1);
  }

  lemma {:induction false} Quotient(q: nat, p: nat)
    requires 0 < p
    ensures (q * p) / p == q
  {
    var d := (q * p) / p;
    assert q * p == d * p + (q * p) % p;
    CancelUnit(p, d, q + 1);
    CancelUnit(p, q, d + 1);
  }

  /** The context rounds to the nearest multiple of its last place, and a tie to the even one. */
  lemma {:induction false} RoundHalfEvenIsNearest(n: nat, p: nat)
    requires 0 < p
    ensures var m, r := RoundHalfEven(n, p) / p, RoundHalfEven(n, p);
            && r == m * p && 0 <= 2 * (r - n) + p <= 2 * p
            && (2 * (r - n) + p == 0 || 2 * (r - n) == p ==> m % 2 == 0)
  {
    var q := n / p;
    assert n == q * p + n % p;
    assert (q + 1) * p == q * p + p;
    Quotient(q, p);
    Quotient(q + 1, p);
  }

  /** quantize gives the nearest integer if it has at most 28 digits, and raises if it has more. */
  lemma {:induction false} QuantizeExactly(n: nat, unit: nat, c: nat)
    requires 0 < unit && Nearest(c, n, unit)
    ensures Quantize(n, unit) == if c < TEN_28 then Ok(c) else Err(InvalidOperation)
  {
    HalfUpIsNearest(n, unit);
    NearestIsUnique(c, HalfUp(n, unit), n, unit);
  }

  lemma {:induction false} Pow10Adds(m: nat, n: nat)
    ensures Pow10(m + n) == Pow10(m) * Pow10(n)
  {
    if m != 0 {
      Pow10Adds(m - 1, n);
      assert 10 * (Pow10(m - 1) * Pow10(n)) == (10 * Pow10(m - 1)) * Pow10(n);
    }
  }

  lemma {:induction false} DigitsBound(n: nat)
    ensures n < Pow10(Digits(n))
    ensures 0 < n ==> Pow10(Digits(n) - 1) <= n
  {
    if n >= 10 {
      DigitsBound(n / 10);
    }
  }

  lemma {:induction false} Pow10Grows(m: nat, n: nat)
    requires m <= n
    ensures Pow10(m) <= Pow10(n)
  {
    if m < n {
      Pow10Grows(m, n - 1);
    }
  }

  lemma {:induction false} Pow10Of28()
    ensures Pow10(28) == TEN_28
  {
    assert Pow10(7) == 10_000_000;
    Pow10Adds(7, 7);
    Pow10Adds(14, 14);
  }

  lemma {:induction false} QuotientAtLeast(n: nat, p: nat, c: nat)
    requires 0 < p && c * p <= n
    ensures c <= n / p
  {
    assert n == (n / p) * p + n % p < (n / p + 1) * p;
    CancelUnit(p, c, n / p + 1);
  }

  lemma {:induction false} RoundingKeepsFloor(n: nat, p: nat, c: nat)
    requires 0 < p && c * p <= n
    ensures c * p <= RoundHalfEven(n, p)
    ensures c <= HalfUp(n, p)
  {
    QuotientAtLeast(n, p, c);
    var q := n / p;
    assert c * p <= q * p <= (q + 1) * p;
  }

  lemma {:induction false} LongProduct(n: nat)
    ensures Digits(n) > 28 <==> n >= TEN_28
  {
    DigitsBound(n);
    Pow10Of28();
    if Digits(n) > 28 {
      Pow10Grows(28, Digits(n) - 1);
    } else {
      Pow10Grows(Digits(n), 28);
    }
  }

  lemma {:induction false} TimesAtLeast(x: nat, p: nat, least: nat)
    requires least <= p
    ensures x * least <= x * p
  {
  }

  lemma {:induction false} RoundedStaysLong(n: nat)
    requires Digits(n) > 28
    ensures RoundHalfEven(n, Pow10(Digits(n) - 28)) >= TEN_28
  {
    var p := Pow10(Digits(n) - 28);
    DigitsBound(n);
    Pow10Adds(27, Digits(n) - 28);
    Pow10Of28();
    Pow10Grows(1, Digits(n) - 28);
    RoundingKeepsFloor(n, p, Pow10(27));
    TimesAtLeast(Pow10(27), p, 10);
  }

  /** The context rounds a product exactly when it reaches 10^28, and never back below it. */
  lemma {:induction false} MultiplyKeepsMagnitude(amount: nat, coefficient: nat)
    ensures var n := amount * coefficient;
            if n < TEN_28 then Multiply(amount, coefficient) == n else Multiply(amount, coefficient) >= TEN_28
  {
    var n := amount * coefficient;
    var d := Digits(n);
    LongProduct(n);
    if d > 28 {
      RoundedStaysLong(n);
    }
  }

  /**
   * A converted amount fits the BIGINT column if and only if the exact half-up value does, and then
   * the two are equal: whatever the 28-digit context would round first cannot be stored.
   */
  lemma {:induction false} StoredIsExact(amount: nat, rate: Rate)
    requires IsRate(rate)
    ensures var c := ConvertAmountUsd(amount, rate);
            && ((c.Ok? && c.value <= BIGINT_MAX) <==> Usd(amount, rate) <= BIGINT_MAX)
            && (c.Ok? && c.value <= BIGINT_MAX ==> c.value == Usd(amount, rate))
    ensures Nearest(Usd(amount, rate), amount * rate.coefficient, Unit(rate))
  {
    var n := amount * rate.coefficient;
    var unit := Unit(rate);
    assert Pow10(8) == 100_000_000;
    MultiplyKeepsMagnitude(amount, rate.coefficient);
    HalfUpIsNearest(n, unit);
    if n >= TEN_28 {
      RoundingKeepsFloor(n, unit, 100_000_000_000_000_000_000);
      RoundingKeepsFloor(Multiply(amount, rate.coefficient), unit, 100_000_000_000_000_000_000);
    }
  }

  /** The identity rate converts nothing: an amount in USD is stored as it is. */
  lemma {:induction false} UsdIdentity(amount: nat)
    requires amount <= BIGINT_MAX
    ensures ConvertAmountUsd(amount, Rate(1, 0)) == Ok(amount)
  {
    StoredIsExact(amount, Rate(1, 0));
  }

  /******* Rounding drift *******/

  function UsdAt(rate: Rate): nat -> int {
    (amount: nat) => Usd(amount, rate)
  }

  function Amount(): nat -> int {
    (amount: nat) => amount
  }

  /** Twice the rounding error of one conversion, in units of the rate's last place. */
  function DriftAt(rate: Rate): nat -> int {
    (amount: nat) => 2 * Unit(rate) * Usd(amount, rate) + -2 * rate.coefficient * amount
  }

  lemma {:induction false} NearestBounds(c: int, n: nat, unit: nat)
    requires Nearest(c, n, unit)
    ensures 0 < 2 * (unit * c) - 2 * n + unit <= 2 * unit
  {
    Distribute(unit, 2 * c, -1);
    Distribute(unit, 2 * c, 1);
    Distribute(unit, c, c);
  }

  lemma {:induction false} Regroup(a: int, x: int, y: int)
    ensures a * x * y == a * (x * y) && x * y == y * x
  {
  }

  lemma {:induction false} DriftBound(amount: nat, rate: Rate)
    ensures -Unit(rate) < DriftAt(rate)(amount) <= Unit(rate)
  {
    var unit, k, c := Unit(rate), rate.coefficient, Usd(amount, rate);
    HalfUpIsNearest(amount * k, unit);
    NearestBounds(c, amount * k, unit);
    Regroup(2, unit, c);
    Regroup(-2, k, amount);
  }

  lemma {:induction false} Bracket(unit: int, x: int, n: int)
    requires 0 < unit && -unit * n < 2 * unit * x < unit * n
    ensures -n < 2 * x < n
  {
    assert 2 * unit * x == unit * (2 * x);
    assert -unit * n == unit * -n;
    CancelUnit(unit, 2 * x, n);
    CancelUnit(unit, -n, 2 * x);
  }

  lemma {:induction false} DriftOfSum(amounts: seq<nat>, rate: Rate)
    ensures var unit := Unit(rate);
            && Sum(amounts, DriftAt(rate))
               == 2 * unit * Sum(amounts, UsdAt(rate)) + -2 * rate.coefficient * Sum(amounts, Amount())
            && (1 - unit) * |amounts| <= Sum(amounts, DriftAt(rate)) <= unit * |amounts|
  {
    var unit := Unit(rate);
    forall i | 0 <= i < |amounts| ensures 1 - unit <= DriftAt(rate)(amounts[i]) <= unit {
      DriftBound(amounts[i], rate);
    }
    SumLinear(amounts, 2 * unit, UsdAt(rate), -2 * rate.coefficient, Amount(), DriftAt(rate));
    SumBounds(amounts, DriftAt(rate), 1 - unit, unit);
  }

  lemma {:induction false} SumOfNats(amounts: seq<nat>)
    ensures 0 <= Sum(amounts, Amount())
  {
    if amounts != [] {
      SumOfNats(amounts[..|amounts| - 1]);
    }
  }

  lemma {:induction false} GapAsDrift(amounts: seq<nat>, rate: Rate, total: nat)
    requires total == Sum(amounts, Amount())
    ensures Sum(amounts, DriftAt(rate)) - DriftAt(rate)(total)
         == 2 * Unit(rate) * (Sum(amounts, UsdAt(rate)) - Usd(total, rate))
  {
    DriftOfSum(amounts, rate);
    var each, c := Sum(amounts, UsdAt(rate)), Usd(total, rate);
    Distribute(2 * Unit(rate), each - c, c);
  }

  lemma {:induction false} GapBound(amounts: seq<nat>, rate: Rate, total: nat)
    requires amounts != []
    ensures var n := |amounts| + 1;
            -Unit(rate) * n < Sum(amounts, DriftAt(rate)) - DriftAt(rate)(total) < Unit(rate) * n
  {
    var unit, n := Unit(rate), |amounts|;
    DriftOfSum(amounts, rate);
    DriftBound(total, rate);
    assert (1 - unit) * n == n + -unit * n;
    Distribute(unit, n, 1);
    Distribute(-unit, n, 1);
  }

  /** Converting amounts one by one differs from converting their sum by at most half their number. */
  lemma {:induction false} PerEntryRoundingBound(amounts: seq<nat>, rate: Rate)
    requires amounts != []
    ensures 0 <= Sum(amounts, Amount())
    ensures var gap := Sum(amounts, UsdAt(rate)) - Usd(Sum(amounts, Amount()), rate);
            -(|amounts| / 2) <= gap <= |amounts| / 2
  {
    SumOfNats(amounts);
    var total := Sum(amounts, Amount());
    var gap := Sum(amounts, UsdAt(rate)) - Usd(total, rate);
    GapAsDrift(amounts, rate, total);
    GapBound(amounts, rate, total);
    Bracket(Unit(rate), gap, |amounts| + 1);
  }

  const HALF := Rate(50_000_000, 8)

  lemma {:induction false} HalfOfN(n: nat)
    ensures Usd(n, HALF) == (n + 1) / 2
  {
    assert Pow10(8) == 100_000_000;
  }

  function Ones(n: nat): (s: seq<nat>)
    ensures |s| == n
  {
    if n == 0 then [] else Ones(n - 1) + [1]
  }

  lemma {:induction false} SumOfOnes(n: nat, f: nat -> int)
    requires f(1) == 1
    ensures Sum(Ones(n), f) == n
  {
    if n != 0 {
      SumOfOnes(n - 1, f);
      SumSnoc(Ones(n - 1), 1, f);
    }
  }

  /** The bound is reached for every number of amounts: unit amounts at a rate of one half. */
  lemma {:induction false} PerEntryBoundIsAttained(n: nat)
    ensures Sum(Ones(n), Amount()) == n
    ensures Sum(Ones(n), UsdAt(HALF)) - Usd(n, HALF) == n / 2
  {
    HalfOfN(1);
    HalfOfN(n);
    SumOfOnes(n, Amount());
    SumOfOnes(n, UsdAt(HALF));
  }

  /******* Imbalance of a transaction in USD *******/

  function SignedUsd(e: Entry): int {
    if e.direction == Debit then e.usd else -e.usd
  }

  function NetUsd(entries: seq<Entry>): int {
    Sum(entries, SignedUsd)
  }

  predicate ConvertedAt(e: Entry, rate: Rate) {
    0 <= e.amount && e.usd == Usd(e.amount, rate)
  }

  function EntryDrift(rate: Rate): Entry -> int {
    (e: Entry) => 2 * Unit(rate) * SignedUsd(e) + -2 * rate.coefficient * Signed(e)
  }

  lemma {:induction false} EntryDriftBound(e: Entry, rate: Rate)
    requires ConvertedAt(e, rate)
    ensures var drift, unit := EntryDrift(rate)(e), Unit(rate);
            if e.direction.Debit? then -unit < drift <= unit else -unit <= drift < unit
  {
    DriftBound(e.amount, rate);
    assert 2 * Unit(rate) * -e.usd == -(2 * Unit(rate) * e.usd);
    assert -2 * rate.coefficient * -e.amount == -(-2 * rate.coefficient * e.amount);
  }

  lemma {:induction false} DriftOfEntries(entries: seq<Entry>, rate: Rate, debit: nat, credit: nat)
    requires forall i | 0 <= i < |entries| :: ConvertedAt(entries[i], rate)
    requires debit < |entries| && entries[debit].direction.Debit?
    requires credit < |entries| && entries[credit].direction.Credit?
    ensures -Unit(rate) * |entries| < Sum(entries, EntryDrift(rate)) < Unit(rate) * |entries|
  {
    var unit, f := Unit(rate), EntryDrift(rate);
    forall i | 0 <= i < |entries| ensures -unit <= f(entries[i]) <= unit {
      EntryDriftBound(entries[i], rate);
    }
    forall i | i == debit || i == credit
      ensures -unit * (|entries| - 1) <= Sum(entries, f) - f(entries[i]) <= unit * (|entries| - 1)
    {
      var others := entries[..i] + entries[i + 1..];
      SumRemove(entries, i, f);
      SumBounds(others, f, -unit, unit);
    }
    EntryDriftBound(entries[debit], rate);
    EntryDriftBound(entries[credit], rate);
    Distribute(unit, |entries| - 1, 1);
    Distribute(-unit, |entries| - 1, 1);
  }

  /** A balanced transaction of N entries is off by less than N / 2 cents in USD. */
  lemma {:induction false} UsdImbalanceBound(entries: seq<Entry>, rate: Rate)
    requires forall i | 0 <= i < |entries| :: ConvertedAt(entries[i], rate)
    requires exists i :: 0 <= i < |entries| && entries[i].direction.Debit?
    requires exists i :: 0 <= i < |entries| && entries[i].direction.Credit?
    requires Net(entries) == 0
    ensures -|entries| < 2 * NetUsd(entries) < |entries|
    ensures |entries| == 2 ==> NetUsd(entries) == 0
  {
    var debit :| 0 <= debit < |entries| && entries[debit].direction.Debit?;
    var credit :| 0 <= credit < |entries| && entries[credit].direction.Credit?;
    var unit, x, n := Unit(rate), NetUsd(entries), |entries|;
    DriftOfEntries(entries, rate, debit, credit);
    SumLinear(entries, 2 * unit, SignedUsd, -2 * rate.coefficient, Signed, EntryDrift(rate));
    Bracket(unit, x, n);
  }
}
