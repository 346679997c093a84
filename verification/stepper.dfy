/** The shared text input's step arrows and password switch. An arrow reads
    the field as a number (`Number(value) || 0`), adds or subtracts one,
    clamps against the optional `min` and `max`, and reports the result as
    text through the field's own `onChange`. The only field with arrows is
    the dot-count field, which sets no bounds and strips non-digits from
    whatever it receives. */
module Stepper {
  import opened Wrappers
  import Amount

  /** The stepped value: `current + delta`, raised to `min` when below it,
      else lowered to `max` when above it. */
  function Step(current: int, delta: int, min: Option<int>, max: Option<int>): (r: int)
    ensures min.Some? && current + delta < min.value ==> r == min.value
    ensures min.Some? && max.Some? && min.value <= max.value ==> min.value <= r <= max.value
    ensures min.None? && max.None? ==> r == current + delta
    ensures (min.None? || min.value <= current + delta) && (max.None? || current + delta <= max.value)
            ==> r == current + delta
  {
    var next := current + delta;
    if min.Some? && next < min.value then min.value
    else if max.Some? && next > max.value then max.value
    else next
  }

  /** Within bounds, one step up and one step down cancel. */
  lemma StepUpDown(current: int, min: Option<int>, max: Option<int>)
    requires min.None? || min.value <= current
    requires max.None? || current + 1 <= max.value
    ensures Step(Step(current, 1, min, max), -1, min, max) == current
  {
  }

  /** `String(n)` for any integer. */
  function IntToString(n: int): (s: string)
    ensures n >= 0 ==> Amount.AllDigits(s) && Amount.ParseDigits(s) == n
    ensures n < 0 ==> s == "-" + Amount.NatToString(-n)
  {
    Amount.ParseNatToString(if n >= 0 then n else -n);
    if n >= 0 then Amount.NatToString(n) else "-" + Amount.NatToString(-n)
  }

  /** An arrow on the dot-count field as written: no bounds, and the field
      strips the minus sign of a negative result. */
  function AmountArrow(amount: string, delta: int): (r: string)
    requires Amount.AllDigits(amount)
    ensures Amount.AllDigits(r)
    ensures Amount.ParseDigits(amount) + delta >= 0 ==> Amount.ParseDigits(r) == Amount.ParseDigits(amount) + delta
  {
    Amount.DigitsOnly(IntToString(Step(Amount.ParseDigits(amount), delta, None, None)))
  }

  /** The filter turns a negative count into its absolute value. */
  lemma StripsMinus(n: nat)
    ensures Amount.DigitsOnly("-" + Amount.NatToString(n)) == Amount.NatToString(n)
  {
    Amount.DigitsOnlyConcat("-", Amount.NatToString(n));
    assert Amount.DigitsOnly("-") == "";
  }

  /** The down arrow on an empty or zero count yields a count of one: it
      computes -1 and the digit filter drops the sign. */
  lemma DecrementFromZeroIncreases(amount: string)
    requires Amount.AllDigits(amount) && Amount.ParseDigits(amount) == 0
    ensures AmountArrow(amount, -1) == "1"
    ensures Amount.ParseDigits(AmountArrow(amount, -1)) == 1
  {
    assert Step(Amount.ParseDigits(amount), -1, None, None) == -1;
    assert IntToString(-1) == "-" + Amount.NatToString(1);
    StripsMinus(1);
    assert Amount.NatToString(1) == [Amount.DigitChar(1)] == "1";
  }

  /** The arrow with the field's natural lower bound of zero. */
  function AmountArrowClamped(amount: string, delta: int): (r: string)
    requires Amount.AllDigits(amount)
    ensures Amount.AllDigits(r)
    ensures Amount.ParseDigits(r) == if Amount.ParseDigits(amount) + delta < 0 then 0
                                      else Amount.ParseDigits(amount) + delta
  {
    Amount.DigitsOnly(IntToString(Step(Amount.ParseDigits(amount), delta, Some(0), None)))
  }

  /** With the bound, the down arrow never raises the count and the up arrow
      always adds one. */
  lemma ClampedArrowsMonotone(amount: string)
    requires Amount.AllDigits(amount)
    ensures Amount.ParseDigits(AmountArrowClamped(amount, -1)) <= Amount.ParseDigits(amount)
    ensures Amount.ParseDigits(amount) > 0 ==>
              Amount.ParseDigits(AmountArrowClamped(amount, -1)) == Amount.ParseDigits(amount) - 1
    ensures Amount.ParseDigits(AmountArrowClamped(amount, 1)) == Amount.ParseDigits(amount) + 1
  {
    var n := Amount.ParseDigits(amount);
    var down := AmountArrowClamped(amount, -1);
    var up := AmountArrowClamped(amount, 1);
    assert Amount.ParseDigits(down) == if n == 0 then 0 else n - 1;
    assert Amount.ParseDigits(up) == n + 1;
  }

  /** `getType()`: a password field shows its text while revealed. */
  function InputType(declared: string, revealed: bool): (r: string)
    ensures declared != "password" ==> r == declared
    ensures declared == "password" ==> (r == "text" <==> revealed) && (r == "password" <==> !revealed)
  {
    if declared == "password" then (if revealed then "text" else "password") else declared
  }
}
