/** The envelope's length field: `usize::to_string` when an object is built
    and `str::parse::<usize>` when it is read back (64-bit `usize`). */
module Decimal {
  import opened Bytes
  import opened Results

  const USIZE_MAX: nat := 0xFFFF_FFFF_FFFF_FFFF
  const PLUS: Byte := 0x2B

  predicate IsDigit(c: Byte)
  {
    0x30 <= c <= 0x39
  }

  predicate AllDigits(s: Bytes)
  {
    forall i :: 0 <= i < |s| ==> IsDigit(s[i])
  }

  /** `n.to_string()`: the shortest decimal numeral of `n`. */
  function Show(n: nat): (r: Bytes)
    ensures |r| >= 1 && AllDigits(r)
    ensures |r| > 1 ==> r[0] != 0x30
  {
    if n < 10 then [0x30 + n]
    else
      var p := Show(n / 10);
      assert (p + [0x30 + n % 10])[0] == p[0];
      p + [0x30 + n % 10]
  }

  /** The value of a string of decimal digits, most significant first. */
  function DigitsValue(s: Bytes): nat
    requires AllDigits(s)
  {
    if s == [] then 0
    else DigitsValue(s[..|s| - 1]) * 10 + (s[|s| - 1] - 0x30)
  }

  /** `s.parse::<usize>()`: one optional leading '+', then one or more
      decimal digits (leading zeros allowed) whose value fits in a usize. */
  function ParseUsize(s: Bytes): (r: Option<nat>)
    ensures r.Some? ==> r.value <= USIZE_MAX
    ensures r.Some? ==> (|s| >= 1 && IsDigit(s[0])) || (|s| > 1 && s[0] == PLUS)
    ensures r.Some? && |s| > 1 && s[0] == PLUS ==> AllDigits(s[1..]) && r.value == DigitsValue(s[1..])
    ensures r.Some? && s[0] != PLUS ==> AllDigits(s) && r.value == DigitsValue(s)
    ensures |s| >= 1 && AllDigits(s) && DigitsValue(s) <= USIZE_MAX ==> r == Some(DigitsValue(s))
    ensures |s| > 1 && s[0] == PLUS && AllDigits(s[1..]) && DigitsValue(s[1..]) <= USIZE_MAX ==> r == Some(DigitsValue(s[1..]))
  {
    var digits := if |s| > 1 && s[0] == PLUS then s[1..] else s;
    if |digits| == 0 || !AllDigits(digits) then None
    else
      var v := DigitsValue(digits);
      assert IsDigit(digits[0]);
      if v <= USIZE_MAX then Some(v) else None
  }

  lemma {:induction false} DigitsValueShow(n: nat)
    ensures DigitsValue(Show(n)) == n
  {
    if n >= 10 {
      DigitsValueShow(n / 10);
      var s := Show(n);
      assert s[..|s| - 1] == Show(n / 10);
    }
  }

  /** Parsing a length that was shown gives the length back. */
  lemma ParseShow(n: nat)
    requires n <= USIZE_MAX
    ensures ParseUsize(Show(n)) == Some(n)
  {
    DigitsValueShow(n);
    assert Show(n)[0] != PLUS;
  }
}
