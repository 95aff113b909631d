/** Decimal digit strings: the longest leading run of digits, the value a run
    denotes, and the canonical rendering of a natural number. */
module Decimal {
  import opened Common

  /** Length of the longest prefix of `s` made of ASCII digits. */
  function DigitPrefixLength(s: seq<byte>): (n: nat)
    ensures n <= |s|
    ensures n < |s| ==> !IsDigit(s[n])
  {
    if |s| == 0 || !IsDigit(s[0]) then 0 else 1 + DigitPrefixLength(s[1..])
  }

  /** Every byte of the longest digit prefix is a digit. */
  lemma {:induction false} DigitPrefixIsDigits(s: seq<byte>)
    ensures AllDigits(s[..DigitPrefixLength(s)])
  {
    if |s| > 0 && IsDigit(s[0]) {
      DigitPrefixIsDigits(s[1..]);
      assert s[..DigitPrefixLength(s)] == [s[0]] + s[1..][..DigitPrefixLength(s[1..])];
    }
  }

  /** The value of a digit byte; other bytes count as zero. */
  function DigitValue(b: byte): (d: nat)
    ensures d < 10
    ensures IsDigit(b) ==> d as int == (b - Zero) as int
  {
    if IsDigit(b) then (b - Zero) as nat else 0
  }

  /** The number a run of decimal digits denotes (leading zeros allowed). */
  function DecimalValue(ds: seq<byte>): nat
  {
    if |ds| == 0 then 0
    else 10 * DecimalValue(ds[..|ds| - 1]) + DigitValue(ds[|ds| - 1])
  }

  function DigitOf(d: nat): (b: byte)
    requires d < 10
    ensures IsDigit(b) && DigitValue(b) == d
  {
    (d + Zero as nat) as byte
  }

  /** The decimal rendering of `n` without leading zeros, as `std::to_string`
      writes it; used to build well-formed netstring headers. */
  function ShowDecimal(n: nat): (ds: seq<byte>)
    ensures 1 <= |ds|
    ensures AllDigits(ds)
    ensures n > 0 ==> ds[0] != Zero
  {
    if n < 10 then [DigitOf(n)] else ShowDecimal(n / 10) + [DigitOf(n % 10)]
  }

  /** Rendering and reading back a number are inverse. */
  lemma {:induction false} DecimalValueOfShow(n: nat)
    ensures DecimalValue(ShowDecimal(n)) == n
  {
    if n >= 10 {
      var ds := ShowDecimal(n);
      assert ds[..|ds| - 1] == ShowDecimal(n / 10);
      DecimalValueOfShow(n / 10);
    }
  }

  /** A digit run followed by a non-digit (or by nothing) is exactly the
      longest digit prefix. */
  lemma {:induction false} DigitPrefixOfRun(digits: seq<byte>, tail: seq<byte>)
    requires AllDigits(digits)
    requires tail == [] || !IsDigit(tail[0])
    ensures DigitPrefixLength(digits + tail) == |digits|
  {
    if |digits| > 0 {
      assert (digits + tail)[1..] == digits[1..] + tail;
      DigitPrefixOfRun(digits[1..], tail);
    }
  }
}
