/** `parseNumber`: `std::stoll` in base 10, with its two exceptions
    (`std::invalid_argument`, `std::out_of_range`) turned into `None`. */
module NumberParsing {
  import opened Common
  import opened Decimal

  const Plus: byte := 0x2B
  const Minus: byte := 0x2D

  /** The six white-space characters of the "C" locale as ASCII bytes:
      space, \t, \n, \v, \f and \r. */
  const WhiteSpace: seq<byte> := [0x20, 0x09, 0x0A, 0x0B, 0x0C, 0x0D]

  /** `std::isspace` in the "C" locale. */
  predicate IsSpace(b: byte) {
    b == 0x20 || 0x09 <= b <= 0x0D
  }

  /** The white-space test accepts exactly the six white-space bytes. */
  lemma SpaceClass(b: byte)
    ensures IsSpace(b) <==> b in WhiteSpace
  {
  }

  /** What `strtoll` sees of a `std::string`: its `c_str()`, which ends at
      the first NUL byte. */
  function CString(s: seq<byte>): (t: seq<byte>)
    ensures |t| <= |s| && t == s[..|t|]
    ensures forall i :: 0 <= i < |t| ==> t[i] != 0
    ensures |t| < |s| ==> s[|t|] == 0
  {
    if |s| == 0 || s[0] == 0 then [] else [s[0]] + CString(s[1..])
  }

  /** Leading white space removed. */
  function SkipSpace(s: seq<byte>): (t: seq<byte>)
    ensures |t| <= |s| && t == s[|s| - |t|..]
    ensures forall i :: 0 <= i < |s| - |t| ==> IsSpace(s[i])
    ensures t == [] || !IsSpace(t[0])
  {
    if |s| > 0 && IsSpace(s[0]) then SkipSpace(s[1..]) else s
  }

  /** `std::stoll(string)`: optional leading white space, an optional sign,
      then at least one digit (otherwise `invalid_argument`); conversion stops
      at the first non-digit; a value outside `long long` is `out_of_range`.
      White space is skipped before the string is cut at its first NUL,
      which gives the same result because white space is never NUL
      (`ParseNumberSpec`). */
  function ParseNumber(s: seq<byte>): (r: Option<int>)
    ensures r.Some? ==> LLongMin <= r.value <= LLongMax
    decreases |s|
  {
    if |s| > 0 && IsSpace(s[0]) then ParseNumber(s[1..]) else ParseSigned(CString(s))
  }

  /** The part of `strtoll` after white space: sign, digits, range check. */
  function ParseSigned(body: seq<byte>): (r: Option<int>)
    ensures r.Some? ==> LLongMin <= r.value <= LLongMax
  {
    var negative := |body| > 0 && body[0] == Minus;
    var unsigned := if |body| > 0 && (body[0] == Minus || body[0] == Plus) then body[1..] else body;
    if |unsigned| == 0 || !IsDigit(unsigned[0]) then
      None
    else
      var magnitude: int := Accumulate(unsigned, 0);
      var value := if negative then -magnitude else magnitude;
      if value < LLongMin || value > LLongMax then None else Some(value)
  }

  /** The conversion loop of `strtoll`: multiply by ten and add each digit
      until the first non-digit. The value is unbounded here; the range
      check happens once the digits are used up. */
  function Accumulate(s: seq<byte>, acc: nat): (n: nat)
    ensures n >= acc
    decreases |s|
  {
    if |s| == 0 || !IsDigit(s[0]) then acc else Accumulate(s[1..], 10 * acc + DigitValue(s[0]))
  }

  /** Accumulating after a digit run `pre` yields the value of `pre`
      extended by the longest digit prefix of `s`. */
  lemma {:induction false} AccumulateValue(pre: seq<byte>, s: seq<byte>)
    requires AllDigits(pre)
    ensures AllDigits(pre + s[..DigitPrefixLength(s)])
    ensures Accumulate(s, DecimalValue(pre)) == DecimalValue(pre + s[..DigitPrefixLength(s)])
    decreases |s|
  {
    var k := DigitPrefixLength(s);
    if k == 0 {
      assert pre + s[..k] == pre;
    } else {
      var pre' := pre + [s[0]];
      assert pre'[..|pre'| - 1] == pre;
      assert DecimalValue(pre') == 10 * DecimalValue(pre) + DigitValue(s[0]);
      AccumulateValue(pre', s[1..]);
      assert pre' + s[1..][..k - 1] == pre + s[..k];
    }
  }

  /** Against the reference reading of `strtoll`: the sign, then the value
      of the longest digit prefix after it, `None` when that prefix is empty
      or the signed value lies outside `long long`. */
  lemma ParseSignedSpec(body: seq<byte>)
    ensures var negative := |body| > 0 && body[0] == Minus;
            var unsigned := if |body| > 0 && (body[0] == Minus || body[0] == Plus) then body[1..] else body;
            var k := DigitPrefixLength(unsigned);
            var value: int := if negative then -(DecimalValue(unsigned[..k]) as int) else DecimalValue(unsigned[..k]) as int;
            ParseSigned(body) == if k == 0 || value < LLongMin || value > LLongMax then None else Some(value)
  {
    var unsigned := if |body| > 0 && (body[0] == Minus || body[0] == Plus) then body[1..] else body;
    AccumulateValue([], unsigned);
    assert [] + unsigned[..DigitPrefixLength(unsigned)] == unsigned[..DigitPrefixLength(unsigned)];
  }

  /** Against the reference reading of `std::stoll`: cut at the first NUL,
      skip white space, then read a signed number. */
  lemma {:induction false} ParseNumberSpec(s: seq<byte>)
    ensures ParseNumber(s) == ParseSigned(SkipSpace(CString(s)))
    decreases |s|
  {
    if |s| > 0 && IsSpace(s[0]) {
      var c := CString(s);
      assert c == [s[0]] + CString(s[1..]);
      assert c[1..] == CString(s[1..]);
      ParseNumberSpec(s[1..]);
    }
  }

  lemma {:induction false} CStringOfDigits(s: seq<byte>)
    requires AllDigits(s)
    ensures CString(s) == s
  {
    if |s| > 0 {
      assert IsDigit(s[0]);
      CStringOfDigits(s[1..]);
    }
  }

  lemma ParseSignedDigits(s: seq<byte>)
    requires AllDigits(s)
    ensures ParseSigned(s) == if |s| == 0 || DecimalValue(s) > LLongMax then None else Some(DecimalValue(s) as int)
  {
    if |s| > 0 {
      assert IsDigit(s[0]);
      assert s[0] != Minus && s[0] != Plus;
    }
    DigitPrefixOfRun(s, []);
    assert s + [] == s;
    assert s[..DigitPrefixLength(s)] == s;
    ParseSignedSpec(s);
  }

  /** On a pure digit run — the only kind of text the server handler passes
      in — `parseNumber` fails exactly on the empty run and on a run whose
      value exceeds `LLONG_MAX`, and otherwise yields the run's value. */
  lemma ParseDigitRun(s: seq<byte>)
    requires AllDigits(s)
    ensures ParseNumber(s).None? <==> |s| == 0 || DecimalValue(s) > LLongMax
    ensures ParseNumber(s).Some? ==> ParseNumber(s).value == DecimalValue(s)
  {
    CStringOfDigits(s);
    ParseSignedDigits(s);
  }

  /** Reading back a rendered number succeeds exactly within `long long`. */
  lemma ParseShowDecimal(n: nat)
    ensures n <= LLongMax ==> ParseNumber(ShowDecimal(n)) == Some(n)
    ensures n > LLongMax ==> ParseNumber(ShowDecimal(n)) == None
  {
    ParseDigitRun(ShowDecimal(n));
    DecimalValueOfShow(n);
  }
}
