/** Shared vocabulary: bytes as they travel over the sockets, the Option
    datatype used for every operation that can fail, and the limits of the
    C++ `long long` type. */
module Common {

  /** One octet of a socket stream or datagram. */
  newtype byte = b: int | 0 <= b < 256

  /** The value of `char buffer{'\xFF'}` when a peek or read finds no data. */
  const NoData: byte := 0xFF

  const Colon: byte := 0x3A
  const Comma: byte := 0x2C
  const Zero: byte := 0x30
  const Nine: byte := 0x39

  /** Range of the C++ `long long` type (64-bit two's complement). */
  const LLongMin: int := -0x8000_0000_0000_0000
  const LLongMax: int := 0x7FFF_FFFF_FFFF_FFFF

  datatype Option<+T> = None | Some(value: T)

  /** The ten decimal digits of the C basic character set, '0' to '9', as
      ASCII bytes. */
  const DecimalDigits: seq<byte> := [0x30, 0x31, 0x32, 0x33, 0x34, 0x35, 0x36, 0x37, 0x38, 0x39]

  /** `std::isdigit` in the "C" locale: exactly the ten ASCII digits. */
  predicate IsDigit(b: byte) {
    Zero <= b <= Nine
  }

  /** The digit test accepts exactly the ten decimal digits. */
  lemma DigitClass(b: byte)
    ensures IsDigit(b) <==> b in DecimalDigits
  {
  }

  predicate AllDigits(s: seq<byte>) {
    forall i :: 0 <= i < |s| ==> IsDigit(s[i])
  }

  /** The `'\0'` bytes `std::string::resize` appends when it grows a string. */
  function Zeros(n: nat): (z: seq<byte>)
    ensures |z| == n
    ensures forall i :: 0 <= i < n ==> z[i] == 0
  {
    seq(n, _ => 0)
  }
}
