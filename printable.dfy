/** The check the Kafka fuzz client makes before it shows a consumed key or payload as text. */
module Printable {

  /** `isprint` in the C locale: space (0x20) through tilde (0x7E). Bytes of 0x80 and above,
      which reach `isprint` as negative `char` values, count as not printable. */
  predicate IsPrint(c: bv8) {
    0x20 <= c <= 0x7E
  }

  /** `is_printable(buf, size)`: 1 when each of the first `size` bytes of `buf` is printable,
      otherwise 0, returned at the first byte that is not. */
  method IsPrintable(buf: array<bv8>, size: nat) returns (r: int)
    requires size <= buf.Length
    ensures r == 0 || r == 1
    ensures r == 1 <==> forall i :: 0 <= i < size ==> IsPrint(buf[i])
  {
    var i := 0;
    while i < size
      invariant 0 <= i <= size
      invariant forall k :: 0 <= k < i ==> IsPrint(buf[k])
    {
      if !IsPrint(buf[i]) {
        return 0;
      }
      i := i + 1;
    }
    return 1;
  }
}
