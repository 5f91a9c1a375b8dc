/** 32-bit arithmetic with wrap-around, and the allocation limit of src/include/utils/memutils.h. */
module Alloc {

  const INT_MAX := 0x7fff_ffff
  const INT_MIN := -0x8000_0000
  const MAX_ALLOC := 0x3fff_ffff

  /** The value kept by 32-bit arithmetic with wrap-around. */
  function Int32(x: int): (y: int)
    ensures INT_MIN <= y <= INT_MAX
    ensures INT_MIN <= x <= INT_MAX ==> y == x
    ensures INT_MAX < x <= 2 * INT_MAX + 1 ==> y == x - 0x1_0000_0000
  {
    (x - INT_MIN) % 0x1_0000_0000 + INT_MIN
  }

  lemma {:induction false} Int32Shift(x: int, k: int)
    ensures Int32(x + k * 0x1_0000_0000) == Int32(x)
  {
  }

  /** A request for bytes held in 32 bits is granted up to the limit; a negative one reads as a huge one. */
  predicate Granted(nbytes: int) {
    0 <= nbytes <= MAX_ALLOC
  }

  /** A granted request is for all bytes needed exactly if these are within the limit, else for fewer. */
  lemma {:induction false} GrantedOrLess(need: nat)
    requires Granted(Int32(need))
    ensures Int32(need) <= need && (Int32(need) == need <==> need <= MAX_ALLOC)
  {
  }

  /** The largest buffer: doubled once more it would pass the allocation limit. */
  const LARGEST := 0x2000_0000

  /** Doubling leads to the largest buffer. */
  predicate Doubles(buflen: nat)
    requires buflen > 0
    decreases LARGEST - buflen
  {
    buflen == LARGEST || (buflen < LARGEST && Doubles(2 * buflen))
  }

  lemma {:induction false} SixteenDoubles()
    ensures Doubles(16) && Doubles(32)
  {
    assert Doubles(0x1000_0000) && Doubles(0x0800_0000) && Doubles(0x0400_0000) && Doubles(0x0200_0000);
    assert Doubles(0x0100_0000) && Doubles(0x0080_0000) && Doubles(0x0040_0000) && Doubles(0x0020_0000);
    assert Doubles(0x0010_0000) && Doubles(0x0008_0000) && Doubles(0x0004_0000) && Doubles(0x0002_0000);
    assert Doubles(0x0001_0000) && Doubles(0x8000) && Doubles(0x4000) && Doubles(0x2000);
    assert Doubles(0x1000) && Doubles(0x0800) && Doubles(0x0400) && Doubles(0x0200);
    assert Doubles(0x0100) && Doubles(0x0080) && Doubles(0x0040);
  }
}
