/**
 * The qsort comparators shared by the programs: a three-way comparison of
 * two characters and of two unsigned 32-bit integers.
 */
module Compare {
  import opened Support

  /** compare_char: -1, 0 or 1 as x is below, equal to or above y. */
  function CompareChar(x: Byte, y: Byte): (r: int)
    ensures r == -1 <==> x < y
    ensures r == 0 <==> x == y
    ensures r == 1 <==> x > y
  {
    if x < y then -1 else if x > y then 1 else 0
  }

  /** compare_u_int32_t: -1, 0 or 1 as x is below, equal to or above y. */
  function CompareU32(x: U32, y: U32): (r: int)
    ensures r == -1 <==> x < y
    ensures r == 0 <==> x == y
    ensures r == 1 <==> x > y
  {
    if x < y then -1 else if x > y then 1 else 0
  }

  /** compare_char is antisymmetric and transitive: it orders characters totally. */
  lemma CompareCharTotalOrder(x: Byte, y: Byte, z: Byte)
    ensures CompareChar(x, y) == -CompareChar(y, x)
    ensures CompareChar(x, y) <= 0 && CompareChar(y, z) <= 0 ==> CompareChar(x, z) <= 0
    ensures CompareChar(x, y) < 0 && CompareChar(y, z) < 0 ==> CompareChar(x, z) < 0
  {
  }

  /** compare_u_int32_t is antisymmetric and transitive: it orders the integers totally. */
  lemma CompareU32TotalOrder(x: U32, y: U32, z: U32)
    ensures CompareU32(x, y) == -CompareU32(y, x)
    ensures CompareU32(x, y) <= 0 && CompareU32(y, z) <= 0 ==> CompareU32(x, z) <= 0
    ensures CompareU32(x, y) < 0 && CompareU32(y, z) < 0 ==> CompareU32(x, z) < 0
  {
  }
}
