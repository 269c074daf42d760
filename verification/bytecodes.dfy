/** Conversions between small integers and bytes. */
module ByteCodes {

  /** A byte holds every integer from 0 to 255 exactly. */
  lemma ByteOfSmall(n: int)
    requires 0 <= n < 256
    ensures (n as bv8) as int == n
  {
  }
}
