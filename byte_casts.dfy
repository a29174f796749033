/** Conversions between small integers and bytes, kept apart from the decoder
    so that the solver sees them without the decoder's definitions. */
module ByteCasts {

  /** A value below 256 survives the round trip through a byte. */
  lemma ByteOf(x: nat)
    requires x < 256
    ensures (x as bv8) as int == x
  {
  }
}
