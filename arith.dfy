/** Integer facts shared by the pcap-ng time stamp conversion and the VP9
    output loops. */
module Arith {

  /** A quotient stays below c when the dividend is below b * c. */
  lemma DivBelow(a: int, b: int, c: int)
    requires 0 < b && 0 <= a < b * c
    ensures a / b < c
  {
    var q := a / b;
    assert b * q <= a;
    assert b * q < b * c;
  }
}
