/** The link speed of the legacy ethtool settings structure, kept in two
    16-bit fields: `speed` holds its low half and `speed_hi` its high half,
    so that speeds above 65535 Mb/s fit without changing the layout. */
module Ethtool {

  /** The low 16 bits of a 32-bit value (the cast to __u16). */
  function Low16(x: bv32): bv16
  {
    (x & 0xFFFF) as bv16
  }

  /** The high 16 bits of a 32-bit value. */
  function High16(x: bv32): bv16
  {
    (x >> 16) as bv16
  }

  /** The speed two halves stand for: the high half shifted up sixteen
      places, or-ed with the low half. */
  function Join(hi: bv16, lo: bv16): bv32
  {
    (hi as bv32 << 16) | lo as bv32
  }

  /** Splitting a speed and joining the halves gives the speed back, for
      every 32-bit speed. */
  lemma SplitJoin(s: bv32)
    ensures Join(High16(s), Low16(s)) == s
  {
  }

  /** Joining two halves and splitting the result gives the halves back,
      so setting the speed just read leaves both fields as they were. */
  lemma JoinSplit(hi: bv16, lo: bv16)
    ensures High16(Join(hi, lo)) == hi && Low16(Join(hi, lo)) == lo
  {
  }

  /** The or of the shifted high half and the low half is their sum: the
      joined speed is hi * 65536 + lo, with no carry between the halves. */
  lemma JoinValue(hi: bv16, lo: bv16)
    ensures Join(hi, lo) == hi as bv32 * 0x1_0000 + lo as bv32
  {
  }

  /** struct ethtool_cmd, field for field. */
  class Cmd {
    var cmd: bv32
    var supported: bv32
    var advertising: bv32
    var speed: bv16
    var duplex: bv8
    var port: bv8
    var phyAddress: bv8
    var transceiver: bv8
    var autoneg: bv8
    var mdioSupport: bv8
    var maxTxPkt: bv32
    var maxRxPkt: bv32
    var speedHi: bv16
    var ethTpMdix: bv8
    var ethTpMdixCtrl: bv8
    var lpAdvertising: bv32
    var reserved: array<bv32>

    /** Every field but the two speed halves, as one value. */
    function Others(): (bv32, bv32, bv32, (bv8, bv8, bv8, bv8, bv8, bv8), bv32, bv32,
                        (bv8, bv8), bv32, array<bv32>)
      reads this
    {
      (cmd, supported, advertising, (duplex, port, phyAddress, transceiver, autoneg, mdioSupport),
       maxTxPkt, maxRxPkt, (ethTpMdix, ethTpMdixCtrl), lpAdvertising, reserved)
    }

    /** A zeroed structure. */
    constructor ()
      ensures speed == 0 && speedHi == 0 && reserved.Length == 2 && fresh(reserved)
    {
      cmd, supported, advertising := 0, 0, 0;
      speed, speedHi := 0, 0;
      duplex, port, phyAddress, transceiver, autoneg, mdioSupport := 0, 0, 0, 0, 0, 0;
      maxTxPkt, maxRxPkt := 0, 0;
      ethTpMdix, ethTpMdixCtrl := 0, 0;
      lpAdvertising := 0;
      reserved := new bv32[2](_ => 0);
    }

    /** ethtool_cmd_speed: the speed the two fields hold. Its low half is
        `speed` and its high half `speedHi`, so it is speedHi * 65536 +
        speed without wrapping. */
    function Speed(): (r: bv32)
      reads this
      ensures Low16(r) == speed && High16(r) == speedHi
      ensures r == speedHi as bv32 * 0x1_0000 + speed as bv32
    {
      JoinSplit(speedHi, speed);
      JoinValue(speedHi, speed);
      Join(speedHi, speed)
    }

    /** ethtool_cmd_speed_set: stores the low half of `s` in `speed` and the
        high half in `speedHi`, touching no other field; the speed read
        back afterwards is `s`. */
    method SpeedSet(s: bv32)
      modifies this
      ensures speed == Low16(s) && speedHi == High16(s)
      ensures Others() == old(Others())
      ensures Speed() == s
    {
      speed := Low16(s);
      speedHi := High16(s);
      SplitJoin(s);
    }
  }
}
