/**
 The address translator of the Ethernet-over-AX.25 shim: a bit-exact
 mapping between a 7-byte AX.25 station address (six shifted callsign
 characters plus the SSID octet) and the 6-byte MAC of the paired Ethernet
 interface.

 In the SSID octet of an AX.25 address (section 3.12 of the AX.25 v2.2
 specification) bits 4..1 hold the 4-bit SSID; bit 0 is the extension bit
 and bits 7..5 are the C/H and reserved bits. The translation carries
 exactly bits 4..1: forwards they are ORed, one per byte, into the low bit
 of MAC bytes 0..3, and backwards they are rebuilt from those low bits.
 */
module Address {

  type byte = bv8

  const ETH_ALEN: nat := 6
  const AX25_ADDR_LEN: nat := 7

  type MacAddr = s: seq<byte> | |s| == ETH_ALEN witness [0, 0, 0, 0, 0, 0]
  type Ax25Addr = s: seq<byte> | |s| == AX25_ADDR_LEN witness [0, 0, 0, 0, 0, 0, 0]

  /** The all-ones Ethernet broadcast address the eoax interfaces carry. */
  const ETH_BROADCAST: MacAddr := [0xFF, 0xFF, 0xFF, 0xFF, 0xFF, 0xFF]

  /**
   The AX.25 all-stations address "QST-0" (`ax25_bcast` of the kernel's
   AX.25 stack): callsign characters shifted left by one, SSID octet zero.
   */
  const AX25_BCAST: Ax25Addr := [0xA2, 0xA6, 0xA8, 0x40, 0x40, 0x40, 0x00]

  /** Mask of the SSID field (bits 4..1) inside the SSID octet. */
  const SSID_MASK: byte := 0x1E

  /** Bit `k` of `b`, as 0 or 1. */
  function Bit(b: byte, k: bv8): byte
    requires k < 8
  {
    (b >> k) & 1
  }

  /** The 4-bit SSID carried in an SSID octet. */
  function Ssid(octet: byte): nat
  {
    ((octet & SSID_MASK) >> 1) as nat
  }

  /** An address whose first four bytes have their low bit clear, as every
      shifted callsign character has. */
  predicate LowBitsClear(a: Ax25Addr)
  {
    forall i | 0 <= i < 4 :: Bit(a[i], 0) == 0
  }

  /** An Ethernet group (multicast) address: bit 0 of the first byte set. */
  predicate IsGroupMac(m: MacAddr)
  {
    Bit(m[0], 0) == 1
  }

  /** Bits 7..1 of a base byte: the shifted callsign character. */
  function Callsign(x: byte): byte
  {
    x & 0xFE
  }

  /** The six base bytes of `x` and `y` agree on bits 7..1. */
  predicate SameCallsign(x: seq<byte>, y: seq<byte>)
    requires |x| >= 6 && |y| >= 6
  {
    && Callsign(x[0]) == Callsign(y[0]) && Callsign(x[1]) == Callsign(y[1])
    && Callsign(x[2]) == Callsign(y[2]) && Callsign(x[3]) == Callsign(y[3])
    && Callsign(x[4]) == Callsign(y[4]) && Callsign(x[5]) == Callsign(y[5])
  }

  /** ORs a single bit into bit 0 of `x`, keeping bits 7..1. */
  function OrLowBit(x: byte, b: byte): (r: byte)
    requires b <= 1
    ensures Callsign(r) == Callsign(x)
    ensures Bit(r, 0) == Bit(x, 0) | b
  {
    x | b
  }

  /**
   `ax25_address_to_eth`: the six base bytes are copied, then SSID bit
   (4 - i) is ORed into the low bit of MAC byte i for i in 0..3.
   */
  function Ax25AddressToEth(a: Ax25Addr): (e: MacAddr)
    ensures e[4] == a[4] && e[5] == a[5]
    ensures SameCallsign(e, a)
    ensures Bit(e[0], 0) == Bit(a[0], 0) | Bit(a[6], 4)
    ensures Bit(e[1], 0) == Bit(a[1], 0) | Bit(a[6], 3)
    ensures Bit(e[2], 0) == Bit(a[2], 0) | Bit(a[6], 2)
    ensures Bit(e[3], 0) == Bit(a[3], 0) | Bit(a[6], 1)
  {
    var ssid := a[6];
    [ OrLowBit(a[0], Bit(ssid, 4)),
      OrLowBit(a[1], Bit(ssid, 3)),
      OrLowBit(a[2], Bit(ssid, 2)),
      OrLowBit(a[3], Bit(ssid, 1)),
      a[4],
      a[5] ]
  }

  /**
   `eth_address_to_ax25`: the six bytes are copied, and the SSID octet is
   rebuilt from the low bits of MAC bytes 0..3 into bits 4..1; every other
   bit of the octet is zero.
   */
  function EthAddressToAx25(e: MacAddr): (a: Ax25Addr)
    ensures a[..6] == e
    ensures a[6] & !SSID_MASK == 0
    ensures Bit(a[6], 4) == Bit(e[0], 0) && Bit(a[6], 3) == Bit(e[1], 0)
    ensures Bit(a[6], 2) == Bit(e[2], 0) && Bit(a[6], 1) == Bit(e[3], 0)
  {
    var ssid: byte := ((e[0] & 1) << 4) | ((e[1] & 1) << 3) | ((e[2] & 1) << 2) | ((e[3] & 1) << 1);
    e + [ssid]
  }

  /** Translating a MAC to AX.25 and back gives the MAC again: the reverse
      translation is an exact left inverse of the forward one. */
  lemma EthRoundTrip(e: MacAddr)
    ensures Ax25AddressToEth(EthAddressToAx25(e)) == e
  {
    var a := EthAddressToAx25(e);
    var back := Ax25AddressToEth(a);
    assert forall i | 0 <= i < 6 :: a[i] == a[..6][i] == e[i];
    BytesFromBits(back[0], e[0]);
    BytesFromBits(back[1], e[1]);
    BytesFromBits(back[2], e[2]);
    BytesFromBits(back[3], e[3]);
  }

  /** Two bytes that agree on bits 7..1 and on bit 0 are equal. */
  lemma BytesFromBits(x: byte, y: byte)
    requires Callsign(x) == Callsign(y)
    requires Bit(x, 0) == Bit(y, 0)
    ensures x == y
  {
  }

  /** The reverse translation is injective. */
  lemma EthAddressToAx25Injective(e1: MacAddr, e2: MacAddr)
    requires EthAddressToAx25(e1) == EthAddressToAx25(e2)
    ensures e1 == e2
  {
    EthRoundTrip(e1);
    EthRoundTrip(e2);
  }

  /**
   Two AX.25 addresses name the same station when their callsign bytes
   agree on bits 7..1 and their SSID octets agree on the SSID field; this
   is how the AX.25 stack compares addresses (bit 0 of a callsign byte is
   not part of the callsign, and the other SSID-octet bits are flags).
   */
  predicate SameStation(a: Ax25Addr, b: Ax25Addr)
  {
    && SameCallsign(a, b)
    && a[6] & SSID_MASK == b[6] & SSID_MASK
  }

  /**
   For an address whose callsign bytes 0..3 have bit 0 clear, translating
   to a MAC and back gives an address of the same station whose SSID octet
   holds exactly the SSID field (extension, C/H and reserved bits come back
   zero). Bytes 0..3 keep the SSID bits ORed in, so the round trip is not
   the identity on bytes.
   */
  lemma Ax25RoundTrip(a: Ax25Addr)
    requires LowBitsClear(a)
    ensures EthAddressToAx25(Ax25AddressToEth(a))[6] == a[6] & SSID_MASK
    ensures SameStation(EthAddressToAx25(Ax25AddressToEth(a)), a)
  {
    var e := Ax25AddressToEth(a);
    var back := EthAddressToAx25(e);
    assert Bit(a[0], 0) == 0 && Bit(a[1], 0) == 0 && Bit(a[2], 0) == 0 && Bit(a[3], 0) == 0;
    assert Bit(back[6], 4) == Bit(a[6], 4);
    assert Bit(back[6], 3) == Bit(a[6], 3);
    assert Bit(back[6], 2) == Bit(a[6], 2);
    assert Bit(back[6], 1) == Bit(a[6], 1);
    SsidOctetFromBits(back[6], a[6]);
    assert forall i | 0 <= i < 6 :: back[i] == back[..6][i] == e[i];
  }

  /** An octet with only SSID bits set is determined by those four bits. */
  lemma SsidOctetFromBits(x: byte, y: byte)
    requires x & !SSID_MASK == 0
    requires Bit(x, 4) == Bit(y, 4) && Bit(x, 3) == Bit(y, 3)
    requires Bit(x, 2) == Bit(y, 2) && Bit(x, 1) == Bit(y, 1)
    ensures x == y & SSID_MASK
  {
  }

  /** Only the SSID field of the SSID octet reaches the MAC: bits 0, 5, 6
      and 7 of byte 6 never affect the forward translation. */
  lemma ForwardIgnoresNonSsidBits(a: Ax25Addr, b: Ax25Addr)
    requires a[..6] == b[..6]
    requires a[6] & SSID_MASK == b[6] & SSID_MASK
    ensures Ax25AddressToEth(a) == Ax25AddressToEth(b)
  {
    assert forall i | 0 <= i < 6 :: a[i] == a[..6][i] && b[i] == b[..6][i];
    forall i | 1 <= i <= 4
      ensures Bit(a[6], i) == Bit(b[6], i)
    {
      SsidBitsAgree(a[6], b[6], i);
    }
  }

  /** Octets with the same SSID field agree on bits 1..4. */
  lemma SsidBitsAgree(x: byte, y: byte, k: bv8)
    requires x & SSID_MASK == y & SSID_MASK
    requires 1 <= k <= 4
    ensures Bit(x, k) == Bit(y, k)
  {
  }

  /**
   The Ethernet interface of an AX.25 device whose first callsign byte is
   well formed gets a group (multicast) MAC exactly when its SSID is 8 or
   more, because SSID bit 3 lands on the Ethernet group bit.
   */
  lemma GroupMacIffHighSsid(a: Ax25Addr)
    requires Bit(a[0], 0) == 0
    ensures IsGroupMac(Ax25AddressToEth(a)) <==> Ssid(a[6]) >= 8
  {
    var s := a[6];
    assert Bit(Ax25AddressToEth(a)[0], 0) == Bit(s, 4);
    assert Ssid(s) >= 8 <==> Bit(s, 4) == 1;
  }

  /** The Ethernet broadcast address does not translate to the AX.25
      broadcast address, which is why transmit special-cases it. */
  lemma BroadcastIsNotTranslated()
    ensures EthAddressToAx25(ETH_BROADCAST) != AX25_BCAST
    ensures EthAddressToAx25(ETH_BROADCAST) == ETH_BROADCAST + [SSID_MASK]
  {
    assert EthAddressToAx25(ETH_BROADCAST)[0] == 0xFF;
  }

  /**
   Station AA:BB:CC:DD:EE:FF with SSID octet 0x30: only bit 4 of the octet
   is an SSID bit that is set (bits 5 and 4 are set; bit 5 is reserved),
   so only MAC byte 0 gains its low bit.
   */
  lemma ActivationExample()
    ensures Ax25AddressToEth([0xAA, 0xBB, 0xCC, 0xDD, 0xEE, 0xFF, 0x30]) == [0xAB, 0xBB, 0xCC, 0xDD, 0xEE, 0xFF]
  {
  }
}
