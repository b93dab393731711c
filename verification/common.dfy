/**
 Shared vocabulary of the Ethernet-over-AX.25 model: optional values (a C
 pointer that may be NULL), device identities, and the fixed-width integer
 type the kernel uses for an interface MTU.
 */
module Common {

  /** A possibly-NULL reference. */
  datatype Option<+T> = None | Some(value: T)

  /**
   Identity of a `struct net_device` (pointer equality in the C). AX.25
   devices and eoax devices are both named by a `DevId`; the model compares
   an identity only with identities of the same kind, so the two kinds may
   reuse numbers.
   */
  type DevId = nat

  /** A C `unsigned int`, the type of `net_device.mtu`. */
  type u32 = x: int | 0 <= x < 0x1_0000_0000

  /** Length of an Ethernet header (destination, source, type). */
  const ETH_HLEN: nat := 14

  /** C unsigned subtraction `a - b`, which wraps modulo 2^32. */
  function SubU32(a: u32, b: u32): (r: u32)
    ensures a >= b ==> r == a - b
    ensures a < b ==> r == a - b + 0x1_0000_0000
  {
    (a - b) % 0x1_0000_0000
  }
}
