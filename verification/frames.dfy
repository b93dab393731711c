/**
 The per-frame decisions of the shim: `eoax_rcv` (an AX.25 UI frame with
 the eoax protocol id arrives on an AX.25 device and is handed up on the
 paired eoax device) and `eoax_xmit` (an Ethernet frame queued on an eoax
 device is sent as an AX.25 UI frame on the paired AX.25 device).

 A socket buffer is reduced to its length and its Ethernet header. The
 kernel checks the decisions depend on (namespace, `skb_share_check`,
 `skb_cow`) are inputs; statistics updates are returned as counter bumps.
 */
module Frames {
  import opened Common
  import opened Address
  import opened Registry
  import opened Lifecycle

  const NET_RX_SUCCESS: int := 0
  const NET_RX_DROP: int := 1
  const NETDEV_TX_OK: int := 0
  const PACKET_HOST: nat := 0
  const PACKET_BROADCAST: nat := 1

  /** The AX.25 protocol id of Ethernet-over-AX.25 frames. */
  const AX25_P_EOAX: byte := 0xD0

  /** The length of a socket buffer and the Ethernet header it carries. */
  datatype Skb = Skb(len: nat, hDest: MacAddr, hProto: bv16)

  datatype Counter = RxPackets | RxBytes | TxPackets | TxBytes | TxDropped

  /**
   `dev->stats.<counter> += amount` on device `dev`. The receive counters
   and tx_dropped are bumped on an eoax device, tx_packets and tx_bytes on
   an AX.25 device; the contracts below name which device each bump is on.
   */
  datatype Bump = Bump(dev: DevId, counter: Counter, amount: nat)

  /** What became of a received frame: freed, freed by a failed
      `skb_share_check`, or passed to `netif_rx` on an eoax device. */
  datatype RxVerdict = RxFreed | RxShareFailed | RxDelivered(to: DevId)

  datatype RxResult = RxResult(verdict: RxVerdict, ret: int, bumps: seq<Bump>)

  /** What became of a transmitted frame: freed, or given a header and
      queued with `dev_queue_xmit` on AX.25 device `on`. */
  datatype TxVerdict =
    | TxFreed
    | TxQueued(on: DevId, dest: Ax25Addr, pid: byte, pktType: nat, protocol: bv16)

  datatype TxResult = TxResult(verdict: TxVerdict, ret: int, bumps: seq<Bump>)

  /** What `skb_cow` did: failed, made room in place, or moved the data to a
      new buffer and freed the old one. */
  datatype Cow = CowFailed | CowInPlace | CowMoved

  /**
   The decision of `eoax_rcv` once the kernel checks are known: `inInitNet`
   is the namespace test, `shareOk` the outcome of `skb_share_check`,
   `target` the eoax device the registry lookup found and `targetRunning`
   whether it runs.
   */
  function RxDecision(inInitNet: bool, shareOk: bool, target: Option<DevId>, targetRunning: bool, len: nat): (r: RxResult)
    ensures r.verdict.RxShareFailed? <==> inInitNet && !shareOk
    ensures r.ret == (if r.verdict.RxShareFailed? then NET_RX_DROP else NET_RX_SUCCESS)
    ensures r.verdict.RxDelivered? <==> inInitNet && shareOk && target.Some? && targetRunning
    ensures r.verdict.RxDelivered? ==>
              && r.verdict.to == target.value
              && r.bumps == [Bump(target.value, RxPackets, 1), Bump(target.value, RxBytes, len)]
    ensures !r.verdict.RxDelivered? ==> r.bumps == []
  {
    if !inInitNet then RxResult(RxFreed, NET_RX_SUCCESS, [])
    else if !shareOk then RxResult(RxShareFailed, NET_RX_DROP, [])
    else if target.None? || !targetRunning then RxResult(RxFreed, NET_RX_SUCCESS, [])
    else
      var e := target.value;
      RxResult(RxDelivered(e), NET_RX_SUCCESS, [Bump(e, RxPackets, 1), Bump(e, RxBytes, len)])
  }

  /**
   `eoax_rcv` of a frame of `len` bytes arriving on AX.25 device `dev`: a
   delivered frame goes to the running eoax device paired with `dev`, whose
   receive counters are the only ones that move.
   */
  function Rcv(st: State, dev: DevId, inInitNet: bool, shareOk: bool, len: nat): (r: RxResult)
    ensures r.verdict.RxShareFailed? <==> inInitNet && !shareOk
    ensures r.ret == (if inInitNet && !shareOk then NET_RX_DROP else NET_RX_SUCCESS)
    ensures r.verdict.RxDelivered? ==> inInitNet && shareOk
    ensures inInitNet && shareOk && GetEtherDev(st.registry, dev).Some?
            && IsRunning(st, GetEtherDev(st.registry, dev).value) ==>
              r.verdict == RxDelivered(GetEtherDev(st.registry, dev).value)
    ensures r.verdict.RxDelivered? ==>
              r.bumps == [Bump(r.verdict.to, RxPackets, 1), Bump(r.verdict.to, RxBytes, len)]
    ensures !r.verdict.RxDelivered? ==> r.bumps == []
    ensures r.verdict.RxDelivered? ==>
              GetEtherDev(st.registry, dev) == Some(r.verdict.to) && IsRunning(st, r.verdict.to)
    ensures Inv(st) && r.verdict.RxDelivered? ==> GetAx25Dev(st, r.verdict.to) == Some(dev)
    ensures !Has(st.registry, AxSide, dev) ==> !r.verdict.RxDelivered? && r.bumps == []
    ensures forall b | b in r.bumps :: b.counter in {RxPackets, RxBytes} && Some(b.dev) == GetEtherDev(st.registry, dev)
  {
    var target := GetEtherDev(st.registry, dev);
    DeliveredToPaired(st, dev);
    RxDecision(inInitNet, shareOk, target, target.Some? && IsRunning(st, target.value), len)
  }

  lemma DeliveredToPaired(st: State, d: DevId)
    ensures Inv(st) && GetEtherDev(st.registry, d).Some? ==>
              GetAx25Dev(st, GetEtherDev(st.registry, d).value) == Some(d)
  {
    if Inv(st) && GetEtherDev(st.registry, d).Some? {
      PairedEthDev(st, d, GetEtherDev(st.registry, d).value);
    }
  }

  /**
   The decision of `eoax_xmit` on eoax device `n` once the kernel checks
   are known: `running` is `netif_running(n)`, `cowOk` whether `skb_cow`
   succeeded, `axdev` what `eoax_get_ax25_dev(n)` returned, and `pushed`
   the number of bytes `dev_hard_header` prepended.
   */
  function TxDecision(running: bool, cowOk: bool, axdev: Option<DevId>, n: DevId, skb: Skb, pushed: nat): (r: TxResult)
    ensures r.ret == NETDEV_TX_OK
    ensures r.verdict.TxQueued? <==> running && cowOk && axdev.Some?
    ensures !running || !cowOk ==> r.bumps == []
    ensures running && cowOk && axdev.None? ==> r.bumps == [Bump(n, TxDropped, 1)]
    ensures r.verdict.TxQueued? ==>
              && r.verdict.on == axdev.value
              && r.verdict.pid == AX25_P_EOAX
              && r.verdict.pktType == PACKET_HOST
              && r.verdict.protocol == skb.hProto
              && r.bumps == [Bump(axdev.value, TxPackets, 1), Bump(axdev.value, TxBytes, skb.len + pushed)]
    ensures r.verdict.TxQueued? && skb.hDest == ETH_BROADCAST ==> r.verdict.dest == AX25_BCAST
    ensures r.verdict.TxQueued? && skb.hDest != ETH_BROADCAST ==>
              && r.verdict.dest == EthAddressToAx25(skb.hDest)
              && Ax25AddressToEth(r.verdict.dest) == skb.hDest
              && r.verdict.dest[6] & !SSID_MASK == 0
  {
    if !running then TxResult(TxFreed, NETDEV_TX_OK, [])
    else if !cowOk then TxResult(TxFreed, NETDEV_TX_OK, [])
    else if axdev.None? then TxResult(TxFreed, NETDEV_TX_OK, [Bump(n, TxDropped, 1)])
    else
      var a := axdev.value;
      var dest := if skb.hDest == ETH_BROADCAST then AX25_BCAST else EthAddressToAx25(skb.hDest);
      // The broadcast branch sets PACKET_BROADCAST, but the assignment
      // after the branch overwrites it with PACKET_HOST on both paths.
      var pktType := PACKET_HOST;
      EthRoundTrip(skb.hDest);
      TxResult(TxQueued(a, dest, AX25_P_EOAX, pktType, skb.hProto), NETDEV_TX_OK,
               [Bump(a, TxPackets, 1), Bump(a, TxBytes, skb.len + pushed)])
  }

  /**
   `eoax_xmit` on eoax device `n`, reading the Ethernet header after
   `skb_cow` so that it is the live header whatever `skb_cow` did. A queued
   frame leaves on the AX.25 device paired with `n`; from a consistent
   state the missing-AX.25-device branch is never taken.
   */
  function Xmit(st: State, n: DevId, cow: Cow, skb: Skb, pushed: nat): (r: TxResult)
    ensures r.ret == NETDEV_TX_OK
    ensures !IsRunning(st, n) || cow.CowFailed? ==> r.verdict.TxFreed? && r.bumps == []
    ensures Inv(st) && r.verdict.TxQueued? ==> GetEtherDev(st.registry, r.verdict.on) == Some(n)
    ensures Inv(st) ==> (r.verdict.TxQueued? <==> IsRunning(st, n) && !cow.CowFailed?)
    ensures Inv(st) ==> forall b | b in r.bumps :: b.counter != TxDropped
    ensures r.verdict.TxQueued? ==>
              && r.verdict.pid == AX25_P_EOAX
              && r.verdict.pktType == PACKET_HOST
              && r.verdict.protocol == skb.hProto
              && r.bumps == [Bump(r.verdict.on, TxPackets, 1), Bump(r.verdict.on, TxBytes, skb.len + pushed)]
    ensures r.verdict.TxQueued? && skb.hDest != ETH_BROADCAST ==>
              r.verdict.dest == EthAddressToAx25(skb.hDest) && Ax25AddressToEth(r.verdict.dest) == skb.hDest
    ensures r.verdict.TxQueued? && skb.hDest == ETH_BROADCAST ==> r.verdict.dest == AX25_BCAST
  {
    var running := IsRunning(st, n);
    var axdev := GetAx25Dev(st, n);
    BackLinkFacts(st, n);
    TxDecision(running, !cow.CowFailed?, axdev, n, skb, pushed)
  }

  /**
   `eoax_xmit` as written: the Ethernet header pointer is taken before
   `skb_cow`. When `skb_cow` moves the data, the pointer is left into the
   freed buffer, and the destination and protocol are read from whatever
   that memory then holds (`staleDest`, `staleProto`).
   */
  function XmitAsWritten(running: bool, cow: Cow, axdev: Option<DevId>, n: DevId, skb: Skb,
                         staleDest: MacAddr, staleProto: bv16, pushed: nat): (r: TxResult)
    ensures cow.CowMoved? ==> (r.verdict.TxQueued? <==> running && axdev.Some?)
    ensures cow.CowMoved? ==> r == TxDecision(running, true, axdev, n, Skb(skb.len, staleDest, staleProto), pushed)
    ensures cow.CowMoved? && r.verdict.TxQueued? && staleDest != ETH_BROADCAST ==>
              r.verdict.dest == EthAddressToAx25(staleDest) && Ax25AddressToEth(r.verdict.dest) == staleDest
    ensures cow.CowMoved? && r.verdict.TxQueued? && staleDest == ETH_BROADCAST ==> r.verdict.dest == AX25_BCAST
    ensures cow.CowMoved? && r.verdict.TxQueued? ==> r.verdict.protocol == staleProto
    ensures !cow.CowMoved? ==> r == TxDecision(running, cow.CowInPlace?, axdev, n, skb, pushed)
  {
    var hdr := if cow.CowMoved? then Skb(skb.len, staleDest, staleProto) else skb;
    TxDecision(running, !cow.CowFailed?, axdev, n, hdr, pushed)
  }

  /**
   A unicast IPv4 frame to 02:00:00:00:00:01 whose buffer `skb_cow` moved,
   with the freed memory now holding a broadcast ARP header (destination
   FF:FF:FF:FF:FF:FF, type 0x0806), is sent as written to the AX.25
   broadcast address as ARP instead of to the station the frame names.
   */
  lemma StaleHeaderMisroutes()
    ensures var skb := Skb(60, [0x02, 0, 0, 0, 0, 0x01], 0x0800);
            var asWritten := XmitAsWritten(true, CowMoved, Some(1), 2, skb, ETH_BROADCAST, 0x0806, 17);
            var intended := TxDecision(true, true, Some(1), 2, skb, 17);
            && asWritten.verdict.TxQueued? && intended.verdict.TxQueued?
            && asWritten.verdict.dest == AX25_BCAST
            && intended.verdict.dest == EthAddressToAx25(skb.hDest)
            && asWritten.verdict.dest != intended.verdict.dest
            && asWritten.verdict.protocol != intended.verdict.protocol
  {
    var skb := Skb(60, [0x02, 0, 0, 0, 0, 0x01], 0x0800);
    assert skb.hDest != ETH_BROADCAST by {
      assert skb.hDest[0] != ETH_BROADCAST[0];
    }
    assert EthAddressToAx25(skb.hDest)[0] == 0x02;
  }

  /** After NETDEV_UNREGISTER of an AX.25 device, nothing arriving on it is
      delivered and no receive counter moves. */
  lemma NoDeliveryAfterUnregister(st: State, dev: Ax25Dev, alloc: Alloc, inInitNet: bool, shareOk: bool, len: nat)
    requires Inv(st) && Handled(dev)
    ensures var r := Rcv(DeviceEvent(st, NETDEV_UNREGISTER, dev, alloc), dev.id, inInitNet, shareOk, len);
            !r.verdict.RxDelivered? && r.bumps == []
  {
  }

  /** A frame an eoax device hands to the AX.25 side and the frame that side
      hands back up travel over the same pair. */
  lemma XmitRcvSamePair(st: State, n: DevId, cow: Cow, skb: Skb, pushed: nat, shareOk: bool, len: nat)
    requires Inv(st)
    requires Xmit(st, n, cow, skb, pushed).verdict.TxQueued?
    ensures var a := Xmit(st, n, cow, skb, pushed).verdict.on;
            Rcv(st, a, true, shareOk, len).verdict == (if shareOk then RxDelivered(n) else RxShareFailed)
  {
  }
}
