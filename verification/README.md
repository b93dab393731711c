# Ethernet over AX.25 (eoax) — a Dafny model

`drivers/net/hamradio/eoax.c` is a Linux driver that turns each AX.25
packet-radio interface into a paired virtual Ethernet interface (`eoax0`,
`eoax1`, …). Ethernet frames sent on an eoax interface go out as AX.25 UI
frames with protocol id 0xD0 on the paired AX.25 interface. UI frames with that
id that arrive on the AX.25 interface are handed up on the eoax interface.

This project models the driver's decision logic and proves properties about it.

- **`common.dfy`** (`Common`) holds the shared pieces:
  - optional values, which stand for C pointers that may be NULL;
  - device identities;
  - the `unsigned int` MTU type, with its wrapping subtraction.
- **`address.dfy`** (`Address`) is the address translator.
  - `ax25_address_to_eth` copies the six callsign bytes. It then ORs SSID bits 4, 3, 2 and 1 of the SSID octet into bit 0 of MAC bytes 0..3.
  - `eth_address_to_ax25` reverses this: it rebuilds an SSID octet that holds only those four bits.
- **`registry.dfy`** (`Registry`) is the driver's list of `struct eoaxdev` pairs.
  - New pairs are added at the head.
  - `eoax_get_ether_dev` returns the first match.
  - `list_del_rcu` unlinks one pair.
- **`lifecycle.dfy`** (`Lifecycle`) models the driver state and the events that change it.
  - The state is the registry, the eoax devices with their private blocks, the references the driver holds on AX.25 devices, and the next identity `alloc_netdev` will hand out.
  - Operations: `eoax_new_device`, `eoax_free_device`, `eoax_get_ax25_dev`, and the netdevice notifier `eoax_device_event`. A run of notifier events (plus interface opens and closes) is folded into the state after the last input.
  - The drain loop of `eoax_cleanup_driver` is a method.
  - The invariant `Inv` is preserved by every event. It requires:
    - at most one pair per AX.25 device and per eoax device;
    - the registry links exactly the private blocks of the existing eoax devices;
    - the references held on each AX.25 device equal the number of pairs over it.
- **`frames.dfy`** (`Frames`) models what `eoax_rcv` and `eoax_xmit` decide for a frame.
  - Decisions: freed or delivered (or queued), the return code, the statistics counters bumped, and the AX.25 destination, protocol id and packet type of a queued frame.
  - Kernel checks are inputs: the network namespace test, `skb_share_check`, `skb_cow`, and `netif_running`.

The SSID octet of an AX.25 address carries the SSID in bits 4..1 (section 3.12 of the AX.25 v2.2 specification). The driver's shifts `>> 4`, `>> 3`, `>> 2`, `>> 1` and `<< 4` … `<< 1` use exactly those bits, and so does this model.

Station AA:BB:CC:DD:EE:FF with SSID octet 0x30 translates to AB:BB:CC:DD:EE:FF. Of the set bits 5 and 4 of 0x30, only bit 4 is an SSID bit, so only MAC byte 0 gains its low bit. This is `Address.ActivationExample`.

## Model

| member | source | states |
|---|---|---|
| Common.SubU32 | drivers/net/hamradio/eoax.c:334 | C unsigned subtraction: the exact difference when no borrow occurs, otherwise the difference plus 2^32 |
| Address.Ax25AddressToEth | drivers/net/hamradio/eoax.c:123-134 | MAC bytes 4 and 5 equal the address bytes; bytes 0..5 keep the callsign bits 7..1; bit 0 of MAC byte i (i < 4) is the address's own bit 0 ORed with SSID-octet bit 4-i |
| Address.EthAddressToAx25 | drivers/net/hamradio/eoax.c:136-148 | the first six bytes are the MAC; in the SSID octet every bit outside the SSID field is zero; SSID bit 4-i equals bit 0 of MAC byte i |
| Address.EthRoundTrip | drivers/net/hamradio/eoax.c:123-148 | translating any MAC to AX.25 and back yields the same MAC |
| Address.EthAddressToAx25Injective | drivers/net/hamradio/eoax.c:136-148 | distinct MACs translate to distinct AX.25 addresses |
| Address.Ax25RoundTrip | drivers/net/hamradio/eoax.c:123-148 | when the callsign bytes 0..3 have bit 0 clear, the round trip through the MAC yields the same station: the SSID field is reproduced exactly and every other bit of the SSID octet comes back zero |
| Address.ForwardIgnoresNonSsidBits | drivers/net/hamradio/eoax.c:129-133 | two addresses that differ only outside the SSID field of the SSID octet get the same MAC |
| Address.GroupMacIffHighSsid | drivers/net/hamradio/eoax.c:130 | with bit 0 of the first callsign byte clear, the eoax interface gets a group (multicast) MAC exactly when the SSID is 8 or more |
| Address.BroadcastIsNotTranslated | drivers/net/hamradio/eoax.c:254-261 | the Ethernet broadcast address does not translate to the AX.25 broadcast address, so transmit has to special-case it |
| Address.ActivationExample | drivers/net/hamradio/eoax.c:335 | the station AA:BB:CC:DD:EE:FF with SSID octet 0x30 gets MAC AB:BB:CC:DD:EE:FF |
| Registry.GetEtherDev | drivers/net/hamradio/eoax.c:88-97 | the lookup misses exactly when no pair is over the AX.25 device; a hit is the eoax device of the first such pair from the head |
| Registry.LookupFindsUniquePair | drivers/net/hamradio/eoax.c:88-97 | when no AX.25 device is paired twice, looking up any pair's AX.25 device returns that pair's eoax device |
| Registry.RemoveEth | drivers/net/hamradio/eoax.c:367 | unlinking the private block of an eoax device removes exactly that entry and keeps the order of the rest; with no such entry the list is unchanged |
| Registry.CountZeroIffAbsent | drivers/net/hamradio/eoax.c:329 | no reference is counted on an AX.25 device exactly when no pair is over it |
| Lifecycle.InitInv | drivers/net/hamradio/eoax.c:50 | the empty list at module load satisfies the driver's consistency invariant |
| Lifecycle.GetAx25Dev | drivers/net/hamradio/eoax.c:78-83 | in a consistent state the back-link is missing exactly when the eoax device has no pair, and a present back-link is the AX.25 device whose lookup returns this eoax device |
| Lifecycle.NewDevice | drivers/net/hamradio/eoax.c:318-353 | on allocation failure it returns -ENOMEM and on registration failure the error, and in both cases nothing changes. On success: a fresh eoax device whose pair is at the list head; its MTU is the AX.25 MTU minus 14, wrapping modulo 2^32; its MAC is the translated AX.25 address; one more reference is held on the AX.25 device, and other devices are untouched. Consistency is kept when the AX.25 device was unpaired |
| Lifecycle.FreeDevice | drivers/net/hamradio/eoax.c:355-370 | the eoax device is gone and so is its pair: exactly that pair is unlinked from the list, the others keep their order, and neither device appears in it; one reference fewer is held on its AX.25 device and no other count changes; consistency is kept |
| Lifecycle.DevClose | drivers/net/hamradio/eoax.c:395 | `dev_close` of an eoax interface: it stops running; the list, the references and every other interface are unchanged |
| Lifecycle.DevOpen | drivers/net/hamradio/eoax.c:280-284 | `dev_open` of an eoax interface, which ends in `eoax_open`: it runs exactly when it exists, its private block, MTU and MAC stay as they were; the list, the references and every other interface are unchanged |
| Lifecycle.OnUp | drivers/net/hamradio/eoax.c:388-391 | afterwards the AX.25 device is paired exactly when it already was or the creation succeeded; an existing pair or a failed creation leaves the state as it was. A successful creation pairs the AX.25 device with a fresh eoax device at the list head, ahead of the unchanged old list. The new device's MTU is the AX.25 MTU minus 14 (wrapping), its MAC is the translated AX.25 address, and it is not running. Exactly one reference is then held on the AX.25 device, and all other devices and counts are unchanged |
| Lifecycle.OnDown | drivers/net/hamradio/eoax.c:393-396 | exactly the eoax device paired with the AX.25 device stops running; the list, references and the set of devices are unchanged |
| Lifecycle.OnUnregister | drivers/net/hamradio/eoax.c:398-401 | afterwards the list holds exactly the old pairs over other AX.25 devices, in their old order; the eoax devices are exactly the old ones over other AX.25 devices, with unchanged records; no reference is held on the AX.25 device and other reference counts are unchanged |
| Lifecycle.DeviceEvent | drivers/net/hamradio/eoax.c:375-407 | devices outside the initial namespace, non-AX.25 devices and other events leave the state unchanged; UP, DOWN and UNREGISTER have exactly the effects stated for OnUp, OnDown and OnUnregister, including that nothing else changes; consistency is kept |
| Lifecycle.Run | drivers/net/hamradio/eoax.c:375-407 | every sequence of notifier events and interface opens and closes keeps the consistency invariant |
| Lifecycle.NoTwoPairsForOneAx25Device | drivers/net/hamradio/eoax.c:388-391 | from module load, no sequence of events creates two pairs over one AX.25 device, and references held always equal pairs |
| Lifecycle.UnpairedUntilUp | drivers/net/hamradio/eoax.c:398-401 | once an AX.25 device has no pair, lookups for it miss until an UP event for it in the initial namespace arrives |
| Lifecycle.CleanupDriver | drivers/net/hamradio/eoax.c:430-435 | the drain loop ends with an empty list, no eoax devices and no reference held on any AX.25 device |
| Frames.RxDecision | drivers/net/hamradio/eoax.c:160-199 | a failed share check is the only NET_RX_DROP; delivery happens exactly when in the initial namespace, shared successfully, paired and running; only a delivery bumps counters: rx_packets by one and rx_bytes by the length on the eoax device |
| Frames.Rcv | drivers/net/hamradio/eoax.c:153-200 | a failed share check in the initial namespace is the only NET_RX_DROP. A frame is delivered exactly when it arrives in the initial namespace, shares successfully, and the lookup finds a running eoax device; it goes to that device, whose back-link names the receiving AX.25 device. A delivery bumps exactly rx_packets by one and rx_bytes by the length on that device, and any other outcome bumps nothing |
| Frames.TxDecision | drivers/net/hamradio/eoax.c:222-277 | always NETDEV_TX_OK. A frame is queued exactly when the interface runs, skb_cow succeeds and an AX.25 device is found. A missing AX.25 device bumps tx_dropped on the eoax device. A queued frame has pid 0xD0, PACKET_HOST and the Ethernet protocol, and bumps tx_packets and tx_bytes on the AX.25 device. It goes to the AX.25 broadcast address for the Ethernet broadcast destination, otherwise to the reverse translation of the destination, which translates back to it |
| Frames.Xmit | drivers/net/hamradio/eoax.c:205-278 | a queued frame leaves on the AX.25 device paired with the sending eoax device, with pid 0xD0, PACKET_HOST, the Ethernet protocol and the tx_packets and tx_bytes bumps on that device. In a consistent state a frame is queued exactly when the interface runs and skb_cow succeeds, and tx_dropped never moves. The destination is as for TxDecision |
| Frames.XmitAsWritten | drivers/net/hamradio/eoax.c:227-264 | when skb_cow moved the data, it decides exactly as TxDecision on a header made of the stale bytes: queueing, queue device, return code, pid, packet type and counter bumps are as usual, but the destination (the AX.25 broadcast address for an all-ones stale header, otherwise the reverse translation of the stale destination) and the protocol come from the freed old header; otherwise it decides as TxDecision |
| Frames.StaleHeaderMisroutes | drivers/net/hamradio/eoax.c:227-264 | a unicast IPv4 frame whose old header memory holds a broadcast ARP header is sent as written to the AX.25 broadcast address as ARP, unlike the intended transmit |
| Frames.NoDeliveryAfterUnregister | drivers/net/hamradio/eoax.c:398-401 | after an AX.25 device is unregistered, nothing arriving on it is delivered and no counter moves |
| Frames.XmitRcvSamePair | drivers/net/hamradio/eoax.c:170-187 | the AX.25 device a frame is sent on hands received frames back up on the same eoax device |

## Left out

- Locking is not modelled: RCU read sections, RTNL and the lockdep classes. The model runs one event at a time, so concurrent readers are out of scope.
- Socket-buffer mechanics are inputs or oracles: `skb_share_check`, `skb_cow`, `eth_type_trans`, `netif_rx`, `dev_queue_xmit`, `netif_wake_queue`, `kfree_skb`. A frame is reduced to its length and Ethernet header.
- The bytes `dev_hard_header` adds (counted in tx_bytes) are an input (`pushed`). The AX.25 header layout is defined by the AX.25 stack, which is not part of this model.
- The debug dump, `printk` and `pr_err` have no effect on the modelled state.
- Module load is not modelled: `eoax_init_driver`, `ax25_register_pid`, notifier registration and `ax25_protocol_release`. The model starts from the empty registry `Init`.
- `eoax_setup` and the `net_device_ops` table are left out, except the broadcast address, the open/close callbacks and the MTU overwritten in `eoax_new_device`. Queue length, flags and header length do not influence any modelled decision.
- Frames.XmitRcvSamePair: it relates the two directions on the pairing only. Frame contents are not carried from one side to the other.
- Lifecycle.FreeDevice: the header-ops restore is not modelled. It reassigns `ax25_header_ops`, which the driver never changes, so it has no effect.
- Lifecycle.DeviceEvent: the return value is the constant NOTIFY_DONE and is not modelled. The error of `eoax_new_device` is dropped there, as in the source.
- Device identities come from a counter in the state, standing in for the fresh pointer `alloc_netdev` returns. Whether allocation or registration fails is an input (`Alloc`).
- `ax25_bcast` is defined by the AX.25 stack, not in this file. It is taken to be the all-stations address QST-0.
- Opening and closing an eoax interface by the networking core (`dev_open`, which ends in `eoax_open`, and `dev_close`, which ends in `eoax_close`) are inputs of `Lifecycle.Run`. This is what lets eoax interfaces run in reachable states.
- Transmit queue state is not modelled: `netif_start_queue`, `netif_stop_queue` and `netif_wake_queue`. Only the running flag is kept, which `dev_open` and `dev_close` set and clear.
- Frames.Rcv: the rx statistics are unbounded naturals. The wrap of `unsigned long` counters is not modelled, and neither is it for tx counters in Frames.TxDecision.
- The branch of `eoax_xmit` where the private block has no AX.25 device is modelled in Frames.TxDecision. Frames.Xmit proves it unreachable from a consistent state, because `netdev_priv` never returns NULL for an existing device.

## Findings

| source | as written | input that shows it | evidently intended | confidence | as-written member | corrected member |
|---|---|---|---|---|---|---|
| drivers/net/hamradio/eoax.c:227-264 | the Ethernet header pointer is taken before `skb_cow`, then read for the destination and protocol after it | an unshared buffer with too little headroom, so `skb_cow` reallocates the head and frees the old one; a unicast frame to 02:00:00:00:00:01 whose freed memory now holds a broadcast ARP header (destination FF:FF:FF:FF:FF:FF, type 0x0806) is sent to the AX.25 broadcast address as ARP | read the header after `skb_cow`, so the live destination and protocol are used | medium, not executed | Frames.XmitAsWritten, Frames.StaleHeaderMisroutes | Frames.Xmit |
