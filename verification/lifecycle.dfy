/**
 The lifecycle controller: the netdevice notifier that creates an eoax
 Ethernet device when an AX.25 device comes up, closes it when the AX.25
 device goes down and destroys it when the AX.25 device is unregistered,
 plus the drain loop run when the module is unloaded.

 The abstract state holds the registry, the eoax devices that exist (each
 with its private block, the `struct eoaxdev` the registry links), the
 references (`dev_hold`) the driver holds on AX.25 devices, and the
 identity the next `alloc_netdev` will hand out.
 */
module Lifecycle {
  import opened Common
  import opened Address
  import opened Registry

  const ARPHRD_AX25: nat := 3
  const NETDEV_UP: nat := 0x0001
  const NETDEV_DOWN: nat := 0x0002
  const NETDEV_UNREGISTER: nat := 0x0006
  const ENOMEM: int := 12

  /** The AX.25 device a notifier event is about, as the handler sees it. */
  datatype Ax25Dev = Ax25Dev(id: DevId, inInitNet: bool, devType: nat, mtu: u32, devAddr: Ax25Addr)

  /** An eoax Ethernet device: its private block, MTU, MAC and whether the
      interface is running (`netif_running`). */
  datatype EthDev = EthDev(priv: Pair, mtu: u32, devAddr: MacAddr, running: bool)

  datatype State = State(
    registry: seq<Pair>,
    eth: map<DevId, EthDev>,
    holds: map<DevId, nat>,
    nextEth: DevId)

  /** What `alloc_netdev` and `register_netdevice` do; the kernel decides. */
  datatype Alloc = NoMemory | Allocated(registerErr: int)

  /** The state after module load: no pairs, no eoax devices. */
  const Init: State := State([], map[], map[], 0)

  /** References the driver holds on AX.25 device `d`. */
  function Hold(st: State, d: DevId): nat
  {
    if d in st.holds then st.holds[d] else 0
  }

  /** `netif_running` of eoax device `n`. */
  predicate IsRunning(st: State, n: DevId)
  {
    n in st.eth && st.eth[n].running
  }

  /** Every registry entry is the private block of an existing eoax device. */
  ghost predicate LinksPrivates(st: State)
  {
    forall i | 0 <= i < |st.registry| ::
      st.registry[i].ethdev in st.eth && st.eth[st.registry[i].ethdev].priv == st.registry[i]
  }

  /** Every existing eoax device has its private block linked. */
  ghost predicate PrivatesLinked(st: State)
  {
    forall n | n in st.eth :: st.eth[n].priv.ethdev == n && st.eth[n].priv in st.registry
  }

  /** Identities of existing eoax devices were handed out already. */
  ghost predicate IdsIssued(st: State)
  {
    forall n | n in st.eth :: n < st.nextEth
  }

  /** The driver holds one reference on an AX.25 device per pair over it. */
  ghost predicate HoldsMatch(st: State)
  {
    forall d :: Hold(st, d) == Count(st.registry, d)
  }

  /**
   The consistency the driver keeps: at most one pair per AX.25 device and
   per eoax device, the registry links exactly the private blocks of the
   existing eoax devices, and the references held match the pairs.
   */
  ghost predicate Inv(st: State)
  {
    && Unique(st.registry, AxSide)
    && Unique(st.registry, EthSide)
    && LinksPrivates(st)
    && PrivatesLinked(st)
    && IdsIssued(st)
    && HoldsMatch(st)
  }

  lemma InitInv()
    ensures Inv(Init)
  {
  }

  /**
   `eoax_get_ax25_dev`: the AX.25 device recorded in the private block of
   eoax device `n`, read directly without a scan.
   */
  function GetAx25Dev(st: State, n: DevId): (r: Option<DevId>)
    ensures Inv(st) ==> (r.None? <==> !Has(st.registry, EthSide, n))
    ensures Inv(st) && r.Some? ==> GetEtherDev(st.registry, r.value) == Some(n)
  {
    BackLinkFacts(st, n);
    if n in st.eth then Some(st.eth[n].priv.axdev) else None
  }

  lemma BackLinkFacts(st: State, n: DevId)
    ensures Inv(st) && n in st.eth ==> Has(st.registry, EthSide, n)
    ensures Inv(st) && n in st.eth ==> GetEtherDev(st.registry, st.eth[n].priv.axdev) == Some(n)
    ensures Inv(st) && n !in st.eth ==> !Has(st.registry, EthSide, n)
  {
    if Inv(st) && n in st.eth {
      var p := st.eth[n].priv;
      var i :| 0 <= i < |st.registry| && st.registry[i] == p;
      assert Key(st.registry[i], EthSide) == n;
      LookupFindsUniquePair(st.registry, i);
    }
    if Inv(st) && n !in st.eth {
      forall i | 0 <= i < |st.registry|
        ensures Key(st.registry[i], EthSide) != n
      {
        assert st.registry[i].ethdev in st.eth;
      }
    }
  }

  /**
   `eoax_new_device`: allocate an eoax device, take a reference on the
   AX.25 device, set the MTU to the AX.25 MTU minus the Ethernet header
   (C unsigned arithmetic) and the MAC to the translated AX.25 address,
   register it, and link its pair at the head of the registry. On an
   allocation or registration failure nothing is left behind and the
   error is returned.
   */
  function NewDevice(st: State, ax: Ax25Dev, alloc: Alloc): (r: (State, int))
    ensures r.1 == 0 <==> alloc == Allocated(0)
    ensures alloc.NoMemory? ==> r == (st, -ENOMEM)
    ensures alloc.Allocated? && alloc.registerErr != 0 ==> r == (st, alloc.registerErr)
    ensures alloc == Allocated(0) ==>
              && r.0.registry == [Pair(ax.id, st.nextEth)] + st.registry
              && r.0.eth.Keys == st.eth.Keys + {st.nextEth}
              && (forall e | e in st.eth && e != st.nextEth :: r.0.eth[e] == st.eth[e])
              && r.0.eth[st.nextEth].priv == Pair(ax.id, st.nextEth)
              && (ax.mtu >= ETH_HLEN ==> r.0.eth[st.nextEth].mtu == ax.mtu - ETH_HLEN)
              && (ax.mtu < ETH_HLEN ==> r.0.eth[st.nextEth].mtu == ax.mtu - ETH_HLEN + 0x1_0000_0000)
              && r.0.eth[st.nextEth].devAddr == Ax25AddressToEth(ax.devAddr)
              && !r.0.eth[st.nextEth].running
              && Hold(r.0, ax.id) == Hold(st, ax.id) + 1
              && (forall d | d != ax.id :: Hold(r.0, d) == Hold(st, d))
    ensures Inv(st) && !Has(st.registry, AxSide, ax.id) ==> Inv(r.0)
  {
    match alloc
    case NoMemory => (st, -ENOMEM)
    case Allocated(err) =>
      if err != 0 then (st, err)
      else
        var n := st.nextEth;
        var p := Pair(ax.id, n);
        var dev := EthDev(p, SubU32(ax.mtu, ETH_HLEN), Ax25AddressToEth(ax.devAddr), false);
        var st' := State([p] + st.registry, st.eth[n := dev], st.holds[ax.id := Hold(st, ax.id) + 1], n + 1);
        NewDeviceKeepsInv(st, ax, st');
        (st', 0)
  }

  lemma NewDeviceKeepsInv(st: State, ax: Ax25Dev, st': State)
    requires st'.registry == [Pair(ax.id, st.nextEth)] + st.registry
    requires st'.eth.Keys == st.eth.Keys + {st.nextEth}
    requires forall e | e in st.eth && e != st.nextEth :: st'.eth[e] == st.eth[e]
    requires st'.eth[st.nextEth].priv == Pair(ax.id, st.nextEth)
    requires Hold(st', ax.id) == Hold(st, ax.id) + 1
    requires forall d | d != ax.id :: Hold(st', d) == Hold(st, d)
    requires st'.nextEth == st.nextEth + 1
    ensures Inv(st) && !Has(st.registry, AxSide, ax.id) ==> Inv(st')
  {
    if Inv(st) && !Has(st.registry, AxSide, ax.id) {
      assert st.nextEth !in st.eth;
      PrependKeepsUnique(st, ax.id, st'.registry);
      PrependKeepsLinks(st, st');
      PrependKeepsHolds(st, ax.id, st');
    }
  }

  lemma PrependKeepsUnique(st: State, d: DevId, reg': seq<Pair>)
    requires Inv(st) && !Has(st.registry, AxSide, d)
    requires reg' == [Pair(d, st.nextEth)] + st.registry
    ensures Unique(reg', AxSide) && Unique(reg', EthSide)
  {
    var reg := st.registry;
    forall i, j | 0 <= i < j < |reg'|
      ensures Key(reg'[i], AxSide) != Key(reg'[j], AxSide)
      ensures Key(reg'[i], EthSide) != Key(reg'[j], EthSide)
    {
      assert reg'[j] == reg[j - 1];
      if i == 0 {
        assert Key(reg[j - 1], AxSide) != d;
        assert reg[j - 1].ethdev in st.eth;
      } else {
        assert reg'[i] == reg[i - 1];
      }
    }
  }

  lemma PrependKeepsLinks(st: State, st': State)
    requires LinksPrivates(st) && PrivatesLinked(st) && IdsIssued(st)
    requires |st'.registry| > 0 && st'.registry[1..] == st.registry
    requires st'.eth.Keys == st.eth.Keys + {st.nextEth}
    requires forall e | e in st.eth && e != st.nextEth :: st'.eth[e] == st.eth[e]
    requires st'.eth[st.nextEth].priv == st'.registry[0] && st'.registry[0].ethdev == st.nextEth
    requires st'.nextEth == st.nextEth + 1
    ensures LinksPrivates(st') && PrivatesLinked(st') && IdsIssued(st')
  {
    var reg, reg' := st.registry, st'.registry;
    assert st.nextEth !in st.eth;
    forall i | 0 <= i < |reg'|
      ensures reg'[i].ethdev in st'.eth && st'.eth[reg'[i].ethdev].priv == reg'[i]
    {
      if i > 0 {
        assert reg'[i] == reg[i - 1];
        assert reg[i - 1].ethdev in st.eth;
      }
    }
    forall m | m in st'.eth
      ensures st'.eth[m].priv.ethdev == m && st'.eth[m].priv in reg'
    {
      if m != st.nextEth {
        assert st.eth[m].priv in reg;
      }
    }
  }

  lemma PrependKeepsHolds(st: State, d0: DevId, st': State)
    requires HoldsMatch(st)
    requires |st'.registry| > 0 && st'.registry[1..] == st.registry && st'.registry[0].axdev == d0
    requires Hold(st', d0) == Hold(st, d0) + 1
    requires forall d | d != d0 :: Hold(st', d) == Hold(st, d)
    ensures HoldsMatch(st')
  {
    forall d
      ensures Hold(st', d) == Count(st'.registry, d)
    {
      assert Hold(st, d) == Count(st.registry, d);
    }
  }

  /**
   `eoax_free_device`: drop the reference on the AX.25 device, unlink the
   pair from the registry and unregister (and so free) the eoax device.
   The caller passes an eoax device that exists.
   */
  function FreeDevice(st: State, n: DevId): (r: State)
    requires Inv(st) && n in st.eth
    ensures Inv(r)
    ensures r.eth == st.eth - {n}
    ensures |r.registry| == |st.registry| - 1
    ensures !Has(r.registry, AxSide, st.eth[n].priv.axdev)
    ensures !Has(r.registry, EthSide, n)
    ensures Hold(r, st.eth[n].priv.axdev) + 1 == Hold(st, st.eth[n].priv.axdev)
    ensures forall d | d != st.eth[n].priv.axdev :: Hold(r, d) == Hold(st, d)
    ensures forall p :: p in r.registry <==> p in st.registry && p != st.eth[n].priv
    ensures r.registry == RemoveEth(st.registry, n)
    ensures r.nextEth == st.nextEth
  {
    var p := st.eth[n].priv;
    var i := PairIndex(st, n);
    CountZeroIffAbsent(st.registry, p.axdev);
    var r := State(RemoveEth(st.registry, n), st.eth - {n}, st.holds[p.axdev := Hold(st, p.axdev) - 1], st.nextEth);
    FreeDeviceFacts(st, n, i, r);
    r
  }

  /** Where the private block of eoax device `n` sits in the registry. */
  function PairIndex(st: State, n: DevId): (i: nat)
    requires Inv(st) && n in st.eth
    ensures i < |st.registry| && st.registry[i] == st.eth[n].priv
    ensures Has(st.registry, AxSide, st.eth[n].priv.axdev)
    ensures RemoveEth(st.registry, n) == st.registry[..i] + st.registry[i + 1..]
  {
    var i := FirstEth(st.registry, n).value;
    PairIndexFacts(st, n, i);
    i
  }

  lemma PairIndexFacts(st: State, n: DevId, i: nat)
    requires Inv(st) && n in st.eth
    requires FirstEth(st.registry, n) == Some(i)
    ensures i < |st.registry| && st.registry[i] == st.eth[n].priv
    ensures Has(st.registry, AxSide, st.eth[n].priv.axdev)
  {
    var k :| 0 <= k < |st.registry| && st.registry[k] == st.eth[n].priv;
    assert Key(st.registry[k], EthSide) == Key(st.registry[i], EthSide);
    assert k == i;
    assert Key(st.registry[i], AxSide) == st.eth[n].priv.axdev;
  }

  lemma FreeDeviceFacts(st: State, n: DevId, i: nat, r: State)
    requires Inv(st) && n in st.eth
    requires i < |st.registry| && st.registry[i] == st.eth[n].priv
    requires Hold(st, st.registry[i].axdev) >= 1
    requires r == State(st.registry[..i] + st.registry[i + 1..], st.eth - {n},
                        st.holds[st.registry[i].axdev := Hold(st, st.registry[i].axdev) - 1], st.nextEth)
    ensures Inv(r)
    ensures !Has(r.registry, AxSide, st.registry[i].axdev)
    ensures !Has(r.registry, EthSide, n)
    ensures Hold(r, st.registry[i].axdev) + 1 == Hold(st, st.registry[i].axdev)
    ensures forall d | d != st.registry[i].axdev :: Hold(r, d) == Hold(st, d)
    ensures forall p :: p in r.registry <==> p in st.registry && p != st.registry[i]
  {
    RemoveAtKeepsUnique(st.registry, i, AxSide);
    RemoveOnlyThatPair(st.registry, i);
    RemoveAtKeepsUnique(st.registry, i, EthSide);
    RemoveDropsKeys(st.registry, i);
    RemoveKeepsLinks(st, n, i, r);
    RemoveKeepsHolds(st, i, r);
  }

  /** With unique Ethernet keys, unlinking entry `i` removes exactly the
      pair stored there. */
  lemma RemoveOnlyThatPair(reg: seq<Pair>, i: nat)
    requires i < |reg| && Unique(reg, EthSide)
    ensures forall p :: p in reg[..i] + reg[i + 1..] <==> p in reg && p != reg[i]
  {
    forall p
      ensures p in reg[..i] + reg[i + 1..] <==> p in reg && p != reg[i]
    {
      RemoveAtMembers(reg, i, p);
      forall k | 0 <= k < |reg| && k != i
        ensures reg[k] != reg[i]
      {
        if k < i {
          assert Key(reg[k], EthSide) != Key(reg[i], EthSide);
        } else {
          assert Key(reg[i], EthSide) != Key(reg[k], EthSide);
        }
      }
    }
  }

  /** With unique keys, unlinking entry `i` leaves no entry with its keys. */
  lemma RemoveDropsKeys(reg: seq<Pair>, i: nat)
    requires i < |reg| && Unique(reg, AxSide) && Unique(reg, EthSide)
    ensures !Has(reg[..i] + reg[i + 1..], AxSide, reg[i].axdev)
    ensures !Has(reg[..i] + reg[i + 1..], EthSide, reg[i].ethdev)
  {
    var reg' := reg[..i] + reg[i + 1..];
    forall k | 0 <= k < |reg'|
      ensures Key(reg'[k], AxSide) != reg[i].axdev && Key(reg'[k], EthSide) != reg[i].ethdev
    {
      var k' := if k < i then k else k + 1;
      assert reg'[k] == reg[k'];
      assert Key(reg[k'], AxSide) != Key(reg[i], AxSide);
      assert Key(reg[k'], EthSide) != Key(reg[i], EthSide);
    }
  }

  lemma RemoveKeepsLinks(st: State, n: DevId, i: nat, r: State)
    requires Unique(st.registry, EthSide) && LinksPrivates(st) && PrivatesLinked(st) && IdsIssued(st)
    requires n in st.eth
    requires i < |st.registry| && st.registry[i] == st.eth[n].priv
    requires r.registry == st.registry[..i] + st.registry[i + 1..]
    requires r.eth == st.eth - {n} && r.nextEth == st.nextEth
    ensures LinksPrivates(r) && PrivatesLinked(r) && IdsIssued(r)
  {
    var reg, reg' := st.registry, r.registry;
    forall k | 0 <= k < |reg'|
      ensures reg'[k].ethdev in r.eth && r.eth[reg'[k].ethdev].priv == reg'[k]
    {
      var k' := if k < i then k else k + 1;
      assert reg'[k] == reg[k'];
      assert reg[k'].ethdev in st.eth;
      assert Key(reg[k'], EthSide) != Key(reg[i], EthSide);
    }
    forall m | m in r.eth
      ensures r.eth[m].priv.ethdev == m && r.eth[m].priv in reg'
    {
      var q := st.eth[m].priv;
      var k :| 0 <= k < |reg| && reg[k] == q;
      assert Key(reg[k], EthSide) == m;
      assert k != i;
      RemoveAtMembers(reg, i, q);
    }
  }

  lemma RemoveKeepsHolds(st: State, i: nat, r: State)
    requires HoldsMatch(st)
    requires i < |st.registry| && Hold(st, st.registry[i].axdev) >= 1
    requires r.registry == st.registry[..i] + st.registry[i + 1..]
    requires r.holds == st.holds[st.registry[i].axdev := Hold(st, st.registry[i].axdev) - 1]
    ensures HoldsMatch(r)
  {
    forall d
      ensures Hold(r, d) == Count(r.registry, d)
    {
      CountRemoveAt(st.registry, i, d);
      assert Hold(st, d) == Count(st.registry, d);
    }
  }

  /** `dev_close` of eoax device `n`: it stops running. */
  function DevClose(st: State, n: DevId): (r: State)
    ensures r.registry == st.registry && r.holds == st.holds && r.nextEth == st.nextEth
    ensures r.eth.Keys == st.eth.Keys && !IsRunning(r, n)
    ensures forall e | e in st.eth && e != n :: r.eth[e] == st.eth[e]
    ensures n in st.eth ==> r.eth[n] == st.eth[n].(running := false)
  {
    if n in st.eth then st.(eth := st.eth[n := st.eth[n].(running := false)]) else st
  }

  /** `dev_open` of eoax device `n`, which ends in `eoax_open`: it runs. */
  function DevOpen(st: State, n: DevId): (r: State)
    ensures r.registry == st.registry && r.holds == st.holds && r.nextEth == st.nextEth
    ensures r.eth.Keys == st.eth.Keys && (IsRunning(r, n) <==> n in st.eth)
    ensures forall e | e in st.eth && e != n :: r.eth[e] == st.eth[e]
    ensures n in st.eth ==> r.eth[n] == st.eth[n].(running := true)
  {
    if n in st.eth then st.(eth := st.eth[n := st.eth[n].(running := true)]) else st
  }

  lemma CloseOpenKeepInv(st: State, n: DevId)
    requires Inv(st)
    ensures Inv(DevClose(st, n)) && Inv(DevOpen(st, n))
  {
    var c, o := DevClose(st, n), DevOpen(st, n);
    assert forall d :: Hold(c, d) == Hold(st, d) && Hold(o, d) == Hold(st, d);
    forall m | m in c.eth
      ensures c.eth[m].priv == st.eth[m].priv && o.eth[m].priv == st.eth[m].priv
    {
    }
  }

  /** The event-independent filter of `eoax_device_event`. */
  predicate Handled(dev: Ax25Dev)
  {
    dev.inInitNet && dev.devType == ARPHRD_AX25
  }

  /**
   What NETDEV_UP does to the state: when the AX.25 device is already
   paired or the creation fails, nothing changes; otherwise a fresh eoax
   device (MTU and MAC derived from the AX.25 device, not running) is
   paired with it at the head of the registry and the driver takes one
   reference on it, and nothing else changes.
   */
  ghost predicate UpEffect(st: State, dev: Ax25Dev, alloc: Alloc, r: State)
  {
    && (Has(r.registry, AxSide, dev.id) <==> Has(st.registry, AxSide, dev.id) || alloc == Allocated(0))
    && (Has(st.registry, AxSide, dev.id) || alloc != Allocated(0) ==> r == st)
    && (!Has(st.registry, AxSide, dev.id) && alloc == Allocated(0) ==>
          && r.registry == [Pair(dev.id, st.nextEth)] + st.registry
          && st.nextEth !in st.eth
          && r.eth == st.eth[st.nextEth := EthDev(Pair(dev.id, st.nextEth), SubU32(dev.mtu, ETH_HLEN),
                                                  Ax25AddressToEth(dev.devAddr), false)]
          && Hold(r, dev.id) == 1
          && (forall d | d != dev.id :: Hold(r, d) == Hold(st, d))
          && r.nextEth == st.nextEth + 1)
  }

  /**
   What NETDEV_DOWN does to the state: exactly the eoax devices paired
   with AX.25 device `d` stop running; nothing else changes.
   */
  ghost predicate DownEffect(st: State, d: DevId, r: State)
  {
    && r.registry == st.registry && r.holds == st.holds && r.nextEth == st.nextEth
    && r.eth.Keys == st.eth.Keys
    && (forall e | e in st.eth ::
          r.eth[e] == if st.eth[e].priv.axdev == d then st.eth[e].(running := false) else st.eth[e])
  }

  /**
   What NETDEV_UNREGISTER does to the state: the pairs over AX.25 device
   `d` and their eoax devices are gone, no reference is held on `d`, and
   every other pair, eoax device and reference count is as it was; the
   remaining pairs keep their order in the registry.
   */
  ghost predicate UnregisterEffect(st: State, d: DevId, r: State)
  {
    && !Has(r.registry, AxSide, d)
    && (forall p :: p in r.registry <==> p in st.registry && p.axdev != d)
    && r.eth == (map e | e in st.eth && st.eth[e].priv.axdev != d :: st.eth[e])
    && Hold(r, d) == 0
    && (forall d' | d' != d :: Hold(r, d') == Hold(st, d'))
    && r.registry == (match GetEtherDev(st.registry, d)
                      case None => st.registry
                      case Some(e) => RemoveEth(st.registry, e))
    && r.nextEth == st.nextEth
  }

  /** The NETDEV_UP arm: create a pair unless the lookup finds one. */
  function OnUp(st: State, dev: Ax25Dev, alloc: Alloc): (r: State)
    requires Inv(st)
    ensures Inv(r)
    ensures UpEffect(st, dev, alloc, r)
  {
    if GetEtherDev(st.registry, dev.id).None? then
      var r := NewDevice(st, dev, alloc).0;
      CountZeroIffAbsent(st.registry, dev.id);
      assert Has(st.registry, AxSide, dev.id) || alloc != Allocated(0) ==> r == st;
      assert !Has(st.registry, AxSide, dev.id) && alloc == Allocated(0) ==> st.nextEth !in st.eth;
      r
    else st
  }

  /** The NETDEV_DOWN arm: close the paired eoax device, if any. */
  function OnDown(st: State, d: DevId): (r: State)
    requires Inv(st)
    ensures Inv(r)
    ensures DownEffect(st, d, r)
  {
    match GetEtherDev(st.registry, d)
    case None =>
      AbsentHasNoEthDev(st, d);
      st
    case Some(e) =>
      PairedEthDev(st, d, e);
      CloseOpenKeepInv(st, e);
      DevClose(st, e)
  }

  /** The NETDEV_UNREGISTER arm: free the paired eoax device, if any. */
  function OnUnregister(st: State, d: DevId): (r: State)
    requires Inv(st)
    ensures Inv(r)
    ensures UnregisterEffect(st, d, r)
  {
    match GetEtherDev(st.registry, d)
    case None =>
      UnpairedUnregister(st, d);
      st
    case Some(e) =>
      PairedEthDev(st, d, e);
      var r := FreeDevice(st, e);
      CountZeroIffAbsent(r.registry, d);
      FreedEthDevs(st, d, e, r.eth);
      FreedPairs(st, d, e, r.registry);
      r
  }

  /** UNREGISTER of an unpaired AX.25 device changes nothing. */
  lemma UnpairedUnregister(st: State, d: DevId)
    requires Inv(st) && GetEtherDev(st.registry, d).None?
    ensures UnregisterEffect(st, d, st)
  {
    AbsentHasNoEthDev(st, d);
    CountZeroIffAbsent(st.registry, d);
    forall p | p in st.registry
      ensures p.axdev != d
    {
      var i :| 0 <= i < |st.registry| && st.registry[i] == p;
      assert Key(st.registry[i], AxSide) != d;
    }
  }

  /** Removing the one eoax device over `d` keeps exactly the eoax devices
      over other AX.25 devices. */
  lemma FreedEthDevs(st: State, d: DevId, e: DevId, eth: map<DevId, EthDev>)
    requires e in st.eth
    requires forall m | m in st.eth :: (st.eth[m].priv.axdev == d <==> m == e)
    requires eth == st.eth - {e}
    ensures eth == (map m | m in st.eth && st.eth[m].priv.axdev != d :: st.eth[m])
  {
  }

  /** Unlinking the one pair over `d` keeps exactly the pairs over other
      AX.25 devices. */
  lemma FreedPairs(st: State, d: DevId, e: DevId, reg: seq<Pair>)
    requires Inv(st) && e in st.eth && st.eth[e].priv == Pair(d, e)
    requires forall m | m in st.eth :: (st.eth[m].priv.axdev == d <==> m == e)
    requires forall p :: p in reg <==> p in st.registry && p != st.eth[e].priv
    ensures forall p :: p in reg <==> p in st.registry && p.axdev != d
  {
    forall p | p in st.registry && p.axdev == d
      ensures p == Pair(d, e)
    {
      var i :| 0 <= i < |st.registry| && st.registry[i] == p;
      assert p.ethdev in st.eth && st.eth[p.ethdev].priv == p;
    }
  }

  /**
   `eoax_device_event`: ignore devices outside the initial namespace and
   devices that are not AX.25; on NETDEV_UP create a pair unless one
   exists; on NETDEV_DOWN close the paired eoax device; on
   NETDEV_UNREGISTER free it; ignore every other event. The error of
   `eoax_new_device` is not propagated.
   */
  function DeviceEvent(st: State, event: nat, dev: Ax25Dev, alloc: Alloc): (r: State)
    requires Inv(st)
    ensures Inv(r)
    ensures !Handled(dev) || event !in {NETDEV_UP, NETDEV_DOWN, NETDEV_UNREGISTER} ==> r == st
    ensures Handled(dev) && event == NETDEV_UP ==> UpEffect(st, dev, alloc, r)
    ensures Handled(dev) && event == NETDEV_DOWN ==> DownEffect(st, dev.id, r)
    ensures Handled(dev) && event == NETDEV_UNREGISTER ==> UnregisterEffect(st, dev.id, r)
  {
    if !Handled(dev) then st
    else if event == NETDEV_UP then OnUp(st, dev, alloc)
    else if event == NETDEV_DOWN then OnDown(st, dev.id)
    else if event == NETDEV_UNREGISTER then OnUnregister(st, dev.id)
    else st
  }

  /** Without a pair over `d`, no eoax device records `d`. */
  lemma AbsentHasNoEthDev(st: State, d: DevId)
    requires Inv(st) && !Has(st.registry, AxSide, d)
    ensures forall e | e in st.eth :: st.eth[e].priv.axdev != d
  {
    forall e | e in st.eth
      ensures st.eth[e].priv.axdev != d
    {
      var i :| 0 <= i < |st.registry| && st.registry[i] == st.eth[e].priv;
      assert Key(st.registry[i], AxSide) != d;
    }
  }

  /** The eoax device the lookup finds for `d` exists, records `d`, and is
      the only eoax device that does. */
  lemma PairedEthDev(st: State, d: DevId, e: DevId)
    requires Inv(st) && GetEtherDev(st.registry, d) == Some(e)
    ensures e in st.eth && st.eth[e].priv == Pair(d, e)
    ensures forall m | m in st.eth :: (st.eth[m].priv.axdev == d <==> m == e)
  {
    var i :| 0 <= i < |st.registry| && st.registry[i] == Pair(d, e)
             && forall j | 0 <= j < i :: st.registry[j].axdev != d;
    forall m | m in st.eth
      ensures st.eth[m].priv.axdev == d <==> m == e
    {
      var k :| 0 <= k < |st.registry| && st.registry[k] == st.eth[m].priv;
      if st.eth[m].priv.axdev == d {
        assert Key(st.registry[k], AxSide) == Key(st.registry[i], AxSide);
        assert k == i;
      }
    }
  }

  /** One input to the driver: a notifier event, or the networking core
      opening or closing an eoax interface on an administrator's request. */
  datatype Input =
    | Notify(event: nat, dev: Ax25Dev, alloc: Alloc)
    | Open(n: DevId)
    | Close(n: DevId)

  function Step(st: State, input: Input): (r: State)
    requires Inv(st)
    ensures Inv(r)
  {
    match input
    case Notify(event, dev, alloc) => DeviceEvent(st, event, dev, alloc)
    case Open(n) =>
      CloseOpenKeepInv(st, n);
      DevOpen(st, n)
    case Close(n) =>
      CloseOpenKeepInv(st, n);
      DevClose(st, n)
  }

  /** The state after a sequence of inputs; every reachable state keeps the
      invariant, so no sequence of events ever yields two pairs over one
      AX.25 device. */
  function Run(st: State, inputs: seq<Input>): (r: State)
    requires Inv(st)
    ensures Inv(r)
    decreases |inputs|
  {
    if |inputs| == 0 then st else Run(Step(st, inputs[0]), inputs[1..])
  }

  /** From module load, every input sequence leaves at most one pair per
      AX.25 device, and one held reference per pair. */
  lemma NoTwoPairsForOneAx25Device(inputs: seq<Input>)
    ensures Unique(Run(Init, inputs).registry, AxSide)
    ensures forall d :: Hold(Run(Init, inputs), d) == Count(Run(Init, inputs).registry, d)
  {
    InitInv();
  }

  /** An input that can create a pair over `d`. */
  predicate IsUpFor(input: Input, d: DevId)
  {
    input.Notify? && input.event == NETDEV_UP && input.dev.id == d && Handled(input.dev)
  }

  /**
   Once AX.25 device `d` has no pair (after its NETDEV_UNREGISTER, say),
   lookups for it keep missing until a NETDEV_UP for `d` arrives.
   */
  lemma {:induction false} UnpairedUntilUp(st: State, inputs: seq<Input>, d: DevId)
    requires Inv(st) && !Has(st.registry, AxSide, d)
    requires forall k | 0 <= k < |inputs| :: !IsUpFor(inputs[k], d)
    ensures GetEtherDev(Run(st, inputs).registry, d) == None
    decreases |inputs|
  {
    if |inputs| > 0 {
      assert !IsUpFor(inputs[0], d);
      StepKeepsUnpaired(st, inputs[0], d);
      UnpairedUntilUp(Step(st, inputs[0]), inputs[1..], d);
    }
  }

  /** An input other than an UP for `d` does not pair `d`. */
  lemma StepKeepsUnpaired(st: State, input: Input, d: DevId)
    requires Inv(st) && !Has(st.registry, AxSide, d) && !IsUpFor(input, d)
    ensures !Has(Step(st, input).registry, AxSide, d)
  {
    var r := Step(st, input);
    forall i | 0 <= i < |r.registry|
      ensures Key(r.registry[i], AxSide) != d
    {
      if r.registry[i] in st.registry {
        var k :| 0 <= k < |st.registry| && st.registry[k] == r.registry[i];
        assert Key(st.registry[k], AxSide) != d;
      } else {
        assert r.registry == [Pair(input.dev.id, st.nextEth)] + st.registry;
        assert i == 0;
      }
    }
  }

  /**
   The drain loop of `eoax_cleanup_driver`: free the pair at the head of
   the registry until the registry is empty. Afterwards no eoax device
   exists and the driver holds no reference on any AX.25 device.
   */
  method CleanupDriver(st: State) returns (r: State)
    requires Inv(st)
    ensures r.registry == [] && r.eth == map[]
    ensures forall d :: Hold(r, d) == 0
    ensures r.nextEth == st.nextEth
  {
    r := st;
    while |r.registry| > 0
      invariant Inv(r)
      invariant r.nextEth == st.nextEth
      decreases |r.registry|
    {
      r := FreeDevice(r, r.registry[0].ethdev);
    }
    assert PrivatesLinked(r);
  }
}
