/**
 The pairing registry: the driver's list of `struct eoaxdev` records, each
 pairing an AX.25 device with the eoax Ethernet device built on it. New
 pairs are linked at the head; lookups walk from the head and stop at the
 first match.
 */
module Registry {
  import opened Common

  /** One `struct eoaxdev`: the AX.25 device and its eoax Ethernet device. */
  datatype Pair = Pair(axdev: DevId, ethdev: DevId)

  /** Which end of a pair a uniqueness statement is about. */
  datatype Side = AxSide | EthSide

  function Key(p: Pair, side: Side): DevId
  {
    match side
    case AxSide => p.axdev
    case EthSide => p.ethdev
  }

  /** No two entries share the device on `side`. */
  predicate Unique(reg: seq<Pair>, side: Side)
  {
    forall i, j | 0 <= i < j < |reg| :: Key(reg[i], side) != Key(reg[j], side)
  }

  /** Some entry has `d` on `side`. */
  predicate Has(reg: seq<Pair>, side: Side, d: DevId)
  {
    exists i | 0 <= i < |reg| :: Key(reg[i], side) == d
  }

  /**
   `eoax_get_ether_dev`: walk the list from the head and return the eoax
   device of the first pair whose AX.25 device is `d`, or NULL.
   */
  function GetEtherDev(reg: seq<Pair>, d: DevId): (r: Option<DevId>)
    ensures r.None? <==> !Has(reg, AxSide, d)
    ensures r.Some? ==> exists i | 0 <= i < |reg| ::
                          && reg[i] == Pair(d, r.value)
                          && forall j | 0 <= j < i :: reg[j].axdev != d
  {
    if |reg| == 0 then None
    else if reg[0].axdev == d then
      assert Key(reg[0], AxSide) == d;
      Some(reg[0].ethdev)
    else
      var r := GetEtherDev(reg[1..], d);
      assert Has(reg, AxSide, d) ==> Has(reg[1..], AxSide, d) by {
        if Has(reg, AxSide, d) {
          var i :| 0 <= i < |reg| && Key(reg[i], AxSide) == d;
          assert Key(reg[1..][i - 1], AxSide) == d;
        }
      }
      assert Has(reg[1..], AxSide, d) ==> Has(reg, AxSide, d) by {
        if Has(reg[1..], AxSide, d) {
          var i :| 0 <= i < |reg[1..]| && Key(reg[1..][i], AxSide) == d;
          assert Key(reg[i + 1], AxSide) == d;
        }
      }
      assert r.Some? ==> exists i | 0 <= i < |reg| ::
                           && reg[i] == Pair(d, r.value)
                           && forall j | 0 <= j < i :: reg[j].axdev != d by {
        if r.Some? {
          var i :| 0 <= i < |reg[1..]| && reg[1..][i] == Pair(d, r.value)
                   && forall j | 0 <= j < i :: reg[1..][j].axdev != d;
          assert reg[i + 1] == Pair(d, r.value);
          assert forall j | 0 <= j < i + 1 :: reg[j].axdev != d by {
            forall j | 0 <= j < i + 1
              ensures reg[j].axdev != d
            {
              if j > 0 {
                assert reg[j] == reg[1..][j - 1];
              }
            }
          }
        }
      }
      r
  }

  /** Index of the first pair whose Ethernet device is `n`. */
  function FirstEth(reg: seq<Pair>, n: DevId): (r: Option<nat>)
    ensures r.None? <==> !Has(reg, EthSide, n)
    ensures r.Some? ==> r.value < |reg| && reg[r.value].ethdev == n
    ensures r.Some? ==> forall j | 0 <= j < r.value :: reg[j].ethdev != n
  {
    if |reg| == 0 then None
    else if reg[0].ethdev == n then
      assert Key(reg[0], EthSide) == n;
      Some(0)
    else
      var r := FirstEth(reg[1..], n);
      assert Has(reg, EthSide, n) ==> Has(reg[1..], EthSide, n) by {
        if Has(reg, EthSide, n) {
          var i :| 0 <= i < |reg| && Key(reg[i], EthSide) == n;
          assert Key(reg[1..][i - 1], EthSide) == n;
        }
      }
      if r.None? then None
      else
        assert Key(reg[r.value + 1], EthSide) == n;
        assert forall j | 0 < j < r.value + 1 :: reg[j] == reg[1..][j - 1];
        Some(r.value + 1)
  }

  /**
   `list_del_rcu` of the node that is the private block of eoax device
   `n`: the first pair whose Ethernet device is `n` is unlinked and the
   order of the others is kept; without such a pair the list is unchanged.
   */
  function RemoveEth(reg: seq<Pair>, n: DevId): (r: seq<Pair>)
    ensures !Has(reg, EthSide, n) ==> r == reg
    ensures forall i | 0 <= i < |reg| && reg[i].ethdev == n && (forall j | 0 <= j < i :: reg[j].ethdev != n) ::
              r == reg[..i] + reg[i + 1..]
  {
    match FirstEth(reg, n)
    case None => reg
    case Some(i) =>
      assert forall k | 0 <= k < |reg| && reg[k].ethdev == n && (forall j | 0 <= j < k :: reg[j].ethdev != n) :: k == i;
      reg[..i] + reg[i + 1..]
  }

  /** Number of pairs over AX.25 device `d`. */
  function Count(reg: seq<Pair>, d: DevId): nat
  {
    if |reg| == 0 then 0
    else (if reg[0].axdev == d then 1 else 0) + Count(reg[1..], d)
  }

  /** Counting distributes over concatenation. */
  lemma {:induction false} CountConcat(a: seq<Pair>, b: seq<Pair>, d: DevId)
    ensures Count(a + b, d) == Count(a, d) + Count(b, d)
  {
    if |a| == 0 {
      assert a + b == b;
    } else {
      assert (a + b)[1..] == a[1..] + b;
      CountConcat(a[1..], b, d);
    }
  }

  /** The number of pairs over `d` is zero exactly when no pair is over `d`. */
  lemma {:induction false} CountZeroIffAbsent(reg: seq<Pair>, d: DevId)
    ensures Count(reg, d) == 0 <==> !Has(reg, AxSide, d)
  {
    if |reg| > 0 {
      CountZeroIffAbsent(reg[1..], d);
      if Has(reg[1..], AxSide, d) {
        var i :| 0 <= i < |reg[1..]| && Key(reg[1..][i], AxSide) == d;
        assert Key(reg[i + 1], AxSide) == d;
      }
      if Has(reg, AxSide, d) && reg[0].axdev != d {
        var i :| 0 <= i < |reg| && Key(reg[i], AxSide) == d;
        assert Key(reg[1..][i - 1], AxSide) == d;
      }
    }
  }

  /** Unlinking the entry at index `i` lowers the count of its AX.25
      device by one and leaves every other count alone. */
  lemma CountRemoveAt(reg: seq<Pair>, i: nat, d: DevId)
    requires i < |reg|
    ensures Count(reg[..i] + reg[i + 1..], d) + (if reg[i].axdev == d then 1 else 0) == Count(reg, d)
  {
    assert reg == reg[..i] + ([reg[i]] + reg[i + 1..]);
    CountConcat(reg[..i], [reg[i]] + reg[i + 1..], d);
    CountConcat(reg[..i], reg[i + 1..], d);
    assert ([reg[i]] + reg[i + 1..])[1..] == reg[i + 1..];
  }

  /** Unlinking one entry keeps every uniqueness property. */
  lemma RemoveAtKeepsUnique(reg: seq<Pair>, i: nat, side: Side)
    requires i < |reg|
    requires Unique(reg, side)
    ensures Unique(reg[..i] + reg[i + 1..], side)
  {
    var r := reg[..i] + reg[i + 1..];
    forall a, b | 0 <= a < b < |r|
      ensures Key(r[a], side) != Key(r[b], side)
    {
      var a' := if a < i then a else a + 1;
      var b' := if b < i then b else b + 1;
      assert r[a] == reg[a'] && r[b] == reg[b'];
    }
  }

  /** After unlinking the entry at `i`, an entry is present exactly when it
      was present at another index. */
  lemma RemoveAtMembers(reg: seq<Pair>, i: nat, p: Pair)
    requires i < |reg|
    ensures p in reg[..i] + reg[i + 1..] <==> exists k | 0 <= k < |reg| && k != i :: reg[k] == p
  {
    var r := reg[..i] + reg[i + 1..];
    if p in r {
      var a :| 0 <= a < |r| && r[a] == p;
      var a' := if a < i then a else a + 1;
      assert reg[a'] == p;
    }
    if exists k | 0 <= k < |reg| && k != i :: reg[k] == p {
      var k :| 0 <= k < |reg| && k != i && reg[k] == p;
      var k' := if k < i then k else k - 1;
      assert r[k'] == p;
    }
  }

  /** With unique AX.25 devices, the lookup finds the one pair over `d`. */
  lemma LookupFindsUniquePair(reg: seq<Pair>, i: nat)
    requires i < |reg|
    requires Unique(reg, AxSide)
    ensures GetEtherDev(reg, reg[i].axdev) == Some(reg[i].ethdev)
  {
    var r := GetEtherDev(reg, reg[i].axdev);
    assert Key(reg[i], AxSide) == reg[i].axdev;
    var k :| 0 <= k < |reg| && reg[k] == Pair(reg[i].axdev, r.value)
             && forall j | 0 <= j < k :: reg[j].axdev != reg[i].axdev;
    if k != i {
      if k < i {
        assert Key(reg[k], AxSide) == Key(reg[i], AxSide);
      }
    }
  }
}
