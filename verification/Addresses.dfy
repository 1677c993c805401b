/** Hardware and protocol addresses, and the host configuration set once by `net_init`. */
module Addresses {
  import opened Machine

  type Ip = s: seq<byte> | |s| == 4 witness [0, 0, 0, 0]
  type Mac = s: seq<byte> | |s| == 6 witness [0, 0, 0, 0, 0, 0]

  const EMPTY_IP: Ip := [0, 0, 0, 0]
  const BROADCAST_IP: Ip := [0xFF, 0xFF, 0xFF, 0xFF]
  const BROADCAST_MAC: Mac := [0xFF, 0xFF, 0xFF, 0xFF, 0xFF, 0xFF]
  const NO_MAC: Mac := [0, 0, 0, 0, 0, 0]

  datatype HostConfig = HostConfig(mac: Mac, ip: Ip, netmask: Ip, router: Ip)

  /** All four octets or-ed together give zero only for 0.0.0.0. */
  predicate IsEmpty(a: Ip)
    ensures IsEmpty(a) <==> a == EMPTY_IP
  {
    a[0] == 0 && a[1] == 0 && a[2] == 0 && a[3] == 0
  }

  predicate Same(a: Ip, b: Ip)
    ensures Same(a, b) <==> a == b
  {
    a[0] == b[0] && a[1] == b[1] && a[2] == b[2] && a[3] == b[3]
  }

  /** `(a & mask) == (b & mask)` on one octet. */
  predicate SameMasked(a: byte, b: byte, mask: byte)
  {
    BitsOf(a) * BitsOf(mask) == BitsOf(b) * BitsOf(mask)
  }

  ghost predicate AgreeWhereSet(a: byte, b: byte, mask: byte)
  {
    forall i: nat :: i < 8 && Bit(mask, i) ==> (Bit(a, i) <==> Bit(b, i))
  }

  /** Octets compare equal under a mask exactly when they agree on every bit the mask sets. */
  lemma SameMaskedByBits(a: byte, b: byte, mask: byte)
    ensures SameMasked(a, b, mask) <==> AgreeWhereSet(a, b, mask)
  {
    var x, y := BitsOf(a) * BitsOf(mask), BitsOf(b) * BitsOf(mask);
    assert forall i :: i in x <==> 0 <= i < 8 && Bit(mask, i) && Bit(a, i);
    assert forall i :: i in y <==> 0 <= i < 8 && Bit(mask, i) && Bit(b, i);
    if AgreeWhereSet(a, b, mask) {
      assert forall i :: i in x <==> i in y;
      assert x == y;
    } else {
      var i: nat :| i < 8 && Bit(mask, i) && !(Bit(a, i) <==> Bit(b, i));
      assert i in x <==> i !in y;
    }
  }

  predicate SameUnderMask(a: Ip, b: Ip, mask: Ip)
  {
    SameMasked(a[0], b[0], mask[0]) && SameMasked(a[1], b[1], mask[1]) &&
    SameMasked(a[2], b[2], mask[2]) && SameMasked(a[3], b[3], mask[3])
  }

  /** On octets masked with 255 or 0 the comparison is equality, or nothing. */
  lemma WholeOctetMasks(a: Ip, b: Ip, mask: Ip)
    requires forall k :: 0 <= k < 4 ==> mask[k] == 0xFF || mask[k] == 0
    ensures SameUnderMask(a, b, mask) <==> forall k :: 0 <= k < 4 && mask[k] == 0xFF ==> a[k] == b[k]
  {
    forall k | 0 <= k < 4
      ensures SameMasked(a[k], b[k], mask[k]) <==> (mask[k] == 0xFF ==> a[k] == b[k])
    {
      WholeOctetMask(a[k], b[k], mask[k]);
    }
  }

  lemma WholeOctetMask(a: byte, b: byte, mask: byte)
    requires mask == 0xFF || mask == 0
    ensures SameMasked(a, b, mask) <==> (mask == 0xFF ==> a == b)
  {
    SameMaskedByBits(a, b, mask);
    assert Power2(8) == 256 by {
      assert Power2(4) == 16;
    }
    if mask == 0xFF {
      AllOnes(mask, 8);
      if SameMasked(a, b, mask) {
        BitsDetermine(a, b, 8);
      }
    } else {
      NoOnes(8);
    }
  }

  lemma {:induction false} AllOnes(x: nat, n: nat)
    requires x == Power2(n) - 1
    ensures forall i :: 0 <= i < n ==> Bit(x, i)
  {
    if n > 0 {
      AllOnes(x / 2, n - 1);
    }
  }

  lemma {:induction false} NoOnes(n: nat)
    ensures forall i :: 0 <= i < n ==> !Bit(0, i)
  {
    if n > 0 {
      NoOnes(n - 1);
      assert forall i :: 0 < i < n ==> Bit(0, i) == Bit(0, i - 1);
    }
  }

  /** The address an IP packet is handed to: its destination on the local network, else the router. */
  function NextHop(host: HostConfig, destination: Ip): (r: Ip)
  {
    if SameUnderMask(destination, host.ip, host.netmask) then destination else host.router
  }

  /** On a network masked by whole octets: the destination if it has the host's octets there, else the router. */
  lemma NextHopByOctets(host: HostConfig, destination: Ip)
    requires forall k :: 0 <= k < 4 ==> host.netmask[k] == 0xFF || host.netmask[k] == 0
    ensures NextHop(host, destination)
         == if forall k :: 0 <= k < 4 && host.netmask[k] == 0xFF ==> destination[k] == host.ip[k] then destination
            else host.router
  {
    WholeOctetMasks(destination, host.ip, host.netmask);
  }

  /** Under any mask: the destination if it has the host's bits wherever the mask has a one, else the router. */
  lemma NextHopByBits(host: HostConfig, destination: Ip)
    ensures NextHop(host, destination)
         == if forall k :: 0 <= k < 4 ==> AgreeWhereSet(destination[k], host.ip[k], host.netmask[k]) then destination
            else host.router
  {
    forall k | 0 <= k < 4
      ensures SameMasked(destination[k], host.ip[k], host.netmask[k])
         <==> AgreeWhereSet(destination[k], host.ip[k], host.netmask[k])
    {
      SameMaskedByBits(destination[k], host.ip[k], host.netmask[k]);
    }
  }
}
