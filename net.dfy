/**
  * The parts of Go's `net` package that the notify hook relies on: `net.IP` as a
  * byte sequence, `IP.To4`, `IP.Equal` and `IPNet.Contains`. The textual parser
  * `net.ParseIP` is not modelled here; callers receive it as a parameter.
  */
module Net {
  import opened Wrappers

  type Byte = bv8

  /** An address as `net.IP` holds it: 4 bytes for IPv4, 16 bytes for IPv6
      (ParseIP always yields the 16-byte form, IPv4 included). */
  type IP = seq<Byte>

  type IPMask = seq<Byte>

  /** `net.IPNet`: a network number and its mask. */
  datatype IPNet = IPNet(ip: IP, mask: IPMask)

  const IPv4Len: nat := 4
  const IPv6Len: nat := 16

  /** The first twelve bytes of an IPv4-mapped IPv6 address (::ffff:a.b.c.d). */
  const V4InV6Prefix: seq<Byte> := [0, 0, 0, 0, 0, 0, 0, 0, 0, 0, 0xff, 0xff]

  /** `IP.To4`: the 4-byte form of an IPv4 address, whether it is held in
      4 bytes or IPv4-mapped in 16; None (Go's nil) for anything else. */
  function To4(ip: IP): (r: Option<IP>)
    ensures r.Some? ==> |r.value| == IPv4Len
    ensures r.Some? && |ip| == IPv6Len ==> ip == V4InV6Prefix + r.value
    ensures r.None? ==> |ip| != IPv4Len
  {
    if |ip| == IPv4Len then Some(ip)
    else if |ip| == IPv6Len && ip[..12] == V4InV6Prefix then Some(ip[12..])
    else None
  }

  /** The form both sides of `IPNet.Contains` are brought to first:
      the 4-byte form of an IPv4 address, any other address unchanged. */
  function Canonical(ip: IP): IP
  {
    match To4(ip)
    case Some(v4) => v4
    case None => ip
  }

  /** `IP.Equal`: addresses of equal length compare bytewise; a 4-byte and a
      16-byte address are equal when the 16-byte one is the other IPv4-mapped.
      Equal addresses are of the same family. */
  predicate Equal(a: IP, b: IP)
    ensures Equal(a, b) && |a| == IPv4Len && |b| == IPv6Len ==> b == V4InV6Prefix + a
    ensures Equal(a, b) ==> (To4(a).Some? <==> To4(b).Some?)
  {
    if |a| == |b| then a == b
    else if |a| == IPv4Len && |b| == IPv6Len then b[..12] == V4InV6Prefix && a == b[12..]
    else if |a| == IPv6Len && |b| == IPv4Len then a[..12] == V4InV6Prefix && a[12..] == b
    else false
  }

  /** Two addresses are `Equal` exactly when they have the same canonical form:
      `Equal` is the equality of addresses up to IPv4 mapping, hence reflexive,
      symmetric and transitive. */
  lemma EqualIffSameCanonical(a: IP, b: IP)
    ensures Equal(a, b) <==> Canonical(a) == Canonical(b)
  {
    if |a| == IPv6Len && |b| == IPv6Len && To4(a).Some? && To4(b).Some? {
      if Canonical(a) == Canonical(b) {
        calc {
          a;
          V4InV6Prefix + To4(a).value;
          V4InV6Prefix + To4(b).value;
          b;
        }
      }
    }
  }

  /** `networkNumberAndMask`, the first step of `IPNet.Contains`: the network
      number in canonical form with a mask of the same length, or two empty
      sequences (Go's nil) when the network is malformed. */
  function NetworkNumberAndMask(n: IPNet): (r: (IP, IPMask))
    ensures |r.0| == |r.1|
    ensures r.0 == [] || |r.0| == IPv4Len || |r.0| == IPv6Len
    ensures r.0 != [] ==> r.0 == Canonical(n.ip)
  {
    var ip := Canonical(n.ip);
    if |ip| != IPv4Len && |ip| != IPv6Len then ([], [])
    else if |n.mask| == IPv4Len then
      if |ip| != IPv4Len then ([], []) else (ip, n.mask)
    else if |n.mask| == IPv6Len then
      if |ip| == IPv4Len then (ip, n.mask[12..]) else (ip, n.mask)
    else ([], [])
  }

  /** `IPNet.Contains`: the address, in canonical form, has the length of the
      network number and agrees with it on every bit the mask selects. So an
      IPv4 address never lies in an IPv6 network, nor the reverse. */
  predicate Contains(n: IPNet, ip: IP)
    ensures To4(ip).Some? && To4(n.ip).None? ==> !Contains(n, ip)
    ensures |ip| == IPv6Len && To4(ip).None? && To4(n.ip).Some? ==> !Contains(n, ip)
  {
    var (nn, m) := NetworkNumberAndMask(n);
    var a := Canonical(ip);
    |a| == |nn| && forall i :: 0 <= i < |a| ==> nn[i] & m[i] == a[i] & m[i]
  }

  /** The mask of a prefix of `bytes` whole bytes in an address of `total`
      bytes (Go's `CIDRMask(8 * bytes, 8 * total)`). */
  function PrefixMask(bytes: nat, total: nat): (m: IPMask)
    requires bytes <= total
    ensures |m| == total
    ensures forall i :: 0 <= i < bytes ==> m[i] == 0xff
    ensures forall i :: bytes <= i < total ==> m[i] == 0
  {
    seq(total, i => if i < bytes then 0xff else 0)
  }

  /** The network number and mask of an IPv6 prefix are the prefix and the
      mask themselves. */
  lemma IPv6NetworkNumber(prefix: IP, bytes: nat)
    requires |prefix| == IPv6Len && To4(prefix).None? && bytes <= IPv6Len
    ensures NetworkNumberAndMask(IPNet(prefix, PrefixMask(bytes, IPv6Len))) ==
            (prefix, PrefixMask(bytes, IPv6Len))
  {
  }

  /** An address inside an IPv6 prefix is a genuine IPv6 address with the
      leading bytes of the prefix. */
  lemma ContainedInIPv6Prefix(prefix: IP, bytes: nat, ip: IP)
    requires |prefix| == IPv6Len && To4(prefix).None? && bytes <= IPv6Len
    requires Contains(IPNet(prefix, PrefixMask(bytes, IPv6Len)), ip)
    ensures |ip| == IPv6Len && To4(ip).None? && ip[..bytes] == prefix[..bytes]
  {
    var m := PrefixMask(bytes, IPv6Len);
    IPv6NetworkNumber(prefix, bytes);
    assert |Canonical(ip)| == IPv6Len;
    assert Canonical(ip) == ip;
    forall i | 0 <= i < bytes
      ensures ip[i] == prefix[i]
    {
      assert prefix[i] & m[i] == ip[i] & m[i];
    }
  }

  /** CIDR containment for an IPv6 prefix (section 2.3 of RFC 4291), for
      prefixes that end on a byte boundary such as /64: an address lies in
      the network exactly when it is a genuine (not IPv4-mapped) IPv6
      address whose leading bytes are those of the prefix. */
  lemma ContainsIPv6Prefix(prefix: IP, bytes: nat, ip: IP)
    requires |prefix| == IPv6Len && To4(prefix).None? && bytes <= IPv6Len
    ensures Contains(IPNet(prefix, PrefixMask(bytes, IPv6Len)), ip) <==>
            |ip| == IPv6Len && To4(ip).None? && ip[..bytes] == prefix[..bytes]
  {
    var m := PrefixMask(bytes, IPv6Len);
    if Contains(IPNet(prefix, m), ip) {
      ContainedInIPv6Prefix(prefix, bytes, ip);
    }
    if |ip| == IPv6Len && To4(ip).None? && ip[..bytes] == prefix[..bytes] {
      IPv6NetworkNumber(prefix, bytes);
      forall i | 0 <= i < IPv6Len
        ensures prefix[i] & m[i] == ip[i] & m[i]
      {
        if i < bytes {
          assert ip[..bytes][i] == prefix[..bytes][i];
        }
      }
    }
  }
}
