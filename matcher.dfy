/**
  * `matchFloatingIP`: does a floating IP reported by the API belong to this
  * node's configured addresses? An IPv4 floating IP is compared address to
  * address with `IP.Equal`; an IPv6 floating IP matches when its network is
  * present and contains a configured address. Any other type never matches.
  */
module Matcher {
  import opened Wrappers
  import opened Net
  import opened HCloud

  /** The test the loop body makes for one configured address. */
  predicate MatchesAddress(f: FloatingIP, myIP: IP)
  {
    || (f.ipType == TypeIPv4 && Equal(myIP, f.ip))
    || (f.ipType == TypeIPv6 && f.network.Some? && Contains(f.network.value, myIP))
  }

  /** Some configured address passes the test. */
  predicate Matches(f: FloatingIP, myIPs: seq<IP>)
  {
    exists i :: 0 <= i < |myIPs| && MatchesAddress(f, myIPs[i])
  }

  /** `matchFloatingIP`: scans the configured addresses in order and stops at
      the first that matches. */
  method MatchFloatingIP(f: FloatingIP, myIPs: seq<IP>) returns (matched: bool)
    ensures matched <==> Matches(f, myIPs)
  {
    for k := 0 to |myIPs|
      invariant forall j :: 0 <= j < k ==> !MatchesAddress(f, myIPs[j])
    {
      var myIP := myIPs[k];
      if f.ipType == TypeIPv4 {
        if Equal(myIP, f.ip) {
          return true;
        }
      }
      if f.ipType == TypeIPv6 {
        if f.network.Some? && Contains(f.network.value, myIP) {
          return true;
        }
      }
    }
    return false;
  }

  /** An IPv4 floating IP matches exactly when some configured address is the
      same IPv4 address, whether either side is held in 4 bytes or IPv4-mapped
      in 16. */
  lemma MatchIPv4Iff(f: FloatingIP, myIPs: seq<IP>)
    requires f.ipType == TypeIPv4
    ensures Matches(f, myIPs) <==>
            exists i :: 0 <= i < |myIPs| && Canonical(myIPs[i]) == Canonical(f.ip)
  {
    forall i | 0 <= i < |myIPs|
      ensures Equal(myIPs[i], f.ip) <==> Canonical(myIPs[i]) == Canonical(f.ip)
    {
      EqualIffSameCanonical(myIPs[i], f.ip);
    }
  }

  /** An IPv6 floating IP matches exactly when its network is present and
      contains some configured address; without a network it never matches. */
  lemma MatchIPv6Iff(f: FloatingIP, myIPs: seq<IP>)
    requires f.ipType == TypeIPv6
    ensures Matches(f, myIPs) <==>
            f.network.Some? && exists i :: 0 <= i < |myIPs| && Contains(f.network.value, myIPs[i])
    ensures f.network.None? ==> !Matches(f, myIPs)
  {
  }

  /** No configured address, or a type other than ipv4 and ipv6, means no match. */
  lemma NoMatchWithoutAddressOrType(f: FloatingIP, myIPs: seq<IP>)
    requires myIPs == [] || f.ipType.TypeOther?
    ensures !Matches(f, myIPs)
  {
  }

  /** Matching depends on the configured addresses only as a collection: it
      holds for a concatenation exactly when it holds for one of the parts. */
  lemma {:induction false} MatchesConcat(f: FloatingIP, a: seq<IP>, b: seq<IP>)
    ensures Matches(f, a + b) <==> Matches(f, a) || Matches(f, b)
  {
    if Matches(f, a + b) {
      var i :| 0 <= i < |a + b| && MatchesAddress(f, (a + b)[i]);
      if i < |a| {
        assert MatchesAddress(f, a[i]);
      } else {
        assert MatchesAddress(f, b[i - |a|]);
      }
    }
    if Matches(f, a) {
      var i :| 0 <= i < |a| && MatchesAddress(f, a[i]);
      assert (a + b)[i] == a[i];
    }
    if Matches(f, b) {
      var i :| 0 <= i < |b| && MatchesAddress(f, b[i]);
      assert (a + b)[|a| + i] == b[i];
    }
  }

  /** `net.ParseIP("1.2.3.4")`, `net.ParseIP("1.2.3.5")` and `net.ParseIP("2600::1")`. */
  const Addr1234: IP := V4InV6Prefix + [1, 2, 3, 4]
  const Addr1235: IP := V4InV6Prefix + [1, 2, 3, 5]
  const Addr2600x1: IP := [0x26, 0, 0, 0, 0, 0, 0, 0, 0, 0, 0, 0, 0, 0, 0, 1]

  /** The networks `net.ParseCIDR` gives for "2600::/64" and "2700::/64". */
  const Net2600: IPNet := IPNet([0x26, 0, 0, 0, 0, 0, 0, 0, 0, 0, 0, 0, 0, 0, 0, 0], PrefixMask(8, 16))
  const Net2700: IPNet := IPNet([0x27, 0, 0, 0, 0, 0, 0, 0, 0, 0, 0, 0, 0, 0, 0, 0], PrefixMask(8, 16))

  /** The addresses configured in the repository's test: 1.2.3.4 and 2600::1. */
  const TestIPs: seq<IP> := [Addr1234, Addr2600x1]

  /** Test case: the IPv4 floating IP 1.2.3.4 matches. */
  lemma ExampleIPv4Match()
    ensures Matches(FloatingIP(0, "", TypeIPv4, Addr1234, None, None), TestIPs)
  {
    assert MatchesAddress(FloatingIP(0, "", TypeIPv4, Addr1234, None, None), TestIPs[0]);
  }

  /** Test case: the IPv4 floating IP 1.2.3.5 does not match. */
  lemma ExampleIPv4NoMatch()
    ensures !Matches(FloatingIP(0, "", TypeIPv4, Addr1235, None, None), TestIPs)
  {
    assert Addr1234 != Addr1235 by {
      assert Addr1234[15] != Addr1235[15];
    }
    assert Addr2600x1 != Addr1235 by {
      assert Addr2600x1[0] != Addr1235[0];
    }
  }

  /** Test case: the IPv6 floating IP with network 2600::/64 matches. */
  lemma ExampleIPv6Match()
    ensures Matches(FloatingIP(0, "", TypeIPv6, [], Some(Net2600), None), TestIPs)
  {
    var prefix := Net2600.ip;
    assert prefix[..12] != V4InV6Prefix by {
      assert prefix[0] != V4InV6Prefix[0];
    }
    assert Addr2600x1[..12] != V4InV6Prefix by {
      assert Addr2600x1[0] != V4InV6Prefix[0];
    }
    ContainsIPv6Prefix(prefix, 8, Addr2600x1);
    assert Addr2600x1[..8] == prefix[..8];
    assert MatchesAddress(FloatingIP(0, "", TypeIPv6, [], Some(Net2600), None), TestIPs[1]);
  }

  /** Test case: the IPv6 floating IP with network 2700::/64 does not match. */
  lemma ExampleIPv6NoMatch()
    ensures !Matches(FloatingIP(0, "", TypeIPv6, [], Some(Net2700), None), TestIPs)
  {
    var prefix := Net2700.ip;
    assert prefix[..12] != V4InV6Prefix by {
      assert prefix[0] != V4InV6Prefix[0];
    }
    assert Addr1234[..12] == V4InV6Prefix;
    ContainsIPv6Prefix(prefix, 8, Addr1234);
    ContainsIPv6Prefix(prefix, 8, Addr2600x1);
    assert Addr2600x1[..8] != prefix[..8] by {
      assert Addr2600x1[0] != prefix[0];
    }
  }
}
