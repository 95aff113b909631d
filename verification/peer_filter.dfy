/** The host-address filter of the server handler: `copy_if` over the
    reported addresses with a `none_of` over the host machine's addresses,
    comparing the address texts with `==` and nothing else. */
module PeerFilter {

  /** `none_of(hostAddresses, hostAddress == ipAddress)`. */
  function IsRemote(address: string, hosts: seq<string>): (r: bool)
    ensures r <==> address !in hosts
  {
    forall i :: 0 <= i < |hosts| ==> hosts[i] != address
  }

  /** Keeps, in order, every reported address that equals no host address. */
  function FilterPeers(reported: seq<string>, hosts: seq<string>): (peers: seq<string>)
    ensures |peers| <= |reported|
    ensures forall a :: a in peers <==> a in reported && a !in hosts
    ensures forall a :: multiset(peers)[a] == if a in hosts then 0 else multiset(reported)[a]
  {
    if |reported| == 0 then []
    else
      var rest := FilterPeers(reported[1..], hosts);
      assert reported == [reported[0]] + reported[1..];
      if IsRemote(reported[0], hosts) then [reported[0]] + rest else rest
  }

  /** The filter works address by address: filtering a concatenation is
      concatenating the filtered parts, so the relative order of kept
      addresses is the order in which the server reported them. */
  lemma {:induction false} FilterPeersAppend(a: seq<string>, b: seq<string>, hosts: seq<string>)
    ensures FilterPeers(a + b, hosts) == FilterPeers(a, hosts) + FilterPeers(b, hosts)
  {
    if |a| > 0 {
      assert (a + b)[1..] == a[1..] + b;
      FilterPeersAppend(a[1..], b, hosts);
    } else {
      assert a + b == b;
    }
  }

  /** A single address survives exactly when it is not a host address. */
  lemma FilterPeersSingle(address: string, hosts: seq<string>)
    ensures FilterPeers([address], hosts) == if address in hosts then [] else [address]
  {
    assert [address][1..] == [];
  }

  /** Filtering again changes nothing: no host address is left to remove. */
  lemma {:induction false} FilterPeersIdempotent(reported: seq<string>, hosts: seq<string>)
    ensures FilterPeers(FilterPeers(reported, hosts), hosts) == FilterPeers(reported, hosts)
  {
    if |reported| > 0 {
      var rest := FilterPeers(reported[1..], hosts);
      FilterPeersIdempotent(reported[1..], hosts);
      if IsRemote(reported[0], hosts) {
        FilterPeersAppend([reported[0]], rest, hosts);
        FilterPeersSingle(reported[0], hosts);
      }
    }
  }

  /** With no host address nothing is removed, duplicates included. */
  lemma {:induction false} FilterPeersNoHosts(reported: seq<string>)
    ensures FilterPeers(reported, []) == reported
  {
    if |reported| > 0 {
      FilterPeersNoHosts(reported[1..]);
      assert reported == [reported[0]] + reported[1..];
    }
  }

  /** Two of three reported addresses, 10.0.0.5 and 127.0.0.1, are host
      addresses; only 10.0.0.9 remains. */
  lemma FilterPeersExample()
    ensures FilterPeers(["10.0.0.5", "10.0.0.9", "127.0.0.1"], ["10.0.0.5", "127.0.0.1"]) == ["10.0.0.9"]
  {
    var hosts := ["10.0.0.5", "127.0.0.1"];
    var reported := ["10.0.0.5", "10.0.0.9", "127.0.0.1"];
    assert reported[1..] == ["10.0.0.9", "127.0.0.1"];
    assert reported[1..][1..] == ["127.0.0.1"];
    assert FilterPeers(["127.0.0.1"], hosts) == [] by {
      assert !IsRemote("127.0.0.1", hosts) by { assert hosts[1] == "127.0.0.1"; }
    }
    assert IsRemote("10.0.0.9", hosts);
    assert FilterPeers(reported[1..], hosts) == ["10.0.0.9"];
    assert !IsRemote("10.0.0.5", hosts) by { assert hosts[0] == "10.0.0.5"; }
  }
}
