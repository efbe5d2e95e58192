/** Whether two clusters need Globalnet: do their service and pod networks overlap? */
module Globalnet {
  import opened Outcomes

  /** Bits of an address, the most significant first: 32 for IPv4, 128 for IPv6. */
  type Bits = seq<bool>

  datatype Block = Block(address: Bits, length: nat)

  /** A block in the notation of RFC 4632, section 3.1: an address and the length of its prefix. */
  type Cidr = c: Block | WellFormed(c) witness Block(seq(32, _ => false), 0)

  predicate WellFormed(c: Block) {
    |c.address| in {32, 128} && c.length <= |c.address|
  }

  /** The comparison made on two blocks: same family and same bits up to the shorter prefix. */
  predicate Overlap(a: Cidr, b: Cidr) {
    var length := if a.length <= b.length then a.length else b.length;
    |a.address| == |b.address| && a.address[..length] == b.address[..length]
  }

  /** The address is of the block's family and starts with the prefix of the block. */
  predicate InBlock(address: Bits, c: Cidr) {
    |address| == |c.address| && address[..c.length] == c.address[..c.length]
  }

  lemma SharedAddress(a: Cidr, b: Cidr) returns (address: Bits)
    requires Overlap(a, b)
    ensures InBlock(address, a) && InBlock(address, b)
  {
    address := if a.length <= b.length then b.address else a.address;
  }

  lemma SharedMeansOverlap(a: Cidr, b: Cidr, address: Bits)
    requires InBlock(address, a) && InBlock(address, b)
    ensures Overlap(a, b)
  {
    var n := if a.length <= b.length then a.length else b.length;
    assert a.address[..n] == a.address[..a.length][..n] == address[..n];
    assert b.address[..n] == b.address[..b.length][..n] == address[..n];
  }

  /** Comparing prefixes at the shorter length decides whether the blocks have an address in common. */
  lemma OverlapIsSharing(a: Cidr, b: Cidr)
    ensures Overlap(a, b) <==>
              exists address: Bits ::
                && |address| == |a.address| && address[..a.length] == a.address[..a.length]
                && |address| == |b.address| && address[..b.length] == b.address[..b.length]
  {
    if Overlap(a, b) {
      var address := SharedAddress(a, b);
      assert address[..a.length] == a.address[..a.length];
    }
    if address: Bits :|
      && |address| == |a.address| && address[..a.length] == a.address[..a.length]
      && |address| == |b.address| && address[..b.length] == b.address[..b.length]
    {
      SharedMeansOverlap(a, b, address);
    }
  }

  // ---------- Addresses as numbers ----------

  function Number(bits: Bits): nat {
    if bits == [] then 0 else 2 * Number(bits[..|bits| - 1]) + if bits[|bits| - 1] then 1 else 0
  }

  /** Addresses of one family are ordered as numbers by the first bit in which they differ. */
  lemma {:induction false} NumbersAreOrdered(x: Bits, y: Bits)
    requires |x| == |y|
    ensures Number(x) < Number(y) <==> exists k | 0 <= k < |x| :: x[..k] == y[..k] && !x[k] && y[k]
    ensures Number(x) == Number(y) <==> x == y
  {
    if x != [] {
      var n := |x| - 1;
      NumbersAreOrdered(x[..n], y[..n]);
      assert x == x[..n] + [x[n]] && y == y[..n] + [y[n]];
      if k :| 0 <= k < |x| && x[..k] == y[..k] && !x[k] && y[k] {
        assert k < n ==> x[..n][..k] == x[..k] && y[..n][..k] == y[..k];
      }
      if Number(x[..n]) < Number(y[..n]) {
        var k :| 0 <= k < n && x[..n][..k] == y[..n][..k] && !x[..n][k] && y[..n][k];
        assert x[..k] == y[..k];
      } else if x[..n] == y[..n] && !x[n] && y[n] {
        assert x[..n] == y[..n];
      }
    }
  }

  /** The first address of a block, and with ones in place of zeros the last one. */
  function Filled(c: Cidr, bit: bool): (address: Bits)
    ensures |address| == |c.address| && address[..c.length] == c.address[..c.length]
    ensures forall k | c.length <= k < |address| :: address[k] == bit
  {
    c.address[..c.length] + seq(|c.address| - c.length, _ => bit)
  }

  lemma InsideIsInRange(c: Cidr, address: Bits)
    requires InBlock(address, c)
    ensures Number(Filled(c, false)) <= Number(address) <= Number(Filled(c, true))
  {
    var first, last := Filled(c, false), Filled(c, true);
    assert forall k | 0 <= k < c.length :: address[k] == address[..c.length][k] == c.address[..c.length][k];
    assert forall k | 0 <= k < c.length :: first[k] == first[..c.length][k] && last[k] == last[..c.length][k];
    NumbersAreOrdered(address, first);
    NumbersAreOrdered(last, address);
  }

  lemma OutsideIsOutOfRange(c: Cidr, address: Bits)
    requires |address| == |c.address| && !InBlock(address, c)
    ensures Number(address) < Number(Filled(c, false)) || Number(Filled(c, true)) < Number(address)
  {
    var first, last, n := Filled(c, false), Filled(c, true), c.length;
    var k := FirstDifference(address[..n], c.address[..n]);
    assert address[..k] == address[..n][..k] && first[..k] == first[..n][..k] && last[..k] == last[..n][..k];
    assert first[k] == first[..n][k] && last[k] == last[..n][k];
    NumbersAreOrdered(address, first);
    NumbersAreOrdered(last, address);
  }

  /** A block is the range of addresses from its prefix followed by zeros to its prefix followed by ones. */
  lemma BlockIsRange(c: Cidr, address: Bits, first: Bits, last: Bits)
    requires |address| == |first| == |last| == |c.address|
    requires first[..c.length] == c.address[..c.length] == last[..c.length]
    requires forall k | c.length <= k < |c.address| :: !first[k] && last[k]
    ensures address[..c.length] == c.address[..c.length] <==> Number(first) <= Number(address) <= Number(last)
  {
    assert forall k | 0 <= k < c.length ::
      first[k] == first[..c.length][k] && Filled(c, false)[k] == Filled(c, false)[..c.length][k]
      && last[k] == last[..c.length][k] && Filled(c, true)[k] == Filled(c, true)[..c.length][k];
    assert first == Filled(c, false) && last == Filled(c, true);
    if InBlock(address, c) {
      InsideIsInRange(c, address);
    } else {
      OutsideIsOutOfRange(c, address);
    }
  }

  lemma {:induction false} FirstDifference(x: Bits, y: Bits) returns (k: nat)
    requires |x| == |y| && x != y
    ensures k < |x| && x[..k] == y[..k] && x[k] != y[k]
  {
    var n := |x| - 1;
    if x[..n] == y[..n] {
      assert x == x[..n] + [x[n]] && y == y[..n] + [y[n]];
      k := n;
    } else {
      k := FirstDifference(x[..n], y[..n]);
      assert x[..n][..k] == x[..k] && y[..n][..k] == y[..k];
    }
  }

  // ---------- Clusters ----------

  datatype Cluster = Cluster(serviceCIDRs: seq<Cidr>, clusterCIDRs: seq<Cidr>)

  /** The external check: an error for the first subnet that overlaps a service or pod network, on any pair. */
  function OverlappingSubnets(serviceCIDRs: seq<Cidr>, podCIDRs: seq<Cidr>, subnets: seq<Cidr>): Option<string> {
    if exists subnet <- subnets, c <- serviceCIDRs :: Overlap(c, subnet) then Some("overlapping Service CIDR")
    else if exists subnet <- subnets, c <- podCIDRs :: Overlap(c, subnet) then Some("overlapping Cluster CIDR")
    else None
  }

  const SAME_CLUSTER := "current ClusterID and peer ClusterID refer to the same cluster. "
    + "Provide a different peer ClusterID"

  /** `get` is the lookup of a cluster resource by name. */
  function IsGlobalnetRequired(get: string -> Result<Cluster, string>, clusterID: string, peerClusterID: string)
    : Result<bool, string>
  {
    if clusterID == peerClusterID then Err(SAME_CLUSTER)
    else
      match get(clusterID)
      case Err(error) => Err(error)
      case Ok(cluster) =>
        match get(peerClusterID)
        case Err(error) => Err(error)
        case Ok(peer) =>
          if OverlappingSubnets(cluster.serviceCIDRs, cluster.clusterCIDRs,
                                peer.clusterCIDRs + peer.serviceCIDRs).Some?
          then Ok(true) else Ok(false)
  }

  /** The address belongs to a network of the cluster. */
  ghost predicate Reaches(cluster: Cluster, address: Bits) {
    exists c <- cluster.serviceCIDRs + cluster.clusterCIDRs :: InBlock(address, c)
  }

  lemma OverlapIsCollision(cluster: Cluster, peer: Cluster)
    ensures OverlappingSubnets(cluster.serviceCIDRs, cluster.clusterCIDRs,
                               peer.clusterCIDRs + peer.serviceCIDRs).Some?
       <==> exists address :: Reaches(cluster, address) && Reaches(peer, address)
  {
    var mine, theirs := cluster.serviceCIDRs + cluster.clusterCIDRs, peer.clusterCIDRs + peer.serviceCIDRs;
    if c, subnet :| c in mine && subnet in theirs && Overlap(c, subnet) {
      var address := SharedAddress(c, subnet);
      assert Reaches(cluster, address) && Reaches(peer, address);
    }
    if address :| Reaches(cluster, address) && Reaches(peer, address) {
      var c :| c in mine && InBlock(address, c);
      var subnet :| subnet in peer.serviceCIDRs + peer.clusterCIDRs && InBlock(address, subnet);
      SharedMeansOverlap(c, subnet, address);
      assert subnet in theirs;
    }
  }

  /**
   It fails for one cluster given twice and for a cluster that is not found, the first of the two first. Otherwise
   it tells whether some address lies in a service or pod network of each cluster.
   */
  lemma GlobalnetExactly(get: string -> Result<Cluster, string>, clusterID: string, peerClusterID: string)
    ensures var answer, cluster, peer :=
              IsGlobalnetRequired(get, clusterID, peerClusterID), get(clusterID), get(peerClusterID);
            if clusterID == peerClusterID
            then answer == Err("current ClusterID and peer ClusterID refer to the same cluster. "
                               + "Provide a different peer ClusterID")
            else if cluster.Err? then answer == Err(cluster.error)
            else if peer.Err? then answer == Err(peer.error)
            else
              && answer.Ok?
              && (answer.value <==>
                  exists c, p, address: Bits ::
                    && c in cluster.value.serviceCIDRs + cluster.value.clusterCIDRs
                    && p in peer.value.serviceCIDRs + peer.value.clusterCIDRs
                    && |address| == |c.address| && address[..c.length] == c.address[..c.length]
                    && |address| == |p.address| && address[..p.length] == p.address[..p.length])
  {
    if get(clusterID).Ok? && get(peerClusterID).Ok? {
      var cluster, peer := get(clusterID).value, get(peerClusterID).value;
      OverlapIsCollision(cluster, peer);
      if address :| Reaches(cluster, address) && Reaches(peer, address) {
        var c :| c in cluster.serviceCIDRs + cluster.clusterCIDRs && InBlock(address, c);
        var p :| p in peer.serviceCIDRs + peer.clusterCIDRs && InBlock(address, p);
        assert address[..c.length] == c.address[..c.length] && address[..p.length] == p.address[..p.length];
      }
      if c, p, address: Bits :|
        && c in cluster.serviceCIDRs + cluster.clusterCIDRs && p in peer.serviceCIDRs + peer.clusterCIDRs
        && |address| == |c.address| && address[..c.length] == c.address[..c.length]
        && |address| == |p.address| && address[..p.length] == p.address[..p.length]
      {
        assert InBlock(address, c) && InBlock(address, p);
        assert Reaches(cluster, address) && Reaches(peer, address);
      }
    }
  }

  /** Swapping the clusters changes neither whether it fails nor the answer. */
  lemma GlobalnetIsSymmetric(get: string -> Result<Cluster, string>, a: string, b: string)
    ensures IsGlobalnetRequired(get, a, b).Ok? <==> IsGlobalnetRequired(get, b, a).Ok?
    ensures IsGlobalnetRequired(get, a, b).Ok? ==> IsGlobalnetRequired(get, a, b) == IsGlobalnetRequired(get, b, a)
  {
    if a != b && get(a).Ok? && get(b).Ok? {
      OverlapIsCollision(get(a).value, get(b).value);
      OverlapIsCollision(get(b).value, get(a).value);
    }
  }

  // ---------- Addresses in octets ----------

  function OctetBits(o: nat): (bits: Bits)
    requires o < 256
    ensures |bits| == 8
  {
    FourBits(o / 16) + FourBits(o % 16)
  }

  function FourBits(o: nat): (bits: Bits)
    requires o < 16
    ensures |bits| == 4
  {
    [o / 8 == 1, o / 4 % 2 == 1, o / 2 % 2 == 1, o % 2 == 1]
  }

  lemma NumberSnoc(bits: Bits, bit: bool)
    ensures Number(bits + [bit]) == 2 * Number(bits) + if bit then 1 else 0
  {
    assert (bits + [bit])[..|bits|] == bits;
  }

  function Digit(bit: bool): nat {
    if bit then 1 else 0
  }

  lemma NumberOfFour(p: Bits, a: bool, b: bool, c: bool, d: bool)
    ensures Number(p + [a, b, c, d]) == 16 * Number(p) + 8 * Digit(a) + 4 * Digit(b) + 2 * Digit(c) + Digit(d)
  {
    assert p + [a, b, c, d] == (((p + [a]) + [b]) + [c]) + [d];
    NumberSnoc(p, a);
    NumberSnoc(p + [a], b);
    NumberSnoc((p + [a]) + [b], c);
    NumberSnoc(((p + [a]) + [b]) + [c], d);
  }

  lemma NumberOfFourBits(p: Bits, o: nat)
    requires o < 16
    ensures Number(p + FourBits(o)) == 16 * Number(p) + o
  {
    var bits := FourBits(o);
    NumberOfFour(p, bits[0], bits[1], bits[2], bits[3]);
  }

  /** The bits of an octet are those of the number it is. */
  lemma OctetIsNumber(o: nat)
    requires o < 256
    ensures Number(OctetBits(o)) == o
  {
    NumberOfFourBits([], o / 16);
    NumberOfFourBits(FourBits(o / 16), o % 16);
    assert [] + FourBits(o / 16) == FourBits(o / 16);
  }

  function Dotted(a: nat, b: nat, c: nat, d: nat, length: nat): Cidr
    requires a < 256 && b < 256 && c < 256 && d < 256 && length <= 32
  {
    Block(OctetBits(a) + OctetBits(b) + OctetBits(c) + OctetBits(d), length)
  }

  lemma DifferentBit(a: Cidr, b: Cidr, k: nat)
    requires |a.address| == |b.address| && k < a.length && k < b.length && a.address[k] != b.address[k]
    ensures !Overlap(a, b) && !Overlap(b, a)
  {
    var n := if a.length <= b.length then a.length else b.length;
    assert a.address[..n][k] != b.address[..n][k];
  }

  lemma BitsOfDotted(a: nat, b: nat, c: nat, d: nat, length: nat, j: nat)
    requires a < 256 && b < 256 && c < 256 && d < 256 && length <= 32 && j < 8
    ensures var address := Dotted(a, b, c, d, length).address;
            address[j] == OctetBits(a)[j] && address[8 + j] == OctetBits(b)[j]
  {
  }

  lemma TestServicesDiffer()
    ensures Apart(Dotted(172, 30, 0, 0, 16), Dotted(172, 40, 0, 0, 16))
  {
    BitsOfDotted(172, 30, 0, 0, 16, 2);
    BitsOfDotted(172, 40, 0, 0, 16, 2);
    DifferentBit(Dotted(172, 30, 0, 0, 16), Dotted(172, 40, 0, 0, 16), 10);
  }

  lemma TestPodsDiffer()
    ensures Apart(Dotted(10, 128, 0, 0, 14), Dotted(10, 138, 0, 0, 14))
  {
    BitsOfDotted(10, 128, 0, 0, 14, 4);
    BitsOfDotted(10, 138, 0, 0, 14, 4);
    DifferentBit(Dotted(10, 128, 0, 0, 14), Dotted(10, 138, 0, 0, 14), 12);
  }

  lemma TestServiceAndPodsDiffer(b: nat, b': nat)
    requires b < 256 && b' < 256
    ensures Apart(Dotted(172, b, 0, 0, 16), Dotted(10, b', 0, 0, 14))
  {
    BitsOfDotted(172, b, 0, 0, 16, 0);
    BitsOfDotted(10, b', 0, 0, 14, 0);
    DifferentBit(Dotted(172, b, 0, 0, 16), Dotted(10, b', 0, 0, 14), 0);
  }

  predicate Apart(a: Cidr, b: Cidr) {
    !Overlap(a, b) && !Overlap(b, a)
  }

  lemma ThreeClusters(get: string -> Result<Cluster, string>, service1: Cidr, pods1: Cidr, service2: Cidr, pods2: Cidr)
    requires get("cluster1") == get("cluster3") == Ok(Cluster([service1], [pods1]))
    requires get("cluster2") == Ok(Cluster([service2], [pods2]))
    requires Apart(service1, service2) && Apart(service1, pods2) && Apart(pods1, service2) && Apart(pods1, pods2)
    ensures IsGlobalnetRequired(get, "cluster1", "cluster2") == Ok(false)
    ensures IsGlobalnetRequired(get, "cluster1", "cluster3") == Ok(true)
    ensures IsGlobalnetRequired(get, "cluster2", "cluster3") == Ok(false)
  {
    assert Overlap(service1, service1);
    assert service1 in [service1] && service1 in [pods1] + [service1];
    assert "cluster1"[7] != "cluster2"[7] && "cluster1"[7] != "cluster3"[7] && "cluster2"[7] != "cluster3"[7];
  }

  /** The clusters of the repository's own test: the first two do not collide, and a third like the first does. */
  lemma TestClusters(get: string -> Result<Cluster, string>)
    requires get("cluster1") == get("cluster3") == Ok(Cluster([Dotted(172, 30, 0, 0, 16)], [Dotted(10, 128, 0, 0, 14)]))
    requires get("cluster2") == Ok(Cluster([Dotted(172, 40, 0, 0, 16)], [Dotted(10, 138, 0, 0, 14)]))
    ensures IsGlobalnetRequired(get, "cluster1", "cluster2") == Ok(false)
    ensures IsGlobalnetRequired(get, "cluster1", "cluster3") == Ok(true)
    ensures IsGlobalnetRequired(get, "cluster2", "cluster3") == Ok(false)
  {
    TestServicesDiffer();
    TestPodsDiffer();
    TestServiceAndPodsDiffer(30, 138);
    TestServiceAndPodsDiffer(40, 128);
    ThreeClusters(get, Dotted(172, 30, 0, 0, 16), Dotted(10, 128, 0, 0, 14),
                  Dotted(172, 40, 0, 0, 16), Dotted(10, 138, 0, 0, 14));
  }
}
