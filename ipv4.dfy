/** The subnets as 32-bit IPv4 network numbers, and the octet bound under which they stay distinct. */
module Ipv4 {
  import opened Types
  import opened Tree

  /** Every octet of `o1.o2.o3.0` fits in a byte. */
  predicate OctetsFit(net: Subnet)
  {
    0 <= net.o1 <= 255 && 0 <= net.o2 <= 255 && 0 <= net.o3 <= 255
  }

  /** The 32-bit number of network `o1.o2.o3.0`. */
  function NetworkNumber(net: Subnet): int
  {
    ((net.o1 * 256 + net.o2) * 256 + net.o3) * 256
  }

  /** Base-256 digits are unique: the step that makes the network number injective. */
  lemma DigitsUnique(q1: int, r1: int, q2: int, r2: int)
    requires 0 <= r1 < 256 && 0 <= r2 < 256
    requires q1 * 256 + r1 == q2 * 256 + r2
    ensures q1 == q2 && r1 == r2
  {
  }

  /** With all octets in a byte, different subnets have different network numbers. */
  lemma NetworkNumberInjective(x: Subnet, y: Subnet)
    requires OctetsFit(x) && OctetsFit(y) && x != y
    ensures NetworkNumber(x) != NetworkNumber(y)
  {
    if NetworkNumber(x) == NetworkNumber(y) {
      DigitsUnique((x.o1 * 256 + x.o2) * 256 + x.o3, 0, (y.o1 * 256 + y.o2) * 256 + y.o3, 0);
      DigitsUnique(x.o1 * 256 + x.o2, x.o3, y.o1 * 256 + y.o2, y.o3);
      DigitsUnique(x.o1, x.o2, y.o1, y.o2);
    }
  }

  /**
   * Collision freedom as 32-bit networks: a call on a collision-free state with a non-negative
   * counter, old subnets whose octets fit, depth and width at most 255 - LevelBase and 255, and
   * a counter that ends at most at 256 leaves every assigned network number distinct.
   */
  lemma BuildNetworkNumbersDistinct(s: Net, parent: nat, b: nat, level: int)
    requires SubnetsFresh(s) && 0 <= s.branch
    requires forall k :: 0 <= k < |s.assigns| ==> OctetsFit(s.assigns[k].net)
    requires LevelBase + level <= 255 && b <= 255
    requires Build(s, parent, b, level).branch <= 256
    ensures var t := Build(s, parent, b, level);
      forall j, k :: 0 <= j < k < |t.assigns| ==> NetworkNumber(t.assigns[j].net) != NetworkNumber(t.assigns[k].net)
  {
    BuildKeepsSubnetsFresh(s, parent, b, level);
    BuildSubnets(s, parent, b, level);
    BuildCounts(s, parent, b, level);
    var t := Build(s, parent, b, level);
    forall k | 0 <= k < |t.assigns|
      ensures OctetsFit(t.assigns[k].net)
    {
      if k < |s.assigns| {
        assert t.assigns[k] == t.assigns[..|s.assigns|][k];
      }
    }
    forall j, k | 0 <= j < k < |t.assigns|
      ensures NetworkNumber(t.assigns[j].net) != NetworkNumber(t.assigns[k].net)
    {
      NetworkNumberInjective(t.assigns[j].net, t.assigns[k].net);
    }
  }
}
