/**
 * The builder as the program runs it: the process-wide branch counter and the caller's interface
 * container are fields that the methods update in place, alongside the nodes' application lists,
 * the links and the subnet assignments. Each method is proved to move the state exactly as the
 * functions of module Tree and Echo describe.
 */
module Builder {
  import opened Types
  import opened Echo
  import opened Tree

  class Topology {
    /** The static counter, initialised to 1 and never reset. */
    var branch: int
    /** Application list of every node; node ids are indices in creation order. */
    var nodeApps: seq<seq<App>>
    var links: seq<Link>
    var assignments: seq<Assignment>
    /** The interface container the caller hands to the builder and the client installer. */
    var ipInterfaces: seq<Interface>

    function State(): Net
      reads this
    {
      Net(branch, nodeApps, links, assignments, ipInterfaces)
    }

    /** Every link, assignment and interface refers to a node that exists. */
    ghost predicate Valid()
      reads this
    {
      (forall k :: 0 <= k < |links| ==> links[k].parent < |nodeApps| && links[k].child < |nodeApps|) &&
      (forall k :: 0 <= k < |assignments| ==>
        assignments[k].link.parent < |nodeApps| && assignments[k].link.child < |nodeApps|) &&
      (forall k :: 0 <= k < |ipInterfaces| ==> ipInterfaces[k].node < |nodeApps|)
    }

    constructor ()
      ensures Valid() && State() == Net(1, [], [], [], [])
      ensures SubnetsFresh(State()) && LeafInterfaces(State())
    {
      branch := 1;
      nodeApps := [];
      links := [];
      assignments := [];
      ipInterfaces := [];
    }

    /** Creates `count` nodes without applications; `first` is the id of the first of them. */
    method CreateNodes(count: nat) returns (first: nat)
      requires Valid()
      modifies this
      ensures Valid() && first == old(|nodeApps|)
      ensures State() == old(State()).(apps := old(nodeApps) + FreshNodes(count))
    {
      first := |nodeApps|;
      nodeApps := nodeApps + FreshNodes(count);
    }

    /**
     * networkTree(parent, numLeaves, level): the state afterwards is Build of the state before.
     * Subnet collision freedom and the shape of the interface container carry over.
     */
    method NetworkTree(parent: nat, numLeaves: nat, level: int)
      requires Valid() && parent < |nodeApps|
      modifies this
      ensures Valid() && old(|nodeApps|) <= |nodeApps|
      ensures State() == Build(old(State()), parent, numLeaves, level)
      ensures SubnetsFresh(old(State())) ==> SubnetsFresh(State())
      ensures LeafInterfaces(old(State())) ==> LeafInterfaces(State())
      decreases Depth(level), 1
    {
      ghost var s0 := State();
      if level > 0 {
        var first := CreateNodes(numLeaves);
        ConnectLeaves(parent, first, numLeaves);
        if level == 1 {
          InstallUdpEchoServers(Range(first, numLeaves), 9, 1.0, 2000.0);
        }
        assert State() == Prepared(s0, parent, numLeaves, level);
        AssignAddresses(parent, first, numLeaves, level);
        branch := branch + 1;
      }
      if SubnetsFresh(s0) {
        BuildKeepsSubnetsFresh(s0, parent, numLeaves, level);
      }
      if LeafInterfaces(s0) {
        BuildIfaces(s0, parent, numLeaves, level);
      }
    }

    /**
     * The address loop of networkTree: link netDev gets subnet
     * (LevelBase + level).branch.(netDev + 1).0/24 with the counter's current value, a level-1
     * call appends the parent-side and child-side interfaces, and child netDev's subtree is built
     * before the next link is addressed.
     */
    method AssignAddresses(parent: nat, first: nat, numLeaves: nat, level: int)
      requires 1 <= level && Valid() && parent < first && first + numLeaves <= |nodeApps|
      modifies this
      ensures Valid() && old(|nodeApps|) <= |nodeApps|
      ensures State() == AssignFrom(old(State()), parent, first, numLeaves, level, 0)
      decreases level, 0
    {
      var netDev := 0;
      while netDev < numLeaves
        invariant 0 <= netDev <= numLeaves
        invariant Valid() && old(|nodeApps|) <= |nodeApps|
        invariant AssignFrom(State(), parent, first, numLeaves, level, netDev) == AssignFrom(old(State()), parent, first, numLeaves, level, 0)
      {
        ghost var sCur := State();
        var net := Subnet(LevelBase + level, branch, netDev + 1);
        assignments := assignments + [Assignment(Link(parent, first + netDev), net)];
        if level == 1 {
          ipInterfaces := ipInterfaces + [Interface(parent, Address(net, 1)), Interface(first + netDev, Address(net, 2))];
        }
        assert State() == LinkStep(sCur, parent, first, level, netDev);
        NetworkTree(first + netDev, numLeaves, level - 1);
        assert AssignFrom(sCur, parent, first, numLeaves, level, netDev) ==
               AssignFrom(State(), parent, first, numLeaves, level, netDev + 1);
        netDev := netDev + 1;
      }
    }

    /** Joins `parent` to each of the nodes first .. first + count - 1 by one link, parent first, in order. */
    method ConnectLeaves(parent: nat, first: nat, count: nat)
      requires Valid() && parent < |nodeApps| && first + count <= |nodeApps|
      modifies this
      ensures Valid()
      ensures State() == old(State()).(links := old(links) + ChildLinks(parent, first, count))
    {
      var leaf := 0;
      while leaf < count
        invariant 0 <= leaf <= count
        invariant Valid()
        invariant State() == old(State()).(links := old(links) + ChildLinks(parent, first, leaf))
      {
        links := links + [Link(parent, first + leaf)];
        leaf := leaf + 1;
        assert links == old(links) + ChildLinks(parent, first, leaf);
      }
    }

    /** installUdpEchoServers: one echo server (port, start, end) appended to each node of `leaves`, in order. */
    method InstallUdpEchoServers(leaves: seq<nat>, port: int, start: real, end: real)
      requires Valid() && forall k :: 0 <= k < |leaves| ==> leaves[k] < |nodeApps|
      modifies this
      ensures Valid()
      ensures State() == old(State()).(apps := AppendToAll(old(nodeApps), leaves, EchoServer(port, start, end)))
    {
      var leaf := 0;
      while leaf < |leaves|
        invariant 0 <= leaf <= |leaves| && |nodeApps| == old(|nodeApps|)
        invariant State() == old(State()).(apps := nodeApps)
        invariant AppendToAll(nodeApps, leaves[leaf..], EchoServer(port, start, end)) ==
                  AppendToAll(old(nodeApps), leaves, EchoServer(port, start, end))
      {
        var serverApp := EchoServer(port, start, end);
        var n := leaves[leaf];
        nodeApps := nodeApps[n := nodeApps[n] + [serverApp]];
        assert leaves[leaf..][1..] == leaves[leaf + 1..];
        leaf := leaf + 1;
      }
    }

    /**
     * installUdpEchoClient: walks the interface container from index 1 in steps of 2 and
     * appends to `node` one single-packet 1 KB client per visited address.
     */
    method InstallUdpEchoClient(node: nat, port: int, start: real, end: real)
      requires Valid() && node < |nodeApps|
      modifies this
      ensures Valid()
      ensures State() == old(State()).(apps := old(nodeApps)[node := old(nodeApps)[node] + Clients(old(ipInterfaces), port, start, end)])
    {
      var ip := 1;
      while ip < |ipInterfaces|
        invariant 1 <= ip && |nodeApps| == old(|nodeApps|)
        invariant State() == old(State()).(apps := nodeApps)
        invariant nodeApps == old(nodeApps)[node := nodeApps[node]]
        invariant nodeApps[node] + ClientsFrom(ipInterfaces, port, start, end, ip) ==
                  old(nodeApps)[node] + Clients(ipInterfaces, port, start, end)
      {
        var delay := DelayUnit;
        var echoClient := EchoClient(ipInterfaces[ip].addr, port, 1, 1024, start + (ip as real - 1.0) / (2.0 * delay as real), end);
        assert echoClient == ClientFor(ipInterfaces, port, start, end, ip);
        nodeApps := nodeApps[node := nodeApps[node] + [echoClient]];
        ip := ip + 2;
      }
      assert ClientsFrom(ipInterfaces, port, start, end, ip) == [];
      assert nodeApps[node] == old(nodeApps)[node] + Clients(ipInterfaces, port, start, end);
    }
  }

  /**
   * The driver's topology: a client node, networkTree(client, 3, 2) and the clients on port 9
   * in the window [2.0, 2000.0]. The tree has 3 * 3 = 9 served leaves, so the client gets 9
   * clients, and all 12 subnets are distinct.
   */
  method Scenario() returns (t: Topology)
    ensures t.Valid() && |t.nodeApps| == 13 && t.branch == 5
    ensures |t.ipInterfaces| == 18 && |t.nodeApps[0]| == 9
    ensures SubnetsFresh(t.State())
  {
    t := new Topology();
    var client := t.CreateNodes(1);
    ghost var s0 := t.State();
    assert s0 == Net(1, [[]], [], [], []);
    t.NetworkTree(client, 3, 2);
    MainTopology(s0);
    ghost var s1 := t.State();
    t.InstallUdpEchoClient(client, 9, 2.0, 2000.0);
    ClientsSchedule(s1.ifaces, 9, 2.0, 2000.0);
    assert t.State().assigns == s1.assigns && t.State().branch == s1.branch;
  }
}
