/** Installing echo servers on a node container and echo clients toward an interface list. */
module Echo {
  import opened Types

  /** Spacing unit of the client start times: a start offset of 1/DelayUnit s per target. */
  const DelayUnit: int := 10000
  /** Each client sends exactly one packet of 1 << 10 bytes. */
  const ClientMaxPackets: nat := 1
  const ClientPacketSize: nat := 1024

  /** `k` copies of `app`. */
  function Repeat(app: App, k: nat): seq<App>
  {
    seq(k, _ => app)
  }

  /**
   * The node application lists after the server loop has appended `app` to the list of every
   * node of `nodes`, in container order.
   */
  function AppendToAll(apps: seq<seq<App>>, nodes: seq<nat>, app: App): (r: seq<seq<App>>)
    requires forall k :: 0 <= k < |nodes| ==> nodes[k] < |apps|
    ensures |r| == |apps|
    decreases |nodes|
  {
    if nodes == [] then apps
    else AppendToAll(apps[nodes[0] := apps[nodes[0]] + [app]], nodes[1..], app)
  }

  /**
   * Each node gains one copy of `app` per occurrence in the container and nothing else;
   * a node outside the container keeps its list.
   */
  lemma {:induction false} AppendToAllAt(apps: seq<seq<App>>, nodes: seq<nat>, app: App, n: nat)
    requires forall k :: 0 <= k < |nodes| ==> nodes[k] < |apps|
    requires n < |apps|
    ensures AppendToAll(apps, nodes, app)[n] == apps[n] + Repeat(app, multiset(nodes)[n])
    decreases |nodes|
  {
    if nodes == [] {
      assert Repeat(app, 0) == [];
    } else {
      var apps' := apps[nodes[0] := apps[nodes[0]] + [app]];
      AppendToAllAt(apps', nodes[1..], app, n);
      assert nodes == [nodes[0]] + nodes[1..];
      assert multiset(nodes) == multiset{nodes[0]} + multiset(nodes[1..]);
      if nodes[0] == n {
        assert Repeat(app, multiset(nodes)[n]) == [app] + Repeat(app, multiset(nodes[1..])[n]);
      }
    }
  }

  /** Start time of the client for interface index `ip`: start + (ip - 1) / (2 * DelayUnit). */
  function StartTime(start: real, ip: nat): real
  {
    start + (ip as real - 1.0) / (2.0 * DelayUnit as real)
  }

  /** The client created for interface index `ip`. */
  function ClientFor(ifaces: seq<Interface>, port: int, start: real, end: real, ip: nat): App
    requires ip < |ifaces|
  {
    EchoClient(ifaces[ip].addr, port, ClientMaxPackets, ClientPacketSize, StartTime(start, ip), end)
  }

  /** The clients created by the stride-2 loop from index `ip` on, in creation order. */
  function ClientsFrom(ifaces: seq<Interface>, port: int, start: real, end: real, ip: nat): seq<App>
    decreases |ifaces| - ip
  {
    if ip >= |ifaces| then []
    else [ClientFor(ifaces, port, start, end, ip)] + ClientsFrom(ifaces, port, start, end, ip + 2)
  }

  /** The clients the installer appends: the loop starts at index 1. */
  function Clients(ifaces: seq<Interface>, port: int, start: real, end: real): seq<App>
  {
    ClientsFrom(ifaces, port, start, end, 1)
  }

  /** Closed form of the loop from `ip`: one client for every index ip, ip + 2, ... below |ifaces|. */
  lemma {:induction false} ClientsFromAt(ifaces: seq<Interface>, port: int, start: real, end: real, ip: nat)
    ensures var cs := ClientsFrom(ifaces, port, start, end, ip);
      |cs| == (if ip < |ifaces| then (|ifaces| - ip + 1) / 2 else 0) &&
      forall j :: 0 <= j < |cs| ==> ip + 2 * j < |ifaces| && cs[j] == ClientFor(ifaces, port, start, end, ip + 2 * j)
    decreases |ifaces| - ip
  {
    if ip < |ifaces| {
      ClientsFromAt(ifaces, port, start, end, ip + 2);
      var cs := ClientsFrom(ifaces, port, start, end, ip);
      var rest := ClientsFrom(ifaces, port, start, end, ip + 2);
      assert cs == [ClientFor(ifaces, port, start, end, ip)] + rest;
      forall j | 0 <= j < |cs|
        ensures ip + 2 * j < |ifaces| && cs[j] == ClientFor(ifaces, port, start, end, ip + 2 * j)
      {
        if j > 0 {
          assert cs[j] == rest[j - 1];
        }
      }
    }
  }

  /**
   * The clients target exactly the odd indices below |ifaces| (so |ifaces| / 2 of them, none when
   * |ifaces| <= 1), each on `port` with one packet of 1024 bytes; the j-th starts at
   * start + j / DelayUnit and every one stops at `end`.
   */
  lemma ClientsSchedule(ifaces: seq<Interface>, port: int, start: real, end: real)
    ensures var cs := Clients(ifaces, port, start, end);
      |cs| == |ifaces| / 2 &&
      forall j :: 0 <= j < |cs| ==>
        cs[j] == EchoClient(ifaces[2 * j + 1].addr, port, 1, 1024, start + j as real / 10000.0, end)
  {
    ClientsFromAt(ifaces, port, start, end, 1);
    var cs := Clients(ifaces, port, start, end);
    forall j | 0 <= j < |cs|
      ensures cs[j] == EchoClient(ifaces[2 * j + 1].addr, port, 1, 1024, start + j as real / 10000.0, end)
    {
      assert StartTime(start, 2 * j + 1) == start + j as real / 10000.0;
    }
  }

  /** The first client starts at `start`; consecutive clients are 1/10000 s apart, so starts strictly increase. */
  lemma ClientsStaggered(ifaces: seq<Interface>, port: int, start: real, end: real)
    ensures var cs := Clients(ifaces, port, start, end);
      (|cs| > 0 ==> cs[0].start == start) &&
      (forall j :: 0 <= j < |cs| - 1 ==> cs[j + 1].start == cs[j].start + 1.0 / 10000.0) &&
      (forall j, k :: 0 <= j < k < |cs| ==> cs[j].start < cs[k].start) &&
      (forall j :: 0 <= j < |cs| ==> cs[j].stop == end)
  {
    ClientsSchedule(ifaces, port, start, end);
  }

  /**
   * When the container alternates parent-side (host .1) and child-side (host .2) entries, the
   * positional stride-2 selection picks exactly the child-side addresses: every client targets a
   * host .2 address and every host .2 entry is targeted by the client at half its index.
   */
  lemma ClientsTargetChildSide(ifaces: seq<Interface>, port: int, start: real, end: real)
    requires |ifaces| % 2 == 0
    requires forall k :: 0 <= k < |ifaces| ==> ifaces[k].addr.host == (if k % 2 == 0 then 1 else 2)
    ensures var cs := Clients(ifaces, port, start, end);
      (forall j :: 0 <= j < |cs| ==> cs[j].EchoClient? && cs[j].remote.host == 2) &&
      (forall k :: 0 <= k < |ifaces| && ifaces[k].addr.host == 2 ==> k / 2 < |cs| && cs[k / 2].EchoClient? && cs[k / 2].remote == ifaces[k].addr)
  {
    ClientsFromAt(ifaces, port, start, end, 1);
    var cs := Clients(ifaces, port, start, end);
    forall j | 0 <= j < |cs|
      ensures cs[j].EchoClient? && cs[j].remote.host == 2
    {
      assert (1 + 2 * j) % 2 == 1;
    }
    forall k | 0 <= k < |ifaces| && ifaces[k].addr.host == 2
      ensures k / 2 < |cs| && cs[k / 2].EchoClient? && cs[k / 2].remote == ifaces[k].addr
    {
      assert k % 2 == 1;
      assert 1 + 2 * (k / 2) == k;
    }
  }
}
