# networkTree: a verified model of the ns-3 tree builder

The ns-3 script `networkTree.cc` builds a balanced k-ary tree of CSMA links under a client
node. Each link gets its own /24 subnet. The script then installs UDP echo servers on the
children of the bottom-level calls, and one single-packet UDP echo client per served leaf on
the client. The client start times are staggered by 100 µs. `recTree.cc` is the same file byte
for byte, so everything below, including the line numbers, applies to it as well.

The model has five modules:

- `Types`: the values the builder produces. These are subnets `o1.o2.o3.0/24`, addresses,
  links (parent device first), subnet assignments, interface-container entries and the two
  application kinds. `Net` is the whole state the builder changes: the static `branch`
  counter, every node's application list (node ids are creation-order indices), the links,
  the assignments and the caller's `ipInterfaces` container.
- `Echo`: the two installers as functions on application lists. `AppendToAll` is the
  server loop. `ClientsFrom`/`Clients` is the stride-2 client loop with the start time
  `start + (ip - 1) / (2 * 10000)`.
- `Tree`: `networkTree` as a function of the state. `Build` is one call. `AssignFrom` is the
  address loop from link `i` on, which recurses into child `i` right after addressing its
  link. `LinkStep` is one loop body. The counter is threaded through these functions exactly
  as the static variable is: it is read when a link is addressed and incremented once at the
  end of each call with `level > 0`. This module holds the lemmas on counts, link shape,
  subnet values, collision freedom, the interface container and server placement.
- `Ipv4`: subnets as 32-bit network numbers, and when distinct triples stay distinct
  numbers.
- `Builder`: the program as it runs. Class `Topology` holds the counter, the application
  lists, the links, the assignments and the interface container as fields. Its methods are
  the source's loops, and each is proved to move the state exactly as the `Tree`/`Echo`
  function says. `Scenario` is `main`'s call sequence.

## Model

| member | source | states |
|---|---|---|
| Echo.AppendToAllAt | networkTree.cc:179-189 | after the server loop, each node's list is its old list plus one copy of the server per occurrence of the node in the container; a node outside the container keeps its list |
| Echo.ClientsFromAt | networkTree.cc:197-208 | the loop from index ip creates one client per index ip, ip+2, … below N, in order; the j-th is the client for index ip + 2j |
| Echo.ClientsSchedule | networkTree.cc:197-208 | N/2 clients (none when N ≤ 1); client j targets entry 2j+1 on `port` with MaxPackets 1 and PacketSize 1024, starts at start + j/10000 and stops at `end` |
| Echo.ClientsStaggered | networkTree.cc:205-208 | the first client starts at `start`; consecutive clients are 1/10000 s (100 µs) apart; start times strictly increase; every stop time is `end` |
| Echo.ClientsTargetChildSide | networkTree.cc:193-200 | on a container of alternating .1/.2 entries, every client targets a host-.2 (child-side) address, and every host-.2 entry k is the target of client k/2 |
| Tree.PreparedExtends | networkTree.cc:134-157 | before the address loop: exactly numLeaves new nodes, parent-first links to each in order, the new nodes carry the leaf server at level 1 and nothing otherwise, old nodes, counter, assignments and interfaces unchanged |
| Tree.BuildCounts | networkTree.cc:131-177 | a call with level ≤ 0 changes nothing; otherwise `branch` grows by 1 + b + … + b^(d-1), nodes, links and assignments by b + … + b^d, interfaces by 2·b^d, and existing entries are kept |
| Tree.AssignFromCounts | networkTree.cc:162-174 | from link i on, the address loop adds (b − i) subtrees' worth of counter increments, nodes and links, one assignment per link plus the subtrees', 2·b^(level−1) interfaces per link, and only appends |
| Tree.BuildChildLinks | networkTree.cc:134-151 | a call with level > 0 starts with b links parent → new node |s.apps| + i, in order, parent first |
| Tree.BuildLinks | networkTree.cc:131-177 | the k-th new link of a call leads to the k-th new node, and its first device is `parent` or a node the same call created earlier: the links form a tree under `parent` |
| Tree.AssignFromLinks | networkTree.cc:162-174 | the same link shape for the links the address loop adds from link i on |
| Tree.BuildSubnets | networkTree.cc:162-175 | every subnet a call assigns has first octet in 10 … 9+level, branch between the counter's values before and after the call, third octet in 1 … numLeaves, and no subnet is assigned twice within the call |
| Tree.AssignFromSubnets | networkTree.cc:162-174 | the same bounds for the address loop from link i on; its links at this level have third octet above i; no repeats |
| Tree.BuildKeepsSubnetsFresh | networkTree.cc:162-175 | if all subnets so far are distinct and below the counter, the same holds after the call: successive calls never collide |
| Tree.AssignRound | networkTree.cc:162-173 | one round of the address loop assigns link i the subnet (9+level).branch.(i+1) at the current counter, then advances the counter by one subtree |
| Tree.AssignFromLinkAt | networkTree.cc:162-173 | the assignment for link i sits after (i − i0) rounds and carries branch + (i − i0)·g, where g is one subtree's counter increments |
| Tree.CallLinkSubnet | networkTree.cc:162-166 | link i of a call joins `parent` to child i and gets subnet (9+level).(B + i·g).(i+1).0, with B the counter at the call and g = 1 + … + b^(level−2) |
| Tree.SiblingBranches | networkTree.cc:164-175 | the links of a level-1 call share one branch value; at level ≥ 2 a later sibling's branch is strictly greater |
| Tree.BuildIfaces | networkTree.cc:166-169 | a call keeps the interface container alternating parent side .1 / child side .2; each pair shares the subnet of an existing link between the two nodes, and the child carries exactly the leaf server |
| Tree.AssignFromIfaces | networkTree.cc:162-174 | the same invariant through the address loop |
| Tree.LinkStepIfaces | networkTree.cc:164-169 | a level-1 round appends exactly two entries after the old ones: the parent as host .1, then child first + i as host .2, both in the subnet the same round assigns to the link parent → first + i (the old assignments are kept); the interface-container invariant carries over |
| Tree.BuildServers | networkTree.cc:131-177 | every new node gets no application or exactly the leaf server (port 9, 1.0 to 2000.0), and b^level of them get the server |
| Tree.AssignFromServers | networkTree.cc:162-174 | every node the address loop creates is bare or exactly the leaf server; from link i on, (b − i)·b^(level−1) of them are served at level > 1 and none at level 1, where the servers were installed on the children before the loop |
| Tree.MainTopology | networkTree.cc:105-110 | networkTree(client, 3, 2) on a fresh counter gives 12 new nodes, links and subnets, 9 served leaves (not 6), 18 interface entries, counter 5, and no application on the client |
| Ipv4.NetworkNumberInjective | networkTree.cc:164-165 | with octets in 0 … 255, distinct subnets have distinct network numbers |
| Ipv4.BuildNetworkNumbersDistinct | networkTree.cc:160-175 | on a collision-free state whose octets fit, with 9+level ≤ 255, numLeaves ≤ 255 and a final counter ≤ 256, all assigned network numbers are pairwise distinct |
| Builder.Topology.constructor | networkTree.cc:75-105 | counter 1, no nodes, links, assignments or interfaces; collision-free and a well-formed interface container |
| Builder.Topology.CreateNodes | networkTree.cc:134-135 | appends `count` nodes without applications and returns the first new id |
| Builder.Topology.NetworkTree | networkTree.cc:131-177 | the new state is Build of the old; collision freedom and the interface-container invariant are preserved |
| Builder.Topology.AssignAddresses | networkTree.cc:159-174 | the address loop moves the state exactly as AssignFrom from link 0 |
| Builder.Topology.ConnectLeaves | networkTree.cc:147-151 | appends one parent-first link per child, in order, and changes nothing else |
| Builder.Topology.InstallUdpEchoServers | networkTree.cc:179-189 | appends the server (port, start, end) to every node of the container, in order, and changes nothing else |
| Builder.Topology.InstallUdpEchoClient | networkTree.cc:191-210 | appends to `node`, and only to it, the clients of the stride-2 loop over the container |
| Builder.Scenario | networkTree.cc:97-114 | main's sequence yields 13 nodes, counter 5, 18 interface entries, 9 clients on the client node, and pairwise distinct subnets |

Two facts about the code that the lemmas pin down:

- `ip` steps by 2, so the start offset (ip − 1)/(2·10000) grows by 1/10000 s per client:
  100 µs, as the comment at networkTree.cc:205 says (`Echo.ClientsStaggered`).
- The comment at networkTree.cc:108 counts 3·2 = 6 servers; the call at networkTree.cc:110
  builds 3² = 9 (`Tree.MainTopology`).

## Left out

- `main`'s logging, `Config::SetDefault`, routing-table population and the `Simulator`
  run/stop/destroy (networkTree.cc:82-95, 116-128) belong to the simulation engine.
  `Builder.Scenario` keeps only the node, tree and client steps.
- CSMA channel and queue attributes and `InternetStackHelper::Install`
  (networkTree.cc:99-100, 140-145, 154-155) are library configuration with no effect on the
  modelled state.
- `Ipv4AddressHelper` is abstracted as giving host .1 to the first device of the link (the
  parent) and host .2 to the second (the child) of the fresh subnet. Its internals, and the
  ns-3 node, device and application objects, are not part of this model.
- `sprintf` into `char buffer[15]` is modelled as the integer triple itself. The model does not
  capture a triple whose octets exceed 255 or whose text overflows the buffer. The byte bound
  is instead a precondition of `Ipv4.BuildNetworkNumbersDistinct`.
- Builder.Topology.NetworkTree: `numLeaves` is a `nat`. The C++ `int` goes to
  `NodeContainer::Create`, which takes an unsigned count, so a negative value is a
  configuration error rather than a modelled path.
- Float `start`/`end` and `Seconds(...)` are modelled as exact `real` arithmetic. Rounding to
  `float` and to the simulator's time resolution is not modelled.
- Packet sending, echoing, ARP and queueing at simulation time are behaviour of the engine.
  They are not modelled.
