/** Values that the topology builder and the echo installers produce. */
module Types {

  /** A /24 subnet `o1.o2.o3.0` with mask 255.255.255.0. */
  datatype Subnet = Subnet(o1: int, o2: int, o3: int)

  /** Host `host` of a /24 subnet: `o1.o2.o3.host`. */
  datatype Address = Address(net: Subnet, host: nat)

  /** A two-device CSMA segment between two nodes, the parent's device first. */
  datatype Link = Link(parent: nat, child: nat)

  /** The subnet given to one link's device pair by the address helper. */
  datatype Assignment = Assignment(link: Link, net: Subnet)

  /** One entry of an interface container: the node owning the device and its address. */
  datatype Interface = Interface(node: nat, addr: Address)

  /** The applications a node may carry; times are in simulated seconds. */
  datatype App =
    | EchoServer(port: int, start: real, stop: real)
    | EchoClient(remote: Address, port: int, maxPackets: nat, packetSize: nat, start: real, stop: real)

  /**
   * Everything the builder changes: the process-wide branch counter, the application list of
   * every node (node ids are indices, in creation order), the links in creation order, the
   * subnet assignments in the order they are made and the caller's interface container.
   */
  datatype Net = Net(
    branch: int,
    apps: seq<seq<App>>,
    links: seq<Link>,
    assigns: seq<Assignment>,
    ifaces: seq<Interface>)
}
