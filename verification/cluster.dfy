/** The snapshot objects the report reads (nodes, pods, services and their
    ports), the `exposed` record it derives, the rows of its four tables, and
    the name filter it applies to pods and services. The cluster client that
    fetches the snapshots is not part of this model: snapshots are inputs. */
module Cluster {

  /** Go's int32, the type of a service port and of a node port. */
  newtype int32 = x: int | -0x8000_0000 <= x < 0x8000_0000

  /** The address type that main() collects for connection strings. */
  const InternalIP: string := "InternalIP"

  /** The service type whose node ports main() exposes. */
  const NodePortType: string := "NodePort"

  /** One entry of a node's status addresses: its type label and its value. */
  datatype NodeAddress = NodeAddress(addrType: string, address: string)

  datatype Node = Node(name: string, addresses: seq<NodeAddress>)

  /** A pod's name and the IP of the host it runs on (empty when unscheduled). */
  datatype Pod = Pod(name: string, hostIP: string)

  /** One port entry of a service. The target port is kept as the text its
      own String method gives, which this model does not derive. */
  datatype ServicePort = ServicePort(protocol: string, port: int32, targetPort: string, nodePort: int32)

  datatype Service = Service(name: string, serviceType: string, ports: seq<ServicePort>)

  /** The `exposed` struct: a service name, a node port, its protocol and the
      internal node addresses on which that node port is reachable. */
  datatype Exposed = Exposed(name: string, port: int32, protocol: string, addresses: seq<string>)

  /** A row of the nodes table: `№ Name Type Address`. */
  datatype NodeRow = NodeRow(ordinal: int, name: string, addrType: string, address: string)

  /** A row of the pods table: `№ Name NodeIP`. */
  datatype PodRow = PodRow(ordinal: int, name: string, hostIP: string)

  /** A row of the services table: `№ Name Protocol Port Target NodePort Type`. */
  datatype ServiceRow = ServiceRow(
    ordinal: int, name: string, protocol: string, port: int32,
    target: string, nodePort: int32, serviceType: string)

  /** A row of the connection table: `№ Name Protocol Connection`, where the
      Connection column prints `address:port`. */
  datatype ConnectionRow = ConnectionRow(ordinal: int, name: string, protocol: string, address: string, port: int32)

  /** The compiled `grep` pattern, applied to pod and service names. The
      regular-expression engine is not modelled: the filter is any predicate. */
  type NameFilter = string -> bool

  /** The pattern `.`, which main() compiles when `grep` is empty: it finds a
      match wherever the name holds a character other than a newline. */
  predicate DotMatches(name: string)
  {
    |name| > 0 && (name[0] != '\n' || DotMatches(name[1..]))
  }

  /** The default filter passes exactly the names that hold a non-newline
      character; in particular it rejects the empty name, so it is not a
      match-all filter. */
  lemma {:induction false} DotMatchesExactly(name: string)
    ensures DotMatches(name) <==> exists k :: 0 <= k < |name| && name[k] != '\n'
  {
    if |name| > 0 {
      DotMatchesExactly(name[1..]);
      if name[0] == '\n' && DotMatches(name) {
        var k :| 0 <= k < |name[1..]| && name[1..][k] != '\n';
        assert name[k + 1] != '\n';
      }
      if !DotMatches(name) {
        forall k | 0 <= k < |name|
          ensures name[k] == '\n'
        {
          if k > 0 {
            assert name[k] == name[1..][k - 1];
          }
        }
      }
    }
  }
}
