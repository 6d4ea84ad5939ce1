/** main() from the three snapshots to its four tables, in the order it
    prints them: nodes, pods, services, connection strings. */
module Report {
  import opened GoText
  import opened Cluster
  import opened Nodes
  import opened Pods
  import opened Services
  import opened Connections

  /** The bodies of the four tables main() prints, in order. */
  datatype Tables = Tables(
    nodes: seq<NodeRow>, pods: seq<PodRow>, services: seq<ServiceRow>, connections: seq<ConnectionRow>)

  /** The data flow of main(): the node loop collects `nodeIPs`, the pod loop
      filters pods, the service loop builds `ret`, `ret` is sorted in place
      and expanded into connection rows. Also returns the sorted `ret`. */
  method Run(nodes: seq<Node>, pods: seq<Pod>, services: seq<Service>, matches: NameFilter)
    returns (tables: Tables, ret: seq<Exposed>)
    ensures tables.nodes == NodeTable(nodes)
    ensures tables.pods == PodTable(pods, matches)
    ensures tables.services == ServiceTable(services, matches)
    ensures SortedByName(ret, ExposedRecords(services, matches, InternalIPs(nodes)))
    ensures tables.connections == ConnectionRows(ret)
  {
    var nodeRows, nodeIPs := ScanNodes(nodes);
    var podRows := ScanPods(pods, matches);
    var serviceRows, unsorted := ScanServices(services, matches, nodeIPs);
    var a := new Exposed[|unsorted|](k requires 0 <= k < |unsorted| => unsorted[k]);
    assert a[..] == unsorted;
    SortByName(a);
    ret := a[..];
    var connectionRows := ExpandConnections(ret);
    tables := Tables(nodeRows, podRows, serviceRows, connectionRows);
  }

  /** After sorting, every record still carries the full `nodeIPs` list. */
  lemma SortedCarry(nodes: seq<Node>, services: seq<Service>, matches: NameFilter, ret: seq<Exposed>)
    requires SortedByName(ret, ExposedRecords(services, matches, InternalIPs(nodes)))
    ensures AllCarry(ret, InternalIPs(nodes))
  {
    var records := ExposedRecords(services, matches, InternalIPs(nodes));
    ExposedShareAddresses(services, matches, InternalIPs(nodes));
    forall k | 0 <= k < |ret|
      ensures ret[k].addresses == InternalIPs(nodes)
    {
      assert ret[k] in multiset(records);
    }
  }

  /** The connection table has one row per qualifying (service, port) pair
      and InternalIP address: the count of such pairs times |nodeIPs|. */
  lemma ConnectionCount(nodes: seq<Node>, services: seq<Service>, matches: NameFilter, ret: seq<Exposed>)
    requires SortedByName(ret, ExposedRecords(services, matches, InternalIPs(nodes)))
    ensures |ConnectionRows(ret)| == |EligiblePairs(services, matches)| * |InternalIPs(nodes)|
  {
    var records := ExposedRecords(services, matches, InternalIPs(nodes));
    SortedCarry(nodes, services, matches, ret);
    ConnectionRowsLength(ret, InternalIPs(nodes));
    ExposedCount(services, matches, InternalIPs(nodes));
    assert |ret| == |multiset(ret)| == |multiset(records)| == |records|;
  }

  /** Two runs over the same snapshots list the records' names in the same
      order, and so print connection tables of the same length whose rows
      name the same services in the same order; only records that share a
      name may be ordered differently. */
  lemma RunsAgreeOnNames(
    nodes: seq<Node>, services: seq<Service>, matches: NameFilter, ret1: seq<Exposed>, ret2: seq<Exposed>)
    requires SortedByName(ret1, ExposedRecords(services, matches, InternalIPs(nodes)))
    requires SortedByName(ret2, ExposedRecords(services, matches, InternalIPs(nodes)))
    ensures |ret1| == |ret2| && forall k :: 0 <= k < |ret1| ==> ret1[k].name == ret2[k].name
    ensures |ConnectionRows(ret1)| == |ConnectionRows(ret2)|
    ensures forall k :: 0 <= k < |ConnectionRows(ret1)| ==> ConnectionRows(ret1)[k].name == ConnectionRows(ret2)[k].name
  {
    SortedNamesDetermined(ret1, ret2, ExposedRecords(services, matches, InternalIPs(nodes)));
    assert |Names(ret1)| == |ret1| && |Names(ret2)| == |ret2|;
    forall k | 0 <= k < |ret1|
      ensures ret1[k].name == ret2[k].name
    {
      assert Names(ret1)[k] == ret1[k].name && Names(ret2)[k] == ret2[k].name;
    }
    var ips := InternalIPs(nodes);
    SortedCarry(nodes, services, matches, ret1);
    SortedCarry(nodes, services, matches, ret2);
    ConnectionRowsLength(ret1, ips);
    ConnectionRowsLength(ret2, ips);
    forall k | 0 <= k < |ConnectionRows(ret1)|
      ensures ConnectionRows(ret1)[k].name == ConnectionRows(ret2)[k].name
    {
      var i, j := RowIndex(k, |ret1|, |ips|);
      ConnectionRowAt(ret1, ips, i, j);
      ConnectionRowAt(ret2, ips, i, j);
    }
  }

  // ---------------------------------------------------------------------
  // A worked example: one node with one internal address, a NodePort
  // service "web" on node port 30080 and a ClusterIP service "api".
  // ---------------------------------------------------------------------

  const ExampleNodes: seq<Node> := [Node("n1", [NodeAddress("InternalIP", "10.0.0.1")])]

  const ExampleServices: seq<Service> := [
    Service("web", "NodePort", [ServicePort("TCP", 80, "80", 30080)]),
    Service("api", "ClusterIP", [ServicePort("TCP", 443, "443", 0)])
  ]

  /** The record main() builds for the "web" port. */
  const Web: Exposed := Exposed("web", 30080, "TCP", ["10.0.0.1"])

  lemma ExampleAddresses()
    ensures InternalIPs(ExampleNodes) == ["10.0.0.1"]
  {
    var n1 := ExampleNodes[0];
    assert ExampleNodes == [n1];
    InternalIPsSingle(n1);
    assert NodeIPsUpTo(n1, 0) == [];
  }

  lemma ExampleRecords()
    ensures ExposedRecords(ExampleServices, DotMatches, ["10.0.0.1"]) == [Web]
  {
    var ips := ["10.0.0.1"];
    var web, api := ExampleServices[0], ExampleServices[1];
    assert web.name[0] != '\n' && api.name[0] != '\n';
    DotMatchesExactly(web.name);
    DotMatchesExactly(api.name);
    assert PortRecordsUpTo(web, 0, ips) == [] && PortRecordsUpTo(api, 0, ips) == [];
    assert PortRecords(web, ips) == [Web];
    assert PortRecords(api, ips) == [];
    assert ExposedUpTo(ExampleServices, DotMatches, 0, ips) == [];
    assert ExposedUpTo(ExampleServices, DotMatches, 1, ips) == [Web];
  }

  lemma ExampleDecimal()
    ensures Decimal(30080) == "30080"
  {
    assert NatDecimal(3) == "3";
    assert NatDecimal(30) == "30";
    assert NatDecimal(300) == "300";
    assert NatDecimal(3008) == "3008";
  }

  lemma ExampleRows()
    ensures ConnectionRows([Web]) == [ConnectionRow(1, "web", "TCP", "10.0.0.1", 30080)]
  {
    assert ConnectionRowsUpTo([Web], 0) == [];
    assert EndpointRowsUpTo(Web, 0, 0) == [];
  }

  /** With the default filter, the connection table holds exactly one row,
      printed as "web", "TCP", "10.0.0.1:30080"; the ClusterIP service "api"
      contributes nothing. */
  lemma ExampleConnections(ret: seq<Exposed>)
    requires SortedByName(ret, ExposedRecords(ExampleServices, DotMatches, InternalIPs(ExampleNodes)))
    ensures ConnectionRows(ret) == [ConnectionRow(1, "web", "TCP", "10.0.0.1", 30080)]
    ensures ConnectionText(ConnectionRows(ret)[0]) == "10.0.0.1:30080"
  {
    ExampleAddresses();
    ExampleRecords();
    assert multiset(ret) == multiset{Web};
    assert |ret| == 1;
    assert ret[0] in multiset(ret);
    assert ret == [Web];
    ExampleRows();
    ExampleDecimal();
  }
}
