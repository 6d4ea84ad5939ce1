/** The node phase of main(): one nodes-table row per (node, address) pair,
    and, in the same pass, the list `nodeIPs` of every InternalIP address. */
module Nodes {
  import opened Cluster

  /** The InternalIP addresses among the first k address entries of a node. */
  function NodeIPsUpTo(node: Node, k: nat): seq<string>
    requires k <= |node.addresses|
  {
    if k == 0 then []
    else
      var a := node.addresses[k - 1];
      NodeIPsUpTo(node, k - 1) + (if a.addrType == InternalIP then [a.address] else [])
  }

  /** The InternalIP addresses of the first n nodes, node by node. */
  function InternalIPsUpTo(nodes: seq<Node>, n: nat): seq<string>
    requires n <= |nodes|
  {
    if n == 0 then [] else InternalIPsUpTo(nodes, n - 1) + NodeIPsUpTo(nodes[n - 1], |nodes[n - 1].addresses|)
  }

  /** `nodeIPs` once the node loop has finished. */
  function InternalIPs(nodes: seq<Node>): seq<string>
  {
    InternalIPsUpTo(nodes, |nodes|)
  }

  /** The nodes-table rows of node number i (0-based) for its first k addresses. */
  function AddressRowsUpTo(node: Node, i: nat, k: nat): seq<NodeRow>
    requires k <= |node.addresses|
  {
    if k == 0 then []
    else
      var a := node.addresses[k - 1];
      AddressRowsUpTo(node, i, k - 1) + [NodeRow(i + 1, node.name, a.addrType, a.address)]
  }

  function NodeTableUpTo(nodes: seq<Node>, n: nat): seq<NodeRow>
    requires n <= |nodes|
  {
    if n == 0 then [] else NodeTableUpTo(nodes, n - 1) + AddressRowsUpTo(nodes[n - 1], n - 1, |nodes[n - 1].addresses|)
  }

  /** The body of the nodes table. */
  function NodeTable(nodes: seq<Node>): seq<NodeRow>
  {
    NodeTableUpTo(nodes, |nodes|)
  }

  /** The node loop: for each node and each of its addresses, print a row
      and, for an InternalIP address, append it to `nodeIPs`. */
  method ScanNodes(nodes: seq<Node>) returns (rows: seq<NodeRow>, nodeIPs: seq<string>)
    ensures rows == NodeTable(nodes)
    ensures nodeIPs == InternalIPs(nodes)
  {
    rows, nodeIPs := [], [];
    for i := 0 to |nodes|
      invariant rows == NodeTableUpTo(nodes, i)
      invariant nodeIPs == InternalIPsUpTo(nodes, i)
    {
      var node := nodes[i];
      for j := 0 to |node.addresses|
        invariant rows == NodeTableUpTo(nodes, i) + AddressRowsUpTo(node, i, j)
        invariant nodeIPs == InternalIPsUpTo(nodes, i) + NodeIPsUpTo(node, j)
      {
        var a := node.addresses[j];
        rows := rows + [NodeRow(i + 1, node.name, a.addrType, a.address)];
        if a.addrType == InternalIP {
          nodeIPs := nodeIPs + [a.address];
        }
      }
    }
  }

  // ---------------------------------------------------------------------
  // What nodeIPs holds
  // ---------------------------------------------------------------------

  lemma {:induction false} NodeIPsUpToMembership(node: Node, k: nat, ip: string)
    requires k <= |node.addresses|
    ensures ip in NodeIPsUpTo(node, k) <==> exists j :: 0 <= j < k && node.addresses[j] == NodeAddress(InternalIP, ip)
  {
    if k > 0 {
      NodeIPsUpToMembership(node, k - 1, ip);
    }
  }

  lemma {:induction false} InternalIPsUpToMembership(nodes: seq<Node>, n: nat, ip: string)
    requires n <= |nodes|
    ensures ip in InternalIPsUpTo(nodes, n) <==>
      exists i, j :: 0 <= i < n && 0 <= j < |nodes[i].addresses| && nodes[i].addresses[j] == NodeAddress(InternalIP, ip)
  {
    if n > 0 {
      InternalIPsUpToMembership(nodes, n - 1, ip);
      NodeIPsUpToMembership(nodes[n - 1], |nodes[n - 1].addresses|, ip);
    }
  }

  /** An address is in `nodeIPs` exactly when some node lists it with type
      InternalIP; addresses of any other type never are. */
  lemma InternalIPsMembership(nodes: seq<Node>, ip: string)
    ensures ip in InternalIPs(nodes) <==>
      exists i, j :: 0 <= i < |nodes| && 0 <= j < |nodes[i].addresses| && nodes[i].addresses[j] == NodeAddress(InternalIP, ip)
  {
    InternalIPsUpToMembership(nodes, |nodes|, ip);
  }

  lemma {:induction false} InternalIPsUpToPrefix(a: seq<Node>, b: seq<Node>, n: nat)
    requires n <= |a|
    ensures InternalIPsUpTo(a + b, n) == InternalIPsUpTo(a, n)
  {
    if n > 0 {
      InternalIPsUpToPrefix(a, b, n - 1);
      assert (a + b)[n - 1] == a[n - 1];
    }
  }

  lemma {:induction false} InternalIPsUpToSuffix(a: seq<Node>, b: seq<Node>, k: nat)
    requires k <= |b|
    ensures InternalIPsUpTo(a + b, |a| + k) == InternalIPs(a) + InternalIPsUpTo(b, k)
  {
    if k == 0 {
      InternalIPsUpToPrefix(a, b, |a|);
    } else {
      InternalIPsUpToSuffix(a, b, k - 1);
      var node := b[k - 1];
      assert (a + b)[|a| + k - 1] == node;
      calc {
        InternalIPsUpTo(a + b, |a| + k);
        InternalIPsUpTo(a + b, |a| + k - 1) + NodeIPsUpTo(node, |node.addresses|);
        InternalIPs(a) + (InternalIPsUpTo(b, k - 1) + NodeIPsUpTo(node, |node.addresses|));
      }
    }
  }

  /** `nodeIPs` follows node order: the addresses of the nodes listed first
      come first, and nothing is merged across nodes, so an address that two
      nodes share appears twice. */
  lemma InternalIPsAppend(a: seq<Node>, b: seq<Node>)
    ensures InternalIPs(a + b) == InternalIPs(a) + InternalIPs(b)
  {
    InternalIPsUpToSuffix(a, b, |b|);
  }

  /** Within one node, `nodeIPs` follows the order of its address list. */
  lemma {:induction false} NodeIPsAppend(name: string, x: seq<NodeAddress>, y: seq<NodeAddress>)
    ensures InternalIPs([Node(name, x + y)]) == InternalIPs([Node(name, x)]) + InternalIPs([Node(name, y)])
  {
    var xy, nx, ny := Node(name, x + y), Node(name, x), Node(name, y);
    NodeIPsSuffix(xy, nx, ny, |y|);
    InternalIPsSingle(xy);
    InternalIPsSingle(nx);
    InternalIPsSingle(ny);
  }

  lemma InternalIPsSingle(node: Node)
    ensures InternalIPs([node]) == NodeIPsUpTo(node, |node.addresses|)
  {
    assert [node][0] == node;
    assert InternalIPsUpTo([node], 0) == [];
  }

  lemma {:induction false} NodeIPsSuffix(xy: Node, x: Node, y: Node, k: nat)
    requires xy.addresses == x.addresses + y.addresses && k <= |y.addresses|
    ensures NodeIPsUpTo(xy, |x.addresses| + k) == NodeIPsUpTo(x, |x.addresses|) + NodeIPsUpTo(y, k)
  {
    if k == 0 {
      NodeIPsPrefix(xy, x, |x.addresses|);
    } else {
      NodeIPsSuffix(xy, x, y, k - 1);
    }
  }

  lemma {:induction false} NodeIPsPrefix(xy: Node, x: Node, k: nat)
    requires k <= |x.addresses| <= |xy.addresses| && x.addresses == xy.addresses[..|x.addresses|]
    ensures NodeIPsUpTo(xy, k) == NodeIPsUpTo(x, k)
  {
    if k > 0 {
      NodeIPsPrefix(xy, x, k - 1);
    }
  }

  // ---------------------------------------------------------------------
  // What the nodes table holds
  // ---------------------------------------------------------------------

  lemma {:induction false} AddressRowsMembership(node: Node, i: nat, k: nat, r: NodeRow)
    requires k <= |node.addresses|
    ensures r in AddressRowsUpTo(node, i, k) <==>
      exists j :: 0 <= j < k && r == NodeRow(i + 1, node.name, node.addresses[j].addrType, node.addresses[j].address)
  {
    if k > 0 {
      AddressRowsMembership(node, i, k - 1, r);
    }
  }

  lemma {:induction false} NodeTableUpToMembership(nodes: seq<Node>, n: nat, r: NodeRow)
    requires n <= |nodes|
    ensures r in NodeTableUpTo(nodes, n) <==>
      exists i, j :: 0 <= i < n && 0 <= j < |nodes[i].addresses| &&
        r == NodeRow(i + 1, nodes[i].name, nodes[i].addresses[j].addrType, nodes[i].addresses[j].address)
  {
    if n > 0 {
      NodeTableUpToMembership(nodes, n - 1, r);
      AddressRowsMembership(nodes[n - 1], n - 1, |nodes[n - 1].addresses|, r);
    }
  }

  /** The nodes table lists every address of every node, whatever its type,
      under the node's 1-based position. */
  lemma NodeTableMembership(nodes: seq<Node>, r: NodeRow)
    ensures r in NodeTable(nodes) <==>
      exists i, j :: 0 <= i < |nodes| && 0 <= j < |nodes[i].addresses| &&
        r == NodeRow(i + 1, nodes[i].name, nodes[i].addresses[j].addrType, nodes[i].addresses[j].address)
  {
    NodeTableUpToMembership(nodes, |nodes|, r);
  }
}
