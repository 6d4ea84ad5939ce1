# kubeports: NodePort endpoint derivation

kubeports lists a Kubernetes cluster's nodes, pods and services as four tables.
The last table gives, for every service port reachable from outside the
cluster through a node port, the connection strings `address:nodePort`, one
per internal node address. All of this happens inside `main()` of `main.go`.
This project models the data flow of that function as Dafny code and proves
what each table holds. The flow has five steps:

1. The node loop prints one row per (node, address) pair. It also collects
   `nodeIPs`, every address of type `InternalIP`, in node order.
2. The pod loop prints every pod whose name passes the name filter. Each row
   is numbered `1+i`, where `i` is the pod's position in the *unfiltered* list.
3. The service loop prints one row per port of every service the filter passes,
   numbered `1+i+j`. For each port with a non-zero node port on a service of
   type `NodePort`, it appends an `exposed` record carrying the service name,
   the protocol, the node port and the whole `nodeIPs` list.
4. `sort.Slice` sorts the records by name, descending. It is not stable.
5. The connection loop prints one row per (record, address) pair, numbered
   `1+i+j`.

Each loop is a method over sequences, proved equal to a recursive
specification function (`ScanNodes`, `ScanPods`, `ScanServices`,
`ExpandConnections`). The sort works in place on an array (`SortByName`).
`Report.Run` chains the steps in the order `main()` runs them.

Other facts are lemmas about the specification functions:

- **Membership.** What each table and `nodeIPs` contain, stated in both directions.
- **Order.** Everything follows the snapshots' order.
- **Count.** The number of records.
- **Position.** Where each connection row sits.
- **Ordinals.** The ordinals repeat, a consequence of `1+i+j`.
- **Sort output.** The names come out in one fixed order.
- **Connection text.** `address:port` splits back into its parts.

The modules are:

- `GoText`: Go's string order, `%v` on integers, and the `%s:%v` connection text.
- `Cluster`: the snapshot records, the table rows, and the default name filter.
- `Nodes`, `Pods`, `Services`, `Connections`: one module per step.
- `Report`: the whole run, plus a worked example.

Two points of the code shape what the model promises:

- **Sort stability.** `sort.Slice` is not stable, so `SortByName` only
  promises a permutation with non-increasing names. Records that share a
  name may come out in any order.
- **Default filter.** An empty `grep` compiles the pattern `.`, which is not
  match-all: it rejects the empty name and names made only of newlines
  (`Cluster.DotMatchesExactly`).

## Model

| member | source | states |
|---|---|---|
| Cluster.Exposed | main.go:45-50 | The `exposed` record: service name, node port, protocol and address list. |
| Services.Exposes | main.go:179 | A port is exposed when its node port is non-zero and its service's type is `NodePort`. |
| Nodes.ScanNodes | main.go:110-123 | The node loop. Its rows equal `NodeTable`: one row per (node, address) pair, numbered by the node's 1-based position. Its `nodeIPs` equal `InternalIPs`. |
| Nodes.InternalIPsMembership | main.go:119-121 | An address is in `nodeIPs` exactly when some node lists it with type `InternalIP`. |
| Nodes.InternalIPsAppend | main.go:111-123 | `nodeIPs` follows node order. The IPs of a concatenation are the IPs of each part in turn, so an address that two nodes share appears twice. |
| Nodes.NodeIPsAppend | main.go:112-121 | Within one node, `nodeIPs` follows the order of the node's address list. |
| Nodes.NodeTableMembership | main.go:111-118 | A row is in the nodes table exactly when it is `(i+1, name, type, address)` for some node `i` and one of its addresses `j`. This holds for any address type. |
| Pods.ScanPods | main.go:135-146 | The pod loop, with its `continue`. Its rows equal `PodTable`. |
| Pods.PodTableShape | main.go:136-141 | A row is in the pods table exactly when some pod `i` passes the filter and the row is `(1+i, name, hostIP)`. The ordinals strictly increase. |
| Pods.PodNumberingGap | main.go:136-141 | If the filter rejects the middle one of three pods, the table numbers the other two 1 and 3. The ordinals do not close the gap. |
| Services.ScanServices | main.go:161-188 | The service loop. Its rows equal `ServiceTable`, and its `ret` equals `ExposedRecords`. |
| Services.ExposedMembership | main.go:179-185 | A record is built exactly for a port of a filtered-in service with a non-zero node port and type `NodePort`. The record carries the service name, the port's node port (not its service port), its protocol and `nodeIPs`. |
| Services.ExposedShareAddresses | main.go:180-185 | Every record carries the same address list, `nodeIPs`, and names a service that the filter passes. |
| Services.ExposedCount | main.go:162-188 | `ret` holds exactly one record per qualifying (service, port) pair. Its length is the size of that set of pairs. |
| Services.ExposedAppend | main.go:162-188 | Records follow service order. The records of a concatenation are the records of each part in turn. |
| Services.UnmatchedContributesNothing | main.go:163-165 | A service the filter rejects adds no record, even one of type `NodePort` with node ports. |
| Services.ServiceTableMembership | main.go:162-175 | A row is in the services table exactly when it is the row for port `j` of some filtered-in service `i`, numbered `1+i+j`. This holds for any service type and for any node port. |
| Services.ServiceOrdinalsRepeat | main.go:167-168 | With two filtered-in services, the first having two ports, the second and third rows are both numbered 2. |
| Connections.MaxNameIndex | main.go:195-197 | Returns an index in `a[lo..]` whose name is at least every other name in `a[lo..]`. |
| Connections.SortByName | main.go:195-197 | The in-place sort. The result is a permutation of the input, and its names are non-increasing in Go's string order. |
| Connections.Swap | main.go:195-197 | Exchanges two elements and changes nothing else. The multiset of elements is unchanged. |
| Connections.SortedNamesDetermined | main.go:195-197 | Any two results of sorting the same records list the same names in the same order. Only the order among equal names is left open. |
| Connections.ExpandConnections | main.go:199-212 | The connection loop. Its rows equal `ConnectionRows`. |
| Connections.ConnectionRowsLength | main.go:199-212 | When every record carries the same address list `ips`, there are (number of records) times (length of `ips`) rows. There are none when `ips` is empty. |
| Connections.ConnectionRowAt | main.go:199-206 | With `L` the length of `ips`, row `i*L+j` holds ordinal `1+i+j`, record `i`'s name, its protocol, address `ips[j]` and its node port. |
| Connections.ConnectionOrdinalsRepeat | main.go:202 | The second row of record `i` and the first row of record `i+1` are both numbered `2+i`. |
| GoText.LessIrreflexive | main.go:196 | No string is below itself in Go's string order. |
| GoText.LessTransitive | main.go:196 | Go's string order on names is transitive. |
| GoText.LessTotal | main.go:196 | Any two distinct strings are ordered one way or the other. |
| GoText.LessAsymmetric | main.go:196 | At most one of `a < b` and `b < a` holds. |
| GoText.AtLeastAntisymmetric | main.go:196 | Two names, neither below the other, are equal. |
| GoText.AtLeastTransitive | main.go:196 | `>=` on names is transitive. |
| GoText.DecimalWellFormed | main.go:201-206 | The `%v` text of a port is an optional minus sign followed by digits with no leading zero. It holds no ':'. |
| GoText.DecimalRoundTrip | main.go:201-206 | The `%v` text of an integer reads back as the same integer. |
| GoText.SplitConnectionInverts | main.go:201-206 | The text `address:port` splits back into exactly that address and port. This holds even for an address that itself holds ':'. |
| Cluster.DotMatchesExactly | main.go:85-87 | The default pattern `.` matches a name exactly when the name holds a character other than a newline. |
| Report.Run | main.go:52-212 | The whole derivation, in `main()`'s order. The four tables equal their specification functions. `ret` is a name-sorted permutation of the built records, and the connection rows are built from the sorted `ret`. |
| Report.SortedCarry | main.go:180-199 | After sorting, every record still carries the full `nodeIPs` list. |
| Report.ConnectionCount | main.go:162-212 | The connection table has (number of qualifying pairs) times (number of InternalIP addresses) rows. |
| Report.RunsAgreeOnNames | main.go:195-212 | Two runs over the same snapshots list the records' names in the same order. |
| Report.ExampleConnections | main.go:162-212 | A worked example. One node has InternalIP 10.0.0.1. A `NodePort` service "web" has node port 30080, and a `ClusterIP` service "api" has none. With the default filter, the connection table is exactly one row, printed as "web", "TCP", "10.0.0.1:30080". |

## Left out

- The cluster client is not modelled: connecting to the API server, listing with a namespace, and errors from the list calls. The three lists are parameters of `Report.Run`.
- Flag parsing, the home-directory default for the kubeconfig path, and the signal-cancelled context are not modelled. They affect only how the cluster is reached.
- Regular-expression matching is not modelled. The `grep` filter is any predicate on names (`NameFilter`). Only the default pattern `.` is modelled, as `Cluster.DotMatches`.
- A `grep` pattern that fails to compile is not modelled. Nor is any other `log.Fatalf` exit: the program just stops, and the model has nothing to say about that.
- The `tabwriter` is not modelled: column alignment, the padding spaces inside the format strings, the header lines and `Flush`. Rows are modelled as the argument tuples passed to `Fprintf`. Only the `%s:%v` connection column is modelled as text (`GoText.Connection`, `Connections.ConnectionText`).
- Writes to the output that fail are not modelled; they only lead to `log.Fatalf`.
- `log.Printf` progress messages are not modelled.
- `TargetPort.String()` is not modelled. The target port is given as the text it prints.
- `Connections.SortByName`: the sort algorithm of `sort.Slice` (pattern-defeating quicksort) is not modelled. A selection sort is used instead, with the same contract: a permutation whose names are non-increasing. The exact order the library gives to records with equal names is not captured.
- The `Addresses` field of every record shares the backing array of `nodeIPs`. The model does not capture this aliasing, only equal values. `nodeIPs` is never changed after the node loop, so this makes no difference.
- `int32` ports are kept in range by the `Cluster.int32` type. No arithmetic is done on them, so wrap-around never arises.
- Names and addresses are modelled as sequences of Unicode characters (`string`). Go strings are byte sequences that may hold invalid UTF-8, which a `string` here cannot represent. Go's byte-wise order on valid UTF-8 matches the code-point order used by `GoText.Less`.
