/** The pod phase of main(): one pods-table row for every pod whose name
    passes the filter, numbered by the pod's position in the unfiltered list. */
module Pods {
  import opened Cluster

  /** The pods-table rows contributed by the first n pods. */
  function PodTableUpTo(pods: seq<Pod>, matches: NameFilter, n: nat): seq<PodRow>
    requires n <= |pods|
  {
    if n == 0 then []
    else
      var p := pods[n - 1];
      PodTableUpTo(pods, matches, n - 1) + (if matches(p.name) then [PodRow(n, p.name, p.hostIP)] else [])
  }

  /** The body of the pods table. */
  function PodTable(pods: seq<Pod>, matches: NameFilter): seq<PodRow>
  {
    PodTableUpTo(pods, matches, |pods|)
  }

  /** The pod loop: skip a pod whose name the filter rejects, otherwise
      print its row with ordinal 1+i. */
  method ScanPods(pods: seq<Pod>, matches: NameFilter) returns (rows: seq<PodRow>)
    ensures rows == PodTable(pods, matches)
  {
    rows := [];
    for i := 0 to |pods|
      invariant rows == PodTableUpTo(pods, matches, i)
    {
      if !matches(pods[i].name) {
        continue;
      }
      rows := rows + [PodRow(1 + i, pods[i].name, pods[i].hostIP)];
    }
  }

  lemma {:induction false} PodTableUpToShape(pods: seq<Pod>, matches: NameFilter, n: nat)
    requires n <= |pods|
    ensures forall r :: r in PodTableUpTo(pods, matches, n) <==>
      exists i :: 0 <= i < n && matches(pods[i].name) && r == PodRow(1 + i, pods[i].name, pods[i].hostIP)
    ensures forall p, q :: 0 <= p < q < |PodTableUpTo(pods, matches, n)| ==>
      PodTableUpTo(pods, matches, n)[p].ordinal < PodTableUpTo(pods, matches, n)[q].ordinal
    ensures forall r :: r in PodTableUpTo(pods, matches, n) ==> 1 <= r.ordinal <= n
  {
    if n > 0 {
      PodTableUpToShape(pods, matches, n - 1);
    }
  }

  /** The pods table holds exactly the pods the filter passes, each under its
      1-based position in the unfiltered list, in list order: the numbering
      skips the positions of filtered-out pods rather than closing the gaps. */
  lemma PodTableShape(pods: seq<Pod>, matches: NameFilter)
    ensures forall r :: r in PodTable(pods, matches) <==>
      exists i :: 0 <= i < |pods| && matches(pods[i].name) && r == PodRow(1 + i, pods[i].name, pods[i].hostIP)
    ensures forall p, q :: 0 <= p < q < |PodTable(pods, matches)| ==>
      PodTable(pods, matches)[p].ordinal < PodTable(pods, matches)[q].ordinal
  {
    PodTableUpToShape(pods, matches, |pods|);
  }

  /** Three pods of which the filter rejects the middle one are numbered 1
      and 3. */
  lemma PodNumberingGap(a: Pod, b: Pod, c: Pod, matches: NameFilter)
    requires matches(a.name) && !matches(b.name) && matches(c.name)
    ensures PodTable([a, b, c], matches) == [PodRow(1, a.name, a.hostIP), PodRow(3, c.name, c.hostIP)]
  {
    var pods := [a, b, c];
    assert PodTableUpTo(pods, matches, 1) == [PodRow(1, a.name, a.hostIP)];
    assert PodTableUpTo(pods, matches, 2) == [PodRow(1, a.name, a.hostIP)];
  }
}
