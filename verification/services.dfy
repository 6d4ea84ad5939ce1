/** The service phase of main(): for every service whose name passes the
    filter, one services-table row per port, and one `exposed` record per
    port that has a node port on a service of type NodePort. */
module Services {
  import opened Cluster

  /** The condition under which a port of a service is exposed. */
  predicate Exposes(s: Service, p: ServicePort)
  {
    p.nodePort != 0 && s.serviceType == NodePortType
  }

  /** The records built from the first k ports of a service. */
  function PortRecordsUpTo(s: Service, k: nat, nodeIPs: seq<string>): seq<Exposed>
    requires k <= |s.ports|
  {
    if k == 0 then []
    else
      var p := s.ports[k - 1];
      PortRecordsUpTo(s, k - 1, nodeIPs) + (if Exposes(s, p) then [Exposed(s.name, p.nodePort, p.protocol, nodeIPs)] else [])
  }

  function PortRecords(s: Service, nodeIPs: seq<string>): seq<Exposed>
  {
    PortRecordsUpTo(s, |s.ports|, nodeIPs)
  }

  /** The records built from the first n services. */
  function ExposedUpTo(services: seq<Service>, matches: NameFilter, n: nat, nodeIPs: seq<string>): seq<Exposed>
    requires n <= |services|
  {
    if n == 0 then []
    else
      var s := services[n - 1];
      ExposedUpTo(services, matches, n - 1, nodeIPs) + (if matches(s.name) then PortRecords(s, nodeIPs) else [])
  }

  /** `ret` once the service loop has finished, before it is sorted. */
  function ExposedRecords(services: seq<Service>, matches: NameFilter, nodeIPs: seq<string>): seq<Exposed>
  {
    ExposedUpTo(services, matches, |services|, nodeIPs)
  }

  /** The services-table row for port j of service number i (0-based). */
  function PortRow(s: Service, i: nat, j: nat): ServiceRow
    requires j < |s.ports|
  {
    var p := s.ports[j];
    ServiceRow(1 + i + j, s.name, p.protocol, p.port, p.targetPort, p.nodePort, s.serviceType)
  }

  /** The services-table rows of service number i (0-based) for its first k ports. */
  function PortRowsUpTo(s: Service, i: nat, k: nat): seq<ServiceRow>
    requires k <= |s.ports|
  {
    if k == 0 then [] else PortRowsUpTo(s, i, k - 1) + [PortRow(s, i, k - 1)]
  }

  function ServiceTableUpTo(services: seq<Service>, matches: NameFilter, n: nat): seq<ServiceRow>
    requires n <= |services|
  {
    if n == 0 then []
    else
      var s := services[n - 1];
      ServiceTableUpTo(services, matches, n - 1) + (if matches(s.name) then PortRowsUpTo(s, n - 1, |s.ports|) else [])
  }

  /** The body of the services table. */
  function ServiceTable(services: seq<Service>, matches: NameFilter): seq<ServiceRow>
  {
    ServiceTableUpTo(services, matches, |services|)
  }

  /** The service loop: skip a service whose name the filter rejects;
      otherwise, for each of its ports, print a row and, when the port is
      exposed, append a record carrying `nodeIPs` to `ret`. */
  method ScanServices(services: seq<Service>, matches: NameFilter, nodeIPs: seq<string>)
    returns (rows: seq<ServiceRow>, ret: seq<Exposed>)
    ensures rows == ServiceTable(services, matches)
    ensures ret == ExposedRecords(services, matches, nodeIPs)
  {
    rows, ret := [], [];
    for i := 0 to |services|
      invariant rows == ServiceTableUpTo(services, matches, i)
      invariant ret == ExposedUpTo(services, matches, i, nodeIPs)
    {
      var s := services[i];
      if !matches(s.name) {
        continue;
      }
      for j := 0 to |s.ports|
        invariant rows == ServiceTableUpTo(services, matches, i) + PortRowsUpTo(s, i, j)
        invariant ret == ExposedUpTo(services, matches, i, nodeIPs) + PortRecordsUpTo(s, j, nodeIPs)
      {
        var p := s.ports[j];
        rows := rows + [ServiceRow(1 + i + j, s.name, p.protocol, p.port, p.targetPort, p.nodePort, s.serviceType)];
        if p.nodePort != 0 && s.serviceType == NodePortType {
          ret := ret + [Exposed(s.name, p.nodePort, p.protocol, nodeIPs)];
        }
      }
    }
  }

  // ---------------------------------------------------------------------
  // Which records are built
  // ---------------------------------------------------------------------

  lemma {:induction false} PortRecordsUpToMembership(s: Service, k: nat, nodeIPs: seq<string>, e: Exposed)
    requires k <= |s.ports|
    ensures e in PortRecordsUpTo(s, k, nodeIPs) <==>
      exists j :: 0 <= j < k && Exposes(s, s.ports[j]) &&
        e == Exposed(s.name, s.ports[j].nodePort, s.ports[j].protocol, nodeIPs)
  {
    if k > 0 {
      PortRecordsUpToMembership(s, k - 1, nodeIPs, e);
    }
  }

  lemma {:induction false} ExposedUpToMembership(
    services: seq<Service>, matches: NameFilter, n: nat, nodeIPs: seq<string>, e: Exposed)
    requires n <= |services|
    ensures e in ExposedUpTo(services, matches, n, nodeIPs) <==>
      exists i, j :: 0 <= i < n && 0 <= j < |services[i].ports| &&
        matches(services[i].name) && Exposes(services[i], services[i].ports[j]) &&
        e == Exposed(services[i].name, services[i].ports[j].nodePort, services[i].ports[j].protocol, nodeIPs)
  {
    if n > 0 {
      ExposedUpToMembership(services, matches, n - 1, nodeIPs, e);
      PortRecordsUpToMembership(services[n - 1], |services[n - 1].ports|, nodeIPs, e);
    }
  }

  /** A record is built exactly for a port with a non-zero node port on a
      service of type NodePort whose name passes the filter; it carries the
      service's name, the port's protocol, the port's node port (not its
      service port), and the whole `nodeIPs` list. */
  lemma ExposedMembership(services: seq<Service>, matches: NameFilter, nodeIPs: seq<string>, e: Exposed)
    ensures e in ExposedRecords(services, matches, nodeIPs) <==>
      exists i, j :: 0 <= i < |services| && 0 <= j < |services[i].ports| &&
        matches(services[i].name) &&
        services[i].ports[j].nodePort != 0 && services[i].serviceType == NodePortType &&
        e == Exposed(services[i].name, services[i].ports[j].nodePort, services[i].ports[j].protocol, nodeIPs)
  {
    ExposedUpToMembership(services, matches, |services|, nodeIPs, e);
  }

  /** Every record shares the same address list, `nodeIPs`, and names a
      service that the filter passes. */
  lemma ExposedShareAddresses(services: seq<Service>, matches: NameFilter, nodeIPs: seq<string>)
    ensures forall e :: e in ExposedRecords(services, matches, nodeIPs) ==>
      e.addresses == nodeIPs && matches(e.name)
  {
    forall e | e in ExposedRecords(services, matches, nodeIPs)
      ensures e.addresses == nodeIPs && matches(e.name)
    {
      ExposedMembership(services, matches, nodeIPs, e);
    }
  }

  // ---------------------------------------------------------------------
  // How many records are built
  // ---------------------------------------------------------------------

  /** The (service index, port index) pairs that qualify for a record. */
  ghost function EligiblePairs(services: seq<Service>, matches: NameFilter): set<(int, int)>
  {
    set i, j | 0 <= i < |services| && 0 <= j < |services[i].ports| &&
      matches(services[i].name) && Exposes(services[i], services[i].ports[j]) :: (i, j)
  }

  /** The qualifying pairs that come before port k of service n. */
  ghost function EligibleBefore(services: seq<Service>, matches: NameFilter, n: nat, k: nat): set<(int, int)>
  {
    set i, j | 0 <= i < |services| && 0 <= j < |services[i].ports| && (i < n || (i == n && j < k)) &&
      matches(services[i].name) && Exposes(services[i], services[i].ports[j]) :: (i, j)
  }

  lemma {:induction false} PortRecordsCount(services: seq<Service>, matches: NameFilter, n: nat, k: nat, nodeIPs: seq<string>)
    requires n < |services| && k <= |services[n].ports|
    decreases n, 1, k
    ensures |ExposedUpTo(services, matches, n, nodeIPs)| +
      (if matches(services[n].name) then |PortRecordsUpTo(services[n], k, nodeIPs)| else 0)
      == |EligibleBefore(services, matches, n, k)|
  {
    var s := services[n];
    if k == 0 {
      ServicesCount(services, matches, n, nodeIPs);
    } else {
      PortRecordsCount(services, matches, n, k - 1, nodeIPs);
      var before := EligibleBefore(services, matches, n, k - 1);
      var after := EligibleBefore(services, matches, n, k);
      if matches(s.name) && Exposes(s, s.ports[k - 1]) {
        assert after == before + {(n, k - 1)};
        assert (n, k - 1) !in before;
      } else {
        assert after == before;
      }
    }
  }

  lemma {:induction false} ServicesCount(services: seq<Service>, matches: NameFilter, n: nat, nodeIPs: seq<string>)
    requires n <= |services|
    decreases n, 0, 0
    ensures |ExposedUpTo(services, matches, n, nodeIPs)| == |EligibleBefore(services, matches, n, 0)|
  {
    if n == 0 {
      assert EligibleBefore(services, matches, 0, 0) == {};
    } else {
      var s := services[n - 1];
      PortRecordsCount(services, matches, n - 1, |s.ports|, nodeIPs);
      assert EligibleBefore(services, matches, n, 0) == EligibleBefore(services, matches, n - 1, |s.ports|);
    }
  }

  /** Before sorting, `ret` holds exactly one record per qualifying
      (service, port) pair: its length is the number of such pairs. */
  lemma ExposedCount(services: seq<Service>, matches: NameFilter, nodeIPs: seq<string>)
    ensures |ExposedRecords(services, matches, nodeIPs)| == |EligiblePairs(services, matches)|
  {
    ServicesCount(services, matches, |services|, nodeIPs);
    assert EligibleBefore(services, matches, |services|, 0) == EligiblePairs(services, matches);
  }

  // ---------------------------------------------------------------------
  // Filtered-out services
  // ---------------------------------------------------------------------

  lemma {:induction false} ExposedUpToPrefix(
    a: seq<Service>, b: seq<Service>, matches: NameFilter, n: nat, nodeIPs: seq<string>)
    requires n <= |a|
    ensures ExposedUpTo(a + b, matches, n, nodeIPs) == ExposedUpTo(a, matches, n, nodeIPs)
  {
    if n > 0 {
      ExposedUpToPrefix(a, b, matches, n - 1, nodeIPs);
      assert (a + b)[n - 1] == a[n - 1];
    }
  }

  lemma {:induction false} ExposedUpToSuffix(
    a: seq<Service>, b: seq<Service>, matches: NameFilter, k: nat, nodeIPs: seq<string>)
    requires k <= |b|
    ensures ExposedUpTo(a + b, matches, |a| + k, nodeIPs) ==
      ExposedRecords(a, matches, nodeIPs) + ExposedUpTo(b, matches, k, nodeIPs)
  {
    if k == 0 {
      ExposedUpToPrefix(a, b, matches, |a|, nodeIPs);
    } else {
      ExposedUpToSuffix(a, b, matches, k - 1, nodeIPs);
      assert (a + b)[|a| + k - 1] == b[k - 1];
    }
  }

  /** Records follow service order: the services listed first contribute
      their records first. */
  lemma ExposedAppend(a: seq<Service>, b: seq<Service>, matches: NameFilter, nodeIPs: seq<string>)
    ensures ExposedRecords(a + b, matches, nodeIPs) ==
      ExposedRecords(a, matches, nodeIPs) + ExposedRecords(b, matches, nodeIPs)
  {
    ExposedUpToSuffix(a, b, matches, |b|, nodeIPs);
  }

  /** A service whose name the filter rejects contributes no record, even
      when it is of type NodePort with node ports: removing it from the
      snapshot leaves `ret` unchanged. */
  lemma UnmatchedContributesNothing(
    a: seq<Service>, s: Service, b: seq<Service>, matches: NameFilter, nodeIPs: seq<string>)
    requires !matches(s.name)
    ensures ExposedRecords(a + [s] + b, matches, nodeIPs) == ExposedRecords(a + b, matches, nodeIPs)
  {
    ExposedAppend(a + [s], b, matches, nodeIPs);
    ExposedAppend(a, [s], matches, nodeIPs);
    ExposedAppend(a, b, matches, nodeIPs);
    assert ExposedUpTo([s], matches, 0, nodeIPs) == [];
  }

  // ---------------------------------------------------------------------
  // What the services table holds
  // ---------------------------------------------------------------------

  lemma {:induction false} PortRowsMembership(s: Service, i: nat, k: nat, r: ServiceRow)
    requires k <= |s.ports|
    ensures r in PortRowsUpTo(s, i, k) <==>
      exists j :: 0 <= j < k && r == PortRow(s, i, j)
  {
    if k > 0 {
      PortRowsMembership(s, i, k - 1, r);
    }
  }

  lemma {:induction false} ServiceTableUpToMembership(services: seq<Service>, matches: NameFilter, n: nat, r: ServiceRow)
    requires n <= |services|
    ensures r in ServiceTableUpTo(services, matches, n) <==>
      exists i, j :: 0 <= i < n && 0 <= j < |services[i].ports| && matches(services[i].name) &&
        r == PortRow(services[i], i, j)
  {
    if n > 0 {
      var s := services[n - 1];
      var before := ServiceTableUpTo(services, matches, n - 1);
      ServiceTableUpToMembership(services, matches, n - 1, r);
      if matches(s.name) {
        var own := PortRowsUpTo(s, n - 1, |s.ports|);
        assert ServiceTableUpTo(services, matches, n) == before + own;
        PortRowsMembership(s, n - 1, |s.ports|, r);
        if r in own {
          var j :| 0 <= j < |s.ports| && r == PortRow(s, n - 1, j);
          assert services[n - 1] == s;
        }
      } else {
        assert ServiceTableUpTo(services, matches, n) == before;
      }
    }
  }

  /** The services table lists every port of every service the filter
      passes, of any type and with or without a node port, under the ordinal
      1+i+j built from the unfiltered service index i and the port index j. */
  lemma ServiceTableMembership(services: seq<Service>, matches: NameFilter, r: ServiceRow)
    ensures r in ServiceTable(services, matches) <==>
      exists i, j :: 0 <= i < |services| && 0 <= j < |services[i].ports| && matches(services[i].name) &&
        r == PortRow(services[i], i, j)
  {
    ServiceTableUpToMembership(services, matches, |services|, r);
  }

  /** The ordinal 1+i+j repeats: the second port of the first service and
      the first port of the second service are both numbered 2. */
  lemma ServiceOrdinalsRepeat(s: Service, t: Service, matches: NameFilter)
    requires matches(s.name) && matches(t.name) && |s.ports| == 2 && |t.ports| >= 1
    ensures |ServiceTable([s, t], matches)| >= 3
    ensures ServiceTable([s, t], matches)[1].ordinal == ServiceTable([s, t], matches)[2].ordinal == 2
  {
    var services := [s, t];
    assert ServiceTableUpTo(services, matches, 1) == PortRowsUpTo(s, 0, 2);
    PortRowsOrdinals(s, 0, 2);
    PortRowsOrdinals(t, 1, |t.ports|);
  }

  /** Within one service, the rows are numbered 1+i, 2+i, ... */
  lemma {:induction false} PortRowsOrdinals(s: Service, i: nat, k: nat)
    requires k <= |s.ports|
    ensures |PortRowsUpTo(s, i, k)| == k
    ensures forall j :: 0 <= j < k ==> PortRowsUpTo(s, i, k)[j].ordinal == 1 + i + j
  {
    if k > 0 {
      PortRowsOrdinals(s, i, k - 1);
    }
  }
}
