/** The last phase of main(): `ret` is sorted by service name, descending,
    and every record is expanded into one connection row per address. */
module Connections {
  import opened GoText
  import opened Cluster

  // ---------------------------------------------------------------------
  // Sorting `ret`
  // ---------------------------------------------------------------------

  /** The names of a list of records, in order. */
  function Names(s: seq<Exposed>): seq<string>
  {
    seq(|s|, k requires 0 <= k < |s| => s[k].name)
  }

  /** Every earlier string is at least every later one. */
  predicate NonIncreasing(s: seq<string>)
  {
    forall p, q :: 0 <= p < q < |s| ==> AtLeast(s[p], s[q])
  }

  /** Every earlier record's name is at least every later one's: the order
      that sorting with the comparator `ret[i].Name > ret[j].Name` yields. */
  predicate NamesNonIncreasing(s: seq<Exposed>)
  {
    NonIncreasing(Names(s))
  }

  /** What sorting `original` may produce: the same records, names
      non-increasing. The comparator only looks at names and the sort is
      not stable, so nothing is said about the order of equal names. */
  predicate SortedByName(sorted: seq<Exposed>, original: seq<Exposed>)
  {
    multiset(sorted) == multiset(original) && NamesNonIncreasing(sorted)
  }

  /** Index of a record with the greatest name in a[lo..]. */
  method MaxNameIndex(a: array<Exposed>, lo: nat) returns (k: nat)
    requires lo < a.Length
    ensures lo <= k < a.Length
    ensures forall q :: lo <= q < a.Length ==> AtLeast(a[k].name, a[q].name)
  {
    k := lo;
    LessIrreflexive(a[lo].name);
    for j := lo + 1 to a.Length
      invariant lo <= k < j
      invariant forall q :: lo <= q < j ==> AtLeast(a[k].name, a[q].name)
    {
      if Less(a[k].name, a[j].name) {
        forall q | lo <= q < j
          ensures AtLeast(a[j].name, a[q].name)
        {
          LessTotal(a[q].name, a[k].name);
          if a[q].name != a[k].name {
            LessTransitive(a[q].name, a[k].name, a[j].name);
            LessAsymmetric(a[q].name, a[j].name);
          } else {
            LessAsymmetric(a[k].name, a[j].name);
          }
        }
        LessIrreflexive(a[j].name);
        k := j;
      }
    }
  }

  /** `sort.Slice(ret, ...)` by name, descending, in place. The library's
      algorithm is not part of this model; this selection sort meets the same
      contract and, like the library's, is not stable. */
  method SortByName(a: array<Exposed>)
    modifies a
    ensures SortedByName(a[..], old(a[..]))
  {
    for i := 0 to a.Length
      invariant multiset(a[..]) == multiset(old(a[..]))
      invariant forall p, q :: 0 <= p < q < i ==> AtLeast(a[p].name, a[q].name)
      invariant forall p, q :: 0 <= p < i <= q < a.Length ==> AtLeast(a[p].name, a[q].name)
    {
      var k := MaxNameIndex(a, i);
      Swap(a, i, k);
    }
  }

  method Swap(a: array<Exposed>, i: nat, k: nat)
    requires i <= k < a.Length
    modifies a
    ensures a[i] == old(a[k]) && a[k] == old(a[i])
    ensures forall m :: 0 <= m < a.Length && m != i && m != k ==> a[m] == old(a[m])
    ensures multiset(a[..]) == multiset(old(a[..]))
  {
    a[i], a[k] := a[k], a[i];
  }

  /** The names of the records, in order. */
  lemma NamesConcat(a: seq<Exposed>, b: seq<Exposed>)
    ensures Names(a + b) == Names(a) + Names(b)
  {
  }

  /** Where the first record of x sits in y, when both hold the same records. */
  lemma FindFirst(x: seq<Exposed>, y: seq<Exposed>) returns (k: nat)
    requires multiset(x) == multiset(y) && |x| > 0
    ensures k < |y| && y[k] == x[0]
  {
    assert x[0] in multiset(x);
    k :| 0 <= k < |y| && y[k] == x[0];
  }

  /** Taking the first record out of x and the same record out of y keeps
      the two multisets equal. */
  lemma RemoveMatching(x: seq<Exposed>, y: seq<Exposed>, k: nat)
    requires multiset(x) == multiset(y) && |x| > 0 && k < |y| && y[k] == x[0]
    ensures multiset(x[1..]) == multiset(y[..k] + y[k + 1..])
  {
    assert x == [x[0]] + x[1..];
    assert y == y[..k] + [y[k]] + y[k + 1..];
    assert multiset(x[1..]) == multiset(x) - multiset{x[0]};
  }

  /** The names of y are the name of y[k] and the names of the others. */
  lemma NamesAround(y: seq<Exposed>, k: nat)
    requires k < |y|
    ensures multiset(Names(y)) == multiset{y[k].name} + multiset(Names(y[..k] + y[k + 1..]))
  {
    var before, after := y[..k], y[k + 1..];
    assert y == before + [y[k]] + after;
    NamesConcat(before, [y[k]]);
    NamesConcat(before + [y[k]], after);
    NamesConcat(before, after);
  }

  lemma NamesHead(x: seq<Exposed>)
    requires |x| > 0
    ensures multiset(Names(x)) == multiset{x[0].name} + multiset(Names(x[1..]))
  {
    assert x == [x[0]] + x[1..];
    NamesConcat([x[0]], x[1..]);
  }

  lemma {:induction false} NamesMultiset(x: seq<Exposed>, y: seq<Exposed>)
    requires multiset(x) == multiset(y)
    ensures multiset(Names(x)) == multiset(Names(y))
    decreases |x|
  {
    if |x| == 0 {
      assert |y| == |multiset(y)| == 0;
    } else {
      var k := FindFirst(x, y);
      RemoveMatching(x, y, k);
      var rest := y[..k] + y[k + 1..];
      NamesMultiset(x[1..], rest);
      NamesHead(x);
      NamesAround(y, k);
      var a, b := multiset(Names(x[1..])), multiset(Names(rest));
      assert a == b;
      assert multiset(Names(x)) == multiset{x[0].name} + a;
      assert multiset(Names(y)) == multiset{y[k].name} + b;
    }
  }

  /** The first element of a non-increasing sequence is at least any element. */
  lemma HeadIsGreatest(s: seq<string>, k: nat)
    requires NonIncreasing(s) && k < |s|
    ensures AtLeast(s[0], s[k])
  {
    LessIrreflexive(s[0]);
  }

  /** Two non-increasing sequences holding the same strings start alike. */
  lemma SameHead(s: seq<string>, t: seq<string>)
    requires multiset(s) == multiset(t) && NonIncreasing(s) && NonIncreasing(t) && |s| > 0
    ensures |t| > 0 && s[0] == t[0]
  {
    assert s[0] in multiset(t);
    var m :| 0 <= m < |t| && t[m] == s[0];
    assert t[0] in multiset(s);
    var k :| 0 <= k < |s| && s[k] == t[0];
    HeadIsGreatest(s, k);
    HeadIsGreatest(t, m);
    AtLeastAntisymmetric(s[0], t[0]);
  }

  lemma DropHead(s: seq<string>, t: seq<string>)
    requires multiset(s) == multiset(t) && |s| > 0 && |t| > 0 && s[0] == t[0]
    ensures multiset(s[1..]) == multiset(t[1..])
  {
    assert s == [s[0]] + s[1..] && t == [t[0]] + t[1..];
    assert multiset(s[1..]) == multiset(s) - multiset{s[0]};
    assert multiset(t[1..]) == multiset(t) - multiset{t[0]};
  }

  lemma {:induction false} SortedStringsUnique(s: seq<string>, t: seq<string>)
    requires multiset(s) == multiset(t) && NonIncreasing(s) && NonIncreasing(t)
    ensures s == t
    decreases |s|
  {
    if |s| == 0 {
      assert |t| == |multiset(t)| == 0;
    } else {
      SameHead(s, t);
      DropHead(s, t);
      assert NonIncreasing(s[1..]) && NonIncreasing(t[1..]);
      SortedStringsUnique(s[1..], t[1..]);
      assert s == [s[0]] + s[1..] && t == [t[0]] + t[1..];
    }
  }

  /** Any two results of sorting the same records list the same names in
      the same order: only the order of records that share a name is left
      open. */
  lemma SortedNamesDetermined(x: seq<Exposed>, y: seq<Exposed>, original: seq<Exposed>)
    requires SortedByName(x, original) && SortedByName(y, original)
    ensures Names(x) == Names(y)
  {
    NamesMultiset(x, y);
    SortedStringsUnique(Names(x), Names(y));
  }

  // ---------------------------------------------------------------------
  // Connection rows
  // ---------------------------------------------------------------------

  /** The connection rows of record number i (0-based) for its first k addresses. */
  function EndpointRowsUpTo(e: Exposed, i: nat, k: nat): seq<ConnectionRow>
    requires k <= |e.addresses|
  {
    if k == 0 then []
    else EndpointRowsUpTo(e, i, k - 1) + [ConnectionRow(1 + i + (k - 1), e.name, e.protocol, e.addresses[k - 1], e.port)]
  }

  function ConnectionRowsUpTo(ret: seq<Exposed>, n: nat): seq<ConnectionRow>
    requires n <= |ret|
  {
    if n == 0 then [] else ConnectionRowsUpTo(ret, n - 1) + EndpointRowsUpTo(ret[n - 1], n - 1, |ret[n - 1].addresses|)
  }

  /** The text of a row's Connection column, `address:port`. */
  function ConnectionText(r: ConnectionRow): string
  {
    Connection(r.address, r.port as int)
  }

  /** The body of the connection table. */
  function ConnectionRows(ret: seq<Exposed>): seq<ConnectionRow>
  {
    ConnectionRowsUpTo(ret, |ret|)
  }

  /** The row loop: for each record and each of its addresses, print the
      ordinal 1+i+j, the name, the protocol and `address:nodePort`. */
  method ExpandConnections(ret: seq<Exposed>) returns (rows: seq<ConnectionRow>)
    ensures rows == ConnectionRows(ret)
  {
    rows := [];
    for i := 0 to |ret|
      invariant rows == ConnectionRowsUpTo(ret, i)
    {
      for j := 0 to |ret[i].addresses|
        invariant rows == ConnectionRowsUpTo(ret, i) + EndpointRowsUpTo(ret[i], i, j)
      {
        rows := rows + [ConnectionRow(1 + i + j, ret[i].name, ret[i].protocol, ret[i].addresses[j], ret[i].port)];
      }
    }
  }

  /** Every record carries the address list ips. */
  predicate AllCarry(ret: seq<Exposed>, ips: seq<string>)
  {
    forall k :: 0 <= k < |ret| ==> ret[k].addresses == ips
  }

  /** The number of rows before record i when every record has L rows;
      defined by repeated addition so that the proofs below stay linear. */
  function RowsBefore(i: nat, L: nat): nat
  {
    if i == 0 then 0 else RowsBefore(i - 1, L) + L
  }

  lemma {:induction false} RowsBeforeIsProduct(i: nat, L: nat)
    ensures RowsBefore(i, L) == i * L
  {
    if i > 0 {
      RowsBeforeIsProduct(i - 1, L);
      assert (i - 1) * L + L == i * L;
    }
  }

  /** A position below n * L splits into a block index below n and an
      offset below L. */
  lemma RowIndex(k: nat, n: nat, L: nat) returns (i: nat, j: nat)
    requires k < n * L
    ensures i < n && j < L && k == i * L + j
  {
    assert L > 0;
    i, j := k / L, k % L;
  }

  lemma {:induction false} EndpointRowsLength(e: Exposed, i: nat, k: nat)
    requires k <= |e.addresses|
    ensures |EndpointRowsUpTo(e, i, k)| == k
  {
    if k > 0 {
      EndpointRowsLength(e, i, k - 1);
    }
  }

  lemma {:induction false} EndpointRowAt(e: Exposed, i: nat, k: nat, j: nat)
    requires j < k <= |e.addresses|
    ensures |EndpointRowsUpTo(e, i, k)| == k
    ensures EndpointRowsUpTo(e, i, k)[j] == ConnectionRow(1 + i + j, e.name, e.protocol, e.addresses[j], e.port)
  {
    EndpointRowsLength(e, i, k - 1);
    if j < k - 1 {
      EndpointRowAt(e, i, k - 1, j);
    }
  }

  lemma {:induction false} ConnectionRowsUpToLength(ret: seq<Exposed>, ips: seq<string>, n: nat)
    requires n <= |ret|
    requires AllCarry(ret, ips)
    ensures |ConnectionRowsUpTo(ret, n)| == RowsBefore(n, |ips|)
  {
    if n > 0 {
      ConnectionRowsUpToLength(ret, ips, n - 1);
      EndpointRowsLength(ret[n - 1], n - 1, |ips|);
    }
  }

  /** Row RowsBefore(i, |ips|) + j of the first n records is row j of
      record i's own block. */
  lemma {:induction false} ConnectionRowsUpToAt(ret: seq<Exposed>, ips: seq<string>, n: nat, i: nat, j: nat)
    requires n <= |ret|
    requires AllCarry(ret, ips)
    requires i < n && j < |ips|
    ensures |EndpointRowsUpTo(ret[i], i, |ips|)| == |ips|
    ensures RowsBefore(i, |ips|) + j < |ConnectionRowsUpTo(ret, n)|
    ensures ConnectionRowsUpTo(ret, n)[RowsBefore(i, |ips|) + j] == EndpointRowsUpTo(ret[i], i, |ips|)[j]
  {
    var e := ret[n - 1];
    assert e.addresses == ips && ret[i].addresses == ips;
    var prefix := ConnectionRowsUpTo(ret, n - 1);
    var last := EndpointRowsUpTo(e, n - 1, |ips|);
    var idx := RowsBefore(i, |ips|) + j;
    assert ConnectionRowsUpTo(ret, n) == prefix + last;
    EndpointRowsLength(e, n - 1, |ips|);
    if i < n - 1 {
      ConnectionRowsUpToAt(ret, ips, n - 1, i, j);
      assert (prefix + last)[idx] == prefix[idx];
    } else {
      ConnectionRowsUpToLength(ret, ips, n - 1);
      assert i == n - 1 && idx == |prefix| + j;
      assert last == EndpointRowsUpTo(ret[i], i, |ips|);
      assert (prefix + last)[|prefix| + j] == last[j];
    }
  }

  /** When every record carries the same address list, as `ret` does, the
      connection rows correspond one-to-one to (record, address) pairs, in
      record-then-address order: there are |ret| * |ips| of them, none at
      all when there is no InternalIP address. */
  lemma ConnectionRowsLength(ret: seq<Exposed>, ips: seq<string>)
    requires AllCarry(ret, ips)
    ensures |ConnectionRows(ret)| == |ret| * |ips|
    ensures ips == [] ==> ConnectionRows(ret) == []
  {
    ConnectionRowsUpToLength(ret, ips, |ret|);
    RowsBeforeIsProduct(|ret|, |ips|);
  }

  /** The row for record i and address j sits at position i * |ips| + j:
      record i's name and protocol, address ips[j] and record i's node port,
      under the ordinal 1+i+j. */
  lemma ConnectionRowAt(ret: seq<Exposed>, ips: seq<string>, i: nat, j: nat)
    requires AllCarry(ret, ips)
    requires i < |ret| && j < |ips|
    ensures i * |ips| + j < |ConnectionRows(ret)|
    ensures ConnectionRows(ret)[i * |ips| + j] ==
      ConnectionRow(1 + i + j, ret[i].name, ret[i].protocol, ips[j], ret[i].port)
  {
    ConnectionRowsUpToAt(ret, ips, |ret|, i, j);
    EndpointRowAt(ret[i], i, |ips|, j);
    RowsBeforeIsProduct(i, |ips|);
  }

  /** The ordinal 1+i+j repeats: the second row of one record and the first
      row of the next are both numbered 2+i. */
  lemma ConnectionOrdinalsRepeat(ret: seq<Exposed>, ips: seq<string>, i: nat)
    requires AllCarry(ret, ips)
    requires i + 1 < |ret| && |ips| >= 2
    ensures i * |ips| + 1 < |ConnectionRows(ret)| && (i + 1) * |ips| + 0 < |ConnectionRows(ret)|
    ensures ConnectionRows(ret)[i * |ips| + 1].ordinal == ConnectionRows(ret)[(i + 1) * |ips| + 0].ordinal == 2 + i
  {
    ConnectionRowAt(ret, ips, i, 1);
    ConnectionRowAt(ret, ips, i + 1, 0);
  }
}
