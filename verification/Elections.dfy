/**
 The choice of namenodes when a datanode becomes leader: keep the namenodes that are online, then scan
 the other datanodes in chunks and add those found online until enough are chosen.
 */
module Elections {
  import opened Options

  datatype Node = Node(ip: string, port: nat)

  /** Nodes are ordered, and told apart, by ip alone. */
  predicate Less(a: string, b: string) {
    b != "" && (a == "" || a[0] < b[0] || (a[0] == b[0] && Less(a[1..], b[1..])))
  }

  lemma {:induction false} LessTotal(a: string, b: string)
    ensures a == b || Less(a, b) || Less(b, a)
    ensures !(Less(a, b) && Less(b, a)) && !Less(a, a)
  {
    if a != "" && b != "" && a[0] == b[0] {
      LessTotal(a[1..], b[1..]);
      assert a == [a[0]] + a[1..] && b == [b[0]] + b[1..];
    }
    if a != "" {
      LessIrreflexive(a);
    }
  }

  lemma {:induction false} LessIrreflexive(a: string)
    ensures !Less(a, a)
  {
    if a != "" {
      LessIrreflexive(a[1..]);
    }
  }

  /** The order is that of characters at the first place where two texts differ, a front before the longer text. */
  lemma {:induction false} LessAtFirstDifference(a: string, b: string, n: nat)
    requires n <= |a| && n <= |b| && a[..n] == b[..n] && (n == |a| || n == |b| || a[n] != b[n])
    ensures Less(a, b) <==> n < |b| && (n == |a| || a[n] < b[n])
  {
    if n > 0 {
      assert a[0] == a[..n][0] == b[..n][0] == b[0];
      assert a[1..][..n - 1] == a[..n][1..] && b[1..][..n - 1] == b[..n][1..];
      LessAtFirstDifference(a[1..], b[1..], n - 1);
    }
  }

  lemma {:induction false} LessTransitive(a: string, b: string, c: string)
    requires Less(a, b) && Less(b, c)
    ensures Less(a, c)
  {
    if a != "" && a[0] == b[0] && b[0] == c[0] {
      LessTransitive(a[1..], b[1..], c[1..]);
    }
  }

  ghost predicate SortedByIp(nodes: seq<Node>) {
    forall i, j :: 0 <= i < j < |nodes| ==> !Less(nodes[j].ip, nodes[i].ip)
  }

  ghost predicate DistinctIps(nodes: seq<Node>) {
    forall i, j :: 0 <= i < j < |nodes| ==> nodes[i].ip != nodes[j].ip
  }

  predicate HasIp(nodes: seq<Node>, ip: string) {
    exists i :: 0 <= i < |nodes| && nodes[i].ip == ip
  }

  // Sorting.

  function Insert(nodes: seq<Node>, x: Node): (r: seq<Node>)
    ensures multiset(r) == multiset(nodes) + multiset{x}
  {
    if nodes == [] then [x]
    else if Less(x.ip, nodes[|nodes| - 1].ip) then
      assert nodes == nodes[..|nodes| - 1] + [nodes[|nodes| - 1]];
      Insert(nodes[..|nodes| - 1], x) + [nodes[|nodes| - 1]]
    else nodes + [x]
  }

  /** std::sort by ip. */
  function Sort(nodes: seq<Node>): (r: seq<Node>)
    ensures multiset(r) == multiset(nodes)
  {
    if nodes == [] then [] else
      assert nodes == nodes[..|nodes| - 1] + [nodes[|nodes| - 1]];
      Insert(Sort(nodes[..|nodes| - 1]), nodes[|nodes| - 1])
  }

  lemma NotLessTransitive(a: string, b: string, c: string)
    requires !Less(b, a) && !Less(c, b)
    ensures !Less(c, a)
  {
    LessTotal(a, b);
    LessTotal(b, c);
    LessTotal(a, c);
    if Less(a, b) && Less(b, c) {
      LessTransitive(a, b, c);
    }
  }

  lemma SortedSnoc(nodes: seq<Node>, last: Node)
    requires SortedByIp(nodes) && forall i :: 0 <= i < |nodes| ==> !Less(last.ip, nodes[i].ip)
    ensures SortedByIp(nodes + [last])
  {
    hide Less;
  }

  lemma {:induction false} InsertSorted(nodes: seq<Node>, x: Node)
    requires SortedByIp(nodes)
    ensures SortedByIp(Insert(nodes, x))
  {
    hide Less;
    if nodes == [] {
      SortedSnoc([], x);
      assert [] + [x] == [x];
    } else {
      var n := |nodes| - 1;
      var last := nodes[n];
      LessTotal(x.ip, last.ip);
      if Less(x.ip, last.ip) {
        InsertSorted(nodes[..n], x);
        var r := Insert(nodes[..n], x);
        forall i | 0 <= i < |r| ensures !Less(last.ip, r[i].ip) {
          assert r[i] in multiset(r);
          assert r[i] == x || r[i] in nodes[..n];
        }
        hide SortedByIp;
        SortedSnoc(r, last);
      } else {
        forall i | 0 <= i < |nodes| ensures !Less(x.ip, nodes[i].ip) {
          if i < n {
            NotLessTransitive(nodes[i].ip, last.ip, x.ip);
          }
        }
        hide SortedByIp;
        SortedSnoc(nodes, x);
      }
    }
  }

  lemma {:induction false} SortSorted(nodes: seq<Node>)
    ensures SortedByIp(Sort(nodes))
  {
    if nodes != [] {
      SortSorted(nodes[..|nodes| - 1]);
      InsertSorted(Sort(nodes[..|nodes| - 1]), nodes[|nodes| - 1]);
    }
  }

  lemma SameIpSameNode(nodes: seq<Node>, x: Node, y: Node)
    requires DistinctIps(nodes) && x in nodes && y in nodes && x.ip == y.ip
    ensures x == y
  {
  }

  lemma TwiceThere(nodes: seq<Node>, i: nat, j: nat)
    requires i < j < |nodes| && nodes[i] == nodes[j]
    ensures multiset(nodes)[nodes[i]] >= 2
  {
    assert nodes == nodes[..j] + nodes[j..];
    assert nodes[i] in nodes[..j] && nodes[i] in nodes[j..];
  }

  /** Distinct ips survive any reordering. */
  lemma DistinctSort(nodes: seq<Node>)
    requires DistinctIps(nodes)
    ensures DistinctIps(Sort(nodes)) && |Sort(nodes)| == |nodes|
  {
    var r := Sort(nodes);
    assert |multiset(r)| == |multiset(nodes)|;
    hide Sort, DistinctIps;
    forall i, j | 0 <= i < j < |r| && r[i].ip == r[j].ip ensures false {
      assert r[i] in multiset(r) && r[j] in multiset(r);
      SameIpSameNode(nodes, r[i], r[j]);
      AtMostOnce(nodes, r[i]);
      TwiceThere(r, i, j);
    }
    NoTwo(r);
  }

  lemma NoTwo(r: seq<Node>)
    requires !exists i, j :: 0 <= i < j < |r| && r[i].ip == r[j].ip
    ensures DistinctIps(r)
  {
  }

  lemma {:induction false} AtMostOnce(nodes: seq<Node>, x: Node)
    requires DistinctIps(nodes)
    ensures multiset(nodes)[x] <= 1
  {
    if nodes != [] {
      var n := |nodes| - 1;
      AtMostOnce(nodes[..n], x);
      assert nodes == nodes[..n] + [nodes[n]];
      if nodes[n] == x {
        assert x !in nodes[..n];
      }
    }
  }

  // Filtering and searching.

  function Filter(nodes: seq<Node>, keep: Node -> bool): (r: seq<Node>)
    ensures forall x :: x in r <==> x in nodes && keep(x)
  {
    if nodes == [] then [] else
      var n := |nodes| - 1;
      assert nodes == nodes[..n] + [nodes[n]];
      var init := Filter(nodes[..n], keep);
      if keep(nodes[n]) then init + [nodes[n]] else init
  }

  lemma {:induction false} FilterSize(nodes: seq<Node>, keep: Node -> bool)
    ensures |Filter(nodes, keep)| <= |nodes|
  {
    if nodes != [] {
      FilterSize(nodes[..|nodes| - 1], keep);
    }
  }

  lemma SortedLast(nodes: seq<Node>, n: nat, x: Node)
    requires SortedByIp(nodes) && n < |nodes| && x in nodes[..n]
    ensures !Less(nodes[n].ip, x.ip)
  {
  }

  lemma DistinctLast(nodes: seq<Node>, n: nat, x: Node)
    requires DistinctIps(nodes) && n < |nodes| && x in nodes[..n]
    ensures nodes[n].ip != x.ip
  {
  }

  /** What remains after filtering a sorted list is sorted. */
  lemma {:induction false} FilterSorted(nodes: seq<Node>, keep: Node -> bool)
    requires SortedByIp(nodes)
    ensures SortedByIp(Filter(nodes, keep))
  {
    if nodes != [] {
      var n := |nodes| - 1;
      var r := Filter(nodes[..n], keep);
      FilterSorted(nodes[..n], keep);
      hide Less;
      forall i | 0 <= i < |r| ensures !Less(nodes[n].ip, r[i].ip) {
        assert r[i] in r;
        SortedLast(nodes, n, r[i]);
      }
    }
  }

  lemma {:induction false} FilterDistinct(nodes: seq<Node>, keep: Node -> bool)
    requires DistinctIps(nodes)
    ensures DistinctIps(Filter(nodes, keep))
  {
    if nodes != [] {
      var n := |nodes| - 1;
      var r := Filter(nodes[..n], keep);
      FilterDistinct(nodes[..n], keep);
      forall i | 0 <= i < |r| ensures nodes[n].ip != r[i].ip {
        assert r[i] in r;
        DistinctLast(nodes, n, r[i]);
      }
    }
  }

  /** std::remove_if with erase: what fails the test is kept, in order. */
  method RemoveIf(nodes: seq<Node>, keep: Node -> bool) returns (r: seq<Node>)
    ensures r == Filter(nodes, keep)
  {
    r := [];
    for i := 0 to |nodes|
      invariant r == Filter(nodes[..i], keep)
    {
      assert nodes[..i + 1][..i] == nodes[..i];
      if keep(nodes[i]) {
        r := r + [nodes[i]];
      }
    }
    assert nodes[..|nodes|] == nodes;
  }

  /** std::binary_search agrees with membership by ip on a sorted list. */
  method BinarySearch(nodes: seq<Node>, x: Node) returns (found: bool)
    requires SortedByIp(nodes)
    ensures found <==> HasIp(nodes, x.ip)
  {
    var lo, hi := 0, |nodes|;
    hide Less;
    while lo < hi
      invariant 0 <= lo <= hi <= |nodes|
      invariant forall i :: 0 <= i < lo ==> Less(nodes[i].ip, x.ip)
      invariant forall i :: hi <= i < |nodes| ==> !Less(nodes[i].ip, x.ip)
    {
      var mid := (lo + hi) / 2;
      if Less(nodes[mid].ip, x.ip) {
        forall i | 0 <= i < mid ensures Less(nodes[i].ip, x.ip) {
          NotLessLess(nodes[i].ip, nodes[mid].ip, x.ip);
        }
        lo := mid + 1;
      } else {
        forall i | mid < i < |nodes| ensures !Less(nodes[i].ip, x.ip) {
          NotLessTransitive(x.ip, nodes[mid].ip, nodes[i].ip);
        }
        hi := mid;
      }
    }
    found := lo < |nodes| && !Less(x.ip, nodes[lo].ip);
    if lo < |nodes| {
      LessTotal(x.ip, nodes[lo].ip);
    }
    forall i | 0 <= i < |nodes| && nodes[i].ip == x.ip ensures found {
      LessIrreflexive(x.ip);
      assert lo <= i;
      if lo < i {
        assert !Less(nodes[i].ip, nodes[lo].ip);
      }
    }
  }

  lemma NotLessLess(a: string, b: string, c: string)
    requires !Less(b, a) && Less(b, c)
    ensures Less(a, c)
  {
    LessTotal(a, b);
    if a != b {
      LessTransitive(a, b, c);
    }
  }

  // The choice.

  /** The results of scanning: namenodes on their own port, datanodes in chunks later. */
  datatype Scan = Scan(nnUp: string -> bool, dnUp: string -> bool)

  function Online(scan: Scan): (keep: Node -> bool) {
    (x: Node) => scan.nnUp(x.ip)
  }

  function NotAmong(kept: seq<Node>): (keep: Node -> bool) {
    (x: Node) => !HasIp(kept, x.ip)
  }

  /** The old namenodes found online, by ip. */
  function Kept(scan: Scan, namenodes: seq<Node>): (r: seq<Node>) {
    Filter(Sort(namenodes), Online(scan))
  }

  /** The datanodes that are not already chosen. */
  function Others(kept: seq<Node>, datanodes: seq<Node>): (r: seq<Node>) {
    Filter(datanodes, NotAmong(kept))
  }

  /** The first `n` candidates found online, moved to the namenode port. */
  function Added(scan: Scan, nnPort: nat, candidates: seq<Node>, n: int): (r: seq<Node>)
    ensures |r| <= |candidates| && (0 <= n ==> |r| <= n) && (n <= 0 ==> r == [])
  {
    if candidates == [] then [] else
      var k := |candidates| - 1;
      var init := Added(scan, nnPort, candidates[..k], n);
      if scan.dnUp(candidates[k].ip) && |init| < n then init + [candidates[k].(port := nnPort)] else init
  }

  function Chosen(scan: Scan, expected: nat, nnPort: nat, namenodes: seq<Node>, datanodes: seq<Node>): (r: seq<Node>) {
    var kept := Kept(scan, namenodes);
    kept + Added(scan, nnPort, Others(kept, datanodes), expected - |kept|)
  }

  lemma {:induction false} AddedPrefix(scan: Scan, nnPort: nat, candidates: seq<Node>, n: int, i: nat)
    requires i <= |candidates| && |Added(scan, nnPort, candidates[..i], n)| >= n
    ensures Added(scan, nnPort, candidates, n) == Added(scan, nnPort, candidates[..i], n)
    decreases |candidates| - i
  {
    if i == |candidates| {
      assert candidates[..i] == candidates;
    } else {
      assert candidates[..i + 1][..i] == candidates[..i];
      AddedPrefix(scan, nnPort, candidates, n, i + 1);
    }
  }

  lemma AddedStep(scan: Scan, nnPort: nat, candidates: seq<Node>, n: int, i: nat)
    requires i < |candidates|
    ensures var init := Added(scan, nnPort, candidates[..i], n);
      Added(scan, nnPort, candidates[..i + 1], n) ==
        if scan.dnUp(candidates[i].ip) && |init| < n then init + [candidates[i].(port := nnPort)] else init
  {
    assert candidates[..i + 1][..i] == candidates[..i];
  }

  /** One chunk: its online nodes are appended until enough are chosen. */
  method AddChunk(scan: Scan, expected: nat, nnPort: nat, kept: seq<Node>, candidates: seq<Node>, from: nat, end: nat,
                  before: seq<Node>)
    returns (nodes: seq<Node>)
    requires from <= end <= |candidates| && |before| < expected
    requires before == kept + Added(scan, nnPort, candidates[..from], expected - |kept|)
    ensures nodes == kept + Added(scan, nnPort, candidates[..end], expected - |kept|)
  {
    nodes := before;
    hide Added;
    for i := from to end
      invariant |nodes| < expected
      invariant nodes == kept + Added(scan, nnPort, candidates[..i], expected - |kept|)
    {
      AddedStep(scan, nnPort, candidates, expected - |kept|, i);
      if scan.dnUp(candidates[i].ip) {
        nodes := nodes + [candidates[i].(port := nnPort)];
        if |nodes| >= expected {
          assert candidates[..end][..i + 1] == candidates[..i + 1];
          AddedPrefix(scan, nnPort, candidates[..end], expected - |kept|, i + 1);
          return;
        }
      }
    }
  }

  /** The chunked scan: chunks of `expected` datanodes, stopping as soon as enough are chosen. */
  method ScanOthers(scan: Scan, expected: nat, nnPort: nat, kept: seq<Node>, candidates: seq<Node>)
    returns (nodes: seq<Node>)
    ensures nodes == kept + Added(scan, nnPort, candidates, expected - |kept|)
  {
    nodes := kept;
    var i := 0;
    assert candidates[..0] == [];
    while i < |candidates| && |nodes| < expected
      invariant nodes ==
        kept + Added(scan, nnPort, candidates[..if i < |candidates| then i else |candidates|], expected - |kept|)
      decreases |candidates| - i
    {
      var end := if i + expected < |candidates| then i + expected else |candidates|;
      nodes := AddChunk(scan, expected, nnPort, kept, candidates, i, end, nodes);
      i := i + expected;
    }
    if i < |candidates| {
      AddedPrefix(scan, nnPort, candidates, expected - |kept|, i);
    } else {
      assert candidates[..|candidates|] == candidates;
    }
  }

  /** on_leader_start: none is chosen exactly when the list would be empty. */
  method OnLeaderStart(scan: Scan, expected: nat, nnPort: nat, namenodes: seq<Node>, datanodes: seq<Node>)
    returns (r: Option<seq<Node>>)
    ensures var chosen := Chosen(scan, expected, nnPort, namenodes, datanodes);
      r == if chosen == [] then None else Some(chosen)
  {
    hide Filter, Sort, SortedByIp, Online, Added, Less, Others;
    var nodes := Sort(namenodes);
    SortSorted(namenodes);
    FilterSorted(nodes, Online(scan));
    nodes := RemoveIf(nodes, Online(scan));
    assert nodes == Kept(scan, namenodes);
    var allnodes := RemoveChosen(nodes, datanodes);
    nodes := ScanOthers(scan, expected, nnPort, nodes, allnodes);
    r := if nodes == [] then None else Some(nodes);
  }

  /** Drops the datanodes that binary search finds among the kept namenodes. */
  method RemoveChosen(kept: seq<Node>, datanodes: seq<Node>) returns (r: seq<Node>)
    requires SortedByIp(kept)
    ensures r == Others(kept, datanodes)
  {
    r := [];
    hide Less;
    for i := 0 to |datanodes|
      invariant r == Others(kept, datanodes[..i])
    {
      assert datanodes[..i + 1][..i] == datanodes[..i];
      var found := BinarySearch(kept, datanodes[i]);
      if !found {
        r := r + [datanodes[i]];
      }
    }
    assert datanodes[..|datanodes|] == datanodes;
  }

  // What the choice guarantees.

  lemma HasIpMono(nodes: seq<Node>, n: nat, ip: string)
    requires n <= |nodes| && HasIp(nodes[..n], ip)
    ensures HasIp(nodes, ip)
  {
    var i :| 0 <= i < n && nodes[..n][i].ip == ip;
    assert nodes[i].ip == ip;
  }

  /** Added nodes are candidates found online, on the namenode port. */
  lemma {:induction false} AddedFrom(scan: Scan, nnPort: nat, candidates: seq<Node>, n: int, x: Node)
    requires x in Added(scan, nnPort, candidates, n)
    ensures x.port == nnPort && scan.dnUp(x.ip) && HasIp(candidates, x.ip)
  {
    var k := |candidates| - 1;
    if x in Added(scan, nnPort, candidates[..k], n) {
      AddedFrom(scan, nnPort, candidates[..k], n, x);
      HasIpMono(candidates, k, x.ip);
    } else {
      assert candidates[k].ip == x.ip;
    }
  }

  function UpAsDatanode(scan: Scan): (keep: Node -> bool) {
    (x: Node) => scan.dnUp(x.ip)
  }

  /** The same addresses on another port. */
  function OnPort(nodes: seq<Node>, port: nat): (r: seq<Node>)
    ensures |r| == |nodes| && forall i :: 0 <= i < |r| ==> r[i] == nodes[i].(port := port)
  {
    seq(|nodes|, i requires 0 <= i < |nodes| => nodes[i].(port := port))
  }

  /** Exactly the first `n` online candidates are added, or all of them, in the order of the candidates. */
  lemma {:induction false} AddedAreFirst(scan: Scan, nnPort: nat, candidates: seq<Node>, n: nat)
    ensures var up := Filter(candidates, UpAsDatanode(scan));
      Added(scan, nnPort, candidates, n) == OnPort(up[..if n < |up| then n else |up|], nnPort)
  {
    if candidates != [] {
      var k := |candidates| - 1;
      AddedAreFirst(scan, nnPort, candidates[..k], n);
    }
  }

  lemma {:induction false} AddedDistinct(scan: Scan, nnPort: nat, candidates: seq<Node>, n: int)
    requires DistinctIps(candidates)
    ensures DistinctIps(Added(scan, nnPort, candidates, n))
  {
    if candidates != [] {
      var k := |candidates| - 1;
      var init := Added(scan, nnPort, candidates[..k], n);
      AddedDistinct(scan, nnPort, candidates[..k], n);
      forall i | 0 <= i < |init| ensures init[i].ip != candidates[k].ip {
        AddedFrom(scan, nnPort, candidates[..k], n, init[i]);
        var j :| 0 <= j < k && candidates[..k][j].ip == init[i].ip;
        assert candidates[j].ip == init[i].ip;
      }
    }
  }

  /** When fewer than `n` were added, every candidate found online was. */
  lemma {:induction false} AddedAll(scan: Scan, nnPort: nat, candidates: seq<Node>, n: int, x: Node)
    requires x in candidates && scan.dnUp(x.ip) && |Added(scan, nnPort, candidates, n)| < n
    ensures HasIp(Added(scan, nnPort, candidates, n), x.ip)
  {
    var k := |candidates| - 1;
    var init, all := Added(scan, nnPort, candidates[..k], n), Added(scan, nnPort, candidates, n);
    assert all[..|init|] == init;
    if x == candidates[k] {
      assert all[|init|].ip == x.ip;
    } else {
      AddedAll(scan, nnPort, candidates[..k], n, x);
      HasIpMono(all, |init|, x.ip);
    }
  }

  lemma DistinctSum(a: seq<Node>, b: seq<Node>)
    requires DistinctIps(a) && DistinctIps(b)
    requires forall i, j :: 0 <= i < |a| && 0 <= j < |b| ==> a[i].ip != b[j].ip
    ensures DistinctIps(a + b)
  {
  }

  lemma KeptIs(scan: Scan, namenodes: seq<Node>)
    ensures SortedByIp(Kept(scan, namenodes)) && |Kept(scan, namenodes)| <= |namenodes|
    ensures DistinctIps(namenodes) ==> DistinctIps(Kept(scan, namenodes))
    ensures forall x :: x in Kept(scan, namenodes) <==> x in namenodes && scan.nnUp(x.ip)
  {
    var sorted := Sort(namenodes);
    SortSorted(namenodes);
    FilterSorted(sorted, Online(scan));
    FilterSize(sorted, Online(scan));
    assert |multiset(sorted)| == |multiset(namenodes)|;
    forall x ensures x in sorted <==> x in namenodes {
      assert x in sorted <==> x in multiset(sorted);
      assert x in namenodes <==> x in multiset(namenodes);
    }
    if DistinctIps(namenodes) {
      DistinctSort(namenodes);
      FilterDistinct(sorted, Online(scan));
    }
  }

  lemma OthersAre(kept: seq<Node>, datanodes: seq<Node>, ip: string)
    ensures HasIp(Others(kept, datanodes), ip) <==> HasIp(datanodes, ip) && !HasIp(kept, ip)
  {
    var others := Others(kept, datanodes);
    if HasIp(others, ip) {
      var i :| 0 <= i < |others| && others[i].ip == ip;
      assert others[i] in others;
    }
    if HasIp(datanodes, ip) && !HasIp(kept, ip) {
      var i :| 0 <= i < |datanodes| && datanodes[i].ip == ip;
      assert datanodes[i] in others;
    }
  }

  /** Every chosen node was found online: a kept namenode, or a datanode on the namenode port. */
  ghost predicate Legitimate(scan: Scan, nnPort: nat, namenodes: seq<Node>, datanodes: seq<Node>, x: Node) {
    (x in namenodes && scan.nnUp(x.ip)) || (x.port == nnPort && scan.dnUp(x.ip) && HasIp(datanodes, x.ip))
  }

  lemma ChosenLegitimate(scan: Scan, expected: nat, nnPort: nat, namenodes: seq<Node>, datanodes: seq<Node>, x: Node)
    requires x in Chosen(scan, expected, nnPort, namenodes, datanodes)
    ensures Legitimate(scan, nnPort, namenodes, datanodes, x)
  {
    var kept := Kept(scan, namenodes);
    KeptIs(scan, namenodes);
    if x !in kept {
      AddedFrom(scan, nnPort, Others(kept, datanodes), expected - |kept|, x);
      OthersAre(kept, datanodes, x.ip);
    }
  }

  /** An added node is none of the kept ones. */
  lemma NeverTwice(scan: Scan, nnPort: nat, kept: seq<Node>, datanodes: seq<Node>, n: int, i: nat, j: nat)
    requires i < |kept| && j < |Added(scan, nnPort, Others(kept, datanodes), n)|
    ensures kept[i].ip != Added(scan, nnPort, Others(kept, datanodes), n)[j].ip
  {
    var x := Added(scan, nnPort, Others(kept, datanodes), n)[j];
    AddedFrom(scan, nnPort, Others(kept, datanodes), n, x);
    OthersAre(kept, datanodes, x.ip);
  }

  lemma SumDistinct(scan: Scan, nnPort: nat, kept: seq<Node>, datanodes: seq<Node>, n: int)
    requires DistinctIps(kept) && DistinctIps(datanodes)
    ensures DistinctIps(kept + Added(scan, nnPort, Others(kept, datanodes), n))
  {
    var others := Others(kept, datanodes);
    var added := Added(scan, nnPort, others, n);
    FilterDistinct(datanodes, NotAmong(kept));
    AddedDistinct(scan, nnPort, others, n);
    hide Added, Others, Filter, NotAmong, DistinctIps;
    forall i: nat, j: nat | i < |kept| && j < |added| ensures kept[i].ip != added[j].ip {
      NeverTwice(scan, nnPort, kept, datanodes, n, i, j);
    }
    DistinctSum(kept, added);
  }

  lemma ChosenDistinct(scan: Scan, expected: nat, nnPort: nat, namenodes: seq<Node>, datanodes: seq<Node>)
    requires DistinctIps(namenodes) && DistinctIps(datanodes)
    ensures DistinctIps(Chosen(scan, expected, nnPort, namenodes, datanodes))
  {
    hide Kept, Added, Others, SortedByIp, DistinctIps;
    var kept := Kept(scan, namenodes);
    KeptIs(scan, namenodes);
    SumDistinct(scan, nnPort, kept, datanodes, expected - |kept|);
  }

  lemma SumMaximal(scan: Scan, nnPort: nat, kept: seq<Node>, datanodes: seq<Node>, n: int, d: Node)
    requires |Added(scan, nnPort, Others(kept, datanodes), n)| < n && d in datanodes && scan.dnUp(d.ip)
    ensures HasIp(kept + Added(scan, nnPort, Others(kept, datanodes), n), d.ip)
  {
    var others := Others(kept, datanodes);
    var added := Added(scan, nnPort, others, n);
    assert (kept + added)[..|kept|] == kept;
    if HasIp(kept, d.ip) {
      HasIpMono(kept + added, |kept|, d.ip);
    } else {
      assert d in others;
      AddedAll(scan, nnPort, others, n, d);
      hide Added, Others;
      var j :| 0 <= j < |added| && added[j].ip == d.ip;
      assert (kept + added)[|kept| + j].ip == d.ip;
    }
  }

  /** A list that stayed short holds every datanode found online. */
  lemma ChosenMaximal(scan: Scan, expected: nat, nnPort: nat, namenodes: seq<Node>, datanodes: seq<Node>, d: Node)
    requires |Chosen(scan, expected, nnPort, namenodes, datanodes)| < expected
    requires d in datanodes && scan.dnUp(d.ip)
    ensures HasIp(Chosen(scan, expected, nnPort, namenodes, datanodes), d.ip)
  {
    hide Kept, Added, Others, HasIp;
    var kept := Kept(scan, namenodes);
    SumMaximal(scan, nnPort, kept, datanodes, expected - |kept|, d);
  }

  /** The namenode list after a series of elections; an election that finds nobody leaves it alone. */
  function After(scans: seq<Scan>, expected: nat, nnPort: nat, datanodes: seq<Node>): (nodes: seq<Node>) {
    if scans == [] then [] else
      var before := After(scans[..|scans| - 1], expected, nnPort, datanodes);
      var chosen := Chosen(scans[|scans| - 1], expected, nnPort, before, datanodes);
      if chosen == [] then before else chosen
  }

  /** Over every series of elections the list has distinct ips, all of datanodes, and is never too long. */
  lemma {:induction false} ElectionsKeep(scans: seq<Scan>, expected: nat, nnPort: nat, datanodes: seq<Node>)
    requires DistinctIps(datanodes)
    ensures var nodes := After(scans, expected, nnPort, datanodes);
      && DistinctIps(nodes) && |nodes| <= expected
      && forall x :: x in nodes ==> x.port == nnPort && HasIp(datanodes, x.ip)
  {
    if scans != [] {
      var n := |scans| - 1;
      ElectionsKeep(scans[..n], expected, nnPort, datanodes);
      var before := After(scans[..n], expected, nnPort, datanodes);
      ChosenDistinct(scans[n], expected, nnPort, before, datanodes);
      KeptIs(scans[n], before);
      forall x | x in Chosen(scans[n], expected, nnPort, before, datanodes)
        ensures x.port == nnPort && HasIp(datanodes, x.ip)
      {
        ChosenLegitimate(scans[n], expected, nnPort, before, datanodes, x);
      }
    }
  }

  /** One election, whole: the old namenodes found online lead the new list, in ip order. */
  lemma ElectionOutcome(scan: Scan, expected: nat, nnPort: nat, namenodes: seq<Node>, datanodes: seq<Node>)
    requires DistinctIps(namenodes) && DistinctIps(datanodes) && |namenodes| <= expected
    ensures var nodes := Chosen(scan, expected, nnPort, namenodes, datanodes);
      && DistinctIps(nodes) && |nodes| <= expected
      && Kept(scan, namenodes) <= nodes && SortedByIp(Kept(scan, namenodes))
      && (forall x :: x in namenodes && scan.nnUp(x.ip) ==> x in nodes)
      && (forall x :: x in nodes ==> Legitimate(scan, nnPort, namenodes, datanodes, x))
      && (|nodes| < expected ==> forall d :: d in datanodes && scan.dnUp(d.ip) ==> HasIp(nodes, d.ip))
  {
    var nodes := Chosen(scan, expected, nnPort, namenodes, datanodes);
    KeptIs(scan, namenodes);
    ChosenDistinct(scan, expected, nnPort, namenodes, datanodes);
    assert Kept(scan, namenodes) <= nodes && |nodes| <= expected;
    hide Chosen, Legitimate, SortedByIp, DistinctIps, HasIp;
    forall x | x in nodes ensures Legitimate(scan, nnPort, namenodes, datanodes, x) {
      ChosenLegitimate(scan, expected, nnPort, namenodes, datanodes, x);
    }
    if |nodes| < expected {
      forall d | d in datanodes && scan.dnUp(d.ip) ensures HasIp(nodes, d.ip) {
        ChosenMaximal(scan, expected, nnPort, namenodes, datanodes, d);
      }
    }
  }
}
