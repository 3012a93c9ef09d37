/** Changing the raft peers of the namenodes: when the change is a membership change, and what it keeps. */
module Quorums {
  import opened Elections

  ghost function Ips(nodes: seq<Node>): (s: set<string>) {
    set i | 0 <= i < |nodes| :: nodes[i].ip
  }

  lemma {:induction false} IpsSize(nodes: seq<Node>)
    requires DistinctIps(nodes)
    ensures |Ips(nodes)| == |nodes|
  {
    if nodes == [] {
      assert Ips(nodes) == {};
    } else {
      var n := |nodes| - 1;
      IpsSize(nodes[..n]);
      assert Ips(nodes) == Ips(nodes[..n]) + {nodes[n].ip};
    }
  }

  /** std::find by ip. */
  method Contains(nodes: seq<Node>, x: Node) returns (found: bool)
    ensures found <==> x.ip in Ips(nodes)
  {
    var i := 0;
    while i < |nodes| && nodes[i].ip != x.ip
      invariant i <= |nodes| && forall j :: 0 <= j < i ==> nodes[j].ip != x.ip
    {
      i := i + 1;
    }
    found := i < |nodes|;
  }

  datatype PeerChange = ChangePeers | ResetPeers

  /** How many of the old nodes are in the new list. */
  ghost function Survivors(oldNodes: seq<Node>, newNodes: seq<Node>): (n: nat) {
    if oldNodes == [] then 0 else
      var k := |oldNodes| - 1;
      Survivors(oldNodes[..k], newNodes) + (if oldNodes[k].ip in Ips(newNodes) then 1 else 0)
  }

  /** change_namenodes_list: a membership change when the survivors outnumber half of the new list. */
  method ChangeNamenodesList(oldNodes: seq<Node>, newNodes: seq<Node>) returns (how: PeerChange)
    ensures how == ChangePeers <==> Survivors(oldNodes, newNodes) > |newNodes| / 2
    ensures DistinctIps(oldNodes) && DistinctIps(newNodes) ==>
      (how == ChangePeers <==> Majority(Ips(oldNodes) * Ips(newNodes), Ips(newNodes)))
  {
    var alive := 0;
    hide Ips;
    for i := 0 to |oldNodes|
      invariant alive == Survivors(oldNodes[..i], newNodes)
    {
      assert oldNodes[..i + 1][..i] == oldNodes[..i];
      var found := Contains(newNodes, oldNodes[i]);
      if found {
        alive := alive + 1;
      }
    }
    assert oldNodes[..|oldNodes|] == oldNodes;
    how := if alive > |newNodes| / 2 then ChangePeers else ResetPeers;
    if DistinctIps(oldNodes) && DistinctIps(newNodes) {
      SurvivorsAreShared(oldNodes, newNodes);
      IpsSize(newNodes);
    }
  }

  /** For duplicate-free peers the count is the number of shared ips. */
  lemma {:induction false} SurvivorsAreShared(oldNodes: seq<Node>, newNodes: seq<Node>)
    requires DistinctIps(oldNodes)
    ensures Survivors(oldNodes, newNodes) == |Ips(oldNodes) * Ips(newNodes)|
  {
    if oldNodes == [] {
      assert Ips(oldNodes) * Ips(newNodes) == {};
    } else {
      var k := |oldNodes| - 1;
      SurvivorsAreShared(oldNodes[..k], newNodes);
      OneMoreIp(oldNodes, k);
      assert oldNodes[..k + 1] == oldNodes;
      hide Ips, DistinctIps;
      SharedOneMore(Ips(oldNodes[..k]), Ips(newNodes), oldNodes[k].ip);
    }
  }

  lemma SharedOneMore(a: set<string>, b: set<string>, x: string)
    requires x !in a
    ensures |(a + {x}) * b| == |a * b| + (if x in b then 1 else 0)
  {
    assert (a + {x}) * b == if x in b then a * b + {x} else a * b;
  }

  lemma OneMoreIp(nodes: seq<Node>, i: nat)
    requires DistinctIps(nodes) && i < |nodes|
    ensures Ips(nodes[..i + 1]) == Ips(nodes[..i]) + {nodes[i].ip} && nodes[i].ip !in Ips(nodes[..i])
  {
    assert forall ip :: ip in Ips(nodes[..i + 1]) <==> ip in Ips(nodes[..i]) || ip == nodes[i].ip by {
      forall ip | ip in Ips(nodes[..i]) ensures ip in Ips(nodes[..i + 1]) {
        var j :| 0 <= j < i && nodes[..i][j].ip == ip;
        assert nodes[..i + 1][j].ip == ip;
      }
      assert nodes[..i + 1][i].ip == nodes[i].ip;
    }
  }

  // Majorities.

  ghost predicate Majority(q: set<string>, config: set<string>) {
    q <= config && 2 * |q| > |config|
  }

  lemma SubsetSize(a: set<string>, b: set<string>)
    requires a <= b
    ensures |a| + |b - a| == |b|
  {
    assert b == a + (b - a);
  }

  /** Every majority of a configuration meets a subset of it exactly when the subset is at least half. */
  lemma MeetsExactly(s: set<string>, config: set<string>)
    requires s <= config
    ensures (forall q :: Majority(q, config) ==> q * s != {}) <==> 2 * |s| >= |config|
  {
    SubsetSize(s, config);
    if 2 * |s| < |config| {
      var q := config - s;
      assert Majority(q, config) && q * s == {};
    }
    forall q | Majority(q, config) && q * s == {} ensures 2 * |s| < |config| {
      assert q <= config - s;
      SubsetSize(q, config - s);
    }
  }

  /**
   After a membership change whose old list is no longer than the new one, the survivors are a strict
   majority of both configurations, so every majority of either contains a survivor.
   */
  lemma ChangeKeepsQuorum(oldNodes: seq<Node>, newNodes: seq<Node>)
    requires DistinctIps(oldNodes) && DistinctIps(newNodes) && |oldNodes| <= |newNodes|
    requires Survivors(oldNodes, newNodes) > |newNodes| / 2
    ensures var survivors := Ips(oldNodes) * Ips(newNodes);
      && Majority(survivors, Ips(oldNodes)) && Majority(survivors, Ips(newNodes))
      && (forall q :: Majority(q, Ips(oldNodes)) ==> q * survivors != {})
      && (forall q :: Majority(q, Ips(newNodes)) ==> q * survivors != {})
  {
    SurvivorsAreShared(oldNodes, newNodes);
    IpsSize(oldNodes);
    IpsSize(newNodes);
    MeetsExactly(Ips(oldNodes) * Ips(newNodes), Ips(oldNodes));
    MeetsExactly(Ips(oldNodes) * Ips(newNodes), Ips(newNodes));
  }

  const ONE_NODE := [Node("a", 0)]
  const THREE_NODES := [Node("a", 0), Node("b", 0), Node("c", 0)]

  lemma ThreeNodes()
    ensures DistinctIps(THREE_NODES) && "a" in Ips(THREE_NODES)
    ensures DistinctIps(ONE_NODE) && Ips(ONE_NODE) == {"a"}
  {
    assert THREE_NODES[0].ip == ONE_NODE[0].ip == "a";
  }

  /** With a longer old list a membership change may leave a majority of the old peers without a survivor. */
  lemma ShrinkingMayLoseQuorum()
    ensures exists oldNodes: seq<Node>, newNodes: seq<Node>, q: set<string> ::
      && DistinctIps(oldNodes) && DistinctIps(newNodes) && Survivors(oldNodes, newNodes) > |newNodes| / 2
      && Majority(q, Ips(oldNodes)) && q * (Ips(oldNodes) * Ips(newNodes)) == {}
  {
    hide Survivors, Majority, Ips, DistinctIps;
    ThreeNodes();
    IpsSize(THREE_NODES);
    SurvivorsAreShared(THREE_NODES, ONE_NODE);
    assert Ips(THREE_NODES) * Ips(ONE_NODE) == {"a"};
    AllButOne(Ips(THREE_NODES), "a");
  }

  lemma AllButOne(all: set<string>, a: string)
    requires a in all && |all| == 3
    ensures Majority(all - {a}, all) && (all - {a}) * {a} == {}
  {
  }

  /** After any membership change all old majorities are met exactly when the survivors are half of the old list. */
  lemma OldQuorumsExactly(oldNodes: seq<Node>, newNodes: seq<Node>)
    requires DistinctIps(oldNodes)
    ensures (forall q :: Majority(q, Ips(oldNodes)) ==> q * (Ips(oldNodes) * Ips(newNodes)) != {}) <==>
      2 * Survivors(oldNodes, newNodes) >= |oldNodes|
  {
    SurvivorsAreShared(oldNodes, newNodes);
    IpsSize(oldNodes);
    MeetsExactly(Ips(oldNodes) * Ips(newNodes), Ips(oldNodes));
  }
}
