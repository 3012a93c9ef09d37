/**
 Placing the shards of a block on datanodes, in turn and with retries. The outcome of upload attempt
 number t is an oracle `up(t)`; every statement is about all oracles.
 */
module Placement {
  import opened Division
  import opened StorageTypes
  import opened ShardList

  /**
   The loop's variables: the next node, the shards stored so far in all, the failures counted, the
   attempts made in all, and the attempts that stored the shards of the current block, in order.
   */
  datatype Progress = Progress(node: nat, succ: nat, fails: nat, attempts: nat, placed: seq<nat>, gaveUp: bool)

  const START := Progress(0, 0, 0, 0, [], false)

  /** What the loop works on: the storage type, the number of shards and of nodes, the outcomes. */
  datatype Job = Job(st: StorageType, shards: nat, nodes: nat, up: nat -> bool)

  predicate Halted(job: Job, s: Progress) {
    s.gaveUp || |s.placed| >= job.shards
  }

  /** The index of the node that is tried next. */
  function NextIndex(node: nat, nodes: nat): (j: nat)
    requires nodes > 0
    ensures j < nodes
  {
    (node + 1) % nodes
  }

  /** One iteration of the placement loop. */
  function Step(job: Job, s: Progress): (s': Progress)
    requires job.nodes > 0
  {
    var ok := job.up(s.attempts);
    var succ := if ok then s.succ + 1 else s.succ;
    var fails := if ok then s.fails else s.fails + 1;
    var placed := if ok then s.placed + [s.attempts] else s.placed;
    var node := NextIndex(s.node, job.nodes);
    var passEnds := node == 0 && !job.st.Check(succ);
    var gaveUp := passEnds && fails == job.nodes;
    Progress(node, succ, if passEnds && !gaveUp then 0 else fails, s.attempts + 1, placed, gaveUp)
  }

  /** At most `n` iterations, fewer when the loop ends before. */
  function Run(job: Job, s: Progress, n: nat): (s': Progress)
    requires job.nodes > 0
    decreases n
  {
    if n == 0 || Halted(job, s) then s else Run(job, Step(job, s), n - 1)
  }

  lemma {:induction false} RunHalted(job: Job, s: Progress, n: nat, m: nat)
    requires job.nodes > 0 && n <= m && Halted(job, Run(job, s, n))
    ensures Run(job, s, m) == Run(job, s, n)
    decreases n
  {
    if n != 0 && !Halted(job, s) {
      RunHalted(job, Step(job, s), n - 1, m - 1);
    }
  }

  lemma {:induction false} RunRun(job: Job, s: Progress, n: nat, m: nat)
    requires job.nodes > 0
    ensures Run(job, Run(job, s, n), m) == Run(job, s, n + m)
    decreases n
  {
    if Halted(job, s) {
    } else if n != 0 {
      RunRun(job, Step(job, s), n - 1, m);
    }
  }

  /** The node that attempt `t` goes to. */
  function NodeOf(t: nat, n: nat): (j: nat)
    requires n > 0
    ensures j < n
  {
    t % n
  }

  lemma NextNode(t: nat, n: nat)
    requires n > 0
    ensures NodeOf(t + 1, n) == NextIndex(NodeOf(t, n), n)
  {
    NextInTurn(t, n);
  }

  /** The shards recorded for a block: shard i is where attempt placed[i] went. */
  function Listed(placed: seq<nat>, shards: seq<Bytes>, nodes: seq<string>, digest: Bytes -> string): (r: seq<Shard>)
    requires nodes != [] && |placed| <= |shards|
    ensures |r| == |placed|
    ensures forall i :: 0 <= i < |r| ==> r[i] == (nodes[NodeOf(placed[i], |nodes|)], digest(shards[i]))
  {
    seq(|placed|, i requires 0 <= i < |placed| => (nodes[NodeOf(placed[i], |nodes|)], digest(shards[i])))
  }

  lemma ListedSnoc(placed: seq<nat>, t: nat, shards: seq<Bytes>, nodes: seq<string>, digest: Bytes -> string)
    requires nodes != [] && |placed| < |shards|
    ensures Listed(placed + [t], shards, nodes, digest) ==
      Listed(placed, shards, nodes, digest) + [(nodes[NodeOf(t, |nodes|)], digest(shards[|placed|]))]
  {
  }

  // What every run of the loop keeps.

  /** The attempts made are told apart exactly: the successful ones are those that placed shards 0, 1, .... */
  ghost predicate Faithful(job: Job, from: nat, s: Progress) {
    && from <= s.attempts
    && (forall i :: 0 <= i < |s.placed| ==> from <= s.placed[i] < s.attempts && job.up(s.placed[i]))
    && (forall i, j :: 0 <= i < j < |s.placed| ==> s.placed[i] < s.placed[j])
    && (forall t :: from <= t < s.attempts && job.up(t) ==> t in s.placed)
  }

  ghost predicate NodeInTurn(job: Job, s: Progress)
    requires job.nodes > 0
  {
    s.node == NodeOf(s.attempts, job.nodes)
  }

  lemma StepKeeps(job: Job, from: nat, s: Progress)
    requires job.nodes > 0 && !Halted(job, s) && Faithful(job, from, s) && NodeInTurn(job, s)
    ensures Faithful(job, from, Step(job, s)) && NodeInTurn(job, Step(job, s))
    ensures |s.placed| <= |Step(job, s).placed| <= job.shards && Step(job, s).attempts == s.attempts + 1
    ensures Step(job, s).succ - |Step(job, s).placed| == s.succ - |s.placed|
  {
    hide NextIndex, NodeOf, StorageType.Check;
    NextNode(s.attempts, job.nodes);
    var s' := Step(job, s);
    forall t | from <= t < s'.attempts && job.up(t) ensures t in s'.placed {
      if t == s.attempts {
        assert s'.placed[|s.placed|] == t;
      }
    }
  }

  /** After any history of successes and failures, shards 0, 1, ... are stored in order, nodes in turn. */
  lemma {:induction false} RunKeeps(job: Job, from: nat, s: Progress, n: nat)
    requires job.nodes > 0 && Faithful(job, from, s) && NodeInTurn(job, s) && |s.placed| <= job.shards
    ensures var s' := Run(job, s, n);
      && Faithful(job, from, s') && NodeInTurn(job, s') && |s.placed| <= |s'.placed| <= job.shards
      && s'.succ - |s'.placed| == s.succ - |s.placed|
      && s.attempts <= s'.attempts <= s.attempts + n
    decreases n
  {
    hide Faithful, NodeInTurn, Step;
    if n != 0 && !Halted(job, s) {
      StepKeeps(job, from, s);
      RunKeeps(job, from, Step(job, s), n - 1);
    }
  }

  // No node is asked to hold more than its share.

  /** How many of the attempts in `ts` went to node `j`. */
  function OnNode(ts: seq<nat>, n: nat, j: nat): (c: nat)
    requires n > 0
  {
    if ts == [] then 0
    else OnNode(ts[..|ts| - 1], n, j) + (if NodeOf(ts[|ts| - 1], n) == j then 1 else 0)
  }

  /** The last attempt on a node lies a whole round after each earlier one. */
  lemma {:induction false} LastOnNode(ts: seq<nat>, n: nat, j: nat, from: nat) returns (t: nat)
    requires n > 0 && forall i :: 0 <= i < |ts| ==> from <= ts[i]
    requires forall i, k :: 0 <= i < k < |ts| ==> ts[i] < ts[k]
    requires OnNode(ts, n, j) > 0
    ensures t in ts && NodeOf(t, n) == j && from + n * (OnNode(ts, n, j) - 1) <= t
  {
    var k := |ts| - 1;
    var c := OnNode(ts[..k], n, j);
    if NodeOf(ts[k], n) != j {
      t := LastOnNode(ts[..k], n, j, from);
    } else {
      t := ts[k];
      if c > 0 {
        var prev := LastOnNode(ts[..k], n, j, from);
        SameTurnApart(prev, t, n);
        MulNext(n, c - 1);
      }
    }
  }

  /** With T attempts made, at most ceil(T / n) shards are on any one node. */
  lemma FairShare(job: Job, from: nat, s: Progress, j: nat)
    requires job.nodes > 0 && Faithful(job, from, s)
    ensures OnNode(s.placed, job.nodes, j) <= (s.attempts - from + job.nodes - 1) / job.nodes
  {
    var c := OnNode(s.placed, job.nodes, j);
    if c > 0 {
      var t := LastOnNode(s.placed, job.nodes, j, from);
    }
    RoundsFit(c, s.attempts - from, job.nodes);
  }

  // When the loop ends.

  /** A failed attempt while too few shards are stored. */
  lemma FailedStep(job: Job, s: Progress)
    requires s.node < job.nodes && !s.gaveUp && !job.st.Check(s.succ) && !job.up(s.attempts)
    ensures var wrap := s.node + 1 == job.nodes;
      Step(job, s) == s.(node := if wrap then 0 else s.node + 1, attempts := s.attempts + 1,
                         fails := if wrap && s.fails + 1 != job.nodes then 0 else s.fails + 1,
                         gaveUp := wrap && s.fails + 1 == job.nodes)
  {
    WrapAround(s.node, job.nodes);
  }

  /** `n` failed attempts within one pass. */
  lemma {:induction false} AllFail(job: Job, s: Progress, n: nat)
    requires s.node < job.nodes && !s.gaveUp && |s.placed| < job.shards && s.node + n <= job.nodes
    requires !job.st.Check(s.succ) && forall t :: s.attempts <= t < s.attempts + n ==> !job.up(t)
    ensures var s', wrap := Run(job, s, n), s.node + n == job.nodes;
      if n > 0 && wrap && s.fails + n == job.nodes then s'.gaveUp
      else s' == s.(node := if wrap then 0 else s.node + n, fails := if wrap then 0 else s.fails + n,
                    attempts := s.attempts + n)
    decreases n
  {
    if n != 0 {
      FailedStep(job, s);
      hide Step;
      if n == 1 {
        assert Run(job, s, 1) == Run(job, Step(job, s), 0) == Step(job, s);
      } else {
        AllFail(job, Step(job, s), n - 1);
      }
    }
  }

  /** From the start of a pass, a whole pass stores a shard or ends the loop while too few are stored. */
  lemma PassProgress(job: Job, s: Progress)
    requires job.nodes > 0 && !Halted(job, s) && s.node == 0 && s.fails == 0 && !job.st.Check(s.succ)
    ensures var s' := Run(job, s, job.nodes);
      Halted(job, s') || |s'.placed| > |s.placed|
  {
    if t :| s.attempts <= t < s.attempts + job.nodes && job.up(t) {
      ReachSuccess(job, s, t, job.nodes);
    } else {
      AllFail(job, s, job.nodes);
    }
  }

  /** While too few shards are stored, a pass starts with no failures counted. */
  lemma {:induction false} PassStarts(job: Job, s: Progress, n: nat)
    requires job.nodes > 0 && (s.node == 0 && !s.gaveUp && !job.st.Check(s.succ) ==> s.fails == 0)
    ensures var s' := Run(job, s, n); s'.node == 0 && !s'.gaveUp && !job.st.Check(s'.succ) ==> s'.fails == 0
    decreases n
  {
    if n != 0 && !Halted(job, s) {
      PassStarts(job, Step(job, s), n - 1);
    }
  }

  /** In encode_one_block every full pass over the nodes stores a shard or ends the loop, until the check holds. */
  lemma EveryPass(job: Job, n: nat)
    requires job.nodes > 0
    ensures var s := Run(job, START, n);
      s.node == 0 && !Halted(job, s) && !job.st.Check(s.succ) ==>
        Halted(job, Run(job, s, job.nodes)) || |Run(job, s, job.nodes).placed| > |s.placed|
  {
    PassStarts(job, START, n);
    var s := Run(job, START, n);
    if s.node == 0 && !Halted(job, s) && !job.st.Check(s.succ) {
      PassProgress(job, s);
    }
  }

  lemma {:induction false} PlacedGrows(job: Job, s: Progress, n: nat)
    requires job.nodes > 0
    ensures |s.placed| <= |Run(job, s, n).placed|
    decreases n
  {
    if n != 0 && !Halted(job, s) {
      PlacedGrows(job, Step(job, s), n - 1);
    }
  }

  lemma {:induction false} ReachSuccess(job: Job, s: Progress, t: nat, n: nat)
    requires job.nodes > 0 && s.attempts <= t < s.attempts + n && job.up(t)
    ensures var s' := Run(job, s, n); Halted(job, s') || |s'.placed| > |s.placed|
    decreases n
  {
    if !Halted(job, s) {
      if job.up(s.attempts) {
        PlacedGrows(job, Step(job, s), n - 1);
      } else {
        ReachSuccess(job, Step(job, s), t, n - 1);
      }
    }
  }

  /** Enough shards are stored for the check, yet some are missing and no attempt will ever succeed again. */
  ghost predicate Stuck(job: Job, s: Progress) {
    !Halted(job, s) && job.st.Check(s.succ) && forall t :: s.attempts <= t ==> !job.up(t)
  }

  lemma {:induction false} StuckForever(job: Job, s: Progress, n: nat)
    requires job.nodes > 0 && Stuck(job, s)
    ensures Stuck(job, Run(job, s, n))
    decreases n
  {
    if n != 0 {
      StuckForever(job, Step(job, s), n - 1);
    }
  }

  lemma {:induction false} EndsUnlessStuck(job: Job, s: Progress) returns (n: nat)
    requires job.nodes > 0 && s.node < job.nodes
    ensures Halted(job, Run(job, s, n)) || Stuck(job, Run(job, s, n))
    decreases job.shards - |s.placed|
  {
    n := 0;
    if !Halted(job, s) {
      if t :| s.attempts <= t && job.up(t) {
        n := t - s.attempts + 1;
        ReachSuccess(job, s, t, n);
        var s' := Run(job, s, n);
        if !Halted(job, s') {
          NodeBelow(job, s, n);
          var m := EndsUnlessStuck(job, s');
          RunRun(job, s, n, m);
          n := n + m;
        }
      } else if !job.st.Check(s.succ) {
        n := TwoPasses(job, s);
      }
    }
  }

  lemma {:induction false} NodeBelow(job: Job, s: Progress, n: nat)
    requires job.nodes > 0 && s.node < job.nodes
    ensures Run(job, s, n).node < job.nodes
    decreases n
  {
    if n != 0 && !Halted(job, s) {
      NodeBelow(job, Step(job, s), n - 1);
    }
  }

  /** When nothing succeeds any more and too few shards are stored, the second pass gives up at the latest. */
  lemma TwoPasses(job: Job, s: Progress) returns (n: nat)
    requires job.nodes > 0 && s.node < job.nodes && !Halted(job, s) && !job.st.Check(s.succ)
    requires forall t :: s.attempts <= t ==> !job.up(t)
    ensures Halted(job, Run(job, s, n))
  {
    n := job.nodes - s.node;
    AllFail(job, s, n);
    var s' := Run(job, s, n);
    if !s'.gaveUp {
      AllFail(job, s', job.nodes);
      RunRun(job, s, n, job.nodes);
      n := n + job.nodes;
    }
  }

  /** The placement loop ends for an outcome history exactly when that history never leaves it stuck. */
  lemma EndsExactly(job: Job, s: Progress)
    requires job.nodes > 0 && s.node < job.nodes
    ensures (exists n: nat :: Halted(job, Run(job, s, n))) <==> !(exists n: nat :: Stuck(job, Run(job, s, n)))
  {
    var m := EndsUnlessStuck(job, s);
    if n: nat :| Stuck(job, Run(job, s, n)) {
      forall k: nat ensures !Halted(job, Run(job, s, k)) {
        if n <= k {
          StuckForever(job, Run(job, s, n), k - n);
          RunRun(job, s, n, k - n);
        } else if Halted(job, Run(job, s, k)) {
          RunHalted(job, s, k, n);
        }
      }
    }
  }

  // The loop itself.

  lemma RunStep(job: Job, s: Progress, n: nat)
    requires job.nodes > 0 && !Halted(job, s) && Halted(job, Run(job, s, n))
    ensures n > 0 && Run(job, s, n) == Run(job, Step(job, s), n - 1)
  {
  }

  lemma RunEnds(job: Job, s: Progress, n: nat)
    requires job.nodes > 0 && Halted(job, s)
    ensures Run(job, s, n) == s
  {
  }

  /** One iteration, by the values that the loop's variables take. */
  lemma StepIs(job: Job, s: Progress, succ: nat, fails: nat, placed: seq<nat>, after: Progress)
    requires job.nodes > 0
    requires if job.up(s.attempts) then succ == s.succ + 1 && fails == s.fails && placed == s.placed + [s.attempts]
      else succ == s.succ && fails == s.fails + 1 && placed == s.placed
    requires after.node == NextIndex(s.node, job.nodes) && after.attempts == s.attempts + 1
    requires after.succ == succ && after.placed == placed
    requires if after.node == 0 && !job.st.Check(succ) then
        if fails == job.nodes then after.gaveUp && after.fails == fails else !after.gaveUp && after.fails == 0
      else !after.gaveUp && after.fails == fails
    ensures Step(job, s) == after
  {
  }

  /**
   The loop of encode_one_block, and of datanode_put for one block: the latter enters it with the
   counters of the block before. `n` is any number of iterations that ends it.
   */
  method PlaceShards(st: StorageType, shards: seq<Bytes>, nodes: seq<string>, digest: Bytes -> string,
                     up: nat -> bool, start: Progress, ghost n: nat)
    returns (nodesHashs: seq<Shard>, end: Progress)
    requires nodes != [] && start.placed == [] && !start.gaveUp && start.node == NodeOf(start.attempts, |nodes|)
    requires Halted(Job(st, |shards|, |nodes|, up), Run(Job(st, |shards|, |nodes|, up), start, n))
    ensures end == Run(Job(st, |shards|, |nodes|, up), start, n) && |end.placed| <= |shards|
    ensures nodesHashs == Listed(end.placed, shards, nodes, digest)
  {
    hide Run, Step, Listed, NodeOf, NextIndex, StorageType.Check;
    ghost var job := Job(st, |shards|, |nodes|, up);
    ghost var goal := Run(job, start, n);
    var nodeIndex: nat, succ: nat, failCount: nat, attempts: nat := start.node, start.succ, start.fails, start.attempts;
    var placed: seq<nat> := [];
    nodesHashs := [];
    var i := 0;
    var gaveUp := false;
    ghost var left: nat := n;
    while i < |shards| && !gaveUp
      invariant Run(job, Progress(nodeIndex, succ, failCount, attempts, placed, gaveUp), left) == goal
      invariant i == |placed| <= |shards| && nodeIndex == NodeOf(attempts, |nodes|)
      invariant nodesHashs == Listed(placed, shards, nodes, digest)
      decreases left
    {
      ghost var s := Progress(nodeIndex, succ, failCount, attempts, placed, gaveUp);
      RunStep(job, s, left);
      NextNode(attempts, |nodes|);
      if up(attempts) {
        nodesHashs := nodesHashs + [(nodes[nodeIndex], digest(shards[i]))];
        ListedSnoc(placed, attempts, shards, nodes, digest);
        placed := placed + [attempts];
        succ := succ + 1;
        i := i + 1;
      } else {
        failCount := failCount + 1;
      }
      nodeIndex := NextIndex(nodeIndex, |nodes|);
      attempts := attempts + 1;
      ghost var fails := failCount;
      if nodeIndex == 0 && !st.Check(succ) {
        if failCount == |nodes| {
          gaveUp := true;
        } else {
          failCount := 0;
        }
      }
      StepIs(job, s, succ, fails, placed, Progress(nodeIndex, succ, failCount, attempts, placed, gaveUp));
      left := left - 1;
    }
    RunEnds(job, Progress(nodeIndex, succ, failCount, attempts, placed, gaveUp), left);
    end := Progress(nodeIndex, succ, failCount, attempts, placed, gaveUp);
  }

  /** The loop gives up only when too few shards are stored; otherwise it stores every one. */
  lemma {:induction false} GivesUpShort(job: Job, s: Progress, n: nat)
    requires job.nodes > 0 && (s.gaveUp ==> !job.st.Check(s.succ)) && |s.placed| <= job.shards
    ensures var s' := Run(job, s, n);
      && (s'.gaveUp ==> !job.st.Check(s'.succ)) && |s'.placed| <= job.shards
      && (Halted(job, s') && !s'.gaveUp ==> |s'.placed| == job.shards)
    decreases n
  {
    if n != 0 && !Halted(job, s) {
      GivesUpShort(job, Step(job, s), n - 1);
    }
  }

  /** Once enough shards are stored for the check, the loop never gives up, however many attempts fail. */
  lemma {:induction false} NeverGivesUp(job: Job, s: Progress, n: nat)
    requires job.nodes > 0 && !s.gaveUp && job.st.Check(s.succ)
    ensures !Run(job, s, n).gaveUp && job.st.Check(Run(job, s, n).succ)
    decreases n
  {
    if n != 0 && !Halted(job, s) {
      NeverGivesUp(job, Step(job, s), n - 1);
    }
  }

  /** Counters that the next block of a file starts with: only the inner loop was left. */
  function NextBlock(s: Progress): (s': Progress) {
    s.(placed := [], gaveUp := false)
  }
}
