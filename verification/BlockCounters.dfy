/**
 The counters of datanode_put over the blocks of a file: they are declared once, before the block loop,
 so what one block stored and failed at decides when a later block gives up.
 */
module BlockCounters {
  import opened Division
  import opened StorageTypes
  import opened Placement
  import opened WholeFile

  /** How many of the `n` attempts from `from` on succeed. */
  function Successes(up: nat -> bool, from: nat, n: nat): (c: nat)
    ensures c <= n
  {
    if n == 0 then 0 else Successes(up, from, n - 1) + (if up(from + n - 1) then 1 else 0)
  }

  lemma {:induction false} SuccessesFrom(up: nat -> bool, from: nat, n: nat)
    requires n > 0
    ensures Successes(up, from, n) == (if up(from) then 1 else 0) + Successes(up, from + 1, n - 1)
  {
    if n > 1 {
      SuccessesFrom(up, from, n - 1);
    } else {
      assert Successes(up, from, 0) == 0;
    }
  }

  // One pass over the nodes.

  /** An attempt before the last node of a pass. */
  lemma InnerStep(job: Job, s: Progress)
    requires s.node + 1 < job.nodes && !s.gaveUp
    ensures Step(job, s) == if job.up(s.attempts)
      then s.(node := s.node + 1, attempts := s.attempts + 1, succ := s.succ + 1, placed := s.placed + [s.attempts])
      else s.(node := s.node + 1, attempts := s.attempts + 1, fails := s.fails + 1)
  {
    WrapAround(s.node, job.nodes);
  }

  /** Up to the last node of a pass the loop only counts. */
  lemma {:induction false} Counting(job: Job, s: Progress, n: nat)
    requires s.node + n < job.nodes && !s.gaveUp
    requires n == 0 || |s.placed| + Successes(job.up, s.attempts, n - 1) < job.shards
    ensures var s', c := Run(job, s, n), Successes(job.up, s.attempts, n);
      && s'.node == s.node + n && s'.attempts == s.attempts + n && !s'.gaveUp
      && s'.succ == s.succ + c && s'.fails == s.fails + (n - c) && |s'.placed| == |s.placed| + c
    decreases n
  {
    if n > 0 {
      if n > 1 {
        SuccessesFrom(job.up, s.attempts, n - 1);
      }
      SuccessesFrom(job.up, s.attempts, n);
      assert !Halted(job, s);
      InnerStep(job, s);
      Counting(job, Step(job, s), n - 1);
    }
  }

  /** At the last node of a pass the give-up test is made, unless the check holds. */
  lemma LastStep(job: Job, s: Progress)
    requires s.node + 1 == job.nodes && !s.gaveUp
    ensures var s', ok := Step(job, s), job.up(s.attempts);
      var succ, fails := if ok then s.succ + 1 else s.succ, if ok then s.fails else s.fails + 1;
      && s'.node == 0 && s'.attempts == s.attempts + 1 && s'.succ == succ
      && (s'.gaveUp <==> !job.st.Check(succ) && fails == job.nodes)
      && s'.fails == (if !job.st.Check(succ) && fails != job.nodes then 0 else fails)
  {
    WrapAround(s.node, job.nodes);
  }

  /**
   The rest of a pass, from any node and with any counters: the loop gives up at its end exactly when the
   check does not hold then and the failures counted before and in it are as many as there are nodes.
   */
  lemma PassEnds(job: Job, s: Progress)
    requires s.node < job.nodes && !s.gaveUp
    requires |s.placed| + Successes(job.up, s.attempts, job.nodes - s.node - 1) < job.shards
    ensures var m := job.nodes - s.node;
      var s', c := Run(job, s, m), Successes(job.up, s.attempts, m);
      && s'.node == 0 && s'.attempts == s.attempts + m && s'.succ == s.succ + c
      && (s'.gaveUp <==> !job.st.Check(s.succ + c) && s.fails + (m - c) == job.nodes)
      && s'.fails == if !job.st.Check(s.succ + c) && !s'.gaveUp then 0 else s.fails + (m - c)
  {
    var n := job.nodes - s.node - 1;
    if n > 0 {
      assert Successes(job.up, s.attempts, n - 1) <= Successes(job.up, s.attempts, n);
    }
    Counting(job, s, n);
    var last := Run(job, s, n);
    LastStep(job, last);
    RunRun(job, s, n, 1);
    assert Run(job, last, 1) == Run(job, Step(job, last), 0);
  }

  // Block after block.

  function Total(ends: seq<Progress>): (n: nat) {
    if ends == [] then 0 else Total(ends[..|ends| - 1]) + |ends[|ends| - 1].placed|
  }

  /** The number of shards stored for the blocks up to the last one is what the success counter says. */
  lemma {:induction false} SuccIsTotal(job: Job, blocks: nat, steps: seq<nat>)
    requires job.nodes > 0 && 0 < blocks <= |steps|
    ensures var ends := BlockEnds(job, blocks, steps); ends[blocks - 1].succ == Total(ends)
  {
    var ends, before := BlockEnds(job, blocks, steps), BlockEnds(job, blocks - 1, steps);
    assert ends[..blocks - 1] == before;
    var s := BlockStart(before);
    BlocksInTurn(job, blocks - 1, steps);
    RunKeeps(job, s.attempts, s, steps[blocks - 1]);
    if blocks > 1 {
      SuccIsTotal(job, blocks - 1, steps);
    } else {
      assert before == [] && Total(before) == 0;
    }
    hide Run;
  }

  /** The same for every block of the file. */
  lemma SuccAt(job: Job, blocks: nat, steps: seq<nat>, i: nat)
    requires job.nodes > 0 && i < blocks <= |steps|
    ensures var ends := BlockEnds(job, blocks, steps); ends[i].succ == Total(ends[..i + 1])
  {
    hide BlockEnds, Total;
    EndsPrefix(job, blocks, steps, i + 1);
    SuccIsTotal(job, i + 1, steps);
    assert BlockEnds(job, blocks, steps)[..i + 1][i] == BlockEnds(job, blocks, steps)[i];
  }

  /** A later block starts with the node, the successes, the failures and the attempts of the block before. */
  lemma CarriedOver(job: Job, blocks: nat, steps: seq<nat>, i: nat)
    requires job.nodes > 0 && 0 < i < blocks <= |steps|
    ensures var ends := BlockEnds(job, blocks, steps);
      var prev := ends[i - 1];
      ends[i] == Run(job, Progress(prev.node, prev.succ, prev.fails, prev.attempts, [], false), steps[i])
  {
    EndsPrefix(job, blocks, steps, i);
    EndsPrefix(job, blocks, steps, i + 1);
    var ends := BlockEnds(job, blocks, steps);
    assert ends[..i][i - 1] == ends[i - 1] && ends[..i + 1][i] == ends[i];
    hide Run;
  }

  /**
   Once the shards stored so far satisfy the check, counted over all blocks, no later block gives up, and
   each one that ends has all its shards stored.
   */
  lemma {:induction false} LaterBlocksComplete(job: Job, blocks: nat, steps: seq<nat>, i: nat, k: nat)
    requires job.nodes > 0 && i < k < blocks <= |steps|
    requires job.st.Check(Total(BlockEnds(job, blocks, steps)[..i + 1]))
    ensures var end := BlockEnds(job, blocks, steps)[k];
      && !end.gaveUp && |end.placed| <= job.shards
      && (Halted(job, end) ==> |end.placed| == job.shards)
      && job.st.Check(Total(BlockEnds(job, blocks, steps)[..k + 1]))
    decreases k
  {
    hide Run, BlockEnds, Total, StorageType.Check;
    var ends := BlockEnds(job, blocks, steps);
    if k - 1 > i {
      LaterBlocksComplete(job, blocks, steps, i, k - 1);
    }
    SuccAt(job, blocks, steps, k - 1);
    SuccAt(job, blocks, steps, k);
    CarriedOver(job, blocks, steps, k);
    var prev := ends[k - 1];
    var start := Progress(prev.node, prev.succ, prev.fails, prev.attempts, [], false);
    NeverGivesUp(job, start, steps[k]);
    GivesUpShort(job, start, steps[k]);
  }

  lemma GivingUp(job: Job, s: Progress)
    requires s.node < job.nodes && Step(job, s).gaveUp
    ensures Step(job, s).node == 0 && Step(job, s).fails == job.nodes
  {
  }

  /** A block that gave up leaves as many failures counted as there are nodes, and the first node next. */
  lemma {:induction false} GaveUpAt(job: Job, s: Progress, n: nat)
    requires s.node < job.nodes && (s.gaveUp ==> s.node == 0 && s.fails == job.nodes)
    ensures var s' := Run(job, s, n); s'.gaveUp ==> s'.node == 0 && s'.fails == job.nodes
    decreases n
  {
    if n != 0 && !Halted(job, s) {
      if Step(job, s).gaveUp {
        GivingUp(job, s);
      }
      hide Step;
      GaveUpAt(job, Step(job, s), n - 1);
    }
  }

  /**
   What the failures of a block that gave up do to the next one: while the check does not hold, it gives up
   at the end of its first pass exactly when no attempt of that pass failed.
   */
  lemma AfterGivingUp(job: Job, blocks: nat, steps: seq<nat>, i: nat)
    requires job.nodes > 0 && 0 < i < blocks <= |steps| && BlockEnds(job, blocks, steps)[i - 1].gaveUp
    requires var before := BlockEnds(job, blocks, steps)[i - 1];
      Successes(job.up, before.attempts, job.nodes - 1) < job.shards
    ensures var before := BlockEnds(job, blocks, steps)[i - 1];
      var start := Progress(before.node, before.succ, before.fails, before.attempts, [], false);
      var c := Successes(job.up, before.attempts, job.nodes);
      Run(job, start, job.nodes).gaveUp <==> !job.st.Check(before.succ + c) && c == job.nodes
  {
    hide Run, BlockEnds, Successes, StorageType.Check, BlockStart;
    var before := BlockEnds(job, blocks, steps)[i - 1];
    EndsStep(job, blocks, steps, i - 1);
    BlocksInTurn(job, i - 1, steps);
    var start := BlockStart(BlockEnds(job, i - 1, steps));
    assert start.node < job.nodes;
    GaveUpAt(job, start, steps[i - 1]);
    PassEnds(job, Progress(before.node, before.succ, before.fails, before.attempts, [], false));
  }
}
