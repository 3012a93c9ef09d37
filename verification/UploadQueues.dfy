/**
 The upload daemon's two queues. Small files wait to be packed into batches, big files are uploaded one
 by one, and fsync moves a waiting small file to the big queue. The daemon's threads interleave at the
 queue operations, each of which runs under the queue's lock.
 */
module UploadQueues {
  import opened Options

  /** An accepted upload; `id` is its place in the order of acceptance. */
  datatype Task = Task(id: nat, localPath: string, remotePath: string, size: nat)

  function Total(tasks: seq<Task>): (n: nat) {
    if tasks == [] then 0 else Total(tasks[..|tasks| - 1]) + tasks[|tasks| - 1].size
  }

  lemma {:induction false} TotalGrows(tasks: seq<Task>, n: nat)
    requires n <= |tasks|
    ensures Total(tasks[..n]) <= Total(tasks)
    decreases |tasks|
  {
    if n < |tasks| {
      TotalGrows(tasks[..|tasks| - 1], n);
      assert tasks[..|tasks| - 1][..n] == tasks[..n];
    } else {
      assert tasks[..n] == tasks;
    }
  }

  lemma TotalTakesMore(tasks: seq<Task>, n: nat, m: nat)
    requires n < m <= |tasks|
    ensures Total(tasks[..m]) >= Total(tasks[..n]) + tasks[n].size
  {
    TotalGrows(tasks[..m], n + 1);
    assert tasks[..m][..n + 1] == tasks[..n + 1] && tasks[..n + 1][..n] == tasks[..n];
  }

  /** `n` is the length of the batch that get_until_size takes: nothing more fits strictly below the bound. */
  ghost predicate IsBatch(que: seq<Task>, bound: nat, n: nat) {
    && n <= |que| && (n > 0 ==> Total(que[..n]) < bound)
    && (n < |que| ==> Total(que[..n]) + que[n].size >= bound)
  }

  /** The batch is the longest prefix whose total is strictly below the bound. */
  lemma BatchIsLongest(que: seq<Task>, bound: nat, n: nat, m: nat)
    requires IsBatch(que, bound, n) && m <= |que| && Total(que[..m]) < bound
    ensures m <= n
  {
    if n < m {
      TotalTakesMore(que, n, m);
    }
  }

  /** A batch is empty exactly when nothing waits or the first task alone reaches the bound. */
  lemma EmptyBatch(que: seq<Task>, bound: nat, n: nat)
    requires IsBatch(que, bound, n)
    ensures n == 0 <==> que == [] || que[0].size >= bound
  {
    if que != [] {
      assert que[..1] == [que[0]] && [que[0]][..0] == [] && que[..0] == [];
      assert Total([que[0]]) == que[0].size;
      if n > 0 {
        TotalGrows(que[..n], 1);
        assert que[..n][..1] == que[..1];
      }
    }
  }

  /** Every queue of small files yields a non-empty batch exactly when small means below the bound. */
  lemma BatchesNeverStall(boundary: nat, bound: nat)
    ensures boundary < bound <==>
      forall que: seq<Task>, n: nat ::
        que != [] && (forall t :: t in que ==> t.size <= boundary) && IsBatch(que, bound, n) ==> n > 0
  {
    forall que: seq<Task>, n: nat | que != [] && (forall t :: t in que ==> t.size <= boundary) && IsBatch(que, bound, n)
      ensures boundary < bound ==> n > 0
    {
      EmptyBatch(que, bound, n);
      assert que[0] in que;
    }
    if bound <= boundary {
      var que := [Task(0, "", "", boundary)];
      assert que[..0] == [];
      assert IsBatch(que, bound, 0);
      assert forall t :: t in que ==> t.size <= boundary;
    }
  }

  class UploadQueue {
    const capacity: nat
    var que: seq<Task>
    /** The task last pushed under each remote path; popping leaves it. */
    var byPath: map<string, Task>

    constructor (limit: nat)
      ensures que == [] && byPath == map[] && capacity == limit
    {
      capacity, que, byPath := limit, [], map[];
    }

    method PushBack(task: Task) returns (ok: bool)
      modifies this
      ensures ok <==> old(|que|) < capacity
      ensures que == if ok then old(que) + [task] else old(que)
      ensures byPath == if ok then old(byPath)[task.remotePath := task] else old(byPath)
    {
      if |que| >= capacity {
        return false;
      }
      que := que + [task];
      byPath := byPath[task.remotePath := task];
      ok := true;
    }

    method PopFront() returns (r: Option<Task>)
      modifies this`que
      ensures r.None? <==> old(que) == []
      ensures r.None? ==> que == []
      ensures r.Some? ==> old(que) == [r.value] + que
    {
      if que == [] {
        return None;
      }
      r := Some(que[0]);
      que := que[1..];
    }

    /** get_until_size. */
    method GetUntilSize(bound: nat) returns (batch: seq<Task>)
      modifies this`que
      ensures old(que) == batch + que && IsBatch(old(que), bound, |batch|)
    {
      batch := [];
      var sum := 0;
      while que != [] && sum + que[0].size < bound
        invariant old(que) == batch + que && sum == Total(batch) && (batch != [] ==> sum < bound)
        decreases |que|
      {
        sum := sum + que[0].size;
        assert (batch + [que[0]])[..|batch|] == batch;
        batch := batch + [que[0]];
        que := que[1..];
      }
      assert old(que)[..|batch|] == batch;
    }

    method AllSize() returns (allsize: nat)
      ensures allsize == Total(que)
    {
      allsize := 0;
      for i := 0 to |que|
        invariant allsize == Total(que[..i])
      {
        assert que[..i + 1][..i] == que[..i];
        allsize := allsize + que[i].size;
      }
      assert que[..|que|] == que;
    }

    /** exist_in_que: takes the first task with these paths out of the queue. */
    method ExistInQue(localPath: string, remotePath: string) returns (r: Option<Task>)
      modifies this`que
      ensures r.None? ==> que == old(que) && NoneMatches(que, localPath, remotePath)
      ensures r.Some? ==> TakenOut(old(que), que, r.value, localPath, remotePath)
    {
      var i := 0;
      while i < |que| && !Matches(que[i], localPath, remotePath)
        invariant i <= |que| && NoneMatches(que[..i], localPath, remotePath)
      {
        i := i + 1;
      }
      if i == |que| {
        assert que[..i] == que;
        return None;
      }
      r := Some(que[i]);
      ghost var was := que;
      que := que[..i] + que[i + 1..];
      assert TakenAt(was, que, r.value, i);
    }
  }

  predicate Matches(t: Task, localPath: string, remotePath: string) {
    t.localPath == localPath && t.remotePath == remotePath
  }

  ghost predicate NoneMatches(que: seq<Task>, localPath: string, remotePath: string) {
    forall i :: 0 <= i < |que| ==> !Matches(que[i], localPath, remotePath)
  }

  ghost predicate TakenAt(was: seq<Task>, now: seq<Task>, t: Task, i: nat) {
    i < |was| && was[i] == t && now == was[..i] + was[i + 1..]
  }

  /** `now` is `was` without its first task that has these paths. */
  ghost predicate TakenOut(was: seq<Task>, now: seq<Task>, t: Task, localPath: string, remotePath: string) {
    Matches(t, localPath, remotePath) &&
    exists i: nat :: TakenAt(was, now, t, i) && NoneMatches(was[..i], localPath, remotePath)
  }

  // The daemon as a whole.

  /** Where every accepted task is: waiting, on its way from queue to queue, or handed to the uploader. */
  datatype State = State(
    accepted: seq<Task>,
    small: seq<Task>,
    big: seq<Task>,
    transit: multiset<Task>,
    sentBatches: seq<seq<Task>>,
    sentBig: seq<Task>)

  const EMPTY := State([], [], [], multiset{}, [], [])

  datatype Config = Config(boundary: nat, bound: nat)

  /** The atomic steps of the daemon's threads. */
  datatype Event =
    | Upload(localPath: string, remotePath: string, size: nat)
    | FsyncTake(localPath: string, remotePath: string, task: Task)
    | FsyncPush(task: Task)
    | PopBig
    | TakeBatch(n: nat)
    | Idle

  ghost predicate Next(c: Config, s: State, e: Event, s': State) {
    match e
    case Upload(l, r, size) =>
      var t := Task(|s.accepted|, l, r, size);
      var a := s.(accepted := s.accepted + [t]);
      s' == if size <= c.boundary then a.(small := s.small + [t]) else a.(big := s.big + [t])
    case FsyncTake(l, r, t) =>
      TakenOut(s.small, s'.small, t, l, r) && s' == s.(small := s'.small, transit := s.transit + multiset{t})
    case FsyncPush(t) =>
      t in s.transit && s' == s.(transit := s.transit - multiset{t}, big := s.big + [t])
    case PopBig =>
      s.big != [] && s' == s.(big := s.big[1..], sentBig := s.sentBig + [s.big[0]])
    case TakeBatch(n) =>
      IsBatch(s.small, c.bound, n) &&
      s' == s.(small := s.small[n..], sentBatches := s.sentBatches + [s.small[..n]])
    case Idle => s' == s
  }

  function Flatten(batches: seq<seq<Task>>): (r: seq<Task>) {
    if batches == [] then [] else Flatten(batches[..|batches| - 1]) + batches[|batches| - 1]
  }

  /** All the places a task can be. */
  function Everywhere(s: State): (m: multiset<Task>) {
    multiset(s.small) + multiset(s.big) + s.transit + multiset(Flatten(s.sentBatches)) + multiset(s.sentBig)
  }

  ghost predicate IdsInOrder(tasks: seq<Task>) {
    forall i, j :: 0 <= i < j < |tasks| ==> tasks[i].id < tasks[j].id
  }

  ghost predicate Conserved(s: State) {
    && multiset(s.accepted) == Everywhere(s)
    && forall i :: 0 <= i < |s.accepted| ==> s.accepted[i].id == i
  }

  /** Small files leave in the order in which they were accepted. */
  ghost predicate Fifo(s: State) {
    && IdsInOrder(Flatten(s.sentBatches) + s.small)
    && forall t :: t in Flatten(s.sentBatches) + s.small ==> t.id < |s.accepted|
  }

  ghost predicate BatchesBounded(c: Config, s: State) {
    && (forall t :: t in s.small ==> t.size <= c.boundary)
    && forall i :: 0 <= i < |s.sentBatches| ==> s.sentBatches[i] == [] || Total(s.sentBatches[i]) < c.bound
  }

  ghost predicate Inv(c: Config, s: State) {
    Conserved(s) && Fifo(s) && BatchesBounded(c, s)
  }

  lemma FlattenSnoc(batches: seq<seq<Task>>, batch: seq<Task>)
    ensures Flatten(batches + [batch]) == Flatten(batches) + batch
  {
    assert (batches + [batch])[..|batches|] == batches;
  }

  lemma TakenCounts(was: seq<Task>, now: seq<Task>, t: Task, i: nat)
    requires TakenAt(was, now, t, i)
    ensures multiset(was) == multiset(now) + multiset{t}
  {
    assert was == was[..i] + [t] + was[i + 1..];
  }

  lemma HeadCounts(was: seq<Task>, n: nat)
    requires n <= |was|
    ensures multiset(was) == multiset(was[..n]) + multiset(was[n..])
  {
    assert was == was[..n] + was[n..];
  }

  lemma TakeCounts(c: Config, s: State, e: Event, s': State)
    requires e.FsyncTake? && Next(c, s, e, s')
    ensures Everywhere(s') == Everywhere(s)
  {
    var i: nat :| TakenAt(s.small, s'.small, e.task, i);
    TakenCounts(s.small, s'.small, e.task, i);
    hide Flatten, TakenAt, TakenOut;
    assert multiset(s.small) == multiset(s'.small) + multiset{e.task};
  }

  lemma BatchCounts(c: Config, s: State, e: Event, s': State)
    requires e.TakeBatch? && Next(c, s, e, s')
    ensures Everywhere(s') == Everywhere(s)
  {
    HeadCounts(s.small, e.n);
    FlattenSnoc(s.sentBatches, s.small[..e.n]);
    hide Flatten, IsBatch;
    assert multiset(Flatten(s'.sentBatches)) == multiset(Flatten(s.sentBatches)) + multiset(s.small[..e.n]);
  }

  lemma PopCounts(c: Config, s: State, e: Event, s': State)
    requires e.PopBig? && Next(c, s, e, s')
    ensures Everywhere(s') == Everywhere(s)
  {
    HeadCounts(s.big, 1);
    hide Flatten;
    assert s.big[..1] == [s.big[0]];
    assert multiset(s'.sentBig) == multiset(s.sentBig) + multiset{s.big[0]};
  }

  lemma PushCounts(c: Config, s: State, e: Event, s': State)
    requires e.FsyncPush? && Next(c, s, e, s')
    ensures Everywhere(s') == Everywhere(s)
  {
    hide Flatten;
    assert multiset(s'.big) == multiset(s.big) + multiset{e.task};
    assert s.transit == s'.transit + multiset{e.task};
  }

  lemma UploadCounts(c: Config, s: State, e: Event, s': State)
    requires e.Upload? && Next(c, s, e, s')
    ensures Everywhere(s') == Everywhere(s) + multiset{Task(|s.accepted|, e.localPath, e.remotePath, e.size)}
  {
    hide Flatten;
  }

  lemma StepConserves(c: Config, s: State, e: Event, s': State)
    requires Conserved(s) && Next(c, s, e, s')
    ensures Conserved(s')
  {
    hide Flatten, IsBatch, TakenOut, Everywhere;
    match e
    case Upload(_, _, _) => UploadCounts(c, s, e, s');
    case FsyncTake(_, _, _) => TakeCounts(c, s, e, s');
    case FsyncPush(_) => PushCounts(c, s, e, s');
    case TakeBatch(_) => BatchCounts(c, s, e, s');
    case PopBig => PopCounts(c, s, e, s');
    case Idle =>
  }

  lemma UploadOrder(tasks: seq<Task>, t: Task, n: nat)
    requires IdsInOrder(tasks) && (forall x :: x in tasks ==> x.id < n) && t.id == n
    ensures IdsInOrder(tasks + [t]) && forall x :: x in tasks + [t] ==> x.id < n + 1
  {
    forall i | 0 <= i < |tasks| ensures tasks[i].id < n {
      assert tasks[i] in tasks;
    }
  }

  lemma TakenFromTail(sent: seq<Task>, was: seq<Task>, now: seq<Task>, t: Task, k: nat)
    requires TakenAt(was, now, t, k)
    ensures sent + now == (sent + was)[..|sent| + k] + (sent + was)[|sent| + k + 1..]
  {
  }

  lemma BatchFits(que: seq<Task>, bound: nat, n: nat)
    requires IsBatch(que, bound, n)
    ensures n <= |que|
  {
  }

  lemma StepKeepsOrder(c: Config, s: State, e: Event, s': State)
    requires Fifo(s) && Next(c, s, e, s')
    ensures Fifo(s')
  {
    hide IdsInOrder, IsBatch, Flatten;
    var sent := Flatten(s.sentBatches);
    match e
    case Upload(l, r, size) =>
      if size <= c.boundary {
        var t := Task(|s.accepted|, l, r, size);
        assert sent + s'.small == (sent + s.small) + [t];
        UploadOrder(sent + s.small, t, |s.accepted|);
      }
    case FsyncTake(l, r, t) =>
      var k: nat :| TakenAt(s.small, s'.small, t, k);
      TakenFromTail(sent, s.small, s'.small, t, k);
      TakenKeepsOrder(sent + s.small, |sent| + k);
    case TakeBatch(n) =>
      BatchFits(s.small, c.bound, n);
      FlattenSnoc(s.sentBatches, s.small[..n]);
      assert Flatten(s'.sentBatches) + s'.small == sent + s.small;
    case _ =>
  }

  lemma TakenKeepsOrder(tasks: seq<Task>, k: nat)
    requires IdsInOrder(tasks) && k < |tasks|
    ensures IdsInOrder(tasks[..k] + tasks[k + 1..])
    ensures forall t :: t in tasks[..k] + tasks[k + 1..] ==> t in tasks
  {
  }

  lemma StepKeepsBounds(c: Config, s: State, e: Event, s': State)
    requires BatchesBounded(c, s) && Next(c, s, e, s')
    ensures BatchesBounded(c, s')
  {
    match e
    case FsyncTake(l, r, t) =>
      var k: nat :| TakenAt(s.small, s'.small, t, k);
      assert forall x :: x in s'.small ==> x in s.small;
    case TakeBatch(n) =>
    case _ =>
  }

  /** A run: the states that the steps lead through. */
  ghost predicate IsRun(c: Config, states: seq<State>, events: seq<Event>) {
    && |states| == |events| + 1 && states[0] == EMPTY
    && forall i :: 0 <= i < |events| ==> Next(c, states[i], events[i], states[i + 1])
  }

  lemma {:induction false} RunInv(c: Config, states: seq<State>, events: seq<Event>, n: nat)
    requires IsRun(c, states, events) && n < |states|
    ensures Inv(c, states[n])
  {
    if n > 0 {
      RunInv(c, states, events, n - 1);
      StepConserves(c, states[n - 1], events[n - 1], states[n]);
      StepKeepsOrder(c, states[n - 1], events[n - 1], states[n]);
      StepKeepsBounds(c, states[n - 1], events[n - 1], states[n]);
    }
  }

  lemma {:induction false} CountOne(tasks: seq<Task>, i: nat)
    requires i < |tasks| && forall j :: 0 <= j < |tasks| ==> tasks[j].id == j
    ensures multiset(tasks)[tasks[i]] == 1
  {
    var t := tasks[i];
    assert tasks == tasks[..i] + [t] + tasks[i + 1..];
    assert t !in tasks[..i] && t !in tasks[i + 1..];
  }

  /** Under any interleaving an accepted task is in exactly one place, so it is dispatched at most once. */
  lemma ExactlyOnePlace(c: Config, states: seq<State>, events: seq<Event>, n: nat, i: nat)
    requires IsRun(c, states, events) && n < |states| && i < |states[n].accepted|
    ensures var s, t := states[n], states[n].accepted[i];
      multiset(s.small)[t] + multiset(s.big)[t] + s.transit[t] + multiset(Flatten(s.sentBatches))[t] +
        multiset(s.sentBig)[t] == 1
  {
    RunInv(c, states, events, n);
    CountOne(states[n].accepted, i);
  }

  /** A first small file that reaches the bound blocks every batch until fsync takes it out. */
  lemma {:induction false} HeadBlocks(c: Config, states: seq<State>, events: seq<Event>, start: nat, stop: nat)
    requires IsRun(c, states, events) && start <= stop < |states|
    requires states[start].small != [] && states[start].small[0].size >= c.bound
    requires forall i :: start <= i < stop && events[i].FsyncTake? ==> events[i].task != states[start].small[0]
    ensures states[stop].small != [] && states[stop].small[0] == states[start].small[0]
    ensures Flatten(states[stop].sentBatches) == Flatten(states[start].sentBatches)
    decreases stop
  {
    if start < stop {
      HeadBlocks(c, states, events, start, stop - 1);
      var s, e, s' := states[stop - 1], events[stop - 1], states[stop];
      assert Next(c, s, e, s');
      match e
      case TakeBatch(n) =>
        EmptyBatch(s.small, c.bound, n);
        FlattenSnoc(s.sentBatches, s.small[..n]);
      case FsyncTake(l, r, t) =>
        var k: nat :| TakenAt(s.small, s'.small, t, k);
      case _ =>
    }
  }

  /** The daemon: its operations on the two queues are the steps of the machine above. */
  class DaemonUpload {
    const config: Config
    const smallQue: UploadQueue
    const bigQue: UploadQueue
    var stopped: bool
    var count: nat
    ghost var s: State

    ghost predicate Valid()
      reads this, smallQue, bigQue
    {
      smallQue != bigQue && smallQue.que == s.small && bigQue.que == s.big && count == |s.accepted|
    }

    constructor (c: Config, limit: nat)
      ensures Valid() && config == c && s == EMPTY && !stopped
      ensures fresh(smallQue) && fresh(bigQue) && smallQue.capacity == bigQue.capacity == limit
    {
      config, stopped, count, s := c, false, 0, EMPTY;
      smallQue := new UploadQueue(limit);
      bigQue := new UploadQueue(limit);
    }

    method Upload(localPath: string, remotePath: string, size: nat) returns (ok: bool)
      requires Valid()
      modifies this, smallQue, bigQue
      ensures Valid() && stopped == old(stopped)
      ensures ok <==>
        !stopped && old(if size <= config.boundary then |smallQue.que| < smallQue.capacity
                        else |bigQue.que| < bigQue.capacity)
      ensures Next(config, old(s), if ok then Event.Upload(localPath, remotePath, size) else Idle, s)
    {
      if stopped {
        return false;
      }
      var task := Task(count, localPath, remotePath, size);
      if size <= config.boundary {
        ok := smallQue.PushBack(task);
      } else {
        ok := bigQue.PushBack(task);
      }
      if ok {
        count := count + 1;
        s := s.(accepted := s.accepted + [task], small := smallQue.que, big := bigQue.que);
      }
    }

    /** The first half of fsync: the task leaves the small queue. */
    method FsyncFirst(localPath: string, remotePath: string) returns (r: Option<Task>)
      requires Valid()
      modifies this`s, smallQue`que
      ensures Valid() && (r.None? ==> NoneMatches(old(s).small, localPath, remotePath))
      ensures Next(config, old(s), if r.Some? then FsyncTake(localPath, remotePath, r.value) else Idle, s)
    {
      r := smallQue.ExistInQue(localPath, remotePath);
      if r.Some? {
        s := s.(small := smallQue.que, transit := s.transit + multiset{r.value});
      }
    }

    /** The second half: it enters the big queue, unless that is full, which leaves it in no queue. */
    method FsyncSecond(task: Task) returns (ok: bool)
      requires Valid() && task in s.transit
      modifies this`s, bigQue
      ensures Valid() && (ok <==> old(|bigQue.que|) < bigQue.capacity)
      ensures Next(config, old(s), if ok then FsyncPush(task) else Idle, s)
    {
      ok := bigQue.PushBack(task);
      if ok {
        s := s.(transit := s.transit - multiset{task}, big := bigQue.que);
      }
    }

    /** One turn of the big-file thread. */
    method BigTurn() returns (r: Option<Task>)
      requires Valid()
      modifies this`s, bigQue`que
      ensures Valid() && (r.Some? <==> old(s).big != [])
      ensures Next(config, old(s), if r.Some? then PopBig else Idle, s)
      ensures r.Some? ==> s.sentBig == old(s).sentBig + [r.value]
    {
      r := bigQue.PopFront();
      if r.Some? {
        s := s.(big := bigQue.que, sentBig := s.sentBig + [r.value]);
      }
    }

    /** One turn of the small-file thread, or of the timer, which skips the size check. */
    method SmallTurn(timed: bool) returns (batch: seq<Task>)
      requires Valid()
      modifies this`s, smallQue`que
      ensures Valid()
      ensures !timed && (old(s).small == [] || Total(old(s).small) < config.bound) ==> s == old(s) && batch == []
      ensures timed || (old(s).small != [] && Total(old(s).small) >= config.bound) ==>
        Next(config, old(s), TakeBatch(|batch|), s) && old(s).small == batch + s.small
    {
      batch := [];
      if !timed {
        var allsize := smallQue.AllSize();
        if smallQue.que == [] || allsize < config.bound {
          return;
        }
      }
      batch := smallQue.GetUntilSize(config.bound);
      assert old(smallQue.que)[..|batch|] == batch && old(smallQue.que)[|batch|..] == smallQue.que;
      s := s.(small := smallQue.que, sentBatches := s.sentBatches + [batch]);
    }
  }
}
