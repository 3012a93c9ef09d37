/**
 The daemon's queues against their history: which task waits where, and in what order tasks were handed to
 the uploader, told from the sequence of uploads, moves and turns alone.
 */
module QueueHistory {
  import opened UploadQueues

  /** All uploads, in order; each is numbered by its place. */
  function Uploads(events: seq<Event>): (r: seq<Task>) {
    if events == [] then []
    else
      var r, e := Uploads(events[..|events| - 1]), events[|events| - 1];
      if e.Upload? then r + [Task(|r|, e.localPath, e.remotePath, e.size)] else r
  }

  /** The tasks that entered the big queue, in order: large uploads, and small ones moved by fsync. */
  function BigArrivals(boundary: nat, events: seq<Event>): (r: seq<Task>) {
    if events == [] then []
    else
      var init, e := events[..|events| - 1], events[|events| - 1];
      var r := BigArrivals(boundary, init);
      match e
      case Upload(l, p, size) => if boundary < size then r + [Task(|Uploads(init)|, l, p, size)] else r
      case FsyncPush(t) => r + [t]
      case _ => r
  }

  /** How many turns of the big-file thread found a task. */
  function Pops(events: seq<Event>): (n: nat) {
    if events == [] then 0
    else Pops(events[..|events| - 1]) + (if events[|events| - 1].PopBig? then 1 else 0)
  }

  /** The tasks that fsync took out of the small queue. */
  function Taken(events: seq<Event>): (r: seq<Task>) {
    if events == [] then []
    else
      var r, e := Taken(events[..|events| - 1]), events[|events| - 1];
      if e.FsyncTake? then r + [e.task] else r
  }

  /** The small uploads that were not taken out, in order. */
  function Remaining(boundary: nat, uploads: seq<Task>, taken: seq<Task>): (r: seq<Task>) {
    if uploads == [] then []
    else
      var r, t := Remaining(boundary, uploads[..|uploads| - 1], taken), uploads[|uploads| - 1];
      if t.size <= boundary && t !in taken then r + [t] else r
  }

  lemma {:induction false} UploadsAre(c: Config, states: seq<State>, events: seq<Event>, n: nat)
    requires IsRun(c, states, events) && n <= |events|
    ensures states[n].accepted == Uploads(events[..n])
  {
    if n > 0 {
      UploadsAre(c, states, events, n - 1);
      assert Next(c, states[n - 1], events[n - 1], states[n]);
      assert events[..n][..n - 1] == events[..n - 1];
    }
  }

  lemma BigStep(c: Config, s: State, e: Event, s': State, before: seq<Event>)
    requires Next(c, s, e, s') && s.accepted == Uploads(before)
    requires s.sentBig + s.big == BigArrivals(c.boundary, before) && |s.sentBig| == Pops(before)
    ensures s'.sentBig + s'.big == BigArrivals(c.boundary, before + [e]) && |s'.sentBig| == Pops(before + [e])
  {
    hide TakenOut, IsBatch, Uploads;
    assert (before + [e])[..|before|] == before;
    assert BigArrivals(c.boundary, before + [e])[..|s.sentBig + s.big|] == s.sentBig + s.big;
    if e.PopBig? {
      assert s'.sentBig + s'.big == s.sentBig + s.big;
    }
  }

  /**
   Big tasks are dispatched in the order of their arrival: those sent are the first arrivals, as many as
   there were turns, and the others wait in order.
   */
  lemma {:induction false} BigInOrder(c: Config, states: seq<State>, events: seq<Event>, n: nat)
    requires IsRun(c, states, events) && n <= |events|
    ensures var s, arrivals := states[n], BigArrivals(c.boundary, events[..n]);
      && s.sentBig + s.big == arrivals && |s.sentBig| == Pops(events[..n])
  {
    if n > 0 {
      hide Next, Uploads;
      BigInOrder(c, states, events, n - 1);
      UploadsAre(c, states, events, n - 1);
      assert Next(c, states[n - 1], events[n - 1], states[n]);
      assert events[..n] == events[..n - 1] + [events[n - 1]];
      hide BigArrivals, Pops;
      BigStep(c, states[n - 1], events[n - 1], states[n], events[..n - 1]);
    }
  }

  lemma {:induction false} ArrivalsGrow(boundary: nat, events: seq<Event>, n: nat)
    requires n <= |events|
    ensures BigArrivals(boundary, events[..n]) <= BigArrivals(boundary, events)
  {
    if n < |events| {
      ArrivalsGrow(boundary, events[..|events| - 1], n);
      assert events[..|events| - 1][..n] == events[..n];
    } else {
      assert events[..n] == events;
    }
  }

  /** What was sent or waited in the big queue at any time is the front of what was at any later time. */
  lemma BigPrefix(c: Config, states: seq<State>, events: seq<Event>, n: nat, m: nat)
    requires IsRun(c, states, events) && n <= m <= |events|
    ensures states[n].sentBig + states[n].big <= states[m].sentBig + states[m].big
  {
    BigInOrder(c, states, events, n);
    BigInOrder(c, states, events, m);
    ArrivalsGrow(c.boundary, events[..m], n);
    assert events[..m][..n] == events[..n];
  }

  lemma {:induction false} RemainingSkips(boundary: nat, uploads: seq<Task>, taken: seq<Task>, t: Task)
    requires t !in uploads
    ensures Remaining(boundary, uploads, taken + [t]) == Remaining(boundary, uploads, taken)
  {
    if uploads != [] {
      RemainingSkips(boundary, uploads[..|uploads| - 1], taken, t);
      assert uploads[|uploads| - 1] in uploads;
    }
  }

  /** Every remaining task is an upload, so its number is below theirs. */
  lemma {:induction false} RemainingIds(boundary: nat, uploads: seq<Task>, taken: seq<Task>)
    requires forall i :: 0 <= i < |uploads| ==> uploads[i].id == i
    ensures forall t :: t in Remaining(boundary, uploads, taken) ==> t.id < |uploads|
  {
    if uploads != [] {
      RemainingIds(boundary, uploads[..|uploads| - 1], taken);
    }
  }

  /** Taking one more task out of the remaining ones leaves the others in order. */
  lemma {:induction false} RemainingTaken(boundary: nat, uploads: seq<Task>, taken: seq<Task>, i: nat)
    requires forall j :: 0 <= j < |uploads| ==> uploads[j].id == j
    requires i < |Remaining(boundary, uploads, taken)|
    ensures var r := Remaining(boundary, uploads, taken);
      Remaining(boundary, uploads, taken + [r[i]]) == r[..i] + r[i + 1..]
  {
    var n := |uploads| - 1;
    var r, init := Remaining(boundary, uploads, taken), Remaining(boundary, uploads[..n], taken);
    RemainingIds(boundary, uploads[..n], taken);
    if i < |init| {
      assert r[i] == init[i] && init[i] in init;
      RemainingTaken(boundary, uploads[..n], taken, i);
      assert uploads[n] != r[i];
    } else {
      assert r[i] == uploads[n];
      assert forall j :: 0 <= j < n ==> uploads[..n][j].id == j;
      RemainingSkips(boundary, uploads[..n], taken, uploads[n]);
    }
  }

  lemma {:induction false} UploadIds(events: seq<Event>)
    ensures forall i :: 0 <= i < |Uploads(events)| ==> Uploads(events)[i].id == i
  {
    if events != [] {
      UploadIds(events[..|events| - 1]);
    }
  }

  lemma {:induction false} TakenIsOld(c: Config, states: seq<State>, events: seq<Event>, n: nat)
    requires IsRun(c, states, events) && n <= |events|
    ensures forall t :: t in Taken(events[..n]) ==> t.id < |Uploads(events[..n])|
  {
    if n > 0 {
      TakenIsOld(c, states, events, n - 1);
      UploadsAre(c, states, events, n - 1);
      RunInv(c, states, events, n - 1);
      var s, e := states[n - 1], events[n - 1];
      assert Next(c, s, e, states[n]);
      assert events[..n][..n - 1] == events[..n - 1];
      if e.FsyncTake? {
        var i: nat :| TakenAt(s.small, states[n].small, e.task, i);
        assert e.task in Flatten(s.sentBatches) + s.small;
      }
    }
  }

  lemma UploadStep(sent: seq<Task>, small: seq<Task>, t: Task, c: Config, before: seq<Event>, e: Event)
    requires e.Upload? && t == Task(|Uploads(before)|, e.localPath, e.remotePath, e.size)
    requires forall x :: x in Taken(before) ==> x.id < |Uploads(before)|
    requires sent + small == Remaining(c.boundary, Uploads(before), Taken(before))
    ensures sent + (if e.size <= c.boundary then small + [t] else small) ==
      Remaining(c.boundary, Uploads(before + [e]), Taken(before + [e]))
  {
    assert (before + [e])[..|before|] == before;
    assert Uploads(before + [e]) == Uploads(before) + [t];
    assert (Uploads(before) + [t])[..|Uploads(before)|] == Uploads(before);
    assert sent + (small + [t]) == (sent + small) + [t];
  }

  lemma TakeStep(sent: seq<Task>, small: seq<Task>, small': seq<Task>, i: nat, c: Config, before: seq<Event>, e: Event)
    requires e.FsyncTake? && TakenAt(small, small', e.task, i)
    requires sent + small == Remaining(c.boundary, Uploads(before), Taken(before))
    ensures sent + small' == Remaining(c.boundary, Uploads(before + [e]), Taken(before + [e]))
  {
    assert (before + [e])[..|before|] == before;
    hide Remaining;
    UploadIds(before);
    TakenFromTail(sent, small, small', e.task, i);
    RemainingTaken(c.boundary, Uploads(before), Taken(before), |sent| + i);
    assert (sent + small)[|sent| + i] == e.task;
  }

  lemma SmallStep(c: Config, s: State, e: Event, s': State, before: seq<Event>)
    requires Next(c, s, e, s') && s.accepted == Uploads(before)
    requires Flatten(s.sentBatches) + s.small == Remaining(c.boundary, Uploads(before), Taken(before))
    requires forall t :: t in Taken(before) ==> t.id < |Uploads(before)|
    ensures Flatten(s'.sentBatches) + s'.small ==
      Remaining(c.boundary, Uploads(before + [e]), Taken(before + [e]))
  {
    hide Flatten, IsBatch, Remaining, TakenAt;
    var sent := Flatten(s.sentBatches);
    assert (before + [e])[..|before|] == before;
    match e
    case Upload(l, p, size) =>
      UploadStep(sent, s.small, Task(|s.accepted|, l, p, size), c, before, e);
    case FsyncTake(l, p, t) =>
      var i: nat :| TakenAt(s.small, s'.small, t, i);
      TakeStep(sent, s.small, s'.small, i, c, before, e);
    case TakeBatch(n) =>
      BatchFits(s.small, c.bound, n);
      FlattenSnoc(s.sentBatches, s.small[..n]);
      assert sent + s.small[..n] + s.small[n..] == sent + s.small;
    case _ =>
  }

  /** Small tasks are batched in the order of their upload: batches and queue are the uploads not taken out. */
  lemma {:induction false} SmallInOrder(c: Config, states: seq<State>, events: seq<Event>, n: nat)
    requires IsRun(c, states, events) && n <= |events|
    ensures Flatten(states[n].sentBatches) + states[n].small ==
      Remaining(c.boundary, Uploads(events[..n]), Taken(events[..n]))
  {
    if n > 0 {
      SmallInOrder(c, states, events, n - 1);
      UploadsAre(c, states, events, n - 1);
      TakenIsOld(c, states, events, n - 1);
      assert events[..n] == events[..n - 1] + [events[n - 1]];
      SmallStep(c, states[n - 1], events[n - 1], states[n], events[..n - 1]);
    } else {
      assert events[..0] == [];
    }
  }

  /** fsync moves the oldest waiting task of its two paths. */
  lemma FsyncTakesOldest(c: Config, states: seq<State>, events: seq<Event>, n: nat, t: Task)
    requires IsRun(c, states, events) && n < |events| && events[n].FsyncTake? && t in states[n].small
    requires t.localPath == events[n].localPath && t.remotePath == events[n].remotePath
    ensures var moved := events[n].task;
      && moved in states[n].small && moved.id <= t.id
      && moved.localPath == t.localPath && moved.remotePath == t.remotePath
  {
    hide Flatten, IsBatch, Conserved, BatchesBounded;
    RunInv(c, states, events, n);
    var s, e, s' := states[n], events[n], states[n + 1];
    assert Next(c, s, e, s');
    hide IsRun;
    OldestTaken(Flatten(s.sentBatches), s.small, s'.small, e.task, t, e.localPath, e.remotePath);
  }

  lemma OldestTaken(sent: seq<Task>, was: seq<Task>, now: seq<Task>, moved: Task, t: Task, localPath: string,
                    remotePath: string)
    requires TakenOut(was, now, moved, localPath, remotePath) && IdsInOrder(sent + was)
    requires t in was && Matches(t, localPath, remotePath)
    ensures moved in was && moved.id <= t.id && Matches(moved, localPath, remotePath)
  {
    var i: nat :| TakenAt(was, now, moved, i) && NoneMatches(was[..i], localPath, remotePath);
    var j :| 0 <= j < |was| && was[j] == t;
    NotBefore(was, i, j, localPath, remotePath);
    assert (sent + was)[|sent| + i] == moved && (sent + was)[|sent| + j] == t;
  }

  lemma NotBefore(que: seq<Task>, i: nat, j: nat, localPath: string, remotePath: string)
    requires i <= |que| && j < |que| && NoneMatches(que[..i], localPath, remotePath)
    requires Matches(que[j], localPath, remotePath)
    ensures i <= j
  {
    assert forall k :: 0 <= k < i ==> que[..i][k] == que[k];
  }
}
