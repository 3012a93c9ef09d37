/**
 A batch of puts against the same puts one by one: the batch checks every path against the store
 before the batch, so it misses a path that occurs twice.
 */
module PutBatches {
  import opened Metadata
  import opened Namenode
  import opened Batches

  /** The puts served one by one at the same clock reading; the first refusal ends the fold. */
  function FoldPuts(db: Store, now: nat, puts: seq<PutItem>): (r: Result<Store>)
    requires KeysOk(db)
    ensures r.Ok? ==> KeysOk(r.value)
  {
    if puts == [] then Ok(db)
    else
      var n := |puts| - 1;
      match FoldPuts(db, now, puts[..n])
      case Err(e) => Err(e)
      case Ok(db') =>
        match PreparePut(db', puts[n].path, now, puts[n].storageType)
        case Err(e) => Err(e)
        case Ok(inode) => Ok(ApplyPut(db', inode))
  }

  ghost predicate DistinctPaths(puts: seq<PutItem>) {
    forall i, j :: 0 <= i < j < |puts| ==> puts[i].path != puts[j].path
  }

  /** Served puts leave their paths locked and every other path alone. */
  lemma {:induction false} FoldPutsAt(db: Store, now: nat, puts: seq<PutItem>, q: Path)
    requires KeysOk(db) && FoldPuts(db, now, puts).Ok?
    ensures InPuts(puts, q) ==>
      GetInode(FoldPuts(db, now, puts).value, q).ddlLock == now + LOCK_REFRESH_INTERVAL
    ensures !InPuts(puts, q) ==>
      GetInode(FoldPuts(db, now, puts).value, q) == GetInode(db, q)
  {
    if puts != [] {
      var n := |puts| - 1;
      FoldPutsAt(db, now, puts[..n], q);
      if puts[n].path != q {
        LaterPut(puts, q);
        hide InPuts;
      }
    }
  }

  lemma {:induction false} DistinctFold(db: Store, now: nat, puts: seq<PutItem>)
    requires KeysOk(db) && PreparePuts(db, now, puts).Ok? && DistinctPaths(puts)
    ensures FoldPuts(db, now, puts) == Ok(ApplyPutBatch(db, PreparePuts(db, now, puts).value))
  {
    if puts != [] {
      var n := |puts| - 1;
      assert forall i :: 0 <= i < n ==> puts[..n][i] == puts[i];
      DistinctFold(db, now, puts[..n]);
      FoldPutsAt(db, now, puts[..n], puts[n].path);
      var xs := PreparePuts(db, now, puts).value;
      assert xs[..n] == PreparePuts(db, now, puts[..n]).value;
      hide PreparePuts;
    }
  }

  lemma {:induction false} FoldIsDistinct(db: Store, now: nat, puts: seq<PutItem>)
    requires KeysOk(db) && FoldPuts(db, now, puts).Ok?
    ensures DistinctPaths(puts)
  {
    if puts != [] {
      var n := |puts| - 1;
      assert forall i :: 0 <= i < n ==> puts[..n][i] == puts[i];
      FoldIsDistinct(db, now, puts[..n]);
      FoldPutsAt(db, now, puts[..n], puts[n].path);
    }
  }

  /** A batch that passes its checks equals the puts one by one exactly when no path occurs twice. */
  lemma PutBatchIsFoldExactly(db: Store, now: nat, puts: seq<PutItem>)
    requires KeysOk(db) && GoodRequest(PutBatchReq(puts)) && PreparePuts(db, now, puts).Ok?
    ensures Handle(db, now, PutBatchReq(puts)) == FoldPuts(db, now, puts) <==> DistinctPaths(puts)
  {
    if DistinctPaths(puts) {
      DistinctFold(db, now, puts);
    }
    if FoldPuts(db, now, puts).Ok? {
      FoldIsDistinct(db, now, puts);
    }
  }
}
