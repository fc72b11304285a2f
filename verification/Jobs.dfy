/** The `jobs` table. Each SQL statement is one atomic step on its rows; a job's id is its
    position, since ids are never reused and rows never deleted. */
module Jobs {
  import opened Text

  datatype Kind = BackupCreate | OtherKind(code: nat)

  datatype Status = Queued | Running | Succeeded | Failed

  datatype Actor = Scheduler | Somebody(name: string)

  datatype Job = Job(
    site: Option<nat>,
    kind: Kind,
    actor: Actor,
    status: Status,
    progress: nat,
    failure: Option<string>,
    startedAt: Option<int>,
    finishedAt: Option<int>)

  predicate IsActive(j: Job) {
    j.status == Queued || j.status == Running
  }

  predicate IsTerminal(j: Job) {
    j.status == Succeeded || j.status == Failed
  }

  function NewJob(site: Option<nat>, kind: Kind, actor: Actor): Job {
    Job(site, kind, actor, Queued, 0, None, None, None)
  }

  /** `SELECT id … WHERE status = 'queued' ORDER BY id LIMIT 1` */
  function OldestQueued(rows: seq<Job>): (r: Option<nat>)
    ensures r.Some? ==> r.value < |rows| && rows[r.value].status == Queued
                        && forall i :: 0 <= i < r.value ==> rows[i].status != Queued
    ensures r.None? ==> forall i :: 0 <= i < |rows| ==> rows[i].status != Queued
  {
    if rows == [] then None
    else
      match OldestQueued(rows[..|rows| - 1])
      case Some(i) => Some(i)
      case None => if rows[|rows| - 1].status == Queued then Some(|rows| - 1) else None
  }

  function Start(j: Job, now: int): Job {
    j.(status := Running, startedAt := Some(now))
  }

  function Claimed(rows: seq<Job>, now: int): seq<Job> {
    match OldestQueued(rows)
    case None => rows
    case Some(i) => rows[i := Start(rows[i], now)]
  }

  function Finish(j: Job, status: Status, failure: Option<string>, now: int): Job {
    j.(status := status, progress := if status == Succeeded then 100 else 0, failure := failure, finishedAt := Some(now))
  }

  function Progressed(rows: seq<Job>, id: nat, progress: nat): seq<Job> {
    if id < |rows| then rows[id := rows[id].(progress := progress)] else rows
  }

  function Finished(rows: seq<Job>, id: nat, status: Status, failure: Option<string>, now: int): seq<Job> {
    if id < |rows| then rows[id := Finish(rows[id], status, failure, now)] else rows
  }

  const INTERRUPTED := "panel restarted while the job was running"

  function Orphaned(j: Job, now: int): Job {
    if j.status == Running
    then j.(status := Failed, failure := Some(INTERRUPTED), finishedAt := Some(now))
    else j
  }

  function AllOrphaned(rows: seq<Job>, now: int): (r: seq<Job>)
    ensures |r| == |rows| && forall i :: 0 <= i < |rows| ==> r[i] == Orphaned(rows[i], now)
  {
    seq(|rows|, i requires 0 <= i < |rows| => Orphaned(rows[i], now))
  }

  /** `ON DELETE SET NULL` */
  function Detached(j: Job, site: nat): Job {
    if j.site == Some(site) then j.(site := None) else j
  }

  function AllDetached(rows: seq<Job>, site: nat): (r: seq<Job>)
    ensures |r| == |rows| && forall i :: 0 <= i < |rows| ==> r[i] == Detached(rows[i], site)
  {
    seq(|rows|, i requires 0 <= i < |rows| => Detached(rows[i], site))
  }

  predicate IsActiveFor(j: Job, site: nat, kind: Kind) {
    j.site == Some(site) && j.kind == kind && IsActive(j)
  }

  predicate AnyActive(rows: seq<Job>, site: nat, kind: Kind) {
    exists i :: 0 <= i < |rows| && IsActiveFor(rows[i], site, kind)
  }

  class JobsTable {
    var rows: seq<Job>

    constructor ()
      ensures rows == []
    {
      rows := [];
    }

    method Enqueue(site: Option<nat>, kind: Kind, actor: Actor) returns (id: nat)
      modifies this
      ensures id == |old(rows)| && rows == old(rows) + [Job(site, kind, actor, Queued, 0, None, None, None)]
    {
      id := |rows|;
      rows := rows + [NewJob(site, kind, actor)];
    }

    /** The first queued job by id is running from now on; no other row changes. */
    method ClaimNext(now: int) returns (id: Option<nat>)
      modifies this
      ensures |rows| == |old(rows)|
      ensures id.None? <==> forall i :: 0 <= i < |rows| ==> old(rows)[i].status != Queued
      ensures id.Some? ==>
                && id.value < |rows| && old(rows)[id.value].status == Queued
                && (forall i :: 0 <= i < id.value ==> old(rows)[i].status != Queued)
                && rows[id.value] == old(rows)[id.value].(status := Running, startedAt := Some(now))
      ensures forall i :: 0 <= i < |rows| && id != Some(i) ==> rows[i] == old(rows)[i]
      ensures id == OldestQueued(old(rows)) && rows == Claimed(old(rows), now)
    {
      id := OldestQueued(rows);
      if id.Some? {
        rows := rows[id.value := Start(rows[id.value], now)];
      }
    }

    /** `COUNT(*) … > 0` */
    method HasActive(site: nat, kind: Kind) returns (active: bool)
      ensures active <==> exists i :: 0 <= i < |rows| && rows[i].site == Some(site) && rows[i].kind == kind
                                      && (rows[i].status == Queued || rows[i].status == Running)
      ensures active <==> AnyActive(rows, site, kind)
    {
      var count := 0;
      for i := 0 to |rows|
        invariant count > 0 <==> exists k :: 0 <= k < i && IsActiveFor(rows[k], site, kind)
        invariant count >= 0
      {
        if IsActiveFor(rows[i], site, kind) {
          count := count + 1;
        }
      }
      active := count > 0;
      assert forall i :: 0 <= i < |rows| ==>
               (IsActiveFor(rows[i], site, kind)
                <==> rows[i].site == Some(site) && rows[i].kind == kind && (rows[i].status == Queued || rows[i].status == Running));
    }

    /** Changes the progress of the row with that id, if there is one, and nothing else. */
    method Progress(id: nat, progress: nat)
      modifies this
      ensures |rows| == |old(rows)|
      ensures id < |rows| ==> rows[id] == old(rows)[id].(progress := progress)
      ensures forall i :: 0 <= i < |rows| && i != id ==> rows[i] == old(rows)[i]
      ensures rows == Progressed(old(rows), id, progress)
    {
      if id < |rows| {
        rows := rows[id := rows[id].(progress := progress)];
      }
    }

    /** The row with that id, if there is one, has its outcome; no other row changes. */
    method FinishJob(id: nat, status: Status, failure: Option<string>, now: int)
      modifies this
      ensures |rows| == |old(rows)|
      ensures id < |rows| ==>
                rows[id] == old(rows)[id].(status := status, progress := if status.Succeeded? then 100 else 0,
                                           failure := failure, finishedAt := Some(now))
      ensures forall i :: 0 <= i < |rows| && i != id ==> rows[i] == old(rows)[i]
      ensures rows == Finished(old(rows), id, status, failure, now)
    {
      if id < |rows| {
        rows := rows[id := Finish(rows[id], status, failure, now)];
      }
    }

    method RequeueOrphans(now: int) returns (affected: nat)
      modifies this
      ensures |rows| == |old(rows)|
      ensures forall i :: 0 <= i < |rows| ==>
                if old(rows)[i].status == Running
                then rows[i] == old(rows)[i].(status := Failed, finishedAt := Some(now),
                                              failure := Some("panel restarted while the job was running"))
                else rows[i] == old(rows)[i]
      ensures rows == AllOrphaned(old(rows), now)
      ensures affected == 0 <==> rows == old(rows)
      ensures forall i :: 0 <= i < |rows| ==> rows[i].status != Running
    {
      affected := 0;
      var was := rows;
      for i := 0 to |was|
        invariant |rows| == |was|
        invariant forall k :: 0 <= k < i ==> rows[k] == Orphaned(was[k], now)
        invariant forall k :: i <= k < |was| ==> rows[k] == was[k]
        invariant affected == 0 <==> forall k :: 0 <= k < i ==> was[k].status != Running
      {
        if rows[i].status == Running {
          affected := affected + 1;
        }
        rows := rows[i := Orphaned(rows[i], now)];
      }
    }
  }
}
