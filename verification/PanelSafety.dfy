/** What every run of the panel keeps. */
module PanelSafety {
  import opened Text
  import opened Jobs
  import opened Schedules
  import opened Panel

  /** The state after a run; `None` when an event was not possible. */
  ghost function After(s: State, run: seq<Event>): Option<State> {
    if run == [] then Some(s)
    else
      match After(s, run[..|run| - 1])
      case None => None
      case Some(mid) =>
        if TickOk(mid) && Enabled(mid, run[|run| - 1]) then Some(Step(mid, run[|run| - 1])) else None
  }

  // ---------------------------------------------------------------------------------------
  // Workers and jobs
  // ---------------------------------------------------------------------------------------

  ghost predicate WorkersOk(s: State) {
    && (forall w :: 0 <= w < |s.workers| && !s.workers[w].Idle? ==>
          s.up && s.workers[w].job < |s.jobs| && s.jobs[s.workers[w].job].status == Running)
    && forall v, w :: 0 <= v < w < |s.workers| && !s.workers[v].Idle? && !s.workers[w].Idle? ==>
          s.workers[v].job != s.workers[w].job
  }

  /** What one step may do to one job. */
  ghost predicate Moves(a: Job, b: Job) {
    || b == a
    || b == a.(site := None)
    || (a.status == Queued && exists now :: b == Start(a, now))
    || (a.status == Running && b == a.(progress := b.progress) && b.progress < 100)
    || (a.status == Running && exists failure, now :: b == Finish(a, Succeeded, failure, now))
    || (a.status == Running && exists failure, now :: b == Finish(a, Failed, failure, now))
    || (a.status == Running && exists now :: b == Orphaned(a, now))
  }

  ghost predicate Fresh(j: Job) {
    j.status == Queued && j.progress == 0
  }

  ghost predicate JobsMove(before: seq<Job>, after: seq<Job>) {
    && |before| <= |after|
    && (forall i :: 0 <= i < |before| ==> Moves(before[i], after[i]))
    && forall i :: |before| <= i < |after| ==> Fresh(after[i])
  }

  lemma StepMovesJobs(s: State, e: Event)
    requires TickOk(s) && Enabled(s, e) && WorkersOk(s)
    ensures JobsMove(s.jobs, Step(s, e).jobs)
  {
    if e.Progress? {
      assert e.index * 100 / e.steps < 100;
    }
  }

  lemma ClaimKeepsWorkers(s: State, e: Event)
    requires TickOk(s) && Enabled(s, e) && WorkersOk(s) && e.Claim?
    ensures WorkersOk(Step(s, e))
  {
    var t := Step(s, e);
    if OldestQueued(s.jobs).Some? {
      var id := OldestQueued(s.jobs).value;
      assert forall w :: 0 <= w < |t.workers| && w != e.worker ==> t.workers[w] == s.workers[w];
    }
  }

  ghost predicate StillBusy(worker: Worker, id: nat, job: Job) {
    worker == Idle || (worker.job == id && job.status == Running)
  }

  /** Worker `w` goes on with its job, or leaves it in any status. */
  lemma OneWorkerMoves(s: State, t: State, w: nat, worker: Worker, job: Job)
    requires WorkersOk(s) && w < |s.workers| && !s.workers[w].Idle?
    requires t.up == s.up && t.jobs == s.jobs[s.workers[w].job := job]
    requires t.workers == s.workers[w := worker] && StillBusy(worker, s.workers[w].job, job)
    ensures WorkersOk(t)
  {
    forall v | 0 <= v < |t.workers| && v != w
      ensures t.workers[v] == s.workers[v]
    {
    }
  }

  lemma WorkKeepsWorkers(s: State, e: Event)
    requires TickOk(s) && Enabled(s, e) && WorkersOk(s)
    requires e.Progress? || e.Complete? || e.RunFails? || e.Fallback?
    ensures WorkersOk(Step(s, e))
  {
    var t, w := Step(s, e), e.worker;
    var id := s.workers[w].job;
    assert s.jobs == s.jobs[id := s.jobs[id]];
    assert s.workers == s.workers[w := s.workers[w]];
    OneWorkerMoves(s, t, w, t.workers[w], t.jobs[id]);
  }

  lemma OthersKeepWorkers(s: State, e: Event)
    requires TickOk(s) && Enabled(s, e) && WorkersOk(s)
    requires !e.Claim? && !e.Progress? && !e.Complete? && !e.RunFails? && !e.Fallback?
    ensures WorkersOk(Step(s, e))
  {
    var t := Step(s, e);
    if !e.Crash? && !e.Boot? {
      assert t.workers == s.workers;
      assert |t.jobs| >= |s.jobs|;
      assert forall i :: 0 <= i < |s.jobs| ==> t.jobs[i].status == s.jobs[i].status;
    }
  }

  lemma StepKeepsWorkers(s: State, e: Event)
    requires TickOk(s) && Enabled(s, e) && WorkersOk(s)
    ensures WorkersOk(Step(s, e))
  {
    if e.Claim? {
      ClaimKeepsWorkers(s, e);
    } else if e.Progress? || e.Complete? || e.RunFails? || e.Fallback? {
      WorkKeepsWorkers(s, e);
    } else {
      OthersKeepWorkers(s, e);
    }
  }

  /** Jobs are claimed in the order of their ids, none of them twice; what is claimed is exactly
      the front of the table, and exactly what has left the queue. */
  ghost predicate ClaimsOk(s: State) {
    && |s.claims| <= |s.jobs|
    && (forall i :: 0 <= i < |s.claims| ==> s.claims[i] == i)
    && forall k :: 0 <= k < |s.jobs| ==> (s.jobs[k].status != Queued <==> k < |s.claims|)
  }

  lemma MovesKeepClaims(s: State, t: State)
    requires ClaimsOk(s) && JobsMove(s.jobs, t.jobs) && t.claims == s.claims
    requires forall k :: 0 <= k < |s.jobs| && s.jobs[k].status == Queued ==> t.jobs[k].status == Queued
    ensures ClaimsOk(t)
  {
    forall k | 0 <= k < |t.jobs|
      ensures t.jobs[k].status != Queued <==> k < |t.claims|
    {
      if k < |s.jobs| {
        assert Moves(s.jobs[k], t.jobs[k]);
      } else {
        assert Fresh(t.jobs[k]);
      }
    }
  }

  lemma ClaimKeepsClaims(s: State, t: State)
    requires ClaimsOk(s) && OldestQueued(s.jobs).Some?
    requires t.jobs == Claimed(s.jobs, s.now) && t.claims == s.claims + [OldestQueued(s.jobs).value]
    ensures ClaimsOk(t)
  {
    var id := OldestQueued(s.jobs).value;
    assert s.jobs[|s.claims|].status == Queued;
    assert id == |s.claims|;
  }

  /** Only a claim takes a job out of the queue. */
  lemma OthersLeaveQueued(s: State, e: Event)
    requires TickOk(s) && Enabled(s, e) && WorkersOk(s) && !e.Claim?
    ensures |s.jobs| <= |Step(s, e).jobs|
    ensures forall k :: 0 <= k < |s.jobs| && s.jobs[k].status == Queued ==> Step(s, e).jobs[k].status == Queued
  {
  }

  lemma StepKeepsClaims(s: State, e: Event)
    requires TickOk(s) && Enabled(s, e) && WorkersOk(s) && ClaimsOk(s)
    ensures ClaimsOk(Step(s, e))
  {
    StepMovesJobs(s, e);
    if e.Claim? {
      if OldestQueued(s.jobs).Some? {
        ClaimKeepsClaims(s, Step(s, e));
      }
    } else {
      OthersLeaveQueued(s, e);
      MovesKeepClaims(s, Step(s, e));
    }
  }

  ghost predicate ProgressOk(jobs: seq<Job>) {
    forall i :: 0 <= i < |jobs| ==> jobs[i].progress <= 100 && (jobs[i].progress == 100 <==> jobs[i].status == Succeeded)
  }

  lemma MoveKeepsProgress(before: seq<Job>, after: seq<Job>)
    requires JobsMove(before, after) && ProgressOk(before)
    ensures ProgressOk(after)
  {
    forall i | 0 <= i < |after|
      ensures after[i].progress <= 100 && (after[i].progress == 100 <==> after[i].status == Succeeded)
    {
      if i < |before| {
        assert Moves(before[i], after[i]);
      } else {
        assert Fresh(after[i]);
      }
    }
  }

  // ---------------------------------------------------------------------------------------
  // One scheduled backup at a time
  // ---------------------------------------------------------------------------------------

  ghost predicate IsScheduledBackup(j: Job, site: nat) {
    j.actor == Scheduler && IsActiveFor(j, site, BackupCreate)
  }

  ghost predicate NoneScheduled(jobs: seq<Job>, site: nat) {
    forall i :: 0 <= i < |jobs| ==> !IsScheduledBackup(jobs[i], site)
  }

  ghost predicate OneBackupPerSite(jobs: seq<Job>) {
    forall i, j, site :: 0 <= i < j < |jobs| && IsScheduledBackup(jobs[i], site) ==> !IsScheduledBackup(jobs[j], site)
  }

  ghost predicate SchedulerOk(s: State) {
    && TickOk(s)
    && OneBackupPerSite(s.jobs)
    && (s.tick.NoneActive? || s.tick.SiteFound? ==> NoneScheduled(s.jobs, s.tick.todo[0].schedule.site))
  }

  /** No step makes a job a scheduled backup of a site, except for inserting one. */
  lemma MoveAddsNoScheduled(a: Job, b: Job, site: nat)
    requires Moves(a, b) && IsScheduledBackup(b, site)
    ensures IsScheduledBackup(a, site)
  {
  }

  lemma MovesKeepOneBackupPerSite(before: seq<Job>, after: seq<Job>)
    requires JobsMove(before, after) && OneBackupPerSite(before)
    requires forall i :: |before| <= i < |after| ==> after[i].actor != Scheduler
    ensures OneBackupPerSite(after)
    ensures forall site :: NoneScheduled(before, site) ==> NoneScheduled(after, site)
  {
    forall i, site | 0 <= i < |after| && IsScheduledBackup(after[i], site)
      ensures i < |before| && IsScheduledBackup(before[i], site)
    {
      MoveAddsNoScheduled(before[i], after[i], site);
    }
  }

  lemma InsertKeepsOneBackupPerSite(jobs: seq<Job>, site: nat)
    requires OneBackupPerSite(jobs) && NoneScheduled(jobs, site)
    ensures OneBackupPerSite(jobs + [NewJob(Some(site), BackupCreate, Scheduler)])
  {
  }

  lemma StepKeepsOneBackupPerSite(s: State, e: Event)
    requires TickOk(s) && Enabled(s, e) && WorkersOk(s) && SchedulerOk(s)
    ensures OneBackupPerSite(Step(s, e).jobs)
    ensures !e.InsertJob? ==> forall site :: NoneScheduled(s.jobs, site) ==> NoneScheduled(Step(s, e).jobs, site)
  {
    if e.InsertJob? {
      InsertKeepsOneBackupPerSite(s.jobs, s.tick.todo[0].schedule.site);
    } else {
      StepMovesJobs(s, e);
      MovesKeepOneBackupPerSite(s.jobs, Step(s, e).jobs);
    }
  }

  lemma StepKeepsScheduler(s: State, e: Event)
    requires TickOk(s) && Enabled(s, e) && WorkersOk(s) && SchedulerOk(s)
    ensures SchedulerOk(Step(s, e))
  {
    StepKeepsOneBackupPerSite(s, e);
    if e.CheckActive? {
      var site := s.tick.todo[0].schedule.site;
      if !AnyActive(s.jobs, site, BackupCreate) {
        NoneActiveNoneScheduled(s.jobs, site);
      }
    } else {
      SearchStaysClear(s, e);
    }
  }

  lemma NoneActiveNoneScheduled(jobs: seq<Job>, site: nat)
    requires !AnyActive(jobs, site, BackupCreate)
    ensures NoneScheduled(jobs, site)
  {
  }

  /** Where the scheduler stands changes by its own steps only. */
  lemma SearchStaysClear(s: State, e: Event)
    requires TickOk(s) && Enabled(s, e) && SchedulerOk(s) && !e.CheckActive?
    ensures var t := Step(s, e);
            && TickOk(t)
            && (t.tick.NoneActive? || t.tick.SiteFound? ==>
                  && !e.InsertJob? && (s.tick.NoneActive? || s.tick.SiteFound?) && t.tick.todo == s.tick.todo)
  {
  }

  // ---------------------------------------------------------------------------------------
  // The distance between the backups of a schedule
  // ---------------------------------------------------------------------------------------

  function Todo(tick: Tick): seq<Due> {
    if tick.Asleep? then [] else tick.todo
  }

  /** The schedules of the list whose jobs are still to be inserted. */
  function Pending(tick: Tick): seq<Due> {
    if tick.Asleep? || tick.todo == [] then []
    else if tick.Inserted? then tick.todo[1..]
    else tick.todo
  }

  ghost predicate Distinct(todo: seq<Due>) {
    forall i, j :: 0 <= i < j < |todo| ==> todo[i].id != todo[j].id
  }

  /** The interval the schedule was made with, in seconds. */
  function Interval(s: State, id: nat): int {
    60 * if id in s.firstInterval then s.firstInterval[id] else 0
  }

  ghost predicate GapsOk(times: seq<int>, interval: int) {
    forall i :: 0 < i < |times| ==> times[i] >= times[i - 1] + interval
  }

  /** The ids in use were handed out. */
  ghost predicate Known(s: State, id: nat) {
    && (Times(s, id) != [] ==> id < s.nextSchedule && LastEnqueue(s, id) <= s.now)
    && (id in s.schedules ==> id < s.nextSchedule)
    && forall k :: 0 <= k < |Todo(s.tick)| && Todo(s.tick)[k].id == id ==> id < s.nextSchedule
  }

  /** Nothing can be due before the interval has passed. */
  ghost predicate Spaced(s: State, id: nat) {
    && GapsOk(Times(s, id), Interval(s, id))
    && (id in s.schedules ==>
          && 60 * s.schedules[id].interval == Interval(s, id)
          && (Times(s, id) != [] && id !in Unrecorded(s.tick) ==>
                s.schedules[id].nextRun.Some? && s.schedules[id].nextRun.value >= LastEnqueue(s, id) + Interval(s, id)))
    && (forall k :: 0 <= k < |Todo(s.tick)| && Todo(s.tick)[k].id == id ==>
          60 * Todo(s.tick)[k].schedule.interval == Interval(s, id))
    && forall k :: 0 <= k < |Pending(s.tick)| && Pending(s.tick)[k].id == id && Times(s, id) != [] ==>
          LastEnqueue(s, id) + Interval(s, id) <= s.now
  }

  ghost predicate SpacingOk(s: State, id: nat) {
    && TickOk(s) && Distinct(Todo(s.tick))
    && Known(s, id)
    && (id !in s.disturbed ==> Spaced(s, id))
  }

  /** Steps of workers and users that leave the scheduler's data alone. */
  lemma SameDataKeepsSpacing(s: State, t: State, id: nat)
    requires SpacingOk(s, id)
    requires t.tick == s.tick && t.schedules == s.schedules && t.nextSchedule == s.nextSchedule
    requires t.enqueued == s.enqueued && t.firstInterval == s.firstInterval && t.disturbed == s.disturbed
    requires t.now >= s.now
    ensures SpacingOk(t, id)
  {
    assert LastEnqueue(t, id) == LastEnqueue(s, id) || Times(s, id) == [];
  }

  lemma RemovalKeepsSpacing(s: State, t: State, id: nat)
    requires SpacingOk(s, id)
    requires t == s.(schedules := t.schedules, sites := t.sites, jobs := t.jobs)
    requires id in t.schedules ==> id in s.schedules && t.schedules[id] == s.schedules[id]
    ensures SpacingOk(t, id)
  {
  }

  lemma InsertKeepsSpacing(s: State, e: Event, id: nat)
    requires TickOk(s) && Enabled(s, e) && SpacingOk(s, id) && e.InsertSchedule?
    ensures SpacingOk(Step(s, e), id)
  {
    var t := Step(s, e);
    assert Times(t, id) == Times(s, id);
  }

  lemma UpdateKeepsSpacing(s: State, e: Event, id: nat)
    requires TickOk(s) && Enabled(s, e) && SpacingOk(s, id) && e.UpdateSchedule?
    ensures SpacingOk(Step(s, e), id)
  {
    var t := Step(s, e);
    assert Times(t, id) == Times(s, id);
    assert Interval(t, id) == Interval(s, id);
  }

  lemma AbortKeepsSpacing(s: State, e: Event, id: nat)
    requires TickOk(s) && Enabled(s, e) && SpacingOk(s, id) && (e.Crash? || e.TickFails?)
    ensures SpacingOk(Step(s, e), id)
  {
    var t := Step(s, e);
    assert Times(t, id) == Times(s, id);
    assert Interval(t, id) == Interval(s, id);
  }

  lemma ReadKeepsSpacing(s: State, e: Event, id: nat)
    requires TickOk(s) && Enabled(s, e) && SpacingOk(s, id) && e.ReadDue?
    ensures SpacingOk(Step(s, e), id)
  {
    var t := Step(s, e);
    assert Times(t, id) == Times(s, id);
    assert Interval(t, id) == Interval(s, id);
    assert Todo(t.tick) == e.due && Pending(t.tick) == e.due;
  }

  /** The tick goes on without having inserted anything. */
  ghost predicate MovesOn(s: State, t: State) {
    && t == s.(tick := t.tick)
    && !s.tick.Inserted? && !t.tick.Inserted?
    && |Todo(t.tick)| <= |Todo(s.tick)|
    && Todo(t.tick) == Todo(s.tick)[|Todo(s.tick)| - |Todo(t.tick)|..]
  }

  lemma AdvanceKeepsSpacing(s: State, t: State, id: nat)
    requires SpacingOk(s, id) && TickOk(t) && MovesOn(s, t)
    ensures SpacingOk(t, id)
  {
    TodoMovesOn(s, t);
    if id !in s.disturbed {
      AdvanceKeepsSpaced(s, t, id);
    }
  }

  lemma LookingKeepsSpacing(s: State, e: Event, id: nat)
    requires TickOk(s) && Enabled(s, e) && SpacingOk(s, id) && (e.CheckActive? || e.ResolveSite?)
    ensures SpacingOk(Step(s, e), id)
  {
    assert s.tick.todo == s.tick.todo[0..];
    AdvanceKeepsSpacing(s, Step(s, e), id);
  }

  lemma TodoMovesOn(s: State, t: State)
    requires MovesOn(s, t)
    ensures forall k :: 0 <= k < |Todo(t.tick)| ==> Todo(t.tick)[k] == Todo(s.tick)[k + (|Todo(s.tick)| - |Todo(t.tick)|)]
  {
  }

  lemma AdvanceKeepsSpaced(s: State, t: State, id: nat)
    requires Spaced(s, id) && MovesOn(s, t)
    ensures Spaced(t, id)
  {
    TodoMovesOn(s, t);
    PendingIsTodo(s);
    PendingIsTodo(t);
    assert Times(t, id) == Times(s, id) && Interval(t, id) == Interval(s, id);
  }

  lemma PendingIsTodo(s: State)
    requires !s.tick.Inserted?
    ensures Pending(s.tick) == Todo(s.tick) && Unrecorded(s.tick) == {}
  {
  }

  lemma InsertJobKeepsSpacing(s: State, e: Event, id: nat)
    requires TickOk(s) && Enabled(s, e) && SpacingOk(s, id) && e.InsertJob?
    ensures SpacingOk(Step(s, e), id)
  {
    var t := Step(s, e);
    var due := s.tick.todo[0];
    assert Interval(t, id) == Interval(s, id);
    if due.schedule.site in s.sites && id == due.id {
      var before, after := Times(s, id), Times(t, id);
      assert after == before + [s.now];
      assert Pending(s.tick)[0] == due;
      assert forall k :: 0 <= k < |Pending(t.tick)| ==> Pending(t.tick)[k] == s.tick.todo[k + 1];
    } else {
      assert Times(t, id) == Times(s, id);
      assert forall k :: 0 <= k < |Pending(t.tick)| ==>
               Pending(t.tick)[k] == Pending(s.tick)[if t.tick.Inserted? then k + 1 else k];
    }
  }

  lemma MarkKeepsSpacing(s: State, e: Event, id: nat)
    requires TickOk(s) && Enabled(s, e) && SpacingOk(s, id) && e.MarkScheduled?
    ensures SpacingOk(Step(s, e), id)
  {
    var t := Step(s, e);
    assert Times(t, id) == Times(s, id);
    assert Interval(t, id) == Interval(s, id);
    assert Pending(s.tick) == s.tick.todo[1..];
    assert Todo(t.tick) == s.tick.todo[1..];
  }

  lemma StepKeepsSpacing(s: State, e: Event, id: nat)
    requires TickOk(s) && Enabled(s, e) && SpacingOk(s, id)
    ensures SpacingOk(Step(s, e), id)
  {
    match e {
      case DeleteSite(_) => RemovalKeepsSpacing(s, Step(s, e), id);
      case DeleteSchedule(_) => RemovalKeepsSpacing(s, Step(s, e), id);
      case InsertSchedule(_, _, _) => InsertKeepsSpacing(s, e, id);
      case UpdateSchedule(_, _, _) => UpdateKeepsSpacing(s, e, id);
      case Crash => AbortKeepsSpacing(s, e, id);
      case TickFails => AbortKeepsSpacing(s, e, id);
      case ReadDue(_, _) => ReadKeepsSpacing(s, e, id);
      case CheckActive => LookingKeepsSpacing(s, e, id);
      case ResolveSite => LookingKeepsSpacing(s, e, id);
      case InsertJob => InsertJobKeepsSpacing(s, e, id);
      case MarkScheduled(_) => MarkKeepsSpacing(s, e, id);
      case _ => SameDataKeepsSpacing(s, Step(s, e), id);
    }
  }

  // ---------------------------------------------------------------------------------------
  // Every run
  // ---------------------------------------------------------------------------------------

  ghost predicate Good(s: State) {
    && WorkersOk(s) && ClaimsOk(s) && ProgressOk(s.jobs) && SchedulerOk(s)
    && forall id: nat :: SpacingOk(s, id)
  }

  lemma StepKeepsGood(s: State, e: Event)
    requires Good(s) && Enabled(s, e)
    ensures Good(Step(s, e))
  {
    StepKeepsWorkers(s, e);
    StepKeepsClaims(s, e);
    StepMovesJobs(s, e);
    MoveKeepsProgress(s.jobs, Step(s, e).jobs);
    StepKeepsScheduler(s, e);
    forall id
      ensures SpacingOk(Step(s, e), id)
    {
      StepKeepsSpacing(s, e, id);
    }
  }

  lemma InitialIsGood(workers: nat, now: int)
    ensures Good(Initial(workers, now))
  {
    var s := Initial(workers, now);
    forall id: nat
      ensures SpacingOk(s, id)
    {
      assert Times(s, id) == [] && Todo(s.tick) == [] && Pending(s.tick) == [];
    }
  }

  lemma {:induction false} RunKeepsGood(s: State, run: seq<Event>)
    requires Good(s) && After(s, run).Some?
    ensures Good(After(s, run).value)
  {
    if run != [] {
      var front := run[..|run| - 1];
      RunKeepsGood(s, front);
      StepKeepsGood(After(s, front).value, run[|run| - 1]);
    }
  }

  /** The states of the panel: all that is reached from an empty one by any run. */
  ghost predicate Reaches(workers: nat, start: int, run: seq<Event>, s: State) {
    After(Initial(workers, start), run) == Some(s)
  }

  lemma ReachedIsGood(workers: nat, start: int, run: seq<Event>, s: State)
    requires Reaches(workers, start, run, s)
    ensures Good(s)
  {
    InitialIsGood(workers, start);
    RunKeepsGood(Initial(workers, start), run);
  }

  /** The n-th claim is of the n-th job: claims follow the ids, no job is claimed twice, and
      every job that has left the queue was claimed. */
  lemma JobsAreClaimedInOrder(workers: nat, start: int, run: seq<Event>, s: State)
    requires Reaches(workers, start, run, s)
    ensures |s.claims| <= |s.jobs| && forall i :: 0 <= i < |s.claims| ==> s.claims[i] == i
    ensures forall k :: 0 <= k < |s.jobs| ==> (s.jobs[k].status != Queued <==> k in s.claims)
  {
    ReachedIsGood(workers, start, run, s);
    forall k | 0 <= k < |s.jobs|
      ensures k in s.claims <==> k < |s.claims|
    {
      assert k < |s.claims| ==> s.claims[k] == k;
      if k in s.claims {
        var i :| 0 <= i < |s.claims| && s.claims[i] == k;
      }
    }
  }

  /** While the panel runs, no two workers execute the same job, and what they execute is
      marked as running. */
  lemma WorkersShareNoJob(workers: nat, start: int, run: seq<Event>, s: State, v: nat, w: nat)
    requires Reaches(workers, start, run, s)
    requires v < w < |s.workers| && !s.workers[v].Idle? && !s.workers[w].Idle?
    ensures s.workers[v].job != s.workers[w].job
    ensures s.workers[v].job < |s.jobs| && s.jobs[s.workers[v].job].status == Running
  {
    ReachedIsGood(workers, start, run, s);
  }

  lemma ProgressIsFullForSucceeded(workers: nat, start: int, run: seq<Event>, s: State, i: nat)
    requires Reaches(workers, start, run, s) && i < |s.jobs|
    ensures s.jobs[i].progress <= 100 && (s.jobs[i].progress == 100 <==> s.jobs[i].status == Succeeded)
  {
    ReachedIsGood(workers, start, run, s);
  }

  /** Right after a boot nothing is running; what was interrupted failed and nothing else
      changed. */
  lemma NothingRunsAfterBoot(workers: nat, start: int, run: seq<Event>, s: State, t: State)
    requires Reaches(workers, start, run, s) && Enabled(s, Boot) && t == Step(s, Boot)
    ensures |t.jobs| == |s.jobs| && forall i :: 0 <= i < |t.jobs| ==> t.jobs[i].status != Running
    ensures forall i :: 0 <= i < |t.jobs| ==>
              if s.jobs[i].status == Running then t.jobs[i].status == Failed else t.jobs[i] == s.jobs[i]
    ensures forall w :: 0 <= w < |t.workers| ==> t.workers[w] == Idle
  {
    ReachedIsGood(workers, start, run, s);
  }

  ghost predicate SameOutcome(a: Job, b: Job) {
    b == a || b == a.(site := None)
  }

  lemma {:induction false} OutcomeStays(s: State, more: seq<Event>, t: State, i: nat)
    requires Good(s) && After(s, more) == Some(t)
    requires i < |s.jobs| && IsTerminal(s.jobs[i])
    ensures i < |t.jobs| && SameOutcome(s.jobs[i], t.jobs[i])
  {
    if more != [] {
      var mid := After(s, more[..|more| - 1]).value;
      OutcomeStays(s, more[..|more| - 1], mid, i);
      RunKeepsGood(s, more[..|more| - 1]);
      StepMovesJobs(mid, more[|more| - 1]);
      assert Moves(mid.jobs[i], t.jobs[i]);
    }
  }

  /** A finished job keeps its outcome: nothing but the deletion of its site touches the row. */
  lemma FinishedStaysFinished(workers: nat, start: int, run: seq<Event>, s: State, more: seq<Event>, t: State, i: nat)
    requires Reaches(workers, start, run, s) && After(s, more) == Some(t)
    requires i < |s.jobs| && IsTerminal(s.jobs[i])
    ensures i < |t.jobs| && SameOutcome(s.jobs[i], t.jobs[i])
  {
    ReachedIsGood(workers, start, run, s);
    OutcomeStays(s, more, t, i);
  }

  // ---------------------------------------------------------------------------------------
  // What a job says is what happened to it
  // ---------------------------------------------------------------------------------------

  /** How and when a job ended. `progress` is missing if the row keeps what it has. */
  datatype Ending = Ending(status: Status, progress: Option<nat>, failure: Option<string>, at: int)

  /** The end that an event puts to a job: the worker that executes it completes it, with success or
      with a failure; or gives up on it; or a boot finds it running. */
  ghost function EndingOf(s: State, e: Event, i: nat): Option<Ending> {
    match e
    case Complete(w, success, failure) =>
      if w < |s.workers| && s.workers[w] == Executing(i)
      then Some(if success then Ending(Succeeded, Some(100), None, s.now) else Ending(Failed, Some(0), failure, s.now))
      else None
    case Fallback(w, error, written) =>
      if w < |s.workers| && s.workers[w] == Erred(i) && written
      then Some(Ending(Failed, Some(0), Some(error), s.now)) else None
    case Boot =>
      if i < |s.jobs| && s.jobs[i].status == Running
      then Some(Ending(Failed, None, Some("panel restarted while the job was running"), s.now)) else None
    case _ => None
  }

  ghost predicate EndedAs(j: Job, o: Ending) {
    && j.status == o.status && j.failure == o.failure && j.finishedAt == Some(o.at)
    && (o.progress.Some? ==> j.progress == o.progress.value)
  }

  /** Neither of the jobs has ended, or both in the same way. */
  ghost predicate SameEnd(a: Job, b: Job) {
    && (IsTerminal(a) <==> IsTerminal(b)) && a.failure == b.failure && a.finishedAt == b.finishedAt
    && (IsTerminal(a) ==> a.status == b.status && a.progress == b.progress)
  }

  lemma StepEndsJob(s: State, e: Event, i: nat)
    requires Good(s) && Enabled(s, e) && i < |Step(s, e).jobs|
    ensures EndingOf(s, e, i).Some? ==>
              i < |s.jobs| && s.jobs[i].status == Running && EndedAs(Step(s, e).jobs[i], EndingOf(s, e, i).value)
    ensures EndingOf(s, e, i).None? ==>
              if i < |s.jobs| then SameEnd(s.jobs[i], Step(s, e).jobs[i]) else Step(s, e).jobs[i].status == Queued
  {
  }

  /** The end that the last event put to job `i` that put one to it. */
  ghost function LastEnding(s: State, run: seq<Event>, i: nat): Option<Ending> {
    if run == [] then None
    else
      var front := run[..|run| - 1];
      match After(s, front)
      case None => None
      case Some(mid) =>
        if EndingOf(mid, run[|run| - 1], i).Some? then EndingOf(mid, run[|run| - 1], i) else LastEnding(s, front, i)
  }

  lemma EndingIsOfAJob(s: State, e: Event, i: nat)
    requires WorkersOk(s)
    ensures EndingOf(s, e, i).Some? ==> i < |s.jobs|
  {
  }

  lemma {:induction false} EndedJobsExist(workers: nat, start: int, run: seq<Event>, s: State, i: nat)
    requires Reaches(workers, start, run, s)
    ensures LastEnding(Initial(workers, start), run, i).Some? ==> i < |s.jobs|
  {
    if run != [] {
      var front, e := run[..|run| - 1], run[|run| - 1];
      var mid := After(Initial(workers, start), front).value;
      EndedJobsExist(workers, start, front, mid, i);
      ReachedIsGood(workers, start, front, mid);
      EndingIsOfAJob(mid, e, i);
      StepMovesJobs(mid, e);
    }
  }

  /** In every run a job has succeeded or failed exactly if an event of the run ended it, and says
      just what that event did: with success of its worker, without, by a given-up run, or by a
      boot. */
  lemma {:induction false} JobsEndAsTheyWereEnded(workers: nat, start: int, run: seq<Event>, s: State, i: nat)
    requires Reaches(workers, start, run, s) && i < |s.jobs|
    ensures var ending := LastEnding(Initial(workers, start), run, i);
            && (s.jobs[i].status == Succeeded || s.jobs[i].status == Failed <==> ending.Some?)
            && (ending.Some? ==> EndedAs(s.jobs[i], ending.value))
  {
    if run != [] {
      var front, e := run[..|run| - 1], run[|run| - 1];
      var mid := After(Initial(workers, start), front).value;
      ReachedIsGood(workers, start, front, mid);
      StepEndsJob(mid, e, i);
      EndedJobsExist(workers, start, front, mid, i);
      if i < |mid.jobs| {
        JobsEndAsTheyWereEnded(workers, start, front, mid, i);
      }
    }
  }

  /** The progress that an event gives to a job: what its worker reports, or its end. */
  ghost function ProgressOf(s: State, e: Event, i: nat): Option<nat> {
    match e
    case Progress(w, index, steps, written) =>
      if w < |s.workers| && s.workers[w] == Executing(i) && written && steps > 0 then Some(index * 100 / steps) else None
    case _ => if EndingOf(s, e, i).Some? then EndingOf(s, e, i).value.progress else None
  }

  ghost function LastProgress(s: State, run: seq<Event>, i: nat): nat {
    if run == [] then 0
    else
      var front := run[..|run| - 1];
      match After(s, front)
      case None => 0
      case Some(mid) =>
        if ProgressOf(mid, run[|run| - 1], i).Some? then ProgressOf(mid, run[|run| - 1], i).value else LastProgress(s, front, i)
  }

  lemma StepSetsProgress(s: State, e: Event, i: nat)
    requires Good(s) && Enabled(s, e) && i < |Step(s, e).jobs|
    ensures ProgressOf(s, e, i).Some? ==> i < |s.jobs| && Step(s, e).jobs[i].progress == ProgressOf(s, e, i).value
    ensures ProgressOf(s, e, i).None? ==>
              Step(s, e).jobs[i].progress == if i < |s.jobs| then s.jobs[i].progress else 0
  {
  }

  lemma {:induction false} NothingBeforeTheJob(workers: nat, start: int, run: seq<Event>, s: State, i: nat)
    requires Reaches(workers, start, run, s) && i >= |s.jobs|
    ensures LastProgress(Initial(workers, start), run, i) == 0
  {
    if run != [] {
      var front, e := run[..|run| - 1], run[|run| - 1];
      var mid := After(Initial(workers, start), front).value;
      ReachedIsGood(workers, start, front, mid);
      StepMovesJobs(mid, e);
      EndingIsOfAJob(mid, e, i);
      NothingBeforeTheJob(workers, start, front, mid, i);
    }
  }

  /** In every run the progress of a job is the last that its worker wrote, 100 after a success, 0
      at first and after a failure that its worker saw. */
  lemma {:induction false} ProgressIsTheLastWritten(workers: nat, start: int, run: seq<Event>, s: State, i: nat)
    requires Reaches(workers, start, run, s) && i < |s.jobs|
    ensures s.jobs[i].progress == LastProgress(Initial(workers, start), run, i)
  {
    if run != [] {
      var front, e := run[..|run| - 1], run[|run| - 1];
      var mid := After(Initial(workers, start), front).value;
      ReachedIsGood(workers, start, front, mid);
      StepSetsProgress(mid, e, i);
      if i < |mid.jobs| {
        ProgressIsTheLastWritten(workers, start, front, mid, i);
      } else {
        NothingBeforeTheJob(workers, start, front, mid, i);
      }
    }
  }

  /** A worker that is free takes the oldest queued job, which runs from then on; it executes what
      it took, unless it could not read it back. */
  lemma ClaimTakesTheOldest(workers: nat, start: int, run: seq<Event>, s: State, w: nat, read: bool, t: State, i: nat)
    requires Reaches(workers, start, run, s) && Enabled(s, Claim(w, read)) && t == Step(s, Claim(w, read))
    requires i < |s.jobs| && s.jobs[i].status == Queued && forall k :: 0 <= k < i ==> s.jobs[k].status != Queued
    ensures t.workers == s.workers[w := if read then Executing(i) else Idle]
    ensures t.jobs == s.jobs[i := s.jobs[i].(status := Running, startedAt := Some(s.now))]
  {
  }

  /** In every state each site has at most one active backup that the scheduler made. */
  lemma OneScheduledBackup(workers: nat, start: int, run: seq<Event>, s: State, i: nat, j: nat, site: nat)
    requires Reaches(workers, start, run, s)
    requires i < |s.jobs| && j < |s.jobs|
    requires IsScheduledBackup(s.jobs[i], site) && IsScheduledBackup(s.jobs[j], site)
    ensures i == j
  {
    ReachedIsGood(workers, start, run, s);
  }

  /** The backups of a schedule whose interval was not changed and whose runs were all recorded
      are at least the interval apart: the k-th comes (k - 1) intervals after the first. */
  lemma ScheduledBackupsAreSpaced(workers: nat, start: int, run: seq<Event>, s: State, id: nat, i: nat, j: nat)
    requires Reaches(workers, start, run, s)
    requires id !in s.disturbed && i <= j < |Times(s, id)|
    ensures Times(s, id)[j] >= Times(s, id)[i] + (j - i) * Interval(s, id)
  {
    ReachedIsGood(workers, start, run, s);
    assert SpacingOk(s, id);
    GapsAddUp(Times(s, id), Interval(s, id), i, j);
  }

  /** The next run of a schedule is set to the time of recording plus the interval, so it is never
      further ahead than the interval. */
  ghost predicate NextRunOk(s: State, id: nat) {
    id in s.schedules && id !in s.disturbed && s.schedules[id].nextRun.Some? ==>
      s.schedules[id].nextRun.value <= s.now + 60 * s.schedules[id].interval
  }

  lemma StepKeepsNextRun(s: State, e: Event, id: nat)
    requires TickOk(s) && Enabled(s, e) && SpacingOk(s, id) && NextRunOk(s, id)
    ensures NextRunOk(Step(s, e), id)
  {
    if e.MarkScheduled? && id == s.tick.todo[0].id && id !in s.disturbed {
      assert Todo(s.tick)[0].id == id;
    }
  }

  lemma {:induction false} NextRunIsNear(workers: nat, start: int, run: seq<Event>, s: State, id: nat)
    requires Reaches(workers, start, run, s)
    requires id in s.schedules && id !in s.disturbed && s.schedules[id].nextRun.Some?
    ensures s.schedules[id].nextRun.value <= s.now + 60 * s.schedules[id].interval
  {
    RunKeepsNextRun(workers, start, run, s, id);
  }

  lemma {:induction false} RunKeepsNextRun(workers: nat, start: int, run: seq<Event>, s: State, id: nat)
    requires Reaches(workers, start, run, s)
    ensures NextRunOk(s, id)
  {
    if run != [] {
      var front := run[..|run| - 1];
      var mid := After(Initial(workers, start), front).value;
      RunKeepsNextRun(workers, start, front, mid, id);
      ReachedIsGood(workers, start, front, mid);
      assert SpacingOk(mid, id);
      StepKeepsNextRun(mid, run[|run| - 1], id);
    }
  }

  lemma {:induction false} GapsAddUp(times: seq<int>, interval: int, i: nat, j: nat)
    requires GapsOk(times, interval) && i <= j < |times|
    ensures times[j] >= times[i] + (j - i) * interval
    decreases j - i
  {
    if i < j {
      GapsAddUp(times, interval, i, j - 1);
      assert (j - i) * interval == (j - 1 - i) * interval + interval;
    }
  }
}
