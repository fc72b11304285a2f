/** One tick of the scheduler that nothing interrupts, and its place among the runs of the
    panel. */
module SchedulerTick {
  import opened Text
  import opened Jobs
  import opened Schedules
  import opened Panel
  import opened PanelSafety

  datatype Tables = Tables(jobs: seq<Job>, schedules: Rows)

  /** What the loop does for one schedule of the list. */
  function Handled(t: Tables, sites: set<nat>, now: int, due: Due): Tables {
    if AnyActive(t.jobs, due.schedule.site, BackupCreate) || due.schedule.site !in sites then t
    else Tables(t.jobs + [NewJob(Some(due.schedule.site), BackupCreate, Scheduler)],
                Marked(t.schedules, due.id, now + 60 * due.schedule.interval))
  }

  function HandledAll(t: Tables, sites: set<nat>, now: int, due: seq<Due>): Tables
    decreases |due|
  {
    if due == [] then t else HandledAll(Handled(t, sites, now, due[0]), sites, now, due[1..])
  }

  method RunTick(jobs: JobsTable, schedules: SchedulesTable, sites: set<nat>, now: int) returns (due: seq<Due>)
    requires schedules.Valid()
    modifies jobs, schedules
    ensures schedules.Valid()
    ensures IsDueList(old(schedules.rows), now, due)
    ensures Tables(jobs.rows, schedules.rows)
         == HandledAll(Tables(old(jobs.rows), old(schedules.rows)), sites, now, due)
  {
    due := schedules.DueRows(now);
    ghost var all := HandledAll(Tables(jobs.rows, schedules.rows), sites, now, due);
    assert due[0..] == due;
    for i := 0 to |due|
      invariant schedules.Valid()
      invariant HandledAll(Tables(jobs.rows, schedules.rows), sites, now, due[i..]) == all
    {
      var schedule := due[i].schedule;
      DropTwice(due, i, 1);
      var active := jobs.HasActive(schedule.site, BackupCreate);
      if active {
        continue;
      }
      if schedule.site !in sites {
        continue;
      }
      var id := jobs.Enqueue(Some(schedule.site), BackupCreate, Scheduler);
      ghost var before := schedules.rows;
      schedules.MarkScheduled(due[i].id, now + 60 * schedule.interval);
      assert schedules.rows == Marked(before, due[i].id, now + 60 * schedule.interval);
    }
  }

  // ---------------------------------------------------------------------------------------
  // The tick as a run of the panel
  // ---------------------------------------------------------------------------------------

  function TablesOf(s: State): Tables {
    Tables(s.jobs, s.schedules)
  }

  /** The scheduler is at the head of its loop with `due` still to do. */
  ghost predicate AtLoop(s: State, due: seq<Due>) {
    s.up && s.tick == if due == [] then Asleep else Listed(due)
  }

  lemma AfterOne(s: State, e: Event)
    requires TickOk(s) && Enabled(s, e)
    ensures After(s, [e]) == Some(Step(s, e))
  {
    assert [e][..0] == [];
    assert After(s, []) == Some(s);
  }

  lemma {:induction false} AfterConcat(s: State, a: seq<Event>, b: seq<Event>)
    requires After(s, a).Some?
    ensures After(s, a + b) == After(After(s, a).value, b)
  {
    if b == [] {
      assert a + b == a;
    } else {
      AfterConcat(s, a, b[..|b| - 1]);
      assert (a + b)[..|a + b| - 1] == a + b[..|b| - 1];
    }
  }

  lemma AfterMore(s: State, run: seq<Event>, e: Event)
    requires After(s, run).Some? && TickOk(After(s, run).value) && Enabled(After(s, run).value, e)
    ensures After(s, run + [e]) == Some(Step(After(s, run).value, e))
  {
    AfterConcat(s, run, [e]);
    AfterOne(After(s, run).value, e);
  }

  lemma OneScheduleIsARun(s: State, due: seq<Due>) returns (run: seq<Event>, t: State)
    requires due != [] && AtLoop(s, due)
    ensures After(s, run) == Some(t) && AtLoop(t, due[1..])
    ensures TablesOf(t) == Handled(TablesOf(s), s.sites, s.now, due[0])
    ensures t.now == s.now && t.sites == s.sites
  {
    AfterOne(s, CheckActive);
    run, t := [CheckActive], Step(s, CheckActive);
    if t.tick.NoneActive? {
      AfterMore(s, run, ResolveSite);
      run, t := run + [ResolveSite], Step(t, ResolveSite);
      if t.tick.SiteFound? {
        AfterMore(s, run, InsertJob);
        run, t := run + [InsertJob], Step(t, InsertJob);
        AfterMore(s, run, MarkScheduled(s.now));
        run, t := run + [MarkScheduled(s.now)], Step(t, MarkScheduled(s.now));
      }
    }
  }

  lemma {:induction false} LoopIsARun(s: State, due: seq<Due>) returns (run: seq<Event>, t: State)
    requires AtLoop(s, due)
    ensures After(s, run) == Some(t) && AtLoop(t, [])
    ensures TablesOf(t) == HandledAll(TablesOf(s), s.sites, s.now, due)
    decreases |due|
  {
    if due == [] {
      run, t := [], s;
    } else {
      var first, mid := OneScheduleIsARun(s, due);
      var rest, end := LoopIsARun(mid, due[1..]);
      AfterConcat(s, first, rest);
      run, t := first + rest, end;
    }
  }

  /** The uninterrupted tick is one of the scheduler's runs, so it keeps whatever runs keep. */
  lemma TickIsARun(s: State, due: seq<Due>) returns (run: seq<Event>, t: State)
    requires s.up && s.tick == Asleep && IsDueList(s.schedules, s.now, due)
    ensures After(s, run) == Some(t) && t.tick == Asleep
    ensures TablesOf(t) == HandledAll(TablesOf(s), s.sites, s.now, due)
  {
    var read := ReadDue(s.now, due);
    AfterOne(s, read);
    var rest, end := LoopIsARun(Step(s, read), due);
    AfterConcat(s, [read], rest);
    run, t := [read] + rest, end;
  }

  // ---------------------------------------------------------------------------------------
  // What a tick achieves
  // ---------------------------------------------------------------------------------------

  lemma {:induction false} HandledKeepsJobs(t: Tables, sites: set<nat>, now: int, due: seq<Due>)
    ensures t.jobs <= HandledAll(t, sites, now, due).jobs
    decreases |due|
  {
    if due != [] {
      HandledKeepsJobs(Handled(t, sites, now, due[0]), sites, now, due[1..]);
    }
  }

  /** Afterwards every due site that still exists has an active backup. */
  lemma {:induction false} TickServesAllDue(t: Tables, sites: set<nat>, now: int, due: seq<Due>, k: nat)
    requires k < |due| && due[k].schedule.site in sites
    ensures AnyActive(HandledAll(t, sites, now, due).jobs, due[k].schedule.site, BackupCreate)
    decreases |due|
  {
    var next := Handled(t, sites, now, due[0]);
    if k > 0 {
      TickServesAllDue(next, sites, now, due[1..], k - 1);
    } else {
      var site := due[0].schedule.site;
      if !AnyActive(t.jobs, site, BackupCreate) {
        assert IsActiveFor(next.jobs[|t.jobs|], site, BackupCreate);
      }
      HandledKeepsJobs(next, sites, now, due[1..]);
      var i :| 0 <= i < |next.jobs| && IsActiveFor(next.jobs[i], site, BackupCreate);
      assert HandledAll(t, sites, now, due).jobs[i] == next.jobs[i];
    }
  }

  ghost predicate IsWaitingBackup(j: Job, site: nat) {
    j.site == Some(site) && j.kind == BackupCreate && (j.status == Queued || j.status == Running)
  }

  /** A tick serves every enabled schedule that has no next run, as a new one has none, or whose
      next run has come: its site, if it exists, has a queued or running backup afterwards. */
  lemma DueScheduleIsServed(t: Tables, sites: set<nat>, now: int, due: seq<Due>, id: nat)
    requires IsDueList(t.schedules, now, due) && id in t.schedules && t.schedules[id].enabled
    requires t.schedules[id].nextRun == None || t.schedules[id].nextRun.value <= now
    requires t.schedules[id].site in sites
    ensures exists i :: 0 <= i < |HandledAll(t, sites, now, due).jobs|
                        && IsWaitingBackup(HandledAll(t, sites, now, due).jobs[i], t.schedules[id].site)
  {
    assert IsDue(t.schedules[id], now);
    var k :| 0 <= k < |due| && due[k].id == id;
    TickServesAllDue(t, sites, now, due, k);
    var jobs := HandledAll(t, sites, now, due).jobs;
    var i :| 0 <= i < |jobs| && IsActiveFor(jobs[i], t.schedules[id].site, BackupCreate);
    assert IsWaitingBackup(jobs[i], t.schedules[id].site);
  }

  /** The job is the backup that one of the schedules asks for. */
  ghost predicate IsBackupOf(j: Job, due: seq<Due>) {
    exists k :: 0 <= k < |due| && j == Job(Some(due[k].schedule.site), BackupCreate, Scheduler, Queued, 0, None, None, None)
  }

  /** And it makes no job but for such schedules: disabled ones, and ones whose next run is still to
      come, get none. */
  lemma {:induction false} OnlyDueAreServed(t: Tables, sites: set<nat>, now: int, due: seq<Due>, i: nat)
    requires |t.jobs| <= i < |HandledAll(t, sites, now, due).jobs|
    ensures IsBackupOf(HandledAll(t, sites, now, due).jobs[i], due)
    decreases |due|
  {
    var next := Handled(t, sites, now, due[0]);
    HandledKeepsJobs(next, sites, now, due[1..]);
    var j := HandledAll(t, sites, now, due).jobs[i];
    if i >= |next.jobs| {
      OnlyDueAreServed(next, sites, now, due[1..], i);
      var k :| 0 <= k < |due[1..]| && j == Job(Some(due[1..][k].schedule.site), BackupCreate, Scheduler, Queued, 0, None, None, None);
      assert due[1..][k] == due[k + 1];
    } else {
      assert i == |t.jobs| && j == next.jobs[i] == NewJob(Some(due[0].schedule.site), BackupCreate, Scheduler);
      assert IsBackupOf(j, due);
    }
  }

  /** A schedule that is served, the only one of its site, is due again after its interval. */
  lemma {:induction false} ServedIsDueAfterInterval(t: Tables, sites: set<nat>, now: int, due: seq<Due>, k: nat)
    requires k < |due| && due[k].id in t.schedules && due[k].schedule.site in sites
    requires !AnyActive(t.jobs, due[k].schedule.site, BackupCreate)
    requires forall i :: 0 <= i < |due| && i != k ==> due[i].id != due[k].id && due[i].schedule.site != due[k].schedule.site
    ensures var after := HandledAll(t, sites, now, due).schedules;
            due[k].id in after && after[due[k].id] == t.schedules[due[k].id].(nextRun := Some(now + 60 * due[k].schedule.interval))
    decreases |due|
  {
    var next := Handled(t, sites, now, due[0]);
    if k == 0 {
      OthersKeepSchedule(next, sites, now, due[1..], due[0].id);
    } else {
      assert !AnyActive(next.jobs, due[k].schedule.site, BackupCreate) by {
        assert forall i :: 0 <= i < |next.jobs| && IsActiveFor(next.jobs[i], due[k].schedule.site, BackupCreate) ==> i < |t.jobs|;
      }
      ServedIsDueAfterInterval(next, sites, now, due[1..], k - 1);
    }
  }

  lemma {:induction false} OthersKeepSchedule(t: Tables, sites: set<nat>, now: int, due: seq<Due>, id: nat)
    requires id in t.schedules && forall i :: 0 <= i < |due| ==> due[i].id != id
    ensures var after := HandledAll(t, sites, now, due).schedules; id in after && after[id] == t.schedules[id]
    decreases |due|
  {
    if due != [] {
      OthersKeepSchedule(Handled(t, sites, now, due[0]), sites, now, due[1..], id);
    }
  }

  /** As long as those backups are active, another tick over the same schedules does nothing. */
  lemma {:induction false} NothingToDo(t: Tables, sites: set<nat>, now: int, due: seq<Due>)
    requires forall k :: 0 <= k < |due| ==> due[k].schedule.site !in sites || AnyActive(t.jobs, due[k].schedule.site, BackupCreate)
    ensures HandledAll(t, sites, now, due) == t
    decreases |due|
  {
    if due != [] {
      NothingToDo(t, sites, now, due[1..]);
    }
  }

  lemma TickIsIdempotent(t: Tables, sites: set<nat>, now: int, due: seq<Due>, later: int)
    ensures var u := HandledAll(t, sites, now, due); HandledAll(u, sites, later, due) == u
  {
    var u := HandledAll(t, sites, now, due);
    forall k | 0 <= k < |due|
      ensures due[k].schedule.site !in sites || AnyActive(u.jobs, due[k].schedule.site, BackupCreate)
    {
      if due[k].schedule.site in sites {
        TickServesAllDue(t, sites, now, due, k);
      }
    }
    NothingToDo(u, sites, later, due);
  }
}
