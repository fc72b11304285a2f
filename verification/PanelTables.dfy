/** What the panel's tables say after any run: each field of a row is what the last event that
    concerns it wrote, and each reference to a site leads to a site. */
module PanelTables {
  import opened Text
  import opened Jobs
  import opened Schedules
  import opened Panel
  import opened PanelSafety

  // ---------------------------------------------------------------------------------------
  // The clock, and whether the panel is up
  // ---------------------------------------------------------------------------------------

  function Waited(run: seq<Event>): nat {
    if run == [] then 0
    else Waited(run[..|run| - 1]) + if run[|run| - 1].Wait? then run[|run| - 1].seconds else 0
  }

  /** The last boot is not followed by a crash. */
  predicate IsUp(run: seq<Event>) {
    run != [] && match run[|run| - 1]
                 case Boot => true
                 case Crash => false
                 case _ => IsUp(run[..|run| - 1])
  }

  lemma StepKeepsTime(s: State, e: Event)
    requires TickOk(s) && Enabled(s, e)
    ensures Step(s, e).now == s.now + if e.Wait? then e.seconds else 0
    ensures Step(s, e).up == (e.Boot? || (s.up && !e.Crash?))
    ensures |Step(s, e).workers| == |s.workers|
  {
  }

  lemma {:induction false} UpSinceTheLastBoot(workers: nat, start: int, run: seq<Event>, s: State)
    requires Reaches(workers, start, run, s)
    ensures s.up <==> IsUp(run)
    ensures s.now == start + Waited(run) && |s.workers| == workers
  {
    if run != [] {
      var front := run[..|run| - 1];
      var mid := After(Initial(workers, start), front).value;
      UpSinceTheLastBoot(workers, start, front, mid);
      StepKeepsTime(mid, run[|run| - 1]);
    }
  }

  /** While the panel is down nothing happens but that time goes on, until it is booted. */
  lemma OnlyABootStartsIt(workers: nat, start: int, run: seq<Event>, s: State, e: Event)
    requires Reaches(workers, start, run, s) && !IsUp(run) && TickOk(s) && Enabled(s, e)
    ensures e.Wait? || e.Boot?
  {
    UpSinceTheLastBoot(workers, start, run, s);
  }

  // ---------------------------------------------------------------------------------------
  // Sites
  // ---------------------------------------------------------------------------------------

  /** Whether an event makes or deletes a site. */
  function Existence(e: Event, site: nat): Option<bool> {
    match e
    case CreateSite(k) => if k == site then Some(true) else None
    case DeleteSite(k) => if k == site then Some(false) else None
    case _ => None
  }

  function Exists(run: seq<Event>, site: nat): bool {
    if run == [] then false
    else
      match Existence(run[|run| - 1], site)
      case Some(made) => made
      case None => Exists(run[..|run| - 1], site)
  }

  lemma StepMakesSites(s: State, e: Event, site: nat)
    requires TickOk(s) && Enabled(s, e)
    ensures site in Step(s, e).sites <==> if Existence(e, site).Some? then Existence(e, site).value else site in s.sites
  {
  }

  /** The sites are those that were made and not deleted since. */
  lemma {:induction false} SitesAreThoseMade(workers: nat, start: int, run: seq<Event>, s: State, site: nat)
    requires Reaches(workers, start, run, s)
    ensures site in s.sites <==> Exists(run, site)
  {
    if run != [] {
      var front := run[..|run| - 1];
      var mid := After(Initial(workers, start), front).value;
      SitesAreThoseMade(workers, start, front, mid, site);
      StepMakesSites(mid, run[|run| - 1], site);
    }
  }

  /** Every site that a schedule or a job names exists. */
  ghost predicate ScheduleRefersOk(s: State, id: nat) {
    id in s.schedules ==> s.schedules[id].site in s.sites
  }

  ghost predicate JobRefersOk(s: State, i: nat) {
    i < |s.jobs| && s.jobs[i].site.Some? ==> s.jobs[i].site.value in s.sites
  }

  lemma StepKeepsScheduleReference(s: State, e: Event, id: nat)
    requires TickOk(s) && Enabled(s, e) && ScheduleRefersOk(s, id)
    ensures ScheduleRefersOk(Step(s, e), id)
  {
  }

  lemma StepKeepsJobReference(s: State, e: Event, i: nat)
    requires TickOk(s) && Enabled(s, e) && WorkersOk(s) && JobRefersOk(s, i)
    ensures JobRefersOk(Step(s, e), i)
  {
    var t := Step(s, e);
    StepMovesJobs(s, e);
    if i < |s.jobs| {
      assert Moves(s.jobs[i], t.jobs[i]);
      if t.jobs[i].site.Some? {
        assert s.jobs[i].site == t.jobs[i].site;
      }
    }
  }

  lemma ReferencesResolve(workers: nat, start: int, run: seq<Event>, s: State)
    requires Reaches(workers, start, run, s)
    ensures forall id :: id in s.schedules ==> s.schedules[id].site in s.sites
    ensures forall i :: 0 <= i < |s.jobs| && s.jobs[i].site.Some? ==> s.jobs[i].site.value in s.sites
  {
    forall id | id in s.schedules
      ensures s.schedules[id].site in s.sites
    {
      ScheduleReferenceResolves(workers, start, run, s, id);
    }
    forall i | 0 <= i < |s.jobs| && s.jobs[i].site.Some?
      ensures s.jobs[i].site.value in s.sites
    {
      JobReferenceResolves(workers, start, run, s, i);
    }
  }

  lemma {:induction false} ScheduleReferenceResolves(workers: nat, start: int, run: seq<Event>, s: State, id: nat)
    requires Reaches(workers, start, run, s)
    ensures ScheduleRefersOk(s, id)
  {
    if run != [] {
      var front := run[..|run| - 1];
      var mid := After(Initial(workers, start), front).value;
      ScheduleReferenceResolves(workers, start, front, mid, id);
      StepKeepsScheduleReference(mid, run[|run| - 1], id);
    }
  }

  lemma {:induction false} JobReferenceResolves(workers: nat, start: int, run: seq<Event>, s: State, i: nat)
    requires Reaches(workers, start, run, s)
    ensures JobRefersOk(s, i)
  {
    if run != [] {
      var front := run[..|run| - 1];
      var mid := After(Initial(workers, start), front).value;
      JobReferenceResolves(workers, start, front, mid, i);
      ReachedIsGood(workers, start, front, mid);
      StepKeepsJobReference(mid, run[|run| - 1], i);
    }
  }

  /** A deleted site takes its schedules with it and leaves its jobs, without their site; what
      belongs to other sites stays. */
  lemma DeletedSiteIsGone(s: State, site: nat, t: State)
    requires TickOk(s) && Enabled(s, DeleteSite(site)) && t == Step(s, DeleteSite(site))
    ensures forall k :: k in t.sites <==> k in s.sites && k != site
    ensures forall id :: id in t.schedules <==> id in s.schedules && s.schedules[id].site != site
    ensures forall id :: id in t.schedules ==> t.schedules[id] == s.schedules[id]
    ensures |t.jobs| == |s.jobs|
    ensures forall i :: 0 <= i < |t.jobs| ==>
              t.jobs[i] == if s.jobs[i].site == Some(site) then s.jobs[i].(site := None) else s.jobs[i]
    ensures t == s.(sites := t.sites, schedules := t.schedules, jobs := t.jobs)
  {
  }

  // ---------------------------------------------------------------------------------------
  // Jobs
  // ---------------------------------------------------------------------------------------

  datatype Request = Request(site: Option<nat>, kind: Kind, actor: Actor)

  /** The row that an event adds to the jobs. */
  ghost function RequestOf(s: State, e: Event): Option<Request> {
    match e
    case Enqueue(site, kind, name) => Some(Request(site, kind, Somebody(name)))
    case InsertJob =>
      if s.tick.SiteFound? && s.tick.todo != [] && s.tick.todo[0].schedule.site in s.sites
      then Some(Request(Some(s.tick.todo[0].schedule.site), BackupCreate, Scheduler)) else None
    case _ => None
  }

  /** What a run asked for, in order. */
  ghost function Requests(s: State, run: seq<Event>): seq<Request> {
    if run == [] then []
    else
      var front := run[..|run| - 1];
      match After(s, front)
      case None => []
      case Some(mid) =>
        Requests(s, front) + if RequestOf(mid, run[|run| - 1]).Some? then [RequestOf(mid, run[|run| - 1]).value] else []
  }

  lemma StepAddsRequest(s: State, e: Event)
    requires TickOk(s) && Enabled(s, e) && WorkersOk(s)
    ensures |Step(s, e).jobs| == |s.jobs| + if RequestOf(s, e).Some? then 1 else 0
    ensures RequestOf(s, e).Some? ==>
              Step(s, e).jobs == s.jobs + [Job(RequestOf(s, e).value.site, RequestOf(s, e).value.kind,
                                               RequestOf(s, e).value.actor, Queued, 0, None, None, None)]
  {
  }

  ghost predicate AnswersRequest(j: Job, r: Request) {
    j.kind == r.kind && j.actor == r.actor && (j.site == r.site || j.site == None)
  }

  ghost predicate AnswerRequests(jobs: seq<Job>, requests: seq<Request>) {
    |jobs| == |requests| && forall i :: 0 <= i < |requests| ==> AnswersRequest(jobs[i], requests[i])
  }

  lemma StepAnswersRequests(s: State, e: Event, requests: seq<Request>)
    requires TickOk(s) && Enabled(s, e) && WorkersOk(s) && AnswerRequests(s.jobs, requests)
    ensures AnswerRequests(Step(s, e).jobs,
                           requests + if RequestOf(s, e).Some? then [RequestOf(s, e).value] else [])
  {
    StepAddsRequest(s, e);
    if RequestOf(s, e).None? {
      StepMovesJobs(s, e);
      MovesKeepAnswers(s.jobs, Step(s, e).jobs, requests);
    }
  }

  lemma MovesKeepAnswers(before: seq<Job>, after: seq<Job>, requests: seq<Request>)
    requires JobsMove(before, after) && |after| == |before| && AnswerRequests(before, requests)
    ensures AnswerRequests(after, requests)
  {
    forall i | 0 <= i < |requests|
      ensures AnswersRequest(after[i], requests[i])
    {
      assert Moves(before[i], after[i]) && AnswersRequest(before[i], requests[i]);
    }
  }

  /** The jobs are what was asked for, one for each request in their order, whatever became of
      them; only the site may be gone. */
  lemma {:induction false} JobsAreTheRequests(workers: nat, start: int, run: seq<Event>, s: State)
    requires Reaches(workers, start, run, s)
    ensures AnswerRequests(s.jobs, Requests(Initial(workers, start), run))
  {
    if run != [] {
      var front, e := run[..|run| - 1], run[|run| - 1];
      var mid := After(Initial(workers, start), front).value;
      JobsAreTheRequests(workers, start, front, mid);
      ReachedIsGood(workers, start, front, mid);
      StepAnswersRequests(mid, e, Requests(Initial(workers, start), front));
    }
  }

  /** When an event starts a job: a claim, if no older job is queued. */
  ghost function StartOf(s: State, e: Event, i: nat): Option<int> {
    if e.Claim? && i < |s.jobs| && s.jobs[i].status == Queued && (forall k :: 0 <= k < i ==> s.jobs[k].status != Queued)
    then Some(s.now) else None
  }

  ghost function LastStart(s: State, run: seq<Event>, i: nat): Option<int> {
    if run == [] then None
    else
      var front := run[..|run| - 1];
      match After(s, front)
      case None => None
      case Some(mid) =>
        if StartOf(mid, run[|run| - 1], i).Some? then StartOf(mid, run[|run| - 1], i) else LastStart(s, front, i)
  }

  lemma StepStartsJob(s: State, e: Event, i: nat)
    requires TickOk(s) && Enabled(s, e) && WorkersOk(s) && i < |Step(s, e).jobs|
    ensures Step(s, e).jobs[i].startedAt
         == if StartOf(s, e, i).Some? then StartOf(s, e, i) else if i < |s.jobs| then s.jobs[i].startedAt else None
  {
  }

  lemma {:induction false} NoStartBeforeTheJob(workers: nat, start: int, run: seq<Event>, s: State, i: nat)
    requires Reaches(workers, start, run, s) && i >= |s.jobs|
    ensures LastStart(Initial(workers, start), run, i) == None
  {
    if run != [] {
      var front := run[..|run| - 1];
      var mid := After(Initial(workers, start), front).value;
      ReachedIsGood(workers, start, front, mid);
      StepMovesJobs(mid, run[|run| - 1]);
      NoStartBeforeTheJob(workers, start, front, mid, i);
    }
  }

  /** A job says when it was claimed, and claims are all that starts one. */
  lemma {:induction false} JobsStartWhenClaimed(workers: nat, start: int, run: seq<Event>, s: State, i: nat)
    requires Reaches(workers, start, run, s) && i < |s.jobs|
    ensures s.jobs[i].startedAt == LastStart(Initial(workers, start), run, i)
  {
    if run != [] {
      var front := run[..|run| - 1];
      var mid := After(Initial(workers, start), front).value;
      ReachedIsGood(workers, start, front, mid);
      StepStartsJob(mid, run[|run| - 1], i);
      if i < |mid.jobs| {
        JobsStartWhenClaimed(workers, start, front, mid, i);
      } else {
        NoStartBeforeTheJob(workers, start, front, mid, i);
      }
    }
  }

  // ---------------------------------------------------------------------------------------
  // Workers
  // ---------------------------------------------------------------------------------------

  /** What an event leaves worker `w` at, if it concerns it: a claim at the job that it took and read
      back; a failed run, or progress that was not written, at giving the job up; the end of a
      job, and a crash, at nothing. */
  ghost function LeftAt(s: State, e: Event, w: nat): Option<Worker> {
    match e
    case Claim(v, read) =>
      if v == w && OldestQueued(s.jobs).Some? && read then Some(Executing(OldestQueued(s.jobs).value)) else None
    case Progress(v, _, steps, written) =>
      if v == w && !(written && steps > 0) && v < |s.workers| && s.workers[v].Executing?
      then Some(Erred(s.workers[v].job)) else None
    case RunFails(v) =>
      if v == w && v < |s.workers| && s.workers[v].Executing? then Some(Erred(s.workers[v].job)) else None
    case Complete(v, _, _) => if v == w then Some(Idle) else None
    case Fallback(v, _, _) => if v == w then Some(Idle) else None
    case Crash => Some(Idle)
    case _ => None
  }

  ghost function LastLeftAt(s: State, run: seq<Event>, w: nat): Worker {
    if run == [] then Idle
    else
      var front := run[..|run| - 1];
      match After(s, front)
      case None => Idle
      case Some(mid) =>
        if LeftAt(mid, run[|run| - 1], w).Some? then LeftAt(mid, run[|run| - 1], w).value else LastLeftAt(s, front, w)
  }

  lemma StepLeavesWorker(s: State, e: Event, w: nat)
    requires TickOk(s) && Enabled(s, e) && w < |s.workers|
    ensures |Step(s, e).workers| == |s.workers|
    ensures Step(s, e).workers[w] == if LeftAt(s, e, w).Some? then LeftAt(s, e, w).value else s.workers[w]
  {
  }

  /** A worker is at the job that it took last until that job ends or it fails at it. */
  lemma {:induction false} WorkersAreWhereTheyWereLeft(workers: nat, start: int, run: seq<Event>, s: State, w: nat)
    requires Reaches(workers, start, run, s) && w < workers
    ensures w < |s.workers| && s.workers[w] == LastLeftAt(Initial(workers, start), run, w)
  {
    if run != [] {
      var front := run[..|run| - 1];
      var mid := After(Initial(workers, start), front).value;
      WorkersAreWhereTheyWereLeft(workers, start, front, mid, w);
      StepLeavesWorker(mid, run[|run| - 1], w);
    }
  }

  // ---------------------------------------------------------------------------------------
  // Schedules
  // ---------------------------------------------------------------------------------------

  /** What an event writes to a schedule: a new row has no next run; a user's change leaves it as it
      is; the scheduler puts it one interval, as it read it, behind the time of recording. */
  ghost function Written(s: State, e: Event, id: nat, row: Option<Schedule>): Option<Schedule> {
    match e
    case InsertSchedule(site, interval, enabled) =>
      if id == s.nextSchedule then Some(Schedule(site, interval, enabled, None)) else row
    case UpdateSchedule(k, interval, enabled) =>
      if k == id && row.Some? then Some(Schedule(row.value.site, interval, enabled, row.value.nextRun)) else row
    case DeleteSchedule(k) => if k == id then None else row
    case DeleteSite(site) => if row.Some? && row.value.site == site then None else row
    case MarkScheduled(at) =>
      if s.tick.Inserted? && s.tick.todo != [] && s.tick.todo[0].id == id && row.Some?
      then Some(row.value.(nextRun := Some(at + 60 * s.tick.todo[0].schedule.interval))) else row
    case _ => row
  }

  ghost function LastWritten(s: State, run: seq<Event>, id: nat): Option<Schedule> {
    if run == [] then None
    else
      var front := run[..|run| - 1];
      match After(s, front)
      case None => None
      case Some(mid) => Written(mid, run[|run| - 1], id, LastWritten(s, front, id))
  }

  ghost function RowOf(rows: Rows, id: nat): Option<Schedule> {
    if id in rows then Some(rows[id]) else None
  }

  lemma StepWritesSchedule(s: State, e: Event, id: nat)
    requires TickOk(s) && Enabled(s, e)
    ensures RowOf(Step(s, e).schedules, id) == Written(s, e, id, RowOf(s.schedules, id))
  {
  }

  lemma {:induction false} SchedulesAreAsLastWritten(workers: nat, start: int, run: seq<Event>, s: State, id: nat)
    requires Reaches(workers, start, run, s)
    ensures RowOf(s.schedules, id) == LastWritten(Initial(workers, start), run, id)
  {
    if run != [] {
      var front := run[..|run| - 1];
      var mid := After(Initial(workers, start), front).value;
      SchedulesAreAsLastWritten(workers, start, front, mid, id);
      ReachedIsGood(workers, start, front, mid);
      StepWritesSchedule(mid, run[|run| - 1], id);
    }
  }

  // ---------------------------------------------------------------------------------------
  // The scheduler
  // ---------------------------------------------------------------------------------------

  /** A list of due schedules was read and neither a failure nor a crash came since. */
  predicate IsTicking(run: seq<Event>) {
    run != [] && match run[|run| - 1]
                 case ReadDue(_, _) => true
                 case TickFails => false
                 case Crash => false
                 case _ => IsTicking(run[..|run| - 1])
  }

  lemma StepKeepsTicking(s: State, e: Event)
    requires TickOk(s) && Enabled(s, e)
    ensures Step(s, e).tick != Asleep ==> e.ReadDue? || (s.tick != Asleep && !e.TickFails? && !e.Crash?)
  {
  }

  lemma {:induction false} FailuresEndTheTick(workers: nat, start: int, run: seq<Event>, s: State)
    requires Reaches(workers, start, run, s)
    ensures s.tick != Asleep ==> IsTicking(run)
  {
    if run != [] {
      var front := run[..|run| - 1];
      var mid := After(Initial(workers, start), front).value;
      FailuresEndTheTick(workers, start, front, mid);
      StepKeepsTicking(mid, run[|run| - 1]);
    }
  }

  /** The schedule for which the scheduler has inserted a job that it has not recorded. */
  ghost predicate IsUnrecorded(s: State, id: nat) {
    s.tick.Inserted? && s.tick.todo != [] && s.tick.todo[0].id == id
  }

  /** The event gives schedule `id` another interval, or keeps a run of it from being recorded. */
  ghost predicate Disturbs(s: State, e: Event, id: nat) {
    match e
    case UpdateSchedule(k, interval, _) => k == id && id in s.schedules && interval != s.schedules[id].interval
    case TickFails => IsUnrecorded(s, id)
    case Crash => IsUnrecorded(s, id)
    case _ => false
  }

  ghost predicate IsDisturbed(s: State, run: seq<Event>, id: nat) {
    run != [] && var front := run[..|run| - 1];
                 After(s, front).Some?
                 && (Disturbs(After(s, front).value, run[|run| - 1], id) || IsDisturbed(s, front, id))
  }

  /** When the scheduler inserted jobs for a schedule. */
  ghost function InsertTimes(s: State, run: seq<Event>, id: nat): seq<int> {
    if run == [] then []
    else
      var front := run[..|run| - 1];
      match After(s, front)
      case None => []
      case Some(mid) =>
        InsertTimes(s, front, id)
        + if RequestOf(mid, run[|run| - 1]).Some? && run[|run| - 1].InsertJob? && mid.tick.todo[0].id == id then [mid.now] else []
  }

  /** The interval in minutes that the schedule was made with. */
  ghost function FirstInterval(s: State, run: seq<Event>, id: nat): int {
    if run == [] then 0
    else
      var front, e := run[..|run| - 1], run[|run| - 1];
      match After(s, front)
      case None => 0
      case Some(mid) => if e.InsertSchedule? && mid.nextSchedule == id then e.interval else FirstInterval(s, front, id)
  }

  lemma StepKeepsHistory(s: State, e: Event, id: nat)
    requires TickOk(s) && Enabled(s, e)
    ensures id in Step(s, e).disturbed <==> Disturbs(s, e, id) || id in s.disturbed
    ensures Times(Step(s, e), id)
         == Times(s, id) + if RequestOf(s, e).Some? && e.InsertJob? && s.tick.todo[0].id == id then [s.now] else []
    ensures Interval(Step(s, e), id)
         == if e.InsertSchedule? && s.nextSchedule == id then 60 * e.interval else Interval(s, id)
  {
  }

  lemma {:induction false} HistoryIsOfTheRun(workers: nat, start: int, run: seq<Event>, s: State, id: nat)
    requires Reaches(workers, start, run, s)
    ensures id in s.disturbed <==> IsDisturbed(Initial(workers, start), run, id)
    ensures Times(s, id) == InsertTimes(Initial(workers, start), run, id)
    ensures Interval(s, id) == 60 * FirstInterval(Initial(workers, start), run, id)
  {
    if run != [] {
      var front := run[..|run| - 1];
      var mid := After(Initial(workers, start), front).value;
      HistoryIsOfTheRun(workers, start, front, mid, id);
      StepKeepsHistory(mid, run[|run| - 1], id);
    }
  }

  /** In every run that gives a schedule no other interval and records all of its runs, the j-th job
      that the scheduler inserts for it comes at least j - i intervals after the i-th. */
  lemma InsertionsAreSpaced(workers: nat, start: int, run: seq<Event>, s: State, id: nat, i: nat, j: nat)
    requires Reaches(workers, start, run, s) && !IsDisturbed(Initial(workers, start), run, id)
    requires i <= j < |InsertTimes(Initial(workers, start), run, id)|
    ensures InsertTimes(Initial(workers, start), run, id)[j]
         >= InsertTimes(Initial(workers, start), run, id)[i] + (j - i) * (60 * FirstInterval(Initial(workers, start), run, id))
  {
    HistoryIsOfTheRun(workers, start, run, s, id);
    ScheduledBackupsAreSpaced(workers, start, run, s, id, i, j);
  }
}
