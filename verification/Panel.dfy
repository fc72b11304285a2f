/** The panel as a concurrent system: any number of workers, the scheduler loop, users, crashes
    and reboots. A SQL statement is one atomic step; a failed write has no effect. Everything
    else that a step could change is an input of its event. */
module Panel {
  import opened Text
  import opened Jobs
  import opened Schedules

  // ---------------------------------------------------------------------------------------
  // State
  // ---------------------------------------------------------------------------------------

  datatype Worker =
    | Idle
    | Executing(job: nat)
    | Erred(job: nat)

  /** Where the scheduler's tick stands; `todo[0]` is the schedule being handled. */
  datatype Tick =
    | Asleep
    | Listed(todo: seq<Due>)
    | NoneActive(todo: seq<Due>)
    | SiteFound(todo: seq<Due>)
    | Inserted(todo: seq<Due>)

  datatype State = State(
    up: bool,
    now: int,
    jobs: seq<Job>,
    workers: seq<Worker>,
    sites: set<nat>,
    schedules: Rows,
    nextSchedule: nat,
    tick: Tick,
    // What happened so far.
    claims: seq<nat>,
    enqueued: map<nat, seq<int>>,
    firstInterval: map<nat, int>,
    disturbed: set<nat>)

  function Initial(workers: nat, now: int): State {
    State(false, now, [], seq(workers, _ => Idle), {}, map[], 0, Asleep, [], map[], map[], {})
  }

  datatype Event =
    | Wait(seconds: nat)
    | Boot
    | Crash
    // Workers.
    | Claim(worker: nat, read: bool)
    | Progress(worker: nat, index: nat, steps: nat, written: bool)
    | Complete(worker: nat, success: bool, failure: Option<string>)
    | RunFails(worker: nat)
    | Fallback(worker: nat, error: string, written: bool)
    // Users and the effects of jobs.
    | Enqueue(target: Option<nat>, kind: Kind, name: string)
    | CreateSite(site: nat)
    | DeleteSite(site: nat)
    | InsertSchedule(site: nat, interval: int, enabled: bool)
    | UpdateSchedule(id: nat, interval: int, enabled: bool)
    | DeleteSchedule(id: nat)
    // The scheduler.
    | ReadDue(asOf: int, due: seq<Due>)
    | CheckActive
    | ResolveSite
    | InsertJob
    | MarkScheduled(at: int)
    | TickFails

  // ---------------------------------------------------------------------------------------
  // Steps
  // ---------------------------------------------------------------------------------------

  ghost predicate Enabled(s: State, e: Event)
    requires TickOk(s)
  {
    match e
    case Wait(_) => true
    case Boot => !s.up
    case Crash => s.up
    case Claim(w, _) => s.up && w < |s.workers| && s.workers[w].Idle?
    case Progress(w, index, steps, _) => s.up && w < |s.workers| && s.workers[w].Executing? && index < steps
    // Only a failure has a text.
    case Complete(w, success, failure) =>
      s.up && w < |s.workers| && s.workers[w].Executing? && (success <==> failure.None?)
    case RunFails(w) => s.up && w < |s.workers| && s.workers[w].Executing?
    case Fallback(w, _, _) => s.up && w < |s.workers| && s.workers[w].Erred?
    case Enqueue(site, _, _) => s.up && (site.Some? ==> site.value in s.sites)
    case CreateSite(site) => s.up && site !in s.sites
    case DeleteSite(site) => s.up && site in s.sites
    case InsertSchedule(site, _, _) => s.up && site in s.sites
    case UpdateSchedule(id, _, _) => s.up && id in s.schedules
    case DeleteSchedule(id) => s.up && id in s.schedules
    case ReadDue(asOf, due) => s.up && s.tick.Asleep? && asOf <= s.now && IsDueList(s.schedules, asOf, due)
    case CheckActive => s.up && s.tick.Listed? && s.tick.todo != []
    case ResolveSite => s.up && s.tick.NoneActive?
    case InsertJob => s.up && s.tick.SiteFound?
    case MarkScheduled(at) => s.up && s.tick.Inserted? && LastEnqueue(s, s.tick.todo[0].id) <= at <= s.now
    case TickFails => s.up && !s.tick.Asleep?
  }

  /** The next schedule of the list; the tick ends with it. */
  function Advance(todo: seq<Due>): Tick {
    if |todo| <= 1 then Asleep else Listed(todo[1..])
  }

  /** When the scheduler inserted jobs for a schedule. */
  function Times(s: State, id: nat): seq<int> {
    if id in s.enqueued then s.enqueued[id] else []
  }

  function LastEnqueue(s: State, id: nat): int {
    var times := Times(s, id);
    if times == [] then s.now else times[|times| - 1]
  }

  /** The schedule whose job is inserted but not yet recorded. */
  function Unrecorded(tick: Tick): set<nat> {
    if tick.Inserted? && tick.todo != [] then {tick.todo[0].id} else {}
  }

  function WorkerStep(s: State, e: Event): State
    requires e.Claim? || e.Progress? || e.Complete? || e.RunFails? || e.Fallback?
    requires e.worker < |s.workers|
  {
    var w := e.worker;
    var job := if s.workers[w].Idle? then 0 else s.workers[w].job;
    match e
    case Claim(_, read) =>
      (match OldestQueued(s.jobs)
       case None => s
       case Some(id) =>
         // When the claimed row cannot be read back, the worker knows nothing of its claim.
         s.(jobs := Claimed(s.jobs, s.now), claims := s.claims + [id],
            workers := s.workers[w := if read then Executing(id) else Idle]))
    case Progress(_, index, steps, written) =>
      if written && steps > 0
      then s.(jobs := Progressed(s.jobs, job, index * 100 / steps))
      else s.(workers := s.workers[w := Erred(job)])
    case Complete(_, success, failure) =>
      s.(jobs := Finished(s.jobs, job, if success then Succeeded else Failed, failure, s.now),
         workers := s.workers[w := Idle])
    case RunFails(_) => s.(workers := s.workers[w := Erred(job)])
    case Fallback(_, failure, written) =>
      s.(jobs := if written then Finished(s.jobs, job, Failed, Some(failure), s.now) else s.jobs,
         workers := s.workers[w := Idle])
  }

  function UserStep(s: State, e: Event): State
    requires e.Enqueue? || e.CreateSite? || e.DeleteSite? || e.InsertSchedule? || e.UpdateSchedule? || e.DeleteSchedule?
    requires e.UpdateSchedule? ==> e.id in s.schedules
  {
    match e
    case Enqueue(site, kind, name) => s.(jobs := s.jobs + [NewJob(site, kind, Somebody(name))])
    case CreateSite(site) => s.(sites := s.sites + {site})
    case DeleteSite(site) =>
      s.(sites := s.sites - {site}, jobs := AllDetached(s.jobs, site),
         schedules := WithoutSite(s.schedules, site))
    case InsertSchedule(site, interval, enabled) =>
      s.(schedules := s.schedules[s.nextSchedule := Schedule(site, interval, enabled, None)],
         firstInterval := s.firstInterval[s.nextSchedule := interval],
         nextSchedule := s.nextSchedule + 1)
    case UpdateSchedule(id, interval, enabled) =>
      s.(schedules := Changed(s.schedules, id, interval, enabled),
         disturbed := if interval == s.schedules[id].interval then s.disturbed else s.disturbed + {id})
    case DeleteSchedule(id) => s.(schedules := s.schedules - {id})
  }

  function TickStep(s: State, e: Event): State
    requires e.ReadDue? || e.CheckActive? || e.ResolveSite? || e.InsertJob? || e.MarkScheduled? || e.TickFails?
    requires e.CheckActive? ==> s.tick.Listed?
    requires e.ResolveSite? ==> s.tick.NoneActive?
    requires e.InsertJob? ==> s.tick.SiteFound?
    requires e.MarkScheduled? ==> s.tick.Inserted?
    requires (e.CheckActive? || e.ResolveSite? || e.InsertJob? || e.MarkScheduled?) ==> s.tick.todo != []
  {
    match e
    case ReadDue(_, due) => s.(tick := if due == [] then Asleep else Listed(due))
    case CheckActive =>
      var todo := s.tick.todo;
      s.(tick := if AnyActive(s.jobs, todo[0].schedule.site, BackupCreate) then Advance(todo) else NoneActive(todo))
    case ResolveSite =>
      var todo := s.tick.todo;
      s.(tick := if todo[0].schedule.site in s.sites then SiteFound(todo) else Advance(todo))
    case InsertJob =>
      var due := s.tick.todo[0];
      // The site may have been deleted meanwhile: the foreign key then refuses the row.
      if due.schedule.site !in s.sites then s.(tick := Asleep)
      else s.(jobs := s.jobs + [NewJob(Some(due.schedule.site), BackupCreate, Scheduler)],
              enqueued := s.enqueued[due.id := Times(s, due.id) + [s.now]],
              tick := Inserted(s.tick.todo))
    case MarkScheduled(at) =>
      var due := s.tick.todo[0];
      s.(schedules := Marked(s.schedules, due.id, at + 60 * due.schedule.interval),
         tick := Advance(s.tick.todo))
    case TickFails => s.(tick := Asleep, disturbed := s.disturbed + Unrecorded(s.tick))
  }

  function Step(s: State, e: Event): State
    requires TickOk(s) && Enabled(s, e)
  {
    match e
    case Wait(seconds) => s.(now := s.now + seconds)
    case Boot => s.(up := true, jobs := AllOrphaned(s.jobs, s.now))
    case Crash =>
      s.(up := false, workers := seq(|s.workers|, _ => Idle),
         tick := Asleep, disturbed := s.disturbed + Unrecorded(s.tick))
    case Claim(_, _) | Progress(_, _, _, _) | Complete(_, _, _) | RunFails(_) | Fallback(_, _, _) => WorkerStep(s, e)
    case Enqueue(_, _, _) | CreateSite(_) | DeleteSite(_) | InsertSchedule(_, _, _) | UpdateSchedule(_, _, _)
       | DeleteSchedule(_) => UserStep(s, e)
    case _ => TickStep(s, e)
  }

  ghost predicate TickOk(s: State) {
    !s.tick.Asleep? ==> s.tick.todo != []
  }
}
