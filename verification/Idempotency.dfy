/** The agent's operations endpoint: request ids are remembered for ten minutes, and privileged
    work is done under one permit. */
module Idempotency {
  import opened Text
  import opened Expiry

  const WINDOW := 600

  type Seen = map<string, Stamped<()>>

  /** The static map of the endpoint. */
  class SeenMap {
    var entries: Seen

    constructor ()
      ensures entries == map[]
    {
      entries := map[];
    }

    /** A new id is stamped a little later than the sweep. */
    method AlreadyHandled(id: string, now: int, stamp: int) returns (handled: bool)
      modifies this
      ensures handled == (id in Swept(old(entries), now, WINDOW))
      ensures entries == if handled then Swept(old(entries), now, WINDOW)
                         else Swept(old(entries), now, WINDOW)[id := Stamped((), stamp)]
    {
      entries := Swept(entries, now, WINDOW);
      if id in entries {
        return true;
      }
      entries := entries[id := Stamped((), stamp)];
      handled := false;
    }
  }

  // ---------------------------------------------------------------------------------------
  // Runs
  // ---------------------------------------------------------------------------------------

  datatype Request = Request(id: string, at: int)

  /** `request` is a position in the list of accepted requests. */
  datatype Execution = Execution(request: nat, startedAt: int)

  datatype Event =
    | Wait(seconds: nat)
    | Arrive(id: string, delay: nat)
    | Start(waiting: nat)
    | Finish
    | Disconnect(waiting: nat)

  /** `busy` while the permit is taken. `accepted` and `executions` record what happened. */
  datatype State = State(
    now: int,
    seen: Seen,
    waiting: seq<nat>,
    busy: bool,
    accepted: seq<Request>,
    executions: seq<Execution>)

  function Initial(now: int): State {
    State(now, map[], [], false, [], [])
  }

  predicate Possible(s: State, e: Event) {
    match e
    case Wait(_) | Arrive(_, _) => true
    case Start(k) => !s.busy && k < |s.waiting|
    case Finish => s.busy
    case Disconnect(k) => k < |s.waiting|
  }

  function Without(waiting: seq<nat>, k: nat): seq<nat>
    requires k < |waiting|
  {
    waiting[..k] + waiting[k + 1..]
  }

  function Step(s: State, e: Event): State
    requires Possible(s, e)
  {
    match e
    case Wait(seconds) => s.(now := s.now + seconds)
    case Arrive(id, delay) =>
      var swept := Swept(s.seen, s.now, WINDOW);
      if id in swept then s.(seen := swept)
      else s.(now := s.now + delay, seen := swept[id := Stamped((), s.now + delay)],
              waiting := s.waiting + [|s.accepted|], accepted := s.accepted + [Request(id, s.now + delay)])
    case Start(k) =>
      s.(busy := true, waiting := Without(s.waiting, k), executions := s.executions + [Execution(s.waiting[k], s.now)])
    case Finish => s.(busy := false)
    case Disconnect(k) => s.(waiting := Without(s.waiting, k))
  }

  function After(s: State, run: seq<Event>): Option<State> {
    if run == [] then Some(s)
    else
      match After(s, run[..|run| - 1])
      case None => None
      case Some(mid) => if Possible(mid, run[|run| - 1]) then Some(Step(mid, run[|run| - 1])) else None
  }

  // ---------------------------------------------------------------------------------------
  // What every run keeps
  // ---------------------------------------------------------------------------------------

  /** When each id was last accepted, had nothing ever been swept. */
  function LastAccepted(accepted: seq<Request>): Seen {
    if accepted == [] then map[]
    else
      var last := accepted[|accepted| - 1];
      LastAccepted(accepted[..|accepted| - 1])[last.id := Stamped((), last.at)]
  }

  lemma LastIsLatest(accepted: seq<Request>, i: nat)
    requires i < |accepted| && forall k, l :: 0 <= k < l < |accepted| ==> accepted[k].at <= accepted[l].at
    ensures accepted[i].id in LastAccepted(accepted)
    ensures accepted[i].at <= LastAccepted(accepted)[accepted[i].id].at
  {
    if i < |accepted| - 1 {
      LastIsLatest(accepted[..|accepted| - 1], i);
      LastIsSome(accepted[..|accepted| - 1], accepted[i].id);
    }
  }

  lemma LastIsSome(accepted: seq<Request>, id: string)
    requires id in LastAccepted(accepted)
    ensures exists k :: 0 <= k < |accepted| && accepted[k] == Request(id, LastAccepted(accepted)[id].at)
  {
    var last := accepted[|accepted| - 1];
    if last.id != id {
      LastIsSome(accepted[..|accepted| - 1], id);
      var k :| 0 <= k < |accepted| - 1 && accepted[..|accepted| - 1][k] == Request(id, LastAccepted(accepted)[id].at);
      assert accepted[k] == Request(id, LastAccepted(accepted)[id].at);
    } else {
      assert accepted[|accepted| - 1] == Request(id, LastAccepted(accepted)[id].at);
    }
  }

  ghost predicate AcceptedOk(s: State) {
    && Agrees(s.seen, LastAccepted(s.accepted), s.now, WINDOW)
    && (forall k, l :: 0 <= k < l < |s.accepted| ==> s.accepted[k].at <= s.accepted[l].at)
    && (forall k :: 0 <= k < |s.accepted| ==> s.accepted[k].at <= s.now)
    && forall k, l :: 0 <= k < l < |s.accepted| && s.accepted[k].id == s.accepted[l].id ==>
         s.accepted[l].at >= s.accepted[k].at + WINDOW
  }

  ghost predicate ExecutionsOk(s: State) {
    && (forall k :: 0 <= k < |s.waiting| ==> s.waiting[k] < |s.accepted|)
    && (forall k, l :: 0 <= k < l < |s.waiting| ==> s.waiting[k] != s.waiting[l])
    && (forall k :: 0 <= k < |s.executions| ==>
          s.executions[k].request < |s.accepted| && s.executions[k].request !in s.waiting
          && s.accepted[s.executions[k].request].at <= s.executions[k].startedAt <= s.now)
    && forall k, l :: 0 <= k < l < |s.executions| ==> s.executions[k].request != s.executions[l].request
  }

  lemma NewIdIsLate(accepted: seq<Request>, now: int, id: string, k: nat)
    requires k < |accepted| && accepted[k].id == id
    requires forall i, j :: 0 <= i < j < |accepted| ==> accepted[i].at <= accepted[j].at
    requires id !in Swept(LastAccepted(accepted), now, WINDOW)
    ensures now >= accepted[k].at + WINDOW
  {
    LastIsLatest(accepted, k);
  }

  lemma AcceptKeepsOrder(s: State, t: State, id: string)
    requires AcceptedOk(s) && t.now >= s.now && t.accepted == s.accepted + [Request(id, t.now)]
    requires id !in Swept(LastAccepted(s.accepted), s.now, WINDOW)
    requires Agrees(t.seen, LastAccepted(t.accepted), t.now, WINDOW)
    ensures AcceptedOk(t)
  {
    forall k | 0 <= k < |s.accepted| && s.accepted[k].id == id
      ensures t.now >= s.accepted[k].at + WINDOW
    {
      NewIdIsLate(s.accepted, s.now, id, k);
    }
  }

  lemma ArriveKeepsAccepted(s: State, e: Event)
    requires AcceptedOk(s) && e.Arrive?
    ensures AcceptedOk(Step(s, e))
  {
    var exact := LastAccepted(s.accepted);
    var swept := Swept(s.seen, s.now, WINDOW);
    var t := Step(s, e);
    LazyIsExact(s.seen, exact, s.now, s.now, WINDOW);
    if e.id !in swept {
      LaterAgrees(swept, exact, s.now, t.now, WINDOW);
      InsertAgrees(swept, exact, t.now, WINDOW, e.id, Stamped((), t.now));
      assert t.accepted[..|t.accepted| - 1] == s.accepted;
      AcceptKeepsOrder(s, t, e.id);
    }
  }

  lemma WithoutAt(waiting: seq<nat>, k: nat)
    requires k < |waiting|
    ensures var w := Without(waiting, k);
            |w| == |waiting| - 1 && forall j :: 0 <= j < |w| ==> w[j] == waiting[if j < k then j else j + 1]
  {
  }

  lemma StartKeepsExecutions(s: State, k: nat)
    requires AcceptedOk(s) && ExecutionsOk(s) && Possible(s, Start(k))
    ensures ExecutionsOk(Step(s, Start(k)))
  {
    WithoutAt(s.waiting, k);
    var t := Step(s, Start(k));
    assert forall j :: 0 <= j < |s.executions| ==> t.executions[j] == s.executions[j];
  }

  lemma StepKeepsExecutions(s: State, e: Event)
    requires AcceptedOk(s) && ExecutionsOk(s) && Possible(s, e)
    ensures ExecutionsOk(Step(s, e))
  {
    match e {
      case Start(k) => StartKeepsExecutions(s, k);
      case Disconnect(k) => WithoutAt(s.waiting, k);
      case Arrive(_, _) => ArriveKeepsExecutions(s, e);
      case _ =>
    }
  }

  lemma ArriveKeepsExecutions(s: State, e: Event)
    requires ExecutionsOk(s) && e.Arrive?
    ensures ExecutionsOk(Step(s, e))
  {
    var t := Step(s, e);
    assert forall j :: 0 <= j < |s.waiting| ==> t.waiting[j] == s.waiting[j];
    assert forall j :: 0 <= j < |s.accepted| ==> t.accepted[j] == s.accepted[j];
  }

  lemma {:induction false} RunKeepsOk(start: int, run: seq<Event>)
    requires After(Initial(start), run).Some?
    ensures AcceptedOk(After(Initial(start), run).value) && ExecutionsOk(After(Initial(start), run).value)
  {
    if run != [] {
      RunKeepsOk(start, run[..|run| - 1]);
      var mid, e := After(Initial(start), run[..|run| - 1]).value, run[|run| - 1];
      StepKeepsExecutions(mid, e);
      if e.Arrive? {
        ArriveKeepsAccepted(mid, e);
      } else if e.Wait? {
        LaterAgrees(mid.seen, LastAccepted(mid.accepted), mid.now, mid.now + e.seconds, WINDOW);
      }
    }
  }

  /** The lazily swept map answers as exact expiry would: a request is a duplicate exactly if
      one with its id was accepted less than ten minutes ago. */
  lemma DuplicateIffRecent(start: int, run: seq<Event>, s: State, id: string)
    requires After(Initial(start), run) == Some(s)
    ensures id in Swept(s.seen, s.now, WINDOW)
            <==> exists k :: 0 <= k < |s.accepted| && s.accepted[k].id == id && s.now - s.accepted[k].at < 600
  {
    RunKeepsOk(start, run);
    var exact := LastAccepted(s.accepted);
    LazyIsExact(s.seen, exact, s.now, s.now, WINDOW);
    if id in Swept(exact, s.now, WINDOW) {
      LastIsSome(s.accepted, id);
    }
    if k :| 0 <= k < |s.accepted| && s.accepted[k].id == id && s.now - s.accepted[k].at < WINDOW {
      LastIsLatest(s.accepted, k);
    }
  }

  /** Requests with the same id are accepted at least ten minutes apart. */
  lemma AcceptedApart(start: int, run: seq<Event>, s: State, k: nat, l: nat)
    requires After(Initial(start), run) == Some(s)
    requires k < l < |s.accepted| && s.accepted[k].id == s.accepted[l].id
    ensures s.accepted[l].at >= s.accepted[k].at + 600
  {
    RunKeepsOk(start, run);
  }

  /** How long an execution waited for the permit. */
  function Waited(s: State, k: nat): int
    requires k < |s.executions| && s.executions[k].request < |s.accepted|
  {
    s.executions[k].startedAt - s.accepted[s.executions[k].request].at
  }

  /** Two executions of one id, the first accepted before the second. */
  ghost predicate Repeats(s: State, k: nat, l: nat) {
    && k < |s.executions| && l < |s.executions|
    && s.executions[k].request < s.executions[l].request < |s.accepted|
    && s.accepted[s.executions[k].request].id == s.accepted[s.executions[l].request].id
  }

  /** They start at least ten minutes apart, less what the first waited for the permit. */
  lemma ExecutedApart(start: int, run: seq<Event>, s: State, k: nat, l: nat)
    requires After(Initial(start), run) == Some(s) && Repeats(s, k, l)
    ensures s.executions[l].startedAt >= s.executions[k].startedAt + 600 - Waited(s, k)
    ensures Waited(s, k) >= 0
  {
    RunKeepsOk(start, run);
  }

  /** A request is turned away exactly if one with its id was accepted less than ten minutes ago;
      otherwise it is accepted, once, and waits for the permit behind those that do. */
  lemma AcceptedUnlessRecent(start: int, run: seq<Event>, s: State, id: string, delay: nat)
    requires After(Initial(start), run) == Some(s)
    ensures var t := Step(s, Arrive(id, delay));
            if exists k :: 0 <= k < |s.accepted| && s.accepted[k].id == id && s.now - s.accepted[k].at < 600
            then t.accepted == s.accepted && t.waiting == s.waiting
            else t.accepted == s.accepted + [Request(id, s.now + delay)] && t.waiting == s.waiting + [|s.accepted|]
  {
    DuplicateIffRecent(start, run, s, id);
  }

  /** Somebody has the permit: the last start is not followed by an end. */
  predicate IsTaken(run: seq<Event>) {
    run != [] && match run[|run| - 1]
                 case Start(_) => true
                 case Finish => false
                 case _ => IsTaken(run[..|run| - 1])
  }

  lemma {:induction false} BusyIffTaken(start: int, run: seq<Event>)
    requires After(Initial(start), run).Some?
    ensures After(Initial(start), run).value.busy <==> IsTaken(run)
  {
    if run != [] {
      BusyIffTaken(start, run[..|run| - 1]);
    }
  }

  /** Work is done one at a time: nothing starts between the start of one execution and its end, and
      nothing ends but what has started. */
  lemma OneAtATime(start: int, run: seq<Event>, e: Event)
    requires After(Initial(start), run + [e]).Some?
    ensures e.Start? ==> !IsTaken(run)
    ensures e.Finish? ==> IsTaken(run)
  {
    assert (run + [e])[..|run + [e]| - 1] == run;
    BusyIffTaken(start, run);
  }

  function Disconnects(run: seq<Event>): nat {
    if run == [] then 0 else Disconnects(run[..|run| - 1]) + if run[|run| - 1].Disconnect? then 1 else 0
  }

  /** No accepted request gets lost or is executed twice: each waits, has started, or went away while
      it waited. */
  lemma {:induction false} RequestsAreAccountedFor(start: int, run: seq<Event>, s: State)
    requires After(Initial(start), run) == Some(s)
    ensures |s.accepted| == |s.waiting| + |s.executions| + Disconnects(run)
    ensures forall k, l :: 0 <= k < l < |s.executions| ==> s.executions[k].request != s.executions[l].request
    ensures forall k :: 0 <= k < |s.executions| ==> s.executions[k].request !in s.waiting
  {
    RunKeepsOk(start, run);
    if run != [] {
      RequestsAreAccountedFor(start, run[..|run| - 1], After(Initial(start), run[..|run| - 1]).value);
    }
  }

  // ---------------------------------------------------------------------------------------
  // Exactly when executions are ten minutes apart
  // ---------------------------------------------------------------------------------------

  ghost predicate KeepsWindow(wait: int) {
    forall start: int, run: seq<Event>, s: State, k: nat, l: nat ::
      After(Initial(start), run) == Some(s) && Repeats(s, k, l) && Waited(s, k) == wait
      ==> s.executions[l].startedAt >= s.executions[k].startedAt + 600
  }

  lemma AfterMore(s: State, run: seq<Event>, e: Event)
    requires After(s, run).Some? && Possible(After(s, run).value, e)
    ensures After(s, run + [e]) == Some(Step(After(s, run).value, e))
  {
    assert (run + [e])[..|run + [e]| - 1] == run;
  }

  lemma AfterTwo(s: State, run: seq<Event>, a: Event, b: Event)
    requires After(s, run).Some? && Possible(After(s, run).value, a) && Possible(Step(After(s, run).value, a), b)
    ensures After(s, run + [a, b]) == Some(Step(Step(After(s, run).value, a), b))
  {
    AfterMore(s, run, a);
    AfterMore(s, run + [a], b);
    assert run + [a] + [b] == run + [a, b];
  }

  /** A request arrives while another one holds the permit. */
  lemma Blocked(other: string, id: string) returns (run: seq<Event>, s: State)
    requires other != id
    ensures After(Initial(0), run) == Some(s)
    ensures s == State(0, map[other := Stamped((), 0), id := Stamped((), 0)], [1], true,
                       [Request(other, 0), Request(id, 0)], [Execution(0, 0)])
  {
    var s0 := Initial(0);
    assert After(s0, []) == Some(s0);
    AfterTwo(s0, [], Arrive(other, 0), Start(0));
    run := [] + [Arrive(other, 0), Start(0)];
    s := Step(Step(s0, Arrive(other, 0)), Start(0));
    assert s.waiting == [];
    AfterMore(s0, run, Arrive(id, 0));
    run, s := run + [Arrive(id, 0)], Step(s, Arrive(id, 0));
  }

  /** It starts `wait` seconds later. */
  lemma FirstWaits(other: string, id: string, wait: nat) returns (run: seq<Event>, s: State)
    requires other != id
    ensures After(Initial(0), run) == Some(s) && s.now == wait && !s.busy && s.waiting == []
    ensures s.seen == map[other := Stamped((), 0), id := Stamped((), 0)]
    ensures s.accepted == [Request(other, 0), Request(id, 0)]
    ensures s.executions == [Execution(0, 0), Execution(1, wait)]
  {
    var blocked, mid := Blocked(other, id);
    AfterTwo(Initial(0), blocked, Wait(wait), Finish);
    run := blocked + [Wait(wait), Finish];
    s := Step(Step(mid, Wait(wait)), Finish);
    AfterTwo(Initial(0), run, Start(0), Finish);
    run, s := run + [Start(0), Finish], Step(Step(s, Start(0)), Finish);
    assert s.waiting == [];
  }

  /** The same request again, as soon as the window has passed and the first execution is done. */
  lemma ThenRepeats(other: string, id: string, wait: nat) returns (run: seq<Event>, s: State)
    requires other != id
    ensures After(Initial(0), run) == Some(s) && Repeats(s, 1, 2) && Waited(s, 1) == wait
    ensures s.executions[2].startedAt == (if wait < WINDOW then WINDOW else wait)
    ensures s.executions[1].startedAt == wait
  {
    var s0 := Initial(0);
    var first, mid := FirstWaits(other, id, wait);
    var pause := if wait < WINDOW then WINDOW - wait else 0;
    AfterMore(s0, first, Wait(pause));
    var s1 := Step(mid, Wait(pause));
    AfterMore(s0, first + [Wait(pause)], Arrive(id, 0));
    var s2 := Step(s1, Arrive(id, 0));
    assert id !in Swept(s1.seen, s1.now, WINDOW);
    AfterMore(s0, first + [Wait(pause)] + [Arrive(id, 0)], Start(0));
    run, s := first + [Wait(pause)] + [Arrive(id, 0)] + [Start(0)], Step(s2, Start(0));
  }

  /** Ten minutes between the executions of one id are certain exactly if the permit was free
      when the first request arrived. */
  lemma WindowIffNoWait(wait: nat)
    ensures KeepsWindow(wait) <==> wait == 0
  {
    if wait == 0 {
      forall start: int, run: seq<Event>, s: State, k: nat, l: nat |
        After(Initial(start), run) == Some(s) && Repeats(s, k, l) && Waited(s, k) == wait
        ensures s.executions[l].startedAt >= s.executions[k].startedAt + WINDOW
      {
        ExecutedApart(start, run, s, k, l);
      }
    } else {
      var run, s := ThenRepeats("other", "id", wait);
      assert s.executions[2].startedAt < s.executions[1].startedAt + WINDOW;
    }
  }
}
