/** The PHP switch of a site: the new container is started and checked beside the old one, which
    is removed last. Every command may fail, without effect; the process may die between any two
    of them. */
module SwitchPhp {
  import opened Text
  import opened AgentStore

  // ---------------------------------------------------------------------------------------
  // Container names
  // ---------------------------------------------------------------------------------------

  function Sanitised(domain: string): (r: string)
    ensures |r| == |domain|
  {
    if domain == "" then "" else [if domain[0] == '.' then '-' else domain[0]] + Sanitised(domain[1..])
  }

  /** `version.as_str().replace('.', "")` */
  function Digits(v: Php): string {
    match v
    case Php81 => "81"
    case Php82 => "82"
    case Php83 => "83"
    case Php84 => "84"
  }

  function ContainerName(domain: string, v: Php): string {
    "wp-" + (Sanitised(domain) + ("-php" + Digits(v)))
  }

  /** Two containers share a name exactly if the versions are the same and the domains differ at
      most in dots and dashes. */
  lemma NamesCollideIff(d: string, v: Php, e: string, w: Php)
    ensures ContainerName(d, v) == ContainerName(e, w) <==> Sanitised(d) == Sanitised(e) && v == w
  {
    var a, b := Sanitised(d) + ("-php" + Digits(v)), Sanitised(e) + ("-php" + Digits(w));
    if ContainerName(d, v) == ContainerName(e, w) {
      CancelFront("wp-", a, b);
      CancelBack(Sanitised(d), "-php" + Digits(v), Sanitised(e), "-php" + Digits(w));
      CancelFront("-php", Digits(v), Digits(w));
      assert Digits(v)[1] == Digits(w)[1];
    }
  }

  lemma CancelFront(p: string, a: string, b: string)
    requires p + a == p + b
    ensures a == b
  {
    assert (p + a)[|p|..] == a && (p + b)[|p|..] == b;
  }

  lemma CancelBack(a: string, x: string, b: string, y: string)
    requires a + x == b + y && |x| == |y|
    ensures a == b && x == y
  {
    assert (a + x)[..|a|] == a && (b + y)[..|b|] == b;
    assert (a + x)[|a|..] == x && (b + y)[|b|..] == y;
  }

  // ---------------------------------------------------------------------------------------
  // The operation
  // ---------------------------------------------------------------------------------------

  datatype Action =
    | Started(name: string)
    | Checked(name: string, healthy: bool)
    | VhostWritten(id: int)
    | Reloaded
    | Removed(name: string)
    | Stored(id: int)

  /** The agent's records, what is on disk, the containers on the host, and the commands that
      succeeded. */
  datatype Host = Host(sites: Snapshot, durable: Snapshot, containers: set<string>, log: seq<Action>)

  /** Which commands succeed. `healthy` is the answer of the health check. */
  datatype Faults = Faults(pull: bool, run: bool, inspect: bool, healthy: bool, removeNew: bool,
                           write: bool, reload: bool, removeOld: bool, flush: bool)

  datatype Reply = Done | Refused | Failed

  class Agent {
    var sites: Snapshot
    var durable: Snapshot
    var containers: set<string>
    var log: seq<Action>

    ghost function State(): Host
      reads this
    {
      Host(sites, durable, containers, log)
    }

    constructor (sites: Snapshot, containers: set<string>)
      ensures State() == Host(sites, sites, containers, [])
    {
      this.sites, this.durable, this.containers, this.log := sites, sites, containers, [];
    }

    /** `docker run --name`: refused while the name is taken. */
    method StartPhp(name: string, works: bool) returns (ok: bool)
      modifies this
      ensures ok == (works && name !in old(containers))
      ensures State() == if ok then Run(old(State()), name) else old(State())
    {
      ok := works && name !in containers;
      if ok {
        containers, log := containers + {name}, log + [Started(name)];
      }
    }

    method RemoveContainer(name: string, works: bool)
      modifies this
      ensures State() == if works then Remove(old(State()), name) else old(State())
    {
      if works {
        containers, log := containers - {name}, log + [Removed(name)];
      }
    }

    method Switch(id: int, version: Php, f: Faults, containerId: string) returns (r: Reply)
      modifies this
      ensures State() == Last(Stages(old(State()), id, version, f, containerId))
      ensures r == Done <==> && Begins(old(State()), id, version, f) && f.inspect && f.healthy
                             && f.write && f.reload && f.removeOld && f.flush
      ensures r == Refused <==> id !in old(sites) || old(sites)[id].php == version
    {
      if id !in sites {
        return Refused;
      }
      var record := sites[id];
      var previous := record.php;
      if previous == version {
        return Refused;
      }
      if !f.pull {
        return Failed;
      }
      var target := ContainerName(record.domain, version);
      var started := StartPhp(target, f.run);
      if !started || !f.inspect {
        return Failed;
      }
      log := log + [Checked(target, f.healthy)];
      if !f.healthy {
        RemoveContainer(target, f.removeNew);
        return Failed;
      }
      record := record.(php := version, containerId := Some(containerId));
      if !f.write {
        return Failed;
      }
      log := log + [VhostWritten(id)];
      if !f.reload {
        return Failed;
      }
      log := log + [Reloaded];
      RemoveContainer(ContainerName(record.domain, previous), f.removeOld);
      if !f.removeOld {
        return Failed;
      }
      sites := sites[id := record];
      if !f.flush {
        return Failed;
      }
      durable, log := sites, log + [Stored(id)];
      r := Done;
    }
  }

  function Run(h: Host, name: string): Host {
    h.(containers := h.containers + {name}, log := h.log + [Started(name)])
  }

  function Remove(h: Host, name: string): Host {
    h.(containers := h.containers - {name}, log := h.log + [Removed(name)])
  }

  function Note(h: Host, a: Action): Host {
    h.(log := h.log + [a])
  }

  function Last(stages: seq<Host>): Host
    requires stages != []
  {
    stages[|stages| - 1]
  }

  /** All states that the operation goes through; it may stop in each of them. */
  function Stages(h: Host, id: int, version: Php, f: Faults, containerId: string): (s: seq<Host>)
    ensures s != [] && s[0] == h
  {
    if id !in h.sites || h.sites[id].php == version || !f.pull then [h]
    else
      var target := ContainerName(h.sites[id].domain, version);
      if !f.run || target in h.containers then [h]
      else [h] + AfterStart(Run(h, target), id, version, f, containerId)
  }

  function AfterStart(h: Host, id: int, version: Php, f: Faults, containerId: string): (s: seq<Host>)
    requires id in h.sites
    ensures s != [] && s[0] == h
  {
    var target := ContainerName(h.sites[id].domain, version);
    if !f.inspect then [h]
    else
      var checked := Note(h, Checked(target, f.healthy));
      if f.healthy then [h] + AfterCheck(checked, id, version, f, containerId)
      else if f.removeNew then [h, checked, Remove(checked, target)]
      else [h, checked]
  }

  function AfterCheck(h: Host, id: int, version: Php, f: Faults, containerId: string): (s: seq<Host>)
    requires id in h.sites
    ensures s != [] && s[0] == h
  {
    var previous := ContainerName(h.sites[id].domain, h.sites[id].php);
    var written := Note(h, VhostWritten(id));
    var reloaded := Note(written, Reloaded);
    var removed := Remove(reloaded, previous);
    var record := h.sites[id].(php := version, containerId := Some(containerId));
    var inMemory := removed.(sites := removed.sites[id := record]);
    var stored := Note(inMemory.(durable := inMemory.sites), Stored(id));
    if !f.write then [h]
    else if !f.reload then [h, written]
    else if !f.removeOld then [h, written, reloaded]
    else if !f.flush then [h, written, reloaded, removed, inMemory]
    else [h, written, reloaded, removed, inMemory, stored]
  }

  // ---------------------------------------------------------------------------------------
  // What the stages have in common
  // ---------------------------------------------------------------------------------------

  function OldName(h: Host, id: int): string
    requires id in h.sites
  {
    ContainerName(h.sites[id].domain, h.sites[id].php)
  }

  function NewName(h: Host, id: int, version: Php): string
    requires id in h.sites
  {
    ContainerName(h.sites[id].domain, version)
  }

  function NewRecord(h: Host, id: int, version: Php, containerId: string): SiteRecord
    requires id in h.sites
  {
    h.sites[id].(php := version, containerId := Some(containerId))
  }

  /** Nothing but the new container came or went. */
  ghost predicate IsEarly(h: Host, t: Host, target: string, previous: string) {
    && t.sites == h.sites && t.durable == h.durable
    && (t.containers == h.containers || t.containers == h.containers + {target})
    && (t.log == h.log || (t.log != [] && t.log[|t.log| - 1] != Removed(previous) && !t.log[|t.log| - 1].Stored?))
  }

  /** The old container is gone and the file does not say so yet. */
  ghost predicate InWindow(h: Host, t: Host, target: string, previous: string) {
    && t.durable == h.durable
    && t.containers == h.containers + {target} - {previous}
    && t.log != [] && t.log[|t.log| - 1] == Removed(previous)
  }

  ghost predicate IsStored(h: Host, t: Host, id: int, record: SiteRecord, target: string, previous: string) {
    && t.sites == h.sites[id := record] && t.durable == t.sites
    && t.containers == h.containers + {target} - {previous}
    && t.log != [] && t.log[|t.log| - 1] == Stored(id)
  }

  ghost predicate IsStage(h: Host, t: Host, id: int, version: Php, containerId: string)
    requires id in h.sites
  {
    var target, previous, record := NewName(h, id, version), OldName(h, id), NewRecord(h, id, version, containerId);
    || IsEarly(h, t, target, previous)
    || (InWindow(h, t, target, previous) && (t.sites == h.sites || t.sites == h.sites[id := record]))
    || IsStored(h, t, id, record, target, previous)
  }

  /** The switch got as far as starting the new container. */
  predicate Begins(h: Host, id: int, version: Php, f: Faults) {
    && id in h.sites && h.sites[id].php != version && f.pull && f.run
    && NewName(h, id, version) !in h.containers
  }

  lemma StagesOf(h: Host, id: int, version: Php, f: Faults, containerId: string, t: Host)
    requires t in Stages(h, id, version, f, containerId)
    ensures !Begins(h, id, version, f) ==> t == h
    ensures Begins(h, id, version, f) ==>
              IsStage(h, t, id, version, containerId)
  {
    if Begins(h, id, version, f) && t != h {
      var target, previous := NewName(h, id, version), OldName(h, id);
      NamesCollideIff(h.sites[id].domain, version, h.sites[id].domain, h.sites[id].php);
      var run := Run(h, target);
      assert t in AfterStart(run, id, version, f, containerId);
      var checked := Note(run, Checked(target, f.healthy));
      if t != run && f.inspect {
        if f.healthy {
          assert t in AfterCheck(checked, id, version, f, containerId);
          LateStages(h, checked, id, version, f, containerId, t);
        } else {
          assert t == checked || t == Remove(checked, target);
          assert h.containers + {target} - {target} == h.containers;
        }
      }
    }
  }

  lemma LateStages(h: Host, c: Host, id: int, version: Php, f: Faults, containerId: string, t: Host)
    requires id in h.sites && OldName(h, id) != NewName(h, id, version)
    requires c.sites == h.sites && c.durable == h.durable && c.containers == h.containers + {NewName(h, id, version)}
    requires c.log != [] && c.log[|c.log| - 1] != Removed(OldName(h, id)) && !c.log[|c.log| - 1].Stored?
    requires t in AfterCheck(c, id, version, f, containerId)
    ensures IsStage(h, t, id, version, containerId)
  {
  }

  /** The commands up to the removal of the old container succeed. */
  predicate Replaces(h: Host, id: int, version: Php, f: Faults) {
    Begins(h, id, version, f) && f.inspect && f.healthy && f.write && f.reload && f.removeOld
  }

  /** The last stage is never between the removal and the record in memory. */
  lemma FinalStage(h: Host, id: int, version: Php, f: Faults, containerId: string)
    ensures var t := Last(Stages(h, id, version, f, containerId));
            if Replaces(h, id, version, f) then
              && t.sites == h.sites[id := NewRecord(h, id, version, containerId)]
              && t.containers == h.containers + {NewName(h, id, version)} - {OldName(h, id)}
            else
              t.sites == h.sites && h.containers <= t.containers
  {
    if Begins(h, id, version, f) {
      var run := Run(h, NewName(h, id, version));
      var checked := Note(run, Checked(NewName(h, id, version), f.healthy));
      NamesCollideIff(h.sites[id].domain, version, h.sites[id].domain, h.sites[id].php);
      if f.inspect && f.healthy {
        var late := AfterCheck(checked, id, version, f, containerId);
        assert Last([run] + late) == Last(late);
        assert Last([h] + ([run] + late)) == Last(late);
      } else {
        var after := AfterStart(run, id, version, f, containerId);
        assert Last([h] + after) == Last(after);
      }
    }
  }

  /** A new container that is found unhealthy is removed again, and all is as before. */
  lemma UnhealthyIsRemoved(h: Host, id: int, version: Php, f: Faults, containerId: string)
    requires Begins(h, id, version, f) && f.inspect && !f.healthy && f.removeNew
    ensures var t := Last(Stages(h, id, version, f, containerId));
            && t.sites == h.sites && t.durable == h.durable && t.containers == h.containers
            && t.log == h.log + [Started(NewName(h, id, version)), Checked(NewName(h, id, version), false),
                                 Removed(NewName(h, id, version))]
  {
    var name := NewName(h, id, version);
    var after := AfterStart(Run(h, name), id, version, f, containerId);
    assert Last([h] + after) == Last(after);
    assert h.containers + {name} - {name} == h.containers;
    assert h.log + [Started(name)] + [Checked(name, false)] + [Removed(name)]
        == h.log + [Started(name), Checked(name, false), Removed(name)];
  }

  // ---------------------------------------------------------------------------------------
  // What switching keeps
  // ---------------------------------------------------------------------------------------

  /** No two records name one container. Domains may collide as long as the versions differ. */
  ghost predicate Distinct(m: Snapshot) {
    forall i, j :: i in m && j in m && i != j ==> ContainerName(m[i].domain, m[i].php) != ContainerName(m[j].domain, m[j].php)
  }

  /** The container that a record names exists. */
  ghost predicate IsServed(r: SiteRecord, containers: set<string>) {
    ContainerName(r.domain, r.php) in containers
  }

  ghost predicate Served(m: Snapshot, containers: set<string>) {
    forall id :: id in m ==> IsServed(m[id], containers)
  }

  /** Removing the old container of one site takes away no other one's. */
  lemma OthersStayServed(m: Snapshot, id: int, version: Php, containers: set<string>, j: int)
    requires Distinct(m) && id in m && j in m && j != id && IsServed(m[j], containers)
    ensures var target, previous := ContainerName(m[id].domain, version), ContainerName(m[id].domain, m[id].php);
            IsServed(m[j], containers + {target}) && IsServed(m[j], containers + {target} - {previous})
  {
  }

  lemma SwitchedIsServed(h: Host, id: int, version: Php, containerId: string)
    requires id in h.sites && h.sites[id].php != version && Distinct(h.sites) && Served(h.sites, h.containers)
    ensures var target, previous := NewName(h, id, version), OldName(h, id);
            && Served(h.sites[id := NewRecord(h, id, version, containerId)], h.containers + {target} - {previous})
            && !IsServed(h.sites[id], h.containers + {target} - {previous})
  {
    NamesCollideIff(h.sites[id].domain, version, h.sites[id].domain, h.sites[id].php);
    forall j | j in h.sites && j != id
      ensures IsServed(h.sites[j], h.containers + {NewName(h, id, version)} - {OldName(h, id)})
    {
      OthersStayServed(h.sites, id, version, h.containers, j);
    }
  }

  /** After every switch, however it ends, the container named by each record in memory exists. */
  lemma SwitchKeepsServed(h: Host, id: int, version: Php, f: Faults, containerId: string)
    requires Distinct(h.sites) && Served(h.sites, h.containers)
    ensures var t := Last(Stages(h, id, version, f, containerId));
            Distinct(t.sites) && Served(t.sites, t.containers)
  {
    FinalStage(h, id, version, f, containerId);
    if Replaces(h, id, version, f) {
      SwitchedIsServed(h, id, version, containerId);
      SwitchedIsDistinct(h, id, version, containerId);
    }
  }

  /** Docker refuses the new name while another record's container has it. */
  lemma SwitchedIsDistinct(h: Host, id: int, version: Php, containerId: string)
    requires id in h.sites && Distinct(h.sites) && Served(h.sites, h.containers) && NewName(h, id, version) !in h.containers
    ensures Distinct(h.sites[id := NewRecord(h, id, version, containerId)])
  {
    var m := h.sites[id := NewRecord(h, id, version, containerId)];
    forall j | j in h.sites && j != id
      ensures ContainerName(m[j].domain, m[j].php) != NewName(h, id, version)
    {
      assert IsServed(h.sites[j], h.containers);
    }
  }

  ghost predicate SharesContainer(m: Snapshot, id: int)
    requires id in m
  {
    exists j :: j in m && j != id && ContainerName(m[j].domain, m[j].php) == ContainerName(m[id].domain, m[id].php)
  }

  /** With records that share a container: a switch leaves one of them without exactly if it gets
      as far as removing a container that another record names. */
  lemma SwitchKeepsServedIff(h: Host, id: int, version: Php, f: Faults, containerId: string)
    requires Served(h.sites, h.containers)
    ensures var t := Last(Stages(h, id, version, f, containerId));
            Served(t.sites, t.containers) <==> !(Replaces(h, id, version, f) && SharesContainer(h.sites, id))
  {
    var t := Last(Stages(h, id, version, f, containerId));
    FinalStage(h, id, version, f, containerId);
    if Replaces(h, id, version, f) {
      NamesCollideIff(h.sites[id].domain, version, h.sites[id].domain, h.sites[id].php);
      assert IsServed(t.sites[id], t.containers);
      forall j | j in h.sites && j != id
        ensures IsServed(t.sites[j], t.containers) <==> ContainerName(h.sites[j].domain, h.sites[j].php) != OldName(h, id)
      {
        assert IsServed(h.sites[j], h.containers);
      }
    } else {
      forall j | j in t.sites
        ensures IsServed(t.sites[j], t.containers)
      {
        assert IsServed(h.sites[j], h.containers);
      }
    }
  }

  /** The container of `a.b` is that of `a-b`: switching one site takes it from the other. */
  lemma SharedContainerIsLost(h: Host, first: SiteRecord, second: SiteRecord, f: Faults, containerId: string)
    requires first.domain == "a.b" && second.domain == "a-b" && first.php == second.php == Php83
    requires h.sites == map[1 := first, 2 := second] && h.containers == {ContainerName("a.b", Php83)}
    requires Replaces(h, 1, Php84, f)
    ensures var t := Last(Stages(h, 1, Php84, f, containerId));
            Served(h.sites, h.containers) && !Served(t.sites, t.containers)
  {
    NamesCollideIff("a.b", Php83, "a-b", Php83);
    assert Sanitised("a.b") == "a-b" == Sanitised("a-b");
    assert h.sites[1] == first && h.sites[2] == second;
    assert SharesContainer(h.sites, 1);
    SwitchKeepsServedIff(h, 1, Php84, f, containerId);
  }

  /** Through all of it every site has a container of some version. */
  lemma NeverWithoutContainer(h: Host, id: int, version: Php, f: Faults, containerId: string, t: Host, j: int)
    requires Distinct(h.sites) && Served(h.sites, h.containers)
    requires t in Stages(h, id, version, f, containerId) && j in h.sites
    ensures exists v :: ContainerName(h.sites[j].domain, v) in t.containers
  {
    StagesOf(h, id, version, f, containerId, t);
    var domain := h.sites[j].domain;
    assert ContainerName(domain, h.sites[j].php) in h.containers;
    if Begins(h, id, version, f) {
      SwitchedIsServed(h, id, version, containerId);
      var m := h.sites[id := NewRecord(h, id, version, containerId)];
      assert IsServed(m[j], h.containers + {NewName(h, id, version)} - {OldName(h, id)});
      assert ContainerName(domain, m[j].php) in t.containers || ContainerName(domain, h.sites[j].php) in t.containers;
    }
  }

  /** The old container goes only after the new one was started and found healthy and Nginx was
      rewritten and reloaded. */
  lemma RemovedLast(h: Host, id: int, version: Php, f: Faults, containerId: string, t: Host)
    requires t in Stages(h, id, version, f, containerId)
    requires id in h.sites && OldName(h, id) in h.containers && OldName(h, id) !in t.containers
    ensures h.log + [Started(NewName(h, id, version)), Checked(NewName(h, id, version), true), VhostWritten(id), Reloaded,
                     Removed(OldName(h, id))] <= t.log
  {
    var target := NewName(h, id, version);
    var run := Run(h, target);
    var checked := Note(run, Checked(target, true));
    RemovedInLate(h, id, version, f, containerId, t);
    RemovedLate(checked, id, version, f, containerId, t);
    LogOfFive(h.log, Started(target), Checked(target, true), VhostWritten(id), Reloaded, Removed(OldName(h, id)));
  }

  lemma LogOfFive(log: seq<Action>, a: Action, b: Action, c: Action, d: Action, e: Action)
    ensures log + [a] + [b] + [c] + [d] + [e] == log + [a, b, c, d, e]
  {
  }

  /** Before the health check nothing is removed that was there before. */
  lemma RemovedInLate(h: Host, id: int, version: Php, f: Faults, containerId: string, t: Host)
    requires t in Stages(h, id, version, f, containerId)
    requires id in h.sites && OldName(h, id) in h.containers && OldName(h, id) !in t.containers
    ensures t in AfterCheck(Note(Run(h, NewName(h, id, version)), Checked(NewName(h, id, version), true)), id, version, f, containerId)
  {
    var run := Run(h, NewName(h, id, version));
    assert t in AfterStart(run, id, version, f, containerId);
  }

  lemma RemovedLate(c: Host, id: int, version: Php, f: Faults, containerId: string, t: Host)
    requires id in c.sites && t in AfterCheck(c, id, version, f, containerId)
    requires OldName(c, id) in c.containers && OldName(c, id) !in t.containers
    ensures c.log + [VhostWritten(id)] + [Reloaded] + [Removed(OldName(c, id))] <= t.log
  {
  }

  predicate JustRemoved(t: Host, name: string) {
    t.log != [] && t.log[|t.log| - 1] == Removed(name)
  }

  ghost predicate Names(m: Snapshot, name: string) {
    exists j :: j in m && ContainerName(m[j].domain, m[j].php) == name
  }

  lemma ServedWithout(m: Snapshot, containers: set<string>, target: string, previous: string)
    requires Served(m, containers)
    ensures Served(m, containers + {target})
    ensures Served(m, containers + {target} - {previous}) <==> !Names(m, previous)
  {
    if Names(m, previous) {
      var j :| j in m && ContainerName(m[j].domain, m[j].php) == previous;
      assert !IsServed(m[j], containers + {target} - {previous});
    }
  }

  /** The operation stops in a stage and the process lives on, because the handler that awaits the
      operation is dropped: every record in memory names an existing container exactly if the old
      container was not removed or the record was changed already. */
  lemma ServedAfterDropIff(h: Host, id: int, version: Php, f: Faults, containerId: string, t: Host)
    requires Distinct(h.sites) && Served(h.sites, h.containers)
    requires t in Stages(h, id, version, f, containerId)
    requires id in h.sites ==> !JustRemoved(h, OldName(h, id))
    ensures Distinct(t.sites)
    ensures Served(t.sites, t.containers)
            <==> !(id in h.sites && JustRemoved(t, OldName(h, id)) && t.sites == h.sites)
  {
    StagesOf(h, id, version, f, containerId, t);
    if Begins(h, id, version, f) {
      var target, previous := NewName(h, id, version), OldName(h, id);
      NamesCollideIff(h.sites[id].domain, version, h.sites[id].domain, h.sites[id].php);
      SwitchedIsServed(h, id, version, containerId);
      SwitchedIsDistinct(h, id, version, containerId);
      ServedWithout(h.sites, h.containers, target, previous);
      assert NewRecord(h, id, version, containerId).php != h.sites[id].php;
      assert Names(h.sites, previous);
    }
  }

  /** A restarted agent knows what the file says. If the process dies in a stage, every record
      it finds names an existing container, as those on file did before, exactly if the old
      container was not yet removed, or no record on file named it, or the new record was stored. */
  lemma ServedAfterCrashIff(h: Host, id: int, version: Php, f: Faults, containerId: string, t: Host)
    requires Distinct(h.sites) && Served(h.sites, h.containers) && Served(h.durable, h.containers)
    requires t in Stages(h, id, version, f, containerId)
    requires id in h.sites ==> !JustRemoved(h, OldName(h, id))
    ensures Served(t.durable, t.containers)
            <==> !(id in h.sites && JustRemoved(t, OldName(h, id)) && Names(h.durable, OldName(h, id)))
  {
    StagesOf(h, id, version, f, containerId, t);
    if Begins(h, id, version, f) {
      SwitchedIsServed(h, id, version, containerId);
      FileInStage(h, t, id, NewRecord(h, id, version, containerId), NewName(h, id, version), OldName(h, id));
    }
  }

  lemma FileInStage(h: Host, t: Host, id: int, record: SiteRecord, target: string, previous: string)
    requires IsEarly(h, t, target, previous) || InWindow(h, t, target, previous) || IsStored(h, t, id, record, target, previous)
    requires !JustRemoved(h, previous) && Served(h.durable, h.containers)
    requires Served(h.sites[id := record], h.containers + {target} - {previous})
    ensures Served(t.durable, t.containers) <==> !(JustRemoved(t, previous) && Names(h.durable, previous))
  {
    ServedWithout(h.durable, h.containers, target, previous);
  }

  /** A switch whose last flush fails leaves a file that names the removed container, although
      the memory is in order. */
  lemma FailedFlushExposes(h: Host, id: int, version: Php, f: Faults, containerId: string)
    requires Distinct(h.sites) && Served(h.sites, h.containers) && h.durable == h.sites
    requires Replaces(h, id, version, f) && !f.flush
    ensures var t := Last(Stages(h, id, version, f, containerId));
            Served(t.sites, t.containers) && id in t.durable && !IsServed(t.durable[id], t.containers)
  {
    SwitchKeepsServed(h, id, version, f, containerId);
    FinalStage(h, id, version, f, containerId);
    var t := Last(Stages(h, id, version, f, containerId));
    StagesOf(h, id, version, f, containerId, t);
    FailedFlushIsNotStored(h, id, version, f, containerId);
  }

  lemma FailedFlushIsNotStored(h: Host, id: int, version: Php, f: Faults, containerId: string)
    requires Replaces(h, id, version, f) && !f.flush
    ensures Last(Stages(h, id, version, f, containerId)).durable == h.durable
  {
    var run := Run(h, NewName(h, id, version));
    var late := AfterCheck(Note(run, Checked(NewName(h, id, version), f.healthy)), id, version, f, containerId);
    assert Last([h] + ([run] + late)) == Last(late);
  }

  predicate JustStored(t: Host, id: int) {
    t.log != [] && t.log[|t.log| - 1] == Stored(id)
  }

  /** The record on file names a container that was there before or that this switch has started,
      and not one that it has removed. */
  predicate HasContainer(h: Host, t: Host, id: int, version: Php, r: SiteRecord) {
    var name := ContainerName(r.domain, r.php);
    && (name in h.containers || (id in h.sites && name == NewName(h, id, version) && name in t.containers))
    && !(id in h.sites && JustRemoved(t, OldName(h, id)) && name == OldName(h, id))
  }

  /** In order as the memory is, and whatever the file says: a crash in a stage finds a record of
      the file, if it is still there, with its container exactly if the memory was just stored or
      the record has one. So a record that names none stays exposed through all stages of all
      switches, until one of them stores the memory or starts just that container. */
  lemma RecordAfterCrashIff(h: Host, id: int, version: Php, f: Faults, containerId: string, t: Host, j: int)
    requires Distinct(h.sites) && Served(h.sites, h.containers)
    requires t in Stages(h, id, version, f, containerId) && j in h.durable
    requires !JustStored(h, id) && (id in h.sites ==> !JustRemoved(h, OldName(h, id)))
    ensures (j in t.durable ==> IsServed(t.durable[j], t.containers))
            <==> JustStored(t, id) || HasContainer(h, t, id, version, h.durable[j])
  {
    StagesOf(h, id, version, f, containerId, t);
    if JustStored(t, id) {
      StoredIsServed(h, id, version, f, containerId, t);
    } else {
      ContainerInStage(h, id, version, f, containerId, t, h.durable[j]);
    }
  }

  lemma ContainerInStage(h: Host, id: int, version: Php, f: Faults, containerId: string, t: Host, r: SiteRecord)
    requires t in Stages(h, id, version, f, containerId) && !JustStored(t, id)
    requires id in h.sites ==> !JustRemoved(h, OldName(h, id))
    ensures t.durable == h.durable && (IsServed(r, t.containers) <==> HasContainer(h, t, id, version, r))
  {
    StagesOf(h, id, version, f, containerId, t);
    if Begins(h, id, version, f) {
      NamesCollideIff(h.sites[id].domain, version, h.sites[id].domain, h.sites[id].php);
      NameInStage(h, t, NewName(h, id, version), OldName(h, id), ContainerName(r.domain, r.php));
    }
  }

  lemma NameInStage(h: Host, t: Host, target: string, previous: string, name: string)
    requires IsEarly(h, t, target, previous) || InWindow(h, t, target, previous)
    requires target != previous && !JustRemoved(h, previous)
    ensures t.durable == h.durable
    ensures name in t.containers
            <==> && (name in h.containers || (name == target && name in t.containers))
                 && !(JustRemoved(t, previous) && name == previous)
  {
  }

  /** So for the whole file. */
  lemma FileAfterCrashIff(h: Host, id: int, version: Php, f: Faults, containerId: string, t: Host)
    requires Distinct(h.sites) && Served(h.sites, h.containers)
    requires t in Stages(h, id, version, f, containerId)
    requires !JustStored(h, id) && (id in h.sites ==> !JustRemoved(h, OldName(h, id)))
    ensures Served(t.durable, t.containers)
            <==> JustStored(t, id) || forall j :: j in h.durable ==> HasContainer(h, t, id, version, h.durable[j])
  {
    StagesOf(h, id, version, f, containerId, t);
    if JustStored(t, id) {
      StoredIsServed(h, id, version, f, containerId, t);
    } else {
      forall r: SiteRecord
        ensures t.durable == h.durable && (IsServed(r, t.containers) <==> HasContainer(h, t, id, version, r))
      {
        ContainerInStage(h, id, version, f, containerId, t, r);
      }
    }
  }

  lemma StoredIsServed(h: Host, id: int, version: Php, f: Faults, containerId: string, t: Host)
    requires Distinct(h.sites) && Served(h.sites, h.containers)
    requires t in Stages(h, id, version, f, containerId) && JustStored(t, id)
    requires !JustStored(h, id) && (id in h.sites ==> !JustRemoved(h, OldName(h, id)))
    ensures Served(t.durable, t.containers)
  {
    StagesOf(h, id, version, f, containerId, t);
    if Begins(h, id, version, f) {
      SwitchedIsServed(h, id, version, containerId);
    }
  }

  // ---------------------------------------------------------------------------------------
  // Runs
  // ---------------------------------------------------------------------------------------

  datatype Event =
    | SwitchTo(id: int, version: Php, faults: Faults, containerId: string)
    | DropIn(id: int, version: Php, faults: Faults, containerId: string, stage: nat)
    | DieIn(id: int, version: Php, faults: Faults, containerId: string, stage: nat)

  /** The log is that of the operation under way. */
  function StagesFrom(h: Host, e: Event): (s: seq<Host>)
    ensures s != []
  {
    Stages(h.(log := []), e.id, e.version, e.faults, e.containerId)
  }

  /** The state in which the operation stops, if it gets that far. */
  function Reached(h: Host, e: Event): Host
    requires !e.SwitchTo?
  {
    var stages := StagesFrom(h, e);
    stages[if e.stage < |stages| then e.stage else |stages| - 1]
  }

  /** A switch; or one that is dropped in one of its stages; or one in which the process dies,
      followed by a restart. */
  function Step(h: Host, e: Event): Host {
    match e
    case SwitchTo(_, _, _, _) => Last(StagesFrom(h, e))
    case DropIn(_, _, _, _, _) => Reached(h, e)
    case DieIn(_, _, _, _, _) => Reached(h, e).(sites := Reached(h, e).durable)
  }

  function After(h: Host, run: seq<Event>): Host {
    if run == [] then h else Step(After(h, run[..|run| - 1]), run[|run| - 1])
  }

  /** The operation is not dropped between the removal of the old container and the change of the
      record in memory; and if the process dies, the memory was just stored, or all records on file
      have their containers. */
  ghost predicate IsSafe(h: Host, e: Event) {
    match e
    case SwitchTo(_, _, _, _) => true
    case DropIn(id, _, _, _, _) =>
      !(id in h.sites && JustRemoved(Reached(h, e), OldName(h, id)) && Reached(h, e).sites == h.sites)
    case DieIn(id, version, _, _, _) =>
      || JustStored(Reached(h, e), id)
      || forall j :: j in h.durable ==> HasContainer(h, Reached(h, e), id, version, h.durable[j])
  }

  ghost predicate InOrder(h: Host) {
    Distinct(h.sites) && Distinct(h.durable) && Served(h.sites, h.containers)
  }

  /** The file has the records it had or those in memory. */
  lemma DurableIsOldOrNew(h: Host, id: int, version: Php, f: Faults, containerId: string, t: Host)
    requires t in Stages(h, id, version, f, containerId)
    ensures t.durable == h.durable || t.durable == t.sites
  {
    StagesOf(h, id, version, f, containerId, t);
  }

  lemma StepKeepsOrderIff(h: Host, e: Event)
    requires InOrder(h)
    ensures InOrder(Step(h, e)) <==> IsSafe(h, e)
  {
    var g := h.(log := []);
    var t := if e.SwitchTo? then Last(StagesFrom(h, e)) else Reached(h, e);
    DurableIsOldOrNew(g, e.id, e.version, e.faults, e.containerId, t);
    ServedAfterDropIff(g, e.id, e.version, e.faults, e.containerId, t);
    match e
    case SwitchTo(_, _, _, _) => SwitchKeepsServed(g, e.id, e.version, e.faults, e.containerId);
    case DropIn(_, _, _, _, _) =>
    case DieIn(_, _, _, _, _) =>
      FileAfterCrashIff(g, e.id, e.version, e.faults, e.containerId, t);
      SameContainers(h, g, t, e.id, e.version);
  }

  lemma SameContainers(h: Host, g: Host, t: Host, id: int, version: Php)
    requires g == h.(log := [])
    ensures forall j :: j in h.durable ==> HasContainer(h, t, id, version, h.durable[j]) == HasContainer(g, t, id, version, h.durable[j])
  {
  }

  ghost predicate AllSafe(h: Host, run: seq<Event>) {
    run == [] || (AllSafe(h, run[..|run| - 1]) && IsSafe(After(h, run[..|run| - 1]), run[|run| - 1]))
  }

  /** After every event of the run. */
  ghost predicate AlwaysInOrder(h: Host, run: seq<Event>) {
    InOrder(After(h, run)) && (run == [] || AlwaysInOrder(h, run[..|run| - 1]))
  }

  /** Over any switches with any failures, dropped and with crashes anywhere: the container of the
      version in the agent's record exists whenever no operation is under way, exactly if every
      drop and every crash is safe. */
  lemma {:induction false} RecordsAreServedIff(h: Host, run: seq<Event>)
    requires InOrder(h)
    ensures AlwaysInOrder(h, run) <==> AllSafe(h, run)
  {
    if run != [] {
      var front, e := run[..|run| - 1], run[|run| - 1];
      RecordsAreServedIff(h, front);
      if AlwaysInOrder(h, front) {
        StepKeepsOrderIff(After(h, front), e);
      }
    }
  }

  /** One switch, dropped right after the removal, leaves its record without a container. */
  lemma DroppedAfterRemoval(r: SiteRecord, f: Faults, containerId: string)
    requires r.php == Php83 && f.pull && f.run && f.inspect && f.healthy && f.write && f.reload && f.removeOld
    ensures var h := Host(map[1 := r], map[1 := r], {ContainerName(r.domain, Php83)}, []);
            var t := Step(h, DropIn(1, Php84, f, containerId, 5));
            InOrder(h) && t.sites == h.sites && !IsServed(t.sites[1], t.containers)
  {
    var h := Host(map[1 := r], map[1 := r], {ContainerName(r.domain, Php83)}, []);
    NamesCollideIff(r.domain, Php83, r.domain, Php84);
    assert Begins(h, 1, Php84, f);
    var run := Run(h, NewName(h, 1, Php84));
    var late := AfterCheck(Note(run, Checked(NewName(h, 1, Php84), true)), 1, Php84, f, containerId);
    assert h.(log := []) == h;
    assert Stages(h, 1, Php84, f, containerId) == [h] + ([run] + late);
    assert ([h] + ([run] + late))[5] == late[3];
  }
}
