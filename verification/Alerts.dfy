/** Notifications and the evaluation of the alert rules that opens and resolves them. */
module Alerts {
  import opened Text

  datatype Rule = DiskHigh | SslExpiring | SiteOffline | BackupStale

  datatype Severity = Critical | Warning

  function SeverityFor(rule: Rule): Severity {
    match rule
    case DiskHigh => Critical
    case SslExpiring => Warning
    case SiteOffline => Critical
    case BackupStale => Warning
  }

  /** What a notification is about. */
  datatype Topic = Topic(rule: Rule, target: string)

  datatype Note = Note(topic: Topic, severity: Severity, createdAt: int, resolvedAt: Option<int>)

  predicate IsOpen(n: Note, topic: Topic) {
    n.topic == topic && n.resolvedAt.None?
  }

  predicate AnyOpen(rows: seq<Note>, topic: Topic) {
    exists i :: 0 <= i < |rows| && IsOpen(rows[i], topic)
  }

  function Opened(rows: seq<Note>, topic: Topic, now: int): seq<Note> {
    if AnyOpen(rows, topic) then rows else rows + [Note(topic, SeverityFor(topic.rule), now, None)]
  }

  function ResolvedNote(n: Note, topic: Topic, now: int): Note {
    if IsOpen(n, topic) then n.(resolvedAt := Some(now)) else n
  }

  function ResolvedAll(rows: seq<Note>, topic: Topic, now: int): (r: seq<Note>)
    ensures |r| == |rows| && forall i :: 0 <= i < |rows| ==> r[i] == ResolvedNote(rows[i], topic, now)
  {
    seq(|rows|, (i: nat) requires i < |rows| => ResolvedNote(rows[i], topic, now))
  }

  /** The `notifications` table; a row's id is its position. */
  class Notifications {
    var rows: seq<Note>

    constructor ()
      ensures rows == []
    {
      rows := [];
    }

    method OpenIfAbsent(topic: Topic, now: int) returns (isNew: bool)
      modifies this
      ensures isNew <==> forall i :: 0 <= i < |old(rows)| ==> old(rows)[i].topic != topic || old(rows)[i].resolvedAt.Some?
      ensures !isNew ==> rows == old(rows)
      ensures isNew ==> rows == old(rows) + [Note(topic,
                if topic.rule == DiskHigh || topic.rule == SiteOffline then Critical else Warning, now, None)]
      ensures rows == Opened(old(rows), topic, now)
    {
      var i := 0;
      while i < |rows| && !IsOpen(rows[i], topic)
        invariant 0 <= i <= |rows| && forall k :: 0 <= k < i ==> !IsOpen(rows[k], topic)
      {
        i := i + 1;
      }
      if i < |rows| {
        return false;
      }
      rows := rows + [Note(topic, SeverityFor(topic.rule), now, None)];
      isNew := true;
    }

    method ResolveRule(topic: Topic, now: int) returns (affected: nat)
      modifies this
      ensures |rows| == |old(rows)|
      ensures forall i :: 0 <= i < |rows| ==>
                rows[i] == if old(rows)[i].topic == topic && old(rows)[i].resolvedAt.None?
                           then old(rows)[i].(resolvedAt := Some(now)) else old(rows)[i]
      ensures rows == ResolvedAll(old(rows), topic, now)
      ensures affected > 0 <==> AnyOpen(old(rows), topic)
    {
      affected := 0;
      ghost var was := rows;
      for i := 0 to |rows|
        invariant |rows| == |was|
        invariant forall k :: 0 <= k < i ==> rows[k] == ResolvedNote(was[k], topic, now)
        invariant forall k :: i <= k < |was| ==> rows[k] == was[k]
        invariant affected > 0 <==> exists k :: 0 <= k < i && IsOpen(was[k], topic)
      {
        if IsOpen(rows[i], topic) {
          rows := rows[i := rows[i].(resolvedAt := Some(now))];
          affected := affected + 1;
        }
      }
    }

    /** The row with that id, if there is one, is resolved now, even if it was before; no other row
        and no other field changes. */
    method Resolve(id: nat, now: int)
      modifies this
      ensures |rows| == |old(rows)|
      ensures id < |rows| ==>
                && rows[id].resolvedAt == Some(now) && rows[id].topic == old(rows)[id].topic
                && rows[id].severity == old(rows)[id].severity && rows[id].createdAt == old(rows)[id].createdAt
      ensures forall i :: 0 <= i < |rows| && i != id ==> rows[i] == old(rows)[i]
      ensures rows == if id < |old(rows)| then old(rows)[id := old(rows)[id].(resolvedAt := Some(now))] else old(rows)
    {
      if id < |rows| {
        rows := rows[id := rows[id].(resolvedAt := Some(now))];
      }
    }
  }

  // ---------------------------------------------------------------------------------------
  // Evaluation
  // ---------------------------------------------------------------------------------------

  datatype Server = Server(name: string, offline: bool, diskPercent: real)

  datatype Site = Site(domain: string, failed: bool, expiresAt: Option<int>)

  /** An enabled schedule, with the newest backup of its site and the site's domain as they were
      read; a failed read gives nothing. */
  datatype Check = Check(lastBackup: Option<int>, domain: Option<string>)

  const HOUR := 60 * 60
  const DAY := 24 * HOUR

  datatype Verdict = Verdict(topic: Topic, holds: bool)

  function DiskVerdict(s: Server): seq<Verdict> {
    if s.offline then [] else [Verdict(Topic(DiskHigh, s.name), s.diskPercent > 85.0)]
  }

  function SslVerdict(s: Site, now: int): seq<Verdict> {
    match s.expiresAt
    case None => []
    case Some(expires) => [Verdict(Topic(SslExpiring, s.domain), 0 < expires - now < 14 * DAY)]
  }

  function OfflineVerdict(s: Site): seq<Verdict> {
    [Verdict(Topic(SiteOffline, s.domain), s.failed)]
  }

  predicate IsStale(c: Check, now: int) {
    c.lastBackup.None? || now - c.lastBackup.value > 48 * HOUR
  }

  function BackupVerdict(c: Check, now: int): seq<Verdict> {
    match c.domain
    case None => []
    case Some(domain) => [Verdict(Topic(BackupStale, domain), IsStale(c, now))]
  }

  /** The verdicts on a list of rows, in order. */
  function AllOf<T>(rows: seq<T>, f: T -> seq<Verdict>): seq<Verdict> {
    if rows == [] then [] else AllOf(rows[..|rows| - 1], f) + f(rows[|rows| - 1])
  }

  function Verdicts(servers: seq<Server>, sites: seq<Site>, checks: seq<Check>, now: int): seq<Verdict> {
    AllOf(servers, DiskVerdict) + (AllOf(sites, (s: Site) => SslVerdict(s, now))
      + (AllOf(sites, OfflineVerdict) + AllOf(checks, (c: Check) => BackupVerdict(c, now))))
  }

  function Apply(rows: seq<Note>, v: Verdict, now: int): seq<Note> {
    if v.holds then Opened(rows, v.topic, now) else ResolvedAll(rows, v.topic, now)
  }

  function ApplyAll(rows: seq<Note>, vs: seq<Verdict>, now: int): seq<Note> {
    if vs == [] then rows else Apply(ApplyAll(rows, vs[..|vs| - 1], now), vs[|vs| - 1], now)
  }

  lemma {:induction false} ApplyConcat(rows: seq<Note>, a: seq<Verdict>, b: seq<Verdict>, now: int)
    ensures ApplyAll(rows, a + b, now) == ApplyAll(ApplyAll(rows, a, now), b, now)
  {
    if b == [] {
      assert a + b == a;
    } else {
      ApplyConcat(rows, a, b[..|b| - 1], now);
      assert (a + b)[..|a + b| - 1] == a + b[..|b| - 1];
    }
  }

  lemma ApplyMore<T>(rows: seq<Note>, list: seq<T>, i: nat, f: T -> seq<Verdict>, now: int)
    requires i < |list|
    ensures ApplyAll(rows, AllOf(list[..i + 1], f), now) == ApplyAll(ApplyAll(rows, AllOf(list[..i], f), now), f(list[i]), now)
  {
    assert list[..i + 1][..i] == list[..i];
    ApplyConcat(rows, AllOf(list[..i], f), f(list[i]), now);
  }

  method SetNote(table: Notifications, v: Verdict, now: int)
    modifies table
    ensures table.rows == Apply(old(table.rows), v, now)
    ensures table.rows == ApplyAll(old(table.rows), [v], now)
  {
    if v.holds {
      var isNew := table.OpenIfAbsent(v.topic, now);
    } else {
      var affected := table.ResolveRule(v.topic, now);
    }
    assert [v][..0] == [];
    assert ApplyAll(old(table.rows), [], now) == old(table.rows);
  }

  method EvaluateServers(table: Notifications, servers: seq<Server>, now: int)
    modifies table
    ensures table.rows == ApplyAll(old(table.rows), AllOf(servers, DiskVerdict), now)
  {
    assert servers[..0] == [];
    for i := 0 to |servers|
      invariant table.rows == ApplyAll(old(table.rows), AllOf(servers[..i], DiskVerdict), now)
    {
      var row := servers[i];
      ApplyMore(old(table.rows), servers, i, DiskVerdict, now);
      if row.offline {
        continue;
      }
      SetNote(table, Verdict(Topic(DiskHigh, row.name), row.diskPercent > 85.0), now);
    }
    assert servers[..|servers|] == servers;
  }

  method EvaluateCertificates(table: Notifications, sites: seq<Site>, now: int)
    modifies table
    ensures table.rows == ApplyAll(old(table.rows), AllOf(sites, (s: Site) => SslVerdict(s, now)), now)
  {
    ghost var f := (s: Site) => SslVerdict(s, now);
    assert sites[..0] == [];
    for i := 0 to |sites|
      invariant table.rows == ApplyAll(old(table.rows), AllOf(sites[..i], f), now)
    {
      var row := sites[i];
      ApplyMore(old(table.rows), sites, i, f, now);
      if row.expiresAt.Some? {
        var remaining := row.expiresAt.value - now;
        SetNote(table, Verdict(Topic(SslExpiring, row.domain), remaining < 14 * DAY && remaining > 0), now);
      }
    }
    assert sites[..|sites|] == sites;
  }

  method EvaluateSites(table: Notifications, sites: seq<Site>, now: int)
    modifies table
    ensures table.rows == ApplyAll(old(table.rows), AllOf(sites, OfflineVerdict), now)
  {
    assert sites[..0] == [];
    for i := 0 to |sites|
      invariant table.rows == ApplyAll(old(table.rows), AllOf(sites[..i], OfflineVerdict), now)
    {
      ApplyMore(old(table.rows), sites, i, OfflineVerdict, now);
      SetNote(table, Verdict(Topic(SiteOffline, sites[i].domain), sites[i].failed), now);
    }
    assert sites[..|sites|] == sites;
  }

  method EvaluateBackups(table: Notifications, checks: seq<Check>, now: int)
    modifies table
    ensures table.rows == ApplyAll(old(table.rows), AllOf(checks, (c: Check) => BackupVerdict(c, now)), now)
  {
    ghost var f := (c: Check) => BackupVerdict(c, now);
    assert checks[..0] == [];
    for i := 0 to |checks|
      invariant table.rows == ApplyAll(old(table.rows), AllOf(checks[..i], f), now)
    {
      var check := checks[i];
      ApplyMore(old(table.rows), checks, i, f, now);
      var stale := true;
      if check.lastBackup.Some? {
        stale := now - check.lastBackup.value > 48 * HOUR;
      }
      if check.domain.Some? {
        SetNote(table, Verdict(Topic(BackupStale, check.domain.value), stale), now);
      }
    }
    assert checks[..|checks|] == checks;
  }

  method Evaluate(table: Notifications, servers: seq<Server>, sites: seq<Site>, checks: seq<Check>, now: int)
    modifies table
    ensures table.rows == ApplyAll(old(table.rows), Verdicts(servers, sites, checks, now), now)
  {
    ghost var was := table.rows;
    ghost var disk, ssl := AllOf(servers, DiskVerdict), AllOf(sites, (s: Site) => SslVerdict(s, now));
    ghost var offline, backup := AllOf(sites, OfflineVerdict), AllOf(checks, (c: Check) => BackupVerdict(c, now));
    EvaluateServers(table, servers, now);
    EvaluateCertificates(table, sites, now);
    EvaluateSites(table, sites, now);
    EvaluateBackups(table, checks, now);
    ApplyConcat(was, disk, ssl + (offline + backup), now);
    ApplyConcat(ApplyAll(was, disk, now), ssl, offline + backup, now);
    ApplyConcat(ApplyAll(ApplyAll(was, disk, now), ssl, now), offline, backup, now);
  }

  // ---------------------------------------------------------------------------------------
  // What is open after an evaluation
  // ---------------------------------------------------------------------------------------

  lemma OpenAfter(rows: seq<Note>, v: Verdict, now: int, topic: Topic)
    ensures AnyOpen(Apply(rows, v, now), topic) <==> if v.topic == topic then v.holds else AnyOpen(rows, topic)
  {
    var after := Apply(rows, v, now);
    if AnyOpen(rows, topic) {
      var i :| 0 <= i < |rows| && IsOpen(rows[i], topic);
      assert v.holds || v.topic != topic ==> after[i] == rows[i];
    }
    if v.holds && !AnyOpen(rows, v.topic) {
      assert IsOpen(after[|rows|], v.topic);
    }
    if AnyOpen(after, topic) {
      var i :| 0 <= i < |after| && IsOpen(after[i], topic);
      assert i < |rows| ==> IsOpen(rows[i], topic);
    }
  }

  /** The last verdict on a topic. */
  function LastOn(vs: seq<Verdict>, topic: Topic): Option<bool> {
    if vs == [] then None
    else if vs[|vs| - 1].topic == topic then Some(vs[|vs| - 1].holds)
    else LastOn(vs[..|vs| - 1], topic)
  }

  lemma {:induction false} LastDecides(rows: seq<Note>, vs: seq<Verdict>, now: int, topic: Topic)
    ensures AnyOpen(ApplyAll(rows, vs, now), topic) <==>
            match LastOn(vs, topic) case Some(holds) => holds case None => AnyOpen(rows, topic)
  {
    if vs != [] {
      LastDecides(rows, vs[..|vs| - 1], now, topic);
      OpenAfter(ApplyAll(rows, vs[..|vs| - 1], now), vs[|vs| - 1], now, topic);
    }
  }

  ghost predicate Consistent(vs: seq<Verdict>) {
    forall v, w :: v in vs && w in vs && v.topic == w.topic ==> v.holds == w.holds
  }

  lemma {:induction false} LastIsAny(vs: seq<Verdict>, v: Verdict)
    requires v in vs && forall w :: w in vs && w.topic == v.topic ==> w.holds == v.holds
    ensures LastOn(vs, v.topic) == Some(v.holds)
  {
    var front, last := vs[..|vs| - 1], vs[|vs| - 1];
    assert vs == front + [last];
    if last.topic != v.topic {
      LastIsAny(front, v);
    }
  }

  lemma {:induction false} InAllOf<T>(rows: seq<T>, f: T -> seq<Verdict>, v: Verdict)
    ensures v in AllOf(rows, f) <==> exists i :: 0 <= i < |rows| && v in f(rows[i])
  {
    if rows != [] {
      var front := rows[..|rows| - 1];
      InAllOf(front, f, v);
      assert forall i :: 0 <= i < |front| ==> front[i] == rows[i];
    }
  }

  /** Table constraints: names and domains are unique. */
  ghost predicate InputOk(servers: seq<Server>, sites: seq<Site>) {
    && (forall i, j :: 0 <= i < j < |servers| ==> servers[i].name != servers[j].name)
    && forall i, j :: 0 <= i < j < |sites| ==> sites[i].domain != sites[j].domain
  }

  /** One site's schedules were read alike. */
  ghost predicate ReadAlike(checks: seq<Check>) {
    forall i, j :: 0 <= i < j < |checks| && checks[i].domain.Some? && checks[i].domain == checks[j].domain ==>
      checks[i] == checks[j]
  }

  /** No later schedule is of the same site. */
  ghost predicate IsLastRead(checks: seq<Check>, i: nat)
    requires i < |checks|
  {
    forall k :: i < k < |checks| ==> checks[k].domain != checks[i].domain
  }

  /** The conditions themselves, each for the targets its rule examines. */
  ghost predicate Examined(servers: seq<Server>, sites: seq<Site>, checks: seq<Check>, now: int, v: Verdict) {
    match v.topic.rule
    case DiskHigh => exists i :: 0 <= i < |servers| && v in DiskVerdict(servers[i])
    case SslExpiring => exists i :: 0 <= i < |sites| && v in SslVerdict(sites[i], now)
    case SiteOffline => exists i :: 0 <= i < |sites| && v in OfflineVerdict(sites[i])
    case BackupStale => exists i :: 0 <= i < |checks| && v in BackupVerdict(checks[i], now)
  }

  lemma InVerdicts(servers: seq<Server>, sites: seq<Site>, checks: seq<Check>, now: int, v: Verdict)
    ensures v in Verdicts(servers, sites, checks, now) <==> Examined(servers, sites, checks, now, v)
  {
    InAllOf(servers, DiskVerdict, v);
    InAllOf(sites, (s: Site) => SslVerdict(s, now), v);
    InAllOf(sites, OfflineVerdict, v);
    InAllOf(checks, (c: Check) => BackupVerdict(c, now), v);
  }

  lemma VerdictsAgree(servers: seq<Server>, sites: seq<Site>, checks: seq<Check>, now: int)
    requires InputOk(servers, sites) && ReadAlike(checks)
    ensures Consistent(Verdicts(servers, sites, checks, now))
  {
    var vs := Verdicts(servers, sites, checks, now);
    forall v, w | v in vs && w in vs && v.topic == w.topic
      ensures v.holds == w.holds
    {
      InVerdicts(servers, sites, checks, now, v);
      InVerdicts(servers, sites, checks, now, w);
      SameTopicSameVerdict(servers, sites, checks, now, v, w);
    }
  }

  lemma SameTopicSameVerdict(servers: seq<Server>, sites: seq<Site>, checks: seq<Check>, now: int, v: Verdict, w: Verdict)
    requires InputOk(servers, sites) && v.topic == w.topic
    requires v.topic.rule == BackupStale ==> ReadAlike(checks)
    requires Examined(servers, sites, checks, now, v) && Examined(servers, sites, checks, now, w)
    ensures v == w
  {
    match v.topic.rule {
      case DiskHigh => SameDiskVerdict(servers, v, w);
      case SslExpiring => SameSiteVerdict(sites, (s: Site) => SslVerdict(s, now), v, w);
      case SiteOffline => SameSiteVerdict(sites, OfflineVerdict, v, w);
      case BackupStale => SameBackupVerdict(checks, now, v, w);
    }
  }

  lemma SameDiskVerdict(servers: seq<Server>, v: Verdict, w: Verdict)
    requires forall i, j :: 0 <= i < j < |servers| ==> servers[i].name != servers[j].name
    requires exists i :: 0 <= i < |servers| && v in DiskVerdict(servers[i])
    requires exists i :: 0 <= i < |servers| && w in DiskVerdict(servers[i])
    requires v.topic == w.topic
    ensures v == w
  {
    var i :| 0 <= i < |servers| && v in DiskVerdict(servers[i]);
    var j :| 0 <= j < |servers| && w in DiskVerdict(servers[j]);
    assert servers[i].name == v.topic.target == servers[j].name;
  }

  lemma SameSiteVerdict(sites: seq<Site>, f: Site -> seq<Verdict>, v: Verdict, w: Verdict)
    requires forall i, j :: 0 <= i < j < |sites| ==> sites[i].domain != sites[j].domain
    requires forall s :: |f(s)| <= 1 && forall x :: x in f(s) ==> x.topic.target == s.domain
    requires exists i :: 0 <= i < |sites| && v in f(sites[i])
    requires exists i :: 0 <= i < |sites| && w in f(sites[i])
    requires v.topic == w.topic
    ensures v == w
  {
    var i :| 0 <= i < |sites| && v in f(sites[i]);
    var j :| 0 <= j < |sites| && w in f(sites[j]);
    assert sites[i].domain == v.topic.target == sites[j].domain;
  }

  lemma SameBackupVerdict(checks: seq<Check>, now: int, v: Verdict, w: Verdict)
    requires ReadAlike(checks)
    requires exists i :: 0 <= i < |checks| && v in BackupVerdict(checks[i], now)
    requires exists i :: 0 <= i < |checks| && w in BackupVerdict(checks[i], now)
    requires v.topic == w.topic
    ensures v == w
  {
    var i :| 0 <= i < |checks| && v in BackupVerdict(checks[i], now);
    var j :| 0 <= j < |checks| && w in BackupVerdict(checks[j], now);
    assert checks[i].domain == Some(v.topic.target) == checks[j].domain;
    assert i == j || checks[i] == checks[j];
  }

  ghost function Evaluated(rows: seq<Note>, servers: seq<Server>, sites: seq<Site>, checks: seq<Check>, now: int): seq<Note> {
    ApplyAll(rows, Verdicts(servers, sites, checks, now), now)
  }

  lemma ExaminedIsDecided(rows: seq<Note>, servers: seq<Server>, sites: seq<Site>, checks: seq<Check>, now: int, v: Verdict)
    requires InputOk(servers, sites) && Examined(servers, sites, checks, now, v) && v.topic.rule != BackupStale
    ensures AnyOpen(Evaluated(rows, servers, sites, checks, now), v.topic) <==> v.holds
  {
    var vs := Verdicts(servers, sites, checks, now);
    InVerdicts(servers, sites, checks, now, v);
    forall w | w in vs && w.topic == v.topic
      ensures w.holds == v.holds
    {
      InVerdicts(servers, sites, checks, now, w);
      SameTopicSameVerdict(servers, sites, checks, now, v, w);
    }
    LastIsAny(vs, v);
    LastDecides(rows, vs, now, v.topic);
  }

  lemma {:induction false} LastOnConcat(a: seq<Verdict>, b: seq<Verdict>, topic: Topic)
    ensures LastOn(a + b, topic) == if LastOn(b, topic).Some? then LastOn(b, topic) else LastOn(a, topic)
  {
    if b == [] {
      assert a + b == a;
    } else {
      LastOnConcat(a, b[..|b| - 1], topic);
      assert (a + b)[..|a + b| - 1] == a + b[..|b| - 1];
    }
  }

  lemma LastOnOne(v: Verdict, topic: Topic)
    ensures LastOn([v], topic) == if v.topic == topic then Some(v.holds) else None
  {
    assert [v][..0] == [];
  }

  /** Of the schedules of one site the last that was read gives the last verdict. */
  lemma {:induction false} LastReadDecides(checks: seq<Check>, now: int, f: Check -> seq<Verdict>, i: nat)
    requires f == ((c: Check) => BackupVerdict(c, now))
    requires i < |checks| && checks[i].domain.Some? && IsLastRead(checks, i)
    ensures LastOn(AllOf(checks, f), Topic(BackupStale, checks[i].domain.value)) == Some(IsStale(checks[i], now))
  {
    var front, last := checks[..|checks| - 1], checks[|checks| - 1];
    var topic := Topic(BackupStale, checks[i].domain.value);
    LastOnConcat(AllOf(front, f), f(last), topic);
    if last.domain.Some? {
      LastOnOne(BackupVerdict(last, now)[0], topic);
    }
    if i < |checks| - 1 {
      assert forall k :: 0 <= k < |front| ==> front[k] == checks[k];
      assert last.domain != checks[i].domain;
      LastReadDecides(front, now, f, i);
    }
  }

  lemma BackupIsDecided(rows: seq<Note>, servers: seq<Server>, sites: seq<Site>, checks: seq<Check>, now: int, i: nat)
    requires i < |checks| && checks[i].domain.Some? && IsLastRead(checks, i)
    ensures AnyOpen(Evaluated(rows, servers, sites, checks, now), Topic(BackupStale, checks[i].domain.value))
            <==> IsStale(checks[i], now)
  {
    var topic := Topic(BackupStale, checks[i].domain.value);
    var f := (c: Check) => BackupVerdict(c, now);
    var disk, ssl := AllOf(servers, DiskVerdict), AllOf(sites, (s: Site) => SslVerdict(s, now));
    var offline, backup := AllOf(sites, OfflineVerdict), AllOf(checks, f);
    LastReadDecides(checks, now, f, i);
    LastOnConcat(disk, ssl + (offline + backup), topic);
    LastOnConcat(ssl, offline + backup, topic);
    LastOnConcat(offline, backup, topic);
    LastDecides(rows, Verdicts(servers, sites, checks, now), now, topic);
  }

  /** After an evaluation a notification is open exactly if the condition of its rule holds, for
      every target the rule examines; of several schedules of a site the last one read counts. */
  lemma OpenIffConditionHolds(rows: seq<Note>, servers: seq<Server>, sites: seq<Site>, checks: seq<Check>, now: int)
    requires InputOk(servers, sites)
    ensures var after := Evaluated(rows, servers, sites, checks, now);
            && (forall i :: 0 <= i < |servers| && !servers[i].offline ==>
                  (AnyOpen(after, Topic(DiskHigh, servers[i].name)) <==> servers[i].diskPercent > 85.0))
            && (forall i :: 0 <= i < |sites| && sites[i].expiresAt.Some? ==>
                  (AnyOpen(after, Topic(SslExpiring, sites[i].domain)) <==> now < sites[i].expiresAt.value < now + 14 * 24 * 60 * 60))
            && (forall i :: 0 <= i < |sites| ==>
                  (AnyOpen(after, Topic(SiteOffline, sites[i].domain)) <==> sites[i].failed))
            && (forall i :: 0 <= i < |checks| && checks[i].domain.Some? && IsLastRead(checks, i) ==>
                  (AnyOpen(after, Topic(BackupStale, checks[i].domain.value))
                   <==> checks[i].lastBackup == None || now - checks[i].lastBackup.value > 48 * 60 * 60))
  {
    forall i | 0 <= i < |servers| && !servers[i].offline
      ensures AnyOpen(Evaluated(rows, servers, sites, checks, now), Topic(DiskHigh, servers[i].name)) <==> servers[i].diskPercent > 85.0
    {
      ExaminedIsDecided(rows, servers, sites, checks, now, DiskVerdict(servers[i])[0]);
    }
    forall i | 0 <= i < |sites|
      ensures AnyOpen(Evaluated(rows, servers, sites, checks, now), Topic(SiteOffline, sites[i].domain)) <==> sites[i].failed
      ensures sites[i].expiresAt.Some? ==>
                (AnyOpen(Evaluated(rows, servers, sites, checks, now), Topic(SslExpiring, sites[i].domain))
                 <==> now < sites[i].expiresAt.value < now + 14 * 24 * 60 * 60)
    {
      ExaminedIsDecided(rows, servers, sites, checks, now, OfflineVerdict(sites[i])[0]);
      if sites[i].expiresAt.Some? {
        ExaminedIsDecided(rows, servers, sites, checks, now, SslVerdict(sites[i], now)[0]);
      }
    }
    forall i | 0 <= i < |checks| && checks[i].domain.Some? && IsLastRead(checks, i)
      ensures AnyOpen(Evaluated(rows, servers, sites, checks, now), Topic(BackupStale, checks[i].domain.value)) <==> IsStale(checks[i], now)
    {
      BackupIsDecided(rows, servers, sites, checks, now, i);
    }
  }

  /** The rows of a topic are the same, and none was added. */
  ghost predicate SameOn(before: seq<Note>, after: seq<Note>, topic: Topic) {
    && |before| <= |after|
    && (forall i :: 0 <= i < |before| && before[i].topic == topic ==> after[i] == before[i])
    && (forall i :: 0 <= i < |before| ==> after[i].topic == before[i].topic)
    && forall i :: |before| <= i < |after| ==> after[i].topic != topic
  }

  /** Targets that no rule examines are left alone. */
  lemma {:induction false} OthersAreUntouched(rows: seq<Note>, vs: seq<Verdict>, now: int, topic: Topic)
    requires forall v :: v in vs ==> v.topic != topic
    ensures SameOn(rows, ApplyAll(rows, vs, now), topic)
  {
    if vs != [] {
      OthersAreUntouched(rows, vs[..|vs| - 1], now, topic);
    }
  }

  lemma {:induction false} DecidedIsStable(rows: seq<Note>, vs: seq<Verdict>, now: int)
    requires forall v :: v in vs ==> (AnyOpen(rows, v.topic) <==> v.holds)
    ensures ApplyAll(rows, vs, now) == rows
  {
    if vs != [] {
      DecidedIsStable(rows, vs[..|vs| - 1], now);
      assert vs[|vs| - 1] in vs;
    }
  }

  /** Evaluating the same data again, at any time, changes nothing: no second row, no later
      resolution. */
  lemma SecondEvaluationChangesNothing(rows: seq<Note>, vs: seq<Verdict>, now: int, later: int)
    requires Consistent(vs)
    ensures var after := ApplyAll(rows, vs, now); ApplyAll(after, vs, later) == after
  {
    forall v | v in vs
      ensures AnyOpen(ApplyAll(rows, vs, now), v.topic) <==> v.holds
    {
      LastIsAny(vs, v);
      LastDecides(rows, vs, now, v.topic);
    }
    DecidedIsStable(ApplyAll(rows, vs, now), vs, later);
  }

  /** So it is for the verdicts of an evaluation whose reads of one site agree. */
  lemma SameDataChangesNothing(rows: seq<Note>, servers: seq<Server>, sites: seq<Site>, checks: seq<Check>, now: int, later: int)
    requires InputOk(servers, sites) && ReadAlike(checks)
    ensures var after := Evaluated(rows, servers, sites, checks, now);
            ApplyAll(after, Verdicts(servers, sites, checks, now), later) == after
  {
    VerdictsAgree(servers, sites, checks, now);
    SecondEvaluationChangesNothing(rows, Verdicts(servers, sites, checks, now), now, later);
  }

  // ---------------------------------------------------------------------------------------
  // Every run
  // ---------------------------------------------------------------------------------------

  /** `open_if_absent` is two statements; in between, the evaluator knows that its topic was not
      open. Failed statements and restarts give up what is under way. */
  datatype State = State(rows: seq<Note>, absent: Option<Topic>)

  datatype Event =
    | Select(topic: Topic)
    | Insert(now: int)
    | GiveUp
    | ResolveTopic(topic: Topic, now: int)
    | ManualResolve(id: nat, now: int)

  function Step(s: State, e: Event): State {
    match e
    case Select(topic) => s.(absent := if AnyOpen(s.rows, topic) then None else Some(topic))
    case Insert(now) =>
      if s.absent.None? then s
      else State(s.rows + [Note(s.absent.value, SeverityFor(s.absent.value.rule), now, None)], None)
    case GiveUp => s.(absent := None)
    case ResolveTopic(topic, now) => State(ResolvedAll(s.rows, topic, now), None)
    case ManualResolve(id, now) =>
      if id < |s.rows| then s.(rows := s.rows[id := s.rows[id].(resolvedAt := Some(now))]) else s
  }

  function After(s: State, run: seq<Event>): State {
    if run == [] then s else Step(After(s, run[..|run| - 1]), run[|run| - 1])
  }

  ghost predicate AtMostOneOpen(rows: seq<Note>) {
    forall i, j, topic :: 0 <= i < j < |rows| && IsOpen(rows[i], topic) ==> !IsOpen(rows[j], topic)
  }

  /** Whatever is resolved by hand or by rule, and wherever the evaluator stops: no two
      notifications are ever open for the same rule and target. */
  lemma {:induction false} NeverTwoOpen(run: seq<Event>)
    ensures var s := After(State([], None), run);
            AtMostOneOpen(s.rows) && (s.absent.Some? ==> !AnyOpen(s.rows, s.absent.value))
  {
    if run != [] {
      NeverTwoOpen(run[..|run| - 1]);
      StepKeepsOne(After(State([], None), run[..|run| - 1]), run[|run| - 1]);
    }
  }

  lemma StepKeepsOne(s: State, e: Event)
    requires AtMostOneOpen(s.rows) && (s.absent.Some? ==> !AnyOpen(s.rows, s.absent.value))
    ensures var t := Step(s, e); AtMostOneOpen(t.rows) && (t.absent.Some? ==> !AnyOpen(t.rows, t.absent.value))
  {
    var t := Step(s, e);
    forall i, topic | 0 <= i < |t.rows| && IsOpen(t.rows[i], topic) && !e.Insert?
      ensures i < |s.rows| && IsOpen(s.rows[i], topic)
    {
    }
  }

  /** The statements of an evaluation that nothing interrupts. */
  function RunOf(vs: seq<Verdict>, now: int): seq<Event> {
    if vs == [] then []
    else
      var last := vs[|vs| - 1];
      RunOf(vs[..|vs| - 1], now) + if last.holds then [Select(last.topic), Insert(now)] else [ResolveTopic(last.topic, now)]
  }

  lemma {:induction false} AfterConcat(s: State, a: seq<Event>, b: seq<Event>)
    ensures After(s, a + b) == After(After(s, a), b)
  {
    if b == [] {
      assert a + b == a;
    } else {
      AfterConcat(s, a, b[..|b| - 1]);
      assert (a + b)[..|a + b| - 1] == a + b[..|b| - 1];
    }
  }

  /** One call of `open_if_absent` that nothing interrupts is those two steps. */
  lemma OpenIsSelectThenInsert(rows: seq<Note>, topic: Topic, now: int)
    ensures After(State(rows, None), [Select(topic), Insert(now)]) == State(Opened(rows, topic, now), None)
  {
    var s := State(rows, None);
    assert [Select(topic), Insert(now)][..1] == [Select(topic)];
    assert [Select(topic)][..0] == [];
    assert After(s, [Select(topic)]) == Step(s, Select(topic));
  }

  lemma ResolveIsAStep(rows: seq<Note>, topic: Topic, now: int)
    ensures After(State(rows, None), [ResolveTopic(topic, now)]) == State(ResolvedAll(rows, topic, now), None)
  {
    assert [ResolveTopic(topic, now)][..0] == [];
    assert After(State(rows, None), []) == State(rows, None);
  }

  lemma {:induction false} EvaluationIsARun(rows: seq<Note>, vs: seq<Verdict>, now: int)
    ensures After(State(rows, None), RunOf(vs, now)) == State(ApplyAll(rows, vs, now), None)
  {
    if vs != [] {
      var front, last := vs[..|vs| - 1], vs[|vs| - 1];
      EvaluationIsARun(rows, front, now);
      OpenIsSelectThenInsert(ApplyAll(rows, front, now), last.topic, now);
      ResolveIsAStep(ApplyAll(rows, front, now), last.topic, now);
      AfterConcat(State(rows, None), RunOf(front, now),
                  if last.holds then [Select(last.topic), Insert(now)] else [ResolveTopic(last.topic, now)]);
    }
  }

  /** A whole evaluation of any verdicts, after whatever happened before, is such a run. */
  lemma EvaluationKeepsOne(run: seq<Event>, vs: seq<Verdict>, now: int)
    ensures AtMostOneOpen(ApplyAll(After(State([], None), run).rows, vs, now))
  {
    var start := State([], None);
    var rows := After(start, run).rows;
    assert (run + [GiveUp])[..|run|] == run;
    assert After(start, run + [GiveUp]) == State(rows, None);
    AfterConcat(start, run + [GiveUp], RunOf(vs, now));
    EvaluationIsARun(rows, vs, now);
    NeverTwoOpen(run + [GiveUp] + RunOf(vs, now));
  }
}
