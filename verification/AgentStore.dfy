/** The agent's record of its sites: a map in memory, and a file replaced by writing a temporary
    file and renaming it. */
module AgentStore {
  import opened Text

  datatype Php = Php81 | Php82 | Php83 | Php84

  datatype SiteStatus = Provisioning | Online | Stopped | SiteFailed

  datatype SiteRecord = SiteRecord(
    domain: string,
    uid: nat,
    php: Php,
    status: SiteStatus,
    containerId: Option<string>,
    domains: seq<string>)

  /** Records by site id. */
  type Snapshot = map<int, SiteRecord>

  type Bytes = seq<bv8>

  /** The JSON form; `decode` fails on what is not one. */
  datatype Codec = Codec(encode: Snapshot -> Bytes, decode: Bytes -> Option<Snapshot>)

  ghost predicate CodecOk(c: Codec) {
    forall m :: c.decode(c.encode(m)) == Some(m)
  }

  datatype Disk = Disk(file: Option<Bytes>, tmp: Option<Bytes>)

  /** What a process that opens the store finds. */
  function Loaded(c: Codec, disk: Disk): Snapshot {
    match disk.file
    case None => map[]
    case Some(bytes) =>
      match c.decode(bytes)
      case None => map[]
      case Some(m) => m
  }

  /** The first `n` bytes have reached the temporary file. */
  function Written(disk: Disk, bytes: Bytes, n: nat): Disk
    requires n <= |bytes|
  {
    disk.(tmp := Some(bytes[..n]))
  }

  function Renamed(disk: Disk): Disk {
    Disk(disk.tmp, None)
  }

  /** How a flush ends. The process may die at any point instead of seeing an error. */
  datatype Outcome =
    | Flushed
    | WriteFails(n: nat)
    | RenameFails
    | DiesBefore
    | DiesWriting(n: nat)
    | DiesBetween
    | DiesAfter

  predicate Dies(o: Outcome) {
    o.DiesBefore? || o.DiesWriting? || o.DiesBetween? || o.DiesAfter?
  }

  predicate Replaces(o: Outcome) {
    o.Flushed? || o.DiesAfter?
  }

  /** A write is cut short at any length. */
  function Cut(bytes: Bytes, n: nat): nat {
    if n <= |bytes| then n else |bytes|
  }

  /** The disk after a flush of `m`: the whole file is written in front of the renaming. */
  function DiskAfter(c: Codec, disk: Disk, m: Snapshot, o: Outcome): Disk {
    var bytes := c.encode(m);
    match o
    case DiesBefore => disk
    case WriteFails(n) => Written(disk, bytes, Cut(bytes, n))
    case DiesWriting(n) => Written(disk, bytes, Cut(bytes, n))
    case RenameFails | DiesBetween => Written(disk, bytes, |bytes|)
    case Flushed | DiesAfter => Renamed(Written(disk, bytes, |bytes|))
  }

  function UidsOf(m: Snapshot): set<nat> {
    set id | id in m :: m[id].uid
  }

  ghost predicate IsLeastFree(used: set<nat>, base: nat, uid: nat) {
    base <= uid && uid !in used && forall u: nat :: base <= u < uid ==> u in used
  }

  function Range(lo: nat, hi: nat): (s: set<nat>)
    requires lo <= hi
    ensures |s| == hi - lo
    ensures forall u :: u in s <==> lo <= u < hi
    decreases hi - lo
  {
    if lo == hi then {} else Range(lo, hi - 1) + {hi - 1}
  }

  lemma SubsetIsSmaller(a: set<nat>, b: set<nat>)
    requires a <= b
    ensures |a| <= |b|
  {
    if x :| x in a {
      SubsetIsSmaller(a - {x}, b - {x});
    }
  }

  lemma UidsAreFewer(m: Snapshot)
    ensures |UidsOf(m)| <= |m|
  {
    if id :| id in m {
      var rest := m - {id};
      UidsAreFewer(rest);
      assert m.Keys == rest.Keys + {id};
      assert UidsOf(m) == UidsOf(rest) + {m[id].uid};
    }
  }

  class Store {
    const codec: Codec
    var sites: Snapshot
    var disk: Disk

    /** A read error counts as a missing file. */
    constructor Open(codec: Codec, disk: Disk, readable: bool)
      ensures this.codec == codec && this.disk == disk
      ensures sites == if readable then Loaded(codec, disk) else map[]
    {
      this.codec, this.disk := codec, disk;
      sites := if readable then Loaded(codec, disk) else map[];
    }

    method Put(id: int, record: SiteRecord, o: Outcome) returns (ok: bool)
      requires !Dies(o)
      modifies this
      ensures sites == old(sites)[id := record]
      ensures disk == DiskAfter(codec, old(disk), sites, o) && ok == (o == Flushed)
    {
      sites := sites[id := record];
      ok := Flush(o);
    }

    method Remove(id: int, o: Outcome) returns (ok: bool)
      requires !Dies(o)
      modifies this
      ensures sites == old(sites) - {id}
      ensures disk == DiskAfter(codec, old(disk), sites, o) && ok == (o == Flushed)
    {
      sites := sites - {id};
      ok := Flush(o);
    }

    method Flush(o: Outcome) returns (ok: bool)
      requires !Dies(o)
      modifies this`disk
      ensures disk == DiskAfter(codec, old(disk), sites, o) && ok == (o == Flushed)
    {
      var bytes := codec.encode(sites);
      if o.WriteFails? {
        disk := Written(disk, bytes, Cut(bytes, o.n));
        return false;
      }
      disk := Written(disk, bytes, |bytes|);
      if o.RenameFails? {
        return false;
      }
      disk := Renamed(disk);
      ok := true;
    }

    /** Lowest unused uid at or above `base`; the search ends after as many steps as there are
        sites. */
    method NextUid(base: nat) returns (uid: nat)
      ensures IsLeastFree(UidsOf(sites), base, uid)
      ensures uid <= base + |sites|
    {
      uid := base;
      var used := UidsOf(sites);
      UidsAreFewer(sites);
      while uid in used
        invariant base <= uid && Range(base, uid) <= used
        decreases base + |used| - uid
      {
        SubsetIsSmaller(Range(base, uid) + {uid}, used);
        uid := uid + 1;
      }
      SubsetIsSmaller(Range(base, uid), used);
    }
  }

  /** A torn temporary file is never read. */
  lemma TornWriteIsHarmless(c: Codec, disk: Disk, bytes: Bytes, n: nat)
    requires n <= |bytes|
    ensures Loaded(c, Written(disk, bytes, n)) == Loaded(c, disk)
  {
  }

  lemma RenameReplaces(c: Codec, disk: Disk, m: Snapshot)
    requires CodecOk(c) && disk.tmp == Some(c.encode(m))
    ensures Loaded(c, Renamed(disk)) == m
  {
    assert c.decode(c.encode(m)) == Some(m);
  }

  lemma WrittenInFull(c: Codec, disk: Disk, m: Snapshot)
    ensures Written(disk, c.encode(m), |c.encode(m)|).tmp == Some(c.encode(m))
  {
    assert c.encode(m)[..|c.encode(m)|] == c.encode(m);
  }

  /** Wherever the process stops, what the next one finds is the map of the last completed flush
      or the one that was being flushed, as a whole. */
  lemma CrashIsAtomic(c: Codec, disk: Disk, before: Snapshot, m: Snapshot, o: Outcome)
    requires CodecOk(c) && Loaded(c, disk) == before
    ensures Loaded(c, DiskAfter(c, disk, m, o)) == if Replaces(o) then m else before
  {
    var bytes := c.encode(m);
    if o.WriteFails? || o.DiesWriting? {
      TornWriteIsHarmless(c, disk, bytes, Cut(bytes, o.n));
    } else if Replaces(o) {
      WrittenInFull(c, disk, m);
      RenameReplaces(c, Written(disk, bytes, |bytes|), m);
    } else {
      TornWriteIsHarmless(c, disk, bytes, |bytes|);
    }
  }

  // ---------------------------------------------------------------------------------------
  // Runs
  // ---------------------------------------------------------------------------------------

  /** The operations that write the store, one at a time under the permit. What happens before
      the write does not touch it. */
  datatype Operation =
    | Create(id: int, record: SiteRecord)
    | Clone(source: int, id: int, record: SiteRecord)
    | Import(id: int, record: SiteRecord)
    | Resync(id: int, record: SiteRecord)
    | Update(id: int, record: SiteRecord)
    | Delete(id: int)

  /** A flush is as many steps as the file system makes of it. */
  datatype Event =
    | Perform(op: Operation)
    | Write(n: nat)
    | Rename
    | GiveUp
    | Crash
    | Open(readable: bool)

  /** The map that is being flushed; `complete` if all of it was written. */
  datatype Pending = Pending(m: Snapshot, complete: bool)

  /** `sites` of the running process, if one runs; `durable` is the last map whose flush was
      completed. */
  datatype Agent = Agent(sites: Option<Snapshot>, flush: Option<Pending>, disk: Disk, durable: Snapshot)

  /** A new record takes the least free uid; all others keep theirs. */
  ghost predicate Allowed(m: Snapshot, base: nat, op: Operation) {
    match op
    case Create(_, record) => IsLeastFree(UidsOf(m), base, record.uid)
    case Clone(source, _, record) =>
      source in m && m[source].domain != record.domain && IsLeastFree(UidsOf(m), base, record.uid)
    case Import(id, record) => id !in m && IsLeastFree(UidsOf(m), base, record.uid)
    case Resync(id, record) => id in m && record.uid == m[id].uid
    case Update(id, record) => id in m && record.uid == m[id].uid && record.domain == m[id].domain
    case Delete(id) => id in m
  }

  function Changed(m: Snapshot, op: Operation): Snapshot {
    match op
    case Delete(id) => m - {id}
    case _ => m[op.id := op.record]
  }

  ghost predicate Possible(c: Codec, a: Agent, base: nat, e: Event) {
    match e
    case Perform(op) => a.sites.Some? && a.flush.None? && Allowed(a.sites.value, base, op)
    case Write(n) => a.flush.Some? && n <= |c.encode(a.flush.value.m)|
    case Rename => a.flush.Some? && a.flush.value.complete
    case GiveUp => a.flush.Some?
    case Crash => a.sites.Some?
    case Open(_) => a.sites.None?
  }

  /** The memory is changed before the flush begins, and stays so if the flush is given up. */
  ghost function Step(c: Codec, base: nat, a: Agent, e: Event): Agent
    requires Possible(c, a, base, e)
  {
    match e
    case Perform(op) =>
      var m := Changed(a.sites.value, op);
      a.(sites := Some(m), flush := Some(Pending(m, false)))
    case Write(n) =>
      var bytes := c.encode(a.flush.value.m);
      a.(disk := Written(a.disk, bytes, n), flush := Some(Pending(a.flush.value.m, n == |bytes|)))
    case Rename => a.(disk := Renamed(a.disk), flush := None, durable := a.flush.value.m)
    case GiveUp => a.(flush := None)
    case Crash => a.(sites := None, flush := None)
    case Open(readable) => a.(sites := Some(if readable then Loaded(c, a.disk) else map[]))
  }

  const START := Agent(None, None, Disk(None, None), map[])

  ghost function Ran(c: Codec, base: nat, a: Agent, run: seq<Event>): Option<Agent> {
    if run == [] then Some(a)
    else
      match Ran(c, base, a, run[..|run| - 1])
      case None => None
      case Some(mid) => if Possible(c, mid, base, run[|run| - 1]) then Some(Step(c, base, mid, run[|run| - 1])) else None
  }

  ghost function After(c: Codec, base: nat, run: seq<Event>): Option<Agent> {
    Ran(c, base, START, run)
  }

  /** The steps of one operation. */
  function StepsOf(c: Codec, m: Snapshot, op: Operation, o: Outcome): seq<Event> {
    var bytes := c.encode(m);
    match o
    case DiesBefore => [Perform(op), Crash]
    case WriteFails(n) => [Perform(op), Write(Cut(bytes, n)), GiveUp]
    case DiesWriting(n) => [Perform(op), Write(Cut(bytes, n)), Crash]
    case RenameFails => [Perform(op), Write(|bytes|), GiveUp]
    case DiesBetween => [Perform(op), Write(|bytes|), Crash]
    case Flushed => [Perform(op), Write(|bytes|), Rename]
    case DiesAfter => [Perform(op), Write(|bytes|), Rename, Crash]
  }

  lemma RanMore(c: Codec, base: nat, a: Agent, run: seq<Event>, e: Event, mid: Agent, more: seq<Event>)
    requires Ran(c, base, a, run) == Some(mid) && Possible(c, mid, base, e)
    requires more == run + [e]
    ensures Ran(c, base, a, more) == Some(Step(c, base, mid, e))
  {
    assert more[..|more| - 1] == run;
  }

  /** What a method of the store does, with any outcome, is a run. */
  lemma OperationIsARun(c: Codec, base: nat, a: Agent, op: Operation, o: Outcome)
    requires a.sites.Some? && a.flush.None? && Allowed(a.sites.value, base, op)
    ensures var m := Changed(a.sites.value, op);
            Ran(c, base, a, StepsOf(c, m, op, o))
            == Some(Agent(if Dies(o) then None else Some(m), None, DiskAfter(c, a.disk, m, o), if Replaces(o) then m else a.durable))
  {
    var m := Changed(a.sites.value, op);
    var bytes := c.encode(m);
    var n := if o.WriteFails? || o.DiesWriting? then Cut(bytes, o.n) else |bytes|;
    var a1 := Step(c, base, a, Perform(op));
    RanMore(c, base, a, [], Perform(op), a, [Perform(op)]);
    if o.DiesBefore? {
      RanMore(c, base, a, [Perform(op)], Crash, a1, [Perform(op), Crash]);
    } else {
      var a2 := Step(c, base, a1, Write(n));
      RanMore(c, base, a, [Perform(op)], Write(n), a1, [Perform(op), Write(n)]);
      var last := if Replaces(o) then Rename else if Dies(o) then Crash else GiveUp;
      RanMore(c, base, a, [Perform(op), Write(n)], last, a2, [Perform(op), Write(n), last]);
      if o.DiesAfter? {
        RanMore(c, base, a, [Perform(op), Write(n), Rename], Crash, Step(c, base, a2, Rename), [Perform(op), Write(n), Rename, Crash]);
      }
    }
  }

  ghost predicate UidsOk(m: Snapshot, base: nat) {
    && (forall id :: id in m ==> m[id].uid >= base)
    && forall i, j :: i in m && j in m && i != j ==> m[i].uid != m[j].uid
  }

  lemma ChangeKeepsUids(m: Snapshot, base: nat, op: Operation)
    requires UidsOk(m, base) && Allowed(m, base, op)
    ensures UidsOk(Changed(m, op), base)
  {
    forall id | id in m
      ensures m[id].uid in UidsOf(m)
    {
    }
  }

  ghost predicate Good(c: Codec, a: Agent, base: nat) {
    && Loaded(c, a.disk) == a.durable
    && UidsOk(a.durable, base)
    && (a.sites.Some? ==> UidsOk(a.sites.value, base))
    && (a.flush.Some? ==> UidsOk(a.flush.value.m, base))
    && (a.flush.Some? && a.flush.value.complete ==> a.disk.tmp == Some(c.encode(a.flush.value.m)))
  }

  lemma StepKeepsGood(c: Codec, base: nat, a: Agent, e: Event)
    requires CodecOk(c) && Good(c, a, base) && Possible(c, a, base, e)
    ensures Good(c, Step(c, base, a, e), base)
  {
    match e
    case Perform(op) => ChangeKeepsUids(a.sites.value, base, op);
    case Write(n) =>
      TornWriteIsHarmless(c, a.disk, c.encode(a.flush.value.m), n);
      WrittenInFull(c, a.disk, a.flush.value.m);
    case Rename => RenameReplaces(c, a.disk, a.flush.value.m);
    case GiveUp =>
    case Crash =>
    case Open(_) =>
  }

  lemma {:induction false} RunKeepsGood(c: Codec, base: nat, run: seq<Event>)
    requires CodecOk(c) && After(c, base, run).Some?
    ensures Good(c, After(c, base, run).value, base)
  {
    if run != [] {
      RunKeepsGood(c, base, run[..|run| - 1]);
      StepKeepsGood(c, base, After(c, base, run[..|run| - 1]).value, run[|run| - 1]);
    }
  }

  /** In every reachable store, in memory and on disk, different sites have different uids, all
      at least `base`. */
  lemma UidsAreDistinct(c: Codec, base: nat, run: seq<Event>, a: Agent)
    requires CodecOk(c) && After(c, base, run) == Some(a)
    ensures UidsOk(Loaded(c, a.disk), base)
    ensures a.sites.Some? ==> UidsOk(a.sites.value, base)
  {
    RunKeepsGood(c, base, run);
  }

  /** Whenever the process stops, opening the store again gives the last map that was completely
      flushed, unless the file cannot be read: then the store is empty, and the next flush
      replaces the file. */
  lemma ReopenFindsLastFlush(c: Codec, base: nat, run: seq<Event>, a: Agent, readable: bool)
    requires CodecOk(c) && After(c, base, run) == Some(a) && a.sites.None?
    ensures Step(c, base, a, Open(readable)).sites == Some(a.durable) <==> readable || a.durable == map[]
  {
    RunKeepsGood(c, base, run);
  }
}
