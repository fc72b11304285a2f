/** The metrics history tables: samples of servers or sites, thinned out as they grow old. The
    two tables have the same statements; `owner` is the server or the site. */
module Metrics {
  import opened Text

  datatype Sample<V> = Sample(owner: nat, at: int, value: V)

  const BUCKET := 15 * 60
  const FULL_RESOLUTION := 48 * 60 * 60
  const DAY := 24 * 60 * 60

  /** Times are seconds; hours and days begin at multiples of the bucket. */
  function Bucket(at: int): int {
    at / BUCKET
  }

  predicate IsOld<V>(s: Sample<V>, now: int) {
    s.at < now - FULL_RESOLUTION
  }

  predicate SameBucket<V>(a: Sample<V>, b: Sample<V>) {
    a.owner == b.owner && Bucket(a.at) == Bucket(b.at)
  }

  /** The lowest id of the old rows of its bucket. */
  predicate IsLowest<V>(rows: map<nat, Sample<V>>, id: nat, now: int)
    requires id in rows
  {
    forall k :: k in rows && SameBucket(rows[k], rows[id]) && IsOld(rows[k], now) ==> id <= k
  }

  predicate IsKept<V>(rows: map<nat, Sample<V>>, id: nat, now: int)
    requires id in rows
  {
    !IsOld(rows[id], now) || IsLowest(rows, id, now)
  }

  /** Its quarter of an hour has a row of the same owner, the sample itself or an earlier one. */
  ghost predicate HasEarlier<V>(rows: map<nat, Sample<V>>, s: Sample<V>, id: nat) {
    exists k :: k in rows && rows[k].owner == s.owner && rows[k].at / 900 == s.at / 900 && k <= id
  }

  /** Of one owner and one quarter of an hour, and both older than two days. */
  predicate OldInBucket<V>(rows: map<nat, Sample<V>>, k: nat, id: nat, now: int)
    requires k in rows && id in rows
  {
    && rows[k].owner == rows[id].owner && rows[k].at / 900 == rows[id].at / 900
    && rows[k].at < now - 172800 && rows[id].at < now - 172800
  }

  ghost predicate OneOldPerBucket<V>(rows: map<nat, Sample<V>>, now: int) {
    forall i, j :: i in rows && j in rows && OldInBucket(rows, i, j, now) ==> i == j
  }

  function Downsampled<V>(rows: map<nat, Sample<V>>, now: int): map<nat, Sample<V>> {
    map id | id in rows && IsKept(rows, id, now) :: rows[id]
  }

  function Cleaned<V>(rows: map<nat, Sample<V>>, now: int, days: nat): map<nat, Sample<V>> {
    map id | id in rows && rows[id].at >= now - days * DAY :: rows[id]
  }

  class History<V> {
    var rows: map<nat, Sample<V>>
    var nextId: nat

    ghost predicate Valid()
      reads this
    {
      forall id :: id in rows ==> id < nextId
    }

    constructor ()
      ensures Valid() && rows == map[] && nextId == 0
    {
      rows, nextId := map[], 0;
    }

    method Insert(owner: nat, value: V, now: int) returns (id: nat)
      requires Valid()
      modifies this
      ensures Valid() && id == old(nextId) && nextId == id + 1
      ensures id !in old(rows) && rows == old(rows)[id := Sample(owner, now, value)]
    {
      id := nextId;
      rows, nextId := rows[id := Sample(owner, now, value)], nextId + 1;
    }

    /** Deletes the old rows but for the lowest id of each bucket: young rows stay, no bucket is
        emptied, and of the old rows of a bucket only its first is left. */
    method Downsample(now: int) returns (affected: nat)
      requires Valid()
      modifies this
      ensures Valid() && nextId == old(nextId) && affected == |old(rows)| - |rows|
      ensures forall id :: id in rows ==> id in old(rows) && rows[id] == old(rows)[id]
      ensures forall id :: id in old(rows) && old(rows)[id].at >= now - 172800 ==> id in rows
      ensures forall id :: id in old(rows) ==> HasEarlier(rows, old(rows)[id], id)
      ensures OneOldPerBucket(rows, now)
      ensures rows == Downsampled(old(rows), now)
    {
      ghost var was := rows;
      var keep := set id | id in rows && IsOld(rows[id], now) && IsLowest(rows, id, now);
      var gone := set id | id in rows && id !in keep && IsOld(rows[id], now);
      affected := |gone|;
      rows := rows - gone;
      assert Valid();
      RestIsDownsampled(was, now, keep, gone);
      DownsampledMeans(was, now);
    }

    /** Exactly the rows of the last days are left. */
    method Cleanup(now: int, days: nat) returns (affected: nat)
      requires Valid()
      modifies this
      ensures Valid() && nextId == old(nextId) && affected == |old(rows)| - |rows|
      ensures forall id :: id in rows <==> id in old(rows) && old(rows)[id].at >= now - days * 86400
      ensures forall id :: id in rows ==> rows[id] == old(rows)[id]
      ensures rows == Cleaned(old(rows), now, days)
    {
      var gone := set id | id in rows && rows[id].at < now - days * DAY;
      RemovalCounts(rows, gone);
      rows := rows - gone;
      affected := |gone|;
    }

    /** `ON DELETE CASCADE` when a server or a site is deleted. */
    method RemoveOwner(owner: nat)
      requires Valid()
      modifies this
      ensures Valid() && nextId == old(nextId)
      ensures forall id :: id in rows <==> id in old(rows) && old(rows)[id].owner != owner
      ensures forall id :: id in rows ==> rows[id] == old(rows)[id]
      ensures rows == WithoutOwner(old(rows), owner)
    {
      rows := rows - (set id | id in rows && rows[id].owner == owner);
    }
  }

  lemma RestIsDownsampled<V>(rows: map<nat, Sample<V>>, now: int, keep: set<nat>, gone: set<nat>)
    requires keep == set id | id in rows && IsOld(rows[id], now) && IsLowest(rows, id, now)
    requires gone == set id | id in rows && id !in keep && IsOld(rows[id], now)
    ensures rows - gone == Downsampled(rows, now)
    ensures |rows - gone| == |rows| - |gone|
  {
    RemovalCounts(rows, gone);
    forall id | id in rows
      ensures id in gone <==> !IsKept(rows, id, now)
    {
      assert IsOld(rows[id], now) && IsLowest(rows, id, now) <==> id in keep;
    }
  }

  lemma DownsampledMeans<V>(rows: map<nat, Sample<V>>, now: int)
    ensures forall id :: id in rows ==> HasEarlier(Downsampled(rows, now), rows[id], id)
    ensures OneOldPerBucket(Downsampled(rows, now), now)
  {
    forall id | id in rows
      ensures HasEarlier(Downsampled(rows, now), rows[id], id)
    {
      DownsampledKeeps(rows, now, id);
    }
    OneIsLeft(rows, now);
  }

  lemma OneIsLeft<V>(rows: map<nat, Sample<V>>, now: int)
    ensures OneOldPerBucket(Downsampled(rows, now), now)
  {
  }

  lemma RemovalCounts<V>(rows: map<nat, V>, gone: set<nat>)
    requires gone <= rows.Keys
    ensures |rows - gone| == |rows| - |gone|
  {
    assert (rows - gone).Keys == rows.Keys - gone;
  }

  // ---------------------------------------------------------------------------------------
  // Runs
  // ---------------------------------------------------------------------------------------

  datatype Event<V> =
    | Wait(seconds: nat)
    | Insert(owner: nat, value: V)
    | Downsample
    | Cleanup(days: nat)
    | RemoveOwner(gone: nat)

  function WithoutOwner<V>(rows: map<nat, Sample<V>>, owner: nat): map<nat, Sample<V>> {
    map id | id in rows && rows[id].owner != owner :: rows[id]
  }

  /** The table, and the same table had it never been thinned out. `swept` is the latest time
      before which a cleanup deleted rows. */
  datatype State<V> = State(now: int, nextId: nat, rows: map<nat, Sample<V>>, full: map<nat, Sample<V>>, swept: Option<int>)

  function Initial<V>(now: int): State<V> {
    State(now, 0, map[], map[], None)
  }

  function Step<V>(s: State<V>, e: Event<V>): State<V> {
    match e
    case Wait(seconds) => s.(now := s.now + seconds)
    case Insert(owner, value) =>
      var sample := Sample(owner, s.now, value);
      s.(nextId := s.nextId + 1, rows := s.rows[s.nextId := sample], full := s.full[s.nextId := sample])
    case Downsample => s.(rows := Downsampled(s.rows, s.now))
    case Cleanup(days) => s.(rows := Cleaned(s.rows, s.now, days), swept := Later(s.swept, s.now - days * DAY))
    case RemoveOwner(gone) => s.(rows := WithoutOwner(s.rows, gone), full := WithoutOwner(s.full, gone))
  }

  function Later(swept: Option<int>, before: int): Option<int> {
    if swept.Some? && swept.value > before then swept else Some(before)
  }

  function After<V>(s: State<V>, run: seq<Event<V>>): State<V> {
    if run == [] then s else Step(After(s, run[..|run| - 1]), run[|run| - 1])
  }

  /** No cleanup reached into the bucket. */
  predicate IsUntouched(at: int, swept: Option<int>) {
    swept.None? || BUCKET * Bucket(at) >= swept.value
  }

  ghost predicate IsLeast<V>(full: map<nat, Sample<V>>, id: nat)
    requires id in full
  {
    forall k :: k in full && SameBucket(full[k], full[id]) ==> id <= k
  }

  /** Later samples have higher ids. */
  ghost predicate InOrder<V>(full: map<nat, Sample<V>>) {
    forall i, j :: i in full && j in full && i < j ==> full[i].at <= full[j].at
  }

  ghost predicate MustStay<V>(s: State<V>, id: nat)
    requires id in s.full
  {
    && IsUntouched(s.full[id].at, s.swept)
    && (!IsOld(s.full[id], s.now) || IsLeast(s.full, id))
  }

  /** All that was deleted, but for the cleanups, is an old sample that is not the first of its
      bucket. */
  ghost predicate Refines<V>(s: State<V>) {
    && InOrder(s.full)
    && (forall id :: id in s.full ==> id < s.nextId && s.full[id].at <= s.now)
    && (forall id :: id in s.rows ==> id in s.full && s.rows[id] == s.full[id])
    && forall id :: id in s.full && MustStay(s, id) ==> id in s.rows
  }

  lemma LeastExists<V>(full: map<nat, Sample<V>>, id: nat) returns (least: nat)
    requires id in full
    ensures least in full && SameBucket(full[least], full[id]) && IsLeast(full, least) && least <= id
  {
    if k :| k in full && SameBucket(full[k], full[id]) && k < id {
      least := LeastExists(full, k);
    } else {
      least := id;
    }
  }

  /** In an ordered table the first of a bucket is old as soon as any other is. */
  lemma LeastIsOldest<V>(full: map<nat, Sample<V>>, least: nat, id: nat, now: int)
    requires InOrder(full) && id in full && least in full && least <= id
    ensures IsOld(full[id], now) ==> IsOld(full[least], now)
  {
  }

  lemma DownsampleRefines<V>(s: State<V>)
    requires Refines(s)
    ensures Refines(Step(s, Downsample))
  {
    var t := Step(s, Downsample);
    forall id | id in s.full && MustStay(s, id)
      ensures id in t.rows
    {
      assert id in s.rows && IsKept(s.rows, id, s.now);
    }
  }

  lemma CleanupRefines<V>(s: State<V>, days: nat)
    requires Refines(s)
    ensures Refines(Step(s, Cleanup(days)))
  {
    var t := Step(s, Cleanup(days));
    forall id | id in s.full && IsUntouched(s.full[id].at, t.swept)
      ensures IsUntouched(s.full[id].at, s.swept) && s.full[id].at >= s.now - days * DAY
    {
      BucketBegins(s.full[id].at);
    }
  }

  lemma BucketBegins(at: int)
    ensures BUCKET * Bucket(at) <= at
  {
  }

  lemma InsertRefines<V>(s: State<V>, owner: nat, value: V)
    requires Refines(s)
    ensures Refines(Step(s, Insert(owner, value)))
  {
    var t := Step(s, Insert(owner, value));
    forall id | id in s.full && MustStay(t, id)
      ensures MustStay(s, id)
    {
      assert forall k :: k in s.full ==> t.full[k] == s.full[k];
    }
  }

  lemma RemoveRefines<V>(s: State<V>, gone: nat)
    requires Refines(s)
    ensures Refines(Step(s, RemoveOwner(gone)))
  {
    var t := Step(s, RemoveOwner(gone));
    forall id | id in t.full && MustStay(t, id)
      ensures MustStay(s, id)
    {
      forall k | k in s.full && SameBucket(s.full[k], s.full[id])
        ensures k in t.full
      {
      }
    }
  }

  lemma {:induction false} RunRefines<V>(s: State<V>, run: seq<Event<V>>)
    requires Refines(s)
    ensures Refines(After(s, run))
  {
    if run != [] {
      var mid := After(s, run[..|run| - 1]);
      RunRefines(s, run[..|run| - 1]);
      match run[|run| - 1] {
        case Wait(_) =>
        case Insert(owner, value) => InsertRefines(mid, owner, value);
        case Downsample => DownsampleRefines(mid);
        case Cleanup(days) => CleanupRefines(mid, days);
        case RemoveOwner(gone) => RemoveRefines(mid, gone);
      }
    }
  }

  // ---------------------------------------------------------------------------------------
  // What a run inserted
  // ---------------------------------------------------------------------------------------

  function Waited<V>(run: seq<Event<V>>): nat {
    if run == [] then 0
    else Waited(run[..|run| - 1]) + if run[|run| - 1].Wait? then run[|run| - 1].seconds else 0
  }

  function Inserts<V>(run: seq<Event<V>>): nat {
    if run == [] then 0
    else Inserts(run[..|run| - 1]) + if run[|run| - 1].Insert? then 1 else 0
  }

  /** The sample that the insertion with that number made, unless its owner was deleted since. */
  function Inserted<V>(start: int, run: seq<Event<V>>, id: nat): Option<Sample<V>> {
    if run == [] then None
    else
      var front := run[..|run| - 1];
      var before := Inserted(start, front, id);
      match run[|run| - 1]
      case Insert(owner, value) => if Inserts(front) == id then Some(Sample(owner, start + Waited(front), value)) else before
      case RemoveOwner(gone) => if before.Some? && before.value.owner == gone then None else before
      case _ => before
  }

  /** No cleanup of the run reached into the quarter of an hour. */
  predicate NeverCleaned<V>(start: int, run: seq<Event<V>>, at: int) {
    run == []
    || (NeverCleaned(start, run[..|run| - 1], at)
        && (run[|run| - 1].Cleanup? ==> start + Waited(run[..|run| - 1]) - 86400 * run[|run| - 1].days <= 900 * (at / 900)))
  }

  function RowOf<V>(rows: map<nat, Sample<V>>, id: nat): Option<Sample<V>> {
    if id in rows then Some(rows[id]) else None
  }

  lemma {:induction false} FullIsWhatWasInserted<V>(start: int, run: seq<Event<V>>, id: nat)
    ensures var s := After(Initial<V>(start), run);
            && s.now == start + Waited(run) && s.nextId == Inserts(run)
            && RowOf(s.full, id) == Inserted(start, run, id)
  {
    if run != [] {
      FullIsWhatWasInserted(start, run[..|run| - 1], id);
    }
  }

  lemma {:induction false} UntouchedIsNeverCleaned<V>(start: int, run: seq<Event<V>>, at: int)
    ensures IsUntouched(at, After(Initial<V>(start), run).swept) <==> NeverCleaned(start, run, at)
  {
    if run != [] {
      UntouchedIsNeverCleaned(start, run[..|run| - 1], at);
      FullIsWhatWasInserted(start, run[..|run| - 1], 0);
    }
  }

  /** What a single step does to the rows, in the words of the table's methods. */
  lemma StepIsTheMethod<V>(s: State<V>, e: Event<V>, id: nat)
    ensures var row, after := RowOf(s.rows, id), RowOf(Step(s, e).rows, id);
            match e
            case Wait(_) => after == row
            case Insert(owner, value) => after == if id == s.nextId then Some(Sample(owner, s.now, value)) else row
            case Downsample => after == RowOf(Downsampled(s.rows, s.now), id)
            case Cleanup(days) => after == if row.Some? && row.value.at < s.now - days * 86400 then None else row
            case RemoveOwner(gone) => after == if row.Some? && row.value.owner == gone then None else row
  {
  }

  /** Downsampling again and again, at any times and between any inserts, ends in the table
      that a single downsampling of everything ever inserted gives. With cleanups in between,
      this holds for all buckets no cleanup reached into. */
  lemma IncrementalIsOneShot<V>(start: int, run: seq<Event<V>>, s: State<V>)
    requires s == After(Initial<V>(start), run)
    ensures forall id :: RowOf(s.full, id) == Inserted(start, run, id)
    ensures forall id :: id in s.full && NeverCleaned(start, run, s.full[id].at) ==>
              (id in Downsampled(s.rows, s.now) <==> id in Downsampled(s.full, s.now))
    ensures forall id :: id in Downsampled(s.rows, s.now) ==> id in s.full && Downsampled(s.rows, s.now)[id] == s.full[id]
    ensures (forall k :: 0 <= k < |run| ==> !run[k].Cleanup?) ==> Downsampled(s.rows, s.now) == Downsampled(s.full, s.now)
  {
    RunRefines(Initial<V>(start), run);
    forall id: nat
      ensures RowOf(s.full, id) == Inserted(start, run, id)
    {
      FullIsWhatWasInserted(start, run, id);
    }
    forall id | id in s.full && NeverCleaned(start, run, s.full[id].at)
      ensures id in Downsampled(s.rows, s.now) <==> id in Downsampled(s.full, s.now)
    {
      UntouchedIsNeverCleaned(start, run, s.full[id].at);
      LeastDecides(s, id);
    }
    if forall k :: 0 <= k < |run| ==> !run[k].Cleanup? {
      forall id | id in s.full
        ensures NeverCleaned(start, run, s.full[id].at)
      {
        NoCleanups(start, run, s.full[id].at);
      }
    }
  }

  lemma {:induction false} NoCleanups<V>(start: int, run: seq<Event<V>>, at: int)
    requires forall k :: 0 <= k < |run| ==> !run[k].Cleanup?
    ensures NeverCleaned(start, run, at)
  {
    if run != [] {
      NoCleanups(start, run[..|run| - 1], at);
    }
  }

  lemma LeastDecides<V>(s: State<V>, id: nat)
    requires Refines(s) && id in s.full && IsUntouched(s.full[id].at, s.swept)
    ensures id in Downsampled(s.rows, s.now) <==> id in Downsampled(s.full, s.now)
  {
    var least := LeastExists(s.full, id);
    LeastIsOldest(s.full, least, id, s.now);
    assert least in s.rows;
    if id in s.rows && IsOld(s.full[id], s.now) {
      assert IsKept(s.rows, id, s.now) ==> id <= least;
      assert IsKept(s.full, id, s.now) ==> id <= least;
    }
  }

  /** Thinning out empties no bucket: its first sample stays. */
  lemma DownsampledKeeps<V>(rows: map<nat, Sample<V>>, now: int, id: nat)
    requires id in rows
    ensures HasEarlier(Downsampled(rows, now), rows[id], id)
    decreases id
  {
    var kept := Downsampled(rows, now);
    if id !in kept {
      var k :| k in rows && SameBucket(rows[k], rows[id]) && IsOld(rows[k], now) && k < id;
      DownsampledKeeps(rows, now, k);
      var first :| first in kept && kept[first].owner == rows[k].owner && kept[first].at / 900 == rows[k].at / 900 && first <= k;
      assert kept[first].owner == rows[id].owner;
    } else {
      assert kept[id].owner == rows[id].owner;
    }
  }

  lemma DownsampleIsIdempotent<V>(rows: map<nat, Sample<V>>, now: int)
    ensures Downsampled(Downsampled(rows, now), now) == Downsampled(rows, now)
  {
    var once := Downsampled(rows, now);
    forall id | id in once
      ensures IsKept(once, id, now)
    {
    }
  }
}
