/** The `backup_schedules` table. Times are seconds, intervals minutes. */
module Schedules {
  import opened Text

  datatype Schedule = Schedule(site: nat, interval: int, enabled: bool, nextRun: Option<int>)

  /** A row with its id, as it was when it was read. */
  datatype Due = Due(id: nat, schedule: Schedule)

  type Rows = map<nat, Schedule>

  predicate IsDue(s: Schedule, now: int) {
    s.enabled && (s.nextRun.None? || s.nextRun.value <= now)
  }

  /** All due rows, each once, in any order. */
  ghost predicate IsDueList(rows: Rows, now: int, due: seq<Due>) {
    && (forall i :: 0 <= i < |due| ==>
          due[i].id in rows && rows[due[i].id] == due[i].schedule && IsDue(due[i].schedule, now))
    && (forall i, j :: 0 <= i < j < |due| ==> due[i].id != due[j].id)
    && forall id :: id in rows && IsDue(rows[id], now) ==> exists i :: 0 <= i < |due| && due[i].id == id
  }

  function Marked(rows: Rows, id: nat, next: int): Rows {
    if id in rows then rows[id := rows[id].(nextRun := Some(next))] else rows
  }

  function Changed(rows: Rows, id: nat, interval: int, enabled: bool): Rows {
    if id in rows then rows[id := rows[id].(interval := interval, enabled := enabled)] else rows
  }

  function WithoutSite(rows: Rows, site: nat): Rows {
    map id | id in rows && rows[id].site != site :: rows[id]
  }

  class SchedulesTable {
    var rows: Rows
    var nextId: nat

    ghost predicate Valid()
      reads this
    {
      forall id :: id in rows ==> id < nextId
    }

    constructor ()
      ensures Valid() && rows == map[] && nextId == 0
    {
      rows, nextId := map[], 0;
    }

    /** Exactly the enabled schedules whose next run is missing or has come, each once. */
    method DueRows(now: int) returns (due: seq<Due>)
      requires Valid()
      ensures forall i :: 0 <= i < |due| ==> due[i].id in rows && due[i].schedule == rows[due[i].id]
      ensures forall i, j :: 0 <= i < j < |due| ==> due[i].id != due[j].id
      ensures forall id :: id in rows ==>
                ((exists i :: 0 <= i < |due| && due[i].id == id)
                 <==> rows[id].enabled && (rows[id].nextRun == None || rows[id].nextRun.value <= now))
      ensures IsDueList(rows, now, due)
    {
      due := [];
      for id := 0 to nextId
        invariant forall i :: 0 <= i < |due| ==>
                    due[i].id < id && due[i].id in rows && rows[due[i].id] == due[i].schedule && IsDue(due[i].schedule, now)
        invariant forall i, j :: 0 <= i < j < |due| ==> due[i].id != due[j].id
        invariant forall k :: 0 <= k < id && k in rows && IsDue(rows[k], now) ==> exists i :: 0 <= i < |due| && due[i].id == k
      {
        if id in rows && IsDue(rows[id], now) {
          ghost var before := due;
          due := due + [Due(id, rows[id])];
          assert due[|before|].id == id;
          assert forall i :: 0 <= i < |before| ==> due[i] == before[i];
        }
      }
    }

    /** `upsert`: one row for each site, as long as nobody else inserts in between. */
    method Upsert(site: nat, interval: int, enabled: bool) returns (id: nat)
      requires Valid()
      modifies this
      ensures Valid() && id in rows
      ensures if exists k :: k in old(rows) && old(rows)[k].site == site
              then && id in old(rows) && old(rows)[id].site == site && nextId == old(nextId)
                   && rows == old(rows)[id := Schedule(site, interval, enabled, old(rows)[id].nextRun)]
              else && id == old(nextId) && nextId == id + 1
                   && rows == old(rows)[id := Schedule(site, interval, enabled, None)]
    {
      if k :| k in rows && rows[k].site == site {
        id := k;
        rows := Changed(rows, k, interval, enabled);
      } else {
        id := nextId;
        rows, nextId := rows[nextId := Schedule(site, interval, enabled, None)], nextId + 1;
      }
    }

    /** The schedule, if it still exists, is not due again before `next`; all else stays. */
    method MarkScheduled(id: nat, next: int)
      requires Valid()
      modifies this
      ensures Valid() && nextId == old(nextId) && rows.Keys == old(rows).Keys
      ensures forall k :: k in rows && k != id ==> rows[k] == old(rows)[k]
      ensures id in rows ==> rows[id] == old(rows)[id].(nextRun := Some(next))
      ensures id in rows ==> forall now :: IsDue(rows[id], now) <==> rows[id].enabled && next <= now
    {
      if id in rows {
        rows := rows[id := rows[id].(nextRun := Some(next))];
      }
    }

    method Delete(id: nat)
      requires Valid()
      modifies this
      ensures Valid() && nextId == old(nextId) && rows == old(rows) - {id}
    {
      rows := rows - {id};
    }
  }
}
