/** Maps whose entries expire: they are swept only when somebody looks. */
module Expiry {
  import opened Text

  datatype Stamped<+V> = Stamped(value: V, at: int)

  predicate IsLive<V>(e: Stamped<V>, now: int, ttl: int) {
    now - e.at < ttl
  }

  /** `retain(|_, e| e.elapsed() < ttl)` */
  function Swept<K, V>(entries: map<K, Stamped<V>>, now: int, ttl: int): map<K, Stamped<V>> {
    map k | k in entries && IsLive(entries[k], now, ttl) :: entries[k]
  }

  /** `entries` is `exact`, a map from which nothing expires, without some entries that have
      expired at `now`. */
  ghost predicate Agrees<K, V>(entries: map<K, Stamped<V>>, exact: map<K, Stamped<V>>, now: int, ttl: int) {
    && (forall k :: k in entries ==> k in exact && entries[k] == exact[k])
    && forall k :: k in exact && IsLive(exact[k], now, ttl) ==> k in entries
  }

  /** Whenever the map was last swept, a sweep leaves what exact expiry leaves. */
  lemma LazyIsExact<K, V>(entries: map<K, Stamped<V>>, exact: map<K, Stamped<V>>, before: int, now: int, ttl: int)
    requires Agrees(entries, exact, before, ttl) && before <= now
    ensures Swept(entries, now, ttl) == Swept(exact, now, ttl)
    ensures Agrees(Swept(entries, now, ttl), exact, now, ttl)
  {
    forall k | k in exact && IsLive(exact[k], now, ttl)
      ensures k in entries
    {
      assert IsLive(exact[k], before, ttl);
    }
  }

  lemma InsertAgrees<K, V>(entries: map<K, Stamped<V>>, exact: map<K, Stamped<V>>, now: int, ttl: int, k: K, e: Stamped<V>)
    requires Agrees(entries, exact, now, ttl)
    ensures Agrees(entries[k := e], exact[k := e], now, ttl)
  {
  }

  lemma RemoveAgrees<K, V>(entries: map<K, Stamped<V>>, exact: map<K, Stamped<V>>, now: int, ttl: int, k: K)
    requires Agrees(entries, exact, now, ttl)
    ensures Agrees(entries - {k}, exact - {k}, now, ttl)
  {
  }

  lemma LaterAgrees<K, V>(entries: map<K, Stamped<V>>, exact: map<K, Stamped<V>>, before: int, now: int, ttl: int)
    requires Agrees(entries, exact, before, ttl) && before <= now
    ensures Agrees(entries, exact, now, ttl)
  {
    forall k | k in exact && IsLive(exact[k], now, ttl)
      ensures k in entries
    {
      assert IsLive(exact[k], before, ttl);
    }
  }
}

/** The credential stash of the import wizard. */
module CredentialStash {
  import opened Text
  import opened Expiry

  const STASH_TTL := 15 * 60

  datatype Secret = Secret(user: int, value: string)

  type Entries = map<string, Stamped<Secret>>

  function Found(entries: Entries, user: int, handle: string): Option<string> {
    if handle in entries && entries[handle].value.user == user then Some(entries[handle].value.value) else None
  }

  class Stash {
    var entries: Entries

    constructor ()
      ensures entries == map[]
    {
      entries := map[];
    }

    /** `handle` is the random token; the entry is stamped a little later than the sweep. */
    method Put(handle: string, user: int, value: string, now: int, stamp: int)
      modifies this
      ensures entries == Swept(old(entries), now, STASH_TTL)[handle := Stamped(Secret(user, value), stamp)]
    {
      entries := Swept(entries, now, STASH_TTL);
      entries := entries[handle := Stamped(Secret(user, value), stamp)];
    }

    method Peek(user: int, handle: string, now: int) returns (r: Option<string>)
      modifies this
      ensures entries == Swept(old(entries), now, STASH_TTL)
      ensures r == Found(Swept(old(entries), now, STASH_TTL), user, handle)
    {
      entries := Swept(entries, now, STASH_TTL);
      r := Found(entries, user, handle);
    }

    method Take(user: int, handle: string, now: int) returns (r: Option<string>)
      modifies this
      ensures r == Found(Swept(old(entries), now, STASH_TTL), user, handle)
      ensures entries == if r.Some? then Swept(old(entries), now, STASH_TTL) - {handle} else Swept(old(entries), now, STASH_TTL)
    {
      entries := Swept(entries, now, STASH_TTL);
      r := Found(entries, user, handle);
      if r.Some? {
        entries := entries - {handle};
      }
    }
  }

  // ---------------------------------------------------------------------------------------
  // Runs
  // ---------------------------------------------------------------------------------------

  datatype Event =
    | Wait(seconds: nat)
    | Put(handle: string, user: int, value: string, delay: nat)
    | Peek(user: int, handle: string)
    | Take(user: int, handle: string)

  /** A read that gave a value. */
  datatype Read = Read(handle: string, user: int, value: string, at: int, taken: bool)

  /** The stash, and what happened: all that was put, and all that was read. */
  datatype State = State(now: int, entries: Entries, puts: Entries, taken: set<string>, answers: seq<Read>)

  function Initial(now: int): State {
    State(now, map[], map[], {}, [])
  }

  function Step(s: State, e: Event): State {
    var swept := Swept(s.entries, s.now, STASH_TTL);
    match e
    case Wait(seconds) => s.(now := s.now + seconds)
    case Put(handle, user, value, delay) =>
      var entry := Stamped(Secret(user, value), s.now + delay);
      s.(now := s.now + delay, entries := swept[handle := entry], puts := s.puts[handle := entry])
    case Peek(user, handle) =>
      (match Found(swept, user, handle)
       case None => s.(entries := swept)
       case Some(value) => s.(entries := swept, answers := s.answers + [Read(handle, user, value, s.now, false)]))
    case Take(user, handle) =>
      match Found(swept, user, handle)
      case None => s.(entries := swept)
      case Some(value) =>
        s.(entries := swept - {handle}, taken := s.taken + {handle},
           answers := s.answers + [Read(handle, user, value, s.now, true)])
  }

  /** Random tokens do not repeat. */
  ghost predicate Possible(s: State, e: Event) {
    e.Put? ==> e.handle !in s.puts
  }

  ghost function After(s: State, run: seq<Event>): Option<State> {
    if run == [] then Some(s)
    else
      match After(s, run[..|run| - 1])
      case None => None
      case Some(mid) => if Possible(mid, run[|run| - 1]) then Some(Step(mid, run[|run| - 1])) else None
  }

  /** What a stash with exact expiry would hold. */
  function Exact(s: State): Entries {
    s.puts - s.taken
  }

  /** A read is of what its own user put, in time. */
  ghost predicate ReadOk(s: State, r: Read) {
    && r.handle in s.puts
    && s.puts[r.handle].value == Secret(r.user, r.value)
    && s.puts[r.handle].at <= r.at < s.puts[r.handle].at + STASH_TTL
    && (r.taken ==> r.handle in s.taken)
  }

  ghost predicate Good(s: State) {
    && Agrees(s.entries, Exact(s), s.now, STASH_TTL)
    && s.taken <= s.puts.Keys
    && (forall h :: h in s.puts ==> s.puts[h].at <= s.now)
    && (forall i :: 0 <= i < |s.answers| ==> ReadOk(s, s.answers[i]) && s.answers[i].at <= s.now)
    && forall i, j :: 0 <= i < j < |s.answers| && s.answers[i].taken ==> s.answers[j].handle != s.answers[i].handle
  }

  lemma PutKeepsGood(s: State, e: Event)
    requires Good(s) && e.Put? && Possible(s, e)
    ensures Good(Step(s, e))
  {
    var t := Step(s, e);
    var swept := Swept(s.entries, s.now, STASH_TTL);
    LazyIsExact(s.entries, Exact(s), s.now, s.now, STASH_TTL);
    LaterAgrees(swept, Exact(s), s.now, t.now, STASH_TTL);
    InsertAgrees(swept, Exact(s), t.now, STASH_TTL, e.handle, t.puts[e.handle]);
    assert Exact(t) == Exact(s)[e.handle := t.puts[e.handle]];
  }

  lemma ReadKeepsGood(s: State, e: Event)
    requires Good(s) && (e.Peek? || e.Take?)
    ensures Good(Step(s, e))
  {
    var t := Step(s, e);
    var swept := Swept(s.entries, s.now, STASH_TTL);
    LazyIsExact(s.entries, Exact(s), s.now, s.now, STASH_TTL);
    if e.Take? && Found(swept, e.user, e.handle).Some? {
      RemoveAgrees(swept, Exact(s), s.now, STASH_TTL, e.handle);
      assert Exact(t) == Exact(s) - {e.handle};
    }
    forall i | 0 <= i < |s.answers|
      ensures ReadOk(t, s.answers[i])
    {
      assert ReadOk(s, s.answers[i]);
    }
  }

  lemma {:induction false} RunKeepsGood(start: int, run: seq<Event>)
    requires After(Initial(start), run).Some?
    ensures Good(After(Initial(start), run).value)
  {
    if run != [] {
      RunKeepsGood(start, run[..|run| - 1]);
      var mid, e := After(Initial(start), run[..|run| - 1]).value, run[|run| - 1];
      match e {
        case Wait(seconds) => LaterAgrees(mid.entries, Exact(mid), mid.now, mid.now + seconds, STASH_TTL);
        case Put(_, _, _, _) => PutKeepsGood(mid, e);
        case Peek(_, _) => ReadKeepsGood(mid, e);
        case Take(_, _) => ReadKeepsGood(mid, e);
      }
    }
  }

  /** The events are the methods of the stash, and every value that is given is on record. */
  lemma EventsAreMethods(s: State, e: Event)
    ensures var t, swept := Step(s, e), Swept(s.entries, s.now, STASH_TTL);
            match e
            case Wait(seconds) => t.now == s.now + seconds && t.entries == s.entries && t.puts == s.puts && t.answers == s.answers
            case Put(handle, user, value, delay) =>
              && t.now == s.now + delay && t.entries == swept[handle := Stamped(Secret(user, value), t.now)]
              && t.puts == s.puts[handle := Stamped(Secret(user, value), t.now)] && t.answers == s.answers && t.taken == s.taken
            case Peek(user, handle) =>
              && t.now == s.now && t.entries == swept && t.puts == s.puts && t.taken == s.taken
              && t.answers == (if Found(swept, user, handle).Some?
                               then s.answers + [Read(handle, user, Found(swept, user, handle).value, s.now, false)] else s.answers)
            case Take(user, handle) =>
              && t.now == s.now && t.puts == s.puts
              && t.entries == (if Found(swept, user, handle).Some? then swept - {handle} else swept)
              && t.taken == (if Found(swept, user, handle).Some? then s.taken + {handle} else s.taken)
              && t.answers == (if Found(swept, user, handle).Some?
                               then s.answers + [Read(handle, user, Found(swept, user, handle).value, s.now, true)] else s.answers)
  {
  }

  /** In every run a handle gives its value to the user who stored it and to nobody else, less
      than fifteen minutes after it was stored, and never again after it was taken. */
  lemma HandlesAreSafe(start: int, run: seq<Event>, s: State, i: nat, j: nat)
    requires After(Initial(start), run) == Some(s) && i < |s.answers|
    ensures var r := s.answers[i];
            && r.handle in s.puts && s.puts[r.handle].value == Secret(r.user, r.value)
            && s.puts[r.handle].at <= r.at < s.puts[r.handle].at + 15 * 60
    ensures i < j < |s.answers| && s.answers[i].taken ==> s.answers[j].handle != s.answers[i].handle
  {
    RunKeepsGood(start, run);
  }

  /** And it does give the value: to its user, as long as it is neither taken nor too old. */
  lemma HandlesAreLive(start: int, run: seq<Event>, s: State, user: int, handle: string)
    requires After(Initial(start), run) == Some(s)
    ensures Found(Swept(s.entries, s.now, STASH_TTL), user, handle)
         == if && handle in s.puts && handle !in s.taken
               && s.puts[handle].value.user == user && s.now < s.puts[handle].at + 15 * 60
            then Some(s.puts[handle].value.value) else None
  {
    RunKeepsGood(start, run);
    LazyIsExact(s.entries, Exact(s), s.now, s.now, STASH_TTL);
  }
}
