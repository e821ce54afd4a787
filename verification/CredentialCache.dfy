/** The TTL cache of validated clients (internal/cloudflare/cache.go). Clients are numbers, times instants. */
module CredentialCaches {
  import opened GoTypes
  import opened Text

  const DEFAULT_TTL := 30_000_000_000

  datatype Secret = Secret(uid: string, resourceVersion: string)

  function CacheKey(s: Secret): string {
    s.uid + ":" + s.resourceVersion
  }

  /** A new resource version is a new key, and secrets with different UIDs never share one; UIDs contain no colon. */
  lemma CacheKeyInjective(a: Secret, b: Secret)
    requires Free(a.uid, ':') && Free(b.uid, ':') && CacheKey(a) == CacheKey(b)
    ensures a == b
  {
    assert CacheKey(a) == a.uid + [':'] + a.resourceVersion && CacheKey(b) == b.uid + [':'] + b.resourceVersion;
    JoinInjective(a.uid, b.uid, ':', a.resourceVersion, b.resourceVersion);
  }

  datatype Entry = Entry(client: nat, expiresAt: int)

  /** The last Set of a key that has not been cancelled by Invalidate or Clear. */
  datatype LastSet = LastSet(client: nat, at: int)

  /**
   * The cache refines a timed map: `sets` is what was set and not cancelled, and Get answers from it
   * alone, so the lazy deletion in Get and the sweep in Cleanup cannot be noticed. `clock` is the
   * latest time the cache has seen; callers' times never go back.
   */
  class CredentialCache {
    var entries: map<string, Entry>
    var ttl: int
    ghost var sets: map<string, LastSet>
    ghost var clock: int

    ghost predicate Valid()
      reads this
    {
      && (forall k :: k in entries ==> k in sets && entries[k] == Entry(sets[k].client, sets[k].at + ttl))
      && (forall k :: k in sets && k !in entries ==> sets[k].at + ttl < clock)
    }

    /** What Get owes its caller. */
    ghost function Answer(key: string, now: int): Option<nat>
      reads this
    {
      if key in sets && now <= sets[key].at + ttl then Some(sets[key].client) else None
    }

    constructor (ttl: int)
      ensures Valid() && sets == map[] && this.ttl == (if ttl <= 0 then 30_000_000_000 else ttl)
    {
      entries, sets, clock := map[], map[], 0;
      this.ttl := if ttl <= 0 then DEFAULT_TTL else ttl;
    }

    method Get(secret: Secret, now: int) returns (r: Option<nat>)
      requires Valid() && clock <= now
      modifies this
      ensures Valid() && sets == old(sets) && ttl == old(ttl) && clock == now
      ensures r == old(Answer(CacheKey(secret), now))
    {
      var key := CacheKey(secret);
      clock := now;
      if key !in entries {
        return None;
      }
      var entry := entries[key];
      if now > entry.expiresAt {
        entries := entries - {key};
        return None;
      }
      r := Some(entry.client);
    }

    method Set(secret: Secret, client: nat, now: int)
      requires Valid() && clock <= now
      modifies this
      ensures Valid() && sets == old(sets)[CacheKey(secret) := LastSet(client, now)] && ttl == old(ttl) && clock == now
    {
      var key := CacheKey(secret);
      clock := now;
      entries := entries[key := Entry(client, now + ttl)];
      sets := sets[key := LastSet(client, now)];
    }

    /** `made` is what the create function would return; it is asked only if Get has no answer. */
    method GetOrCreate(secret: Secret, made: Result<nat, string>, now: int, later: int)
      returns (r: Result<nat, string>, ghost asked: bool)
      requires Valid() && clock <= now <= later
      modifies this
      ensures Valid() && ttl == old(ttl)
      ensures asked <==> old(Answer(CacheKey(secret), now)).None?
      ensures r == if asked then made else Ok(old(Answer(CacheKey(secret), now)).value)
      ensures sets == if asked && made.Ok? then old(sets)[CacheKey(secret) := LastSet(made.value, later)] else old(sets)
    {
      var cached := Get(secret, now);
      asked := cached.None?;
      if cached.Some? {
        return Ok(cached.value), asked;
      }
      if made.Err? {
        return made, asked;
      }
      Set(secret, made.value, later);
      r := made;
    }

    method Invalidate(secret: Secret)
      requires Valid()
      modifies this
      ensures Valid() && sets == old(sets) - {CacheKey(secret)} && ttl == old(ttl) && clock == old(clock)
    {
      var key := CacheKey(secret);
      entries, sets := entries - {key}, sets - {key};
    }

    method Clear()
      requires Valid()
      modifies this
      ensures Valid() && sets == map[] && ttl == old(ttl) && clock == old(clock)
    {
      entries, sets := map[], map[];
    }

    /** The sweep drops exactly the expired entries. */
    method Cleanup(now: int)
      requires Valid() && clock <= now
      modifies this
      ensures Valid() && sets == old(sets) && ttl == old(ttl) && clock == now
      ensures forall k :: k in entries <==> k in old(entries) && now <= old(entries)[k].expiresAt
    {
      clock := now;
      var todo := entries.Keys;
      while todo != {}
        invariant Valid() && sets == old(sets) && ttl == old(ttl) && clock == now
        invariant todo <= entries.Keys
        invariant forall k :: k in entries ==> k in old(entries) && entries[k] == old(entries)[k]
        invariant forall k :: k in old(entries) ==> (k in entries <==> k in todo || now <= old(entries)[k].expiresAt)
      {
        var key :| key in todo;
        todo := todo - {key};
        if now > entries[key].expiresAt {
          entries := entries - {key};
        }
      }
    }
  }

  // ---------------------------------------------------------------- Get with its gap

  /** A Get between its locked sections: nothing read yet, an entry read, or an entry found expired. */
  datatype Getter = Resting | HasRead(key: Name, entry: Entry) | Removing(key: Name, entry: Entry)

  datatype Answered = Answered(key: Name, client: Option<nat>, at: int)

  /** A Set that was made. */
  datatype SetMade = SetMade(key: Name, client: nat, at: int)

  /** The cache with many callers; `made` and `answers` record what happened. */
  datatype System = System(
    entries: map<Name, Entry>,
    sets: map<Name, LastSet>,
    clock: int,
    getters: seq<Getter>,
    made: set<SetMade>,
    answers: seq<Answered>)

  datatype Event =
    | Tick(delta: nat)
    | Read(i: nat, key: Name)
    | Check(i: nat)
    | Remove(i: nat)
    | SetKey(key: Name, client: nat)
    | InvalidateKey(key: Name)
    | ClearAll
    | Sweep(now: int)

  predicate Enabled(s: System, e: Event) {
    match e
    case Read(i, _) => i < |s.getters| && s.getters[i].Resting?
    case Check(i) => i < |s.getters| && s.getters[i].HasRead?
    case Remove(i) => i < |s.getters| && s.getters[i].Removing?
    case Sweep(now) => now <= s.clock
    case _ => true
  }

  /** One locked section, or the unlocked expiry check, of some call. */
  function Step(s: System, ttl: int, e: Event): System
    requires Enabled(s, e)
  {
    match e
    case Tick(delta) => s.(clock := s.clock + delta)
    case Read(i, key) =>
      if key in s.entries then s.(getters := s.getters[i := HasRead(key, s.entries[key])])
      else s.(answers := s.answers + [Answered(key, None, s.clock)])
    case Check(i) =>
      var HasRead(key, entry) := s.getters[i];
      if s.clock > entry.expiresAt then s.(getters := s.getters[i := Removing(key, entry)])
      else s.(getters := s.getters[i := Resting], answers := s.answers + [Answered(key, Some(entry.client), s.clock)])
    case Remove(i) =>
      var key := s.getters[i].key;
      s.(entries := s.entries - {key}, getters := s.getters[i := Resting], answers := s.answers + [Answered(key, None, s.clock)])
    case SetKey(key, client) =>
      s.(entries := s.entries[key := Entry(client, s.clock + ttl)], sets := s.sets[key := LastSet(client, s.clock)],
         made := s.made + {SetMade(key, client, s.clock)})
    case InvalidateKey(key) => s.(entries := s.entries - {key}, sets := s.sets - {key})
    case ClearAll => s.(entries := map[], sets := map[])
    case Sweep(now) => s.(entries := map k | k in s.entries && now <= s.entries[k].expiresAt :: s.entries[k])
  }

  ghost predicate Possible(s: System, ttl: int, es: seq<Event>)
    decreases |es|
  {
    es == [] || (Enabled(s, es[0]) && Possible(Step(s, ttl, es[0]), ttl, es[1..]))
  }

  function Play(s: System, ttl: int, es: seq<Event>): System
    requires Possible(s, ttl, es)
    decreases |es|
  {
    if es == [] then s else Play(Step(s, ttl, es[0]), ttl, es[1..])
  }

  function Empty(getters: nat): System {
    System(map[], map[], 0, seq(getters, _ => Resting), {}, [])
  }

  /** The entry comes from a Set of that key. */
  ghost predicate FromSet(s: System, ttl: int, key: Name, e: Entry) {
    SetMade(key, e.client, e.expiresAt - ttl) in s.made
  }

  /** A client was answered only if it had been set for that key, at most ttl before the check. */
  ghost predicate GoodAnswer(s: System, ttl: int, a: Answered) {
    a.client.Some? ==> exists m :: m in s.made && m.key == a.key && m.client == a.client.value && a.at <= m.at + ttl
  }

  ghost predicate Invariant(s: System, ttl: int) {
    && (forall k :: k in s.entries ==> FromSet(s, ttl, k, s.entries[k]))
    && (forall i :: 0 <= i < |s.getters| && !s.getters[i].Resting? ==> FromSet(s, ttl, s.getters[i].key, s.getters[i].entry))
    && (forall i :: 0 <= i < |s.getters| && s.getters[i].Removing? ==> s.clock > s.getters[i].entry.expiresAt)
    && (forall i :: 0 <= i < |s.answers| ==> GoodAnswer(s, ttl, s.answers[i]))
    && (forall k :: k in s.entries ==> k in s.sets && s.entries[k] == Entry(s.sets[k].client, s.sets[k].at + ttl))
  }

  lemma StepInvariant(s: System, ttl: int, e: Event)
    requires Enabled(s, e) && Invariant(s, ttl)
    ensures Invariant(Step(s, ttl, e), ttl)
  {
    var t := Step(s, ttl, e);
    assert s.made <= t.made;
    forall i | 0 <= i < |t.answers| ensures GoodAnswer(t, ttl, t.answers[i]) {
      if i < |s.answers| {
        assert t.answers[i] == s.answers[i] && GoodAnswer(s, ttl, s.answers[i]);
      } else if t.answers[i].client.Some? {
        var g := s.getters[e.i];
        assert FromSet(s, ttl, g.key, g.entry);
        assert SetMade(g.key, g.entry.client, g.entry.expiresAt - ttl) in t.made;
      }
    }
  }

  /** A Get whose steps follow each other at once. */
  function WholeGet(s: System, ttl: int, i: nat, key: Name): System
    requires i < |s.getters| && s.getters[i].Resting?
  {
    var s1 := Step(s, ttl, Read(i, key));
    if s1.getters[i].Resting? then s1
    else
      var s2 := Step(s1, ttl, Check(i));
      if s2.getters[i].Resting? then s2 else Step(s2, ttl, Remove(i))
  }

  /** What the entries say is what the live Sets say; an entry that is gone had expired. */
  ghost predicate Faithful(s: System, ttl: int) {
    && (forall k :: k in s.entries ==> k in s.sets && s.entries[k] == Entry(s.sets[k].client, s.sets[k].at + ttl))
    && (forall k :: k in s.sets && k !in s.entries ==> s.sets[k].at + ttl < s.clock)
  }

  /** Undisturbed, it answers as the sequential Get does: the last live Set if it is at most ttl old. */
  lemma UndisturbedGet(s: System, ttl: int, i: nat, key: Name)
    requires i < |s.getters| && s.getters[i].Resting? && Faithful(s, ttl)
    ensures var t := WholeGet(s, ttl, i, key);
            && t.answers == s.answers + [Answered(key, if key in s.sets && s.clock <= s.sets[key].at + ttl then Some(s.sets[key].client) else None, s.clock)]
            && t.sets == s.sets && t.getters == s.getters && Faithful(t, ttl)
  {
  }

  /** No interleaving ever answers a client of another key, or one already expired when it was checked. */
  lemma {:induction false} AnswersSound(s: System, ttl: int, es: seq<Event>)
    requires Invariant(s, ttl) && Possible(s, ttl, es)
    ensures Invariant(Play(s, ttl, es), ttl)
    ensures forall i :: 0 <= i < |Play(s, ttl, es).answers| ==> GoodAnswer(Play(s, ttl, es), ttl, Play(s, ttl, es).answers[i])
    decreases |es|
  {
    if es != [] {
      StepInvariant(s, ttl, es[0]);
      AnswersSound(Step(s, ttl, es[0]), ttl, es[1..]);
    }
  }

  /** A Set that should still be served but no longer can be. */
  ghost predicate Lost(s: System, ttl: int, k: Name) {
    k in s.sets && s.clock <= s.sets[k].at + ttl && k !in s.entries
  }

  /** A Get that found an expired entry removes the key after the key was set again. */
  ghost predicate LateRemoval(s: System, k: Name, e: Event)
    requires Enabled(s, e)
  {
    e.Remove? && s.getters[e.i].key == k && k in s.entries && s.clock <= s.entries[k].expiresAt
  }

  /** The gap loses an entry in that way only. */
  lemma LostExactly(s: System, ttl: int, e: Event, k: Name)
    requires Enabled(s, e) && Invariant(s, ttl) && !Lost(s, ttl, k) && ttl >= 0
    ensures Lost(Step(s, ttl, e), ttl, k) <==> LateRemoval(s, k, e)
    ensures LateRemoval(s, k, e) ==> s.entries[k] != s.getters[e.i].entry
  {
  }

  ghost predicate NeverLost(s: System, ttl: int, k: Name, es: seq<Event>)
    requires Possible(s, ttl, es)
    decreases |es|
  {
    !Lost(s, ttl, k) && (es == [] || NeverLost(Step(s, ttl, es[0]), ttl, k, es[1..]))
  }

  ghost predicate NoLateRemoval(s: System, ttl: int, k: Name, es: seq<Event>)
    requires Possible(s, ttl, es)
    decreases |es|
  {
    es == [] || (!LateRemoval(s, k, es[0]) && NoLateRemoval(Step(s, ttl, es[0]), ttl, k, es[1..]))
  }

  /** Over any interleaving, what was set for a key is served until it expires or is cancelled exactly if no removal comes late. */
  lemma {:induction false} NeverLostExactly(s: System, ttl: int, k: Name, es: seq<Event>)
    requires Invariant(s, ttl) && !Lost(s, ttl, k) && ttl >= 0 && Possible(s, ttl, es)
    ensures NeverLost(s, ttl, k, es) <==> NoLateRemoval(s, ttl, k, es)
    decreases |es|
  {
    if es != [] {
      StepInvariant(s, ttl, es[0]);
      LostExactly(s, ttl, es[0], k);
      if !LateRemoval(s, k, es[0]) {
        NeverLostExactly(Step(s, ttl, es[0]), ttl, k, es[1..]);
      }
    }
  }

  /** No Set of key k while some Get is about to remove k. */
  ghost predicate NoOverlap(s: System, ttl: int, k: Name, es: seq<Event>)
    requires Possible(s, ttl, es)
    decreases |es|
  {
    es == [] ||
    ((es[0].SetKey? && es[0].key == k ==> forall i :: 0 <= i < |s.getters| && !s.getters[i].Resting? ==> s.getters[i].key != k) &&
     NoOverlap(Step(s, ttl, es[0]), ttl, k, es[1..]))
  }

  /** What a pending Get of k holds is what the cache holds, if it still holds the key. */
  ghost predicate InStep(s: System, k: Name) {
    forall i :: 0 <= i < |s.getters| && !s.getters[i].Resting? && s.getters[i].key == k && k in s.entries ==>
                  s.getters[i].entry == s.entries[k]
  }

  /** Without such an overlap nothing set is ever lost: a Get misses only what has expired or was cancelled. */
  lemma {:induction false} NothingLost(s: System, ttl: int, k: Name, es: seq<Event>)
    requires Invariant(s, ttl) && InStep(s, k) && !Lost(s, ttl, k) && ttl >= 0
    requires Possible(s, ttl, es) && NoOverlap(s, ttl, k, es)
    ensures !Lost(Play(s, ttl, es), ttl, k)
    decreases |es|
  {
    if es != [] {
      StepInvariant(s, ttl, es[0]);
      LostExactly(s, ttl, es[0], k);
      if es[0].Remove? && s.getters[es[0].i].key == k && k in s.entries {
        assert s.getters[es[0].i].entry == s.entries[k];
      }
      assert InStep(Step(s, ttl, es[0]), k);
      NothingLost(Step(s, ttl, es[0]), ttl, k, es[1..]);
    }
  }

  lemma PlayFirst(s: System, ttl: int, e: Event, es: seq<Event>)
    requires Enabled(s, e) && Possible(Step(s, ttl, e), ttl, es)
    ensures Possible(s, ttl, [e] + es) && Play(s, ttl, [e] + es) == Play(Step(s, ttl, e), ttl, es)
  {
    assert ([e] + es)[1..] == es;
  }

  /** With one it can be: the second Set is gone although it was just made. */
  lemma GapLosesSet(k: Name, ttl: nat)
    ensures exists es :: Possible(Empty(1), ttl, es) && Lost(Play(Empty(1), ttl, es), ttl, k)
  {
    var s0 := Empty(1);
    var s1 := Step(s0, ttl, SetKey(k, 1));
    var s2 := Step(s1, ttl, Read(0, k));
    var s3 := Step(s2, ttl, Tick(ttl + 1));
    var s4 := Step(s3, ttl, Check(0));
    var s5 := Step(s4, ttl, SetKey(k, 2));
    var s6 := Step(s5, ttl, Remove(0));
    assert Lost(s6, ttl, k);
    PlayFirst(s5, ttl, Remove(0), []);
    PlayFirst(s4, ttl, SetKey(k, 2), [Remove(0)] + []);
    PlayFirst(s3, ttl, Check(0), [SetKey(k, 2)] + ([Remove(0)] + []));
    PlayFirst(s2, ttl, Tick(ttl + 1), [Check(0)] + ([SetKey(k, 2)] + ([Remove(0)] + [])));
    var rest := [Tick(ttl + 1)] + ([Check(0)] + ([SetKey(k, 2)] + ([Remove(0)] + [])));
    PlayFirst(s1, ttl, Read(0, k), rest);
    PlayFirst(s0, ttl, SetKey(k, 1), [Read(0, k)] + rest);
  }
}
