/**
 * Any number of controllers calling the uncached SyncRecord for one key at the same time: find, create,
 * update and the second find are separate steps that interleave freely (internal/cloudflare/dns.go).
 */
module DnsRace {
  import opened GoTypes
  import opened DnsOwnership
  import opened Dns
  import opened DnsRuns

  /** One controller's call: what it wants, and as which owner. */
  datatype Caller = Caller(desired: Desired, ownerID: string)

  /** Where a call stands between its API calls. */
  datatype PC = Finding | Creating | Refinding | Updating(id: nat) | Done(record: Option<Record>)

  datatype System = System(store: Store, pcs: seq<PC>)

  /** The shared key, the callers, and what the record type allows. */
  datatype Race = Race(zone: string, name: string, rtype: string, callers: seq<Caller>) {
    ghost predicate Valid() {
      && Supported(rtype)
      && forall i :: 0 <= i < |callers| ==> callers[i].desired.name == name && callers[i].desired.rtype == rtype
    }

    function Holder(s: Store): Option<Record> {
      Find(s.records, zone, name, rtype)
    }

    /** Caller i makes its next API call; a finished call stays finished. Nothing is deleted, so an update finds its record. */
    function Step(sys: System, i: nat): System
      requires i < |callers| == |sys.pcs|
    {
      var d := callers[i].desired;
      match sys.pcs[i]
      case Finding =>
        var found := Find(sys.store.records, zone, d.name, d.rtype);
        sys.(pcs := sys.pcs[i :=
          if found.None? then Creating
          else if !Owned(found.value, callers[i].ownerID) || RecordsMatch(found.value, d) then Done(found)
          else Updating(found.value.id)])
      case Creating =>
        if Rejected(sys.store.records, zone, d) then sys.(pcs := sys.pcs[i := Refinding])
        else System(Created(sys.store, zone, d), sys.pcs[i := Done(Some(Kept(sys.store.nextID, zone, d)))])
      case Refinding =>
        sys.(pcs := sys.pcs[i := Done(Find(sys.store.records, zone, d.name, d.rtype))])
      case Updating(id) =>
        System(Updated(sys.store, zone, id, d), sys.pcs[i := Done(Some(Kept(id, zone, d)))])
      case Done(_) => sys
    }

    /** A schedule names the caller that moves next. */
    function Play(sys: System, schedule: seq<nat>): (r: System)
      requires |callers| == |sys.pcs| && forall k :: 0 <= k < |schedule| ==> schedule[k] < |callers|
      ensures |r.pcs| == |sys.pcs|
      decreases |schedule|
    {
      if schedule == [] then sys else Play(Step(sys, schedule[0]), schedule[1..])
    }

    function Start(s: Store): System {
      System(s, seq(|callers|, _ => Finding))
    }

    /** A caller left alone does what one uncached SyncRecord does. */
    lemma AloneIsSync(s: Store, i: nat)
      requires Valid() && Sound(s) && i < |callers|
      ensures var end := Play(Start(s), [i, i, i]);
              var e := SyncEffect(s, NoCache, zone, callers[i].desired, callers[i].ownerID, true, NO_FAULTS);
              e.result.Ok? && end.store == e.store && end.pcs[i] == Done(e.result.value.0)
    {
      var s1 := Step(Start(s), i);
      var s2 := Step(s1, i);
      var s3 := Step(s2, i);
      assert [i, i, i][1..] == [i, i] && [i, i][1..] == [i] && [i][1..] == [];
      assert Play(s3, []) == s3 && Play(s2, [i]) == s3 && Play(s1, [i, i]) == s3;
    }

    // ---------------------------------------------------------------- what every interleaving keeps

    ghost predicate AtMostOne(s: Store) {
      forall i, j :: 0 <= i < j < |s.records| && HasKey(s.records[i], zone, name, rtype) ==> !HasKey(s.records[j], zone, name, rtype)
    }

    /** A host record of another type. */
    ghost predicate Rivalled(s: Store) {
      exists i :: 0 <= i < |s.records| && Rival(s.records[i], zone, name, rtype)
    }

    ghost predicate SameContents() {
      forall i, j :: 0 <= i < |callers| && 0 <= j < |callers| ==> callers[i].desired.content == callers[j].desired.content
    }

    /** One create succeeds and the server refuses every further one. */
    ghost predicate Exclusive(s: Store) {
      if HostType(rtype) then !Rivalled(s) else SameContents()
    }

    /** What a caller's position says about the store. */
    ghost predicate Consistent(s: Store, i: nat, pc: PC)
      requires i < |callers|
    {
      match pc
      case Finding => true
      case Creating =>
        Exclusive(s) && (HostType(rtype) || Holder(s).None? || Holder(s).value.content == callers[i].desired.content)
      case Refinding => Holder(s).Some?
      case Updating(id) => Holder(s).Some? && Holder(s).value.id == id
      case Done(r) => r.Some? && Holder(s).Some? && Holder(s).value.id == r.value.id
    }

    ghost predicate Invariant(sys: System) {
      && |sys.pcs| == |callers|
      && Sound(sys.store) && AtMostOne(sys.store)
      && (Holder(sys.store).None? ==> Exclusive(sys.store))
      && forall i :: 0 <= i < |callers| ==> Consistent(sys.store, i, sys.pcs[i])
    }

    /** With a create under way, a key holder makes the server refuse it; with no holder it is accepted. */
    lemma RejectedByHolder(s: Store, i: nat)
      requires Valid() && i < |callers| && Consistent(s, i, Creating)
      ensures Rejected(s.records, zone, callers[i].desired) <==> Holder(s).Some?
    {
      var d := callers[i].desired;
      if Holder(s).Some? {
        var k :| 0 <= k < |s.records| && s.records[k] == Holder(s).value;
        assert Clash(s.records[k], zone, d);
      } else {
        RejectedByRival(s, zone, d);
      }
    }

    lemma AfterCreate(s: Store, d: Desired)
      requires Sound(s) && Holder(s).None? && d.name == name && d.rtype == rtype
      ensures var t := Created(s, zone, d);
              Sound(t) && AtMostOne(t) && Holder(t) == Some(Kept(s.nextID, zone, d)) && (Rivalled(t) <==> Rivalled(s))
    {
      CreateSound(s, zone, d);
      FindAppend(s.records, [Kept(s.nextID, zone, d)], zone, name, rtype);
      var t := Created(s, zone, d);
      forall i | 0 <= i < |t.records| ensures Rival(t.records[i], zone, name, rtype) ==> i < |s.records| {}
      if i :| 0 <= i < |s.records| && Rival(s.records[i], zone, name, rtype) {
        assert t.records[i] == s.records[i];
      }
    }

    lemma AfterUpdate(s: Store, d: Desired)
      requires Sound(s) && AtMostOne(s) && Holder(s).Some? && d.name == name && d.rtype == rtype
      ensures var t := Updated(s, zone, Holder(s).value.id, d);
              && Sound(t) && AtMostOne(t) && Holder(t) == Some(Kept(Holder(s).value.id, zone, d))
              && (Rivalled(t) <==> Rivalled(s))
    {
      UpdateSound(s, zone, Holder(s).value.id, d);
      FindRewrite(s.records, zone, Holder(s).value.id, d);
      SameKeys(s, d);
      var t := Updated(s, zone, Holder(s).value.id, d);
      assert forall i :: 0 <= i < |s.records| ==> Alike(s.records[i], t.records[i]);
      assert Rivalled(s) ==> Rivalled(t) by {
        if i :| 0 <= i < |s.records| && Rival(s.records[i], zone, name, rtype) {
          assert Rival(t.records[i], zone, name, rtype);
        }
      }
    }

    predicate Alike(r: Record, r': Record) {
      && (HasKey(r', zone, name, rtype) <==> HasKey(r, zone, name, rtype))
      && (Rival(r', zone, name, rtype) <==> Rival(r, zone, name, rtype))
    }

    lemma SameKeys(s: Store, d: Desired)
      requires Sound(s) && Holder(s).Some? && d.name == name && d.rtype == rtype
      ensures var t := Updated(s, zone, Holder(s).value.id, d);
              |t.records| == |s.records| && forall i :: 0 <= i < |s.records| ==> Alike(s.records[i], t.records[i])
    {
      var id := Holder(s).value.id;
      var k :| 0 <= k < |s.records| && s.records[k] == Holder(s).value;
      var t := Updated(s, zone, id, d);
      forall i | 0 <= i < |s.records| ensures Alike(s.records[i], t.records[i]) {
        if i != k { assert t.records[i] == s.records[i]; }
      }
    }

    /** Every step of every caller keeps the invariant. */
    lemma StepInvariant(sys: System, i: nat)
      requires Valid() && Invariant(sys) && i < |callers|
      ensures Invariant(Step(sys, i))
    {
      var d := callers[i].desired;
      var s := sys.store;
      assert Consistent(s, i, sys.pcs[i]);
      match sys.pcs[i] {
        case Creating =>
          RejectedByHolder(s, i);
          if Holder(s).None? {
            AfterCreate(s, d);
            OthersConsistent(sys, Created(s, zone, d), i);
          }
        case Updating(id) =>
          AfterUpdate(s, d);
          OthersConsistent(sys, Updated(s, zone, id, d), i);
        case _ =>
      }
    }

    /** A write of caller i leaves the others where they may be. */
    lemma OthersConsistent(sys: System, t: Store, i: nat)
      requires Valid() && Invariant(sys) && i < |callers|
      requires Holder(t).Some? && Holder(t).value.content == callers[i].desired.content && (Rivalled(t) <==> Rivalled(sys.store))
      requires Holder(sys.store).Some? ==> Holder(t).value.id == Holder(sys.store).value.id
      ensures forall j :: 0 <= j < |callers| && j != i ==> Consistent(t, j, sys.pcs[j])
    {
      forall j | 0 <= j < |callers| && j != i ensures Consistent(t, j, sys.pcs[j]) {
        assert Consistent(sys.store, j, sys.pcs[j]);
      }
    }

    lemma {:induction false} PlayInvariant(sys: System, schedule: seq<nat>)
      requires Valid() && Invariant(sys)
      requires forall k :: 0 <= k < |schedule| ==> schedule[k] < |callers|
      ensures Invariant(Play(sys, schedule))
      decreases |schedule|
    {
      if schedule != [] {
        StepInvariant(sys, schedule[0]);
        PlayInvariant(Step(sys, schedule[0]), schedule[1..]);
      }
    }

    // ---------------------------------------------------------------- fair schedules

    /** How many of its own steps a call still needs. */
    function Remaining(pc: PC): nat {
      match pc
      case Finding => 3
      case Creating => 2
      case Refinding => 1
      case Updating(_) => 1
      case Done(_) => 0
    }

    function Turns(schedule: seq<nat>, i: nat): nat {
      if schedule == [] then 0 else (if schedule[0] == i then 1 else 0) + Turns(schedule[1..], i)
    }

    /** Every call ends after at most three turns of its own, whatever the others do. */
    lemma {:induction false} Finishes(sys: System, schedule: seq<nat>, i: nat)
      requires |callers| == |sys.pcs| && i < |callers|
      requires forall k :: 0 <= k < |schedule| ==> schedule[k] < |callers|
      requires Turns(schedule, i) >= Remaining(sys.pcs[i])
      ensures Play(sys, schedule).pcs[i].Done?
      decreases |schedule|
    {
      if schedule != [] {
        Finishes(Step(sys, schedule[0]), schedule[1..], i);
      }
    }

    /** Only callers move, and each gets the three turns it may need. */
    ghost predicate Fair(schedule: seq<nat>) {
      && (forall k :: 0 <= k < |schedule| ==> schedule[k] < |callers|)
      && forall i :: 0 <= i < |callers| ==> Turns(schedule, i) >= 3
    }

    /** Three turns for each of the first n callers. */
    function RoundRobin(n: nat): seq<nat> {
      if n == 0 then [] else RoundRobin(n - 1) + [n - 1, n - 1, n - 1]
    }

    lemma {:induction false} TurnsConcat(a: seq<nat>, b: seq<nat>, i: nat)
      ensures Turns(a + b, i) == Turns(a, i) + Turns(b, i)
    {
      if a == [] {
        assert a + b == b;
      } else {
        assert (a + b)[1..] == a[1..] + b;
        TurnsConcat(a[1..], b, i);
      }
    }

    lemma TurnsFirst(c: nat, rest: seq<nat>, i: nat)
      ensures Turns([c] + rest, i) == (if c == i then 1 else 0) + Turns(rest, i)
    {
      assert ([c] + rest)[1..] == rest;
    }

    lemma {:induction false} RoundRobinTurns(n: nat)
      ensures forall k :: 0 <= k < |RoundRobin(n)| ==> RoundRobin(n)[k] < n
      ensures forall i :: 0 <= i < n ==> Turns(RoundRobin(n), i) >= 3
    {
      if n > 0 {
        RoundRobinTurns(n - 1);
        var last := [n - 1, n - 1, n - 1];
        forall i | 0 <= i < n ensures Turns(RoundRobin(n), i) >= 3 {
          TurnsConcat(RoundRobin(n - 1), last, i);
          TurnsFirst(n - 1, [n - 1, n - 1], i);
          TurnsFirst(n - 1, [n - 1], i);
          TurnsFirst(n - 1, [], i);
          assert last == [n - 1] + [n - 1, n - 1] && [n - 1, n - 1] == [n - 1] + [n - 1] && [n - 1] == [n - 1] + [];
        }
      }
    }

    /** Any opening moves can be continued to a fair schedule. */
    lemma FairAfter(opening: seq<nat>)
      requires forall k :: 0 <= k < |opening| ==> opening[k] < |callers|
      ensures Fair(opening + RoundRobin(|callers|))
    {
      RoundRobinTurns(|callers|);
      forall i | 0 <= i < |callers| ensures Turns(opening + RoundRobin(|callers|), i) >= 3 {
        TurnsConcat(opening, RoundRobin(|callers|), i);
      }
    }

    lemma {:induction false} PlayConcat(sys: System, a: seq<nat>, b: seq<nat>)
      requires |callers| == |sys.pcs|
      requires forall k :: 0 <= k < |a| ==> a[k] < |callers|
      requires forall k :: 0 <= k < |b| ==> b[k] < |callers|
      ensures Play(sys, a + b) == Play(Play(sys, a), b)
      decreases |a|
    {
      if a == [] {
        assert a + b == b;
      } else {
        assert (a + b)[1..] == a[1..] + b;
        PlayConcat(Step(sys, a[0]), a[1..], b);
      }
    }

    // ---------------------------------------------------------------- one record

    ghost predicate ExactlyOne(s: Store) {
      && Holder(s).Some?
      && forall i :: 0 <= i < |s.records| && HasKey(s.records[i], zone, name, rtype) ==> s.records[i] == Holder(s).value
    }

    /** All calls ended without error, exactly one record has the key, and every caller holds a record with its ID. */
    ghost predicate Agreed(end: System) {
      && |end.pcs| == |callers| && ExactlyOne(end.store)
      && forall i :: 0 <= i < |callers| ==>
           end.pcs[i].Done? && end.pcs[i].record.Some? && end.pcs[i].record.value.id == Holder(end.store).value.id
    }

    /** The start from which it cannot go wrong: one record is there, or one caller will make it and the server refuse the rest. */
    ghost predicate Safe(s: Store) {
      AtMostOne(s) && (Holder(s).Some? || (callers != [] && Exclusive(s)))
    }

    /**
     * Every fair interleaving ends with exactly one record of the key and all callers holding it,
     * precisely if at most one record had the key at first and, should none have had it, no host
     * record of another type was in the way or, for TXT records, the callers want the same content.
     */
    lemma OneRecord(s: Store)
      requires Valid() && Sound(s)
      ensures (forall schedule :: Fair(schedule) ==> Agreed(Play(Start(s), schedule))) <==> Safe(s)
    {
      if Safe(s) {
        forall schedule | Fair(schedule) ensures Agreed(Play(Start(s), schedule)) {
          SafeAgrees(s, schedule);
        }
      } else {
        var schedule := UnsafeDisagrees(s);
      }
    }

    lemma SafeAgrees(s: Store, schedule: seq<nat>)
      requires Valid() && Sound(s) && Safe(s) && Fair(schedule)
      ensures Agreed(Play(Start(s), schedule))
    {
      StartInvariant(s);
      PlayInvariant(Start(s), schedule);
      forall i | 0 <= i < |callers| ensures Play(Start(s), schedule).pcs[i].Done? {
        Finishes(Start(s), schedule, i);
      }
      if callers == [] {
        assert schedule == [];
        OnlyHolder(s);
      } else {
        AllDone(Play(Start(s), schedule));
      }
    }

    lemma StartInvariant(s: Store)
      requires Sound(s) && Safe(s)
      ensures Invariant(Start(s))
    {
      forall i | 0 <= i < |callers| ensures Consistent(s, i, Start(s).pcs[i]) {
        assert Start(s).pcs[i] == Finding;
      }
    }

    lemma AllDone(end: System)
      requires Invariant(end) && callers != [] && forall i :: 0 <= i < |callers| ==> end.pcs[i].Done?
      ensures Agreed(end)
    {
      assert forall i :: 0 <= i < |callers| ==> Consistent(end.store, i, end.pcs[i]);
      assert Consistent(end.store, 0, end.pcs[0]);
      OnlyHolder(end.store);
    }

    lemma OnlyHolder(s: Store)
      requires AtMostOne(s) && Holder(s).Some?
      ensures ExactlyOne(s)
    {
      var k :| 0 <= k < |s.records| && s.records[k] == Holder(s).value;
    }

    // ---------------------------------------------------------------- how it goes wrong

    lemma UnsafeDisagrees(s: Store) returns (schedule: seq<nat>)
      requires Valid() && Sound(s) && !Safe(s)
      ensures Fair(schedule) && !Agreed(Play(Start(s), schedule))
    {
      schedule := RoundRobin(|callers|);
      FairAfter([]);
      assert [] + schedule == schedule;
      if !AtMostOne(s) {
        var i, j :| 0 <= i < j < |s.records| && HasKey(s.records[i], zone, name, rtype) && HasKey(s.records[j], zone, name, rtype);
        TwoStay(Start(s), schedule, i, j);
      } else if callers == [] {
        assert schedule == [];
      } else if HostType(rtype) {
        RivalBlocks(s, schedule);
      } else {
        schedule := TwoRecords(s);
      }
    }

    /** Two records of the key stay two: nothing is deleted, and an update keeps name and type. */
    lemma {:induction false} TwoStay(sys: System, schedule: seq<nat>, i: nat, j: nat)
      requires Valid() && |sys.pcs| == |callers| && forall k :: 0 <= k < |schedule| ==> schedule[k] < |callers|
      requires Two(sys.store, i, j)
      ensures Two(Play(sys, schedule).store, i, j) && !ExactlyOne(Play(sys, schedule).store)
      decreases |schedule|
    {
      if schedule != [] {
        TwoStayStep(sys, schedule[0], i, j);
        TwoStay(Step(sys, schedule[0]), schedule[1..], i, j);
      }
    }

    ghost predicate Two(s: Store, i: nat, j: nat) {
      && i < j < |s.records| && s.records[i].id != s.records[j].id
      && HasKey(s.records[i], zone, name, rtype) && HasKey(s.records[j], zone, name, rtype)
    }

    lemma TwoStayStep(sys: System, c: nat, i: nat, j: nat)
      requires Valid() && |sys.pcs| == |callers| && c < |callers| && Two(sys.store, i, j)
      ensures Two(Step(sys, c).store, i, j)
    {
    }

    /** Beside a host record of another type every call ends without record and without error. */
    lemma RivalBlocks(s: Store, schedule: seq<nat>)
      requires Valid() && Sound(s) && Rivalled(s) && Holder(s).None? && Fair(schedule)
      ensures Play(Start(s), schedule).store == s
      ensures forall i :: 0 <= i < |callers| ==> Play(Start(s), schedule).pcs[i] == Done(None)
      ensures !Agreed(Play(Start(s), schedule))
    {
      forall i | 0 <= i < |callers| ensures Blocked(Start(s), s, i) {
        assert Start(s).pcs[i] == Finding;
      }
      StaysBlocked(s, Start(s), schedule);
      forall i | 0 <= i < |callers| ensures Play(Start(s), schedule).pcs[i] == Done(None) {
        Finishes(Start(s), schedule, i);
        assert Blocked(Play(Start(s), schedule), s, i);
      }
    }

    ghost predicate Blocked(sys: System, s: Store, i: nat) {
      && sys.store == s && i < |sys.pcs|
      && (sys.pcs[i].Finding? || sys.pcs[i].Creating? || sys.pcs[i].Refinding? || sys.pcs[i] == Done(None))
    }

    lemma {:induction false} StaysBlocked(s: Store, sys: System, schedule: seq<nat>)
      requires Valid() && Rivalled(s) && Holder(s).None? && |sys.pcs| == |callers| && sys.store == s
      requires forall k :: 0 <= k < |schedule| ==> schedule[k] < |callers|
      requires forall i :: 0 <= i < |callers| ==> Blocked(sys, s, i)
      ensures Play(sys, schedule).store == s && forall i :: 0 <= i < |callers| ==> Blocked(Play(sys, schedule), s, i)
      decreases |schedule|
    {
      if schedule != [] {
        var c := schedule[0];
        RejectedByRival(s, zone, callers[c].desired);
        assert Blocked(sys, s, c);
        var next := Step(sys, c);
        forall i | 0 <= i < |callers| ensures Blocked(next, s, i) {
          assert Blocked(sys, s, i);
        }
        StaysBlocked(s, next, schedule[1..]);
      }
    }

    /**
     * Two callers that want different TXT contents and both look before either creates leave two
     * records behind, however the others go on.
     */
    lemma TwoRecords(s: Store) returns (schedule: seq<nat>)
      requires Valid() && Sound(s) && !HostType(rtype) && Holder(s).None? && !SameContents()
      ensures Fair(schedule) && !ExactlyOne(Play(Start(s), schedule).store)
    {
      var i, j :| 0 <= i < |callers| && 0 <= j < |callers| && callers[i].desired.content != callers[j].desired.content;
      BothCreate(s, i, j);
      var rest := RoundRobin(|callers|);
      RoundRobinTurns(|callers|);
      FairAfter([i, j, i, j]);
      schedule := [i, j, i, j] + rest;
      PlayConcat(Start(s), [i, j, i, j], rest);
      TwoStay(Play(Start(s), [i, j, i, j]), rest, |s.records|, |s.records| + 1);
    }

    lemma BothCreate(s: Store, i: nat, j: nat)
      requires Valid() && Sound(s) && !HostType(rtype) && Holder(s).None?
      requires i < |callers| && j < |callers| && callers[i].desired.content != callers[j].desired.content
      ensures Two(Play(Start(s), [i, j, i, j]).store, |s.records|, |s.records| + 1)
    {
      var di, dj := callers[i].desired, callers[j].desired;
      var s0 := Start(s);
      var s1 := Step(s0, i);
      var s2 := Step(s1, j);
      var s3 := Step(s2, i);
      var s4 := Step(s3, j);
      assert Play(s0, [i, j, i, j]) == Play(s1, [j, i, j]) == Play(s2, [i, j]) == Play(s3, [j]) == Play(s4, []) by {
        assert [i, j, i, j][1..] == [j, i, j] && [j, i, j][1..] == [i, j] && [i, j][1..] == [j] && [j][1..] == [];
      }
      NotRejected(s, di);
      var n := |s.records|;
      assert s3.store == Created(s, zone, di) && s3.pcs[j] == Creating;
      forall k | 0 <= k < |s3.store.records| ensures !Clash(s3.store.records[k], zone, dj) {
        if k < n { assert s3.store.records[k] == s.records[k]; }
      }
      assert s4.store.records[n] == Kept(s.nextID, zone, di) && s4.store.records[n + 1] == Kept(s.nextID + 1, zone, dj);
    }

    lemma NotRejected(s: Store, d: Desired)
      requires !HostType(rtype) && Holder(s).None? && d.name == name && d.rtype == rtype
      ensures !Rejected(s.records, zone, d)
    {
      forall k | 0 <= k < |s.records| ensures !Clash(s.records[k], zone, d) {}
    }
  }
}
