/** What DNS synchronisation keeps and reaches over single calls, batches and whole runs. */
module DnsRuns {
  import opened GoTypes
  import opened Text
  import opened DnsOwnership
  import opened Dns

  /** Record IDs are never reused, and TXT records are never proxied. */
  ghost predicate Sound(s: Store) {
    && (forall i, j :: 0 <= i < j < |s.records| ==> s.records[i].id != s.records[j].id)
    && (forall i :: 0 <= i < |s.records| ==> s.records[i].id < s.nextID)
    && (forall i :: 0 <= i < |s.records| && s.records[i].rtype == "TXT" ==> !s.records[i].proxied)
  }

  lemma CreateSound(s: Store, zone: string, d: Desired)
    requires Sound(s)
    ensures Sound(Created(s, zone, d))
  {
  }

  lemma UpdateSound(s: Store, zone: string, id: nat, d: Desired)
    requires Sound(s)
    ensures Sound(Updated(s, zone, id, d))
  {
    var rs := Rewrite(s.records, zone, id, d);
    forall i | 0 <= i < |rs| ensures rs[i].id == s.records[i].id {}
  }

  lemma {:induction false} WithoutKeeps(rs: seq<Record>, zone: string, id: nat)
    ensures forall r :: r in Without(rs, zone, id) <==> r in rs && !(r.id == id && r.zone == zone)
    ensures (forall i, j :: 0 <= i < j < |rs| ==> rs[i].id != rs[j].id) ==>
              forall i, j :: 0 <= i < j < |Without(rs, zone, id)| ==> Without(rs, zone, id)[i].id != Without(rs, zone, id)[j].id
  {
    if rs != [] {
      WithoutKeeps(rs[1..], zone, id);
      var rest := Without(rs[1..], zone, id);
      assert rs == [rs[0]] + rs[1..];
      if forall i, j :: 0 <= i < j < |rs| ==> rs[i].id != rs[j].id {
        forall j | 0 <= j < |rest| ensures rest[j].id != rs[0].id {
          assert rest[j] in rs[1..];
          var k :| 0 <= k < |rs[1..]| && rs[1..][k] == rest[j];
          assert rs[k + 1] == rest[j];
        }
      }
    }
  }

  // ---------------------------------------------------------------- safety over runs

  /** A call of the service, or the start of a reconcile cycle with an empty cache. */
  datatype Op =
    | SyncOp(zone: string, desired: Desired, ownerID: string, lifecycle: Option<DNSPolicy>, faults: Faults)
    | DeleteOp(zone: string, id: nat, policy: DNSPolicy, fault: Fault)
    | OwnershipOp(zone: string, params: OwnershipParams, faults: Faults)
    | NewCycle

  /** What the server holds and what the service remembers. */
  datatype State = State(store: Store, cache: Cache)

  /** SyncRecord has no policy and may always update. */
  function MayUpdate(op: Op): bool
    requires op.SyncOp?
  {
    op.lifecycle.None? || AllowsUpdate(op.lifecycle.value)
  }

  function Do(st: State, op: Op): State {
    match op
    case SyncOp(zone, d, ownerID, _, f) =>
      var e := SyncEffect(st.store, st.cache, zone, d, ownerID, MayUpdate(op), f);
      State(e.store, e.cache)
    case DeleteOp(zone, id, policy, f) => st.(store := DeleteEffect(st.store, zone, id, policy, f).0)
    case OwnershipOp(zone, p, f) =>
      var e := OwnershipEffect(st.store, st.cache, zone, p, f);
      State(e.store, e.cache)
    case NewCycle => st.(cache := Entries(map[]))
  }

  function DoAll(st: State, ops: seq<Op>): State
    decreases |ops|
  {
    if ops == [] then st else DoAll(Do(st, ops[0]), ops[1..])
  }

  /** What the lookup of a sync gives, from the cache or the server. */
  function Seen(st: State, op: Op): Result<Option<Record>, Error>
    requires op.SyncOp?
  {
    Lookup(st.store, st.cache, op.zone, op.desired.name, op.desired.rtype, op.faults.findUp).1
  }

  /** The sync takes the record it sees for its own and writes an update to that ID. */
  predicate Updates(st: State, op: Op)
    requires op.SyncOp?
  {
    && Seen(st, op).Ok? && Seen(st, op).value.Some?
    && Owned(Seen(st, op).value.value, op.ownerID) && !RecordsMatch(Seen(st, op).value.value, op.desired) && MayUpdate(op)
    && Supported(op.desired.rtype) && op.faults.write != Lost
  }

  /** What one sync leaves alone, with any cache: every record but the one whose ID it updates. */
  lemma SyncTouches(st: State, op: Op)
    requires Sound(st.store) && op.SyncOp?
    ensures var a := Do(st, op).store; var s := st.store;
            && Sound(a) && |a.records| >= |s.records|
            && (forall i :: 0 <= i < |s.records| ==> a.records[i].id == s.records[i].id)
            && (forall i :: 0 <= i < |s.records| ==>
                  a.records[i] == if Updates(st, op) && s.records[i].id == Seen(st, op).value.value.id && s.records[i].zone == op.zone
                                  then Kept(s.records[i].id, op.zone, op.desired) else s.records[i])
  {
    CreateSound(st.store, op.zone, op.desired);
    if Updates(st, op) {
      UpdateSound(st.store, op.zone, Seen(st, op).value.value.id, op.desired);
    }
  }

  /** The cache shows an owned record where the server holds one that is not, and the sync would change it. */
  ghost predicate Misled(st: State, op: Op)
    requires op.SyncOp?
  {
    Updates(st, op) &&
    exists i :: 0 <= i < |st.store.records| && st.store.records[i].id == Seen(st, op).value.value.id && st.store.records[i].zone == op.zone &&
                !Owned(st.store.records[i], op.ownerID) && st.store.records[i] != Kept(st.store.records[i].id, op.zone, op.desired)
  }

  /** A sync, with whatever cache, leaves all records of others alone exactly if its cache does not mislead it. */
  lemma SyncSparesOthers(st: State, op: Op)
    requires Sound(st.store) && op.SyncOp?
    ensures (forall i :: 0 <= i < |st.store.records| && !Owned(st.store.records[i], op.ownerID) ==>
               Do(st, op).store.records[i] == st.store.records[i]) <==> !Misled(st, op)
  {
    SyncTouches(st, op);
  }

  /** What the cache remembers under this record's ID is the record as it is. */
  ghost predicate Trusts(c: Cache, r: Record) {
    c.Entries? ==> forall key :: key in c.m && c.m[key].Some? && c.m[key].value.id == r.id ==> c.m[key].value == r
  }

  lemma LookupTrusts(s: Store, c: Cache, zone: string, name: string, rtype: string, up: bool, i: nat)
    requires Sound(s) && i < |s.records| && Trusts(c, s.records[i])
    ensures var (c', found) := Lookup(s, c, zone, name, rtype, up);
            && Trusts(c', s.records[i])
            && (found.Ok? && found.value.Some? && found.value.value.id == s.records[i].id ==> found.value.value == s.records[i])
  {
  }

  lemma SyncTrusts(st: State, op: Op, i: nat)
    requires Sound(st.store) && op.SyncOp? && i < |st.store.records| && Trusts(st.cache, st.store.records[i])
    ensures Trusts(Do(st, op).cache, st.store.records[i])
  {
    var d, f := op.desired, op.faults;
    LookupTrusts(st.store, st.cache, op.zone, d.name, d.rtype, f.findUp, i);
    var c1 := Lookup(st.store, st.cache, op.zone, d.name, d.rtype, f.findUp).0;
    LookupTrusts(st.store, c1, op.zone, d.name, d.rtype, f.refindUp, i);
  }

  /**
   * No record is altered that none of the owner IDs used in the run owns: with any cache that does not
   * remember it otherwise than it is, such as none or an empty one, and through any reconcile cycles.
   */
  lemma {:induction false} ForeignUntouched(st: State, ops: seq<Op>, i: nat)
    requires Sound(st.store) && i < |st.store.records| && Trusts(st.cache, st.store.records[i])
    requires forall k :: 0 <= k < |ops| ==> ops[k].NewCycle? || (ops[k].SyncOp? && !Owned(st.store.records[i], ops[k].ownerID))
    ensures i < |DoAll(st, ops).store.records| && DoAll(st, ops).store.records[i] == st.store.records[i]
    decreases |ops|
  {
    if ops != [] {
      if ops[0].SyncOp? {
        SyncTouches(st, ops[0]);
        LookupTrusts(st.store, st.cache, ops[0].zone, ops[0].desired.name, ops[0].desired.rtype, ops[0].faults.findUp, i);
        SyncTrusts(st, ops[0], i);
      }
      forall k | 0 <= k < |ops[1..]|
        ensures ops[1..][k].NewCycle? || (ops[1..][k].SyncOp? && !Owned(st.store.records[i], ops[1..][k].ownerID))
      {
        assert ops[1..][k] == ops[k + 1];
      }
      ForeignUntouched(Do(st, ops[0]), ops[1..], i);
    }
  }

  /** A run under one policy. CreateOwnershipRecord knows none and may update under any, so create-only excludes it. */
  predicate Under(op: Op, policy: DNSPolicy) {
    match op
    case SyncOp(_, _, _, lifecycle, _) => lifecycle == Some(policy)
    case DeleteOp(_, _, p, _) => p == policy
    case OwnershipOp(_, _, _) => AllowsUpdate(policy)
    case NewCycle => true
  }

  lemma OwnershipKeepsIDs(st: State, op: Op)
    requires Sound(st.store) && op.OwnershipOp?
    ensures Sound(Do(st, op).store) && |Do(st, op).store.records| >= |st.store.records|
    ensures forall i :: 0 <= i < |st.store.records| ==> Do(st, op).store.records[i].id == st.store.records[i].id
  {
    var d := OwnershipRecord(op.params);
    CreateSound(st.store, op.zone, d);
    var found := Lookup(st.store, st.cache, op.zone, d.name, d.rtype, op.faults.findUp).1;
    if found.Ok? && found.value.Some? {
      UpdateSound(st.store, op.zone, found.value.value.id, d);
    }
  }

  /** Under upsert-only no record ID disappears, with any cache, deletes and ownership records included. */
  lemma {:induction false} UpsertOnlyKeepsIDs(st: State, ops: seq<Op>, i: nat)
    requires Sound(st.store) && i < |st.store.records|
    requires forall k :: 0 <= k < |ops| ==> Under(ops[k], UpsertOnly)
    ensures i < |DoAll(st, ops).store.records| && DoAll(st, ops).store.records[i].id == st.store.records[i].id
    decreases |ops|
  {
    if ops != [] {
      assert Under(ops[0], UpsertOnly);
      if ops[0].SyncOp? {
        SyncTouches(st, ops[0]);
      } else if ops[0].OwnershipOp? {
        OwnershipKeepsIDs(st, ops[0]);
      }
      forall k | 0 <= k < |ops[1..]| ensures Under(ops[1..][k], UpsertOnly) { assert ops[1..][k] == ops[k + 1]; }
      UpsertOnlyKeepsIDs(Do(st, ops[0]), ops[1..], i);
    }
  }

  /** Under create-only every earlier record stays exactly as it was, with any cache. */
  lemma {:induction false} CreateOnlyKeepsRecords(st: State, ops: seq<Op>)
    requires Sound(st.store)
    requires forall k :: 0 <= k < |ops| ==> Under(ops[k], CreateOnly)
    ensures st.store.records <= DoAll(st, ops).store.records
    decreases |ops|
  {
    if ops != [] {
      assert Under(ops[0], CreateOnly);
      if ops[0].SyncOp? {
        SyncTouches(st, ops[0]);
      }
      forall k | 0 <= k < |ops[1..]| ensures Under(ops[1..][k], CreateOnly) { assert ops[1..][k] == ops[k + 1]; }
      CreateOnlyKeepsRecords(Do(st, ops[0]), ops[1..]);
    }
  }

  /** CreateOwnershipRecord sees a record that says something else, and gets to change the one the server holds under its ID. */
  ghost predicate Overwrites(st: State, op: Op)
    requires op.OwnershipOp?
  {
    var d := OwnershipRecord(op.params);
    var seen := Lookup(st.store, st.cache, op.zone, d.name, d.rtype, op.faults.findUp).1;
    && seen.Ok? && seen.value.Some? && (seen.value.value.content != d.content || seen.value.value.comment != d.comment)
    && op.faults.write != Lost
    && exists i :: 0 <= i < |st.store.records| && st.store.records[i].id == seen.value.value.id && st.store.records[i].zone == op.zone &&
                   st.store.records[i] != Kept(st.store.records[i].id, op.zone, d)
  }

  /** CreateOwnershipRecord asks no policy: every earlier record stays as it was exactly if it has nothing to overwrite. */
  lemma OwnershipKeepsRecords(st: State, op: Op)
    requires Sound(st.store) && op.OwnershipOp?
    ensures st.store.records <= Do(st, op).store.records <==> !Overwrites(st, op)
  {
    var d := OwnershipRecord(op.params);
    var seen := Lookup(st.store, st.cache, op.zone, d.name, d.rtype, op.faults.findUp).1;
    if seen.Ok? && seen.value.Some? {
      RewriteChangesAt(st.store, op.zone, seen.value.value.id, d);
    }
  }

  lemma RewriteChangesAt(s: Store, zone: string, id: nat, d: Desired)
    ensures s.records <= Rewrite(s.records, zone, id, d) <==>
            forall i :: 0 <= i < |s.records| && s.records[i].id == id && s.records[i].zone == zone ==> s.records[i] == Kept(id, zone, d)
  {
    var rs := Rewrite(s.records, zone, id, d);
    if s.records <= rs {
      assert forall i :: 0 <= i < |rs| ==> rs[i] == s.records[i];
    }
  }

  /** Under sync, a delete removes exactly the record with that ID. */
  lemma SyncDeletes(s: Store, zone: string, id: nat)
    requires Sound(s)
    ensures var a := DeleteEffect(s, zone, id, Sync, Fine).0;
            Sound(a) && forall r :: r in a.records <==> r in s.records && !(r.id == id && r.zone == zone)
  {
    WithoutKeeps(s.records, zone, id);
    var a := Without(s.records, zone, id);
    forall i | 0 <= i < |a| ensures a[i].id < s.nextID && (a[i].rtype == "TXT" ==> !a[i].proxied) {
      assert a[i] in s.records;
    }
  }

  // ---------------------------------------------------------------- a second call

  lemma {:induction false} FindAppend(a: seq<Record>, b: seq<Record>, zone: string, name: string, rtype: string)
    ensures Find(a + b, zone, name, rtype) ==
            if Find(a, zone, name, rtype).Some? then Find(a, zone, name, rtype) else Find(b, zone, name, rtype)
  {
    if a == [] {
      assert a + b == b;
    } else {
      assert (a + b)[1..] == a[1..] + b;
      FindAppend(a[1..], b, zone, name, rtype);
    }
  }

  /** Rewriting a record in place leaves the order in which records of its own key are found. */
  lemma {:induction false} FindRewrite(rs: seq<Record>, zone: string, id: nat, d: Desired)
    requires Find(rs, zone, d.name, d.rtype).Some? && Find(rs, zone, d.name, d.rtype).value.id == id
    requires forall i, j :: 0 <= i < j < |rs| ==> rs[i].id != rs[j].id
    ensures Find(Rewrite(rs, zone, id, d), zone, d.name, d.rtype) == Some(Kept(id, zone, d))
  {
    var out := Rewrite(rs, zone, id, d);
    assert out[1..] == Rewrite(rs[1..], zone, id, d);
    if HasKey(rs[0], zone, d.name, d.rtype) {
      assert out[0] == Kept(id, zone, d);
    } else {
      FindRewrite(rs[1..], zone, id, d);
      var found := Find(rs[1..], zone, d.name, d.rtype).value;
      var i :| 0 <= i < |rs[1..]| && rs[1..][i] == found;
      assert rs[i + 1] == found;
    }
  }

  /** What the uncached lookup finds after a sync that did not fail. */
  lemma FindAfter(s: Store, zone: string, d: Desired, ownerID: string, mayUpdate: bool, f: Faults)
    requires Sound(s) && SyncEffect(s, NoCache, zone, d, ownerID, mayUpdate, f).result.Ok?
    ensures var e := SyncEffect(s, NoCache, zone, d, ownerID, mayUpdate, f);
            Find(e.store.records, zone, d.name, d.rtype) == e.result.value.0 && Sound(e.store)
    ensures var e := SyncEffect(s, NoCache, zone, d, ownerID, mayUpdate, f);
            e.result.value.1 ==> e.result.value.0.Some? && e.result.value.0.value == Kept(e.result.value.0.value.id, zone, d)
  {
    var found := Find(s.records, zone, d.name, d.rtype);
    CreateSound(s, zone, d);
    if found.None? {
      FindAppend(s.records, [Kept(s.nextID, zone, d)], zone, d.name, d.rtype);
    } else {
      UpdateSound(s, zone, found.value.id, d);
      FindRewrite(s.records, zone, found.value.id, d);
    }
  }

  /** An uncached call leaves everything alone unless it may and must update what it finds, or can create. */
  lemma CallIdle(t: Store, zone: string, d: Desired, ownerID: string, mayUpdate: bool, found: Option<Record>)
    requires Find(t.records, zone, d.name, d.rtype) == found && (found.None? ==> Supported(d.rtype) && Rejected(t.records, zone, d))
    ensures var e := SyncEffect(t, NoCache, zone, d, ownerID, mayUpdate, NO_FAULTS);
            (e.store == t && e.result == Ok((found, false))) <==>
            !(found.Some? && Owned(found.value, ownerID) && !RecordsMatch(found.value, d) && mayUpdate)
  {
  }

  lemma EndsWithoutRecord(s: Store, zone: string, d: Desired, ownerID: string, mayUpdate: bool, f: Faults)
    requires SyncEffect(s, NoCache, zone, d, ownerID, mayUpdate, f).result.Ok?
    ensures var e := SyncEffect(s, NoCache, zone, d, ownerID, mayUpdate, f);
            e.result.value.0.None? ==> Supported(d.rtype) && Rejected(s.records, zone, d) && e.store == s
  {
  }

  /** The record a sync ends with matches what was asked for, unless that is a proxied TXT record or it may not be updated. */
  lemma EndsMatching(s: Store, zone: string, d: Desired, ownerID: string, mayUpdate: bool, f: Faults)
    requires Sound(s) && SyncEffect(s, NoCache, zone, d, ownerID, mayUpdate, f).result.Ok?
    ensures var r := SyncEffect(s, NoCache, zone, d, ownerID, mayUpdate, f).result.value.0;
            r.Some? && Owned(r.value, ownerID) && mayUpdate ==> (RecordsMatch(r.value, d) <==> !(d.rtype == "TXT" && d.proxied))
  {
  }

  lemma SecondCall(s: Store, zone: string, d: Desired, ownerID: string, mayUpdate: bool, f: Faults)
    requires Sound(s) && SyncEffect(s, NoCache, zone, d, ownerID, mayUpdate, f).result.Ok?
    ensures var first := SyncEffect(s, NoCache, zone, d, ownerID, mayUpdate, f);
            var second := SyncEffect(first.store, NoCache, zone, d, ownerID, mayUpdate, NO_FAULTS);
            (second.store == first.store && second.result == Ok((first.result.value.0, false))) <==>
            !(d.rtype == "TXT" && d.proxied && mayUpdate && first.result.value.0.Some? && Owned(first.result.value.0.value, ownerID))
  {
    FindAfter(s, zone, d, ownerID, mayUpdate, f);
    EndsWithoutRecord(s, zone, d, ownerID, mayUpdate, f);
    EndsMatching(s, zone, d, ownerID, mayUpdate, f);
    var first := SyncEffect(s, NoCache, zone, d, ownerID, mayUpdate, f);
    CallIdle(first.store, zone, d, ownerID, mayUpdate, first.result.value.0);
  }

  /** A sync of a proxied TXT record ends with one its owner recognises exactly if he recognises the desired one and did the old one. */
  lemma ProxiedTXTOwned(s: Store, zone: string, d: Desired, ownerID: string, f: Faults)
    requires Sound(s) && SyncEffect(s, NoCache, zone, d, ownerID, true, f).result.Ok? && d.rtype == "TXT" && d.proxied
    ensures var found := Find(s.records, zone, d.name, d.rtype); var r := SyncEffect(s, NoCache, zone, d, ownerID, true, f).result.value.0;
            (r.Some? && Owned(r.value, ownerID)) <==> (OwnedText(d.content, d.comment, ownerID) && (found.Some? ==> Owned(found.value, ownerID)))
  {
    if Find(s.records, zone, d.name, d.rtype).None? {
      forall i | 0 <= i < |s.records| ensures !Clash(s.records[i], zone, d) {}
    }
  }

  /**
   * An immediate second uncached call writes nothing and reports unmodified, under every policy,
   * except when a proxied TXT record is asked for that its owner recognises, and no record was there or
   * one that he recognised too: it never matches and is rewritten every time if the policy allows updates.
   */
  lemma SecondCallIdle(s: Store, zone: string, d: Desired, ownerID: string, mayUpdate: bool, f: Faults)
    requires Sound(s) && SyncEffect(s, NoCache, zone, d, ownerID, mayUpdate, f).result.Ok?
    ensures var first := SyncEffect(s, NoCache, zone, d, ownerID, mayUpdate, f);
            var second := SyncEffect(first.store, NoCache, zone, d, ownerID, mayUpdate, NO_FAULTS);
            var found := Find(s.records, zone, d.name, d.rtype);
            (second.store == first.store && second.result == Ok((first.result.value.0, false))) <==>
            !(d.rtype == "TXT" && d.proxied && mayUpdate && OwnedText(d.content, d.comment, ownerID) &&
              (found.Some? ==> Owned(found.value, ownerID)))
  {
    SecondCall(s, zone, d, ownerID, mayUpdate, f);
    if d.rtype == "TXT" && d.proxied && mayUpdate {
      ProxiedTXTOwned(s, zone, d, ownerID, f);
    }
  }

  /**
   * A successful uncached CreateOwnershipRecord leaves a TXT record that its owner recognises and that,
   * for comma-free owner and resource, parses back to them; doing it again writes nothing.
   */
  lemma OwnershipEstablished(s: Store, zone: string, p: OwnershipParams, f: Faults)
    requires Sound(s) && OwnershipEffect(s, NoCache, zone, p, f).result.Ok?
    ensures var e := OwnershipEffect(s, NoCache, zone, p, f);
            var d := OwnershipRecord(p);
            var found := Find(e.store.records, zone, d.name, "TXT");
            && found.Some? && Owned(found.value, p.ownerID) && found.value.comment == d.comment
            && (Free(p.ownerID, ',') && Free(p.resource, ',') ==>
                  Parsed(found.value.content) == Some(Metadata("cfgate", p.ownerID, p.resource)))
            && OwnershipEffect(e.store, NoCache, zone, p, NO_FAULTS) == Effect(e.store, NoCache, Ok((None, false)))
  {
    var d := OwnershipRecord(p);
    var before := Find(s.records, zone, d.name, d.rtype);
    PrefixFound(p.ownerID, p.resource, p.ownerID);
    BuiltHasHeritage(p.ownerID, p.resource);
    ParseBuilt(p.ownerID, p.resource);
    if before.None? {
      forall i | 0 <= i < |s.records| ensures !Clash(s.records[i], zone, d) {}
      FindAppend(s.records, [Kept(s.nextID, zone, d)], zone, d.name, d.rtype);
    } else {
      FindRewrite(s.records, zone, before.value.id, d);
    }
  }

  /**
   * It asks for no owner: a TXT record of anybody else under that name is replaced, under its own ID,
   * and is then no longer theirs.
   */
  lemma OwnershipTakesOver(s: Store, zone: string, p: OwnershipParams, theirs: Record)
    requires Sound(s) && Find(s.records, zone, OwnershipRecord(p).name, "TXT") == Some(theirs)
    requires theirs.content != OwnershipText(p.ownerID, p.resource)
    ensures var e := OwnershipEffect(s, NoCache, zone, p, NO_FAULTS);
            e.result == Ok((None, true)) &&
            Find(e.store.records, zone, OwnershipRecord(p).name, "TXT") == Some(Kept(theirs.id, zone, OwnershipRecord(p))) &&
            theirs !in e.store.records
  {
    var d := OwnershipRecord(p);
    FindRewrite(s.records, zone, theirs.id, d);
    var e := OwnershipEffect(s, NoCache, zone, p, NO_FAULTS);
    forall i | 0 <= i < |e.store.records| ensures e.store.records[i] != theirs {
      assert e.store.records[i] == if s.records[i].id == theirs.id && s.records[i].zone == zone then Kept(theirs.id, zone, d) else s.records[i];
    }
  }

  /**
   * The guard SyncRecord has and CreateOwnershipRecord lacks: it leaves all records of others as they
   * are exactly when it finds none, finds one its owner recognises, or does not get to write at all.
   */
  lemma OwnershipSparesOthers(s: Store, zone: string, p: OwnershipParams, f: Faults)
    requires Sound(s)
    ensures var e := OwnershipEffect(s, NoCache, zone, p, f); var found := Find(s.records, zone, OwnershipRecord(p).name, "TXT");
            (forall i :: 0 <= i < |s.records| && !Owned(s.records[i], p.ownerID) ==>
               i < |e.store.records| && e.store.records[i] == s.records[i]) <==>
            (found.None? || Owned(found.value, p.ownerID) || !f.findUp || f.write == Lost)
  {
    var d := OwnershipRecord(p);
    var found := Find(s.records, zone, d.name, "TXT");
    PrefixFound(p.ownerID, p.resource, p.ownerID);
    BuiltHasHeritage(p.ownerID, p.resource);
    if found.Some? {
      var k :| 0 <= k < |s.records| && s.records[k] == found.value;
      assert Owned(Kept(found.value.id, zone, d), p.ownerID);
      assert Rewrite(s.records, zone, found.value.id, d)[k] == Kept(found.value.id, zone, d);
    }
  }

  // ---------------------------------------------------------------- cached and uncached batches

  datatype BatchOp =
    | SyncItem(zone: string, desired: Desired, ownerID: string, policy: DNSPolicy, faults: Faults)
    | OwnershipItem(zone: string, params: OwnershipParams, faults: Faults)

  datatype Key = Key(zone: string, name: string, rtype: string)

  function KeyOf(op: BatchOp): Key {
    match op
    case SyncItem(zone, d, _, _, _) => Key(zone, d.name, d.rtype)
    case OwnershipItem(zone, p, _) => Key(zone, OwnershipRecord(p).name, "TXT")
  }

  function Step(s: Store, c: Cache, op: BatchOp): Effect {
    match op
    case SyncItem(zone, d, ownerID, policy, f) => SyncEffect(s, c, zone, d, ownerID, AllowsUpdate(policy), f)
    case OwnershipItem(zone, p, f) => OwnershipEffect(s, c, zone, p, f)
  }

  /** The store and the results of a batch. */
  function Batch(s: Store, c: Cache, ops: seq<BatchOp>): (r: (Store, seq<SyncResult>))
    ensures |r.1| == |ops|
    decreases |ops|
  {
    if ops == [] then (s, [])
    else
      var e := Step(s, c, ops[0]);
      var rest := Batch(e.store, e.cache, ops[1..]);
      (rest.0, [e.result] + rest.1)
  }

  /** Every cache entry is for a key that no later operation uses. */
  ghost predicate Spent(c: Cache, ops: seq<BatchOp>) {
    c.Entries? && forall i :: 0 <= i < |ops| ==> CacheKey(KeyOf(ops[i]).zone, KeyOf(ops[i]).name, KeyOf(ops[i]).rtype) !in c.m
  }

  predicate PlainKey(k: Key) {
    Free(k.zone, ':') && Free(k.rtype, ':')
  }

  /** On a key the cache does not know, one cached call does what the uncached one does; it remembers the lookup made before its write. */
  lemma CachedStep(s: Store, c: Cache, op: BatchOp)
    requires Spent(c, [op])
    ensures Step(s, c, op).store == Step(s, NoCache, op).store
    ensures op.faults.refindUp ==> Step(s, c, op).result == Step(s, NoCache, op).result
    ensures Step(s, NoCache, op).cache == NoCache
    ensures var k := KeyOf(op); var key := CacheKey(k.zone, k.name, k.rtype);
            Step(s, c, op).cache == if op.faults.findUp then Entries(c.m[key := Find(s.records, k.zone, k.name, k.rtype)]) else c
  {
    var k := KeyOf(op);
    assert KeyOf([op][0]) == k;
    assert CacheKey(k.zone, k.name, k.rtype) !in c.m;
  }

  lemma SpentStep(s: Store, c: Cache, ops: seq<BatchOp>)
    requires ops != [] && Spent(c, ops)
    requires forall i :: 0 <= i < |ops| ==> PlainKey(KeyOf(ops[i]))
    requires forall i, j :: 0 <= i < j < |ops| ==> KeyOf(ops[i]) != KeyOf(ops[j])
    ensures Spent(Step(s, c, ops[0]).cache, ops[1..]) && Spent(c, [ops[0]])
  {
    CachedStep(s, c, ops[0]);
    var k0 := KeyOf(ops[0]);
    forall i | 0 <= i < |ops[1..]|
      ensures var k := KeyOf(ops[1..][i]); CacheKey(k.zone, k.name, k.rtype) !in Step(s, c, ops[0]).cache.m
    {
      var k := KeyOf(ops[i + 1]);
      assert ops[1..][i] == ops[i + 1] && PlainKey(k) && PlainKey(k0);
      if CacheKey(k.zone, k.name, k.rtype) == CacheKey(k0.zone, k0.name, k0.rtype) {
        CacheKeyInjective(k.zone, k.name, k.rtype, k0.zone, k0.name, k0.rtype);
      }
    }
  }

  /**
   * A batch on pairwise distinct keys leaves the same store with a cache as without one, whatever
   * calls fail, and gives the same results wherever the second lookup after a duplicate error would
   * not have failed: the cached service answers that one from memory.
   */
  lemma {:induction false} CacheRefines(s: Store, c: Cache, ops: seq<BatchOp>)
    requires Spent(c, ops)
    requires forall i :: 0 <= i < |ops| ==> PlainKey(KeyOf(ops[i]))
    requires forall i, j :: 0 <= i < j < |ops| ==> KeyOf(ops[i]) != KeyOf(ops[j])
    ensures Batch(s, c, ops).0 == Batch(s, NoCache, ops).0
    ensures forall i :: 0 <= i < |ops| && ops[i].faults.refindUp ==> Batch(s, c, ops).1[i] == Batch(s, NoCache, ops).1[i]
    decreases |ops|
  {
    if ops != [] {
      SpentStep(s, c, ops);
      CachedStep(s, c, ops[0]);
      var e := Step(s, c, ops[0]);
      forall i | 0 <= i < |ops[1..]| ensures PlainKey(KeyOf(ops[1..][i])) { assert ops[1..][i] == ops[i + 1]; }
      CacheRefines(e.store, e.cache, ops[1..]);
      forall i | 0 <= i < |ops| && ops[i].faults.refindUp ensures Batch(s, c, ops).1[i] == Batch(s, NoCache, ops).1[i] {
        if i > 0 { assert ops[1..][i - 1] == ops[i]; }
      }
    }
  }

  /** In particular a service made for one reconcile cycle, with an empty cache. */
  lemma FreshCacheRefines(s: Store, ops: seq<BatchOp>)
    requires forall i :: 0 <= i < |ops| ==> PlainKey(KeyOf(ops[i])) && ops[i].faults.refindUp
    requires forall i, j :: 0 <= i < j < |ops| ==> KeyOf(ops[i]) != KeyOf(ops[j])
    ensures Batch(s, Entries(map[]), ops) == Batch(s, NoCache, ops)
  {
    CacheRefines(s, Entries(map[]), ops);
    assert Batch(s, Entries(map[]), ops).1 == Batch(s, NoCache, ops).1;
  }

  /**
   * Touching a key again is another matter: after a cached call that made a write, the next cached
   * lookup of the key still gives what was there before, and so misses a record just created.
   */
  lemma CachedLookupIsStale(s: Store, c: Cache, op: BatchOp, up: bool)
    requires Sound(s) && Spent(c, [op]) && op.faults == NO_FAULTS
    ensures var k := KeyOf(op); var e := Step(s, c, op);
            Lookup(e.store, e.cache, k.zone, k.name, k.rtype, up).1 == Ok(Find(s.records, k.zone, k.name, k.rtype))
    ensures var k := KeyOf(op); var e := Step(s, c, op);
            Find(s.records, k.zone, k.name, k.rtype).None? && e.store != s ==>
              Find(e.store.records, k.zone, k.name, k.rtype).Some?
  {
    CachedStep(s, c, op);
    var d := if op.SyncItem? then op.desired else OwnershipRecord(op.params);
    FindAppend(s.records, [Kept(s.nextID, op.zone, d)], op.zone, d.name, d.rtype);
  }

  /** The call, if its write gets through, changes the record its lookup found or adds one. */
  predicate Changes(s: Store, op: BatchOp) {
    var k := KeyOf(op);
    var found := Find(s.records, k.zone, k.name, k.rtype);
    match op
    case SyncItem(zone, d, ownerID, policy, _) =>
      Supported(d.rtype) &&
      if found.None? then !Rejected(s.records, zone, d)
      else Owned(found.value, ownerID) && AllowsUpdate(policy) && found.value != Kept(found.value.id, zone, d)
    case OwnershipItem(zone, p, _) =>
      found.None? || found.value.content != OwnershipRecord(p).content || found.value.comment != OwnershipRecord(p).comment
  }

  /** It does so and gets through. */
  predicate Writes(s: Store, op: BatchOp) {
    op.faults.findUp && op.faults.write != Lost && Changes(s, op)
  }

  function Found(s: Store, k: Key): Option<Record> {
    Find(s.records, k.zone, k.name, k.rtype)
  }

  function Wants(op: BatchOp): Desired {
    match op
    case SyncItem(_, d, _, _, _) => d
    case OwnershipItem(_, p, _) => OwnershipRecord(p)
  }

  /** The record a writing call leaves under its key. */
  function LeftBy(s: Store, op: BatchOp): Record {
    var found := Found(s, KeyOf(op));
    Kept(if found.Some? then found.value.id else s.nextID, op.zone, Wants(op))
  }

  function Wrote(s: Store, op: BatchOp): seq<Record> {
    if Found(s, KeyOf(op)).Some? then Rewrite(s.records, op.zone, Found(s, KeyOf(op)).value.id, Wants(op))
    else s.records + [LeftBy(s, op)]
  }

  lemma SyncStepIs(s: Store, op: BatchOp)
    requires Sound(s) && op.SyncItem?
    ensures Step(s, NoCache, op).store.records == if Writes(s, op) then Wrote(s, op) else s.records
  {
    if Found(s, KeyOf(op)).Some? {
      RewriteChanges(s, op.zone, op.desired);
    }
  }

  lemma OwnershipStepIs(s: Store, op: BatchOp)
    requires Sound(s) && op.OwnershipItem?
    ensures Step(s, NoCache, op).store.records == if Writes(s, op) then Wrote(s, op) else s.records
  {
    if Found(s, KeyOf(op)).None? {
      NeverRejected(s, op.zone, op.params);
    }
  }

  lemma WroteFound(s: Store, op: BatchOp)
    requires Sound(s)
    ensures Find(Wrote(s, op), op.zone, Wants(op).name, Wants(op).rtype) == Some(LeftBy(s, op))
    ensures Writes(s, op) ==> Found(s, KeyOf(op)) != Some(LeftBy(s, op)) && Wrote(s, op) != s.records
  {
    if Found(s, KeyOf(op)).Some? {
      RewriteChanges(s, op.zone, Wants(op));
    } else {
      FindAppend(s.records, [LeftBy(s, op)], op.zone, Wants(op).name, Wants(op).rtype);
      assert |Wrote(s, op)| == |s.records| + 1;
    }
  }

  /** The server's records after an uncached call, and what the next lookup of its key then finds. */
  lemma ChangesExactly(s: Store, op: BatchOp)
    requires Sound(s)
    ensures var t := Step(s, NoCache, op).store;
            && t.records == (if Writes(s, op) then Wrote(s, op) else s.records)
            && Found(t, KeyOf(op)) == (if Writes(s, op) then Some(LeftBy(s, op)) else Found(s, KeyOf(op)))
            && (Writes(s, op) ==> Found(s, KeyOf(op)) != Some(LeftBy(s, op)) && t.records != s.records)
  {
    match op {
      case SyncItem(_, _, _, _, _) => SyncStepIs(s, op);
      case OwnershipItem(_, _, _) => OwnershipStepIs(s, op);
    }
    WroteFound(s, op);
  }

  lemma NeverRejected(s: Store, zone: string, p: OwnershipParams)
    requires Find(s.records, zone, OwnershipRecord(p).name, "TXT").None?
    ensures !Rejected(s.records, zone, OwnershipRecord(p))
  {
    RejectedByRival(s, zone, OwnershipRecord(p));
  }

  /** Rewriting the found record is seen by the next lookup unless it had the new content already. */
  lemma RewriteChanges(s: Store, zone: string, d: Desired)
    requires Sound(s) && Find(s.records, zone, d.name, d.rtype).Some?
    ensures var found := Find(s.records, zone, d.name, d.rtype).value; var rs := Rewrite(s.records, zone, found.id, d);
            Find(rs, zone, d.name, d.rtype) == Some(Kept(found.id, zone, d)) &&
            (rs == s.records <==> found == Kept(found.id, zone, d))
  {
    var found := Find(s.records, zone, d.name, d.rtype).value;
    var k :| 0 <= k < |s.records| && s.records[k] == found;
    FindRewrite(s.records, zone, found.id, d);
    var rs := Rewrite(s.records, zone, found.id, d);
    assert rs[k] == Kept(found.id, zone, d);
    forall i | 0 <= i < |rs| && i != k ensures rs[i] == s.records[i] {}
  }

  /**
   * The next cached lookup of the key agrees with an uncached one exactly if the call changed nothing:
   * it found nothing and could not create, or found a record it may not change or that is as desired
   * already, or its write did not get through.
   */
  lemma CacheStaleExactly(s: Store, c: Cache, op: BatchOp)
    requires Sound(s) && Spent(c, [op])
    ensures var k := KeyOf(op); var e := Step(s, c, op);
            Lookup(e.store, e.cache, k.zone, k.name, k.rtype, true).1 == Lookup(e.store, NoCache, k.zone, k.name, k.rtype, true).1 <==>
            !Writes(s, op)
  {
    CachedStep(s, c, op);
    ChangesExactly(s, op);
    assert op == [op][0];
  }

  // ---------------------------------------------------------------- cached batches that come back to a key

  /** No key is used again after a call that wrote to it. */
  ghost predicate Quiet(s: Store, ops: seq<BatchOp>)
    decreases |ops|
  {
    ops == [] ||
    ((Writes(s, ops[0]) ==> forall i :: 1 <= i < |ops| ==> KeyOf(ops[i]) != KeyOf(ops[0])) &&
     Quiet(Step(s, NoCache, ops[0]).store, ops[1..]))
  }

  function KeyText(k: Key): string {
    CacheKey(k.zone, k.name, k.rtype)
  }

  /** What the cache remembers of keys still to be used is what the server holds. */
  ghost predicate Coherent(s: Store, c: Cache, ops: seq<BatchOp>) {
    c.Entries? && forall i :: 0 <= i < |ops| && KeyText(KeyOf(ops[i])) in c.m ==> c.m[KeyText(KeyOf(ops[i]))] == Found(s, KeyOf(ops[i]))
  }

  lemma CoherentCall(s: Store, c: Cache, op: BatchOp)
    requires Coherent(s, c, [op]) && op.faults.findUp
    ensures Step(s, c, op).store == Step(s, NoCache, op).store
    ensures op.faults.refindUp ==> Step(s, c, op).result == Step(s, NoCache, op).result
    ensures Step(s, c, op).cache == Entries(c.m[KeyText(KeyOf(op)) := Found(s, KeyOf(op))])
  {
    assert KeyOf([op][0]) == KeyOf(op);
    if KeyText(KeyOf(op)) in c.m {
      assert c.m[KeyText(KeyOf(op))] == Found(s, KeyOf(op));
      assert c.m == c.m[KeyText(KeyOf(op)) := Found(s, KeyOf(op))];
    }
  }

  lemma StepSound(s: Store, op: BatchOp)
    requires Sound(s)
    ensures Sound(Step(s, NoCache, op).store)
  {
    var d := if op.SyncItem? then op.desired else OwnershipRecord(op.params);
    CreateSound(s, op.zone, d);
    if Found(s, KeyOf(op)).Some? {
      UpdateSound(s, op.zone, Found(s, KeyOf(op)).value.id, d);
    }
  }

  lemma {:induction false} FindRewriteOther(rs: seq<Record>, zone: string, id: nat, d: Desired, k: Key)
    requires k != Key(zone, d.name, d.rtype)
    requires forall i :: 0 <= i < |rs| && rs[i].id == id && rs[i].zone == zone ==> HasKey(rs[i], zone, d.name, d.rtype)
    ensures Find(Rewrite(rs, zone, id, d), k.zone, k.name, k.rtype) == Find(rs, k.zone, k.name, k.rtype)
  {
    if rs != [] {
      assert Rewrite(rs, zone, id, d)[1..] == Rewrite(rs[1..], zone, id, d);
      FindRewriteOther(rs[1..], zone, id, d, k);
    }
  }

  lemma OtherAfterUpdate(s: Store, zone: string, d: Desired, k: Key)
    requires Sound(s) && Find(s.records, zone, d.name, d.rtype).Some? && k != Key(zone, d.name, d.rtype)
    ensures Found(Updated(s, zone, Find(s.records, zone, d.name, d.rtype).value.id, d), k) == Found(s, k)
  {
    var found := Find(s.records, zone, d.name, d.rtype).value;
    var i :| 0 <= i < |s.records| && s.records[i] == found;
    FindRewriteOther(s.records, zone, found.id, d, k);
  }

  lemma OtherAfterCreate(s: Store, zone: string, d: Desired, k: Key)
    requires k != Key(zone, d.name, d.rtype)
    ensures Found(Created(s, zone, d), k) == Found(s, k)
  {
    FindAppend(s.records, [Kept(s.nextID, zone, d)], k.zone, k.name, k.rtype);
  }

  /** A call changes what is found under its own key only. */
  lemma OtherKeys(s: Store, op: BatchOp, k: Key)
    requires Sound(s) && k != KeyOf(op)
    ensures Found(Step(s, NoCache, op).store, k) == Found(s, k)
  {
    var d := if op.SyncItem? then op.desired else OwnershipRecord(op.params);
    OtherAfterCreate(s, op.zone, d, k);
    if Found(s, KeyOf(op)).Some? {
      OtherAfterUpdate(s, op.zone, d, k);
    }
  }

  lemma StaysCoherent(s: Store, c: Cache, ops: seq<BatchOp>)
    requires Sound(s) && ops != [] && Coherent(s, c, ops) && Quiet(s, ops) && ops[0].faults.findUp
    requires forall i :: 0 <= i < |ops| ==> PlainKey(KeyOf(ops[i]))
    ensures Coherent(Step(s, c, ops[0]).store, Step(s, c, ops[0]).cache, ops[1..])
  {
    var op := ops[0];
    var rest := ops[1..];
    assert [op][0] == op;
    CoherentCall(s, c, op);
    var e := Step(s, c, op);
    forall i | 0 <= i < |rest| && KeyText(KeyOf(rest[i])) in e.cache.m
      ensures e.cache.m[KeyText(KeyOf(rest[i]))] == Found(e.store, KeyOf(rest[i]))
    {
      assert rest[i] == ops[i + 1];
      RemembersRight(s, c, op, rest[i]);
    }
  }

  lemma RemembersRight(s: Store, c: Cache, op: BatchOp, next: BatchOp)
    requires Sound(s) && Coherent(s, c, [op]) && Coherent(s, c, [next]) && op.faults.findUp
    requires PlainKey(KeyOf(op)) && PlainKey(KeyOf(next)) && (Writes(s, op) ==> KeyOf(next) != KeyOf(op))
    requires KeyText(KeyOf(next)) in Step(s, c, op).cache.m
    ensures Step(s, c, op).cache.m[KeyText(KeyOf(next))] == Found(Step(s, c, op).store, KeyOf(next))
  {
    var k, k0 := KeyOf(next), KeyOf(op);
    CoherentCall(s, c, op);
    assert KeyOf([next][0]) == k;
    if k == k0 {
      ChangesExactly(s, op);
    } else {
      OtherKeys(s, op, k);
      if KeyText(k) == KeyText(k0) {
        CacheKeyInjective(k.zone, k.name, k.rtype, k0.zone, k0.name, k0.rtype);
      }
    }
  }

  /**
   * Keys may repeat: as long as none is used again after a call that wrote to it, and lookups work, a
   * batch with a fresh cache leaves the same store and gives the same results as one without.
   */
  lemma QuietRefines(s: Store, ops: seq<BatchOp>)
    requires Sound(s) && Quiet(s, ops)
    requires forall i :: 0 <= i < |ops| ==> PlainKey(KeyOf(ops[i])) && ops[i].faults.findUp && ops[i].faults.refindUp
    ensures Batch(s, Entries(map[]), ops) == Batch(s, NoCache, ops)
  {
    CoherentRefines(s, Entries(map[]), ops);
  }

  lemma {:induction false} CoherentRefines(s: Store, c: Cache, ops: seq<BatchOp>)
    requires Sound(s) && Coherent(s, c, ops) && Quiet(s, ops)
    requires forall i :: 0 <= i < |ops| ==> PlainKey(KeyOf(ops[i])) && ops[i].faults.findUp && ops[i].faults.refindUp
    ensures Batch(s, c, ops) == Batch(s, NoCache, ops)
    decreases |ops|
  {
    if ops != [] {
      var op := ops[0];
      assert Coherent(s, c, [op]) by { assert [op][0] == op; }
      CoherentCall(s, c, op);
      StepSound(s, op);
      StaysCoherent(s, c, ops);
      var e := Step(s, c, op);
      forall i | 0 <= i < |ops[1..]| ensures PlainKey(KeyOf(ops[1..][i])) && ops[1..][i].faults.findUp && ops[1..][i].faults.refindUp {
        assert ops[1..][i] == ops[i + 1];
      }
      CoherentRefines(e.store, e.cache, ops[1..]);
      CachelessStep(s, op);
    }
  }

  lemma CachelessStep(s: Store, op: BatchOp)
    ensures Step(s, NoCache, op).cache == NoCache
  {
  }

  // ---------------------------------------------------------------- two calls on one key

  predicate SameText(r: Record, d: Desired) {
    r.content == d.content && r.comment == d.comment
  }

  /**
   * After a call that wrote, with `before` what it found and `after` what it left there, the next call
   * on the key does the same from either: a sync updates both ways, an ownership record is written both
   * ways or neither, or it is refused as a duplicate of the very record.
   */
  predicate Indifferent(op: BatchOp, before: Option<Record>, after: Record) {
    match op
    case SyncItem(_, d, ownerID, policy, _) =>
      && before.Some? && AllowsUpdate(policy)
      && Owned(before.value, ownerID) && Owned(after, ownerID) && !RecordsMatch(before.value, d) && !RecordsMatch(after, d)
    case OwnershipItem(_, p, f) =>
      if before.None? then f.write == Fine && SameText(after, Wants(op))
      else SameText(before.value, Wants(op)) <==> SameText(after, Wants(op))
  }

  /** The situation of such a next call: it remembers `before`, and the server holds `after`. */
  ghost predicate Behind(t: Store, c: Cache, op: BatchOp, before: Option<Record>, after: Record) {
    && c.Entries? && KeyText(KeyOf(op)) in c.m && c.m[KeyText(KeyOf(op))] == before
    && Found(t, KeyOf(op)) == Some(after) && before != Some(after) && Supported(Wants(op).rtype)
    && (before.Some? ==> before.value.id == after.id)
    && (before.None? ==> (Rejected(t.records, op.zone, Wants(op)) <==> HostType(Wants(op).rtype) || after.content == Wants(op).content))
  }

  lemma SyncBehind(t: Store, c: Cache, op: BatchOp, before: Option<Record>, after: Record)
    requires Behind(t, c, op, before, after) && op.SyncItem? && op.faults.findUp
    ensures (Step(t, c, op).store == Step(t, NoCache, op).store && Step(t, c, op).result == Step(t, NoCache, op).result) <==>
            Indifferent(op, before, after)
  {
  }

  lemma OwnershipBehind(t: Store, c: Cache, op: BatchOp, before: Option<Record>, after: Record)
    requires Behind(t, c, op, before, after) && op.OwnershipItem? && op.faults.findUp
    ensures (Step(t, c, op).store == Step(t, NoCache, op).store && Step(t, c, op).result == Step(t, NoCache, op).result) <==>
            Indifferent(op, before, after)
  {
  }

  lemma RejectedBesideNew(s: Store, made: Record, zone: string, d: Desired)
    requires Find(s.records, zone, d.name, d.rtype).None? && HasKey(made, zone, d.name, d.rtype) && Supported(d.rtype)
    ensures Rejected(s.records + [made], zone, d) <==> HostType(d.rtype) || made.content == d.content
  {
    var rs := s.records + [made];
    if HostType(d.rtype) || made.content == d.content {
      assert Clash(rs[|s.records|], zone, d);
    } else {
      forall i | 0 <= i < |rs| ensures !Clash(rs[i], zone, d) {
        if i < |s.records| { assert rs[i] == s.records[i]; }
      }
    }
  }

  lemma BehindAfter(s: Store, c: Cache, op: BatchOp, next: BatchOp)
    requires Sound(s) && Spent(c, [op]) && KeyOf(next) == KeyOf(op) && Writes(s, op)
    ensures Behind(Step(s, c, op).store, Step(s, c, op).cache, next, Found(s, KeyOf(op)), LeftBy(s, op))
  {
    CachedStep(s, c, op);
    ChangesExactly(s, op);
    if Found(s, KeyOf(op)).None? {
      RejectedBesideNew(s, LeftBy(s, op), op.zone, Wants(next));
    }
  }

  /**
   * Two calls on one key, the first with an empty memory of it: the pair leaves the same store and gives
   * the same results with the cache as without, exactly if the second lookup works as the first did and
   * the second call is indifferent to what the first wrote, if it wrote.
   */
  lemma TwoCallsExactly(s: Store, c: Cache, op: BatchOp, next: BatchOp)
    requires Sound(s) && Spent(c, [op]) && KeyOf(next) == KeyOf(op) && op.faults.refindUp && next.faults.refindUp
    ensures Batch(s, c, [op, next]) == Batch(s, NoCache, [op, next]) <==>
            (op.faults.findUp ==>
               next.faults.findUp && (Writes(s, op) ==> Indifferent(next, Found(s, KeyOf(op)), LeftBy(s, op))))
  {
    CachedStep(s, c, op);
    PairIs(s, c, op, next);
    PairIs(s, NoCache, op, next);
    var t := Step(s, c, op);
    if op.faults.findUp && next.faults.findUp {
      if Writes(s, op) {
        BehindAfter(s, c, op, next);
        match next {
          case SyncItem(_, _, _, _, _) => SyncBehind(t.store, t.cache, next, Found(s, KeyOf(op)), LeftBy(s, op));
          case OwnershipItem(_, _, _) => OwnershipBehind(t.store, t.cache, next, Found(s, KeyOf(op)), LeftBy(s, op));
        }
      } else {
        ChangesExactly(s, op);
        assert KeyOf([next][0]) == KeyOf(op);
        CoherentCall(t.store, t.cache, next);
      }
    } else if op.faults.findUp {
      NeverFails(t.store, t.cache, next);
    } else {
      assert KeyOf([next][0]) == KeyOf([op][0]);
      CachedStep(t.store, t.cache, next);
    }
  }

  lemma PairIs(s: Store, c: Cache, op: BatchOp, next: BatchOp)
    ensures var e := Step(s, c, op); var e' := Step(e.store, e.cache, next);
            Batch(s, c, [op, next]) == (e'.store, [e.result, e'.result])
  {
    var e := Step(s, c, op);
    var e' := Step(e.store, e.cache, next);
    BatchFirst(s, c, op, [next]);
    BatchFirst(e.store, e.cache, next, []);
    assert [op] + [next] == [op, next] && [next] + [] == [next];
    assert [e.result] + ([e'.result] + []) == [e.result, e'.result];
  }

  lemma BatchFirst(s: Store, c: Cache, op: BatchOp, rest: seq<BatchOp>)
    ensures var e := Step(s, c, op); var b := Batch(e.store, e.cache, rest);
            Batch(s, c, [op] + rest) == (b.0, [e.result] + b.1)
  {
    assert ([op] + rest)[1..] == rest && ([op] + rest)[0] == op;
  }

  /** A lookup answered from memory does not fail, whatever the server is up to. */
  lemma NeverFails(t: Store, c: Cache, op: BatchOp)
    requires c.Entries? && KeyText(KeyOf(op)) in c.m && !op.faults.findUp
    ensures Step(t, c, op).result != Err(FindFailed) && Step(t, NoCache, op).result == Err(FindFailed)
  {
  }

  // ---------------------------------------------------------------- syncs that end without a record

  /** A host record of another type, which the lookup by name and type does not find but the server clashes with. */
  predicate Rival(r: Record, zone: string, name: string, rtype: string) {
    r.zone == zone && r.name == name && HostType(r.rtype) && HostType(rtype) && r.rtype != rtype
  }

  /** Where no record of the key exists, only a rival makes the server refuse a create. */
  lemma RejectedByRival(s: Store, zone: string, d: Desired)
    requires Find(s.records, zone, d.name, d.rtype).None?
    ensures Rejected(s.records, zone, d) <==> exists i :: 0 <= i < |s.records| && Rival(s.records[i], zone, d.name, d.rtype)
  {
    forall i | 0 <= i < |s.records| ensures Clash(s.records[i], zone, d) <==> Rival(s.records[i], zone, d.name, d.rtype) {
      assert !HasKey(s.records[i], zone, d.name, d.rtype);
    }
  }

  /**
   * When a sync reports neither an error nor a record, with any cache and any failures: its lookup had
   * found nothing, the server refused the create as a duplicate, and the second lookup gave nothing
   * again, be it that the cache answered it or that it went to the server.
   */
  lemma NoRecordExactly(s: Store, c: Cache, zone: string, d: Desired, ownerID: string, mayUpdate: bool, f: Faults)
    ensures var r := SyncEffect(s, c, zone, d, ownerID, mayUpdate, f).result;
            (r.Ok? && r.value.0.None?) <==>
            && Lookup(s, c, zone, d.name, d.rtype, f.findUp).1 == Ok(None)
            && Supported(d.rtype) && f.write == Fine && Rejected(s.records, zone, d)
            && (c.Entries? || f.refindUp)
  {
  }

  /** So without a cache, failures or other callers that happens exactly beside a rival host record. */
  lemma NoRecordBesideRival(s: Store, zone: string, d: Desired, ownerID: string, mayUpdate: bool)
    ensures SyncEffect(s, NoCache, zone, d, ownerID, mayUpdate, NO_FAULTS).result == Ok((None, false)) <==>
            && Supported(d.rtype) && Find(s.records, zone, d.name, d.rtype).None?
            && exists i :: 0 <= i < |s.records| && Rival(s.records[i], zone, d.name, d.rtype)
  {
    if Find(s.records, zone, d.name, d.rtype).None? {
      RejectedByRival(s, zone, d);
    }
  }

  /** A CNAME record wanted where the host has an address record: no record, no error. */
  lemma CNAMEBesideA(zone: string, name: string, content: string, address: string, ownerID: string)
    ensures var s := Store([Record(0, zone, name, "A", address, 1, true, "")], 1, 1);
            SyncEffect(s, NoCache, zone, Desired(name, "CNAME", content, 1, true, ""), ownerID, true, NO_FAULTS) ==
            Effect(s, NoCache, Ok((None, false)))
  {
    var s := Store([Record(0, zone, name, "A", address, 1, true, "")], 1, 1);
    assert Rival(s.records[0], zone, name, "CNAME");
    assert s.records[1..] == [];
    NoRecordBesideRival(s, zone, Desired(name, "CNAME", content, 1, true, ""), ownerID, true);
  }

  /**
   * Recovery from a duplicate error, on whatever the server holds by then: after a lookup that found
   * nothing, the caller gets a record exactly if the service has no cache, the second lookup works and
   * the clash is with a record of the wanted type; a rival or a remembered miss gives neither record
   * nor error.
   */
  lemma DuplicateRecovery(s: Store, c: Cache, zone: string, d: Desired, refindUp: bool)
    requires Supported(d.rtype) && Rejected(s.records, zone, d)
    requires c.Entries? ==> CacheKey(zone, d.name, d.rtype) in c.m && c.m[CacheKey(zone, d.name, d.rtype)] == None
    ensures var r := CreateEffect(s, c, zone, d, Faults(true, Fine, refindUp)).result;
            && (r.Ok? && r.value.0.Some? <==> c == NoCache && refindUp && Find(s.records, zone, d.name, d.rtype).Some?)
            && (r.Ok? && r.value.0.Some? ==> r.value == (Find(s.records, zone, d.name, d.rtype), false))
            && (r.Err? <==> c == NoCache && !refindUp)
  {
  }
}
