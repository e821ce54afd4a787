/**
 * What single DNS calls do, told from the records' own fields and texts: the rules of
 * internal/cloudflare/dns.go for records that are there, missing, foreign or in the way.
 */
module DnsOutcomes {
  import opened GoTypes
  import opened Text
  import opened DnsOwnership
  import opened Dns
  import opened DnsRuns

  /** An ownership text names its owner; any other record is cfgate's if its comment says so. */
  ghost predicate Mine(r: Record, ownerID: string) {
    if "heritage=cfgate" <= r.content then ownerID == "" || StandsIn(r.content, "cfgate/owner=" + ownerID)
    else StandsIn(r.comment, "managed by cfgate")
  }

  /** IsOwnedByCfgate, on the text itself. */
  lemma OwnedByText(r: Record, ownerID: string)
    ensures Owned(r, ownerID) <==> Mine(r, ownerID)
  {
    ContainsExactly(r.content, "cfgate/owner=" + ownerID);
    ContainsExactly(r.comment, "managed by cfgate");
  }

  predicate Keyed(r: Record, zone: string, name: string, rtype: string) {
    r.zone == zone && r.name == name && r.rtype == rtype
  }

  /** The k-th record is the first of the wanted zone, name and type. */
  predicate FirstKeyed(s: Store, zone: string, d: Desired, k: nat) {
    && k < |s.records| && Keyed(s.records[k], zone, d.name, d.rtype)
    && forall j :: 0 <= j < k ==> !Keyed(s.records[j], zone, d.name, d.rtype)
  }

  predicate NoneKeyed(s: Store, zone: string, d: Desired) {
    forall j :: 0 <= j < |s.records| ==> !Keyed(s.records[j], zone, d.name, d.rtype)
  }

  lemma {:induction false} FirstFound(rs: seq<Record>, zone: string, name: string, rtype: string, k: nat)
    requires k < |rs| && Keyed(rs[k], zone, name, rtype) && forall j :: 0 <= j < k ==> !Keyed(rs[j], zone, name, rtype)
    ensures Find(rs, zone, name, rtype) == Some(rs[k])
  {
    if k > 0 {
      assert !Keyed(rs[0], zone, name, rtype);
      assert forall j :: 0 <= j < k - 1 ==> rs[1..][j] == rs[j + 1];
      FirstFound(rs[1..], zone, name, rtype, k - 1);
    }
  }

  /** What the server keeps of a wanted record: everything, but TXT records are never proxied. */
  predicate Holds(r: Record, id: nat, zone: string, d: Desired) {
    && r.id == id && r.zone == zone && r.name == d.name && r.rtype == d.rtype
    && r.content == d.content && r.ttl == d.ttl && r.comment == d.comment && r.proxied == (d.proxied && d.rtype != "TXT")
  }

  predicate SameData(r: Record, d: Desired) {
    r.content == d.content && r.proxied == d.proxied && r.ttl == d.ttl && r.comment == d.comment
  }

  /** `b` is `a` with the k-th record replaced by the wanted one under its ID. */
  predicate ReplacedAt(a: seq<Record>, b: seq<Record>, k: nat, zone: string, d: Desired) {
    && k < |a| == |b| && Holds(b[k], a[k].id, zone, d)
    && forall j :: 0 <= j < |a| && j != k ==> b[j] == a[j]
  }

  lemma RewrittenAt(s: Store, zone: string, d: Desired, k: nat)
    requires Sound(s) && k < |s.records| && Keyed(s.records[k], zone, d.name, d.rtype)
    ensures ReplacedAt(s.records, Rewrite(s.records, zone, s.records[k].id, d), k, zone, d)
    ensures Rewrite(s.records, zone, s.records[k].id, d)[k] == Kept(s.records[k].id, zone, d)
  {
  }

  predicate Writable(rtype: string) {
    rtype == "A" || rtype == "CNAME" || rtype == "TXT"
  }

  /**
   * Syncing a record that is there, with no policy (SyncRecord) or under one: a record that is not cfgate's
   * for this owner, or is as wanted, or may only be created, is left alone and returned; any other is
   * replaced in place.
   */
  lemma SyncOfPresent(s: Store, zone: string, d: Desired, ownerID: string, lifecycle: Option<DNSPolicy>, k: nat)
    requires Sound(s) && FirstKeyed(s, zone, d, k) && Writable(d.rtype)
    ensures var e := Do(State(s, NoCache), SyncOp(zone, d, ownerID, lifecycle, NO_FAULTS)).store;
            var r := SyncEffect(s, NoCache, zone, d, ownerID, MayUpdate(SyncOp(zone, d, ownerID, lifecycle, NO_FAULTS)), NO_FAULTS).result;
            if !Mine(s.records[k], ownerID) || SameData(s.records[k], d) || lifecycle == Some(CreateOnly)
            then e == s && r == Ok((Some(s.records[k]), false))
            else ReplacedAt(s.records, e.records, k, zone, d) && r == Ok((Some(e.records[k]), true))
  {
    FirstFound(s.records, zone, d.name, d.rtype, k);
    OwnedByText(s.records[k], ownerID);
    RewrittenAt(s, zone, d, k);
  }

  predicate HostKind(rtype: string) {
    rtype == "A" || rtype == "AAAA" || rtype == "CNAME"
  }

  /**
   * Syncing a record that is missing, with or without a policy: it is appended under a new ID unless the
   * host has a record of another host type.
   */
  lemma SyncOfMissing(s: Store, zone: string, d: Desired, ownerID: string, lifecycle: Option<DNSPolicy>)
    requires Sound(s) && NoneKeyed(s, zone, d) && Writable(d.rtype)
    ensures var e := Do(State(s, NoCache), SyncOp(zone, d, ownerID, lifecycle, NO_FAULTS)).store;
            var r := SyncEffect(s, NoCache, zone, d, ownerID, MayUpdate(SyncOp(zone, d, ownerID, lifecycle, NO_FAULTS)), NO_FAULTS).result;
            if HostKind(d.rtype) && exists j :: 0 <= j < |s.records| && s.records[j].zone == zone && s.records[j].name == d.name && HostKind(s.records[j].rtype)
            then e == s && r == Ok((None, false))
            else && |e.records| == |s.records| + 1 && e.records[..|s.records|] == s.records
                 && Holds(e.records[|s.records|], s.nextID, zone, d) && r == Ok((Some(e.records[|s.records|]), true))
  {
    NoneFound(s.records, zone, d);
    RejectedByRival(s, zone, d);
    forall j | 0 <= j < |s.records|
      ensures Rival(s.records[j], zone, d.name, d.rtype) <==>
              HostKind(d.rtype) && s.records[j].zone == zone && s.records[j].name == d.name && HostKind(s.records[j].rtype)
    {
      assert !Keyed(s.records[j], zone, d.name, d.rtype);
    }
    assert Created(s, zone, d).records[..|s.records|] == s.records;
  }

  /**
   * When an uncached sync reports an error: its lookup failed, or the write it needed was not confirmed, or
   * the lookup after a duplicate error failed.
   */
  lemma SyncErrsExactly(s: Store, zone: string, d: Desired, ownerID: string, lifecycle: Option<DNSPolicy>, f: Faults)
    requires Sound(s) && Writable(d.rtype)
    ensures var r := SyncEffect(s, NoCache, zone, d, ownerID, MayUpdate(SyncOp(zone, d, ownerID, lifecycle, f)), f).result;
            && (forall k: nat :: FirstKeyed(s, zone, d, k) ==>
                  (r.Err? <==> !f.findUp || (Mine(s.records[k], ownerID) && !SameData(s.records[k], d) && lifecycle != Some(CreateOnly) && f.write != Fine)))
            && (NoneKeyed(s, zone, d) ==>
                  (r.Err? <==> !f.findUp || f.write != Fine || (Rejected(s.records, zone, d) && !f.refindUp)))
  {
    forall k: nat | FirstKeyed(s, zone, d, k)
      ensures Find(s.records, zone, d.name, d.rtype) == Some(s.records[k]) && (Owned(s.records[k], ownerID) <==> Mine(s.records[k], ownerID))
    {
      FirstFound(s.records, zone, d.name, d.rtype, k);
      OwnedByText(s.records[k], ownerID);
    }
    if NoneKeyed(s, zone, d) {
      NoneFound(s.records, zone, d);
    }
  }

  /** The record CreateOwnershipRecord wants. */
  lemma OwnershipWants(p: OwnershipParams)
    ensures OwnershipRecord(p) ==
            Desired(p.prefix + "." + p.hostname, "TXT", "heritage=cfgate,cfgate/owner=" + p.ownerID + ",cfgate/resource=" + p.resource,
                    1, false, "cfgate ownership record")
  {
  }

  /** It replaces the first TXT record of the prefixed host if its text or comment differ, whoever owns it, and appends a missing one. */
  lemma OwnershipOutcome(s: Store, zone: string, p: OwnershipParams, d: Desired)
    requires Sound(s)
    requires d == Desired(p.prefix + "." + p.hostname, "TXT", "heritage=cfgate,cfgate/owner=" + p.ownerID + ",cfgate/resource=" + p.resource,
                          1, false, "cfgate ownership record")
    ensures forall k: nat :: FirstKeyed(s, zone, d, k) ==>
              var e := OwnershipEffect(s, NoCache, zone, p, NO_FAULTS);
              if s.records[k].content == d.content && s.records[k].comment == d.comment then e.store == s && e.result == Ok((None, false))
              else ReplacedAt(s.records, e.store.records, k, zone, d) && e.result == Ok((None, true))
    ensures NoneKeyed(s, zone, d) ==>
              var e := OwnershipEffect(s, NoCache, zone, p, NO_FAULTS);
              && |e.store.records| == |s.records| + 1 && e.store.records[..|s.records|] == s.records
              && Holds(e.store.records[|s.records|], s.nextID, zone, d) && e.result == Ok((None, true))
  {
    OwnershipWants(p);
    forall k: nat | FirstKeyed(s, zone, d, k)
      ensures var e := OwnershipEffect(s, NoCache, zone, p, NO_FAULTS);
              if s.records[k].content == d.content && s.records[k].comment == d.comment then e.store == s && e.result == Ok((None, false))
              else ReplacedAt(s.records, e.store.records, k, zone, d) && e.result == Ok((None, true))
    {
      FirstFound(s.records, zone, d.name, d.rtype, k);
      RewrittenAt(s, zone, d, k);
    }
    if NoneKeyed(s, zone, d) {
      NoneFound(s.records, zone, d);
      NeverRejected(s, zone, p);
      assert Created(s, zone, d).records[..|s.records|] == s.records;
    }
  }

  lemma {:induction false} NoneFound(rs: seq<Record>, zone: string, d: Desired)
    requires forall j :: 0 <= j < |rs| ==> !Keyed(rs[j], zone, d.name, d.rtype)
    ensures Find(rs, zone, d.name, d.rtype) == None
  {
    if rs != [] {
      assert !Keyed(rs[0], zone, d.name, d.rtype);
      forall j | 0 <= j < |rs[1..]| ensures !Keyed(rs[1..][j], zone, d.name, d.rtype) { assert rs[1..][j] == rs[j + 1]; }
      NoneFound(rs[1..], zone, d);
    }
  }

  /** A delete takes effect under sync only; under the other policies it succeeds without doing anything. */
  lemma DeleteOutcome(s: Store, zone: string, id: nat, policy: DNSPolicy, f: Fault)
    requires Sound(s)
    ensures var (after, error) := DeleteEffect(s, zone, id, policy, f);
            if policy == UpsertOnly || policy == CreateOnly then after == s && error == None
            else
              && (error == None <==> f == Fine)
              && (f == Lost ==> after == s)
              && (f != Lost ==> forall r :: r in after.records <==> r in s.records && !(r.id == id && r.zone == zone))
  {
    WithoutKeeps(s.records, zone, id);
  }
}
