/**
 * DNS record synchronisation (internal/cloudflare/dns.go) over a store of records that keeps what it
 * is sent, except that TXT records carry no proxied flag (internal/cloudflare/client_impl.go).
 */
module Dns {
  import opened GoTypes
  import opened Text
  import opened DnsOwnership

  datatype Record = Record(id: nat, zone: string, name: string, rtype: string, content: string, ttl: int, proxied: bool, comment: string)

  /** The fields of a DNSRecord that a caller of the sync functions fills in. */
  datatype Desired = Desired(name: string, rtype: string, content: string, ttl: int, proxied: bool, comment: string)

  datatype DNSPolicy = Sync | UpsertOnly | CreateOnly

  datatype Error = FindFailed | CreateFailed | UpdateFailed | DeleteFailed

  // PolicyChecker
  predicate AllowsUpdate(p: DNSPolicy) { p != CreateOnly }
  predicate AllowsDelete(p: DNSPolicy) { p == Sync }

  /** `writes` counts the creates, updates and deletes that took effect. */
  datatype Store = Store(records: seq<Record>, nextID: nat, writes: nat)

  /** How one API call goes: as it should, lost on the way, or carried out without an answer. */
  datatype Fault = Fine | Lost | Unanswered

  /** The API calls one sync may make: the lookup, the write, and the lookup after a duplicate error. */
  datatype Faults = Faults(findUp: bool, write: Fault, refindUp: bool)

  const NO_FAULTS := Faults(true, Fine, true)

  // ---------------------------------------------------------------- the remote store

  predicate Supported(rtype: string) {
    rtype == "CNAME" || rtype == "TXT" || rtype == "A"
  }

  predicate HostType(rtype: string) {
    rtype == "A" || rtype == "AAAA" || rtype == "CNAME"
  }

  function Kept(id: nat, zone: string, d: Desired): Record {
    Record(id, zone, d.name, d.rtype, d.content, d.ttl, d.rtype != "TXT" && d.proxied, d.comment)
  }

  /** Error 81053 (an A, AAAA or CNAME record already has the host) or 81058 (identical record). */
  predicate Clash(r: Record, zone: string, d: Desired) {
    r.zone == zone && r.name == d.name &&
    ((HostType(r.rtype) && HostType(d.rtype)) || (r.rtype == d.rtype && r.content == d.content))
  }

  predicate Rejected(rs: seq<Record>, zone: string, d: Desired) {
    exists i :: 0 <= i < |rs| && Clash(rs[i], zone, d)
  }

  predicate HasKey(r: Record, zone: string, name: string, rtype: string) {
    r.zone == zone && r.name == name && r.rtype == rtype
  }

  predicate Present(rs: seq<Record>, zone: string, id: nat) {
    exists i :: 0 <= i < |rs| && rs[i].id == id && rs[i].zone == zone
  }

  /** The first record with the key. */
  function Find(rs: seq<Record>, zone: string, name: string, rtype: string): (r: Option<Record>)
    ensures r.Some? ==> r.value in rs && HasKey(r.value, zone, name, rtype) && Present(rs, zone, r.value.id)
    ensures r.None? ==> forall i :: 0 <= i < |rs| ==> !HasKey(rs[i], zone, name, rtype)
  {
    if rs == [] then None
    else if HasKey(rs[0], zone, name, rtype) then Some(rs[0])
    else Find(rs[1..], zone, name, rtype)
  }

  function Rewrite(rs: seq<Record>, zone: string, id: nat, d: Desired): (r: seq<Record>)
    ensures |r| == |rs|
    ensures forall i :: 0 <= i < |rs| ==> r[i] == if rs[i].id == id && rs[i].zone == zone then Kept(id, zone, d) else rs[i]
  {
    seq(|rs|, i requires 0 <= i < |rs| => if rs[i].id == id && rs[i].zone == zone then Kept(id, zone, d) else rs[i])
  }

  function Without(rs: seq<Record>, zone: string, id: nat): seq<Record> {
    if rs == [] then [] else (if rs[0].id == id && rs[0].zone == zone then [] else [rs[0]]) + Without(rs[1..], zone, id)
  }

  function Created(s: Store, zone: string, d: Desired): Store {
    Store(s.records + [Kept(s.nextID, zone, d)], s.nextID + 1, s.writes + 1)
  }

  function Updated(s: Store, zone: string, id: nat, d: Desired): Store {
    Store(Rewrite(s.records, zone, id, d), s.nextID, s.writes + 1)
  }

  datatype CreateResult = Made(record: Record) | Duplicate | Refused

  class DNSAPI {
    var store: Store

    constructor ()
      ensures store == Store([], 0, 0)
    {
      store := Store([], 0, 0);
    }

    method ListByNameType(zone: string, name: string, rtype: string, up: bool) returns (r: Result<seq<Record>, Error>)
      ensures r == if up then Ok(Matching(store.records, zone, name, rtype)) else Err(FindFailed)
    {
      r := if up then Ok(Matching(store.records, zone, name, rtype)) else Err(FindFailed);
    }

    method Create(zone: string, d: Desired, f: Fault) returns (r: CreateResult)
      modifies this
      ensures store == if Supported(d.rtype) && f != Lost && !Rejected(old(store).records, zone, d)
                       then Created(old(store), zone, d) else old(store)
      ensures r == if !Supported(d.rtype) || f == Lost then Refused
                   else if Rejected(old(store).records, zone, d) then (if f == Fine then Duplicate else Refused)
                   else if f == Fine then Made(Kept(old(store).nextID, zone, d)) else Refused
    {
      if !Supported(d.rtype) || f == Lost {
        return Refused;
      }
      if Rejected(store.records, zone, d) {
        return if f == Fine then Duplicate else Refused;
      }
      r := if f == Fine then Made(Kept(store.nextID, zone, d)) else Refused;
      store := Created(store, zone, d);
    }

    method Update(zone: string, id: nat, d: Desired, f: Fault) returns (r: Result<Record, Error>)
      modifies this
      ensures store == if Supported(d.rtype) && f != Lost && Present(old(store).records, zone, id)
                       then Updated(old(store), zone, id, d) else old(store)
      ensures r == if Supported(d.rtype) && f == Fine && Present(old(store).records, zone, id)
                   then Ok(Kept(id, zone, d)) else Err(UpdateFailed)
    {
      if !Supported(d.rtype) || f == Lost || !Present(store.records, zone, id) {
        return Err(UpdateFailed);
      }
      store := Updated(store, zone, id, d);
      r := if f == Fine then Ok(Kept(id, zone, d)) else Err(UpdateFailed);
    }

    method Delete(zone: string, id: nat, f: Fault) returns (r: Option<Error>)
      modifies this
      ensures store == if f != Lost then Deleted(old(store), zone, id) else old(store)
      ensures r == if f == Fine then None else Some(DeleteFailed)
    {
      if f != Lost {
        store := Deleted(store, zone, id);
      }
      r := if f == Fine then None else Some(DeleteFailed);
    }
  }

  /** The records of the zone with that name and type, in the store's order. */
  function Matching(rs: seq<Record>, zone: string, name: string, rtype: string): seq<Record> {
    FilterMap(r => if HasKey(r, zone, name, rtype) then Some(r) else None, rs)
  }

  lemma {:induction false} FirstMatching(rs: seq<Record>, zone: string, name: string, rtype: string)
    ensures Find(rs, zone, name, rtype) ==
            if Matching(rs, zone, name, rtype) == [] then None else Some(Matching(rs, zone, name, rtype)[0])
    ensures forall i :: 0 <= i < |Matching(rs, zone, name, rtype)| ==> HasKey(Matching(rs, zone, name, rtype)[i], zone, name, rtype)
  {
    if rs != [] { FirstMatching(rs[1..], zone, name, rtype); }
  }

  // ---------------------------------------------------------------- the reconcile-local cache

  function CacheKey(zone: string, name: string, rtype: string): string {
    zone + ":" + name + ":" + rtype
  }

  /** Keys are told apart as long as zone IDs and types contain no colon; names may. */
  lemma CacheKeyInjective(zone: string, name: string, rtype: string, zone': string, name': string, rtype': string)
    requires Free(zone, ':') && Free(zone', ':') && Free(rtype, ':') && Free(rtype', ':')
    requires CacheKey(zone, name, rtype) == CacheKey(zone', name', rtype')
    ensures zone == zone' && name == name' && rtype == rtype'
  {
    assert CacheKey(zone, name, rtype) == zone + [':'] + (name + [':'] + rtype);
    assert CacheKey(zone', name', rtype') == zone' + [':'] + (name' + [':'] + rtype');
    JoinInjective(zone, zone', ':', name + [':'] + rtype, name' + [':'] + rtype');
    JoinInjectiveLast(name, name', ':', rtype, rtype');
  }

  class DNSRecordCache {
    var entries: map<string, Option<Record>>

    constructor ()
      ensures entries == map[]
    {
      entries := map[];
    }

    /** A record of None in an entry means an earlier lookup found nothing. */
    method Get(zone: string, name: string, rtype: string) returns (r: Option<Option<Record>>)
      ensures r == if CacheKey(zone, name, rtype) in entries then Some(entries[CacheKey(zone, name, rtype)]) else None
    {
      var key := CacheKey(zone, name, rtype);
      r := if key in entries then Some(entries[key]) else None;
    }

    method Set(zone: string, name: string, rtype: string, record: Option<Record>)
      modifies this
      ensures entries == old(entries)[CacheKey(zone, name, rtype) := record]
    {
      entries := entries[CacheKey(zone, name, rtype) := record];
    }
  }

  /** A service without a cache, or the contents of its cache. */
  datatype Cache = NoCache | Entries(m: map<string, Option<Record>>)

  ghost function Contents(c: DNSRecordCache?): Cache
    reads c
  {
    if c == null then NoCache else Entries(c.entries)
  }

  // ---------------------------------------------------------------- one call, as a function of its surroundings

  type SyncResult = Result<(Option<Record>, bool), Error>

  /** FindRecordByName: a cache hit never asks the server, and a miss is remembered even if it is nil. */
  function Lookup(s: Store, c: Cache, zone: string, name: string, rtype: string, up: bool): (Cache, Result<Option<Record>, Error>) {
    var key := CacheKey(zone, name, rtype);
    if c.Entries? && key in c.m then (c, Ok(c.m[key]))
    else if !up then (c, Err(FindFailed))
    else
      var found := Find(s.records, zone, name, rtype);
      (if c.Entries? then Entries(c.m[key := found]) else NoCache, Ok(found))
  }

  predicate Owned(r: Record, ownerID: string) {
    OwnedText(r.content, r.comment, ownerID)
  }

  predicate RecordsMatch(r: Record, d: Desired) {
    r.content == d.content && r.proxied == d.proxied && r.ttl == d.ttl && r.comment == d.comment
  }

  datatype Effect = Effect(store: Store, cache: Cache, result: SyncResult)

  /** Creating a record that the lookup did not find, with recovery from a duplicate error. */
  function CreateEffect(s: Store, c: Cache, zone: string, d: Desired, f: Faults): Effect {
    if !Supported(d.rtype) || f.write == Lost then Effect(s, c, Err(CreateFailed))
    else if Rejected(s.records, zone, d) then
      if f.write != Fine then Effect(s, c, Err(CreateFailed))
      else
        var (c', found) := Lookup(s, c, zone, d.name, d.rtype, f.refindUp);
        Effect(s, c', if found.Ok? then Ok((found.value, false)) else Err(found.error))
    else
      Effect(Created(s, zone, d), c,
             if f.write == Fine then Ok((Some(Kept(s.nextID, zone, d)), true)) else Err(CreateFailed))
  }

  /** Updating a record that is gone is an error. */
  function UpdateEffect(s: Store, c: Cache, zone: string, id: nat, d: Desired, f: Faults): Effect {
    if !Supported(d.rtype) || f.write == Lost || !Present(s.records, zone, id) then Effect(s, c, Err(UpdateFailed))
    else Effect(Updated(s, zone, id, d), c, if f.write == Fine then Ok((Some(Kept(id, zone, d)), true)) else Err(UpdateFailed))
  }

  /** SyncRecordWithPolicy; SyncRecord is the same with updates allowed. */
  function SyncEffect(s: Store, c: Cache, zone: string, d: Desired, ownerID: string, mayUpdate: bool, f: Faults): Effect {
    var (c1, found) := Lookup(s, c, zone, d.name, d.rtype, f.findUp);
    if found.Err? then Effect(s, c1, Err(found.error))
    else if found.value.None? then CreateEffect(s, c1, zone, d, f)
    else
      var existing := found.value.value;
      if !Owned(existing, ownerID) || RecordsMatch(existing, d) || !mayUpdate then Effect(s, c1, Ok((Some(existing), false)))
      else UpdateEffect(s, c1, zone, existing.id, d, f)
  }

  datatype OwnershipParams = OwnershipParams(hostname: string, ownerID: string, resource: string, prefix: string)

  function OwnershipRecord(p: OwnershipParams): Desired {
    Desired(p.prefix + "." + p.hostname, "TXT", OwnershipText(p.ownerID, p.resource), 1, false, "cfgate ownership record")
  }

  /** CreateOwnershipRecord: an existing TXT record is overwritten whoever owns it. */
  function OwnershipEffect(s: Store, c: Cache, zone: string, p: OwnershipParams, f: Faults): Effect {
    var d := OwnershipRecord(p);
    var (c1, found) := Lookup(s, c, zone, d.name, d.rtype, f.findUp);
    if found.Err? then Effect(s, c1, Err(found.error))
    else if found.value.Some? then
      var existing := found.value.value;
      if existing.content == d.content && existing.comment == d.comment then Effect(s, c1, Ok((None, false)))
      else
        var e := UpdateEffect(s, c1, zone, existing.id, d, f);
        e.(result := if e.result.Ok? then Ok((None, true)) else e.result)
    else if f.write == Lost then Effect(s, c1, Err(CreateFailed))
    else if Rejected(s.records, zone, d) then Effect(s, c1, if f.write == Fine then Ok((None, false)) else Err(CreateFailed))
    else Effect(Created(s, zone, d), c1, if f.write == Fine then Ok((None, true)) else Err(CreateFailed))
  }

  function Deleted(s: Store, zone: string, id: nat): Store {
    Store(Without(s.records, zone, id), s.nextID, s.writes + 1)
  }

  /** DeleteRecordWithPolicy: a no-op unless the policy allows deleting; a missing record is fine. */
  function DeleteEffect(s: Store, zone: string, id: nat, policy: DNSPolicy, f: Fault): (Store, Option<Error>) {
    if !AllowsDelete(policy) then (s, None)
    else if f == Lost then (s, Some(DeleteFailed))
    else (Deleted(s, zone, id), if f == Fine then None else Some(DeleteFailed))
  }

  // ---------------------------------------------------------------- DNSService

  class DNSService {
    const api: DNSAPI
    const cache: DNSRecordCache?

    constructor (api: DNSAPI, cache: DNSRecordCache?)
      ensures this.api == api && this.cache == cache
    {
      this.api, this.cache := api, cache;
    }

    method FindRecordByName(zone: string, name: string, rtype: string, up: bool) returns (r: Result<Option<Record>, Error>)
      modifies cache
      ensures api.store == old(api.store)
      ensures (Contents(cache), r) == Lookup(api.store, old(Contents(cache)), zone, name, rtype, up)
    {
      if cache != null {
        var cached := cache.Get(zone, name, rtype);
        if cached.Some? {
          return Ok(cached.value);
        }
      }
      var listed := api.ListByNameType(zone, name, rtype, up);
      if listed.Err? {
        return Err(listed.error);
      }
      var records := listed.value;
      FirstMatching(api.store.records, zone, name, rtype);
      var result: Option<Record> := None;
      for i := 0 to |records|
        invariant result == None && i == 0
      {
        if records[i].name == name && records[i].rtype == rtype {
          result := Some(records[i]);
          break;
        }
      }
      if cache != null {
        cache.Set(zone, name, rtype, result);
      }
      r := Ok(result);
    }

    method SyncRecord(zone: string, desired: Desired, ownerID: string, f: Faults)
      returns (r: SyncResult)
      modifies api, cache
      ensures Effect(api.store, Contents(cache), r) == SyncEffect(old(api.store), old(Contents(cache)), zone, desired, ownerID, true, f)
    {
      var existing := FindRecordByName(zone, desired.name, desired.rtype, f.findUp);
      if existing.Err? {
        return Err(existing.error);
      }
      if existing.value.None? {
        var made := api.Create(zone, desired, f.write);
        match made {
          case Duplicate =>
            var found := FindRecordByName(zone, desired.name, desired.rtype, f.refindUp);
            return if found.Ok? then Ok((found.value, false)) else Err(found.error);
          case Refused => return Err(CreateFailed);
          case Made(record) => return Ok((Some(record), true));
        }
      }
      var record := existing.value.value;
      if !Owned(record, ownerID) {
        return Ok((Some(record), false));
      }
      if RecordsMatch(record, desired) {
        return Ok((Some(record), false));
      }
      var updated := api.Update(zone, record.id, desired, f.write);
      r := if updated.Ok? then Ok((Some(updated.value), true)) else Err(updated.error);
    }

    method SyncRecordWithPolicy(zone: string, desired: Desired, ownerID: string, policy: DNSPolicy, f: Faults)
      returns (r: SyncResult)
      modifies api, cache
      ensures Effect(api.store, Contents(cache), r) ==
              SyncEffect(old(api.store), old(Contents(cache)), zone, desired, ownerID, AllowsUpdate(policy), f)
    {
      var existing := FindRecordByName(zone, desired.name, desired.rtype, f.findUp);
      if existing.Err? {
        return Err(existing.error);
      }
      if existing.value.None? {
        r := CreateRecord(zone, desired, f);
        return r;
      }
      var record := existing.value.value;
      if !Owned(record, ownerID) {
        return Ok((Some(record), false));
      }
      if RecordsMatch(record, desired) {
        return Ok((Some(record), false));
      }
      if !AllowsUpdate(policy) {
        return Ok((Some(record), false));
      }
      var updated := api.Update(zone, record.id, desired, f.write);
      r := if updated.Ok? then Ok((Some(updated.value), true)) else Err(updated.error);
    }

    method CreateRecord(zone: string, desired: Desired, f: Faults) returns (r: SyncResult)
      modifies api, cache
      ensures Effect(api.store, Contents(cache), r) == CreateEffect(old(api.store), old(Contents(cache)), zone, desired, f)
    {
      var made := api.Create(zone, desired, f.write);
      match made {
        case Duplicate =>
          var found := FindRecordByName(zone, desired.name, desired.rtype, f.refindUp);
          r := if found.Ok? then Ok((found.value, false)) else Err(found.error);
        case Refused => r := Err(CreateFailed);
        case Made(record) => r := Ok((Some(record), true));
      }
    }

    /** Returns without a record, and true if it wrote one. */
    method CreateOwnershipRecord(zone: string, params: OwnershipParams, f: Faults) returns (r: SyncResult)
      modifies api, cache
      ensures Effect(api.store, Contents(cache), r) == OwnershipEffect(old(api.store), old(Contents(cache)), zone, params, f)
    {
      var record := OwnershipRecord(params);
      var existing := FindRecordByName(zone, record.name, record.rtype, f.findUp);
      if existing.Err? {
        return Err(existing.error);
      }
      if existing.value.Some? {
        var found := existing.value.value;
        if found.content == record.content && found.comment == record.comment {
          return Ok((None, false));
        }
        var updated := api.Update(zone, found.id, record, f.write);
        return if updated.Ok? then Ok((None, true)) else Err(updated.error);
      }
      var made := api.Create(zone, record, f.write);
      match made {
        case Duplicate => r := Ok((None, false));
        case Refused => r := Err(CreateFailed);
        case Made(_) => r := Ok((None, true));
      }
    }

    method DeleteRecordWithPolicy(zone: string, id: nat, policy: DNSPolicy, f: Fault) returns (r: Option<Error>)
      modifies api
      ensures (api.store, r) == DeleteEffect(old(api.store), zone, id, policy, f)
    {
      if !AllowsDelete(policy) {
        return None;
      }
      r := api.Delete(zone, id, f);
    }
  }
}
