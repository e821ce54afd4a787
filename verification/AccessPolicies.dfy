/**
 * Synchronisation of access policies with Cloudflare (internal/cloudflare/access.go), over a store
 * that keeps the wire form of each policy in creation order under IDs it never reuses.
 */
module AccessPolicies {
  import opened GoTypes
  import opened AccessRules

  datatype ApprovalGroup = ApprovalGroup(emails: seq<string>, emailListUUID: string, approvalsNeeded: int)

  /** CreatePolicyParams; also the content of an AccessPolicy as the client returns it. */
  datatype Params = Params(
    name: Name,
    decision: string,
    precedence: int,
    includeRules: Slice<RuleParam>,
    excludeRules: Slice<RuleParam>,
    requireRules: Slice<RuleParam>,
    sessionDuration: string,
    justificationRequired: bool,
    justificationPrompt: string,
    approvalRequired: bool,
    approvalGroups: Slice<ApprovalGroup>)

  /** What the server stores: no approval groups, rules in wire form. */
  datatype Wire = Wire(
    name: Name,
    decision: string,
    precedence: int,
    includeRules: seq<Condition>,
    excludeRules: seq<Condition>,
    requireRules: seq<Condition>,
    sessionDuration: string,
    justificationRequired: bool,
    justificationPrompt: string,
    approvalRequired: bool)

  datatype Stored = Stored(id: nat, wire: Wire)

  datatype AccessPolicy = AccessPolicy(id: nat, params: Params)

  /** The request body of CreateAccessPolicy and UpdateAccessPolicy. */
  function ToWire(p: Params): Wire {
    Wire(p.name, p.decision, p.precedence, SendAll(p.includeRules.Items()), SendAll(p.excludeRules.Items()),
         SendAll(p.requireRules.Items()), p.sessionDuration, p.justificationRequired, p.justificationPrompt,
         p.approvalRequired)
  }

  /** policyFromListResponse: approval groups are never read back. */
  function FromWire(w: Wire): Params {
    Params(w.name, w.decision, w.precedence, ReadSlice(w.includeRules), ReadSlice(w.excludeRules), ReadSlice(w.requireRules),
           w.sessionDuration, w.justificationRequired, w.justificationPrompt, w.approvalRequired, Nil)
  }

  function View(s: Stored): AccessPolicy {
    AccessPolicy(s.id, FromWire(s.wire))
  }

  function Listing(ps: seq<Stored>): (vs: seq<AccessPolicy>)
    ensures |vs| == |ps| && forall i :: 0 <= i < |ps| ==> vs[i] == View(ps[i])
  {
    seq(|ps|, i requires 0 <= i < |ps| => View(ps[i]))
  }

  /** Params that a write leaves behind exactly as wanted. */
  predicate Readable(p: Params) {
    p.approvalGroups.Nil? && Settles(p.includeRules) && Settles(p.excludeRules) && Settles(p.requireRules)
  }

  /** The "no update needed" test succeeds right after a write exactly for readable params. */
  lemma ReadBackExact(p: Params)
    ensures FromWire(ToWire(p)) == p <==> Readable(p)
  {
    EchoExact(p.includeRules);
    EchoExact(p.excludeRules);
    EchoExact(p.requireRules);
  }

  /** accessPolicyEqual, field by field. */
  predicate PolicyEqual(existing: AccessPolicy, desired: Params)
    ensures PolicyEqual(existing, desired) <==> existing.params == desired
  {
    var e := existing.params;
    && e.name == desired.name
    && e.decision == desired.decision
    && e.precedence == desired.precedence
    && e.sessionDuration == desired.sessionDuration
    && e.justificationRequired == desired.justificationRequired
    && e.justificationPrompt == desired.justificationPrompt
    && e.approvalRequired == desired.approvalRequired
    && e.includeRules == desired.includeRules
    && e.excludeRules == desired.excludeRules
    && e.requireRules == desired.requireRules
    && e.approvalGroups == desired.approvalGroups
  }

  // ---------------------------------------------------------------- the remote store

  ghost predicate UniqueIDs(ps: seq<Stored>) {
    forall i, j :: 0 <= i < j < |ps| ==> ps[i].id != ps[j].id
  }

  function Without(ps: seq<Stored>, id: nat): seq<Stored> {
    if ps == [] then [] else (if ps[0].id == id then [] else [ps[0]]) + Without(ps[1..], id)
  }

  function Replacing(ps: seq<Stored>, id: nat, w: Wire): (r: seq<Stored>)
    ensures |r| == |ps|
  {
    if ps == [] then [] else [if ps[0].id == id then Stored(id, w) else ps[0]] + Replacing(ps[1..], id, w)
  }

  datatype Error = APIError

  /**
   * The policies of one application. Any call may fail; a failed write may or may not have reached
   * the server. `writes` counts the writes that did, `faults` the calls that failed.
   */
  class PolicyAPI {
    var policies: seq<Stored>
    var nextID: nat
    ghost var writes: nat
    ghost var faults: nat

    ghost predicate Valid()
      reads this
    {
      UniqueIDs(policies) && forall i :: 0 <= i < |policies| ==> policies[i].id < nextID
    }

    constructor ()
      ensures Valid() && policies == [] && writes == 0
    {
      policies, nextID, writes, faults := [], 0, 0, 0;
    }

    method List() returns (r: Result<seq<AccessPolicy>, Error>)
      modifies this`faults
      ensures r.Ok? ==> r.value == Listing(policies)
      ensures faults == old(faults) + (if r.Ok? then 0 else 1)
    {
      var up: bool := *;
      faults := faults + (if up then 0 else 1);
      r := if up then Ok(Listing(policies)) else Err(APIError);
    }

    method Delete(id: nat) returns (ok: bool, ghost applied: bool)
      modifies this
      ensures ok ==> applied
      ensures policies == if applied then Without(old(policies), id) else old(policies)
      ensures writes == old(writes) + (if applied then 1 else 0) && nextID == old(nextID)
      ensures faults == old(faults) + (if ok then 0 else 1)
    {
      var reached, answered: bool := *, *;
      faults := faults + (if reached && answered then 0 else 1);
      if reached {
        policies, writes := Without(policies, id), writes + 1;
      }
      ok, applied := reached && answered, reached;
    }

    method Update(id: nat, params: Params) returns (r: Result<AccessPolicy, Error>, ghost applied: bool)
      modifies this
      ensures r.Ok? ==> applied && r.value.id == id
      ensures policies == if applied then Replacing(old(policies), id, ToWire(params)) else old(policies)
      ensures writes == old(writes) + (if applied then 1 else 0) && nextID == old(nextID)
      ensures faults == old(faults) + (if r.Ok? then 0 else 1)
    {
      var reached, answered: bool := *, *;
      faults := faults + (if reached && answered then 0 else 1);
      if reached {
        policies, writes := Replacing(policies, id, ToWire(params)), writes + 1;
      }
      r := if reached && answered then Ok(AccessPolicy(id, FromWire(ToWire(params)))) else Err(APIError);
      applied := reached;
    }

    method Create(params: Params) returns (r: Result<AccessPolicy, Error>, ghost applied: bool)
      modifies this
      ensures r.Ok? ==> applied && r.value.id == old(nextID)
      ensures policies == if applied then old(policies) + [Stored(old(nextID), ToWire(params))] else old(policies)
      ensures writes == old(writes) + (if applied then 1 else 0)
      ensures nextID == old(nextID) + (if applied then 1 else 0)
      ensures faults == old(faults) + (if r.Ok? then 0 else 1)
    {
      var reached, answered: bool := *, *;
      faults := faults + (if reached && answered then 0 else 1);
      var id := nextID;
      if reached {
        policies, nextID, writes := policies + [Stored(id, ToWire(params))], nextID + 1, writes + 1;
      }
      r := if reached && answered then Ok(AccessPolicy(id, FromWire(ToWire(params)))) else Err(APIError);
      applied := reached;
    }
  }

  // ---------------------------------------------------------------- what a run is meant to do

  /** The last copy of a name. */
  function Last(ps: seq<Stored>, n: Name): (r: Option<Stored>)
    ensures r.Some? ==> r.value.wire.name == n
  {
    if ps == [] then None
    else
      var rest := Last(ps[1..], n);
      if rest.Some? then rest else if ps[0].wire.name == n then Some(ps[0]) else None
  }

  lemma {:induction false} LastIn(ps: seq<Stored>, n: Name)
    ensures Last(ps, n).Some? ==> Last(ps, n).value in ps
    ensures Last(ps, n).None? ==> forall i :: 0 <= i < |ps| ==> ps[i].wire.name != n
  {
    if ps != [] { LastIn(ps[1..], n); }
  }

  /** existingByName: the last copy of each name. */
  function Latest(ps: seq<Stored>): map<Name, Stored> {
    if ps == [] then map[] else map[ps[0].wire.name := ps[0]] + Latest(ps[1..])
  }

  lemma {:induction false} LatestIsLast(ps: seq<Stored>)
    ensures forall n :: n in Latest(ps) <==> Last(ps, n).Some?
    ensures forall n :: n in Latest(ps) ==> Some(Latest(ps)[n]) == Last(ps, n)
  {
    if ps != [] { LatestIsLast(ps[1..]); }
  }

  /** The last params of each name. */
  function Wanted(ds: seq<Params>): (m: map<Name, Params>)
    ensures forall n :: n in m ==> m[n].name == n
    ensures forall i :: 0 <= i < |ds| ==> ds[i].name in m
  {
    if ds == [] then map[] else Wanted(ds[..|ds| - 1])[ds[|ds| - 1].name := ds[|ds| - 1]]
  }

  function Count(ps: seq<Stored>, n: Name): nat {
    if ps == [] then 0 else (if ps[0].wire.name == n then 1 else 0) + Count(ps[1..], n)
  }

  ghost predicate DistinctNames(ps: seq<Stored>) {
    forall i, j :: 0 <= i < j < |ps| ==> ps[i].wire.name != ps[j].wire.name
  }

  /** The name needs a write: undesired, missing, or not reading back as desired. */
  predicate NeedsWrite(L: map<Name, Stored>, D: map<Name, Params>, n: Name) {
    if n in L then n !in D || FromWire(L[n].wire) != D[n] else n in D
  }

  /** Undesired, missing and mismatched names together: the distance from the desired state. */
  function Planned(L: map<Name, Stored>, D: map<Name, Params>): set<Name> {
    set n | n in L.Keys + D.Keys && NeedsWrite(L, D, n)
  }

  lemma PlannedIs(L: map<Name, Stored>, D: map<Name, Params>, done: set<Name>)
    requires forall n :: n in done <==> NeedsWrite(L, D, n)
    ensures done == Planned(L, D)
  {
  }

  /** One policy of the list after the writes for the names in `done`, which touch only last copies `L`. */
  function Edit(p: Stored, L: map<Name, Stored>, D: map<Name, Params>, done: set<Name>): (r: seq<Stored>)
    ensures |r| <= 1 && (|r| == 1 ==> r[0].id == p.id)
  {
    var n := p.wire.name;
    if n in done && n in L && L[n].id == p.id
    then (if n in D then [Stored(p.id, ToWire(D[n]))] else [])
    else [p]
  }

  function Edited(s: seq<Stored>, L: map<Name, Stored>, D: map<Name, Params>, done: set<Name>): seq<Stored> {
    if s == [] then [] else Edit(s[0], L, D, done) + Edited(s[1..], L, D, done)
  }

  /**
   * `created` holds one new policy for every name in `names`, as desired, under increasing IDs from
   * `lo` up to but not including `hi`.
   */
  ghost predicate CreatedFor(created: seq<Stored>, names: set<Name>, D: map<Name, Params>, lo: nat, hi: nat) {
    if created == [] then names == {} && lo <= hi
    else
      var p := created[|created| - 1];
      && p.wire.name in names && p.wire.name in D && p.wire == ToWire(D[p.wire.name]) && p.id < hi
      && CreatedFor(created[..|created| - 1], names - {p.wire.name}, D, lo, p.id)
  }

  /** `s` after the writes for the names in `done`: last copies `L` edited in place, then `created`. */
  ghost predicate Written(s: seq<Stored>, L: map<Name, Stored>, D: map<Name, Params>, done: set<Name>, lo: nat, hi: nat,
                          created: seq<Stored>, after: seq<Stored>)
  {
    && (forall n :: n in done ==> NeedsWrite(L, D, n))
    && CreatedFor(created, done - L.Keys, D, lo, hi)
    && after == Edited(s, L, D, done) + created
  }

  /**
   * A run that got the writes for the names in `done` through: last copies deleted or replaced in
   * place, then the missing names appended in some order under fresh IDs.
   */
  ghost predicate Applied(before: seq<Stored>, D: map<Name, Params>, done: set<Name>, lo: nat, hi: nat,
                          created: seq<Stored>, after: seq<Stored>)
  {
    Written(before, Latest(before), D, done, lo, hi, created, after)
  }

  // ---------------------------------------------------------------- lists under edits

  lemma {:induction false} CountLast(ps: seq<Stored>, n: Name)
    ensures Last(ps, n).Some? <==> Count(ps, n) > 0
  {
    if ps != [] { CountLast(ps[1..], n); }
  }

  lemma {:induction false} CountConcat(a: seq<Stored>, b: seq<Stored>, n: Name)
    ensures Count(a + b, n) == Count(a, n) + Count(b, n)
  {
    if a == [] {
      assert a + b == b;
    } else {
      assert (a + b)[1..] == a[1..] + b;
      CountConcat(a[1..], b, n);
    }
  }

  lemma {:induction false} LastConcat(a: seq<Stored>, b: seq<Stored>, n: Name)
    ensures Last(a + b, n) == if Last(b, n).Some? then Last(b, n) else Last(a, n)
  {
    if a == [] {
      assert a + b == b;
    } else {
      assert (a + b)[1..] == a[1..] + b && (a + b)[0] == a[0];
      LastConcat(a[1..], b, n);
    }
  }

  lemma {:induction false} LastDistinct(ps: seq<Stored>, n: Name)
    requires DistinctNames(ps)
    ensures forall i :: 0 <= i < |ps| && ps[i].wire.name == n ==> Last(ps, n) == Some(ps[i])
    ensures Count(ps, n) <= 1
  {
    if ps != [] {
      LastDistinct(ps[1..], n);
      LastIn(ps[1..], n);
      CountLast(ps[1..], n);
      assert forall i :: 0 < i < |ps| ==> ps[i] == ps[1..][i - 1];
    }
  }

  /** `s` is a tail of the list whose last copies are `L`. */
  ghost predicate TailOf(s: seq<Stored>, L: map<Name, Stored>) {
    UniqueIDs(s) && forall n :: Last(s, n).Some? ==> n in L && Some(L[n]) == Last(s, n)
  }

  lemma TailStep(s: seq<Stored>, L: map<Name, Stored>)
    requires s != [] && TailOf(s, L)
    ensures TailOf(s[1..], L)
    ensures s[0].wire.name in L
    ensures L[s[0].wire.name].id == s[0].id <==> Last(s[1..], s[0].wire.name).None?
  {
    var n := s[0].wire.name;
    assert Last(s, n).Some?;
    LastIn(s[1..], n);
    if Last(s[1..], n).Some? {
      var p := Last(s[1..], n).value;
      var i :| 0 <= i < |s[1..]| && s[1..][i] == p;
      assert s[i + 1] == p;
    }
    forall m | Last(s[1..], m).Some? ensures m in L && Some(L[m]) == Last(s[1..], m) {
      assert Last(s, m) == Last(s[1..], m);
    }
  }

  ghost predicate Named(D: map<Name, Params>) {
    forall n :: n in D ==> D[n].name == n
  }

  lemma {:induction false} EditedCount(s: seq<Stored>, L: map<Name, Stored>, D: map<Name, Params>, done: set<Name>, n: Name)
    requires TailOf(s, L) && Named(D)
    ensures Count(Edited(s, L, D, done), n) == Count(s, n) - (if Last(s, n).Some? && n in done && n !in D then 1 else 0)
  {
    if s != [] {
      TailStep(s, L);
      EditedCount(s[1..], L, D, done, n);
      var head := Edit(s[0], L, D, done);
      CountConcat(head, Edited(s[1..], L, D, done), n);
      CountLast(s[1..], n);
      assert head == [] || Count(head, n) == if s[0].wire.name == n then 1 else 0 by {
        assert head != [] ==> head[1..] == [];
      }
    }
  }

  lemma {:induction false} EditedLast(s: seq<Stored>, L: map<Name, Stored>, D: map<Name, Params>, done: set<Name>, n: Name)
    requires TailOf(s, L) && Named(D)
    requires Last(s, n).Some? && (n in done ==> n in D)
    ensures Last(Edited(s, L, D, done), n) == Some(if n in done then Stored(L[n].id, ToWire(D[n])) else L[n])
  {
    TailStep(s, L);
    var head := Edit(s[0], L, D, done);
    var rest := Edited(s[1..], L, D, done);
    LastConcat(head, rest, n);
    if Last(s[1..], n).Some? {
      EditedLast(s[1..], L, D, done, n);
    } else {
      CountLast(s[1..], n);
      EditedCount(s[1..], L, D, done, n);
      CountLast(rest, n);
      assert head == [head[0]] && head[1..] == [];
    }
  }

  lemma {:induction false} EditedFrom(s: seq<Stored>, L: map<Name, Stored>, D: map<Name, Params>, done: set<Name>, p: Stored)
    returns (i: nat)
    requires Named(D) && p in Edited(s, L, D, done)
    ensures i < |s| && s[i].id == p.id && s[i].wire.name == p.wire.name
  {
    if p in Edit(s[0], L, D, done) {
      i := 0;
    } else {
      i := EditedFrom(s[1..], L, D, done, p);
      i := i + 1;
    }
  }

  lemma EditedHead(s: seq<Stored>, L: map<Name, Stored>, D: map<Name, Params>, done: set<Name>) returns (p: Stored)
    requires s != [] && Named(D)
    ensures p.id == s[0].id && p.wire.name == s[0].wire.name
    ensures Edited(s, L, D, done) == Edited(s[1..], L, D, done) || Edited(s, L, D, done) == [p] + Edited(s[1..], L, D, done)
  {
    var head := Edit(s[0], L, D, done);
    p := if head == [] then s[0] else head[0];
    assert head == [] || head == [p];
    assert [] + Edited(s[1..], L, D, done) == Edited(s[1..], L, D, done);
  }

  lemma EditedUniqueIDsFresh(s: seq<Stored>, L: map<Name, Stored>, D: map<Name, Params>, done: set<Name>)
    requires s != [] && UniqueIDs(s) && Named(D)
    ensures UniqueIDs(s[1..]) && forall j :: 0 <= j < |Edited(s[1..], L, D, done)| ==> Edited(s[1..], L, D, done)[j].id != s[0].id
  {
    forall j | 0 <= j < |Edited(s[1..], L, D, done)| ensures Edited(s[1..], L, D, done)[j].id != s[0].id {
      var i := EditedFrom(s[1..], L, D, done, Edited(s[1..], L, D, done)[j]);
      assert s[i + 1] == s[1..][i];
    }
  }

  lemma {:induction false} EditedUniqueIDs(s: seq<Stored>, L: map<Name, Stored>, D: map<Name, Params>, done: set<Name>)
    requires UniqueIDs(s) && Named(D)
    ensures UniqueIDs(Edited(s, L, D, done))
  {
    if s != [] {
      EditedUniqueIDsFresh(s, L, D, done);
      EditedUniqueIDs(s[1..], L, D, done);
      var p := EditedHead(s, L, D, done);
    }
  }

  lemma EditedDistinctNamesFresh(s: seq<Stored>, L: map<Name, Stored>, D: map<Name, Params>, done: set<Name>)
    requires s != [] && DistinctNames(s) && Named(D)
    ensures DistinctNames(s[1..]) && forall j :: 0 <= j < |Edited(s[1..], L, D, done)| ==> Edited(s[1..], L, D, done)[j].wire.name != s[0].wire.name
  {
    forall j | 0 <= j < |Edited(s[1..], L, D, done)| ensures Edited(s[1..], L, D, done)[j].wire.name != s[0].wire.name {
      var i := EditedFrom(s[1..], L, D, done, Edited(s[1..], L, D, done)[j]);
      assert s[i + 1] == s[1..][i];
    }
  }

  lemma {:induction false} EditedDistinctNames(s: seq<Stored>, L: map<Name, Stored>, D: map<Name, Params>, done: set<Name>)
    requires DistinctNames(s) && Named(D)
    ensures DistinctNames(Edited(s, L, D, done))
  {
    if s != [] {
      EditedDistinctNamesFresh(s, L, D, done);
      EditedDistinctNames(s[1..], L, D, done);
      var p := EditedHead(s, L, D, done);
    }
  }

  lemma {:induction false} EditedSame(s: seq<Stored>, L: map<Name, Stored>, D: map<Name, Params>, d1: set<Name>, d2: set<Name>)
    requires forall i :: 0 <= i < |s| ==> (s[i].wire.name in d1 <==> s[i].wire.name in d2)
    ensures Edited(s, L, D, d1) == Edited(s, L, D, d2)
  {
    if s != [] { EditedSame(s[1..], L, D, d1, d2); }
  }

  lemma {:induction false} EditedNothing(s: seq<Stored>, L: map<Name, Stored>, D: map<Name, Params>)
    ensures Edited(s, L, D, {}) == s
  {
    if s != [] { EditedNothing(s[1..], L, D); }
  }

  /** One more name done changes the edit of its last copy only. */
  lemma EditStep(p: Stored, L: map<Name, Stored>, D: map<Name, Params>, done: set<Name>, n: Name)
    requires n in L && n !in done && (p.id == L[n].id ==> p.wire.name == n)
    ensures p.id != L[n].id ==> Edit(p, L, D, done + {n}) == Edit(p, L, D, done)
    ensures p.id == L[n].id ==> Edit(p, L, D, done) == [p]
    ensures p.id == L[n].id ==> Edit(p, L, D, done + {n}) == if n in D then [Stored(p.id, ToWire(D[n]))] else []
  {
  }

  lemma EditedCons(p: Stored, rest: seq<Stored>)
    ensures [] + rest == rest && ([p] + rest)[0] == p && ([p] + rest)[1..] == rest
  {
  }

  /** Deleting the last copy of an undesired name is one more edit. */
  lemma {:induction false} DeleteStep(s: seq<Stored>, L: map<Name, Stored>, D: map<Name, Params>, done: set<Name>, n: Name)
    requires n in L && n !in done && n !in D
    requires forall i :: 0 <= i < |s| && s[i].id == L[n].id ==> s[i].wire.name == n
    ensures Without(Edited(s, L, D, done), L[n].id) == Edited(s, L, D, done + {n})
  {
    if s != [] {
      DeleteStep(s[1..], L, D, done, n);
      EditStep(s[0], L, D, done, n);
      var head := Edit(s[0], L, D, done);
      EditedCons(if head == [] then s[0] else head[0], Edited(s[1..], L, D, done));
      assert head == [] || head == [head[0]];
    }
  }

  /** Replacing the last copy of a desired name is one more edit. */
  lemma {:induction false} UpdateStep(s: seq<Stored>, L: map<Name, Stored>, D: map<Name, Params>, done: set<Name>, n: Name)
    requires n in L && n !in done && n in D
    requires forall i :: 0 <= i < |s| && s[i].id == L[n].id ==> s[i].wire.name == n
    ensures Replacing(Edited(s, L, D, done), L[n].id, ToWire(D[n])) == Edited(s, L, D, done + {n})
  {
    if s != [] {
      UpdateStep(s[1..], L, D, done, n);
      EditStep(s[0], L, D, done, n);
      var head := Edit(s[0], L, D, done);
      EditedCons(if head == [] then s[0] else head[0], Edited(s[1..], L, D, done));
      assert head == [] || head == [head[0]];
    }
  }

  lemma {:induction false} ReplacingNothing(b: seq<Stored>, id: nat, w: Wire)
    requires forall i :: 0 <= i < |b| ==> b[i].id != id
    ensures Replacing(b, id, w) == b
  {
    if b != [] {
      ReplacingNothing(b[1..], id, w);
      assert b == [b[0]] + b[1..];
    }
  }

  lemma {:induction false} ReplacingConcat(a: seq<Stored>, b: seq<Stored>, id: nat, w: Wire)
    requires forall i :: 0 <= i < |b| ==> b[i].id != id
    ensures Replacing(a + b, id, w) == Replacing(a, id, w) + b
  {
    if a == [] {
      assert a + b == b;
      ReplacingNothing(b, id, w);
    } else {
      ReplacingConcat(a[1..], b, id, w);
      ReplacingHead(a, b, id, w);
      var head := if a[0].id == id then Stored(id, w) else a[0];
      assert ([head] + Replacing(a[1..], id, w)) + b == [head] + (Replacing(a[1..], id, w) + b);
    }
  }

  lemma ReplacingHead(a: seq<Stored>, b: seq<Stored>, id: nat, w: Wire)
    requires a != []
    ensures var head := if a[0].id == id then Stored(id, w) else a[0];
            Replacing(a, id, w) == [head] + Replacing(a[1..], id, w) && Replacing(a + b, id, w) == [head] + Replacing(a[1..] + b, id, w)
  {
    assert (a + b)[0] == a[0] && (a + b)[1..] == a[1..] + b;
  }

  // ---------------------------------------------------------------- SyncPolicies

  /** The IDs of the policies that now carry the desired names, one each. */
  ghost predicate HolderIDs(ids: seq<nat>, ps: seq<Stored>, D: map<Name, Params>) {
    && |ids| == |D|
    && (forall n :: n in D ==> Last(ps, n).Some? && Last(ps, n).value.id in ids)
    && (forall i :: 0 <= i < |ids| ==> exists n :: n in D && Last(ps, n).Some? && Last(ps, n).value.id == ids[i])
  }

  /** The lookup table of the first loop: the last copy of each name, as the client sees it. */
  method ByName(existing: seq<AccessPolicy>, ghost ps: seq<Stored>) returns (m: map<Name, AccessPolicy>)
    requires existing == Listing(ps)
    ensures ViewOf(m, Latest(ps))
  {
    m := map[];
    for i := 0 to |existing|
      invariant ViewOf(m, Latest(ps[..i]))
    {
      assert ps[..i + 1] == ps[..i] + [ps[i]];
      LatestSnoc(ps[..i], ps[i]);
      m := m[existing[i].params.name := existing[i]];
    }
    assert ps[..|ps|] == ps;
  }

  lemma {:induction false} LatestSnoc(ps: seq<Stored>, p: Stored)
    ensures Latest(ps + [p]) == Latest(ps)[p.wire.name := p]
  {
    if ps == [] {
      assert [] + [p] == [p] && [p][1..] == [];
    } else {
      assert (ps + [p])[1..] == ps[1..] + [p];
      LatestSnoc(ps[1..], p);
    }
  }

  method DesiredByName(desired: seq<Params>) returns (m: map<Name, Params>)
    ensures m == Wanted(desired)
  {
    m := map[];
    for i := 0 to |desired|
      invariant m == Wanted(desired[..i])
    {
      assert desired[..i + 1][..i] == desired[..i];
      m := m[desired[i].name := desired[i]];
    }
    assert desired[..|desired|] == desired;
  }

  lemma {:induction false} WantedNamed(ds: seq<Params>)
    ensures Named(Wanted(ds))
  {
  }

  lemma WholeIsTail(ps: seq<Stored>)
    requires UniqueIDs(ps)
    ensures TailOf(ps, Latest(ps)) && IDsNamed(ps, Latest(ps))
    ensures forall i :: 0 <= i < |ps| ==> ps[i].wire.name in Latest(ps)
    ensures forall n :: n in Latest(ps) ==> Latest(ps)[n] in ps && Latest(ps)[n].wire.name == n
  {
    LatestIsLast(ps);
    forall n ensures n in Latest(ps) ==> Latest(ps)[n] in ps && Latest(ps)[n].wire.name == n { LastIn(ps, n); }
    forall i | 0 <= i < |ps| ensures ps[i].wire.name in Latest(ps) { LastIn(ps, ps[i].wire.name); }
    forall n, i | n in Latest(ps) && 0 <= i < |ps| && ps[i].id == Latest(ps)[n].id ensures ps[i].wire.name == n {
      var j :| 0 <= j < |ps| && ps[j] == Latest(ps)[n];
      assert i == j;
    }
  }

  /** A missing name is created: the new policy joins `created`. */
  lemma CreateStep(created: seq<Stored>, names: set<Name>, D: map<Name, Params>, lo: nat, hi: nat, n: Name)
    requires CreatedFor(created, names, D, lo, hi)
    requires n in D && D[n].name == n && n !in names
    ensures CreatedFor(created + [Stored(hi, ToWire(D[n]))], names + {n}, D, lo, hi + 1)
  {
    var p := Stored(hi, ToWire(D[n]));
    assert (created + [p])[..|created + [p]| - 1] == created;
    assert (names + {n}) - {n} == names;
  }

  lemma LastSnoc(created: seq<Stored>, p: Stored, m: Name)
    ensures Last(created + [p], m) == if m == p.wire.name then Some(p) else Last(created, m)
  {
    assert [p][1..] == [];
    LastConcat(created, [p], m);
  }

  lemma SnocUnique(ps: seq<Stored>)
    requires ps != [] && UniqueIDs(ps[..|ps| - 1]) && DistinctNames(ps[..|ps| - 1])
    requires forall i :: 0 <= i < |ps| - 1 ==> ps[i].id != ps[|ps| - 1].id && ps[i].wire.name != ps[|ps| - 1].wire.name
    ensures UniqueIDs(ps) && DistinctNames(ps)
  {
    var rest := ps[..|ps| - 1];
    assert forall i :: 0 <= i < |rest| ==> rest[i] == ps[i];
  }

  lemma {:induction false} CreatedFacts(created: seq<Stored>, names: set<Name>, D: map<Name, Params>, lo: nat, hi: nat)
    requires CreatedFor(created, names, D, lo, hi)
    ensures UniqueIDs(created) && DistinctNames(created) && lo <= hi
    ensures forall i :: 0 <= i < |created| ==> lo <= created[i].id < hi && created[i].wire.name in names
  {
    if created != [] {
      var k := |created| - 1;
      var rest := created[..k];
      CreatedFacts(rest, names - {created[k].wire.name}, D, lo, created[k].id);
      forall i | 0 <= i < k
        ensures lo <= created[i].id < created[k].id && created[i].wire.name in names && created[i].wire.name != created[k].wire.name
      {
        assert created[i] == rest[i];
      }
      SnocUnique(created);
    }
  }

  lemma {:induction false} CreatedLast(created: seq<Stored>, names: set<Name>, D: map<Name, Params>, lo: nat, hi: nat, n: Name)
    requires CreatedFor(created, names, D, lo, hi)
    ensures Last(created, n).Some? <==> n in names
    ensures n in names ==> n in D && Last(created, n).value.wire == ToWire(D[n]) && lo <= Last(created, n).value.id < hi
  {
    if created != [] {
      var k := |created| - 1;
      CreatedLast(created[..k], names - {created[k].wire.name}, D, lo, created[k].id, n);
      CreatedFacts(created, names, D, lo, hi);
      assert created == created[..k] + [created[k]];
      LastSnoc(created[..k], created[k], n);
    }
  }

  /** `m` is the client's view of the last copies `L`. */
  ghost predicate ViewOf(m: map<Name, AccessPolicy>, L: map<Name, Stored>) {
    m.Keys == L.Keys && forall n :: n in m ==> m[n] == View(L[n])
  }

  /** An ID of a last copy belongs to that name only. */
  ghost predicate IDsNamed(s: seq<Stored>, L: map<Name, Stored>) {
    forall n, i :: n in L && 0 <= i < |s| && s[i].id == L[n].id ==> s[i].wire.name == n
  }

  ghost predicate SomeDeleted(done: set<Name>, L: map<Name, Stored>, D: map<Name, Params>) {
    forall n :: n in done ==> n in L && n !in D
  }

  ghost predicate AllDeleted(done: set<Name>, L: map<Name, Stored>, D: map<Name, Params>) {
    forall n :: n in done <==> n in L && n !in D
  }

  /** Delete policies not in the desired set. */
  method DeleteUndesired(api: PolicyAPI, existingByName: map<Name, AccessPolicy>, desiredByName: map<Name, Params>,
                         ghost before: seq<Stored>, ghost L: map<Name, Stored>)
    returns (ok: bool, ghost done: set<Name>)
    requires ViewOf(existingByName, L) && IDsNamed(before, L) && api.policies == before
    modifies api
    ensures SomeDeleted(done, L, desiredByName)
    ensures ok ==> AllDeleted(done, L, desiredByName)
    ensures api.policies == Edited(before, L, desiredByName, done)
    ensures api.nextID == old(api.nextID) && api.writes == old(api.writes) + |done|
    ensures api.faults == old(api.faults) + (if ok then 0 else 1)
  {
    EditedNothing(before, L, desiredByName);
    done := {};
    var todo := existingByName.Keys;
    while todo != {}
      invariant todo <= existingByName.Keys
      invariant forall n :: n in done <==> n in L && n !in desiredByName && n !in todo
      invariant api.policies == Edited(before, L, desiredByName, done)
      invariant api.nextID == old(api.nextID) && api.writes == old(api.writes) + |done| && api.faults == old(api.faults)
    {
      var name :| name in todo;
      todo := todo - {name};
      if name !in desiredByName {
        DeleteStep(before, L, desiredByName, done, name);
        ghost var applied;
        ok, applied := api.Delete(existingByName[name].id);
        if applied {
          done := done + {name};
        }
        if !ok {
          return false, done;
        }
      }
    }
    ok := true;
  }

  /** The writes carried out so far. */
  ghost predicate Progress(api: PolicyAPI, before: seq<Stored>, L: map<Name, Stored>, D: map<Name, Params>,
                           done: set<Name>, firstID: nat, created: seq<Stored>)
    reads api
  {
    Written(before, L, D, done, firstID, api.nextID, created, api.policies)
  }

  /** An existing policy is updated if it differs and kept if it is equal. */
  method UpdateIfDifferent(api: PolicyAPI, existing: AccessPolicy, params: Params, ghost before: seq<Stored>,
                           ghost L: map<Name, Stored>, ghost D: map<Name, Params>, ghost done0: set<Name>,
                           ghost firstID: nat, ghost created: seq<Stored>)
    returns (id: Result<nat, Error>, ghost wrote: bool, ghost done: set<Name>)
    requires params.name in L && existing == View(L[params.name]) && Started(before, L, firstID)
    requires Progress(api, before, L, D, done0, firstID, created)
    requires params.name in D && D[params.name] == params && params.name !in done0
    modifies api
    ensures Progress(api, before, L, D, done, firstID, created)
    ensures done == if wrote then done0 + {params.name} else done0
    ensures id.Ok? ==> (wrote <==> NeedsWrite(L, D, params.name)) && id.value == existing.id
    ensures api.writes == old(api.writes) + (if wrote then 1 else 0)
    ensures api.faults == old(api.faults) + (if id.Ok? then 0 else 1)
  {
    var name := params.name;
    wrote, done := false, done0;
    if PolicyEqual(existing, params) {
      return Ok(existing.id), wrote, done;
    }
    UpdateStep(before, L, D, done, name);
    CreatedFacts(created, done - L.Keys, D, firstID, api.nextID);
    ReplacingConcat(Edited(before, L, D, done), created, L[name].id, ToWire(params));
    AddKnown(done, L.Keys, name);
    var updated, applied := api.Update(existing.id, params);
    if applied {
      wrote, done := true, done + {name};
    }
    id := if updated.Ok? then Ok(updated.value.id) else Err(updated.error);
  }

  lemma CreateKeeps(before: seq<Stored>, L: map<Name, Stored>, D: map<Name, Params>, done: set<Name>, lo: nat, hi: nat,
                    created: seq<Stored>, after: seq<Stored>, n: Name)
    requires Written(before, L, D, done, lo, hi, created, after)
    requires n !in L && n in D && D[n].name == n && n !in done && forall i :: 0 <= i < |before| ==> before[i].wire.name in L
    ensures var p := Stored(hi, ToWire(D[n]));
            Written(before, L, D, done + {n}, lo, hi + 1, created + [p], after + [p])
  {
    var p := Stored(hi, ToWire(D[n]));
    CreateStep(created, done - L.Keys, D, lo, hi, n);
    EditedSame(before, L, D, done, done + {n});
    AddKnown(done, L.Keys, n);
    assert (Edited(before, L, D, done) + created) + [p] == Edited(before, L, D, done) + (created + [p]);
  }

  /** A missing policy is created. */
  method CreateMissing(api: PolicyAPI, params: Params, ghost before: seq<Stored>, ghost L: map<Name, Stored>,
                       ghost D: map<Name, Params>, ghost done0: set<Name>, ghost firstID: nat, ghost created0: seq<Stored>)
    returns (id: Result<nat, Error>, ghost wrote: bool, ghost done: set<Name>, ghost created: seq<Stored>)
    requires params.name !in L && Started(before, L, firstID)
    requires Progress(api, before, L, D, done0, firstID, created0)
    requires params.name in D && D[params.name] == params && params.name !in done0
    modifies api
    ensures Progress(api, before, L, D, done, firstID, created)
    ensures done == if wrote then done0 + {params.name} else done0
    ensures created == if wrote then created0 + [Stored(old(api.nextID), ToWire(params))] else created0
    ensures id.Ok? ==> wrote && id.value == old(api.nextID)
    ensures api.writes == old(api.writes) + (if wrote then 1 else 0)
    ensures api.faults == old(api.faults) + (if id.Ok? then 0 else 1)
  {
    var name := params.name;
    wrote, done, created := false, done0, created0;
    ghost var p := Stored(api.nextID, ToWire(params));
    CreateKeeps(before, L, D, done, firstID, api.nextID, created, api.policies, name);
    var made, applied := api.Create(params);
    if applied {
      wrote, done, created := true, done + {name}, created + [p];
    }
    id := if made.Ok? then Ok(made.value.id) else Err(made.error);
  }

  /** The ID reported for a name: its old one, or that of the policy created for it. */
  ghost predicate Issued(L: map<Name, Stored>, created: seq<Stored>, n: Name, id: nat) {
    if n in L then id == L[n].id else Last(created, n).Some? && Last(created, n).value.id == id
  }

  /** The same, as one iteration sees it. */
  ghost predicate NewlyIssued(L: map<Name, Stored>, created0: seq<Stored>, created: seq<Stored>, n: Name, id: nat) {
    if n in L then created == created0 && id == L[n].id
    else
      && |created| == |created0| + 1 && created == created0 + [created[|created0|]]
      && created[|created0|].wire.name == n && created[|created0|].id == id
  }

  /** The IDs collected so far, for the names handled in this order. */
  ghost predicate Collected(L: map<Name, Stored>, created: seq<Stored>, order: seq<Name>, ids: seq<nat>) {
    |ids| == |order| && forall i :: 0 <= i < |order| ==> Issued(L, created, order[i], ids[i])
  }

  lemma CollectStep(L: map<Name, Stored>, created0: seq<Stored>, created: seq<Stored>, order: seq<Name>, ids: seq<nat>,
                    n: Name, id: nat)
    requires Collected(L, created0, order, ids) && n !in order && NewlyIssued(L, created0, created, n, id)
    ensures Collected(L, created, order + [n], ids + [id])
  {
    forall i | 0 <= i < |order| ensures Issued(L, created, order[i], ids[i]) {
      assert order[i] in order;
      if n !in L {
        LastSnoc(created0, created[|created0|], order[i]);
      }
    }
    if n !in L {
      LastSnoc(created0, created[|created0|], n);
    }
  }

  /** What the two loops may assume about the list they started from. */
  ghost predicate Started(before: seq<Stored>, L: map<Name, Stored>, firstID: nat) {
    && IDsNamed(before, L)
    && (forall i :: 0 <= i < |before| ==> before[i].wire.name in L)
    && (forall n :: n in L ==> L[n].id < firstID)
  }

  /** Deletes alone make a run that created nothing. */
  lemma DeletesAreWrites(before: seq<Stored>, L: map<Name, Stored>, D: map<Name, Params>, done: set<Name>, firstID: nat)
    requires SomeDeleted(done, L, D)
    ensures Written(before, L, D, done, firstID, firstID, [], Edited(before, L, D, done))
  {
    NothingLeft(done, L.Keys);
  }

  lemma StartedFrom(before: seq<Stored>, firstID: nat)
    requires UniqueIDs(before) && forall i :: 0 <= i < |before| ==> before[i].id < firstID
    ensures Started(before, Latest(before), firstID)
  {
    WholeIsTail(before);
  }

  /** One iteration of the second loop. */
  method UpsertOne(api: PolicyAPI, existingByName: map<Name, AccessPolicy>, params: Params, ghost before: seq<Stored>,
                   ghost L: map<Name, Stored>, ghost D: map<Name, Params>, ghost done0: set<Name>, ghost firstID: nat,
                   ghost created0: seq<Stored>)
    returns (id: Result<nat, Error>, ghost wrote: bool, ghost done: set<Name>, ghost created: seq<Stored>)
    requires ViewOf(existingByName, L) && Started(before, L, firstID)
    requires Progress(api, before, L, D, done0, firstID, created0)
    requires params.name in D && D[params.name] == params && params.name !in done0
    modifies api
    ensures Progress(api, before, L, D, done, firstID, created)
    ensures done == if wrote then done0 + {params.name} else done0
    ensures api.writes == old(api.writes) + (if wrote then 1 else 0)
    ensures api.faults == old(api.faults) + (if id.Ok? then 0 else 1)
    ensures id.Ok? ==> (wrote <==> NeedsWrite(L, D, params.name))
    ensures id.Ok? ==> NewlyIssued(L, created0, created, params.name, id.value)
  {
    if params.name in existingByName {
      created := created0;
      id, wrote, done := UpdateIfDifferent(api, existingByName[params.name], params, before, L, D, done0, firstID, created0);
    } else {
      id, wrote, done, created := CreateMissing(api, params, before, L, D, done0, firstID, created0);
    }
  }

  /** Create or update every desired policy. */
  method UpsertDesired(api: PolicyAPI, existingByName: map<Name, AccessPolicy>, desiredByName: map<Name, Params>,
                       ghost before: seq<Stored>, ghost L: map<Name, Stored>, ghost done0: set<Name>, ghost firstID: nat)
    returns (r: Result<seq<nat>, Error>, ghost done: set<Name>, ghost created: seq<Stored>, ghost order: seq<Name>)
    requires ViewOf(existingByName, L) && Started(before, L, firstID) && Named(desiredByName)
    requires AllDeleted(done0, L, desiredByName)
    requires Progress(api, before, L, desiredByName, done0, firstID, [])
    modifies api
    ensures Progress(api, before, L, desiredByName, done, firstID, created)
    ensures api.writes - |done| == old(api.writes) - |done0|
    ensures api.faults == old(api.faults) + (if r.Ok? then 0 else 1)
    ensures r.Ok? ==> forall n :: n in done <==> NeedsWrite(L, desiredByName, n)
    ensures r.Ok? ==> Enumerates(order, desiredByName.Keys, {})
    ensures r.Ok? ==> Collected(L, created, order, r.value)
  {
    var resultIDs: seq<nat> := [];
    done, created, order := done0, [], [];
    var wanted := desiredByName.Keys;
    while wanted != {}
      invariant wanted <= desiredByName.Keys
      invariant Enumerates(order, desiredByName.Keys, wanted)
      invariant forall n :: n in done <==> n !in wanted && NeedsWrite(L, desiredByName, n)
      invariant Progress(api, before, L, desiredByName, done, firstID, created)
      invariant api.writes - |done| == old(api.writes) - |done0| && api.faults == old(api.faults)
      invariant Collected(L, created, order, resultIDs)
    {
      var name :| name in wanted;
      ghost var created0, wrote := created, false;
      var id;
      id, wrote, done, created := UpsertOne(api, existingByName, desiredByName[name], before, L, desiredByName, done, firstID, created);
      EnumerateStep(order, desiredByName.Keys, wanted, name);
      wanted := wanted - {name};
      if id.Err? {
        return Err(id.error), done, created, order;
      }
      CollectStep(L, created0, created, order, resultIDs, name, id.value);
      resultIDs, order := resultIDs + [id.value], order + [name];
    }
    r := Ok(resultIDs);
  }

  // ---------------------------------------------------------------- the desired list itself

  /** No later entry has the name. */
  predicate LastOfName(ds: seq<Params>, i: nat) {
    i < |ds| && forall j :: i < j < |ds| ==> ds[j].name != ds[i].name
  }

  /** The entry of a name that counts is the last one, as it stands. */
  lemma {:induction false} WantedAt(ds: seq<Params>, i: nat)
    requires LastOfName(ds, i)
    ensures ds[i].name in Wanted(ds) && Wanted(ds)[ds[i].name] == ds[i]
  {
    var k := |ds| - 1;
    if i < k {
      assert ds[k].name != ds[i].name;
      assert LastOfName(ds[..k], i);
      WantedAt(ds[..k], i);
    }
  }

  lemma {:induction false} WantedFrom(ds: seq<Params>, n: Name) returns (i: nat)
    requires n in Wanted(ds)
    ensures LastOfName(ds, i) && ds[i].name == n && ds[i] == Wanted(ds)[n]
  {
    var k := |ds| - 1;
    i := k;
    if n != ds[k].name {
      i := WantedFrom(ds[..k], n);
    }
  }

  lemma WantedIsLast(ds: seq<Params>)
    ensures forall i: nat :: LastOfName(ds, i) ==> ds[i].name in Wanted(ds) && Wanted(ds)[ds[i].name] == ds[i]
    ensures forall n :: n in Wanted(ds) ==> exists i: nat :: LastOfName(ds, i) && ds[i].name == n && ds[i] == Wanted(ds)[n]
  {
    forall i: nat | LastOfName(ds, i) ensures ds[i].name in Wanted(ds) && Wanted(ds)[ds[i].name] == ds[i] { WantedAt(ds, i); }
    forall n | n in Wanted(ds) ensures exists i: nat :: LastOfName(ds, i) && ds[i].name == n && ds[i] == Wanted(ds)[n] {
      var i := WantedFrom(ds, n);
    }
  }

  /** A stored policy with the content of a desired one that counts. */
  ghost predicate FromDesired(ds: seq<Params>, p: Stored) {
    exists i: nat :: LastOfName(ds, i) && p.wire == ToWire(ds[i])
  }

  /** Nothing else's content gets into the store. */
  ghost predicate OldOrDesired(before: seq<Stored>, ds: seq<Params>, after: seq<Stored>) {
    forall k :: 0 <= k < |after| ==> after[k] in before || FromDesired(ds, after[k])
  }

  /** Every desired policy that counts is the last one of its name: as sent if it was written, else reading so already. */
  ghost predicate AllThere(ds: seq<Params>, done: set<Name>, after: seq<Stored>) {
    forall i: nat :: LastOfName(ds, i) ==>
      Last(after, ds[i].name).Some? && AsDesired(Last(after, ds[i].name).value.wire, ds[i], ds[i].name in done)
  }

  predicate AsDesired(w: Wire, p: Params, written: bool) {
    if written then w == ToWire(p) else FromWire(w) == p
  }

  lemma {:induction false} EditedContent(s: seq<Stored>, L: map<Name, Stored>, D: map<Name, Params>, done: set<Name>, p: Stored)
    requires p in Edited(s, L, D, done)
    ensures p in s || exists n :: n in D && p.wire == ToWire(D[n])
  {
    if p !in Edit(s[0], L, D, done) { EditedContent(s[1..], L, D, done, p); }
  }

  lemma {:induction false} CreatedContent(created: seq<Stored>, names: set<Name>, D: map<Name, Params>, lo: nat, hi: nat, p: Stored)
    requires CreatedFor(created, names, D, lo, hi) && p in created
    ensures exists n :: n in D && p.wire == ToWire(D[n])
  {
    var k := |created| - 1;
    if p != created[k] {
      assert p in created[..k];
      CreatedContent(created[..k], names - {created[k].wire.name}, D, lo, created[k].id, p);
    }
  }

  lemma OnlyDesired(before: seq<Stored>, ds: seq<Params>, done: set<Name>, lo: nat, hi: nat, created: seq<Stored>, after: seq<Stored>)
    requires Applied(before, Wanted(ds), done, lo, hi, created, after)
    ensures OldOrDesired(before, ds, after)
  {
    var D, L := Wanted(ds), Latest(before);
    WantedIsLast(ds);
    forall k | 0 <= k < |after| ensures after[k] in before || FromDesired(ds, after[k]) {
      if after[k] in created {
        CreatedContent(created, done - L.Keys, D, lo, hi, after[k]);
      } else {
        EditedContent(before, L, D, done, after[k]);
      }
    }
  }

  lemma DesiredThere(before: seq<Stored>, ds: seq<Params>, lo: nat, hi: nat, created: seq<Stored>, after: seq<Stored>)
    requires UniqueIDs(before) && Applied(before, Wanted(ds), Planned(Latest(before), Wanted(ds)), lo, hi, created, after)
    ensures AllThere(ds, Planned(Latest(before), Wanted(ds)), after)
  {
    WantedIsLast(ds);
    WantedNamed(ds);
    forall i: nat | LastOfName(ds, i)
      ensures Last(after, ds[i].name).Some?
      ensures AsDesired(Last(after, ds[i].name).value.wire, ds[i], ds[i].name in Planned(Latest(before), Wanted(ds)))
    {
      WantedThere(before, Wanted(ds), lo, hi, created, after, ds[i].name);
    }
  }

  lemma WantedThere(before: seq<Stored>, D: map<Name, Params>, lo: nat, hi: nat, created: seq<Stored>, after: seq<Stored>, n: Name)
    requires UniqueIDs(before) && Named(D) && n in D && Applied(before, D, Planned(Latest(before), D), lo, hi, created, after)
    ensures Last(after, n).Some? && AsDesired(Last(after, n).value.wire, D[n], n in Planned(Latest(before), D))
  {
    LatestIsLast(before);
    if Last(before, n).Some? {
      SurvivorAfter(before, D, Planned(Latest(before), D), lo, hi, created, after, n);
    } else {
      assert NeedsWrite(Latest(before), D, n);
      NewcomerAfter(before, D, Planned(Latest(before), D), lo, hi, created, after, n);
    }
  }

  /**
   * SyncPolicies. Map iteration order is whatever the loops pick. However the run ends, `done` names
   * the writes that reached the server and the store is exactly the old one with those carried out;
   * without an error they are all the planned ones and the result holds the IDs of the desired policies.
   * It ends with an error exactly if a call failed. Every policy then there was there before or has the
   * content of a desired one that no later one of its name replaces; without an error all of those are there.
   */
  method SyncPolicies(api: PolicyAPI, desired: seq<Params>)
    returns (r: Result<seq<nat>, Error>, ghost done: set<Name>, ghost created: seq<Stored>)
    requires api.Valid()
    modifies api
    ensures api.Valid()
    ensures Applied(old(api.policies), Wanted(desired), done, old(api.nextID), api.nextID, created, api.policies)
    ensures api.writes == old(api.writes) + |done|
    ensures r.Ok? ==> done == Planned(Latest(old(api.policies)), Wanted(desired))
    ensures r.Ok? ==> HolderIDs(r.value, api.policies, Wanted(desired))
    ensures api.faults == old(api.faults) + (if r.Ok? then 0 else 1)
    ensures OldOrDesired(old(api.policies), desired, api.policies)
    ensures r.Ok? ==> AllThere(desired, done, api.policies)
  {
    r, done, created := SyncWanted(api, desired);
    OnlyDesired(old(api.policies), desired, done, old(api.nextID), api.nextID, created, api.policies);
    if r.Ok? {
      DesiredThere(old(api.policies), desired, old(api.nextID), api.nextID, created, api.policies);
    }
  }

  /** The run against the last params of each name. */
  method SyncWanted(api: PolicyAPI, desired: seq<Params>)
    returns (r: Result<seq<nat>, Error>, ghost done: set<Name>, ghost created: seq<Stored>)
    requires api.Valid()
    modifies api
    ensures api.Valid()
    ensures Applied(old(api.policies), Wanted(desired), done, old(api.nextID), api.nextID, created, api.policies)
    ensures api.writes == old(api.writes) + |done|
    ensures r.Ok? ==> done == Planned(Latest(old(api.policies)), Wanted(desired))
    ensures r.Ok? ==> HolderIDs(r.value, api.policies, Wanted(desired))
    ensures api.faults == old(api.faults) + (if r.Ok? then 0 else 1)
  {
    ghost var before, firstID, D := api.policies, api.nextID, Wanted(desired);
    ghost var L := Latest(before);
    WantedNamed(desired);
    StartedFrom(before, firstID);
    EditedNothing(before, L, D);
    DeletesAreWrites(before, L, D, {}, firstID);
    done, created := {}, [];

    var listed := api.List();
    if listed.Err? {
      return Err(listed.error), done, created;
    }
    var existingByName := ByName(listed.value, before);
    var desiredByName := DesiredByName(desired);

    var ok;
    ok, done := DeleteUndesired(api, existingByName, desiredByName, before, L);
    DeletesAreWrites(before, L, D, done, firstID);
    if !ok {
      AppliedValid(before, D, done, firstID, api.nextID, created, api.policies);
      return Err(APIError), done, created;
    }
    ghost var order;
    r, done, created, order := UpsertDesired(api, existingByName, desiredByName, before, L, done, firstID);
    AppliedValid(before, D, done, firstID, api.nextID, created, api.policies);
    if r.Ok? {
      PlannedIs(L, D, done);
      HoldersAfter(before, D, done, firstID, api.nextID, created, api.policies, r.value, order);
    }
  }

  /** A run leaves a store that the next run can start from. */
  lemma AppliedValid(before: seq<Stored>, D: map<Name, Params>, done: set<Name>, lo: nat, hi: nat, created: seq<Stored>,
                     after: seq<Stored>)
    requires UniqueIDs(before) && Named(D) && forall i :: 0 <= i < |before| ==> before[i].id < lo
    requires Applied(before, D, done, lo, hi, created, after)
    ensures UniqueIDs(after) && lo <= hi && forall i :: 0 <= i < |after| ==> after[i].id < hi
  {
    var kept := Edited(before, Latest(before), D, done);
    CreatedFacts(created, done - Latest(before).Keys, D, lo, hi);
    EditedUniqueIDs(before, Latest(before), D, done);
    forall i | 0 <= i < |kept| ensures kept[i].id < lo {
      var k := EditedFrom(before, Latest(before), D, done, kept[i]);
    }
  }

  /** A desired name that existed keeps its ID; a write replaces its content. */
  lemma SurvivorAfter(before: seq<Stored>, D: map<Name, Params>, done: set<Name>, lo: nat, hi: nat, created: seq<Stored>,
                      after: seq<Stored>, n: Name)
    requires UniqueIDs(before) && Named(D) && Applied(before, D, done, lo, hi, created, after)
    requires n in D && Last(before, n).Some?
    ensures Last(after, n) == Some(if n in done then Stored(Last(before, n).value.id, ToWire(D[n])) else Last(before, n).value)
  {
    var L := Latest(before);
    WholeIsTail(before);
    LatestIsLast(before);
    CreatedLast(created, done - L.Keys, D, lo, hi, n);
    LastConcat(Edited(before, L, D, done), created, n);
    EditedLast(before, L, D, done, n);
  }

  /** A desired name that was missing is there, fresh and as desired, exactly if its create got through. */
  lemma NewcomerAfter(before: seq<Stored>, D: map<Name, Params>, done: set<Name>, lo: nat, hi: nat, created: seq<Stored>,
                      after: seq<Stored>, n: Name)
    requires UniqueIDs(before) && Named(D) && Applied(before, D, done, lo, hi, created, after)
    requires n in D && Last(before, n).None?
    ensures Last(after, n) == Last(created, n)
    ensures Last(after, n).Some? <==> n in done
    ensures n in done ==> Last(after, n).value.wire == ToWire(D[n]) && lo <= Last(after, n).value.id < hi
  {
    var L := Latest(before);
    var kept := Edited(before, L, D, done);
    LatestIsLast(before);
    LastIn(before, n);
    LastIn(kept, n);
    CreatedLast(created, done - L.Keys, D, lo, hi, n);
    LastConcat(kept, created, n);
    if Last(kept, n).Some? {
      var k := EditedFrom(before, L, D, done, Last(kept, n).value);
      assert false;
    }
  }

  /** An undesired name loses its last copy if its write got through, and is untouched otherwise. */
  lemma UndesiredAfter(before: seq<Stored>, D: map<Name, Params>, done: set<Name>, lo: nat, hi: nat, created: seq<Stored>,
                       after: seq<Stored>, n: Name)
    requires UniqueIDs(before) && Named(D) && Applied(before, D, done, lo, hi, created, after)
    requires n !in D
    ensures Count(after, n) == Count(before, n) - (if n in done then 1 else 0)
  {
    var L := Latest(before);
    WholeIsTail(before);
    LatestIsLast(before);
    EditedCount(before, L, D, done, n);
    CountConcat(Edited(before, L, D, done), created, n);
    CreatedLast(created, done - L.Keys, D, lo, hi, n);
    CountLast(created, n);
    if n in done {
      assert NeedsWrite(L, D, n);
    }
  }

  lemma HolderAfter(before: seq<Stored>, D: map<Name, Params>, done: set<Name>, lo: nat, hi: nat, created: seq<Stored>,
                    after: seq<Stored>, n: Name, id: nat)
    requires UniqueIDs(before) && Named(D) && n in D
    requires Applied(before, D, done, lo, hi, created, after)
    requires NeedsWrite(Latest(before), D, n) ==> n in done
    requires Issued(Latest(before), created, n, id)
    ensures Last(after, n).Some? && Last(after, n).value.id == id
  {
    LatestIsLast(before);
    if Last(before, n).Some? {
      SurvivorAfter(before, D, done, lo, hi, created, after, n);
    } else {
      NewcomerAfter(before, D, done, lo, hi, created, after, n);
    }
  }

  lemma HoldersAfter(before: seq<Stored>, D: map<Name, Params>, done: set<Name>, lo: nat, hi: nat, created: seq<Stored>,
                     after: seq<Stored>, ids: seq<nat>, order: seq<Name>)
    requires UniqueIDs(before) && Named(D) && Enumerates(order, D.Keys, {})
    requires Applied(before, D, done, lo, hi, created, after)
    requires forall n :: n in done <==> NeedsWrite(Latest(before), D, n)
    requires Collected(Latest(before), created, order, ids)
    ensures HolderIDs(ids, after, D)
  {
    forall i | 0 <= i < |order| ensures order[i] in D && Last(after, order[i]).Some? && Last(after, order[i]).value.id == ids[i] {
      assert order[i] in order;
      HolderAfter(before, D, done, lo, hi, created, after, order[i], ids[i]);
    }
    DistinctCount(order);
    assert (set n | n in order) == D.Keys;
  }
}
