/**
 * Lifecycle of a CloudflareAccessPolicy (internal/controller/cloudflareaccesspolicy_controller.go):
 * finalizer, reconcile phases, persisted status and deletion, against the objects they leave at Cloudflare.
 */
module Reconciler {
  import opened GoTypes

  // ---------------------------------------------------------------- status

  datatype StatusCondition = StatusCondition(kind: string, status: string, reason: string, message: string,
                                             observedGeneration: int, lastTransition: int)

  datatype TargetReference = TargetReference(group: string, kind: string, name: string, namespace: string)

  datatype Ancestor = Ancestor(ref: TargetReference, controller: string, conditions: seq<StatusCondition>)

  /** IDs are None while empty; a nil token map differs from an empty one. */
  datatype Status = Status(
    applicationID: Option<nat>,
    applicationAUD: string,
    attachedTargets: int,
    tokenIDs: Option<map<Name, nat>>,
    mtlsRuleID: Option<nat>,
    observedGeneration: int,
    conditions: seq<StatusCondition>,
    ancestors: seq<Ancestor>)

  function VisibleCondition(c: StatusCondition): StatusCondition {
    c.(observedGeneration := 0, lastTransition := 0)
  }

  function VisibleConditions(cs: seq<StatusCondition>): (vs: seq<StatusCondition>)
    ensures |vs| == |cs| && forall i :: 0 <= i < |cs| ==> vs[i] == VisibleCondition(cs[i])
  {
    seq(|cs|, i requires 0 <= i < |cs| => VisibleCondition(cs[i]))
  }

  function VisibleAncestors(xs: seq<Ancestor>): (vs: seq<Ancestor>)
    ensures |vs| == |xs| && forall i :: 0 <= i < |xs| ==> vs[i] == xs[i].(conditions := VisibleConditions(xs[i].conditions))
  {
    seq(|xs|, i requires 0 <= i < |xs| => xs[i].(conditions := VisibleConditions(xs[i].conditions)))
  }

  /** A status up to when and for which generation its conditions were last set. */
  function Visible(s: Status): Status {
    s.(conditions := VisibleConditions(s.conditions), ancestors := VisibleAncestors(s.ancestors))
  }

  predicate SameCondition(a: StatusCondition, b: StatusCondition)
    ensures SameCondition(a, b) <==> VisibleCondition(a) == VisibleCondition(b)
  {
    a.kind == b.kind && a.status == b.status && a.reason == b.reason && a.message == b.message
  }

  method SameConditions(a: seq<StatusCondition>, b: seq<StatusCondition>) returns (same: bool)
    ensures same <==> VisibleConditions(a) == VisibleConditions(b)
  {
    if |a| != |b| {
      return false;
    }
    for i := 0 to |a|
      invariant forall k :: 0 <= k < i ==> VisibleConditions(a)[k] == VisibleConditions(b)[k]
    {
      if !SameCondition(a[i], b[i]) {
        assert VisibleConditions(a)[i] != VisibleConditions(b)[i];
        return false;
      }
    }
    same := true;
  }

  /** accessPolicyStatusEqual: it overlooks condition times and generations, and never an ID. */
  method AccessPolicyStatusEqual(a: Status, b: Status) returns (same: bool)
    ensures same <==> Visible(a) == Visible(b)
  {
    if a.observedGeneration != b.observedGeneration || a.applicationID != b.applicationID ||
       a.applicationAUD != b.applicationAUD || a.mtlsRuleID != b.mtlsRuleID ||
       a.attachedTargets != b.attachedTargets || a.tokenIDs != b.tokenIDs {
      return false;
    }
    var conditions := SameConditions(a.conditions, b.conditions);
    if !conditions || |a.ancestors| != |b.ancestors| {
      return false;
    }
    for i := 0 to |a.ancestors|
      invariant forall k :: 0 <= k < i ==> VisibleAncestors(a.ancestors)[k] == VisibleAncestors(b.ancestors)[k]
    {
      var x, y := a.ancestors[i], b.ancestors[i];
      if x.ref != y.ref || x.controller != y.controller {
        assert VisibleAncestors(a.ancestors)[i] != VisibleAncestors(b.ancestors)[i];
        return false;
      }
      var inner := SameConditions(x.conditions, y.conditions);
      if !inner {
        assert VisibleAncestors(a.ancestors)[i] != VisibleAncestors(b.ancestors)[i];
        return false;
      }
    }
    same := true;
  }

  // ---------------------------------------------------------------- Cloudflare

  /** An application or a service token. */
  datatype Item = Item(id: nat, name: Name)

  /** All items of one kind in creation order, the next ID, and the IDs of those this reconciler created. */
  datatype Items = Items(list: seq<Item>, nextID: nat, made: set<nat>)

  /** The ID of the first item with the name, which is the one the code adopts. */
  function Holder(list: seq<Item>, n: Name): Option<nat> {
    if list == [] then None else if list[0].name == n then Some(list[0].id) else Holder(list[1..], n)
  }

  function WithoutID(list: seq<Item>, id: nat): seq<Item> {
    if list == [] then [] else (if list[0].id == id then [] else [list[0]]) + WithoutID(list[1..], id)
  }

  /** How an API call goes: as it should, without effect, or carried out without an answer. */
  datatype Call = Fine | Fails | Unanswered

  datatype Error = APIError | SaveFailed

  /** Adopt by name, or create. */
  function Ensured(it: Items, n: Name, call: Call): Items {
    if call.Fails? || Holder(it.list, n).Some? then it
    else Items(it.list + [Item(it.nextID, n)], it.nextID + 1, it.made + {it.nextID})
  }

  /** A created token counts only once its credentials are saved; rotating an adopted one keeps its ID. */
  function EnsureAnswer(it: Items, n: Name, call: Call, saved: bool): Result<nat, Error> {
    if !call.Fine? then Err(APIError)
    else if Holder(it.list, n).Some? then Ok(Holder(it.list, n).value)
    else if !saved then Err(SaveFailed)
    else Ok(it.nextID)
  }

  class Cloudflare {
    var apps: Items
    var tokens: Items

    constructor ()
      ensures apps == tokens == Items([], 0, {})
    {
      apps, tokens := Items([], 0, {}), Items([], 0, {});
    }

    method EnsureApplication(name: Name, call: Call) returns (r: Result<nat, Error>)
      modifies this`apps
      ensures apps == Ensured(old(apps), name, call) && r == EnsureAnswer(old(apps), name, call, true)
    {
      var existing := Find(apps.list, name);
      if call == Fails {
        return Err(APIError);
      }
      if existing.Some? {
        return if call == Fine then Ok(existing.value) else Err(APIError);
      }
      r := if call == Fine then Ok(apps.nextID) else Err(APIError);
      apps := Items(apps.list + [Item(apps.nextID, name)], apps.nextID + 1, apps.made + {apps.nextID});
    }

    method EnsureServiceToken(name: Name, call: Call, saved: bool) returns (r: Result<nat, Error>)
      modifies this`tokens
      ensures tokens == Ensured(old(tokens), name, call) && r == EnsureAnswer(old(tokens), name, call, saved)
    {
      var existing := Find(tokens.list, name);
      if call == Fails {
        return Err(APIError);
      }
      if existing.Some? {
        return if call == Fine then Ok(existing.value) else Err(APIError);
      }
      r := if call != Fine then Err(APIError) else if !saved then Err(SaveFailed) else Ok(tokens.nextID);
      tokens := Items(tokens.list + [Item(tokens.nextID, name)], tokens.nextID + 1, tokens.made + {tokens.nextID});
    }

    /** Deleting what is already gone succeeds. */
    method DeleteApplication(id: nat, call: Call) returns (ok: bool)
      modifies this`apps
      ensures apps == if call.Fails? then old(apps) else old(apps).(list := WithoutID(old(apps).list, id))
      ensures ok <==> call.Fine?
    {
      if call != Fails {
        apps := apps.(list := WithoutID(apps.list, id));
      }
      ok := call == Fine;
    }

    method DeleteServiceToken(id: nat, call: Call) returns (ok: bool)
      modifies this`tokens
      ensures tokens == if call.Fails? then old(tokens) else old(tokens).(list := WithoutID(old(tokens).list, id))
      ensures ok <==> call.Fine?
    {
      if call != Fails {
        tokens := tokens.(list := WithoutID(tokens.list, id));
      }
      ok := call == Fine;
    }
  }

  /** The search loop of the client. */
  method Find(items: seq<Item>, name: Name) returns (r: Option<nat>)
    ensures r == Holder(items, name)
  {
    for i := 0 to |items|
      invariant Holder(items, name) == Holder(items[i..], name)
    {
      if items[i].name == name {
        return Some(items[i].id);
      }
      assert items[i..][1..] == items[i + 1..];
    }
    r := None;
  }

  // ---------------------------------------------------------------- the Kubernetes resource

  /** The part of the spec the lifecycle depends on; the orphan flag is the deletion-policy annotation. */
  datatype Spec = Spec(appName: Name, tokens: seq<Name>, orphan: bool)

  datatype Resource = Resource(spec: Spec, finalizer: bool, deleting: bool, status: Status)

  /** A resource being deleted goes with its finalizer. */
  function Patched(o: Resource, present: bool, up: bool): Option<Resource> {
    if !up then Some(o) else if !present && o.deleting then None else Some(o.(finalizer := present))
  }

  function WithStatus(o: Resource, s: Status, getUp: bool, writeUp: bool): Resource {
    if !getUp || Visible(o.status) == Visible(s) || !writeUp then o else o.(status := s)
  }

  class KubeAPI {
    var resource: Option<Resource>

    constructor ()
      ensures resource == None
    {
      resource := None;
    }

    method PatchFinalizer(present: bool, up: bool) returns (ok: bool)
      requires resource.Some?
      modifies this
      ensures ok == up && resource == Patched(old(resource).value, present, up)
    {
      if up {
        resource := if !present && resource.value.deleting then None else Some(resource.value.(finalizer := present));
      }
      ok := up;
    }

    /** updateStatus: fetch again, skip if nothing visible changed, otherwise replace the status. */
    method UpdateStatus(status: Status, getUp: bool, writeUp: bool) returns (ok: bool)
      requires resource.Some?
      modifies this
      ensures resource == Some(WithStatus(old(resource).value, status, getUp, writeUp))
      ensures ok <==> getUp && (writeUp || Visible(old(resource).value.status) == Visible(status))
    {
      if !getUp {
        return false;
      }
      var same := AccessPolicyStatusEqual(resource.value.status, status);
      if same {
        return true;
      }
      if !writeUp {
        return false;
      }
      resource := Some(resource.value.(status := status));
      ok := true;
    }
  }

  // ---------------------------------------------------------------- one reconcile, as a function of its surroundings

  /** What one reconcile meets: everything it reads from outside and how its calls go. */
  datatype Pass = Pass(
    getUp: bool,                      // fetching the resource
    credentials: bool,                // credentials resolve
    kindsSupported: bool,             // all target kinds have their CRD
    failedTargets: nat,
    resolvedTargets: nat,
    grantsAllow: bool,                // ReferenceGrant check, true if not needed
    domainKnown: bool,                // from the spec or a hostname of a target
    app: Call,
    appAUD: string,
    policiesSynced: bool,
    token: Name -> Call,              // EnsureServiceToken, per token name
    saved: Name -> bool,              // storing the credentials, per token name
    statusGetUp: bool,
    statusWriteUp: bool,
    patchUp: bool,
    deleteApp: Call,
    deleteToken: Name -> Call,
    conditions: seq<StatusCondition>, // the conditions this reconcile ends with
    ancestors: seq<Ancestor>,
    generation: int)

  /** Persisted resource and remote objects together. */
  datatype World = World(resource: Option<Resource>, apps: Items, tokens: Items)

  function TokenIDs(s: Status): map<Name, nat> {
    if s.tokenIDs.None? then map[] else s.tokenIDs.value
  }

  /** ensureServiceTokens: in order, recording each ID, up to the first error. */
  function TokensEnsured(it: Items, ids: map<Name, nat>, names: seq<Name>, p: Pass): (Items, map<Name, nat>)
    decreases |names|
  {
    if names == [] then (it, ids)
    else
      var answer := EnsureAnswer(it, names[0], p.token(names[0]), p.saved(names[0]));
      var it' := Ensured(it, names[0], p.token(names[0]));
      if answer.Err? then (it', ids) else TokensEnsured(it', ids[names[0] := answer.value], names[1..], p)
  }

  /** The status as persisted by updateStatus. */
  function Saved(w: World, s: Status, p: Pass): World
    requires w.resource.Some?
  {
    w.(resource := Some(WithStatus(w.resource.value, s.(conditions := p.conditions), p.statusGetUp, p.statusWriteUp)))
  }

  /** The checks before anything is written to Cloudflare. */
  predicate Admitted(p: Pass) {
    p.credentials && p.kindsSupported && !(p.failedTargets > 0 && p.resolvedTargets == 0) && p.grantsAllow && p.domainKnown
  }

  /** reconcilePhases. */
  function Phases(w: World, p: Pass): World
    requires w.resource.Some?
  {
    var o := w.resource.value;
    if !Admitted(p) then Saved(w, o.status, p)
    else
      var app := EnsureAnswer(w.apps, o.spec.appName, p.app, true);
      var w1 := w.(apps := Ensured(w.apps, o.spec.appName, p.app));
      if app.Err? then Saved(w1, o.status, p)
      else
        var s1 := o.status.(applicationID := Some(app.value), applicationAUD := p.appAUD);
        if !p.policiesSynced then Saved(w1, s1, p)
        else
          var (tokens, ids) := TokensEnsured(w.tokens, TokenIDs(s1), o.spec.tokens, p);
          var s2 := if o.spec.tokens == [] then s1 else s1.(tokenIDs := Some(ids));
          Saved(w1.(tokens := tokens),
                s2.(attachedTargets := p.resolvedTargets, observedGeneration := p.generation, ancestors := p.ancestors), p)
  }

  /** The tokens left after deleting those recorded under `names`, in any order. */
  function TokensRevoked(list: seq<Item>, ids: map<Name, nat>, names: set<Name>, p: Pass): seq<Item> {
    if list == [] then []
    else (if Revoked(list[0].id, ids, names, p) then [] else [list[0]]) + TokensRevoked(list[1..], ids, names, p)
  }

  predicate Revoked(id: nat, ids: map<Name, nat>, names: set<Name>, p: Pass) {
    exists n :: n in ids && n in names && ids[n] == id && !p.deleteToken(n).Fails?
  }

  /** reconcileDelete: failed deletions are logged and do not keep the finalizer. */
  function Deleted(w: World, p: Pass): World
    requires w.resource.Some?
  {
    var o := w.resource.value;
    if !o.finalizer then w
    else if o.spec.orphan || !p.credentials then w.(resource := Patched(o, false, p.patchUp))
    else
      var apps := if o.status.applicationID.Some? && !p.deleteApp.Fails?
                  then w.apps.(list := WithoutID(w.apps.list, o.status.applicationID.value)) else w.apps;
      var ids := TokenIDs(o.status);
      World(Patched(o, false, p.patchUp), apps, w.tokens.(list := TokensRevoked(w.tokens.list, ids, ids.Keys, p)))
  }

  /** Reconcile. */
  function Reconciled(w: World, p: Pass): World {
    if !p.getUp || w.resource.None? then w
    else if w.resource.value.deleting then Deleted(w, p)
    else if !w.resource.value.finalizer then w.(resource := Patched(w.resource.value, true, p.patchUp))
    else Phases(w, p)
  }

  // ---------------------------------------------------------------- the reconciler

  lemma RevokedStep(id: nat, ids: map<Name, nat>, names: set<Name>, n: Name, p: Pass)
    requires n in ids && n !in names
    ensures Revoked(id, ids, names + {n}, p) <==> Revoked(id, ids, names, p) || (ids[n] == id && !p.deleteToken(n).Fails?)
  {
    assert n in names + {n};
    if m :| m in ids && m in names && ids[m] == id && !p.deleteToken(m).Fails? {
      assert m in names + {n};
    }
  }

  lemma {:induction false} RevokeStep(list: seq<Item>, ids: map<Name, nat>, names: set<Name>, n: Name, p: Pass)
    requires n in ids && n !in names
    ensures TokensRevoked(list, ids, names + {n}, p) ==
            if p.deleteToken(n).Fails? then TokensRevoked(list, ids, names, p)
            else WithoutID(TokensRevoked(list, ids, names, p), ids[n])
  {
    if list != [] {
      RevokeStep(list[1..], ids, names, n, p);
      RevokedStep(list[0].id, ids, names, n, p);
      var rest := TokensRevoked(list[1..], ids, names, p);
      if Revoked(list[0].id, ids, names, p) {
        assert TokensRevoked(list, ids, names, p) == rest;
      } else {
        assert TokensRevoked(list, ids, names, p) == [list[0]] + rest;
        assert ([list[0]] + rest)[1..] == rest;
      }
    }
  }

  lemma {:induction false} RevokeNothing(list: seq<Item>, ids: map<Name, nat>, p: Pass)
    ensures TokensRevoked(list, ids, {}, p) == list
  {
    if list != [] { RevokeNothing(list[1..], ids, p); }
  }

  class AccessPolicyReconciler {
    const cf: Cloudflare
    const kube: KubeAPI

    constructor (cf: Cloudflare, kube: KubeAPI)
      ensures this.cf == cf && this.kube == kube
    {
      this.cf, this.kube := cf, kube;
    }

    ghost function Snapshot(): World
      reads cf, kube
    {
      World(kube.resource, cf.apps, cf.tokens)
    }

    method Reconcile(p: Pass)
      modifies cf, kube
      ensures Snapshot() == Reconciled(old(Snapshot()), p)
    {
      if !p.getUp || kube.resource.None? {
        return;
      }
      var policy := kube.resource.value;
      if policy.deleting {
        ReconcileDelete(p);
        return;
      }
      if !policy.finalizer {
        var ok := kube.PatchFinalizer(true, p.patchUp);
        return;
      }
      ReconcilePhases(p);
    }

    method ReconcilePhases(p: Pass)
      requires kube.resource.Some?
      modifies cf, kube
      ensures Snapshot() == Phases(old(Snapshot()), p)
    {
      var spec, status := kube.resource.value.spec, kube.resource.value.status;
      if !p.credentials || !p.kindsSupported || (p.failedTargets > 0 && p.resolvedTargets == 0) || !p.grantsAllow || !p.domainKnown {
        var ok := kube.UpdateStatus(status.(conditions := p.conditions), p.statusGetUp, p.statusWriteUp);
        return;
      }
      var app := cf.EnsureApplication(spec.appName, p.app);
      if app.Err? {
        var ok := kube.UpdateStatus(status.(conditions := p.conditions), p.statusGetUp, p.statusWriteUp);
        return;
      }
      status := status.(applicationID := Some(app.value), applicationAUD := p.appAUD);
      if !p.policiesSynced {
        var ok := kube.UpdateStatus(status.(conditions := p.conditions), p.statusGetUp, p.statusWriteUp);
        return;
      }
      if |spec.tokens| > 0 {
        var ids := EnsureServiceTokens(TokenIDs(status), spec.tokens, p);
        status := status.(tokenIDs := Some(ids));
      }
      status := status.(attachedTargets := p.resolvedTargets, observedGeneration := p.generation, ancestors := p.ancestors);
      var ok := kube.UpdateStatus(status.(conditions := p.conditions), p.statusGetUp, p.statusWriteUp);
    }

    method EnsureServiceTokens(ids0: map<Name, nat>, names: seq<Name>, p: Pass) returns (ids: map<Name, nat>)
      modifies cf`tokens
      ensures (cf.tokens, ids) == TokensEnsured(old(cf.tokens), ids0, names, p)
    {
      ids := ids0;
      for i := 0 to |names|
        invariant TokensEnsured(cf.tokens, ids, names[i..], p) == TokensEnsured(old(cf.tokens), ids0, names, p)
      {
        var token := cf.EnsureServiceToken(names[i], p.token(names[i]), p.saved(names[i]));
        assert names[i..][1..] == names[i + 1..];
        if token.Err? {
          return;
        }
        ids := ids[names[i] := token.value];
      }
    }

    method ReconcileDelete(p: Pass)
      requires kube.resource.Some?
      modifies cf, kube
      ensures Snapshot() == Deleted(old(Snapshot()), p)
    {
      var policy := kube.resource.value;
      if !policy.finalizer {
        return;
      }
      if policy.spec.orphan || !p.credentials {
        var ok := kube.PatchFinalizer(false, p.patchUp);
        return;
      }
      if policy.status.applicationID.Some? {
        var ok := cf.DeleteApplication(policy.status.applicationID.value, p.deleteApp);
      }
      RevokeTokens(TokenIDs(policy.status), p);
      var ok := kube.PatchFinalizer(false, p.patchUp);
    }

    /** The loop over the status map, in whatever order. */
    method RevokeTokens(ids: map<Name, nat>, p: Pass)
      modifies cf`tokens
      ensures cf.tokens == old(cf.tokens).(list := TokensRevoked(old(cf.tokens).list, ids, ids.Keys, p))
    {
      var todo := ids.Keys;
      ghost var done: set<Name> := {};
      RevokeNothing(cf.tokens.list, ids, p);
      while todo != {}
        invariant todo <= ids.Keys && done == ids.Keys - todo
        invariant cf.tokens == old(cf.tokens).(list := TokensRevoked(old(cf.tokens).list, ids, done, p))
      {
        var name :| name in todo;
        RevokeStep(old(cf.tokens).list, ids, done, name, p);
        var ok := cf.DeleteServiceToken(ids[name], p.deleteToken(name));
        todo, done := todo - {name}, done + {name};
      }
      assert done == ids.Keys;
    }
  }
}
