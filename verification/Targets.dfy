/**
 * Which policies a change concerns: ReferenceGrant checks against the watch that reacts to grants, and
 * the target index against a scan (internal/controller/cloudflareaccesspolicy_controller.go).
 */
module Targets {
  import opened GoTypes
  import opened Text

  datatype TargetRef = TargetRef(kind: string, name: string, namespace: Option<string>)

  datatype Policy = Policy(namespace: string, name: string, targetRef: Option<TargetRef>, targetRefs: seq<TargetRef>)

  datatype Request = Request(namespace: string, name: string)

  /** targetRef first, then targetRefs. */
  function Refs(p: Policy): seq<TargetRef> {
    (if p.targetRef.Some? then [p.targetRef.value] else []) + p.targetRefs
  }

  function RequestFor(p: Policy): Request {
    Request(p.namespace, p.name)
  }

  /** The namespace a target is resolved in: an absent or an empty one means the policy's own. */
  function ResolvedNamespace(p: Policy, ref: TargetRef): string {
    if ref.namespace.Some? && ref.namespace.value != "" then ref.namespace.value else p.namespace
  }

  // ---------------------------------------------------------------- reference grants

  datatype GrantFrom = GrantFrom(group: string, kind: string, namespace: string)
  datatype GrantTo = GrantTo(group: string, kind: string)
  datatype Grant = Grant(namespace: string, from: seq<GrantFrom>, to: seq<GrantTo>)

  predicate FromMatches(f: GrantFrom, fromNamespace: string) {
    f.group == "cfgate.io" && f.kind == "CloudflareAccessPolicy" && f.namespace == fromNamespace
  }

  predicate ToMatches(t: GrantTo, targetKind: string) {
    t.group == "gateway.networking.k8s.io" && t.kind == targetKind
  }

  predicate Permits(g: Grant, fromNamespace: string, targetKind: string) {
    && (exists i :: 0 <= i < |g.from| && FromMatches(g.from[i], fromNamespace))
    && (exists j :: 0 <= j < |g.to| && ToMatches(g.to[j], targetKind))
  }

  method GrantPermitsAccess(g: Grant, fromNamespace: string, targetKind: string) returns (ok: bool)
    ensures ok <==> Permits(g, fromNamespace, targetKind)
  {
    for i := 0 to |g.from|
      invariant forall k :: 0 <= k < i && FromMatches(g.from[k], fromNamespace) ==>
                  forall j :: 0 <= j < |g.to| ==> !ToMatches(g.to[j], targetKind)
    {
      var from := g.from[i];
      if from.group != "cfgate.io" || from.kind != "CloudflareAccessPolicy" || from.namespace != fromNamespace {
        continue;
      }
      for j := 0 to |g.to|
        invariant forall k :: 0 <= k < j ==> !ToMatches(g.to[k], targetKind)
      {
        if g.to[j].group == "gateway.networking.k8s.io" && g.to[j].kind == targetKind {
          assert FromMatches(from, fromNamespace) && ToMatches(g.to[j], targetKind);
          return true;
        }
      }
    }
    ok := false;
  }

  /** The cluster's grants by namespace; listing a namespace outside `reachable` fails. */
  datatype Grants = Grants(byNamespace: map<string, seq<Grant>>, reachable: iset<string>)

  function ListGrants(gs: Grants, ns: string): seq<Grant> {
    if ns in gs.byNamespace then gs.byNamespace[ns] else []
  }

  /** One target is fine: it is in the policy's namespace, or some grant there permits it. */
  predicate TargetAllowed(p: Policy, ref: TargetRef, gs: Grants) {
    var ns := ResolvedNamespace(p, ref);
    ns == p.namespace ||
    (ns in gs.reachable && exists k :: 0 <= k < |ListGrants(gs, ns)| && Permits(ListGrants(gs, ns)[k], p.namespace, ref.kind))
  }

  predicate Accepted(p: Policy, gs: Grants, supported: bool) {
    supported ==> forall i :: 0 <= i < |Refs(p)| ==> TargetAllowed(p, Refs(p)[i], gs)
  }

  /** The policy names this target. */
  predicate Refers(p: Policy, ref: TargetRef) {
    p.targetRef == Some(ref) || ref in p.targetRefs
  }

  lemma RefsExactly(p: Policy, ref: TargetRef)
    ensures Refers(p, ref) <==> exists i :: 0 <= i < |Refs(p)| && Refs(p)[i] == ref
  {
    if p.targetRef == Some(ref) {
      assert Refs(p)[0] == ref;
    }
    if ref in p.targetRefs {
      var j :| 0 <= j < |p.targetRefs| && p.targetRefs[j] == ref;
      assert Refs(p)[|Refs(p)| - |p.targetRefs| + j] == ref;
    }
  }

  /** Some grant of the namespace names access policies of `from` and targets of the kind. */
  ghost predicate Granted(gs: Grants, namespace: string, from: string, kind: string) {
    namespace in gs.byNamespace &&
    exists g: Grant :: g in gs.byNamespace[namespace] && GrantFrom("cfgate.io", "CloudflareAccessPolicy", from) in g.from &&
                       GrantTo("gateway.networking.k8s.io", kind) in g.to
  }

  lemma GrantedExactly(gs: Grants, namespace: string, from: string, kind: string)
    ensures Granted(gs, namespace, from, kind) <==>
            exists k :: 0 <= k < |ListGrants(gs, namespace)| && Permits(ListGrants(gs, namespace)[k], from, kind)
  {
    if Granted(gs, namespace, from, kind) {
      var g :| g in gs.byNamespace[namespace] && GrantFrom("cfgate.io", "CloudflareAccessPolicy", from) in g.from &&
               GrantTo("gateway.networking.k8s.io", kind) in g.to;
      var k :| 0 <= k < |ListGrants(gs, namespace)| && ListGrants(gs, namespace)[k] == g;
      var i :| 0 <= i < |g.from| && g.from[i] == GrantFrom("cfgate.io", "CloudflareAccessPolicy", from);
      var j :| 0 <= j < |g.to| && g.to[j] == GrantTo("gateway.networking.k8s.io", kind);
      assert FromMatches(g.from[i], from) && ToMatches(g.to[j], kind);
      assert Permits(ListGrants(gs, namespace)[k], from, kind);
    }
    if k :| 0 <= k < |ListGrants(gs, namespace)| && Permits(ListGrants(gs, namespace)[k], from, kind) {
      var g := ListGrants(gs, namespace)[k];
      var i :| 0 <= i < |g.from| && FromMatches(g.from[i], from);
      var j :| 0 <= j < |g.to| && ToMatches(g.to[j], kind);
      assert g.from[i] == GrantFrom("cfgate.io", "CloudflareAccessPolicy", from) && g.to[j] == GrantTo("gateway.networking.k8s.io", kind);
      assert g in gs.byNamespace[namespace];
    }
  }

  /** A target in another namespace, the one the grants of which are asked. */
  predicate CrossNamespace(p: Policy, ref: TargetRef) {
    ref.namespace.Some? && ref.namespace.value != "" && ref.namespace.value != p.namespace
  }

  /**
   * Acceptance, on the fields of references and grants: each target elsewhere is granted there, and the
   * grants there can be listed. A cluster without ReferenceGrants accepts everything.
   */
  lemma AcceptedExactly(p: Policy, gs: Grants)
    ensures Accepted(p, gs, false)
    ensures Accepted(p, gs, true) <==>
            forall ref :: Refers(p, ref) && CrossNamespace(p, ref) ==>
              ref.namespace.value in gs.reachable && Granted(gs, ref.namespace.value, p.namespace, ref.kind)
  {
    forall ref: TargetRef
      ensures Refers(p, ref) <==> exists i :: 0 <= i < |Refs(p)| && Refs(p)[i] == ref
      ensures TargetAllowed(p, ref, gs) <==>
              (CrossNamespace(p, ref) ==> ref.namespace.value in gs.reachable && Granted(gs, ref.namespace.value, p.namespace, ref.kind))
    {
      RefsExactly(p, ref);
      GrantedExactly(gs, ResolvedNamespace(p, ref), p.namespace, ref.kind);
    }
    if Accepted(p, gs, true) {
      forall ref | Refers(p, ref) && CrossNamespace(p, ref)
        ensures ref.namespace.value in gs.reachable && Granted(gs, ref.namespace.value, p.namespace, ref.kind)
      {
        var i :| 0 <= i < |Refs(p)| && Refs(p)[i] == ref;
        assert TargetAllowed(p, ref, gs);
      }
    }
    forall i | 0 <= i < |Refs(p)| ensures Refers(p, Refs(p)[i]) {}
  }

  datatype GrantError = ListingFailed(namespace: string) | NotPermitted(namespace: string, name: string)

  /** checkReferenceGrants: no error exactly if every target is allowed; otherwise the first that is not. */
  method CheckReferenceGrants(p: Policy, gs: Grants, supported: bool) returns (r: Option<GrantError>)
    ensures r.None? <==> Accepted(p, gs, supported)
    ensures r.Some? ==> exists i :: 0 <= i < |Refs(p)| && !TargetAllowed(p, Refs(p)[i], gs) &&
                          (forall k :: 0 <= k < i ==> TargetAllowed(p, Refs(p)[k], gs)) &&
                          var ns := ResolvedNamespace(p, Refs(p)[i]);
                          r.value == if ns in gs.reachable then NotPermitted(ns, Refs(p)[i].name) else ListingFailed(ns)
  {
    if !supported {
      return None;
    }
    var targets := Refs(p);
    for i := 0 to |targets|
      invariant forall k :: 0 <= k < i ==> TargetAllowed(p, targets[k], gs)
    {
      var ns := ResolvedNamespace(p, targets[i]);
      if ns == p.namespace {
        continue;
      }
      if ns !in gs.reachable {
        assert !TargetAllowed(p, targets[i], gs);
        return Some(ListingFailed(ns));
      }
      var grants := ListGrants(gs, ns);
      var permitted := false;
      for k := 0 to |grants|
        invariant !permitted && forall j :: 0 <= j < k ==> !Permits(grants[j], p.namespace, targets[i].kind)
      {
        permitted := GrantPermitsAccess(grants[k], p.namespace, targets[i].kind);
        if permitted {
          break;
        }
      }
      if !permitted {
        assert !TargetAllowed(p, targets[i], gs);
        return Some(NotPermitted(ns, targets[i].name));
      }
    }
    r := None;
  }

  /** The watch enqueues a policy that names the grant's namespace in some reference. */
  predicate Concerned(p: Policy, ns: string) {
    exists i :: 0 <= i < |Refs(p)| && Refs(p)[i].namespace == Some(ns)
  }

  function Selected(ps: seq<Policy>, f: Policy -> bool): seq<Request> {
    FilterMap(p => if f(p) then Some(RequestFor(p)) else None, ps)
  }

  lemma ConcernedExactly(p: Policy, ns: string)
    ensures Concerned(p, ns) <==> exists ref :: Refers(p, ref) && ref.namespace == Some(ns)
  {
    if i :| 0 <= i < |Refs(p)| && Refs(p)[i].namespace == Some(ns) {
      assert Refers(p, Refs(p)[i]);
    }
    if ref :| Refers(p, ref) && ref.namespace == Some(ns) {
      RefsExactly(p, ref);
    }
  }

  /** findPoliciesForReferenceGrant: each concerned policy once, in the order listed. */
  method FindPoliciesForReferenceGrant(ps: seq<Policy>, grantNamespace: string) returns (requests: seq<Request>)
    ensures requests == Selected(ps, p => Concerned(p, grantNamespace))
  {
    ghost var f := p => if Concerned(p, grantNamespace) then Some(RequestFor(p)) else None;
    requests := [];
    for i := 0 to |ps|
      invariant requests == FilterMap(f, ps[..i])
    {
      FilterMapStep(f, ps, i);
      var refs := Refs(ps[i]);
      var hit := false;
      for j := 0 to |refs|
        invariant !hit && forall k :: 0 <= k < j ==> refs[k].namespace != Some(grantNamespace)
      {
        if refs[j].namespace == Some(grantNamespace) {
          hit := true;
          break;
        }
      }
      assert hit <==> Concerned(ps[i], grantNamespace);
      if hit {
        requests := requests + [RequestFor(ps[i])];
      }
    }
    assert ps[..|ps|] == ps;
    FilterMapSame(f, p => if (q => Concerned(q, grantNamespace))(p) then Some(RequestFor(p)) else None, ps);
  }

  lemma {:induction false} FilterMapSame<A, B>(f: A -> Option<B>, g: A -> Option<B>, xs: seq<A>)
    requires forall x :: x in xs ==> f(x) == g(x)
    ensures FilterMap(f, xs) == FilterMap(g, xs)
  {
    if xs != [] { FilterMapSame(f, g, xs[1..]); }
  }

  lemma {:induction false} SelectedHas(ps: seq<Policy>, f: Policy -> bool, p: Policy)
    requires p in ps && f(p)
    ensures RequestFor(p) in Selected(ps, f)
  {
    if ps[0] != p {
      SelectedHas(ps[1..], f, p);
    }
  }

  /** The requests are the namespaces and names of the policies selected, and no others. */
  lemma {:induction false} SelectedExactly(ps: seq<Policy>, f: Policy -> bool, r: Request)
    ensures r in Selected(ps, f) <==> exists p :: p in ps && f(p) && r.namespace == p.namespace && r.name == p.name
  {
    if ps != [] {
      SelectedExactly(ps[1..], f, r);
      assert ps == [ps[0]] + ps[1..];
    }
  }

  /** The two clusters have the same grants, and the same listing failures, outside namespace `ns`. */
  ghost predicate DifferOnlyIn(a: Grants, b: Grants, ns: string) {
    forall m :: m != ns ==> ListGrants(a, m) == ListGrants(b, m) && (m in a.reachable <==> m in b.reachable)
  }

  /** Only a reference that names another namespace explicitly can depend on the grants there. */
  lemma TargetDepends(p: Policy, ref: TargetRef, a: Grants, b: Grants, ns: string)
    requires DifferOnlyIn(a, b, ns) && TargetAllowed(p, ref, a) != TargetAllowed(p, ref, b)
    ensures ref.namespace == Some(ns) && ns != p.namespace
  {
  }

  /**
   * Completeness of the watch: if a change of the grants in one namespace turns a policy from accepted
   * to rejected or back, the watch for a grant in that namespace enqueues that policy.
   */
  lemma GrantWatchComplete(ps: seq<Policy>, p: Policy, a: Grants, b: Grants, ns: string, supported: bool)
    requires p in ps && DifferOnlyIn(a, b, ns) && Accepted(p, a, supported) && !Accepted(p, b, supported)
    ensures RequestFor(p) in Selected(ps, q => Concerned(q, ns))
  {
    var i :| 0 <= i < |Refs(p)| && !TargetAllowed(p, Refs(p)[i], b);
    assert TargetAllowed(p, Refs(p)[i], a);
    TargetDepends(p, Refs(p)[i], a, b, ns);
    assert Concerned(p, ns);
    SelectedHas(ps, q => Concerned(q, ns), p);
  }

  /**
   * And it is not idle: a policy with one reference, into another namespace, is accepted or rejected by
   * the grants there alone.
   */
  lemma GrantDecides(p: Policy, a: Grants, ns: string)
    requires |Refs(p)| == 1 && Refs(p)[0].namespace == Some(ns) && ns != "" && ns != p.namespace && ns in a.reachable
    ensures exists g, h :: DifferOnlyIn(g, h, ns) && Accepted(p, g, true) && !Accepted(p, h, true)
  {
    var grant := Grant(ns, [GrantFrom("cfgate.io", "CloudflareAccessPolicy", p.namespace)],
                       [GrantTo("gateway.networking.k8s.io", Refs(p)[0].kind)]);
    var g, h := a.(byNamespace := a.byNamespace[ns := [grant]]), a.(byNamespace := a.byNamespace[ns := []]);
    assert FromMatches(grant.from[0], p.namespace) && ToMatches(grant.to[0], Refs(p)[0].kind);
    assert Permits(ListGrants(g, ns)[0], p.namespace, Refs(p)[0].kind);
    assert !TargetAllowed(p, Refs(p)[0], h);
    assert DifferOnlyIn(g, h, ns) && Accepted(p, g, true) && !Accepted(p, h, true);
  }

  // ---------------------------------------------------------------- the target index

  function TargetKey(kind: string, namespace: string, name: string): string {
    kind + "/" + namespace + "/" + name
  }

  lemma TargetKeyInjective(kind: string, ns: string, name: string, kind': string, ns': string, name': string)
    requires Free(kind, '/') && Free(kind', '/') && Free(ns, '/') && Free(ns', '/')
    requires TargetKey(kind, ns, name) == TargetKey(kind', ns', name')
    ensures kind == kind' && ns == ns' && name == name'
  {
    assert TargetKey(kind, ns, name) == kind + ['/'] + (ns + ['/'] + name);
    assert TargetKey(kind', ns', name') == kind' + ['/'] + (ns' + ['/'] + name');
    JoinInjective(kind, kind', '/', ns + ['/'] + name, ns' + ['/'] + name');
    JoinInjective(ns, ns', '/', name, name');
  }

  /** The namespace the index uses: only an absent one means the policy's own. */
  function IndexedNamespace(p: Policy, ref: TargetRef): string {
    if ref.namespace.Some? then ref.namespace.value else p.namespace
  }

  function IndexKey(p: Policy, ref: TargetRef): string {
    TargetKey(ref.kind, IndexedNamespace(p, ref), ref.name)
  }

  /** accessPolicyTargetIndexFunc. */
  method TargetIndexKeys(p: Policy) returns (keys: seq<string>)
    ensures |keys| == |Refs(p)| && forall i :: 0 <= i < |keys| ==> keys[i] == IndexKey(p, Refs(p)[i])
  {
    keys := [];
    var refs := Refs(p);
    for i := 0 to |refs|
      invariant |keys| == i && forall k :: 0 <= k < i ==> keys[k] == IndexKey(p, refs[k])
    {
      var ns := p.namespace;
      if refs[i].namespace.Some? {
        ns := refs[i].namespace.value;
      }
      keys := keys + [TargetKey(refs[i].kind, ns, refs[i].name)];
    }
  }

  /** The field index: a policy is found under each of its keys. */
  predicate Indexed(p: Policy, key: string) {
    exists i :: 0 <= i < |Refs(p)| && IndexKey(p, Refs(p)[i]) == key
  }

  /** findPoliciesForTarget, from the index. */
  function FindPoliciesForTarget(ps: seq<Policy>, kind: string, namespace: string, name: string): seq<Request> {
    Selected(ps, p => Indexed(p, TargetKey(kind, namespace, name)))
  }

  /** A scan: some reference has that kind, namespace and name, under a given reading of namespaces. */
  predicate Targets(p: Policy, nsOf: (Policy, TargetRef) -> string, kind: string, namespace: string, name: string) {
    exists i :: 0 <= i < |Refs(p)| && IsTarget(p, Refs(p)[i], nsOf, kind, namespace, name)
  }

  predicate IsTarget(p: Policy, ref: TargetRef, nsOf: (Policy, TargetRef) -> string, kind: string, namespace: string, name: string) {
    ref.kind == kind && nsOf(p, ref) == namespace && ref.name == name
  }

  /** Kinds and namespaces have no slash. */
  predicate Plain(p: Policy) {
    Free(p.namespace, '/') &&
    forall i :: 0 <= i < |Refs(p)| ==> Free(Refs(p)[i].kind, '/') && Free(IndexedNamespace(p, Refs(p)[i]), '/')
  }

  lemma IndexedExactly(p: Policy, kind: string, namespace: string, name: string)
    requires Plain(p) && Free(kind, '/') && Free(namespace, '/')
    ensures Indexed(p, TargetKey(kind, namespace, name)) <==> Targets(p, IndexedNamespace, kind, namespace, name)
  {
    if i :| 0 <= i < |Refs(p)| && IndexKey(p, Refs(p)[i]) == TargetKey(kind, namespace, name) {
      var ref := Refs(p)[i];
      TargetKeyInjective(ref.kind, IndexedNamespace(p, ref), ref.name, kind, namespace, name);
      assert IsTarget(p, ref, IndexedNamespace, kind, namespace, name);
    }
    if i :| 0 <= i < |Refs(p)| && IsTarget(p, Refs(p)[i], IndexedNamespace, kind, namespace, name) {
      assert IndexKey(p, Refs(p)[i]) == TargetKey(kind, namespace, name);
    }
  }

  /** The index finds a policy by a target, on the fields of its references. */
  lemma IndexFinds(p: Policy, kind: string, namespace: string, name: string)
    requires Plain(p) && Free(kind, '/') && Free(namespace, '/')
    ensures Indexed(p, TargetKey(kind, namespace, name)) <==>
            exists ref :: Refers(p, ref) && ref.kind == kind && ref.name == name &&
                          (ref.namespace == Some(namespace) || (ref.namespace == None && p.namespace == namespace))
  {
    IndexedExactly(p, kind, namespace, name);
    if i :| 0 <= i < |Refs(p)| && IsTarget(p, Refs(p)[i], IndexedNamespace, kind, namespace, name) {
      assert Refers(p, Refs(p)[i]);
    }
    if ref :| Refers(p, ref) && ref.kind == kind && ref.name == name &&
              (ref.namespace == Some(namespace) || (ref.namespace == None && p.namespace == namespace)) {
      RefsExactly(p, ref);
      var i :| 0 <= i < |Refs(p)| && Refs(p)[i] == ref;
      assert IsTarget(p, Refs(p)[i], IndexedNamespace, kind, namespace, name);
    }
  }

  /** Looking up the index gives what scanning all policies would, in the same order. */
  lemma {:induction false} IndexIsScan(ps: seq<Policy>, kind: string, namespace: string, name: string)
    requires Free(kind, '/') && Free(namespace, '/') && forall i :: 0 <= i < |ps| ==> Plain(ps[i])
    ensures FindPoliciesForTarget(ps, kind, namespace, name) ==
            Selected(ps, p => Targets(p, IndexedNamespace, kind, namespace, name))
  {
    forall p | p in ps
      ensures Indexed(p, TargetKey(kind, namespace, name)) <==> Targets(p, IndexedNamespace, kind, namespace, name)
    {
      IndexedExactly(p, kind, namespace, name);
    }
    FilterMapSame(p => if (q => Indexed(q, TargetKey(kind, namespace, name)))(p) then Some(RequestFor(p)) else None,
                  p => if (q => Targets(q, IndexedNamespace, kind, namespace, name))(p) then Some(RequestFor(p)) else None, ps);
  }

  /** An explicitly empty namespace is the one case where index and resolver disagree. */
  predicate Covered(p: Policy) {
    forall i :: 0 <= i < |Refs(p)| && Refs(p)[i].namespace == Some("") ==>
      Targets(p, IndexedNamespace, Refs(p)[i].kind, p.namespace, Refs(p)[i].name)
  }

  lemma CoveredIsIndexed(p: Policy, kind: string, namespace: string, name: string)
    requires p.namespace != "" && Plain(p) && Covered(p)
    requires Free(kind, '/') && Free(namespace, '/') && Targets(p, ResolvedNamespace, kind, namespace, name)
    ensures Indexed(p, TargetKey(kind, namespace, name))
  {
    var i :| 0 <= i < |Refs(p)| && IsTarget(p, Refs(p)[i], ResolvedNamespace, kind, namespace, name);
    if Refs(p)[i].namespace != Some("") {
      assert IsTarget(p, Refs(p)[i], IndexedNamespace, kind, namespace, name);
    }
    IndexedExactly(p, kind, namespace, name);
  }

  lemma UncoveredIsMissed(p: Policy, i: nat)
    requires p.namespace != "" && Plain(p) && i < |Refs(p)| && Refs(p)[i].namespace == Some("")
    requires !Targets(p, IndexedNamespace, Refs(p)[i].kind, p.namespace, Refs(p)[i].name)
    ensures Free(Refs(p)[i].kind, '/') && Free(p.namespace, '/')
    ensures Targets(p, ResolvedNamespace, Refs(p)[i].kind, p.namespace, Refs(p)[i].name)
    ensures !Indexed(p, TargetKey(Refs(p)[i].kind, p.namespace, Refs(p)[i].name))
  {
    assert IsTarget(p, Refs(p)[i], ResolvedNamespace, Refs(p)[i].kind, p.namespace, Refs(p)[i].name);
    IndexedExactly(p, Refs(p)[i].kind, p.namespace, Refs(p)[i].name);
  }

  /**
   * The index and the resolver read an explicitly empty namespace differently. For a policy in a named
   * namespace the index finds it by every object its references resolve to exactly if none of them has
   * an empty namespace, or has it beside a reference that says the same in full.
   */
  lemma IndexMatchesResolver(p: Policy)
    requires p.namespace != "" && Plain(p)
    ensures (forall kind, namespace, name :: Free(kind, '/') && Free(namespace, '/') && Targets(p, ResolvedNamespace, kind, namespace, name) ==>
               Indexed(p, TargetKey(kind, namespace, name))) <==> Covered(p)
  {
    if Covered(p) {
      forall kind, namespace, name | Free(kind, '/') && Free(namespace, '/') && Targets(p, ResolvedNamespace, kind, namespace, name)
        ensures Indexed(p, TargetKey(kind, namespace, name))
      {
        CoveredIsIndexed(p, kind, namespace, name);
      }
    } else {
      var i :| 0 <= i < |Refs(p)| && Refs(p)[i].namespace == Some("") &&
               !Targets(p, IndexedNamespace, Refs(p)[i].kind, p.namespace, Refs(p)[i].name);
      UncoveredIsMissed(p, i);
    }
  }
}
