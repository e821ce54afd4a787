/**
 * What a reconcile does and refuses, told from the resource, the grants and the fields of the status
 * (internal/controller/cloudflareaccesspolicy_controller.go).
 */
module PolicyAdmission {
  import opened GoTypes
  import opened Reconciler
  import opened ReconcilerRuns
  import Targets

  // ---------------------------------------------------------------- statuses, field by field

  predicate AlikeConditions(a: seq<StatusCondition>, b: seq<StatusCondition>) {
    |a| == |b| &&
    forall i :: 0 <= i < |a| ==>
      a[i].kind == b[i].kind && a[i].status == b[i].status && a[i].reason == b[i].reason && a[i].message == b[i].message
  }

  predicate AlikeAncestors(a: seq<Ancestor>, b: seq<Ancestor>) {
    |a| == |b| &&
    forall i :: 0 <= i < |a| ==>
      a[i].ref == b[i].ref && a[i].controller == b[i].controller && AlikeConditions(a[i].conditions, b[i].conditions)
  }

  predicate AlikeStatus(a: Status, b: Status) {
    && a.applicationID == b.applicationID && a.applicationAUD == b.applicationAUD && a.attachedTargets == b.attachedTargets
    && a.tokenIDs == b.tokenIDs && a.mtlsRuleID == b.mtlsRuleID && a.observedGeneration == b.observedGeneration
    && AlikeConditions(a.conditions, b.conditions) && AlikeAncestors(a.ancestors, b.ancestors)
  }

  lemma ConditionsExactly(a: seq<StatusCondition>, b: seq<StatusCondition>)
    ensures VisibleConditions(a) == VisibleConditions(b) <==> AlikeConditions(a, b)
  {
    if VisibleConditions(a) == VisibleConditions(b) {
      forall i | 0 <= i < |a| ensures VisibleCondition(a[i]) == VisibleCondition(b[i]) {
        assert VisibleConditions(a)[i] == VisibleConditions(b)[i];
      }
    }
  }

  lemma AncestorsExactly(a: seq<Ancestor>, b: seq<Ancestor>)
    ensures VisibleAncestors(a) == VisibleAncestors(b) <==> AlikeAncestors(a, b)
  {
    forall i | 0 <= i < |a| && i < |b|
      ensures VisibleConditions(a[i].conditions) == VisibleConditions(b[i].conditions) <==> AlikeConditions(a[i].conditions, b[i].conditions)
    {
      ConditionsExactly(a[i].conditions, b[i].conditions);
    }
    if VisibleAncestors(a) == VisibleAncestors(b) {
      forall i | 0 <= i < |a|
        ensures a[i].ref == b[i].ref && a[i].controller == b[i].controller && AlikeConditions(a[i].conditions, b[i].conditions)
      {
        assert VisibleAncestors(a)[i] == VisibleAncestors(b)[i];
      }
    }
  }

  /** Two statuses are told apart by everything but when, and for which generation, a condition was set. */
  lemma StatusEqualExactly(a: Status, b: Status)
    ensures Visible(a) == Visible(b) <==> AlikeStatus(a, b)
  {
    ConditionsExactly(a.conditions, b.conditions);
    AncestorsExactly(a.ancestors, b.ancestors);
  }

  // ---------------------------------------------------------------- what keeps a reconcile from acting

  /** Any one of these and it makes nothing at Cloudflare and keeps the recorded IDs. */
  predicate Refused(p: Pass) {
    || !p.credentials
    || !p.kindsSupported
    || (p.failedTargets > 0 && p.resolvedTargets == 0)
    || !p.grantsAllow
    || !p.domainKnown
  }

  lemma RefusedMakesNothing(w: World, p: Pass)
    requires w.resource.Some? && Refused(p)
    ensures var a := Phases(w, p);
            && a.apps == w.apps && a.tokens == w.tokens && a.resource.Some?
            && a.resource.value.status.applicationID == w.resource.value.status.applicationID
            && TokenIDs(a.resource.value.status) == TokenIDs(w.resource.value.status)
            && (p.statusGetUp && p.statusWriteUp ==> AlikeConditions(a.resource.value.status.conditions, p.conditions))
  {
    PhasesParts(w, p);
    StatusEqualExactly(w.resource.value.status, w.resource.value.status.(conditions := p.conditions));
  }

  /** None of them, and the calls work: the application is there, and after the policies so is every wanted token. */
  lemma AdmittedMakes(w: World, p: Pass)
    requires w.resource.Some? && !Refused(p) && Sound(w.apps) && Sound(w.tokens)
    requires p.app == Fine && p.statusGetUp && p.statusWriteUp
    ensures var o := w.resource.value; var a := Phases(w, p);
            && a.resource.Some? && Holder(a.apps.list, o.spec.appName).Some?
            && a.resource.value.status.applicationID == Holder(a.apps.list, o.spec.appName)
            && a.resource.value.status.applicationAUD == p.appAUD
            && (p.policiesSynced && (forall n :: p.token(n) == Fine && p.saved(n)) ==>
                  && (forall n :: n in o.spec.tokens ==>
                        && n in TokenIDs(a.resource.value.status)
                        && Holder(a.tokens.list, n) == Some(TokenIDs(a.resource.value.status)[n]))
                  && a.resource.value.status.attachedTargets == p.resolvedTargets
                  && a.resource.value.status.observedGeneration == p.generation
                  && AlikeAncestors(a.resource.value.status.ancestors, p.ancestors))
  {
    PhasesParts(w, p);
    EnsuredSound(w.apps, w.resource.value.spec.appName, Fine);
    HolderSnoc(w.apps.list, Item(w.apps.nextID, w.resource.value.spec.appName), w.resource.value.spec.appName);
    if p.policiesSynced && forall n :: p.token(n) == Fine && p.saved(n) {
      forall n | n in w.resource.value.spec.tokens
        ensures n in TokenIDs(Phases(w, p).resource.value.status)
        ensures Holder(Phases(w, p).tokens.list, n) == Some(TokenIDs(Phases(w, p).resource.value.status)[n])
      {
        GoodPassRecordsAll(w, p, n);
      }
      FullPassStatus(w, p);
    }
    AUDWritten(w, p);
  }

  lemma AUDWritten(w: World, p: Pass)
    requires w.resource.Some? && !Refused(p) && p.app == Fine && p.statusGetUp && p.statusWriteUp
    ensures Phases(w, p).resource.Some? && Phases(w, p).resource.value.status.applicationAUD == p.appAUD
  {
    PhasesParts(w, p);
  }

  lemma FullPassStatus(w: World, p: Pass)
    requires w.resource.Some? && !Refused(p) && p.app == Fine && p.policiesSynced && p.statusGetUp && p.statusWriteUp
    ensures var a := Phases(w, p);
            && a.resource.Some? && a.resource.value.status.attachedTargets == p.resolvedTargets
            && a.resource.value.status.observedGeneration == p.generation && AlikeAncestors(a.resource.value.status.ancestors, p.ancestors)
  {
  }

  /** A target elsewhere that no grant there permits: nothing is made, whatever else works. */
  lemma UngrantedMakesNothing(w: World, p: Pass, policy: Targets.Policy, gs: Targets.Grants, ref: Targets.TargetRef)
    requires w.resource.Some? && p.grantsAllow == Targets.Accepted(policy, gs, true)
    requires Targets.Refers(policy, ref) && Targets.CrossNamespace(policy, ref)
    requires !Targets.Granted(gs, ref.namespace.value, policy.namespace, ref.kind)
    ensures var a := Phases(w, p); a.apps == w.apps && a.tokens == w.tokens
  {
    Targets.AcceptedExactly(policy, gs);
    RefusedMakesNothing(w, p);
  }

  // ---------------------------------------------------------------- progress

  /** A live policy first gets its finalizer, and nothing is made before it has. */
  lemma FinalizerFirst(w: World, p: Pass)
    requires w.resource.Some? && !w.resource.value.deleting && !w.resource.value.finalizer && p.getUp
    ensures Reconciled(w, p) == if p.patchUp then w.(resource := Some(w.resource.value.(finalizer := true))) else w
  {
  }

  /** Two reconciles that work take a new policy to a recorded application and recorded tokens, behind the finalizer. */
  lemma TwoReconciles(w: World, first: Pass, second: Pass)
    requires Recorded(w) && w.resource.Some? && !w.resource.value.deleting && !w.resource.value.finalizer
    requires first.getUp && first.patchUp && second.getUp
    requires !Refused(second) && second.app == Fine && second.policiesSynced && second.statusGetUp && second.statusWriteUp
    requires forall n :: second.token(n) == Fine && second.saved(n)
    ensures var a := Reconciled(Reconciled(w, first), second); var o := w.resource.value;
            && a.resource.Some? && a.resource.value.finalizer && Recorded(a)
            && a.resource.value.status.applicationID.Some?
            && Holder(a.apps.list, o.spec.appName) == a.resource.value.status.applicationID
            && forall n :: n in o.spec.tokens ==> Holder(a.tokens.list, n).Some? && n in TokenIDs(a.resource.value.status)
  {
    FinalizerFirst(w, first);
    var b := Reconciled(w, first);
    AdmittedMakes(b, second);
    PhasesParts(b, second);
    GoodPassHeals(b, second);
  }

  /** Adoption by name takes the first item of the name. */
  lemma {:induction false} HolderFirst(list: seq<Item>, n: Name, k: nat)
    requires k < |list| && list[k].name == n && forall j :: 0 <= j < k ==> list[j].name != n
    ensures Holder(list, n) == Some(list[k].id)
  {
    if k > 0 {
      HolderFirst(list[1..], n, k - 1);
    }
  }

  /** What one deletion revokes: the recorded IDs whose call did not fail. */
  lemma RevokedMeans(id: nat, ids: map<Name, nat>, p: Pass)
    ensures Revoked(id, ids, ids.Keys, p) <==> exists n :: n in ids && ids[n] == id && p.deleteToken(n) != Fails
  {
    if n :| n in ids && ids[n] == id && p.deleteToken(n) != Fails {
      assert n in ids.Keys && !p.deleteToken(n).Fails?;
    }
  }
}
