/** The life of one policy over any run: what its persisted status accounts for, and what deletion leaves. */
module ReconcilerRuns {
  import opened GoTypes
  import opened Reconciler

  ghost predicate UniqueIDs(list: seq<Item>) {
    forall i, j :: 0 <= i < j < |list| ==> list[i].id != list[j].id
  }

  /** IDs are unique and never reused, and an item made by the reconciler is the one its name leads to. */
  ghost predicate Sound(it: Items) {
    && UniqueIDs(it.list)
    && (forall i :: 0 <= i < |it.list| ==> it.list[i].id < it.nextID)
    && (forall id :: id in it.made ==> id < it.nextID)
    && (forall i :: 0 <= i < |it.list| && it.list[i].id in it.made ==> Holder(it.list, it.list[i].name) == Some(it.list[i].id))
  }

  /** Every token made by the reconciler and still there is recorded under its name. */
  ghost predicate Accounted(it: Items, known: map<Name, nat>) {
    forall i :: 0 <= i < |it.list| && it.list[i].id in it.made ==> it.list[i].name in known && known[it.list[i].name] == it.list[i].id
  }

  /** Every application made by the reconciler and still there is the recorded one. */
  ghost predicate Claimed(it: Items, id: Option<nat>) {
    forall i :: 0 <= i < |it.list| && it.list[i].id in it.made ==> id == Some(it.list[i].id)
  }

  ghost predicate NothingMade(it: Items) {
    forall i :: 0 <= i < |it.list| ==> it.list[i].id !in it.made
  }

  /** Recorded IDs have been given out. */
  ghost predicate Below(ids: map<Name, nat>, nextID: nat) {
    forall n :: n in ids ==> ids[n] < nextID
  }

  ghost predicate Issued(s: Status, apps: Items, tokens: Items) {
    (s.applicationID.Some? ==> s.applicationID.value < apps.nextID) && Below(TokenIDs(s), tokens.nextID)
  }

  /**
   * While the finalizer is present, every application and token the reconciler made is recorded in the
   * persisted status; without the finalizer there is none.
   */
  ghost predicate Recorded(w: World) {
    && Sound(w.apps) && Sound(w.tokens)
    && (w.resource.Some? ==> Issued(w.resource.value.status, w.apps, w.tokens))
    && if w.resource.Some? && w.resource.value.finalizer
       then Claimed(w.apps, w.resource.value.status.applicationID) && Accounted(w.tokens, TokenIDs(w.resource.value.status))
       else NothingMade(w.apps) && NothingMade(w.tokens)
  }

  // ---------------------------------------------------------------- single changes of a list

  lemma {:induction false} HolderSnoc(list: seq<Item>, it: Item, n: Name)
    ensures Holder(list + [it], n) == if Holder(list, n).Some? then Holder(list, n) else if it.name == n then Some(it.id) else None
  {
    if list == [] {
      assert [] + [it] == [it] && [it][1..] == [];
    } else {
      assert (list + [it])[1..] == list[1..] + [it];
      HolderSnoc(list[1..], it, n);
    }
  }

  lemma {:induction false} HolderIn(list: seq<Item>, n: Name)
    ensures Holder(list, n).Some? ==> Item(Holder(list, n).value, n) in list
    ensures Holder(list, n).None? ==> forall i :: 0 <= i < |list| ==> list[i].name != n
  {
    if list != [] { HolderIn(list[1..], n); }
  }

  lemma {:induction false} WithoutIDHolder(list: seq<Item>, id: nat, n: Name)
    requires Holder(list, n).Some? && Holder(list, n) != Some(id)
    ensures Holder(WithoutID(list, id), n) == Holder(list, n)
  {
    var rest := WithoutID(list[1..], id);
    if list[0].name != n { WithoutIDHolder(list[1..], id, n); }
    if list[0].id == id {
      assert WithoutID(list, id) == rest;
    } else {
      assert WithoutID(list, id) == [list[0]] + rest;
      assert ([list[0]] + rest)[1..] == rest;
    }
  }

  lemma {:induction false} WithoutIDMembers(list: seq<Item>, id: nat)
    ensures forall x :: x in WithoutID(list, id) <==> x in list && x.id != id
  {
    if list != [] {
      WithoutIDMembers(list[1..], id);
      assert list == [list[0]] + list[1..];
    }
  }

  lemma {:induction false} WithoutIDUnique(list: seq<Item>, id: nat)
    requires UniqueIDs(list)
    ensures UniqueIDs(WithoutID(list, id))
  {
    if list != [] {
      var rest := WithoutID(list[1..], id);
      WithoutIDUnique(list[1..], id);
      WithoutIDMembers(list[1..], id);
      forall j | 0 <= j < |rest| ensures rest[j].id != list[0].id {
        assert rest[j] in list[1..];
      }
    }
  }

  lemma WithoutIDKeeps(list: seq<Item>, id: nat)
    requires UniqueIDs(list)
    ensures forall x :: x in WithoutID(list, id) <==> x in list && x.id != id
    ensures UniqueIDs(WithoutID(list, id))
    ensures forall n :: Holder(list, n).Some? && Holder(list, n) != Some(id) ==> Holder(WithoutID(list, id), n) == Holder(list, n)
  {
    forall n | Holder(list, n).Some? && Holder(list, n) != Some(id) ensures Holder(WithoutID(list, id), n) == Holder(list, n) {
      WithoutIDHolder(list, id, n);
    }
    WithoutIDMembers(list, id);
    WithoutIDUnique(list, id);
  }

  /** Ensuring one name adopts or appends, and its answer is what the name then leads to. */
  lemma EnsuredSound(it: Items, n: Name, call: Call)
    requires Sound(it)
    ensures var after := Ensured(it, n, call);
            && Sound(after) && it.list <= after.list && it.made <= after.made && it.nextID <= after.nextID
            && (forall m :: Holder(it.list, m).Some? ==> Holder(after.list, m) == Holder(it.list, m))
            && (Holder(after.list, n).Some? ==> Item(Holder(after.list, n).value, n) in after.list && Holder(after.list, n).value < after.nextID)
            && (after != it ==> Holder(it.list, n).None? && Holder(after.list, n) == Some(it.nextID) && it.nextID in after.made &&
                                after.list == it.list + [Item(it.nextID, n)] && it.nextID < after.nextID)
  {
    HolderIn(it.list, n);
    forall m { HolderSnoc(it.list, Item(it.nextID, n), m); }
  }

  // ---------------------------------------------------------------- applications

  /** Every application made and still there is the one the name leads to. */
  ghost predicate Leads(it: Items, n: Name) {
    forall i :: 0 <= i < |it.list| && it.list[i].id in it.made ==> Holder(it.list, n) == Some(it.list[i].id)
  }

  /** That is to say, it bears the name. */
  lemma LeadsByName(it: Items, n: Name)
    requires Sound(it)
    ensures Leads(it, n) <==> forall i :: 0 <= i < |it.list| && it.list[i].id in it.made ==> it.list[i].name == n
  {
    HolderIn(it.list, n);
    forall i | 0 <= i < |it.list| && it.list[i].id in it.made ensures Holder(it.list, n) == Some(it.list[i].id) <==> it.list[i].name == n {
      if Holder(it.list, n) == Some(it.list[i].id) {
        var k :| 0 <= k < |it.list| && it.list[k] == Item(it.list[i].id, n);
        assert k == i;
      }
    }
  }

  /** When ensuring the application keeps the account: an answered call is written down and forgets nothing, an unanswered one created nothing. */
  ghost predicate AppKept(it: Items, n: Name, call: Call, written: bool) {
    call.Fails? || if call.Fine? && written then Leads(it, n) else Holder(it.list, n).Some?
  }

  lemma ClaimedExactly(it: Items, id: Option<nat>, n: Name, call: Call, written: bool)
    requires Sound(it) && Claimed(it, id) && (id.Some? ==> id.value < it.nextID)
    ensures Claimed(Ensured(it, n, call), if call.Fine? && written then Some(EnsureAnswer(it, n, call, true).value) else id) <==>
            AppKept(it, n, call, written)
  {
    EnsuredSound(it, n, call);
    var after := Ensured(it, n, call);
    var id' := if call.Fine? && written then Some(EnsureAnswer(it, n, call, true).value) else id;
    assert forall i :: 0 <= i < |it.list| ==> after.list[i] == it.list[i];
    if after != it {
      var k := |it.list|;
      assert after.list[k] == Item(it.nextID, n);
      assert Claimed(after, id') ==> id' == Some(it.nextID);
    }
  }

  // ---------------------------------------------------------------- tokens

  /** The loop over the token names stops here. */
  predicate Stops(list: seq<Item>, n: Name, p: Pass) {
    !p.token(n).Fine? || (Holder(list, n).None? && !p.saved(n))
  }

  /** A token is made here and its ID not recorded: no answer, or credentials that could not be stored. */
  predicate Loses(list: seq<Item>, n: Name, p: Pass) {
    Holder(list, n).None? && (p.token(n).Unanswered? || (p.token(n).Fine? && !p.saved(n)))
  }

  /** The loop does not stop by losing a token. */
  predicate Lossless(list: seq<Item>, names: seq<Name>, p: Pass)
    decreases |names|
  {
    names == [] || (!Loses(list, names[0], p) && (Stops(list, names[0], p) || Lossless(list, names[1..], p)))
  }

  /** The loop gets to make a token. */
  predicate Makes(list: seq<Item>, names: seq<Name>, p: Pass)
    decreases |names|
  {
    names != [] && ((Holder(list, names[0]).None? && !p.token(names[0]).Fails?) ||
                    (!Stops(list, names[0], p) && Makes(list, names[1..], p)))
  }

  /** If every call is answered, nothing is lost exactly if every wanted token is there or can be saved. */
  lemma {:induction false} LosslessWhenAnswered(list: seq<Item>, names: seq<Name>, p: Pass)
    requires forall n :: n in names ==> p.token(n).Fine?
    ensures Lossless(list, names, p) <==> forall i :: 0 <= i < |names| ==> Holder(list, names[i]).Some? || p.saved(names[i])
    decreases |names|
  {
    if names != [] {
      assert names[0] in names;
      LosslessWhenAnswered(list, names[1..], p);
      assert names == [names[0]] + names[1..];
    }
  }

  /** A token made and saved does not change what comes after it. */
  lemma {:induction false} LosslessSame(it: Items, n: Name, names: seq<Name>, p: Pass)
    requires p.token(n).Fine? && p.saved(n) && Holder(it.list, n).None?
    ensures Lossless(Ensured(it, n, Fine).list, names, p) == Lossless(it.list, names, p)
    decreases |names|
  {
    if names != [] {
      HolderSnoc(it.list, Item(it.nextID, n), names[0]);
      LosslessSame(it, n, names[1..], p);
    }
  }

  lemma EnsuredAccounted(it: Items, known: map<Name, nat>, n: Name)
    requires Sound(it) && Accounted(it, known)
    ensures Accounted(Ensured(it, n, Fine), known[n := EnsureAnswer(it, n, Fine, true).value])
  {
    EnsuredSound(it, n, Fine);
    var after := Ensured(it, n, Fine);
    forall i | 0 <= i < |it.list| ensures after.list[i] == it.list[i] {}
  }

  lemma {:induction false} TokensSound(it: Items, ids: map<Name, nat>, names: seq<Name>, p: Pass)
    requires Sound(it) && Below(ids, it.nextID)
    ensures var r := TokensEnsured(it, ids, names, p);
            Sound(r.0) && Below(r.1, r.0.nextID) && it.nextID <= r.0.nextID && it.list <= r.0.list && it.made <= r.0.made
    decreases |names|
  {
    if names != [] {
      EnsuredSound(it, names[0], p.token(names[0]));
      var answer := EnsureAnswer(it, names[0], p.token(names[0]), p.saved(names[0]));
      var next := Ensured(it, names[0], p.token(names[0]));
      if answer.Ok? {
        TokensSound(next, ids[names[0] := answer.value], names[1..], p);
      }
    }
  }

  /** A token was lost: it is the last one, and no ID of it is recorded. */
  ghost predicate Orphaned(it: Items, ids: map<Name, nat>) {
    it.list != [] && it.list[|it.list| - 1].id in it.made && forall n :: n in ids ==> ids[n] != it.list[|it.list| - 1].id
  }

  /** The loop over the token names keeps the account exactly if it does not stop by losing a token. */
  lemma {:induction false} TokensAccountedExactly(it: Items, ids: map<Name, nat>, names: seq<Name>, p: Pass)
    requires Sound(it) && Accounted(it, ids) && Below(ids, it.nextID)
    ensures var r := TokensEnsured(it, ids, names, p);
            (Accounted(r.0, r.1) <==> Lossless(it.list, names, p)) && (Orphaned(r.0, r.1) || Lossless(it.list, names, p))
    decreases |names|
  {
    if names != [] {
      var n := names[0];
      var answer := EnsureAnswer(it, n, p.token(n), p.saved(n));
      var next := Ensured(it, n, p.token(n));
      EnsuredSound(it, n, p.token(n));
      if answer.Ok? {
        EnsuredAccounted(it, ids, n);
        TokensAccountedExactly(next, ids[n := answer.value], names[1..], p);
        if Holder(it.list, n).None? { LosslessSame(it, n, names[1..], p); }
      } else if Loses(it.list, n, p) {
        LastOrphaned(it, ids, n);
      }
    }
  }

  lemma LastOrphaned(it: Items, ids: map<Name, nat>, n: Name)
    requires Sound(it) && Below(ids, it.nextID) && Holder(it.list, n).None?
    ensures Orphaned(Ensured(it, n, Fine), ids) && !Accounted(Ensured(it, n, Fine), ids)
  {
    var after := Ensured(it, n, Fine);
    assert after.list[|it.list|] == Item(it.nextID, n);
  }

  /** If the new IDs are not written down, it keeps the account exactly if it makes no token. */
  lemma {:induction false} TokensUnwritten(it: Items, ids: map<Name, nat>, kept: map<Name, nat>, names: seq<Name>, p: Pass)
    requires Sound(it) && Accounted(it, kept) && Below(kept, it.nextID) && Below(ids, it.nextID)
    ensures Accounted(TokensEnsured(it, ids, names, p).0, kept) <==> !Makes(it.list, names, p)
    decreases |names|
  {
    if names != [] {
      var n := names[0];
      var answer := EnsureAnswer(it, n, p.token(n), p.saved(n));
      var next := Ensured(it, n, p.token(n));
      EnsuredSound(it, n, p.token(n));
      if next != it {
        assert next.list[|it.list|] == Item(it.nextID, n);
        if answer.Ok? {
          TokensSound(next, ids[n := answer.value], names[1..], p);
        }
        assert TokensEnsured(it, ids, names, p).0.list[|it.list|] == Item(it.nextID, n);
      } else if answer.Ok? {
        TokensUnwritten(it, ids[n := answer.value], kept, names[1..], p);
      }
    }
  }

  // ---------------------------------------------------------------- runs

  /** What can happen to a policy: a reconcile, an edit or delete request, and other users of the account. */
  datatype Event =
    | Reconcile(pass: Pass)
    | EditTokens(names: seq<Name>)
    | SetOrphan(orphan: bool)
    | Rename(name: Name)
    | RequestDelete
    | ForeignApp(name: Name)
    | ForeignToken(name: Name)
    | ForeignRemoveApp(id: nat)
    | ForeignRemoveToken(id: nat)

  /** Somebody else creates an item. */
  function Joined(it: Items, n: Name): Items {
    it.(list := it.list + [Item(it.nextID, n)], nextID := it.nextID + 1)
  }

  function Happen(w: World, e: Event): World {
    match e
    case Reconcile(p) => Reconciled(w, p)
    case EditTokens(names) => if w.resource.None? then w else w.(resource := Some(w.resource.value.(spec := w.resource.value.spec.(tokens := names))))
    case SetOrphan(orphan) => if w.resource.None? then w else w.(resource := Some(w.resource.value.(spec := w.resource.value.spec.(orphan := orphan))))
    case Rename(name) => if w.resource.None? then w else w.(resource := Some(w.resource.value.(spec := w.resource.value.spec.(appName := name))))
    case RequestDelete =>
      if w.resource.None? then w
      else w.(resource := if w.resource.value.finalizer then Some(w.resource.value.(deleting := true)) else None)
    case ForeignApp(n) => w.(apps := Joined(w.apps, n))
    case ForeignToken(n) => w.(tokens := Joined(w.tokens, n))
    case ForeignRemoveApp(id) => w.(apps := w.apps.(list := WithoutID(w.apps.list, id)))
    case ForeignRemoveToken(id) => w.(tokens := w.tokens.(list := WithoutID(w.tokens.list, id)))
  }

  /** The status update at the end of a reconcile gets through. */
  predicate Written(p: Pass) {
    p.statusGetUp && p.statusWriteUp
  }

  /** The reconcile gets to its service tokens. */
  predicate ReachesTokens(p: Pass) {
    Admitted(p) && p.app.Fine? && p.policiesSynced
  }

  /** What a reconcile must not meet if everything it makes is to be in the status afterwards. */
  ghost predicate KeepsAccount(w: World, p: Pass)
    requires w.resource.Some?
  {
    var spec := w.resource.value.spec;
    && (Admitted(p) ==> AppKept(w.apps, spec.appName, p.app, Written(p)))
    && (ReachesTokens(p) ==>
          if Written(p) then Lossless(w.tokens.list, spec.tokens, p) else !Makes(w.tokens.list, spec.tokens, p))
  }

  lemma JoinedKeeps(it: Items, n: Name)
    requires Sound(it)
    ensures Sound(Joined(it, n)) && it.nextID <= Joined(it, n).nextID && (NothingMade(it) ==> NothingMade(Joined(it, n)))
    ensures forall known :: Accounted(it, known) ==> Accounted(Joined(it, n), known)
    ensures forall id :: Claimed(it, id) ==> Claimed(Joined(it, n), id)
  {
    forall m { HolderSnoc(it.list, Item(it.nextID, n), m); }
  }

  lemma RemovedKeeps(it: Items, id: nat)
    requires Sound(it)
    ensures var a := it.(list := WithoutID(it.list, id));
            && Sound(a) && (NothingMade(it) ==> NothingMade(a))
            && (forall known :: Accounted(it, known) ==> Accounted(a, known)) && (forall m :: Claimed(it, m) ==> Claimed(a, m))
  {
    var a := it.(list := WithoutID(it.list, id));
    WithoutIDKeeps(it.list, id);
    FewerKeep(it, a.list);
    forall i | 0 <= i < |a.list| && a.list[i].id in a.made ensures Holder(a.list, a.list[i].name) == Some(a.list[i].id) {
      assert a.list[i] in it.list;
    }
  }

  lemma FewerKeep(it: Items, list: seq<Item>)
    requires forall x :: x in list ==> x in it.list
    requires Sound(it)
    ensures var a := it.(list := list);
            && (forall i :: 0 <= i < |list| ==> list[i].id < it.nextID) && (NothingMade(it) ==> NothingMade(a))
            && (forall known :: Accounted(it, known) ==> Accounted(a, known)) && (forall m :: Claimed(it, m) ==> Claimed(a, m))
  {
    forall i | 0 <= i < |list| ensures list[i] in it.list {}
  }

  /** A status that was written carries the IDs it was given. */
  lemma StatusWritten(o: Resource, s: Status)
    ensures WithStatus(o, s, true, true).status.applicationID == s.applicationID
    ensures WithStatus(o, s, true, true).status.tokenIDs == s.tokenIDs
    ensures WithStatus(o, s, true, true) == o.(status := WithStatus(o, s, true, true).status)
  {
    if Visible(o.status) == Visible(s) {
      assert Visible(o.status).applicationID == Visible(s).applicationID;
      assert Visible(o.status).tokenIDs == Visible(s).tokenIDs;
    }
  }

  /** What a reconcile of an admitted policy leaves, part by part. */
  lemma PhasesParts(w: World, p: Pass)
    requires w.resource.Some?
    ensures var o := w.resource.value; var a := Phases(w, p); var r := TokensEnsured(w.tokens, TokenIDs(o.status), o.spec.tokens, p);
            && a.resource.Some? && a.resource.value == o.(status := a.resource.value.status)
            && a.apps == (if Admitted(p) then Ensured(w.apps, o.spec.appName, p.app) else w.apps)
            && a.tokens == (if ReachesTokens(p) then r.0 else w.tokens)
            && a.resource.value.status.applicationID ==
                 (if Admitted(p) && p.app.Fine? && Written(p) then Some(EnsureAnswer(w.apps, o.spec.appName, p.app, true).value)
                  else o.status.applicationID)
            && TokenIDs(a.resource.value.status) == (if ReachesTokens(p) && Written(p) then r.1 else TokenIDs(o.status))
  {
    var o := w.resource.value;
    var app := EnsureAnswer(w.apps, o.spec.appName, p.app, true);
    if Written(p) {
      if !Admitted(p) || app.Err? {
        StatusWritten(o, o.status.(conditions := p.conditions));
      } else {
        var s1 := o.status.(applicationID := Some(app.value), applicationAUD := p.appAUD);
        if !p.policiesSynced {
          StatusWritten(o, s1.(conditions := p.conditions));
        } else {
          var ids := TokensEnsured(w.tokens, TokenIDs(s1), o.spec.tokens, p).1;
          var s2 := if o.spec.tokens == [] then s1 else s1.(tokenIDs := Some(ids));
          StatusWritten(o, s2.(attachedTargets := p.resolvedTargets, observedGeneration := p.generation,
                               ancestors := p.ancestors, conditions := p.conditions));
        }
      }
    }
  }

  lemma PhasesSound(w: World, p: Pass)
    requires Recorded(w) && w.resource.Some?
    ensures Sound(Phases(w, p).apps) && Sound(Phases(w, p).tokens)
    ensures Phases(w, p).resource.Some? && Issued(Phases(w, p).resource.value.status, Phases(w, p).apps, Phases(w, p).tokens)
  {
    var o := w.resource.value;
    PhasesParts(w, p);
    EnsuredSound(w.apps, o.spec.appName, p.app);
    TokensSound(w.tokens, TokenIDs(o.status), o.spec.tokens, p);
  }

  /** The reconcile phases keep the account of what was made exactly under that condition. */
  lemma PhasesRecordedExactly(w: World, p: Pass)
    requires Recorded(w) && w.resource.Some? && w.resource.value.finalizer
    ensures Recorded(Phases(w, p)) <==> KeepsAccount(w, p)
  {
    var o := w.resource.value;
    PhasesSound(w, p);
    PhasesParts(w, p);
    ClaimedExactly(w.apps, o.status.applicationID, o.spec.appName, p.app, Written(p));
    if ReachesTokens(p) {
      TokensAccountedExactly(w.tokens, TokenIDs(o.status), o.spec.tokens, p);
      TokensUnwritten(w.tokens, TokenIDs(o.status), TokenIDs(o.status), o.spec.tokens, p);
    }
  }

  // ---------------------------------------------------------------- deletion

  lemma {:induction false} RevokedKeeps(list: seq<Item>, ids: map<Name, nat>, names: set<Name>, p: Pass)
    requires UniqueIDs(list)
    ensures forall x :: x in TokensRevoked(list, ids, names, p) <==> x in list && !Revoked(x.id, ids, names, p)
    ensures UniqueIDs(TokensRevoked(list, ids, names, p))
  {
    if list != [] {
      RevokedKeeps(list[1..], ids, names, p);
      var rest := TokensRevoked(list[1..], ids, names, p);
      assert list == [list[0]] + list[1..];
      forall j | 0 <= j < |rest| ensures rest[j].id != list[0].id {
        assert rest[j] in list[1..];
        var k :| 0 <= k < |list[1..]| && list[1..][k] == rest[j];
        assert list[k + 1] == rest[j];
      }
      if Revoked(list[0].id, ids, names, p) {
        assert TokensRevoked(list, ids, names, p) == rest;
      }
    }
  }

  /**
   * What deletion leaves, exactly, whether or not the status was complete: it gives the finalizer up in
   * any case, and what it had recorded goes unless it was told to orphan, had no credentials, or that
   * deletion failed.
   */
  lemma DeletionLeaves(w: World, p: Pass)
    requires Sound(w.apps) && Sound(w.tokens)
    requires w.resource.Some? && w.resource.value.deleting && w.resource.value.finalizer && p.getUp && p.patchUp
    ensures var o := w.resource.value; var a := Reconciled(w, p); var skipped := o.spec.orphan || !p.credentials;
            && a.resource == None
            && (forall x :: x in a.apps.list <==>
                  x in w.apps.list && (skipped || o.status.applicationID != Some(x.id) || p.deleteApp.Fails?))
            && (forall x :: x in a.tokens.list <==>
                  x in w.tokens.list && (skipped || !Revoked(x.id, TokenIDs(o.status), TokenIDs(o.status).Keys, p)))
  {
    var o := w.resource.value;
    var ids := TokenIDs(o.status);
    RevokedKeeps(w.tokens.list, ids, ids.Keys, p);
    if o.status.applicationID.Some? {
      WithoutIDKeeps(w.apps.list, o.status.applicationID.value);
    }
  }

  /** What deletion must meet if nothing made is to be left once the finalizer is gone. */
  ghost predicate DeletesAll(w: World, p: Pass)
    requires w.resource.Some?
  {
    var o := w.resource.value;
    p.patchUp ==>
      || (NothingMade(w.apps) && NothingMade(w.tokens))
      || (!o.spec.orphan && p.credentials && (NothingMade(w.apps) || !p.deleteApp.Fails?) &&
          forall i :: 0 <= i < |w.tokens.list| && w.tokens.list[i].id in w.tokens.made ==>
            Revoked(w.tokens.list[i].id, TokenIDs(o.status), TokenIDs(o.status).Keys, p))
  }

  lemma {:induction false} RevokedHolder(list: seq<Item>, ids: map<Name, nat>, names: set<Name>, p: Pass, n: Name)
    requires Holder(list, n).Some? && !Revoked(Holder(list, n).value, ids, names, p)
    ensures Holder(TokensRevoked(list, ids, names, p), n) == Holder(list, n)
  {
    var rest := TokensRevoked(list[1..], ids, names, p);
    if list[0].name != n { RevokedHolder(list[1..], ids, names, p, n); }
    if Revoked(list[0].id, ids, names, p) {
      assert TokensRevoked(list, ids, names, p) == rest;
    } else {
      assert TokensRevoked(list, ids, names, p) == [list[0]] + rest;
      assert ([list[0]] + rest)[1..] == rest;
    }
  }

  lemma RevokedSound(it: Items, ids: map<Name, nat>, p: Pass)
    requires Sound(it)
    ensures var a := it.(list := TokensRevoked(it.list, ids, ids.Keys, p));
            && Sound(a) && (Accounted(it, ids) ==> Accounted(a, ids))
            && (NothingMade(a) <==> forall i :: 0 <= i < |it.list| && it.list[i].id in it.made ==> Revoked(it.list[i].id, ids, ids.Keys, p))
  {
    var a := it.(list := TokensRevoked(it.list, ids, ids.Keys, p));
    RevokedKeeps(it.list, ids, ids.Keys, p);
    FewerKeep(it, a.list);
    forall i | 0 <= i < |a.list| && a.list[i].id in a.made ensures Holder(a.list, a.list[i].name) == Some(a.list[i].id) {
      assert a.list[i] in a.list && a.list[i] in it.list;
      RevokedHolder(it.list, ids, ids.Keys, p, a.list[i].name);
    }
    if NothingMade(a) {
      assert forall x :: x in a.list ==> x.id !in a.made;
      forall i | 0 <= i < |it.list| && it.list[i].id in it.made ensures Revoked(it.list[i].id, ids, ids.Keys, p) {
        assert it.list[i] in it.list && it.list[i] !in a.list;
      }
    }
  }

  /** Deletion keeps the finalizer's promise exactly under that condition. */
  lemma DeletionRecordedExactly(w: World, p: Pass)
    requires Recorded(w) && w.resource.Some? && w.resource.value.deleting && w.resource.value.finalizer
    ensures Recorded(Deleted(w, p)) <==> DeletesAll(w, p)
  {
    var o := w.resource.value;
    RevokedSound(w.tokens, TokenIDs(o.status), p);
    if o.status.applicationID.Some? {
      RemovedKeeps(w.apps, o.status.applicationID.value);
      ClaimedGone(w.apps, o.status.applicationID.value);
    }
  }

  lemma ClaimedGone(it: Items, id: nat)
    requires Sound(it) && Claimed(it, Some(id))
    ensures NothingMade(it.(list := WithoutID(it.list, id)))
  {
    WithoutIDKeeps(it.list, id);
    var list := WithoutID(it.list, id);
    forall i | 0 <= i < |list| ensures list[i].id !in it.made {
      assert list[i] in it.list;
    }
  }

  /** Deletion that is not told to orphan, with credentials and API working. */
  ghost predicate CleanDelete(w: World, p: Pass) {
    && w.resource.Some? && !w.resource.value.spec.orphan && p.credentials && p.deleteApp.Fine?
    && (forall n :: p.deleteToken(n).Fine?)
  }

  /**
   * With a complete status, a non-orphan delete with working credentials and API removes every
   * application and token the reconciler made before the finalizer goes.
   */
  lemma DeletionClean(w: World, p: Pass)
    requires Recorded(w) && CleanDelete(w, p)
    requires w.resource.value.deleting && w.resource.value.finalizer && p.getUp
    ensures NothingMade(Reconciled(w, p).apps) && NothingMade(Reconciled(w, p).tokens)
    ensures DeletesAll(w, p) && (p.patchUp ==> Reconciled(w, p).resource == None)
  {
    var o := w.resource.value;
    RevokedSound(w.tokens, TokenIDs(o.status), p);
    if o.status.applicationID.Some? {
      ClaimedGone(w.apps, o.status.applicationID.value);
    }
    forall i | 0 <= i < |w.tokens.list| && w.tokens.list[i].id in w.tokens.made
      ensures Revoked(w.tokens.list[i].id, TokenIDs(o.status), TokenIDs(o.status).Keys, p)
    {
      assert w.tokens.list[i].name in TokenIDs(o.status) && !p.deleteToken(w.tokens.list[i].name).Fails?;
    }
  }

  // ---------------------------------------------------------------- every step and every run

  /** What an event must meet, and only a reconcile has to meet anything. */
  ghost predicate Trustworthy(w: World, e: Event) {
    e.Reconcile? && e.pass.getUp && w.resource.Some? && w.resource.value.finalizer ==>
      if w.resource.value.deleting then DeletesAll(w, e.pass) else KeepsAccount(w, e.pass)
  }

  /** An event keeps the account complete exactly if it is trustworthy. */
  lemma HappenRecordedExactly(w: World, e: Event)
    requires Recorded(w)
    ensures Recorded(Happen(w, e)) <==> Trustworthy(w, e)
  {
    match e
    case Reconcile(p) =>
      if p.getUp && w.resource.Some? && w.resource.value.finalizer {
        if w.resource.value.deleting {
          DeletionRecordedExactly(w, p);
        } else {
          PhasesRecordedExactly(w, p);
        }
      }
    case ForeignApp(n) => JoinedKeeps(w.apps, n);
    case ForeignToken(n) => JoinedKeeps(w.tokens, n);
    case ForeignRemoveApp(id) => RemovedKeeps(w.apps, id);
    case ForeignRemoveToken(id) => RemovedKeeps(w.tokens, id);
    case _ =>
  }

  ghost predicate AllTrustworthy(w: World, es: seq<Event>)
    decreases |es|
  {
    es == [] || (Trustworthy(w, es[0]) && AllTrustworthy(Happen(w, es[0]), es[1..]))
  }

  /** At the start of a run and after each of its events. */
  ghost predicate RecordedThroughout(w: World, es: seq<Event>)
    decreases |es|
  {
    Recorded(w) && (es == [] || RecordedThroughout(Happen(w, es[0]), es[1..]))
  }

  /**
   * Over any run of reconciles, edits, renames, delete requests and other users' doings, everything the
   * reconciler made is at all times in the persisted status while the finalizer stands, and gone once
   * the finalizer is, exactly if every event of the run is trustworthy.
   */
  lemma {:induction false} AlwaysRecorded(w: World, es: seq<Event>)
    requires Recorded(w)
    ensures RecordedThroughout(w, es) <==> AllTrustworthy(w, es)
    decreases |es|
  {
    if es != [] {
      HappenRecordedExactly(w, es[0]);
      if Trustworthy(w, es[0]) {
        AlwaysRecorded(Happen(w, es[0]), es[1..]);
      } else {
        assert !Recorded(Happen(w, es[0]));
      }
    }
  }

  /** Creates are answered, credentials of tokens not there yet are stored and status is written. */
  ghost predicate Reliable(w: World, p: Pass) {
    && !p.app.Unanswered? && Written(p)
    && forall n :: Holder(w.tokens.list, n).None? ==> !p.token(n).Unanswered? && (p.token(n).Fine? ==> p.saved(n))
  }

  /** The applications made bear the name the policy asks for. */
  ghost predicate OwnName(w: World) {
    w.resource.Some? ==>
      forall i :: 0 <= i < |w.apps.list| && w.apps.list[i].id in w.apps.made ==> w.apps.list[i].name == w.resource.value.spec.appName
  }

  /** No rename, reliable reconciles and clean deletions. */
  ghost predicate Usual(w: World, e: Event) {
    && !e.Rename?
    && (e.Reconcile? && w.resource.Some? ==>
          if w.resource.value.deleting then CleanDelete(w, e.pass) else Reliable(w, e.pass))
  }

  ghost predicate AllUsual(w: World, es: seq<Event>)
    decreases |es|
  {
    es == [] || (Usual(w, es[0]) && AllUsual(Happen(w, es[0]), es[1..]))
  }

  lemma {:induction false} ReliableLossless(w: World, names: seq<Name>, p: Pass)
    requires Reliable(w, p)
    ensures Lossless(w.tokens.list, names, p)
    decreases |names|
  {
    if names != [] { ReliableLossless(w, names[1..], p); }
  }

  lemma UsualTrustworthy(w: World, e: Event)
    requires Recorded(w) && OwnName(w) && Usual(w, e)
    ensures Trustworthy(w, e) && OwnName(Happen(w, e))
  {
    match e
    case Reconcile(p) =>
      if p.getUp && w.resource.Some? {
        UsualReconcile(w, p);
      }
    case ForeignApp(n) =>
    case ForeignRemoveApp(id) =>
      WithoutIDKeeps(w.apps.list, id);
      forall i | 0 <= i < |Happen(w, e).apps.list| ensures Happen(w, e).apps.list[i] in w.apps.list {}
    case _ =>
  }

  lemma UsualReconcile(w: World, p: Pass)
    requires Recorded(w) && OwnName(w) && Usual(w, Reconcile(p)) && p.getUp && w.resource.Some?
    ensures Trustworthy(w, Reconcile(p)) && OwnName(Reconciled(w, p))
  {
    var o := w.resource.value;
    if o.deleting {
      if o.finalizer {
        DeletionClean(w, p);
      }
    } else if o.finalizer {
      LeadsByName(w.apps, o.spec.appName);
      ReliableLossless(w, o.spec.tokens, p);
      EnsuredSound(w.apps, o.spec.appName, p.app);
      PhasesParts(w, p);
    }
  }

  /** So the promise holds throughout every run without renames, with reliable reconciles and clean deletions. */
  lemma {:induction false} UsuallyRecorded(w: World, es: seq<Event>)
    requires Recorded(w) && OwnName(w) && AllUsual(w, es)
    ensures RecordedThroughout(w, es)
    decreases |es|
  {
    if es != [] {
      UsualTrustworthy(w, es[0]);
      HappenRecordedExactly(w, es[0]);
      UsuallyRecorded(Happen(w, es[0]), es[1..]);
    }
  }

  // ---------------------------------------------------------------- progress

  lemma {:induction false} TokensHeld(it: Items, ids: map<Name, nat>, names: seq<Name>, p: Pass, n: Name)
    requires Sound(it) && forall m :: p.token(m).Fine? && p.saved(m)
    ensures forall m :: Holder(it.list, m).Some? ==> Holder(TokensEnsured(it, ids, names, p).0.list, m) == Holder(it.list, m)
    ensures n in names || (n in ids && Holder(it.list, n) == Some(ids[n])) ==>
              n in TokensEnsured(it, ids, names, p).1 &&
              Holder(TokensEnsured(it, ids, names, p).0.list, n) == Some(TokensEnsured(it, ids, names, p).1[n])
    decreases |names|
  {
    if names != [] {
      var m := names[0];
      forall k { HolderSnoc(it.list, Item(it.nextID, m), k); }
      var answer := EnsureAnswer(it, m, p.token(m), p.saved(m));
      var it' := Ensured(it, m, p.token(m));
      assert Holder(it'.list, m) == Some(answer.value);
      assert Sound(it');
      TokensHeld(it', ids[m := answer.value], names[1..], p, n);
      assert n in names ==> n == m || n in names[1..];
    }
  }

  /** One reconcile in which everything works records the application and every wanted token as they now are. */
  lemma GoodPassRecordsAll(w: World, p: Pass, n: Name)
    requires Sound(w.apps) && Sound(w.tokens) && w.resource.Some?
    requires Admitted(p) && p.app.Fine? && p.policiesSynced && Written(p) && forall m :: p.token(m).Fine? && p.saved(m)
    ensures var o := w.resource.value; var a := Phases(w, p);
            && a.resource.Some? && a.resource.value.status.applicationID.Some?
            && Holder(a.apps.list, o.spec.appName) == a.resource.value.status.applicationID
            && (n in o.spec.tokens ==> n in TokenIDs(a.resource.value.status) &&
                                       Holder(a.tokens.list, n) == Some(TokenIDs(a.resource.value.status)[n]))
  {
    var o := w.resource.value;
    HolderSnoc(w.apps.list, Item(w.apps.nextID, o.spec.appName), o.spec.appName);
    var app := EnsureAnswer(w.apps, o.spec.appName, p.app, true);
    var s1 := o.status.(applicationID := Some(app.value), applicationAUD := p.appAUD);
    TokensHeld(w.tokens, TokenIDs(s1), o.spec.tokens, p, n);
    var ids := TokensEnsured(w.tokens, TokenIDs(s1), o.spec.tokens, p).1;
    var s2 := if o.spec.tokens == [] then s1 else s1.(tokenIDs := Some(ids));
    StatusWritten(o, s2.(attachedTargets := p.resolvedTargets, observedGeneration := p.generation,
                         ancestors := p.ancestors, conditions := p.conditions));
  }

  /** The loop leaves other names' entries as they are. */
  lemma {:induction false} OthersUnchanged(it: Items, ids: map<Name, nat>, names: seq<Name>, p: Pass, n: Name)
    requires n !in names
    ensures var r := TokensEnsured(it, ids, names, p).1; (n in r <==> n in ids) && (n in ids ==> r[n] == ids[n])
    decreases |names|
  {
    if names != [] {
      var answer := EnsureAnswer(it, names[0], p.token(names[0]), p.saved(names[0]));
      if answer.Ok? {
        OthersUnchanged(Ensured(it, names[0], p.token(names[0])), ids[names[0] := answer.value], names[1..], p, n);
      }
    }
  }

  /** What the loop makes bears one of the wanted names. */
  lemma {:induction false} MadeIsWanted(it: Items, ids: map<Name, nat>, names: seq<Name>, p: Pass)
    ensures var r := TokensEnsured(it, ids, names, p).0;
            forall x :: x in r.list && x !in it.list ==> x.name in names
    ensures var r := TokensEnsured(it, ids, names, p).0; forall id :: id in r.made && id < it.nextID ==> id in it.made
    ensures it.nextID <= TokensEnsured(it, ids, names, p).0.nextID && it.list <= TokensEnsured(it, ids, names, p).0.list
    decreases |names|
  {
    if names != [] {
      var answer := EnsureAnswer(it, names[0], p.token(names[0]), p.saved(names[0]));
      if answer.Ok? {
        MadeIsWanted(Ensured(it, names[0], p.token(names[0])), ids[names[0] := answer.value], names[1..], p);
      }
    }
  }

  /** Every token made and still there is wanted now or was recorded before. */
  ghost predicate WantedOrRecorded(it: Items, ids: map<Name, nat>, names: seq<Name>) {
    forall i :: 0 <= i < |it.list| && it.list[i].id in it.made ==>
      it.list[i].name in names || (it.list[i].name in ids && ids[it.list[i].name] == it.list[i].id)
  }

  /** A loop in which everything works restores a lost account exactly if what was lost is wanted. */
  lemma TokensHealed(it: Items, ids: map<Name, nat>, names: seq<Name>, p: Pass)
    requires Sound(it) && Below(ids, it.nextID) && forall m :: p.token(m).Fine? && p.saved(m)
    ensures var r := TokensEnsured(it, ids, names, p); Accounted(r.0, r.1) <==> WantedOrRecorded(it, ids, names)
  {
    var r := TokensEnsured(it, ids, names, p);
    TokensSound(it, ids, names, p);
    MadeIsWanted(it, ids, names, p);
    forall i | 0 <= i < |r.0.list| && r.0.list[i].id in r.0.made
      ensures var x := r.0.list[i];
              (x.name in r.1 && r.1[x.name] == x.id) <==> (x.name in names || (x.name in ids && ids[x.name] == x.id))
    {
      var x := r.0.list[i];
      if x.name in names {
        TokensHeld(it, ids, names, p, x.name);
      } else {
        OthersUnchanged(it, ids, names, p, x.name);
      }
    }
    assert forall i :: 0 <= i < |it.list| ==> r.0.list[i] == it.list[i];
    forall i | 0 <= i < |r.0.list| && r.0.list[i].id in r.0.made
      ensures r.0.list[i].name in names || (i < |it.list| && it.list[i].id in it.made)
    {
      if r.0.list[i] in it.list {
        var k :| 0 <= k < |it.list| && it.list[k] == r.0.list[i];
        assert k == i;
      }
    }
  }

  lemma ClaimedAnew(it: Items, n: Name)
    requires Sound(it)
    ensures Claimed(Ensured(it, n, Fine), Some(EnsureAnswer(it, n, Fine, true).value)) <==> Leads(it, n)
  {
    EnsuredSound(it, n, Fine);
    var after := Ensured(it, n, Fine);
    assert forall i :: 0 <= i < |it.list| ==> after.list[i] == it.list[i];
  }

  /**
   * Healing: however much the status had lost, one reconcile in which everything works makes the account
   * complete exactly if every application made bears the name asked for and every token made is wanted
   * or was recorded.
   */
  lemma GoodPassHeals(w: World, p: Pass)
    requires Sound(w.apps) && Sound(w.tokens) && w.resource.Some? && w.resource.value.finalizer
    requires Issued(w.resource.value.status, w.apps, w.tokens)
    requires ReachesTokens(p) && Written(p) && forall m :: p.token(m).Fine? && p.saved(m)
    ensures Recorded(Phases(w, p)) <==>
            && (forall i :: 0 <= i < |w.apps.list| && w.apps.list[i].id in w.apps.made ==> w.apps.list[i].name == w.resource.value.spec.appName)
            && WantedOrRecorded(w.tokens, TokenIDs(w.resource.value.status), w.resource.value.spec.tokens)
  {
    var o := w.resource.value;
    PhasesParts(w, p);
    EnsuredSound(w.apps, o.spec.appName, Fine);
    TokensSound(w.tokens, TokenIDs(o.status), o.spec.tokens, p);
    ClaimedAnew(w.apps, o.spec.appName);
    LeadsByName(w.apps, o.spec.appName);
    TokensHealed(w.tokens, TokenIDs(o.status), o.spec.tokens, p);
  }

  // ---------------------------------------------------------------- what breaks the promise

  /**
   * A token whose create or save went wrong stays: whatever the delete that comes next does, it revokes
   * only what the status records.
   */
  lemma FailedSaveLeaks(w: World, p: Pass, d: Pass)
    requires Recorded(w) && w.resource.Some? && w.resource.value.finalizer && !w.resource.value.deleting
    requires p.getUp && ReachesTokens(p) && d.getUp && d.patchUp
    requires !Lossless(w.tokens.list, w.resource.value.spec.tokens, p)
    ensures var gone := Reconciled(Happen(Reconciled(w, p), RequestDelete), d);
            gone.resource == None && !NothingMade(gone.tokens)
  {
    var o := w.resource.value;
    var b := Happen(Reconciled(w, p), RequestDelete);
    PhasesSound(w, p);
    PhasesParts(w, p);
    TokensAccountedExactly(w.tokens, TokenIDs(o.status), o.spec.tokens, p);
    LostBeyond(w.tokens, TokenIDs(o.status), o.spec.tokens, p);
    OrphanStays(b, d);
  }

  lemma {:induction false} LostBeyond(it: Items, ids: map<Name, nat>, names: seq<Name>, p: Pass)
    requires Sound(it) && Below(ids, it.nextID) && !Lossless(it.list, names, p)
    ensures var list := TokensEnsured(it, ids, names, p).0.list; list != [] && list[|list| - 1].id >= it.nextID
    decreases |names|
  {
    var n := names[0];
    EnsuredSound(it, n, p.token(n));
    var answer := EnsureAnswer(it, n, p.token(n), p.saved(n));
    if answer.Ok? {
      if Holder(it.list, n).None? { LosslessSame(it, n, names[1..], p); }
      LostBeyond(Ensured(it, n, p.token(n)), ids[n := answer.value], names[1..], p);
    }
  }

  lemma OrphanStays(b: World, d: Pass)
    requires Sound(b.apps) && Sound(b.tokens) && d.getUp && d.patchUp
    requires b.resource.Some? && b.resource.value.deleting && b.resource.value.finalizer
    requires Orphaned(b.tokens, TokenIDs(b.resource.value.status))
    ensures Reconciled(b, d).resource == None && !NothingMade(Reconciled(b, d).tokens)
  {
    DeletionLeaves(b, d);
    var x := b.tokens.list[|b.tokens.list| - 1];
    assert x in b.tokens.list && x in Reconciled(b, d).tokens.list;
    var k :| 0 <= k < |Reconciled(b, d).tokens.list| && Reconciled(b, d).tokens.list[k] == x;
  }

  /**
   * A rename followed by a reliable reconcile keeps the account exactly if no application made by the
   * reconciler is left, or it bears the new name already.
   */
  lemma RenameExactly(w: World, name: Name, p: Pass)
    requires Recorded(w) && w.resource.Some? && w.resource.value.finalizer && !w.resource.value.deleting
    requires p.getUp && Admitted(p) && p.app.Fine? && Reliable(w, p)
    ensures Recorded(Reconciled(Happen(w, Rename(name)), p)) <==>
            forall i :: 0 <= i < |w.apps.list| && w.apps.list[i].id in w.apps.made ==> w.apps.list[i].name == name
  {
    var b := Happen(w, Rename(name));
    PhasesRecordedExactly(b, p);
    LeadsByName(w.apps, name);
    ReliableLossless(w, w.resource.value.spec.tokens, p);
  }

  /** Otherwise the status forgets the application made before, which stays. */
  lemma RenameForgets(w: World, p: Pass, previous: nat)
    requires Sound(w.apps) && w.resource.Some? && w.resource.value.status.applicationID == Some(previous) && previous < w.apps.nextID
    requires Holder(w.apps.list, w.resource.value.spec.appName).None?
    requires Admitted(p) && p.app.Fine? && Written(p)
    ensures var a := Phases(w, p);
            a.resource.Some? && a.resource.value.status.applicationID == Some(w.apps.nextID) != Some(previous) &&
            forall x :: x in w.apps.list ==> x in a.apps.list
  {
    PhasesParts(w, p);
  }
}
