/**
 * Service token lifecycle (internal/cloudflare/access.go): find by name, rotate after expiry, create
 * if missing, and store the credentials that only the create and rotate responses carry.
 */
module ServiceTokens {
  import opened GoTypes

  /** A token as the server keeps it; times are instants on one clock. */
  datatype Token = Token(id: nat, name: Name, clientID: nat, secret: nat, expiresAt: int)

  /** ServiceToken: what listing shows. Create and rotate responses carry no expiry. */
  datatype ServiceToken = ServiceToken(id: nat, name: Name, clientID: nat, expiresAt: Option<int>)

  datatype Credentials = Credentials(clientID: nat, secret: nat)

  datatype Error = ListFailed | RotateFailed | CreateFailed | StoreFailed

  function Shown(t: Token): ServiceToken {
    ServiceToken(t.id, t.name, t.clientID, Some(t.expiresAt))
  }

  function CredentialsOf(t: Token): Credentials {
    Credentials(t.clientID, t.secret)
  }

  /** The first token with the name, the only one the lookup loop ever uses. */
  function First(ts: seq<Token>, n: Name): (r: Option<nat>)
    ensures r.Some? ==> r.value < |ts| && ts[r.value].name == n && forall i :: 0 <= i < r.value ==> ts[i].name != n
    ensures r.None? ==> forall i :: 0 <= i < |ts| ==> ts[i].name != n
  {
    if ts == [] then None
    else if ts[0].name == n then Some(0)
    else
      var r := First(ts[1..], n);
      if r.None? then None else
        assert forall i :: 0 < i < r.value + 1 ==> ts[i] == ts[1..][i - 1];
        Some(r.value + 1)
  }

  /** The server. A failed call may or may not have taken effect; secrets are never reissued. `faults` counts failed calls. */
  class TokenAPI {
    var tokens: seq<Token>
    var nextID: nat
    var nextSecret: nat
    ghost var faults: nat

    constructor ()
      ensures tokens == []
    {
      tokens, nextID, nextSecret, faults := [], 0, 0, 0;
    }

    method List() returns (r: Result<seq<ServiceToken>, Error>)
      modifies this`faults
      ensures faults == old(faults) + (if r.Ok? then 0 else 1)
      ensures r.Ok? ==> |r.value| == |tokens| && forall i :: 0 <= i < |tokens| ==> r.value[i] == Shown(tokens[i])
    {
      var up: bool := *;
      faults := faults + (if up then 0 else 1);
      r := if up then Ok(seq(|tokens|, i requires 0 <= i < |tokens| reads this => Shown(tokens[i]))) else Err(ListFailed);
    }

    method Create(name: Name) returns (r: Result<(ServiceToken, Credentials), Error>, ghost made: Option<Token>)
      modifies this
      ensures made.None? ==> r.Err? && tokens == old(tokens) && nextID == old(nextID) && nextSecret == old(nextSecret)
      ensures made.Some? ==>
                && made.value.name == name && made.value.id == old(nextID) && made.value.secret == old(nextSecret)
                && tokens == old(tokens) + [made.value] && nextID == old(nextID) + 1 && nextSecret == old(nextSecret) + 1
      ensures r.Ok? ==> made.Some? && r.value == (Shown(made.value).(expiresAt := None), CredentialsOf(made.value))
      ensures faults == old(faults) + (if r.Ok? then 0 else 1)
    {
      var reached, answered: bool := *, *;
      faults := faults + (if reached && answered then 0 else 1);
      var clientID: nat, expiresAt: int := *, *;
      var t := Token(nextID, name, clientID, nextSecret, expiresAt);
      made := None;
      if reached {
        tokens, nextID, nextSecret := tokens + [t], nextID + 1, nextSecret + 1;
        made := Some(t);
      }
      r := if reached && answered then Ok((Shown(t).(expiresAt := None), CredentialsOf(t))) else Err(CreateFailed);
    }

    /** A rotation replaces the credentials of the token at index `k`, whose ID is `id`. */
    method Rotate(id: nat, ghost k: nat) returns (r: Result<(ServiceToken, Credentials), Error>, ghost made: Option<Token>)
      requires k < |tokens| && tokens[k].id == id && forall i :: 0 <= i < k ==> tokens[i].id != id
      modifies this
      ensures nextID == old(nextID)
      ensures made.None? ==> r.Err? && tokens == old(tokens) && nextSecret == old(nextSecret)
      ensures made.Some? ==>
                && made.value.name == old(tokens[k].name) && made.value.id == id && made.value.secret == old(nextSecret)
                && tokens == old(tokens)[k := made.value] && nextSecret == old(nextSecret) + 1
      ensures r.Ok? ==> made.Some? && r.value == (Shown(made.value).(expiresAt := None), CredentialsOf(made.value))
      ensures faults == old(faults) + (if r.Ok? then 0 else 1)
    {
      var reached, answered: bool := *, *;
      faults := faults + (if reached && answered then 0 else 1);
      var clientID: nat, expiresAt: int := *, *;
      var j := 0;
      while tokens[j].id != id
        invariant 0 <= j <= k
        decreases k - j
      {
        j := j + 1;
      }
      var t := Token(id, tokens[j].name, clientID, nextSecret, expiresAt);
      made := None;
      if reached {
        tokens, nextSecret := tokens[j := t], nextSecret + 1;
        made := Some(t);
      }
      r := if reached && answered then Ok((Shown(t).(expiresAt := None), CredentialsOf(t))) else Err(RotateFailed);
    }
  }

  /** SecretWriter: the Kubernetes Secret one token's credentials go to. */
  class SecretWriter {
    var stored: Option<Credentials>
    ghost var faults: nat

    constructor ()
      ensures stored == None
    {
      stored, faults := None, 0;
    }

    method WriteSecret(c: Credentials) returns (ok: bool, ghost applied: bool)
      modifies this
      ensures ok ==> applied
      ensures stored == if applied then Some(c) else old(stored)
      ensures faults == old(faults) + (if ok then 0 else 1)
    {
      var reached, answered: bool := *, *;
      faults := faults + (if reached && answered then 0 else 1);
      if reached {
        stored := Some(c);
      }
      ok, applied := reached && answered, reached;
    }
  }

  // ---------------------------------------------------------------- one call

  /** Server and Secret together. */
  datatype World = World(tokens: seq<Token>, nextID: nat, nextSecret: nat, stored: Option<Credentials>)

  /** What one call did: nothing, or new credentials that did or did not reach the Secret. */
  datatype Step = Idle | Created(token: Token, saved: bool) | Rotated(index: nat, token: Token, saved: bool)

  ghost predicate Took(b: World, n: Name, now: int, s: Step, a: World) {
    match s
    case Idle => a == b
    case Created(t, saved) =>
      && First(b.tokens, n) == None
      && t.name == n && t.id == b.nextID && t.secret == b.nextSecret
      && a == World(b.tokens + [t], b.nextID + 1, b.nextSecret + 1, if saved then Some(CredentialsOf(t)) else b.stored)
    case Rotated(k, t, saved) =>
      && First(b.tokens, n) == Some(k) && now > b.tokens[k].expiresAt
      && t.name == n && t.id == b.tokens[k].id && t.secret == b.nextSecret
      && a == World(b.tokens[k := t], b.nextID, b.nextSecret + 1, if saved then Some(CredentialsOf(t)) else b.stored)
  }

  ghost predicate UniqueIDs(ts: seq<Token>) {
    forall i, j :: 0 <= i < j < |ts| ==> ts[i].id != ts[j].id
  }

  ghost function Stored(w: SecretWriter?): Option<Credentials>
    reads w
  {
    if w == null then None else w.stored
  }

  /** The failed calls so far, to the server or the Secret. */
  ghost function Faults(api: TokenAPI, w: SecretWriter?): nat
    reads api, w
  {
    api.faults + (if w == null then 0 else w.faults)
  }

  ghost function Snapshot(api: TokenAPI, w: SecretWriter?): World
    reads api, w
  {
    World(api.tokens, api.nextID, api.nextSecret, Stored(w))
  }

  /**
   * EnsureServiceToken. The step it took is one of the three; without an error the returned token is
   * the one now found under the name, unexpired if it was left alone, and any new credentials were
   * saved if there was a writer. There is an error exactly if a call failed.
   */
  method EnsureServiceToken(api: TokenAPI, name: Name, now: int, secretWriter: SecretWriter?)
    returns (r: Result<ServiceToken, Error>, ghost step: Step)
    requires UniqueIDs(api.tokens)
    modifies api, secretWriter
    ensures Took(old(Snapshot(api, secretWriter)), name, now, step, Snapshot(api, secretWriter))
    ensures r.Ok? ==> First(api.tokens, name).Some? && r.value.id == api.tokens[First(api.tokens, name).value].id
    ensures r.Ok? ==> r.value.clientID == api.tokens[First(api.tokens, name).value].clientID
    ensures r.Ok? && step.Idle? ==> now <= api.tokens[First(api.tokens, name).value].expiresAt
    ensures r.Ok? && !step.Idle? && secretWriter != null ==>
              var t := api.tokens[First(api.tokens, name).value];
              step.saved && secretWriter.stored == Some(Credentials(t.clientID, t.secret))
    ensures Faults(api, secretWriter) == old(Faults(api, secretWriter)) + (if r.Ok? then 0 else 1)
  {
    step := Idle;
    var listed := api.List();
    if listed.Err? {
      return Err(listed.error), step;
    }
    var tokens := listed.value;
    var k := Search(tokens, name);
    FirstIs(api.tokens, name, k);
    if k < |tokens| {
      var existing := tokens[k];
      if existing.expiresAt.Some? && now > existing.expiresAt.value {
        r, step := RotateExpired(api, name, now, k, secretWriter);
        return r, step;
      }
      return Ok(existing), step;
    }
    r, step := CreateMissing(api, name, now, secretWriter);
  }

  /** Storing new credentials, if there is somewhere to store them. */
  method Save(secretWriter: SecretWriter?, c: Credentials) returns (ok: bool, ghost applied: bool)
    modifies secretWriter
    ensures Stored(secretWriter) == if applied then Some(c) else old(Stored(secretWriter))
    ensures ok && secretWriter != null ==> applied
    ensures secretWriter == null ==> ok && !applied
    ensures secretWriter != null ==> secretWriter.faults == old(secretWriter.faults) + (if ok then 0 else 1)
  {
    if secretWriter == null {
      return true, false;
    }
    ok, applied := secretWriter.WriteSecret(c);
  }

  method RotateExpired(api: TokenAPI, name: Name, now: int, k: nat, secretWriter: SecretWriter?)
    returns (r: Result<ServiceToken, Error>, ghost step: Step)
    requires UniqueIDs(api.tokens) && First(api.tokens, name) == Some(k) && now > api.tokens[k].expiresAt
    modifies api, secretWriter
    ensures Took(old(Snapshot(api, secretWriter)), name, now, step, Snapshot(api, secretWriter))
    ensures r.Ok? ==> First(api.tokens, name) == Some(k) && r.value.id == api.tokens[k].id && r.value.clientID == api.tokens[k].clientID
    ensures r.Ok? ==> step.Rotated? && (secretWriter != null ==> step.saved)
    ensures r.Ok? && secretWriter != null ==> secretWriter.stored == Some(Credentials(api.tokens[k].clientID, api.tokens[k].secret))
    ensures Faults(api, secretWriter) == old(Faults(api, secretWriter)) + (if r.Ok? then 0 else 1)
  {
    step := Idle;
    var rotated, made := api.Rotate(api.tokens[k].id, k);
    if made.Some? {
      step := Rotated(k, made.value, false);
      FirstIs(api.tokens, name, k);
    }
    if rotated.Err? {
      return Err(rotated.error), step;
    }
    var ok, applied := Save(secretWriter, rotated.value.1);
    step := Rotated(k, made.value, applied);
    r := if ok then Ok(rotated.value.0) else Err(StoreFailed);
  }

  method CreateMissing(api: TokenAPI, name: Name, now: int, secretWriter: SecretWriter?)
    returns (r: Result<ServiceToken, Error>, ghost step: Step)
    requires First(api.tokens, name) == None
    modifies api, secretWriter
    ensures Took(old(Snapshot(api, secretWriter)), name, now, step, Snapshot(api, secretWriter))
    ensures r.Ok? ==> First(api.tokens, name) == Some(|old(api.tokens)|) && |api.tokens| == |old(api.tokens)| + 1
    ensures r.Ok? ==> r.value.id == api.tokens[|old(api.tokens)|].id && r.value.clientID == api.tokens[|old(api.tokens)|].clientID
    ensures r.Ok? ==> step.Created? && (secretWriter != null ==> step.saved)
    ensures r.Ok? && secretWriter != null ==>
              var t := api.tokens[|old(api.tokens)|]; secretWriter.stored == Some(Credentials(t.clientID, t.secret))
    ensures Faults(api, secretWriter) == old(Faults(api, secretWriter)) + (if r.Ok? then 0 else 1)
  {
    step := Idle;
    var created, made := api.Create(name);
    if made.Some? {
      step := Created(made.value, false);
      FirstIs(api.tokens, name, |old(api.tokens)|);
    }
    if created.Err? {
      return Err(created.error), step;
    }
    var ok, applied := Save(secretWriter, created.value.1);
    step := Created(made.value, applied);
    r := if ok then Ok(created.value.0) else Err(StoreFailed);
  }

  /** The lookup loop: the index of the first token with the name, or the length of the list. */
  method Search(tokens: seq<ServiceToken>, name: Name) returns (k: nat)
    ensures k <= |tokens| && forall i :: 0 <= i < k ==> tokens[i].name != name
    ensures k < |tokens| ==> tokens[k].name == name
  {
    k := 0;
    while k < |tokens| && tokens[k].name != name
      invariant k <= |tokens| && forall i :: 0 <= i < k ==> tokens[i].name != name
    {
      k := k + 1;
    }
  }

  lemma FirstIs(ts: seq<Token>, n: Name, k: nat)
    requires k <= |ts| && forall i :: 0 <= i < k ==> ts[i].name != n
    requires k < |ts| ==> ts[k].name == n
    ensures First(ts, n) == if k < |ts| then Some(k) else None
  {
  }

  // ---------------------------------------------------------------- runs of calls

  datatype Call = Call(now: int, step: Step, after: World)

  /** Calls for one name, one after another, nobody else touching its tokens or the Secret. */
  ghost predicate Run(w: World, n: Name, cs: seq<Call>)
    decreases |cs|
  {
    cs == [] || (Took(w, n, cs[0].now, cs[0].step, cs[0].after) && Run(cs[0].after, n, cs[1..]))
  }

  function Final(w: World, cs: seq<Call>): World {
    if cs == [] then w else cs[|cs| - 1].after
  }

  function Creates(cs: seq<Call>): nat {
    if cs == [] then 0 else (if cs[0].step.Created? then 1 else 0) + Creates(cs[1..])
  }

  lemma FoundAfter(b: World, n: Name, now: int, s: Step, a: World)
    requires Took(b, n, now, s, a)
    ensures First(a.tokens, n).Some? <==> First(b.tokens, n).Some? || s.Created?
    ensures s.Created? ==> First(a.tokens, n) == Some(|b.tokens|) && a.tokens[|b.tokens|] == s.token
    ensures !s.Created? ==> First(a.tokens, n) == First(b.tokens, n)
    ensures s.Rotated? ==> a.tokens[s.index] == s.token
  {
    match s
    case Idle =>
    case Created(t, _) => FirstIs(a.tokens, n, |b.tokens|);
    case Rotated(k, t, _) => FirstIs(a.tokens, n, k);
  }

  /** Over any run at most one create takes effect, and none if the name was taken at the start. */
  lemma {:induction false} AtMostOneCreate(w: World, n: Name, cs: seq<Call>)
    requires Run(w, n, cs)
    ensures Creates(cs) + (if First(w.tokens, n).Some? then 1 else 0) <= 1
    decreases |cs|
  {
    if cs != [] {
      FoundAfter(w, n, cs[0].now, cs[0].step, cs[0].after);
      AtMostOneCreate(cs[0].after, n, cs[1..]);
    }
  }

  /** The Secret holds the current credentials of the token. */
  ghost predicate InSync(w: World, n: Name) {
    First(w.tokens, n).Some? && w.stored == Some(CredentialsOf(w.tokens[First(w.tokens, n).value]))
  }

  /** Nothing in the Secret is newer than the last secret given out. */
  ghost predicate Dated(w: World) {
    w.stored.Some? ==> w.stored.value.secret < w.nextSecret
  }

  /** The last step of a run that issued credentials. */
  function LastIssue(cs: seq<Call>): Option<Step> {
    if cs == [] then None
    else if !cs[|cs| - 1].step.Idle? then Some(cs[|cs| - 1].step)
    else LastIssue(cs[..|cs| - 1])
  }

  lemma StepSync(b: World, n: Name, now: int, s: Step, a: World)
    requires Took(b, n, now, s, a) && Dated(b)
    ensures Dated(a)
    ensures InSync(a, n) <==> if s.Idle? then InSync(b, n) else s.saved
  {
    FoundAfter(b, n, now, s, a);
  }

  /**
   * After any run the Secret matches the token exactly if the last credentials issued in the run were
   * saved; if none were issued, exactly if it matched before. So with every save succeeding it matches
   * after every call from the create on, and one lost save leaves it wrong until the next rotation.
   */
  lemma {:induction false} SecretTracksToken(w: World, n: Name, cs: seq<Call>)
    requires Run(w, n, cs) && Dated(w)
    ensures Dated(Final(w, cs))
    ensures InSync(Final(w, cs), n) <==>
            match LastIssue(cs) { case None => InSync(w, n) case Some(s) => s.Idle? || s.saved }
  {
    if cs != [] {
      var k := |cs| - 1;
      RunSnoc(w, n, cs);
      SecretTracksToken(w, n, cs[..k]);
      StepSync(Final(w, cs[..k]), n, cs[k].now, cs[k].step, cs[k].after);
    }
  }

  lemma {:induction false} RunSnoc(w: World, n: Name, cs: seq<Call>)
    requires cs != [] && Run(w, n, cs)
    ensures Run(w, n, cs[..|cs| - 1])
    ensures Took(Final(w, cs[..|cs| - 1]), n, cs[|cs| - 1].now, cs[|cs| - 1].step, cs[|cs| - 1].after)
    decreases |cs|
  {
    if |cs| > 1 {
      RunSnoc(cs[0].after, n, cs[1..]);
      assert cs[1..][..|cs| - 2] == cs[..|cs| - 1][1..];
      assert Final(cs[0].after, cs[1..][..|cs| - 2]) == Final(w, cs[..|cs| - 1]);
    }
  }

  /**
   * A call no later than the expiry of the token it finds never touches anything, so a Secret that is
   * wrong (a create whose save failed) stays wrong at least until the token has expired.
   */
  lemma {:induction false} StuckUntilExpiry(w: World, n: Name, cs: seq<Call>)
    requires Run(w, n, cs) && First(w.tokens, n).Some?
    requires forall i :: 0 <= i < |cs| ==> cs[i].now <= w.tokens[First(w.tokens, n).value].expiresAt
    ensures Final(w, cs) == w
    ensures forall i :: 0 <= i < |cs| ==> cs[i].step == Idle
    decreases |cs|
  {
    if cs != [] {
      assert cs[0].after == w;
      forall i | 0 <= i < |cs[1..]| ensures cs[1..][i] == cs[i + 1] {}
      StuckUntilExpiry(w, n, cs[1..]);
      assert Final(w, cs) == Final(w, cs[1..]);
      assert forall i :: 0 < i < |cs| ==> cs[i] == cs[1..][i - 1];
    }
  }
}
