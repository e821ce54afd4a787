/**
 * Ingress rule lists: the cloudflared configuration edited in place (internal/cloudflared/configmap.go)
 * and the catch-all added on the API side (internal/cloudflare/tunnel.go), under first-match routing.
 */
module Ingress {
  import opened GoTypes

  /** Per-rule origin settings, carried along unread. */
  type OriginRequest(==)

  datatype IngressRule = IngressRule(hostname: string, path: string, service: string, origin: Option<OriginRequest>)

  const NOT_FOUND := "http_status:404"
  const DEFAULT_METRICS_PORT := 2000

  predicate IsCatchAll(r: IngressRule) {
    r.hostname == "" && r.path == ""
  }

  function CatchAll(service: string): IngressRule {
    IngressRule("", "", service, None)
  }

  predicate EndsInCatchAll(rules: seq<IngressRule>) {
    rules != [] && IsCatchAll(rules[|rules| - 1])
  }

  /** The rules before the final catch-all, if there is one. */
  function Body(rules: seq<IngressRule>): seq<IngressRule> {
    if EndsInCatchAll(rules) then rules[..|rules| - 1] else rules
  }

  function Tail(rules: seq<IngressRule>): seq<IngressRule> {
    if EndsInCatchAll(rules) then [rules[|rules| - 1]] else []
  }

  // ---------------------------------------------------------------- the configuration, edited in place

  /** What NewTunnelConfig reads of a CloudflareTunnel. */
  datatype TunnelSpec = TunnelSpec(protocol: string, metricsPort: int, fallbackTarget: string,
                                   connectTimeout: string, noTLSVerify: bool, http2Origin: bool)

  datatype OriginDefaults = OriginDefaults(connectTimeout: string, noTLSVerify: bool, http2Origin: bool)

  datatype ConfigError = NoTunnelID | NoRules | LastNotCatchAll | NoService(index: nat)

  /** The Ingress slice is the first `length` elements of `backing`; the rest is spare capacity. */
  class TunnelConfig {
    var tunnelID: string
    var protocol: string
    var metricsPort: int
    var noAutoUpdate: bool
    var originRequest: Option<OriginDefaults>
    var backing: array<IngressRule>
    var length: nat

    ghost predicate Valid()
      reads this
    {
      length <= backing.Length
    }

    ghost function Rules(): seq<IngressRule>
      reads this, backing
      requires Valid()
    {
      backing[..length]
    }

    /** NewTunnelConfig: defaults from the tunnel, and one catch-all rule. */
    constructor (tunnel: TunnelSpec, tunnelID: string)
      ensures Valid() && fresh(backing)
      ensures Rules() == [IngressRule("", "", if tunnel.fallbackTarget == "" then "http_status:404" else tunnel.fallbackTarget, None)]
      ensures this.tunnelID == tunnelID && noAutoUpdate
      ensures metricsPort == if tunnel.metricsPort > 0 then tunnel.metricsPort else 2000
      ensures protocol == if tunnel.protocol == "auto" then "" else tunnel.protocol
      ensures originRequest.None? <==> tunnel.connectTimeout == "" && !tunnel.noTLSVerify && !tunnel.http2Origin
      ensures originRequest.Some? ==>
                originRequest.value == OriginDefaults(tunnel.connectTimeout, tunnel.noTLSVerify, tunnel.http2Origin)
    {
      this.tunnelID, noAutoUpdate := tunnelID, true;
      metricsPort := if tunnel.metricsPort > 0 then tunnel.metricsPort else DEFAULT_METRICS_PORT;
      protocol := if tunnel.protocol != "" && tunnel.protocol != "auto" then tunnel.protocol else "";
      originRequest := if tunnel.connectTimeout != "" || tunnel.noTLSVerify || tunnel.http2Origin
                       then Some(OriginDefaults(tunnel.connectTimeout, tunnel.noTLSVerify, tunnel.http2Origin)) else None;
      backing, length := new IngressRule[0], 0;
      new;
      var fallback := tunnel.fallbackTarget;
      if fallback == "" {
        fallback := NOT_FOUND;
      }
      AppendAt(0, [CatchAll(fallback)]);
    }

    /** c.Ingress = append(c.Ingress[:n], xs...): in the backing array if it has room, in a new one otherwise. */
    method AppendAt(n: nat, xs: seq<IngressRule>)
      requires Valid() && n <= length && xs != []
      modifies this`backing, this`length, backing
      ensures Valid() && (backing == old(backing) || fresh(backing))
      ensures Rules() == old(Rules())[..n] + xs
    {
      if n + |xs| > backing.Length {
        var kept := backing[..n];
        backing := new IngressRule[2 * (n + |xs|)](i => if 0 <= i < |kept| then kept[i] else xs[0]);
        assert backing[..n] == kept;
      }
      for i := 0 to |xs|
        invariant n + |xs| <= backing.Length && (backing == old(backing) || fresh(backing))
        invariant backing[..n] == old(backing[..n])
        invariant forall k :: 0 <= k < i ==> backing[n + k] == xs[k]
      {
        backing[n + i] := xs[i];
      }
      length := n + |xs|;
      assert backing[..length] == backing[..n] + xs;
    }

    /** AddRule inserts before the final catch-all, whose value was read before anything is overwritten. */
    method AddRule(rule: IngressRule)
      requires Valid()
      modifies this`backing, this`length, backing
      ensures Valid() && (backing == old(backing) || fresh(backing))
      ensures Rules() == Apply(old(Rules()), Add(rule))
    {
      if length == 0 {
        AppendAt(0, [rule]);
        return;
      }
      var lastIdx := length - 1;
      var catchAll := backing[lastIdx];
      assert catchAll == Rules()[|Rules()| - 1];
      if catchAll.hostname == "" && catchAll.path == "" {
        AppendAt(lastIdx, [rule, catchAll]);
      } else {
        AppendAt(length, [rule]);
      }
    }

    /** SetCatchAll replaces the final catch-all, or adds one. */
    method SetCatchAll(service: string)
      requires Valid()
      modifies this`backing, this`length, backing
      ensures Valid() && (backing == old(backing) || fresh(backing))
      ensures Rules() == Apply(old(Rules()), SetFallback(service))
    {
      if length > 0 {
        var lastIdx := length - 1;
        var lastRule := backing[lastIdx];
        assert lastRule == Rules()[|Rules()| - 1];
        if lastRule.hostname == "" && lastRule.path == "" {
          length := lastIdx;
        }
      }
      AppendAt(length, [CatchAll(service)]);
    }

    /** Validate: no error exactly for a named tunnel with a sound rule list; otherwise the first fault. */
    method Validate() returns (r: Option<ConfigError>)
      requires Valid()
      ensures r.None? <==> tunnelID != "" && Sound(Rules())
      ensures r == Some(NoTunnelID) <==> tunnelID == ""
      ensures r == Some(NoRules) <==> tunnelID != "" && Rules() == []
      ensures r == Some(LastNotCatchAll) <==> tunnelID != "" && Rules() != [] && !EndsInCatchAll(Rules())
      ensures r.Some? && r.value.NoService? ==>
                && r.value.index < |Rules()| && Rules()[r.value.index].service == ""
                && forall i :: 0 <= i < r.value.index ==> Rules()[i].service != ""
    {
      if tunnelID == "" {
        return Some(NoTunnelID);
      }
      if length == 0 {
        return Some(NoRules);
      }
      var lastRule := backing[length - 1];
      if lastRule.hostname != "" || lastRule.path != "" {
        return Some(LastNotCatchAll);
      }
      for i := 0 to length
        invariant forall k :: 0 <= k < i ==> Rules()[k].service != ""
      {
        if backing[i].service == "" {
          return Some(NoService(i));
        }
      }
      r := None;
    }
  }

  /** A list that can be served: it ends in a catch-all and every rule names a service. */
  predicate Sound(rules: seq<IngressRule>) {
    EndsInCatchAll(rules) && forall i :: 0 <= i < |rules| ==> rules[i].service != ""
  }

  // ---------------------------------------------------------------- routing

  /** How a hostname pattern and a path pattern match a request; anything will do. */
  type Matcher<!Request> = (string, string, Request) -> bool

  predicate Matches<Request>(m: Matcher<Request>, r: IngressRule, q: Request) {
    IsCatchAll(r) || m(r.hostname, r.path, q)
  }

  /** The first rule that matches. */
  function Route<Request>(m: Matcher<Request>, rules: seq<IngressRule>, q: Request): (r: Option<IngressRule>)
    ensures EndsInCatchAll(rules) ==> r.Some?
  {
    if rules == [] then None
    else if Matches(m, rules[0], q) then Some(rules[0])
    else
      assert |rules| > 1 ==> rules[1..][|rules| - 2] == rules[|rules| - 1];
      Route(m, rules[1..], q)
  }

  lemma {:induction false} RouteConcat<Request>(m: Matcher<Request>, a: seq<IngressRule>, b: seq<IngressRule>, q: Request)
    ensures Route(m, a + b, q) == if Route(m, a, q).Some? then Route(m, a, q) else Route(m, b, q)
  {
    if a == [] {
      assert a + b == b;
    } else {
      assert (a + b)[1..] == a[1..] + b;
      RouteConcat(m, a[1..], b, q);
    }
  }

  datatype Edit = Add(rule: IngressRule) | SetFallback(service: string)

  function Apply(rules: seq<IngressRule>, e: Edit): seq<IngressRule> {
    match e
    case Add(rule) => Body(rules) + [rule] + Tail(rules)
    case SetFallback(service) => Body(rules) + [CatchAll(service)]
  }

  function ApplyAll(rules: seq<IngressRule>, es: seq<Edit>): seq<IngressRule> {
    if es == [] then rules else Apply(ApplyAll(rules, es[..|es| - 1]), es[|es| - 1])
  }

  predicate NamesService(e: Edit) {
    match e
    case Add(rule) => rule.service != ""
    case SetFallback(service) => service != ""
  }

  /**
   * An edit changes where a request goes only if it reached the final catch-all before (or nothing at
   * all), and says exactly where it goes then.
   */
  lemma EditLocal<Request>(m: Matcher<Request>, rules: seq<IngressRule>, e: Edit, q: Request)
    ensures Route(m, Apply(rules, e), q) ==
            if Route(m, Body(rules), q).Some? then Route(m, rules, q)
            else match e
                 case Add(rule) => if Matches(m, rule, q) then Some(rule) else Route(m, Tail(rules), q)
                 case SetFallback(service) => Some(CatchAll(service))
    ensures Route(m, Body(rules), q).None? ==> Route(m, rules, q) == Route(m, Tail(rules), q)
  {
    assert rules == Body(rules) + Tail(rules);
    RouteConcat(m, Body(rules), Tail(rules), q);
    match e
    case Add(rule) =>
      assert Apply(rules, e) == Body(rules) + ([rule] + Tail(rules));
      assert ([rule] + Tail(rules))[1..] == Tail(rules);
      RouteConcat(m, Body(rules), [rule] + Tail(rules), q);
    case SetFallback(service) =>
      RouteConcat(m, Body(rules), [CatchAll(service)], q);
  }

  /** The edits on the fields: a final rule without hostname and path is the catch-all, and nothing else is. */
  lemma EditExactly(rules: seq<IngressRule>, rule: IngressRule, service: string)
    ensures if rules != [] && rules[|rules| - 1].hostname == "" && rules[|rules| - 1].path == ""
            then && Apply(rules, Add(rule)) == rules[..|rules| - 1] + [rule, rules[|rules| - 1]]
                 && Apply(rules, SetFallback(service)) == rules[..|rules| - 1] + [IngressRule("", "", service, None)]
            else && Apply(rules, Add(rule)) == rules + [rule]
                 && Apply(rules, SetFallback(service)) == rules + [IngressRule("", "", service, None)]
  {
  }

  lemma SoundExactly(rules: seq<IngressRule>)
    ensures Sound(rules) <==>
            && rules != [] && rules[|rules| - 1].hostname == "" && rules[|rules| - 1].path == ""
            && forall i :: 0 <= i < |rules| ==> rules[i].service != ""
  {
  }

  lemma EditSound(rules: seq<IngressRule>, e: Edit)
    requires Sound(rules) && NamesService(e)
    ensures Sound(Apply(rules, e))
  {
    var after := Apply(rules, e);
    forall i | 0 <= i < |after| ensures after[i].service != "" {
      if i < |Body(rules)| { assert after[i] == rules[i]; }
    }
  }

  /**
   * Whatever edits follow NewTunnelConfig, with services named throughout, the list passes Validate and
   * every request has a route.
   */
  lemma {:induction false} EditsRoute<Request>(m: Matcher<Request>, fallback: string, es: seq<Edit>, q: Request)
    requires fallback != "" && forall i :: 0 <= i < |es| ==> NamesService(es[i])
    ensures Sound(ApplyAll([CatchAll(fallback)], es))
    ensures Route(m, ApplyAll([CatchAll(fallback)], es), q).Some?
  {
    if es != [] {
      EditsRoute(m, fallback, es[..|es| - 1], q);
      EditSound(ApplyAll([CatchAll(fallback)], es[..|es| - 1]), es[|es| - 1]);
    }
  }

  /** A rule added first wins over any added later: the rules keep the order in which they came. */
  lemma {:induction false} EarlierRuleWins<Request>(m: Matcher<Request>, rules: seq<IngressRule>, es: seq<Edit>, q: Request)
    requires Route(m, Body(rules), q).Some? && EndsInCatchAll(rules)
    ensures Route(m, ApplyAll(rules, es), q) == Route(m, rules, q)
    ensures EndsInCatchAll(ApplyAll(rules, es)) && Route(m, Body(ApplyAll(rules, es)), q).Some?
  {
    assert rules == Body(rules) + Tail(rules);
    RouteConcat(m, Body(rules), Tail(rules), q);
    if es != [] {
      var before := ApplyAll(rules, es[..|es| - 1]);
      EarlierRuleWins(m, rules, es[..|es| - 1], q);
      EditLocal(m, before, es[|es| - 1], q);
      match es[|es| - 1]
      case Add(rule) =>
        assert Body(Apply(before, Add(rule))) == Body(before) + [rule];
        RouteConcat(m, Body(before), [rule], q);
      case SetFallback(service) =>
        assert Body(Apply(before, SetFallback(service))) == Body(before);
    }
  }

  // ---------------------------------------------------------------- the API side

  /** ensureCatchAllRule. */
  function EnsureCatchAll(rules: seq<IngressRule>): seq<IngressRule> {
    if |rules| == 0 then rules + [CatchAll(NOT_FOUND)]
    else
      var lastRule := rules[|rules| - 1];
      if lastRule.hostname == "" && lastRule.path == "" then rules else rules + [CatchAll(NOT_FOUND)]
  }

  /** It routes every request, keeps every earlier match, sends the rest to 404, and does nothing twice. */
  lemma EnsureCatchAllRoutes<Request>(m: Matcher<Request>, rules: seq<IngressRule>, q: Request)
    ensures Route(m, EnsureCatchAll(rules), q) ==
            if Route(m, rules, q).Some? then Route(m, rules, q) else Some(IngressRule("", "", "http_status:404", None))
    ensures EnsureCatchAll(EnsureCatchAll(rules)) == EnsureCatchAll(rules)
    ensures rules <= EnsureCatchAll(rules)
    ensures EnsureCatchAll(rules) == rules <==> rules != [] && rules[|rules| - 1].hostname == "" && rules[|rules| - 1].path == ""
  {
    RouteConcat(m, rules, [CatchAll(NOT_FOUND)], q);
  }
}
