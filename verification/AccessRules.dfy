/**
 * Access rules on their way from the custom resource to Cloudflare and back
 * (internal/controller/cloudflareaccesspolicy_controller.go, internal/cloudflare/client_impl.go):
 * CRD rule -> AccessRuleParam -> SDK union rule -> AccessRuleParam.
 */
module AccessRules {
  import opened GoTypes

  datatype OIDCClaim = OIDCClaim(idp: string, claimName: string, claimValue: string)
  datatype GSuiteGroup = GSuiteGroup(idp: string, email: string)
  datatype ListRef = ListRef(id: string, name: string)

  /** AccessRule of the custom resource: every field is optional. */
  datatype CRDRule = CRDRule(
    ip: Option<seq<string>>,
    ipList: Option<ListRef>,
    country: Option<seq<string>>,
    everyone: Option<bool>,
    serviceToken: Option<string>,
    anyValidServiceToken: Option<bool>,
    email: Option<seq<string>>,
    emailList: Option<ListRef>,
    emailDomain: Option<string>,
    oidcClaim: Option<OIDCClaim>,
    gsuiteGroup: Option<GSuiteGroup>)

  /** AccessRuleParam: a struct of pointers of which one should be set. */
  datatype RuleParam = RuleParam(
    ipRange: Option<string>,
    ipListID: Option<string>,
    country: Option<string>,
    everyone: Option<bool>,
    serviceTokenID: Option<string>,
    anyValidServiceToken: Option<bool>,
    email: Option<string>,
    emailListID: Option<string>,
    emailDomain: Option<string>,
    oidcClaim: Option<OIDCClaim>,
    gsuiteGroup: Option<GSuiteGroup>,
    certificate: Option<bool>,
    commonName: Option<string>,
    groupID: Option<string>)

  const BLANK := RuleParam(None, None, None, None, None, None, None, None, None, None, None, None, None, None)

  /**
   * One condition in the SDK's rule union. A rule also means something: the condition it puts on a
   * request. `Unrecognised` stands for the rule kinds the client cannot read.
   */
  datatype Condition =
    | IP(cidr: string)
    | IPList(id: string)
    | Country(code: string)
    | Everyone
    | ServiceToken(tokenID: string)
    | AnyValidServiceToken
    | Email(address: string)
    | EmailList(id: string)
    | EmailDomain(domain: string)
    | OIDC(claim: OIDCClaim)
    | GSuite(group: GSuiteGroup)
    | Certificate
    | CommonName(name: string)
    | Group(id: string)
    | Unrecognised(kind: string)

  // ---------------------------------------------------------------- single rules

  /** accessRuleToAPI: the first field that is set decides; list rules have no wire form. */
  function RuleToAPI(p: RuleParam): (r: Option<Condition>)
    ensures r.Some? ==> !r.value.IPList? && !r.value.EmailList? && !r.value.Unrecognised?
  {
    if p.ipRange.Some? then Some(IP(p.ipRange.value))
    else if p.country.Some? then Some(Country(p.country.value))
    else if p.everyone == Some(true) then Some(Everyone)
    else if p.serviceTokenID.Some? then Some(ServiceToken(p.serviceTokenID.value))
    else if p.anyValidServiceToken == Some(true) then Some(AnyValidServiceToken)
    else if p.email.Some? then Some(Email(p.email.value))
    else if p.emailDomain.Some? then Some(EmailDomain(p.emailDomain.value))
    else if p.oidcClaim.Some? then Some(OIDC(p.oidcClaim.value))
    else if p.gsuiteGroup.Some? then Some(GSuite(p.gsuiteGroup.value))
    else if p.certificate == Some(true) then Some(Certificate)
    else if p.groupID.Some? then Some(Group(p.groupID.value))
    else if p.commonName.Some? then Some(CommonName(p.commonName.value))
    else None
  }

  /** accessRuleFromAPI: one branch per kind the client recognises. */
  function RuleFromAPI(c: Condition): (r: Option<RuleParam>)
    ensures r.Some? ==> FieldCount(r.value) == 1
    ensures r.None? <==> c.Unrecognised?
  {
    match c
    case IP(s) => Some(BLANK.(ipRange := Some(s)))
    case Country(s) => Some(BLANK.(country := Some(s)))
    case Everyone => Some(BLANK.(everyone := Some(true)))
    case ServiceToken(s) => Some(BLANK.(serviceTokenID := Some(s)))
    case AnyValidServiceToken => Some(BLANK.(anyValidServiceToken := Some(true)))
    case Email(s) => Some(BLANK.(email := Some(s)))
    case EmailDomain(s) => Some(BLANK.(emailDomain := Some(s)))
    case EmailList(s) => Some(BLANK.(emailListID := Some(s)))
    case IPList(s) => Some(BLANK.(ipListID := Some(s)))
    case OIDC(o) => Some(BLANK.(oidcClaim := Some(o)))
    case GSuite(g) => Some(BLANK.(gsuiteGroup := Some(g)))
    case Certificate => Some(BLANK.(certificate := Some(true)))
    case CommonName(s) => Some(BLANK.(commonName := Some(s)))
    case Group(s) => Some(BLANK.(groupID := Some(s)))
    case Unrecognised(_) => None
  }

  function Set<T>(o: Option<T>): nat {
    if o.Some? then 1 else 0
  }

  /** How many of the fourteen pointers are set. */
  function FieldCount(p: RuleParam): nat {
    Set(p.ipRange) + Set(p.ipListID) + Set(p.country) + Set(p.everyone) + Set(p.serviceTokenID) +
    Set(p.anyValidServiceToken) + Set(p.email) + Set(p.emailListID) + Set(p.emailDomain) +
    Set(p.oidcClaim) + Set(p.gsuiteGroup) + Set(p.certificate) + Set(p.commonName) + Set(p.groupID)
  }

  /** A param the wire can carry: one field set, a flag set to true, and not a list reference. */
  predicate Sendable(p: RuleParam) {
    && FieldCount(p) == 1
    && (p.everyone.Some? ==> p.everyone.value)
    && (p.anyValidServiceToken.Some? ==> p.anyValidServiceToken.value)
    && (p.certificate.Some? ==> p.certificate.value)
    && p.ipListID.None? && p.emailListID.None?
  }

  /** What comes back after sending `p`. */
  function EchoRule(p: RuleParam): Option<RuleParam> {
    var c := RuleToAPI(p);
    if c.None? then None else RuleFromAPI(c.value)
  }

  /** A param is read back as it was sent exactly when it is sendable. */
  lemma RuleRoundTrip(p: RuleParam)
    ensures EchoRule(p) == Some(p) <==> Sendable(p)
  {
    var c := RuleToAPI(p);
    if c.Some? {
      var q := RuleFromAPI(c.value).value;
      assert FieldCount(q) == 1;
      assert Sendable(q);
    }
  }

  /** Reading a rule and sending it again gives the same rule, except for the kinds without a wire form. */
  lemma ConditionRoundTrip(c: Condition)
    requires !c.Unrecognised?
    ensures RuleToAPI(RuleFromAPI(c).value) == if c.IPList? || c.EmailList? then None else Some(c)
    ensures Sendable(RuleFromAPI(c).value) <==> !c.IPList? && !c.EmailList?
  {
  }

  // ---------------------------------------------------------------- lists of rules

  function SendAll(rules: seq<RuleParam>): seq<Condition> {
    FilterMap(RuleToAPI, rules)
  }

  function ReadAll(wire: seq<Condition>): seq<RuleParam> {
    FilterMap(RuleFromAPI, wire)
  }

  /** accessRulesToAPI. */
  method AccessRulesToAPI(rules: Slice<RuleParam>) returns (sent: seq<Condition>)
    ensures sent == SendAll(rules.Items())
  {
    sent := [];
    var items := rules.Items();
    for i := 0 to |items|
      invariant sent == SendAll(items[..i])
    {
      FilterMapStep(RuleToAPI, items, i);
      var c := RuleToAPI(items[i]);
      if c.Some? {
        sent := sent + [c.value];
      }
    }
    assert items[..|items|] == items;
  }

  /** What the list comes back as: nil when the server holds no rule at all. */
  function ReadSlice(wire: seq<Condition>): Slice<RuleParam> {
    if wire == [] then Nil else Of(ReadAll(wire))
  }

  /** accessRulesFromAPI: nil for no rules, otherwise the recognised rules in order. */
  method AccessRulesFromAPI(wire: seq<Condition>) returns (rules: Slice<RuleParam>)
    ensures rules == ReadSlice(wire)
  {
    if |wire| == 0 {
      return Nil;
    }
    var result := [];
    for i := 0 to |wire|
      invariant result == ReadAll(wire[..i])
    {
      FilterMapStep(RuleFromAPI, wire, i);
      var p := RuleFromAPI(wire[i]);
      if p.Some? {
        result := result + [p.value];
      }
    }
    assert wire[..|wire|] == wire;
    rules := Of(result);
  }

  /** Sending a list and reading it back. */
  function Echo(rules: Slice<RuleParam>): Slice<RuleParam> {
    ReadSlice(SendAll(rules.Items()))
  }

  /** A rule list that `accessPolicyEqual` will find unchanged after it has been written. */
  predicate Settles(rules: Slice<RuleParam>) {
    rules.Nil? || (rules.items != [] && forall i :: 0 <= i < |rules.items| ==> Sendable(rules.items[i]))
  }

  /** The round trip through the wire is the identity exactly on the lists that settle. */
  lemma EchoExact(rules: Slice<RuleParam>)
    ensures Echo(rules) == rules <==> Settles(rules)
  {
    var items := rules.Items();
    FilterMapEcho(RuleToAPI, RuleFromAPI, items);
    forall i | 0 <= i < |items| {
      RuleRoundTrip(items[i]);
    }
    assert forall i :: 0 <= i < |items| ==> (EchoRule(items[i]) == Some(items[i]) <==> Sendable(items[i]));
  }

  // ---------------------------------------------------------------- custom resource to params

  function Each(f: string -> Condition, xs: seq<string>): (cs: seq<Condition>)
    ensures |cs| == |xs| && forall i :: 0 <= i < |xs| ==> cs[i] == f(xs[i])
  {
    seq(|xs|, i requires 0 <= i < |xs| => f(xs[i]))
  }

  /** The conditions a rule stands for, any one of which satisfies it: its first recognised field. */
  function Conditions(r: CRDRule): (cs: seq<Condition>)
    ensures forall c :: c in cs ==> !c.Unrecognised?
    ensures forall c :: c in cs && (c.Everyone? || Listed(c)) ==> cs == [c]
  {
    if r.ip.Some? then Each(s => IP(s), r.ip.value)
    else if r.ipList.Some? && r.ipList.value.id != "" then [IPList(r.ipList.value.id)]
    else if r.country.Some? then Each(s => Country(s), r.country.value)
    else if r.everyone == Some(true) then [Everyone]
    else if r.serviceToken.Some? && r.serviceToken.value != "" then [ServiceToken(r.serviceToken.value)]
    else if r.anyValidServiceToken == Some(true) then [AnyValidServiceToken]
    else if r.email.Some? then Each(s => Email(s), r.email.value)
    else if r.emailList.Some? && r.emailList.value.id != "" then [EmailList(r.emailList.value.id)]
    else if r.emailDomain.Some? then [EmailDomain(r.emailDomain.value)]
    else if r.oidcClaim.Some? then [OIDC(r.oidcClaim.value)]
    else if r.gsuiteGroup.Some? then [GSuite(r.gsuiteGroup.value)]
    else []
  }

  /** The fields of a written rule. */
  datatype Field =
    | IPField | IPListField | CountryField | EveryoneField | ServiceTokenField | AnyValidServiceTokenField
    | EmailField | EmailListField | EmailDomainField | OIDCClaimField | GSuiteGroupField

  /** The order in which they are looked at. */
  function Rank(f: Field): nat {
    match f
    case IPField => 0
    case IPListField => 1
    case CountryField => 2
    case EveryoneField => 3
    case ServiceTokenField => 4
    case AnyValidServiceTokenField => 5
    case EmailField => 6
    case EmailListField => 7
    case EmailDomainField => 8
    case OIDCClaimField => 9
    case GSuiteGroupField => 10
  }

  /** The field is there and says something. */
  predicate Recognises(r: CRDRule, f: Field) {
    match f
    case IPField => r.ip.Some?
    case IPListField => r.ipList.Some? && r.ipList.value.id != ""
    case CountryField => r.country.Some?
    case EveryoneField => r.everyone == Some(true)
    case ServiceTokenField => r.serviceToken.Some? && r.serviceToken.value != ""
    case AnyValidServiceTokenField => r.anyValidServiceToken == Some(true)
    case EmailField => r.email.Some?
    case EmailListField => r.emailList.Some? && r.emailList.value.id != ""
    case EmailDomainField => r.emailDomain.Some?
    case OIDCClaimField => r.oidcClaim.Some?
    case GSuiteGroupField => r.gsuiteGroup.Some?
  }

  /** The first recognised field decides what the rule is about. */
  predicate Decides(r: CRDRule, f: Field) {
    Recognises(r, f) && forall g: Field :: Rank(g) < Rank(f) ==> !Recognises(r, g)
  }

  /** At most one field decides. */
  lemma OneDecides(r: CRDRule, f: Field, g: Field)
    requires Decides(r, f) && Decides(r, g)
    ensures f == g
  {
    assert Rank(f) == Rank(g);
  }

  /** The conditions listed for the deciding field are its values, in order. */
  lemma ConditionsOf(r: CRDRule, f: Field)
    requires Decides(r, f)
    ensures match f
            case IPField => |Conditions(r)| == |r.ip.value| && forall i :: 0 <= i < |r.ip.value| ==> Conditions(r)[i] == IP(r.ip.value[i])
            case IPListField => Conditions(r) == [IPList(r.ipList.value.id)]
            case CountryField =>
              |Conditions(r)| == |r.country.value| && forall i :: 0 <= i < |r.country.value| ==> Conditions(r)[i] == Country(r.country.value[i])
            case EveryoneField => Conditions(r) == [Everyone]
            case ServiceTokenField => Conditions(r) == [ServiceToken(r.serviceToken.value)]
            case AnyValidServiceTokenField => Conditions(r) == [AnyValidServiceToken]
            case EmailField =>
              |Conditions(r)| == |r.email.value| && forall i :: 0 <= i < |r.email.value| ==> Conditions(r)[i] == Email(r.email.value[i])
            case EmailListField => Conditions(r) == [EmailList(r.emailList.value.id)]
            case EmailDomainField => Conditions(r) == [EmailDomain(r.emailDomain.value)]
            case OIDCClaimField => Conditions(r) == [OIDC(r.oidcClaim.value)]
            case GSuiteGroupField => Conditions(r) == [GSuite(r.gsuiteGroup.value)]
  {
    forall g: Field | Rank(g) < Rank(f) ensures !Recognises(r, g) {}
    assert !Recognises(r, IPField) || f == IPField;
    assert !Recognises(r, IPListField) || Rank(f) <= 1;
    assert !Recognises(r, CountryField) || Rank(f) <= 2;
    assert !Recognises(r, EveryoneField) || Rank(f) <= 3;
    assert !Recognises(r, ServiceTokenField) || Rank(f) <= 4;
    assert !Recognises(r, AnyValidServiceTokenField) || Rank(f) <= 5;
    assert !Recognises(r, EmailField) || Rank(f) <= 6;
    assert !Recognises(r, EmailListField) || Rank(f) <= 7;
    assert !Recognises(r, EmailDomainField) || Rank(f) <= 8;
    assert !Recognises(r, OIDCClaimField) || Rank(f) <= 9;
  }

  /** Without a recognised field there is none. */
  lemma ConditionsOfNone(r: CRDRule)
    ensures (exists f :: Decides(r, f)) || (Conditions(r) == [] && forall f :: !Recognises(r, f))
  {
    if f :| Recognises(r, f) {
      var g := FirstField(r, f);
    } else {
      assert !Recognises(r, IPField) && !Recognises(r, IPListField) && !Recognises(r, CountryField) && !Recognises(r, EveryoneField);
      assert !Recognises(r, ServiceTokenField) && !Recognises(r, AnyValidServiceTokenField) && !Recognises(r, EmailField);
      assert !Recognises(r, EmailListField) && !Recognises(r, EmailDomainField) && !Recognises(r, OIDCClaimField);
      assert !Recognises(r, GSuiteGroupField);
    }
  }

  lemma {:induction false} FirstField(r: CRDRule, f: Field) returns (g: Field)
    requires Recognises(r, f)
    ensures Decides(r, g)
    decreases Rank(f)
  {
    g := f;
    if h: Field :| Rank(h) < Rank(f) && Recognises(r, h) {
      g := FirstField(r, h);
    }
  }

  /** The two kinds without a wire form. */
  predicate Listed(c: Condition) {
    c.IPList? || c.EmailList?
  }

  /** A rule list as clauses: one list of alternatives per rule. */
  function Clauses(rules: seq<CRDRule>): (cls: seq<seq<Condition>>)
    ensures |cls| == |rules| && forall i :: 0 <= i < |rules| ==> cls[i] == Conditions(rules[i])
  {
    seq(|rules|, i requires 0 <= i < |rules| => Conditions(rules[i]))
  }

  function Flatten<T>(cls: seq<seq<T>>): seq<T> {
    if cls == [] then [] else Flatten(cls[..|cls| - 1]) + cls[|cls| - 1]
  }

  lemma {:induction false} InFlatten(cls: seq<seq<Condition>>)
    ensures forall c :: c in Flatten(cls) <==> exists i :: 0 <= i < |cls| && c in cls[i]
  {
    if cls != [] {
      var n := |cls| - 1;
      InFlatten(cls[..n]);
      assert cls == cls[..n] + [cls[n]];
    }
  }

  function AllConditions(rules: seq<CRDRule>): seq<Condition> {
    Flatten(Clauses(rules))
  }

  lemma Recognised(rules: seq<CRDRule>)
    ensures forall c :: c in AllConditions(rules) ==> !c.Unrecognised?
  {
    InFlatten(Clauses(rules));
  }

  /** The params a rule list converts to: one per condition, in order. */
  function Converted(rules: seq<CRDRule>): Slice<RuleParam> {
    Appended(ReadAll(AllConditions(rules)))
  }

  method AppendEach(acc: seq<RuleParam>, ghost conditions: seq<Condition>, values: seq<string>, param: string -> RuleParam)
    returns (rules: seq<RuleParam>)
    requires |conditions| == |values|
    requires forall i :: 0 <= i < |values| ==> RuleFromAPI(conditions[i]) == Some(param(values[i]))
    ensures rules == acc + ReadAll(conditions)
  {
    rules := acc;
    for i := 0 to |values|
      invariant rules == acc + ReadAll(conditions[..i])
    {
      FilterMapStep(RuleFromAPI, conditions, i);
      rules := rules + [param(values[i])];
    }
    assert conditions[..|values|] == conditions;
  }

  method AppendIPs(acc: seq<RuleParam>, ghost conditions: seq<Condition>, values: seq<string>) returns (rules: seq<RuleParam>)
    requires |conditions| == |values| && forall i :: 0 <= i < |values| ==> conditions[i] == IP(values[i])
    ensures rules == acc + ReadAll(conditions)
  {
    rules := AppendEach(acc, conditions, values, s => BLANK.(ipRange := Some(s)));
  }

  method AppendCountries(acc: seq<RuleParam>, ghost conditions: seq<Condition>, values: seq<string>) returns (rules: seq<RuleParam>)
    requires |conditions| == |values| && forall i :: 0 <= i < |values| ==> conditions[i] == Country(values[i])
    ensures rules == acc + ReadAll(conditions)
  {
    rules := AppendEach(acc, conditions, values, s => BLANK.(country := Some(s)));
  }

  method AppendEmails(acc: seq<RuleParam>, ghost conditions: seq<Condition>, values: seq<string>) returns (rules: seq<RuleParam>)
    requires |conditions| == |values| && forall i :: 0 <= i < |values| ==> conditions[i] == Email(values[i])
    ensures rules == acc + ReadAll(conditions)
  {
    rules := AppendEach(acc, conditions, values, s => BLANK.(email := Some(s)));
  }

  /** The body of the conversion loop: the first recognised field decides, as the `continue`s do. */
  method AppendRule(acc: seq<RuleParam>, r: CRDRule) returns (rules: seq<RuleParam>)
    ensures rules == acc + ReadAll(Conditions(r))
  {
    ghost var cs := Conditions(r);
    rules := acc;
    if r.ip.Some? {
      rules := AppendIPs(rules, cs, r.ip.value);
    } else if r.ipList.Some? && r.ipList.value.id != "" {
      rules := rules + [BLANK.(ipListID := Some(r.ipList.value.id))];
    } else if r.country.Some? {
      rules := AppendCountries(rules, cs, r.country.value);
    } else if r.everyone == Some(true) {
      rules := rules + [BLANK.(everyone := Some(true))];
    } else if r.serviceToken.Some? && r.serviceToken.value != "" {
      rules := rules + [BLANK.(serviceTokenID := r.serviceToken)];
    } else if r.anyValidServiceToken == Some(true) {
      rules := rules + [BLANK.(anyValidServiceToken := Some(true))];
    } else if r.email.Some? {
      rules := AppendEmails(rules, cs, r.email.value);
    } else if r.emailList.Some? && r.emailList.value.id != "" {
      rules := rules + [BLANK.(emailListID := Some(r.emailList.value.id))];
    } else if r.emailDomain.Some? {
      rules := rules + [BLANK.(emailDomain := r.emailDomain)];
    } else if r.oidcClaim.Some? {
      rules := rules + [BLANK.(oidcClaim := r.oidcClaim)];
    } else if r.gsuiteGroup.Some? {
      rules := rules + [BLANK.(gsuiteGroup := r.gsuiteGroup)];
    }
  }

  /** The params made from the deciding field `f` of a rule: its values, each in the param's field of that name and no other. */
  predicate FromField(r: CRDRule, f: Field, ps: seq<RuleParam>)
    requires Recognises(r, f)
  {
    match f
    case IPField => |ps| == |r.ip.value| && forall i :: 0 <= i < |ps| ==> ps[i] == BLANK.(ipRange := Some(r.ip.value[i]))
    case IPListField => ps == [BLANK.(ipListID := Some(r.ipList.value.id))]
    case CountryField => |ps| == |r.country.value| && forall i :: 0 <= i < |ps| ==> ps[i] == BLANK.(country := Some(r.country.value[i]))
    case EveryoneField => ps == [BLANK.(everyone := Some(true))]
    case ServiceTokenField => ps == [BLANK.(serviceTokenID := Some(r.serviceToken.value))]
    case AnyValidServiceTokenField => ps == [BLANK.(anyValidServiceToken := Some(true))]
    case EmailField => |ps| == |r.email.value| && forall i :: 0 <= i < |ps| ==> ps[i] == BLANK.(email := Some(r.email.value[i]))
    case EmailListField => ps == [BLANK.(emailListID := Some(r.emailList.value.id))]
    case EmailDomainField => ps == [BLANK.(emailDomain := Some(r.emailDomain.value))]
    case OIDCClaimField => ps == [BLANK.(oidcClaim := Some(r.oidcClaim.value))]
    case GSuiteGroupField => ps == [BLANK.(gsuiteGroup := Some(r.gsuiteGroup.value))]
  }

  /** The params made from one rule: those of its first recognised field, or none. */
  ghost predicate MadeFrom(r: CRDRule, ps: seq<RuleParam>) {
    && (forall f :: Decides(r, f) ==> FromField(r, f, ps))
    && ((forall f :: !Recognises(r, f)) ==> ps == [])
  }

  lemma {:induction false} ReadEach(cs: seq<Condition>)
    requires forall c :: c in cs ==> !c.Unrecognised?
    ensures |ReadAll(cs)| == |cs| && forall i :: 0 <= i < |cs| ==> RuleFromAPI(cs[i]) == Some(ReadAll(cs)[i])
  {
    if cs != [] { ReadEach(cs[1..]); }
  }

  lemma FieldMade(r: CRDRule, f: Field)
    requires Decides(r, f)
    ensures FromField(r, f, ReadAll(Conditions(r)))
  {
    ConditionsOf(r, f);
    SingleRead(Conditions(r));
    ReadEach(Conditions(r));
  }

  lemma SingleRead(cs: seq<Condition>)
    requires forall c :: c in cs ==> !c.Unrecognised?
    ensures |cs| == 1 ==> ReadAll(cs) == [RuleFromAPI(cs[0]).value]
  {
    ReadEach(cs);
  }

  lemma RuleMade(r: CRDRule)
    ensures MadeFrom(r, ReadAll(Conditions(r)))
  {
    ConditionsOfNone(r);
    forall f | Decides(r, f) ensures FromField(r, f, ReadAll(Conditions(r))) {
      FieldMade(r, f);
    }
  }

  function PartsOf(rules: seq<CRDRule>): (parts: seq<seq<RuleParam>>)
    ensures |parts| == |rules| && forall i :: 0 <= i < |rules| ==> parts[i] == ReadAll(Conditions(rules[i]))
  {
    seq(|rules|, i requires 0 <= i < |rules| => ReadAll(Conditions(rules[i])))
  }

  lemma {:induction false} FlattenParts(rules: seq<CRDRule>)
    ensures ReadAll(AllConditions(rules)) == Flatten(PartsOf(rules))
  {
    if rules != [] {
      var n := |rules| - 1;
      FlattenParts(rules[..n]);
      assert Clauses(rules)[..n] == Clauses(rules[..n]) && PartsOf(rules)[..n] == PartsOf(rules[..n]);
      FilterMapAppend(RuleFromAPI, AllConditions(rules[..n]), Conditions(rules[n]));
    }
  }

  lemma PartsMade(rules: seq<CRDRule>)
    ensures forall i :: 0 <= i < |rules| ==> MadeFrom(rules[i], PartsOf(rules)[i])
  {
    forall i | 0 <= i < |rules| ensures MadeFrom(rules[i], PartsOf(rules)[i]) { RuleMade(rules[i]); }
  }

  /**
   * convertAccessRules: the rules' params one rule after the other, `parts` saying which come from which.
   */
  method ConvertAccessRules(crdRules: seq<CRDRule>) returns (result: Slice<RuleParam>, ghost parts: seq<seq<RuleParam>>)
    ensures result == Appended(Flatten(parts))
    ensures |parts| == |crdRules| && forall i :: 0 <= i < |crdRules| ==> MadeFrom(crdRules[i], parts[i])
    ensures result == Converted(crdRules)
    ensures forall p :: p in result.Items() ==> FieldCount(p) == 1
  {
    result := ConvertLoop(crdRules);
    parts := PartsOf(crdRules);
    FlattenParts(crdRules);
    PartsMade(crdRules);
  }

  method ConvertLoop(crdRules: seq<CRDRule>) returns (result: Slice<RuleParam>)
    ensures result == Converted(crdRules)
    ensures forall p :: p in result.Items() ==> FieldCount(p) == 1
  {
    var rules: seq<RuleParam> := [];
    ghost var cls := Clauses(crdRules);
    for i := 0 to |crdRules|
      invariant rules == ReadAll(Flatten(cls[..i]))
    {
      assert cls[..i + 1][..i] == cls[..i];
      FilterMapAppend(RuleFromAPI, Flatten(cls[..i]), cls[i]);
      rules := AppendRule(rules, crdRules[i]);
    }
    assert cls[..|crdRules|] == cls;
    ReadParams(Flatten(cls));
    result := if rules == [] then Nil else Of(rules);
  }

  lemma {:induction false} ReadParams(cs: seq<Condition>)
    ensures forall p :: p in ReadAll(cs) <==> exists c :: c in cs && RuleFromAPI(c) == Some(p)
    ensures (forall c :: c in cs ==> !c.Unrecognised?) ==> |ReadAll(cs)| == |cs|
  {
    if cs != [] {
      ReadParams(cs[1..]);
      assert cs == [cs[0]] + cs[1..];
    }
  }

  /** The conditions of `cs` that have a wire form, in order. */
  function Wired(cs: seq<Condition>): seq<Condition> {
    FilterMap(c => if Listed(c) then None else Some(c), cs)
  }

  lemma {:induction false} SentConditions(cs: seq<Condition>)
    requires forall c :: c in cs ==> !c.Unrecognised?
    ensures SendAll(ReadAll(cs)) == Wired(cs)
    ensures forall c :: c in Wired(cs) <==> c in cs && !Listed(c)
    ensures ReadAll(Wired(cs)) == ReadAll(cs) <==> forall c :: c in cs ==> !Listed(c)
    ensures |ReadAll(Wired(cs))| <= |ReadAll(cs)|
  {
    if cs != [] {
      SentConditions(cs[1..]);
      assert cs == [cs[0]] + cs[1..];
      ConditionRoundTrip(cs[0]);
      var p := RuleFromAPI(cs[0]).value;
      FilterMapAppend(RuleToAPI, [p], ReadAll(cs[1..]));
      assert SendAll([p]) == if Listed(cs[0]) then [] else [cs[0]];
      if !Listed(cs[0]) {
        assert ([cs[0]] + Wired(cs[1..]))[1..] == Wired(cs[1..]);
        assert ReadAll(Wired(cs)) == [p] + ReadAll(Wired(cs[1..]));
        assert ReadAll(Wired(cs))[1..] == ReadAll(Wired(cs[1..]));
        assert ReadAll(cs)[1..] == ReadAll(cs[1..]);
      }
    }
  }

  /**
   * Converting, sending and reading back keeps the list in order and loses exactly the IP-list and
   * email-list params; so a converted list settles exactly when it has none of them.
   */
  lemma ConvertedRoundTrip(rules: seq<CRDRule>)
    ensures Echo(Converted(rules)) == Appended(ReadAll(Wired(AllConditions(rules))))
    ensures Echo(Converted(rules)) == Converted(rules) <==> forall c :: c in AllConditions(rules) ==> !Listed(c)
  {
    var cs := AllConditions(rules);
    Recognised(rules);
    SentConditions(cs);
    ReadParams(cs);
    ReadParams(Wired(cs));
    assert Converted(rules).Items() == ReadAll(cs);
    assert Echo(Converted(rules)) == ReadSlice(Wired(cs));
  }

  // ---------------------------------------------------------------- what rules mean for a request

  /** A request is the set of conditions it meets; everyone meets Everyone. */
  type Request = set<Condition>

  predicate Meets(q: Request, c: Condition) {
    c.Everyone? || c in q
  }

  predicate AnyOf(cs: seq<Condition>, q: Request) {
    exists c :: c in cs && Meets(q, c)
  }

  predicate AllOf(cs: seq<Condition>, q: Request) {
    forall c :: c in cs ==> Meets(q, c)
  }

  predicate AnyClause(cls: seq<seq<Condition>>, q: Request) {
    exists i :: 0 <= i < |cls| && AnyOf(cls[i], q)
  }

  predicate AllClauses(cls: seq<seq<Condition>>, q: Request) {
    forall i :: 0 <= i < |cls| ==> AnyOf(cls[i], q)
  }

  /** The request meets one of the values of the field. */
  predicate FieldHolds(r: CRDRule, f: Field, q: Request)
    requires Recognises(r, f)
  {
    match f
    case IPField => exists cidr :: cidr in r.ip.value && IP(cidr) in q
    case IPListField => IPList(r.ipList.value.id) in q
    case CountryField => exists code :: code in r.country.value && Country(code) in q
    case EveryoneField => true
    case ServiceTokenField => ServiceToken(r.serviceToken.value) in q
    case AnyValidServiceTokenField => AnyValidServiceToken in q
    case EmailField => exists address :: address in r.email.value && Email(address) in q
    case EmailListField => EmailList(r.emailList.value.id) in q
    case EmailDomainField => EmailDomain(r.emailDomain.value) in q
    case OIDCClaimField => OIDC(r.oidcClaim.value) in q
    case GSuiteGroupField => GSuite(r.gsuiteGroup.value) in q
  }

  predicate RuleHolds(r: CRDRule, q: Request) {
    exists f :: Decides(r, f) && FieldHolds(r, f, q)
  }

  /** ANY and ALL are over the rules. */
  predicate AnyRule(rules: seq<CRDRule>, q: Request) {
    exists i :: 0 <= i < |rules| && RuleHolds(rules[i], q)
  }

  predicate AllRules(rules: seq<CRDRule>, q: Request) {
    forall i :: 0 <= i < |rules| ==> RuleHolds(rules[i], q)
  }

  /** A rule holds of a request exactly if one of its conditions does. */
  lemma RuleHoldsExactly(r: CRDRule, q: Request)
    ensures RuleHolds(r, q) <==> AnyOf(Conditions(r), q)
  {
    ConditionsOfNone(r);
    if f :| Decides(r, f) {
      ConditionsOf(r, f);
      FieldHoldsExactly(r, f, q);
      forall g | Decides(r, g) ensures g == f { OneDecides(r, f, g); }
    }
  }

  lemma FieldHoldsExactly(r: CRDRule, f: Field, q: Request)
    requires Decides(r, f)
    ensures FieldHolds(r, f, q) <==> AnyOf(Conditions(r), q)
  {
    ConditionsOf(r, f);
    match f
    case IPField => EachHolds(Conditions(r), r.ip.value, s => IP(s), q);
    case CountryField => EachHolds(Conditions(r), r.country.value, s => Country(s), q);
    case EmailField => EachHolds(Conditions(r), r.email.value, s => Email(s), q);
    case _ => assert AnyOf(Conditions(r), q) <==> Meets(q, Conditions(r)[0]);
  }

  lemma EachHolds(cs: seq<Condition>, values: seq<string>, f: string -> Condition, q: Request)
    requires |cs| == |values| && forall i :: 0 <= i < |cs| ==> cs[i] == f(values[i]) && !cs[i].Everyone?
    ensures AnyOf(cs, q) <==> exists s :: s in values && f(s) in q
  {
    if AnyOf(cs, q) {
      var c :| c in cs && Meets(q, c);
      var i :| 0 <= i < |cs| && cs[i] == c;
      assert values[i] in values && f(values[i]) in q;
    }
    if s :| s in values && f(s) in q {
      var i :| 0 <= i < |values| && values[i] == s;
      assert cs[i] in cs && Meets(q, cs[i]);
    }
  }

  /** Rule by rule. */
  lemma WrittenClauses(rules: seq<CRDRule>, q: Request)
    ensures AnyRule(rules, q) <==> AnyClause(Clauses(rules), q)
    ensures AllRules(rules, q) <==> AllClauses(Clauses(rules), q)
  {
    forall i | 0 <= i < |rules| ensures RuleHolds(rules[i], q) <==> AnyOf(Clauses(rules)[i], q) {
      RuleHoldsExactly(rules[i], q);
    }
    if AnyRule(rules, q) {
      var i :| 0 <= i < |rules| && RuleHolds(rules[i], q);
      assert AnyOf(Clauses(rules)[i], q);
    }
    if AnyClause(Clauses(rules), q) {
      var i :| 0 <= i < |rules| && AnyOf(Clauses(rules)[i], q);
      assert RuleHolds(rules[i], q);
    }
  }

  // ---------------------------------------------------------------- what params mean for a request

  /** Some field of the param is set to what the request meets. */
  predicate ParamHolds(p: RuleParam, q: Request) {
    || (p.ipRange.Some? && IP(p.ipRange.value) in q)
    || (p.ipListID.Some? && IPList(p.ipListID.value) in q)
    || (p.country.Some? && Country(p.country.value) in q)
    || p.everyone == Some(true)
    || (p.serviceTokenID.Some? && ServiceToken(p.serviceTokenID.value) in q)
    || (p.anyValidServiceToken == Some(true) && AnyValidServiceToken in q)
    || (p.email.Some? && Email(p.email.value) in q)
    || (p.emailListID.Some? && EmailList(p.emailListID.value) in q)
    || (p.emailDomain.Some? && EmailDomain(p.emailDomain.value) in q)
    || (p.oidcClaim.Some? && OIDC(p.oidcClaim.value) in q)
    || (p.gsuiteGroup.Some? && GSuite(p.gsuiteGroup.value) in q)
    || (p.certificate == Some(true) && Certificate in q)
    || (p.commonName.Some? && CommonName(p.commonName.value) in q)
    || (p.groupID.Some? && Group(p.groupID.value) in q)
  }

  /** A condition read into a param keeps its meaning. */
  lemma ReadHolds(c: Condition, q: Request)
    requires !c.Unrecognised?
    ensures ParamHolds(RuleFromAPI(c).value, q) <==> Meets(q, c)
  {
  }

  predicate AnyParam(ps: Slice<RuleParam>, q: Request) {
    exists p :: p in ps.Items() && ParamHolds(p, q)
  }

  predicate AllParams(ps: Slice<RuleParam>, q: Request) {
    forall p :: p in ps.Items() ==> ParamHolds(p, q)
  }

  /** Params of a converted list hold of a request exactly when the conditions they were made from do. */
  lemma ConvertedMeaning(rules: seq<CRDRule>, q: Request)
    ensures AnyParam(Converted(rules), q) <==> AnyOf(AllConditions(rules), q)
    ensures AllParams(Converted(rules), q) <==> AllOf(AllConditions(rules), q)
  {
    var cs := AllConditions(rules);
    Recognised(rules);
    ReadParams(cs);
    assert Converted(rules).Items() == ReadAll(cs);
    forall c | c in cs ensures RuleFromAPI(c).value in ReadAll(cs) && (ParamHolds(RuleFromAPI(c).value, q) <==> Meets(q, c)) {
      assert RuleFromAPI(c) == Some(RuleFromAPI(c).value);
      ReadHolds(c, q);
    }
    forall p | p in ReadAll(cs) ensures exists c :: c in cs && (ParamHolds(p, q) <==> Meets(q, c)) && RuleFromAPI(c) == Some(p) {
      var c :| c in cs && RuleFromAPI(c) == Some(p);
      ReadHolds(c, q);
    }
  }

  lemma AnyFlatten(cls: seq<seq<Condition>>, q: Request)
    ensures AnyOf(Flatten(cls), q) <==> AnyClause(cls, q)
  {
    InFlatten(cls);
    if AnyOf(Flatten(cls), q) {
      var c :| c in Flatten(cls) && Meets(q, c);
      var i :| 0 <= i < |cls| && c in cls[i];
      assert AnyOf(cls[i], q);
    }
  }

  /** Include and Exclude: some rule holds exactly when some converted param holds, on every request. */
  lemma AnyPreserved(rules: seq<CRDRule>, q: Request)
    ensures AnyParam(Converted(rules), q) <==> AnyRule(rules, q)
  {
    ConvertedMeaning(rules, q);
    AnyFlatten(Clauses(rules), q);
    WrittenClauses(rules, q);
  }

  /** No clause is empty: no rule is unrecognised or has an empty list. */
  predicate NoneSilent(cls: seq<seq<Condition>>) {
    forall i :: 0 <= i < |cls| ==> cls[i] != []
  }

  /** Every condition mentioned is all that some clause asks for. */
  predicate SingleValued(cls: seq<seq<Condition>>) {
    NoneSilent(cls) && forall c :: c in Flatten(cls) ==> SoleIn(cls, c)
  }

  predicate SoleIn(cls: seq<seq<Condition>>, c: Condition) {
    exists i :: 0 <= i < |cls| && Only(cls[i], c)
  }

  predicate Only(cl: seq<Condition>, c: Condition) {
    forall d :: d in cl ==> d == c
  }

  /** A clause that offers Everyone or a list offers nothing else. */
  predicate ListsAlone(cls: seq<seq<Condition>>) {
    forall i, c :: 0 <= i < |cls| && c in cls[i] && (c.Everyone? || Listed(c)) ==> cls[i] == [c]
  }

  lemma AllOfImpliesAllClauses(cls: seq<seq<Condition>>, q: Request)
    requires NoneSilent(cls) && AllOf(Flatten(cls), q)
    ensures AllClauses(cls, q)
  {
    InFlatten(cls);
    forall i | 0 <= i < |cls| ensures AnyOf(cls[i], q) {
      assert cls[i][0] in Flatten(cls);
    }
  }

  /** Require: when no rule is silent, a request meeting all converted params meets all rules. */
  lemma RequireImplied(rules: seq<CRDRule>, q: Request)
    requires NoneSilent(Clauses(rules)) && AllParams(Converted(rules), q)
    ensures AllRules(rules, q)
  {
    ConvertedMeaning(rules, q);
    AllOfImpliesAllClauses(Clauses(rules), q);
    WrittenClauses(rules, q);
  }

  /** One silent rule is enough to break that: it is never met, and conversion drops it. */
  lemma RequireImpliedExactly(rules: seq<CRDRule>)
    ensures (forall q: Request :: AllParams(Converted(rules), q) ==> AllRules(rules, q)) <==> NoneSilent(Clauses(rules))
  {
    if NoneSilent(Clauses(rules)) {
      forall q: Request | AllParams(Converted(rules), q) ensures AllRules(rules, q) {
        RequireImplied(rules, q);
      }
    } else {
      var q: Request := set c | c in AllConditions(rules);
      ConvertedMeaning(rules, q);
      SilentNeverMet(Clauses(rules), q);
      WrittenClauses(rules, q);
    }
  }

  lemma SilentNeverMet(cls: seq<seq<Condition>>, q: Request)
    requires !NoneSilent(cls)
    ensures !AllClauses(cls, q)
  {
    var i :| 0 <= i < |cls| && cls[i] == [];
    assert !AnyOf(cls[i], q);
  }

  lemma AllClausesImpliesAllOf(cls: seq<seq<Condition>>, q: Request)
    requires SingleValued(cls) && AllClauses(cls, q)
    ensures AllOf(Flatten(cls), q)
  {
    forall c | c in Flatten(cls) ensures Meets(q, c) {
      assert SoleIn(cls, c);
      var i :| 0 <= i < |cls| && Only(cls[i], c);
      assert AnyOf(cls[i], q);
    }
  }

  lemma RequireCounterexample(cls: seq<seq<Condition>>) returns (q: Request)
    requires !SingleValued(cls) && ListsAlone(cls)
    ensures AllOf(Flatten(cls), q) != AllClauses(cls, q)
  {
    InFlatten(cls);
    q := set c | c in Flatten(cls);
    if i :| 0 <= i < |cls| && cls[i] == [] {
      assert !AnyOf(cls[i], q);
    } else {
      var c :| c in Flatten(cls) && !SoleIn(cls, c);
      q := q - {c};
      forall i | 0 <= i < |cls| ensures AnyOf(cls[i], q) {
        var d :| d in cls[i] && d != c;
        assert d in Flatten(cls) && Meets(q, d);
      }
      var k :| 0 <= k < |cls| && c in cls[k];
      assert !c.Everyone?;
      assert !Meets(q, c);
    }
  }

  lemma ClausesListAlone(rules: seq<CRDRule>)
    ensures ListsAlone(Clauses(rules))
  {
    forall i, c | 0 <= i < |rules| && c in Conditions(rules[i]) && (c.Everyone? || Listed(c))
      ensures Conditions(rules[i]) == [c]
    {
    }
  }

  /**
   * Require, exactly: conversion turns "any value of each rule" into "every value", so it keeps the
   * meaning on all requests precisely when no rule is silent and every value stands alone in some rule.
   */
  lemma RequireExact(rules: seq<CRDRule>)
    ensures (forall q: Request :: AllParams(Converted(rules), q) <==> AllRules(rules, q)) <==>
            SingleValued(Clauses(rules))
  {
    var cls := Clauses(rules);
    ClausesListAlone(rules);
    if SingleValued(cls) {
      forall q: Request ensures AllParams(Converted(rules), q) <==> AllRules(rules, q) {
        ConvertedMeaning(rules, q);
        WrittenClauses(rules, q);
        if AllOf(Flatten(cls), q) { AllOfImpliesAllClauses(cls, q); }
        if AllClauses(cls, q) { AllClausesImpliesAllOf(cls, q); }
      }
    } else {
      var q := RequireCounterexample(cls);
      ConvertedMeaning(rules, q);
      WrittenClauses(rules, q);
      assert AllParams(Converted(rules), q) != AllRules(rules, q);
    }
  }

  /** The conditions Cloudflare holds after a CRD rule list was converted and sent. */
  function Deployed(rules: seq<CRDRule>): seq<Condition> {
    SendAll(Converted(rules).Items())
  }

  /** They are the rules' conditions without the list references. */
  lemma DeployedConditions(rules: seq<CRDRule>)
    ensures Deployed(rules) == Wired(AllConditions(rules))
    ensures forall c :: c in Deployed(rules) <==> c in AllConditions(rules) && !Listed(c)
  {
    Recognised(rules);
    SentConditions(AllConditions(rules));
    assert Converted(rules).Items() == ReadAll(AllConditions(rules));
  }

  /** No condition of the rules was lost on the wire. */
  predicate NoListRules(rules: seq<CRDRule>) {
    forall c :: c in AllConditions(rules) ==> !Listed(c)
  }

  lemma DeployedAny(rules: seq<CRDRule>, q: Request)
    ensures AnyOf(Deployed(rules), q) ==> AnyRule(rules, q)
    ensures (Everyone in AllConditions(rules) || NoListRules(rules)) && AnyRule(rules, q) ==> AnyOf(Deployed(rules), q)
  {
    DeployedConditions(rules);
    AnyFlatten(Clauses(rules), q);
    WrittenClauses(rules, q);
    if Everyone in AllConditions(rules) {
      assert Everyone in Deployed(rules) && Meets(q, Everyone);
    }
  }

  lemma ListAnyLost(rules: seq<CRDRule>, c: Condition)
    requires c in AllConditions(rules) && Listed(c) && Everyone !in AllConditions(rules)
    ensures AnyRule(rules, {c}) && !AnyOf(Deployed(rules), {c})
  {
    DeployedConditions(rules);
    AnyFlatten(Clauses(rules), {c});
    WrittenClauses(rules, {c});
    assert Meets({c}, c);
  }

  /**
   * Include and Exclude as deployed never match more than was written, and they match the same
   * requests exactly when no list rule was lost or everyone matches anyway.
   */
  lemma DeployedAnyExact(rules: seq<CRDRule>)
    ensures forall q: Request :: AnyOf(Deployed(rules), q) ==> AnyRule(rules, q)
    ensures (forall q: Request :: AnyOf(Deployed(rules), q) <==> AnyRule(rules, q)) <==>
            (Everyone in AllConditions(rules) || NoListRules(rules))
  {
    forall q: Request
      ensures AnyOf(Deployed(rules), q) ==> AnyRule(rules, q)
      ensures (Everyone in AllConditions(rules) || NoListRules(rules)) && AnyRule(rules, q) ==> AnyOf(Deployed(rules), q)
    {
      DeployedAny(rules, q);
    }
    if Everyone !in AllConditions(rules) && !NoListRules(rules) {
      var c :| c in AllConditions(rules) && Listed(c);
      ListAnyLost(rules, c);
    }
  }

  lemma ListRequireLost(rules: seq<CRDRule>, c: Condition)
    requires c in AllConditions(rules) && Listed(c)
    ensures exists q: Request :: AllOf(Deployed(rules), q) && !AllRules(rules, q)
  {
    var q: Request := (set d | d in AllConditions(rules)) - {c};
    DeployedConditions(rules);
    ListNotMet(rules, q, c);
    assert AllOf(Deployed(rules), q);
  }

  /** Require as deployed: exact precisely when it was single-valued and named no list. */
  lemma DeployedRequireExact(rules: seq<CRDRule>)
    ensures (forall q: Request :: AllOf(Deployed(rules), q) <==> AllRules(rules, q)) <==>
            (SingleValued(Clauses(rules)) && NoListRules(rules))
  {
    DeployedConditions(rules);
    if c :| c in AllConditions(rules) && Listed(c) {
      ListRequireLost(rules, c);
    } else {
      RequireExact(rules);
      forall q: Request ensures AllOf(Deployed(rules), q) <==> AllParams(Converted(rules), q) {
        ConvertedMeaning(rules, q);
      }
    }
  }

  /** The documented reading of one policy rule: ANY include, no exclude, ALL require. */
  predicate Applies(includes: seq<CRDRule>, excludes: seq<CRDRule>, requireRules: seq<CRDRule>, q: Request) {
    AnyRule(includes, q) && !AnyRule(excludes, q) && AllRules(requireRules, q)
  }

  predicate DeployedApplies(includes: seq<CRDRule>, excludes: seq<CRDRule>, requireRules: seq<CRDRule>, q: Request) {
    AnyOf(Deployed(includes), q) && !AnyOf(Deployed(excludes), q) && AllOf(Deployed(requireRules), q)
  }

  /**
   * A deployed policy never applies to a request the written policy excludes, provided Exclude and
   * Require name no list and no Require rule is silent; and it applies to the very same requests when
   * moreover Include names no list and Require is single-valued.
   */
  lemma DeployedPolicyMeaning(includes: seq<CRDRule>, excludes: seq<CRDRule>, requireRules: seq<CRDRule>, q: Request)
    requires NoListRules(excludes) && NoListRules(requireRules) && NoneSilent(Clauses(requireRules))
    ensures DeployedApplies(includes, excludes, requireRules, q) ==> Applies(includes, excludes, requireRules, q)
    ensures NoListRules(includes) && SingleValued(Clauses(requireRules)) ==>
              (DeployedApplies(includes, excludes, requireRules, q) <==> Applies(includes, excludes, requireRules, q))
  {
    DeployedAnyExact(includes);
    DeployedAnyExact(excludes);
    DeployedConditions(requireRules);
    WrittenClauses(requireRules, q);
    assert AllOf(Deployed(requireRules), q) ==> AllOf(AllConditions(requireRules), q);
    if AllOf(AllConditions(requireRules), q) {
      AllOfImpliesAllClauses(Clauses(requireRules), q);
    }
    DeployedRequireExact(requireRules);
  }

  /** The deployed policy admits some request, read off its conditions. */
  predicate Admits(includes: seq<CRDRule>, excludes: seq<CRDRule>, requireRules: seq<CRDRule>) {
    && Everyone !in Deployed(excludes)
    && (exists c :: c in Deployed(includes) && c !in Deployed(excludes))
    && (forall c :: c in Deployed(requireRules) ==> c !in Deployed(excludes))
  }

  lemma AdmittedRequest(includes: seq<CRDRule>, excludes: seq<CRDRule>, requireRules: seq<CRDRule>) returns (q: Request)
    requires Admits(includes, excludes, requireRules)
    ensures DeployedApplies(includes, excludes, requireRules, q)
  {
    var c :| c in Deployed(includes) && c !in Deployed(excludes);
    q := (set d | d in Deployed(requireRules)) + {c};
    assert Meets(q, c);
  }

  lemma AdmittedOnly(includes: seq<CRDRule>, excludes: seq<CRDRule>, requireRules: seq<CRDRule>, q: Request)
    requires DeployedApplies(includes, excludes, requireRules, q)
    ensures Admits(includes, excludes, requireRules)
  {
    var c :| c in Deployed(includes) && Meets(q, c);
    assert Everyone in Deployed(excludes) ==> Meets(q, Everyone);
    assert c !in Deployed(excludes);
  }

  lemma AdmitsExactly(includes: seq<CRDRule>, excludes: seq<CRDRule>, requireRules: seq<CRDRule>)
    ensures Admits(includes, excludes, requireRules) <==> exists q: Request :: DeployedApplies(includes, excludes, requireRules, q)
  {
    if Admits(includes, excludes, requireRules) {
      var q := AdmittedRequest(includes, excludes, requireRules);
    }
    forall q: Request | DeployedApplies(includes, excludes, requireRules, q) ensures Admits(includes, excludes, requireRules) {
      AdmittedOnly(includes, excludes, requireRules, q);
    }
  }

  /**
   * Over all requests: the deployed policy applies only where the written one does exactly if it admits
   * no request at all, or Exclude and Require name no list and no Require rule is silent.
   */
  lemma DeployedSafeExactly(includes: seq<CRDRule>, excludes: seq<CRDRule>, requireRules: seq<CRDRule>)
    ensures (forall q: Request :: DeployedApplies(includes, excludes, requireRules, q) ==> Applies(includes, excludes, requireRules, q)) <==>
            || !Admits(includes, excludes, requireRules)
            || (NoListRules(excludes) && NoListRules(requireRules) && NoneSilent(Clauses(requireRules)))
  {
    AdmitsExactly(includes, excludes, requireRules);
    if NoListRules(excludes) && NoListRules(requireRules) && NoneSilent(Clauses(requireRules)) {
      forall q: Request ensures DeployedApplies(includes, excludes, requireRules, q) ==> Applies(includes, excludes, requireRules, q) {
        DeployedPolicyMeaning(includes, excludes, requireRules, q);
      }
    } else if q0: Request :| DeployedApplies(includes, excludes, requireRules, q0) {
      var q := WrongRequest(includes, excludes, requireRules, q0);
    }
  }

  /** Lost lists can be joined or left at will without the deployed policy noticing. */
  lemma WrongRequest(includes: seq<CRDRule>, excludes: seq<CRDRule>, requireRules: seq<CRDRule>, q0: Request) returns (q: Request)
    requires DeployedApplies(includes, excludes, requireRules, q0)
    requires !(NoListRules(excludes) && NoListRules(requireRules) && NoneSilent(Clauses(requireRules)))
    ensures DeployedApplies(includes, excludes, requireRules, q) && !Applies(includes, excludes, requireRules, q)
  {
    q := q0;
    if !NoneSilent(Clauses(requireRules)) {
      SilentNeverMet(Clauses(requireRules), q);
      WrittenClauses(requireRules, q);
    } else if c :| c in AllConditions(excludes) && Listed(c) {
      q := q0 + {c};
      SameButFor(includes, q0, q, c);
      SameButFor(excludes, q0, q, c);
      SameButFor(requireRules, q0, q, c);
      AnyFlatten(Clauses(excludes), q);
      WrittenClauses(excludes, q);
      assert Meets(q, c);
    } else {
      var d :| d in AllConditions(requireRules) && Listed(d);
      q := q0 - {d};
      SameButFor(includes, q0, q, d);
      SameButFor(excludes, q0, q, d);
      SameButFor(requireRules, q0, q, d);
      ListNotMet(requireRules, q, d);
    }
  }

  lemma SameButFor(rules: seq<CRDRule>, q: Request, q': Request, c: Condition)
    requires Listed(c) && forall d :: d != c ==> (d in q <==> d in q')
    ensures AnyOf(Deployed(rules), q) <==> AnyOf(Deployed(rules), q')
    ensures AllOf(Deployed(rules), q) <==> AllOf(Deployed(rules), q')
  {
    DeployedConditions(rules);
    forall d | d in Deployed(rules) ensures Meets(q, d) <==> Meets(q', d) {
      assert d != c;
    }
  }

  lemma ListNotMet(rules: seq<CRDRule>, q: Request, c: Condition)
    requires c in AllConditions(rules) && Listed(c) && c !in q
    ensures !AllRules(rules, q)
  {
    ClausesListAlone(rules);
    InFlatten(Clauses(rules));
    var k :| 0 <= k < |rules| && c in Clauses(rules)[k];
    assert Clauses(rules)[k] == [c];
    assert !AnyOf(Clauses(rules)[k], q);
    WrittenClauses(rules, q);
  }

  /** Without that proviso it can: an Exclude that is an IP list is lost, and the excluded request gets in. */
  lemma LostExclude()
    ensures exists includes, excludes, q ::
              DeployedApplies(includes, excludes, [], q) && !Applies(includes, excludes, [], q)
  {
    var blank := CRDRule(None, None, None, None, None, None, None, None, None, None, None);
    var all := blank.(everyone := Some(true));
    var block := blank.(ipList := Some(ListRef("blocked", "")));
    var q: Request := {IPList("blocked")};
    AllAdmitted(all, q);
    ListLost(block, "blocked", q);
    DeployedConditions([]);
    assert DeployedApplies([all], [block], [], q) && !Applies([all], [block], [], q);
  }

  lemma AllAdmitted(all: CRDRule, q: Request)
    requires Clauses([all])[0] == [Everyone]
    ensures AnyOf(Deployed([all]), q)
  {
    DeployedConditions([all]);
    InFlatten(Clauses([all]));
    assert Everyone in Deployed([all]) && Meets(q, Everyone);
  }

  lemma ListLost(block: CRDRule, list: string, q: Request)
    requires Clauses([block])[0] == [IPList(list)] && IPList(list) in q
    ensures !AnyOf(Deployed([block]), q) && AnyRule([block], q)
  {
    DeployedConditions([block]);
    InFlatten(Clauses([block]));
    var c := IPList(list);
    assert c in Clauses([block])[0] && Meets(q, c);
    assert AnyOf(Clauses([block])[0], q);
    WrittenClauses([block], q);
  }
}
