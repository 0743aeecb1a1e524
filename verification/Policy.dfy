/** The first-match policy engine and its two static analyses (crates/uk-policy/src/lib.rs). */
module Policy {
  import opened Bytes
  import opened Protocol
  import opened Targets
  import opened DomainMatch
  import Domains
  import opened Addresses

  datatype Action = Allow | Deny

  datatype Rule = Rule(
    action: Action,
    keyId: Option<seq<Byte>>,
    group: Option<seq<Byte>>,
    domain: Option<seq<Byte>>,
    suffix: Option<seq<Byte>>,
    cidr: Option<Cidr>,
    ports: Option<(U16, U16)>,
    privacy: Option<bool>)

  /** Who asks for what; the resolution is given beside it. */
  datatype Request = Request(keyId: seq<Byte>, group: Option<seq<Byte>>, target: Target)

  function TargetIps(target: Target, resolved: seq<Ip>): (ips: seq<Ip>)
  {
    match target case Domain(_, _) => resolved case Ipv4(o, _) => [V4(o)] case Ipv6(a, _) => [V6(a)]
  }

  predicate AnyPrivate(ips: seq<Ip>)
  {
    exists i :: 0 <= i < |ips| && Private(ips[i])
  }

  predicate AnyMetadata(ips: seq<Ip>)
  {
    exists i :: 0 <= i < |ips| && Metadata(ips[i])
  }

  predicate AllInside(cidr: Cidr, ips: seq<Ip>)
  {
    forall i :: 0 <= i < |ips| ==> Contains(cidr, ips[i])
  }

  predicate AnyInside(cidr: Cidr, ips: seq<Ip>)
  {
    exists i :: 0 <= i < |ips| && Contains(cidr, ips[i])
  }

  predicate MatchesExact(domain: seq<Byte>, want: seq<Byte>)
  {
    Normalize(want) != [] && Normalize(domain) == Normalize(want)
  }

  /** The predicates that need no resolution. */
  predicate MatchesFixed(r: Rule, q: Request)
  {
    && (r.keyId.Some? ==> r.keyId.value == q.keyId)
    && (r.group.Some? ==> q.group == r.group)
    && (r.domain.Some? ==> q.target.Domain? && MatchesExact(q.target.name, r.domain.value))
    && (r.suffix.Some? ==> q.target.Domain? && MatchesSuffix(q.target.name, r.suffix.value))
    && (r.ports.Some? ==> r.ports.value.0 <= q.target.port <= r.ports.value.1)
  }

  /** An allow rule's network must hold every address, a deny rule's any one of them. */
  predicate CidrMatches(action: Action, cidr: Cidr, ips: seq<Ip>)
  {
    ips != [] && match action case Allow => AllInside(cidr, ips) case Deny => AnyInside(cidr, ips)
  }

  predicate PrivacyMatches(want: bool, ips: seq<Ip>)
  {
    ips != [] && (want <==> AnyPrivate(ips))
  }

  predicate Matches(r: Rule, q: Request, ips: seq<Ip>)
  {
    && MatchesFixed(r, q)
    && (r.cidr.Some? ==> CidrMatches(r.action, r.cidr.value, ips))
    && (r.privacy.Some? ==> PrivacyMatches(r.privacy.value, ips))
  }

  /** An unresolved name counts as private. */
  predicate CountsAsPrivate(ips: seq<Ip>)
  {
    ips == [] || AnyPrivate(ips)
  }

  /** An allow rule that opts into private destinations. */
  predicate OptsIn(r: Rule)
  {
    r.action == Allow && r.privacy == Some(true)
  }

  /** The first rule that matches decides; none denies. */
  function FirstMatch(rules: seq<Rule>, q: Request, ips: seq<Ip>): (a: Action)
  {
    if rules == [] then Deny
    else if !Matches(rules[0], q, ips) then FirstMatch(rules[1..], q, ips)
    else if rules[0].action == Allow && !OptsIn(rules[0]) && CountsAsPrivate(ips) then Deny
    else rules[0].action
  }

  function Evaluate(rules: seq<Rule>, q: Request, resolved: seq<Ip>): (a: Action)
  {
    var ips := TargetIps(q.target, resolved);
    if AnyMetadata(ips) then Deny else FirstMatch(rules, q, ips)
  }

  // ---------------------------------------------------------------------------------------------
  // What a rule says, field by field.
  // ---------------------------------------------------------------------------------------------

  /** Some predicate the rule names is not met by the request. */
  predicate Elsewhere(r: Rule, q: Request)
  {
    || (r.keyId.Some? && r.keyId.value != q.keyId)
    || (r.group.Some? && (q.group == None || q.group.value != r.group.value))
    || (r.ports.Some? && (q.target.port < r.ports.value.0 || r.ports.value.1 < q.target.port))
    || (r.domain.Some? && (!q.target.Domain? || !MatchesExact(q.target.name, r.domain.value)))
    || (r.suffix.Some? && (!q.target.Domain? || !MatchesSuffix(q.target.name, r.suffix.value)))
  }

  /** The addresses are not those the rule names: none at all, outside its network, or of the other kind. */
  predicate OtherAddresses(r: Rule, ips: seq<Ip>)
  {
    || (r.cidr.Some? && (ips == [] || (r.action == Allow && exists i :: 0 <= i < |ips| && !Contains(r.cidr.value, ips[i]))
                         || (r.action == Deny && forall i :: 0 <= i < |ips| ==> !Contains(r.cidr.value, ips[i]))))
    || (r.privacy == Some(true) && forall i :: 0 <= i < |ips| ==> !Private(ips[i]))
    || (r.privacy == Some(false) && (ips == [] || exists i :: 0 <= i < |ips| && Private(ips[i])))
  }

  predicate Concerns(r: Rule, q: Request, ips: seq<Ip>)
  {
    !Elsewhere(r, q) && !OtherAddresses(r, ips)
  }

  lemma MatchesIffConcerns(r: Rule, q: Request, ips: seq<Ip>)
    ensures Matches(r, q, ips) <==> Concerns(r, q, ips)
  {
  }

  /** A rule about another key, group, port, name or address makes no difference, wherever it stands. */
  lemma {:induction false} RuleElsewhereIsIrrelevant(before: seq<Rule>, r: Rule, after: seq<Rule>, q: Request, ips: seq<Ip>)
    requires !Concerns(r, q, ips)
    ensures FirstMatch(before + [r] + after, q, ips) == FirstMatch(before + after, q, ips)
  {
    var rules := before + [r] + after;
    if before == [] {
      assert rules[0] == r && rules[1..] == after && before + after == after;
      MatchesIffConcerns(r, q, ips);
    } else {
      assert rules[1..] == before[1..] + [r] + after && (before + after)[1..] == before[1..] + after;
      RuleElsewhereIsIrrelevant(before[1..], r, after, q, ips);
    }
  }

  predicate NoneConcerns(rules: seq<Rule>, q: Request, ips: seq<Ip>)
  {
    forall i :: 0 <= i < |rules| ==> !Concerns(rules[i], q, ips)
  }

  /**
   The first rule that concerns the request decides it, whatever follows: its own action, but that an allow
   rule without an explicit opt-in does not reach private or unresolved destinations. No such rule denies.
   */
  lemma {:induction false} FirstConcernedDecides(before: seq<Rule>, r: Rule, after: seq<Rule>, q: Request, ips: seq<Ip>)
    requires NoneConcerns(before, q, ips) && Concerns(r, q, ips)
    ensures FirstMatch(before + [r] + after, q, ips) == Allow <==>
      r.action == Allow && (r.privacy == Some(true) || (ips != [] && forall i :: 0 <= i < |ips| ==> !Private(ips[i])))
    ensures FirstMatch(before, q, ips) == Deny
  {
    var rules := before + [r] + after;
    if before == [] {
      assert rules[0] == r;
      MatchesIffConcerns(r, q, ips);
    } else {
      assert rules[1..] == before[1..] + [r] + after;
      assert forall i :: 0 <= i < |before[1..]| ==> before[1..][i] == before[i + 1];
      MatchesIffConcerns(before[0], q, ips);
      FirstConcernedDecides(before[1..], r, after, q, ips);
    }
  }

  /** No rule opens a metadata service: one such address denies everything. */
  lemma MetadataIsDenied(rules: seq<Rule>, q: Request, resolved: seq<Ip>, i: nat)
    requires i < |TargetIps(q.target, resolved)| && Metadata(TargetIps(q.target, resolved)[i])
    ensures Evaluate(rules, q, resolved) == Deny
  {
  }

  /** Names without a metadata address are decided by the rules alone, address targets by their own address. */
  lemma OtherwiseRulesDecide(rules: seq<Rule>, q: Request, resolved: seq<Ip>)
    requires !AnyMetadata(TargetIps(q.target, resolved))
    ensures q.target.Domain? ==> Evaluate(rules, q, resolved) == FirstMatch(rules, q, resolved)
    ensures q.target.Ipv4? ==> Evaluate(rules, q, resolved) == FirstMatch(rules, q, [V4(q.target.octets)])
    ensures q.target.Ipv6? ==> Evaluate(rules, q, resolved) == FirstMatch(rules, q, [V6(q.target.address)])
  {
  }

  /** On legal names an exact domain predicate is equality up to case. */
  lemma ExactMatchIff(domain: seq<Byte>, want: seq<Byte>)
    requires Domains.Legal(domain) && Domains.Legal(want)
    ensures MatchesExact(domain, want) <==> Lowered(domain) == Lowered(want)
  {
    LegalNormalizes(domain);
    LegalNormalizes(want);
  }

  // ---------------------------------------------------------------------------------------------
  // Fewer addresses.
  // ---------------------------------------------------------------------------------------------

  predicate Subset(fewer: seq<Ip>, ips: seq<Ip>)
  {
    forall i :: 0 <= i < |fewer| ==> fewer[i] in ips
  }

  predicate NoOptIn(rules: seq<Rule>)
  {
    forall i :: 0 <= i < |rules| ==> !OptsIn(rules[i])
  }

  /** What parsing produces: an allow rule always says whether it means private destinations. */
  predicate Explicit(rules: seq<Rule>)
  {
    forall i :: 0 <= i < |rules| ==> rules[i].action == Allow ==> rules[i].privacy.Some?
  }

  lemma SubsetKeeps(fewer: seq<Ip>, ips: seq<Ip>)
    requires Subset(fewer, ips)
    ensures AnyPrivate(fewer) ==> AnyPrivate(ips)
    ensures AnyMetadata(fewer) ==> AnyMetadata(ips)
    ensures forall cidr :: AllInside(cidr, ips) ==> AllInside(cidr, fewer)
    ensures forall cidr :: AnyInside(cidr, fewer) ==> AnyInside(cidr, ips)
  {
    forall cidr | AnyInside(cidr, fewer)
      ensures AnyInside(cidr, ips)
    {
      var i :| 0 <= i < |fewer| && Contains(cidr, fewer[i]);
      assert fewer[i] in ips;
    }
  }

  /** With no private address lost, an allow rule keeps matching and a deny rule that matches did before. */
  lemma RuleOnSubset(r: Rule, q: Request, ips: seq<Ip>, fewer: seq<Ip>)
    requires Subset(fewer, ips) && fewer != []
    requires AnyPrivate(ips) ==> AnyPrivate(fewer)
    ensures r.action == Allow && Matches(r, q, ips) ==> Matches(r, q, fewer)
    ensures r.action == Deny && Matches(r, q, fewer) ==> Matches(r, q, ips)
  {
    SubsetKeeps(fewer, ips);
    assert fewer[0] in ips;
  }

  lemma {:induction false} FirstMatchOnSubset(rules: seq<Rule>, q: Request, ips: seq<Ip>, fewer: seq<Ip>)
    requires Subset(fewer, ips) && fewer != []
    requires AnyPrivate(ips) ==> AnyPrivate(fewer)
    requires AnyPrivate(ips) ==> Explicit(rules)
    requires FirstMatch(rules, q, ips) == Allow
    ensures FirstMatch(rules, q, fewer) == Allow
  {
    SubsetKeeps(fewer, ips);
    RuleOnSubset(rules[0], q, ips, fewer);
    if !Matches(rules[0], q, ips) {
      FirstMatchOnSubset(rules[1..], q, ips, fewer);
    }
  }

  /**
   If a name is allowed with some resolution, it is allowed with every non-empty part of it that still
   holds a private address whenever the whole did.
   */
  lemma AllowedOnSubset(rules: seq<Rule>, q: Request, resolved: seq<Ip>, fewer: seq<Ip>)
    requires q.target.Domain? && Explicit(rules)
    requires Subset(fewer, resolved) && fewer != [] && (AnyPrivate(resolved) ==> AnyPrivate(fewer))
    requires Evaluate(rules, q, resolved) == Allow
    ensures Evaluate(rules, q, fewer) == Allow
  {
    SubsetKeeps(fewer, resolved);
    FirstMatchOnSubset(rules, q, resolved, fewer);
  }

  lemma {:induction false} AllowedIsPublic(rules: seq<Rule>, q: Request, ips: seq<Ip>)
    requires NoOptIn(rules) && FirstMatch(rules, q, ips) == Allow
    ensures !CountsAsPrivate(ips)
  {
    if !Matches(rules[0], q, ips) {
      AllowedIsPublic(rules[1..], q, ips);
    }
  }

  /** Without opt-in rules every non-empty part of an allowed resolution is allowed, each address alone too. */
  lemma AllowedOnEverySubset(rules: seq<Rule>, q: Request, resolved: seq<Ip>, fewer: seq<Ip>)
    requires q.target.Domain? && NoOptIn(rules)
    requires Subset(fewer, resolved) && fewer != []
    requires Evaluate(rules, q, resolved) == Allow
    ensures Evaluate(rules, q, fewer) == Allow
  {
    SubsetKeeps(fewer, resolved);
    AllowedIsPublic(rules, q, resolved);
    FirstMatchOnSubset(rules, q, resolved, fewer);
  }

  const SOME_PRIVATE := V4([10, 0, 0, 1])
  const SOME_PUBLIC := V4([8, 8, 8, 8])

  lemma Samples()
    ensures Private(SOME_PRIVATE) && !Metadata(SOME_PRIVATE) && !Private(SOME_PUBLIC) && !Metadata(SOME_PUBLIC)
  {
  }

  /** Every non-empty part of every allowed resolution of this name is allowed. */
  ghost predicate ClosedAt(rules: seq<Rule>, q: Request)
  {
    forall resolved, fewer | Subset(fewer, resolved) && fewer != [] ::
      Evaluate(rules, q, resolved) == Allow ==> Evaluate(rules, q, fewer) == Allow
  }

  /** Dropping the last private address turns an allowed resolution into a denied one. */
  predicate LastPrivateLost(rules: seq<Rule>, q: Request, fewer: seq<Ip>, a: Ip)
  {
    && Private(a) && fewer != [] && !AnyPrivate(fewer)
    && Evaluate(rules, q, fewer + [a]) == Allow && Evaluate(rules, q, fewer) == Deny
  }

  /** Between `core` and `fewer` every non-empty resolution is denied. */
  ghost predicate DeniedFrom(rules: seq<Rule>, q: Request, core: seq<Ip>, fewer: seq<Ip>)
  {
    forall ips :: Subset(core, ips) && Subset(ips, fewer) && ips != [] ==> FirstMatch(rules, q, ips) == Deny
  }

  /**
   A denial of public addresses needs few of them: one outside each earlier allow rule's network and
   one inside the deciding deny rule's.
   */
  lemma {:induction false} DenialHasCore(rules: seq<Rule>, q: Request, fewer: seq<Ip>) returns (core: seq<Ip>)
    requires fewer != [] && !AnyPrivate(fewer) && FirstMatch(rules, q, fewer) == Deny
    ensures |core| <= |rules| && Subset(core, fewer) && DeniedFrom(rules, q, core, fewer)
  {
    if rules == [] {
      return [];
    }
    var r := rules[0];
    if Matches(r, q, fewer) {
      core := [];
      if r.cidr.Some? {
        var i :| 0 <= i < |fewer| && Contains(r.cidr.value, fewer[i]);
        core := [fewer[i]];
      }
      forall ips | Subset(core, ips) && Subset(ips, fewer) && ips != []
        ensures FirstMatch(rules, q, ips) == Deny
      {
        DenyStillMatches(r, q, core, ips, fewer);
      }
    } else {
      var later := DenialHasCore(rules[1..], q, fewer);
      core := later;
      if r.action == Allow && r.cidr.Some? && !AllInside(r.cidr.value, fewer) {
        var i :| 0 <= i < |fewer| && !Contains(r.cidr.value, fewer[i]);
        core := [fewer[i]] + later;
      }
      forall ips | Subset(core, ips) && Subset(ips, fewer) && ips != []
        ensures FirstMatch(rules, q, ips) == Deny
      {
        StillNoMatch(r, q, core, ips, fewer);
        TailSubset(core, later, ips);
      }
    }
  }

  lemma DenyStillMatches(r: Rule, q: Request, core: seq<Ip>, ips: seq<Ip>, fewer: seq<Ip>)
    requires Matches(r, q, fewer) && !AnyPrivate(fewer)
    requires Subset(core, ips) && Subset(ips, fewer) && ips != []
    requires r.cidr.Some? ==> |core| == 1 && Contains(r.cidr.value, core[0])
    ensures r.action == Deny ==> Matches(r, q, ips)
  {
    SubsetKeeps(ips, fewer);
    if r.cidr.Some? {
      assert core[0] in ips;
    }
  }

  lemma StillNoMatch(r: Rule, q: Request, core: seq<Ip>, ips: seq<Ip>, fewer: seq<Ip>)
    requires !Matches(r, q, fewer) && !AnyPrivate(fewer)
    requires Subset(core, ips) && Subset(ips, fewer) && ips != []
    requires r.action == Allow && r.cidr.Some? && !AllInside(r.cidr.value, fewer)
      ==> core != [] && !Contains(r.cidr.value, core[0])
    ensures !Matches(r, q, ips)
  {
    SubsetKeeps(ips, fewer);
    assert ips[0] in fewer;
    if core != [] {
      assert core[0] in ips;
    }
  }

  lemma TailSubset(core: seq<Ip>, later: seq<Ip>, ips: seq<Ip>)
    requires Subset(core, ips) && (core == later || (core != [] && core[1..] == later))
    ensures Subset(later, ips)
  {
    forall i | 0 <= i < |later|
      ensures later[i] in ips
    {
      assert later[i] == core[i] || later[i] == core[i + 1];
    }
  }

  /**
   For every policy the source can build, networks and opt-in rules included: closure under taking parts
   fails if and only if it fails by losing the last private address, and then already on a resolution
   with no more public addresses than the policy has rules.
   */
  lemma ClosedIff(rules: seq<Rule>, q: Request)
    requires Explicit(rules) && q.target.Domain?
    ensures ClosedAt(rules, q) <==> !exists fewer, a :: LastPrivateLost(rules, q, fewer, a) && |fewer| <= |rules|
  {
    forall fewer, a | LastPrivateLost(rules, q, fewer, a)
      ensures !ClosedAt(rules, q)
    {
      AppendSubset(fewer, a);
    }
    if !ClosedAt(rules, q) {
      var resolved, fewer :| Subset(fewer, resolved) && fewer != []
        && Evaluate(rules, q, resolved) == Allow && Evaluate(rules, q, fewer) == Deny;
      var core, a := SmallLoss(rules, q, resolved, fewer);
    }
  }

  lemma AppendSubset(fewer: seq<Ip>, a: Ip)
    ensures Subset(fewer, fewer + [a])
  {
  }

  lemma WithOneMore(core: seq<Ip>, a: Ip, resolved: seq<Ip>)
    requires Subset(core, resolved) && a in resolved && Private(a)
    ensures Subset(core + [a], resolved) && AnyPrivate(core + [a])
  {
    assert (core + [a])[|core|] == a;
  }

  lemma SmallLoss(rules: seq<Rule>, q: Request, resolved: seq<Ip>, fewer: seq<Ip>) returns (core: seq<Ip>, a: Ip)
    requires Explicit(rules) && q.target.Domain? && Subset(fewer, resolved) && fewer != []
    requires Evaluate(rules, q, resolved) == Allow && Evaluate(rules, q, fewer) == Deny
    ensures LastPrivateLost(rules, q, core, a) && |core| <= |rules|
  {
    if AnyPrivate(resolved) ==> AnyPrivate(fewer) {
      AllowedOnSubset(rules, q, resolved, fewer);
      assert false;
    }
    var i :| 0 <= i < |resolved| && Private(resolved[i]);
    a := resolved[i];
    SubsetKeeps(fewer, resolved);
    core := DenialHasCore(rules, q, fewer);
    if core == [] {
      core := [fewer[0]];
    }
    CoreIsLost(rules, q, resolved, fewer, core, a);
  }

  lemma CoreIsLost(rules: seq<Rule>, q: Request, resolved: seq<Ip>, fewer: seq<Ip>, core: seq<Ip>, a: Ip)
    requires Explicit(rules) && q.target.Domain? && Evaluate(rules, q, resolved) == Allow
    requires Subset(fewer, resolved) && !AnyPrivate(fewer) && a in resolved && Private(a)
    requires core != [] && Subset(core, fewer) && FirstMatch(rules, q, core) == Deny
    ensures LastPrivateLost(rules, q, core, a)
  {
    SubsetKeeps(core, fewer);
    assert Subset(core, resolved);
    WithOneMore(core, a, resolved);
    AllowedOnSubset(rules, q, resolved, core + [a]);
  }

  // ---------------------------------------------------------------------------------------------
  // Without networks, the rules alone decide.
  // ---------------------------------------------------------------------------------------------

  predicate NoNetworks(rules: seq<Rule>)
  {
    forall i :: 0 <= i < |rules| ==> rules[i].cidr == None
  }

  /** The rule speaks about resolutions with a private address (`private`) or about those without. */
  predicate Speaks(r: Rule, q: Request, private: bool)
  {
    MatchesFixed(r, q) && r.privacy != Some(!private)
  }

  predicate Grants(r: Rule, q: Request, private: bool)
  {
    Speaks(r, q, private) && r.action == Allow && (private ==> r.privacy == Some(true))
  }

  /** Some rule grants such resolutions and no rule before it speaks about them. */
  predicate Reaches(rules: seq<Rule>, q: Request, private: bool)
  {
    exists k :: 0 <= k < |rules| && Grants(rules[k], q, private) && forall j :: 0 <= j < k ==> !Speaks(rules[j], q, private)
  }

  lemma ReachesFirst(rules: seq<Rule>, q: Request, private: bool)
    requires rules != []
    ensures Reaches(rules, q, private) <==>
      if Speaks(rules[0], q, private) then Grants(rules[0], q, private) else Reaches(rules[1..], q, private)
  {
    var rest := rules[1..];
    if Reaches(rest, q, private) && !Speaks(rules[0], q, private) {
      var k :| 0 <= k < |rest| && Grants(rest[k], q, private) && forall j :: 0 <= j < k ==> !Speaks(rest[j], q, private);
      assert rules[k + 1] == rest[k];
      forall j | 0 <= j < k + 1
        ensures !Speaks(rules[j], q, private)
      {
        assert j > 0 ==> rules[j] == rest[j - 1];
      }
    }
    if Reaches(rules, q, private) && !Speaks(rules[0], q, private) {
      var k :| 0 <= k < |rules| && Grants(rules[k], q, private) && forall j :: 0 <= j < k ==> !Speaks(rules[j], q, private);
      assert rest[k - 1] == rules[k];
      assert forall j :: 0 <= j < k - 1 ==> rest[j] == rules[j + 1];
    }
  }

  /** Without network predicates a resolution is allowed exactly when a rule reaches its kind. */
  lemma {:induction false} AllowedIffReached(rules: seq<Rule>, q: Request, ips: seq<Ip>)
    requires NoNetworks(rules) && ips != []
    ensures FirstMatch(rules, q, ips) == Allow <==> Reaches(rules, q, AnyPrivate(ips))
  {
    if rules != [] {
      assert rules[0].cidr == None;
      ReachesFirst(rules, q, AnyPrivate(ips));
      AllowedIffReached(rules[1..], q, ips);
    }
  }

  /** Without network predicates closure is a condition on the rules: whoever gets private ones gets public ones. */
  lemma ClosedIffRules(rules: seq<Rule>, q: Request)
    requires NoNetworks(rules) && q.target.Domain?
    ensures ClosedAt(rules, q) <==> (Reaches(rules, q, true) ==> Reaches(rules, q, false))
  {
    if Reaches(rules, q, true) && !Reaches(rules, q, false) {
      var both, one := [SOME_PRIVATE, SOME_PUBLIC], [SOME_PUBLIC];
      Samples();
      assert Private(both[0]);
      assert Subset(one, both) by { assert both[1] == one[0]; }
      AllowedIffReached(rules, q, both);
      AllowedIffReached(rules, q, one);
    } else {
      forall resolved, fewer | Subset(fewer, resolved) && fewer != [] && Evaluate(rules, q, resolved) == Allow
        ensures Evaluate(rules, q, fewer) == Allow
      {
        assert fewer[0] in resolved;
        SubsetKeeps(fewer, resolved);
        AllowedIffReached(rules, q, resolved);
        AllowedIffReached(rules, q, fewer);
      }
    }
  }

  /** The rule's network, if it names one, holds a private and a public address, neither a metadata service. */
  predicate HoldsBoth(r: Rule, a: Ip, b: Ip)
  {
    && Private(a) && !Metadata(a) && !Private(b) && !Metadata(b)
    && (r.cidr.Some? ==> Contains(r.cidr.value, a) && Contains(r.cidr.value, b))
  }

  /** The ordinary opt-in rule, network or not, loses closure exactly when its network holds both kinds. */
  lemma OptInClosedIff(r: Rule, q: Request)
    requires OptsIn(r) && q.target.Domain? && MatchesFixed(r, q)
    ensures ClosedAt([r], q) <==> !exists a, b :: HoldsBoth(r, a, b)
  {
    forall a, b | HoldsBoth(r, a, b)
      ensures !ClosedAt([r], q)
    {
      OptInBreaksClosure(r, q, a, b);
    }
    ClosedIff([r], q);
    forall fewer, a | LastPrivateLost([r], q, fewer, a) && |fewer| <= 1
      ensures HoldsBoth(r, a, fewer[0])
    {
      assert fewer == [fewer[0]] && fewer + [a] == [fewer[0], a];
      LossHoldsBoth(r, q, a, fewer[0]);
    }
  }

  lemma OptInBreaksClosure(r: Rule, q: Request, a: Ip, b: Ip)
    requires OptsIn(r) && q.target.Domain? && MatchesFixed(r, q) && HoldsBoth(r, a, b)
    ensures Evaluate([r], q, [b, a]) == Allow && Evaluate([r], q, [b]) == Deny && !ClosedAt([r], q)
  {
    assert FirstMatch([r][1..], q, [b]) == Deny;
    BothKinds(a, b);
    OptInMatches(r, q, a, b);
    assert [b] + [a] == [b, a];
    AppendSubset([b], a);
  }

  lemma LossHoldsBoth(r: Rule, q: Request, a: Ip, b: Ip)
    requires q.target.Domain? && Private(a) && !AnyPrivate([b]) && Evaluate([r], q, [b, a]) == Allow
    ensures HoldsBoth(r, a, b)
  {
    var ips := [b, a];
    assert !Metadata(ips[0]) && !Metadata(ips[1]) && !Private([b][0]);
    assert FirstMatch([r][1..], q, ips) == Deny;
    if r.cidr.Some? {
      assert AllInside(r.cidr.value, ips);
      assert Contains(r.cidr.value, ips[0]) && Contains(r.cidr.value, ips[1]);
    }
  }

  lemma BothKinds(a: Ip, b: Ip)
    requires Private(a) && !Metadata(a) && !Private(b) && !Metadata(b)
    ensures AnyPrivate([b, a]) && !AnyPrivate([b]) && !AnyMetadata([b, a]) && !AnyMetadata([b])
  {
    assert [b, a][1] == a;
  }

  lemma OptInMatches(r: Rule, q: Request, a: Ip, b: Ip)
    requires OptsIn(r) && MatchesFixed(r, q) && AnyPrivate([b, a]) && !AnyPrivate([b])
    requires r.cidr.Some? ==> Contains(r.cidr.value, a) && Contains(r.cidr.value, b)
    ensures Matches(r, q, [b, a]) && !Matches(r, q, [b])
  {
  }

  // ---------------------------------------------------------------------------------------------
  // Deciding before resolution.
  // ---------------------------------------------------------------------------------------------

  datatype PreResolve = DeniedWithoutResolution | NeedsResolution

  predicate ResolutionDependent(r: Rule, target: Target)
  {
    target.Domain? && (r.cidr.Some? || !(r.action == Deny && r.privacy == None))
  }

  predicate SomeAllowReachable(rules: seq<Rule>, q: Request)
  {
    exists i :: 0 <= i < |rules| && rules[i].action == Allow && MatchesFixed(rules[i], q)
  }

  /** The first rule that could still match, if it decides without addresses. */
  function FirstReachable(rules: seq<Rule>, q: Request): (p: PreResolve)
  {
    if rules == [] then DeniedWithoutResolution
    else if !MatchesFixed(rules[0], q) then FirstReachable(rules[1..], q)
    else if ResolutionDependent(rules[0], q.target) then NeedsResolution
    else if rules[0].action == Deny then DeniedWithoutResolution
    else NeedsResolution
  }

  function EvaluatePreResolve(rules: seq<Rule>, q: Request, resolved: seq<Ip>): (p: PreResolve)
  {
    if !q.target.Domain? then
      match Evaluate(rules, q, resolved) case Allow => NeedsResolution case Deny => DeniedWithoutResolution
    else if !SomeAllowReachable(rules, q) then DeniedWithoutResolution
    else FirstReachable(rules, q)
  }

  lemma {:induction false} UnreachableAllowDenies(rules: seq<Rule>, q: Request, ips: seq<Ip>)
    requires !SomeAllowReachable(rules, q)
    ensures FirstMatch(rules, q, ips) == Deny
  {
    if rules != [] {
      assert forall i :: 0 <= i < |rules[1..]| ==> rules[1..][i] == rules[i + 1];
      assert !(rules[0].action == Allow && MatchesFixed(rules[0], q));
      UnreachableAllowDenies(rules[1..], q, ips);
    }
  }

  lemma {:induction false} ReachableDenyDenies(rules: seq<Rule>, q: Request, ips: seq<Ip>)
    requires q.target.Domain? && FirstReachable(rules, q) == DeniedWithoutResolution
    ensures FirstMatch(rules, q, ips) == Deny
  {
    if rules != [] && !MatchesFixed(rules[0], q) {
      ReachableDenyDenies(rules[1..], q, ips);
    }
  }

  /** A denial before resolution stands whatever the name resolves to; for address targets it is exact. */
  lemma PreResolveIsSound(rules: seq<Rule>, q: Request, before: seq<Ip>, resolved: seq<Ip>)
    ensures EvaluatePreResolve(rules, q, before) == DeniedWithoutResolution ==> Evaluate(rules, q, resolved) == Deny
    ensures !q.target.Domain? && Evaluate(rules, q, resolved) == Deny
      ==> EvaluatePreResolve(rules, q, before) == DeniedWithoutResolution
  {
    if q.target.Domain? && EvaluatePreResolve(rules, q, before) == DeniedWithoutResolution {
      if SomeAllowReachable(rules, q) {
        ReachableDenyDenies(rules, q, resolved);
      } else {
        UnreachableAllowDenies(rules, q, resolved);
      }
    }
  }

  /** The rule is a deny without address predicates, and the first whose other predicates are met. */
  predicate DeniesOutright(rules: seq<Rule>, q: Request, k: nat)
    requires k < |rules|
  {
    && rules[k].action == Deny && rules[k].cidr == None && rules[k].privacy == None && !Elsewhere(rules[k], q)
    && forall j :: 0 <= j < k ==> Elsewhere(rules[j], q)
  }

  /** A name is denied before resolution exactly when no allow rule could ever concern it or an outright deny comes first. */
  lemma DeniedEarlyIff(rules: seq<Rule>, q: Request, before: seq<Ip>)
    requires q.target.Domain?
    ensures EvaluatePreResolve(rules, q, before) == DeniedWithoutResolution <==>
      || (forall i :: 0 <= i < |rules| && rules[i].action == Allow ==> Elsewhere(rules[i], q))
      || (exists k :: 0 <= k < |rules| && DeniesOutright(rules, q, k))
  {
    FixedIffHere(q);
    FirstReachableIff(rules, q);
  }

  lemma FixedIffHere(q: Request)
    ensures forall r :: MatchesFixed(r, q) <==> !Elsewhere(r, q)
  {
  }

  lemma {:induction false} FirstReachableIff(rules: seq<Rule>, q: Request)
    requires q.target.Domain?
    ensures FirstReachable(rules, q) == DeniedWithoutResolution <==>
      || (forall i :: 0 <= i < |rules| ==> Elsewhere(rules[i], q))
      || (exists k :: 0 <= k < |rules| && DeniesOutright(rules, q, k))
  {
    FixedIffHere(q);
    if rules != [] {
      var rest := rules[1..];
      FirstReachableIff(rest, q);
      if Elsewhere(rules[0], q) {
        forall k | 0 <= k < |rest|
          ensures DeniesOutright(rest, q, k) <==> DeniesOutright(rules, q, k + 1)
        {
          OutrightLater(rules, q, k);
        }
        assert forall k :: 0 < k < |rules| ==> rules[k] == rest[k - 1];
        assert forall k :: 0 < k < |rules| && DeniesOutright(rules, q, k) ==> DeniesOutright(rest, q, k - 1);
      } else if rules[0].action == Deny && rules[0].cidr == None && rules[0].privacy == None {
        assert DeniesOutright(rules, q, 0);
      }
    }
  }

  lemma OutrightLater(rules: seq<Rule>, q: Request, k: nat)
    requires rules != [] && Elsewhere(rules[0], q) && k < |rules[1..]|
    ensures DeniesOutright(rules[1..], q, k) <==> DeniesOutright(rules, q, k + 1)
  {
    var rest := rules[1..];
    assert rest[k] == rules[k + 1];
    if DeniesOutright(rest, q, k) {
      forall j | 0 <= j < k + 1
        ensures Elsewhere(rules[j], q)
      {
        assert j > 0 ==> rules[j] == rest[j - 1];
      }
    }
    if DeniesOutright(rules, q, k + 1) {
      assert forall j :: 0 <= j < k ==> rest[j] == rules[j + 1];
    }
  }

  /** A name that has not been resolved is never allowed. */
  lemma {:induction false} UnresolvedIsDenied(rules: seq<Rule>, q: Request)
    ensures q.target.Domain? ==> Evaluate(rules, q, []) == Deny
    ensures FirstMatch(rules, q, []) == Deny
  {
    if rules != [] {
      UnresolvedIsDenied(rules[1..], q);
    }
  }

  // ---------------------------------------------------------------------------------------------
  // The private-destination lint.
  // ---------------------------------------------------------------------------------------------

  predicate BlanketPrivateDeny(r: Rule)
  {
    r == Rule(Deny, None, None, None, None, None, None, Some(true))
  }

  /** Some opt-in rule has no blanket private deny in front of it. */
  predicate UnrestrictedPrivateAllow(rules: seq<Rule>)
  {
    exists i :: 0 <= i < |rules| && OptsIn(rules[i]) && forall j :: 0 <= j < i ==> !BlanketPrivateDeny(rules[j])
  }

  method HasUnrestrictedPrivateAllow(rules: seq<Rule>) returns (found: bool)
    ensures found <==> UnrestrictedPrivateAllow(rules)
  {
    var hasBlanketPrivateDeny := false;
    for i := 0 to |rules|
      invariant hasBlanketPrivateDeny <==> exists j :: 0 <= j < i && BlanketPrivateDeny(rules[j])
      invariant forall k :: 0 <= k < i && OptsIn(rules[k]) ==> exists j :: 0 <= j < k && BlanketPrivateDeny(rules[j])
    {
      if BlanketPrivateDeny(rules[i]) {
        hasBlanketPrivateDeny := true;
      } else if rules[i].action == Allow && !hasBlanketPrivateDeny && rules[i].privacy == Some(true) {
        return true;
      }
    }
    return false;
  }

  lemma BlanketDenyMatches(r: Rule, q: Request, ips: seq<Ip>)
    requires BlanketPrivateDeny(r) && AnyPrivate(ips)
    ensures Matches(r, q, ips)
  {
  }

  lemma {:induction false} LintFreeDeniesPrivate(rules: seq<Rule>, q: Request, ips: seq<Ip>)
    requires !UnrestrictedPrivateAllow(rules) && AnyPrivate(ips)
    ensures FirstMatch(rules, q, ips) == Deny
  {
    if rules != [] {
      assert !OptsIn(rules[0]);
      if BlanketPrivateDeny(rules[0]) {
        BlanketDenyMatches(rules[0], q, ips);
      } else {
        assert forall i :: 0 <= i < |rules[1..]| ==> rules[1..][i] == rules[i + 1];
        LintFreeDeniesPrivate(rules[1..], q, ips);
      }
    }
  }

  /** A policy the lint is silent about never allows a request that reaches a private address. */
  lemma SilentLintMeansNoPrivate(rules: seq<Rule>, q: Request, resolved: seq<Ip>)
    requires !UnrestrictedPrivateAllow(rules)
    requires AnyPrivate(TargetIps(q.target, resolved))
    ensures Evaluate(rules, q, resolved) == Deny
  {
    LintFreeDeniesPrivate(rules, q, TargetIps(q.target, resolved));
  }

  /** The deny rule the lint looks for, in front, silences it whatever follows. */
  lemma BlanketDenySilencesLint(rules: seq<Rule>)
    ensures !UnrestrictedPrivateAllow([Rule(Deny, None, None, None, None, None, None, Some(true))] + rules)
  {
    assert BlanketPrivateDeny(([Rule(Deny, None, None, None, None, None, None, Some(true))] + rules)[0]);
  }
}
