/** The answer of `isAllowedTo` depends on earlier questions. `allows`
    writes the policy's root into each statement it visits, and
    `explicitlyDenies` reads the roots the statements currently hold, so a
    deny written for another account turns on only after some earlier scan
    has rooted it. This module shows the effect on a concrete policy and
    gives the corrected check, in which every statement is read scoped to
    its policy's root. */
module History {

  import opened Wrappers
  import opened Text
  import opened Arns
  import opened Wildcard
  import opened Statements
  import opened Policies
  import opened Resources
  import opened Actors
  import RootAccount

  /** The policy with every statement rooted at the policy's root: what
      `allows` reads, whatever it has visited so far. */
  function ScopedView(p: Policy): (v: Policy)
    ensures v.rootAccountId == p.rootAccountId && |v.statements| == |p.statements|
    ensures forall i :: 0 <= i < |p.statements| ==> v.statements[i] == SetStatementRoot(p.statements[i], p.rootAccountId)
  {
    p.(statements := seq(|p.statements|, i requires 0 <= i < |p.statements| => SetStatementRoot(p.statements[i], p.rootAccountId)))
  }

  function ScopeAll(ps: seq<Policy>): (vs: seq<Policy>)
    ensures |vs| == |ps| && forall i :: 0 <= i < |ps| ==> vs[i] == ScopedView(ps[i])
  {
    seq(|ps|, i requires 0 <= i < |ps| => ScopedView(ps[i]))
  }

  /** Rooting twice is rooting once. */
  lemma ScopedViewIdempotent(p: Policy)
    ensures ScopedView(ScopedView(p)) == ScopedView(p)
  {
    var v := ScopedView(p);
    forall i | 0 <= i < |p.statements|
      ensures SetStatementRoot(v.statements[i], p.rootAccountId) == v.statements[i]
    {
      RootAccount.SetRootAccountLaws(p.statements[i].rootAccountId, p.rootAccountId);
    }
  }

  /** `allows` changes a policy only within its scoped view. */
  lemma AllowsKeepsScopedView(p: Policy, action: string, arn: string)
    ensures ScopedView(Allows(p, action, arn).policy) == ScopedView(p)
  {
    var q := Allows(p, action, arn).policy;
    forall i | 0 <= i < |p.statements|
      ensures SetStatementRoot(q.statements[i], p.rootAccountId) == SetStatementRoot(p.statements[i], p.rootAccountId)
    {
      RootAccount.SetRootAccountLaws(p.statements[i].rootAccountId, p.rootAccountId);
    }
  }

  /** On a scoped view `allows` writes nothing and decides as on the
      policy itself. */
  lemma AllowsOnScopedView(p: Policy, action: string, arn: string)
    ensures Allows(ScopedView(p), action, arn) == Evaluation(Allows(p, action, arn).allowed, ScopedView(p))
  {
    var v := ScopedView(p);
    var root := p.rootAccountId;
    forall i | 0 <= i < |p.statements|
      ensures SetStatementRoot(v.statements[i], root) == SetStatementRoot(p.statements[i], root)
      ensures SetStatementRoot(v.statements[i], root) == v.statements[i]
    {
      RootAccount.SetRootAccountLaws(p.statements[i].rootAccountId, root);
    }
    DecisionPointScoped(root, v.statements, p.statements, action, arn);
    var e := Allows(v, action, arn);
    assert e.policy.statements == v.statements;
  }

  /** The loop of `isAllowedTo` changes the policies only within their
      scoped views. */
  lemma CheckKeepsScopedView(ps: seq<Policy>, action: string, arn: string)
    ensures ScopeAll(CheckPolicies(ps, action, arn).policies) == ScopeAll(ps)
  {
    var out := CheckPolicies(ps, action, arn).policies;
    forall i | 0 <= i < |ps|
      ensures ScopedView(out[i]) == ScopedView(ps[i])
    {
      AllowsKeepsScopedView(ps[i], action, arn);
    }
  }

  /** On scoped policies the loop writes nothing. */
  lemma CheckOnScoped(ps: seq<Policy>, action: string, arn: string)
    ensures CheckPolicies(ScopeAll(ps), action, arn).policies == ScopeAll(ps)
    ensures forall i :: 0 <= i < |ps| ==> Allows(ScopeAll(ps)[i], action, arn).allowed == Allows(ps[i], action, arn).allowed
  {
    var vs := ScopeAll(ps);
    forall i | 0 <= i < |ps|
      ensures Allows(vs[i], action, arn) == Evaluation(Allows(ps[i], action, arn).allowed, vs[i])
    {
      AllowsOnScopedView(ps[i], action, arn);
    }
  }

  /** The corrected `isAllowedTo`: every statement is read scoped to its
      policy's root, by the deny check as by `allows`. Its verdict depends
      on the scoped views alone, and it leaves the policies scoped. */
  function IsAllowedToScoped(actor: Actor, action: string, t: Target): (r: Result<Checked, AclError>)
    ensures var arn := ResolveArn(actor, t);
      && (r.Failure? <==> '*' in action || '*' in arn)
      && (r.Failure? ==> r.error == WildcardNotPermitted(action, arn))
      && (r.Success? ==> (r.value.allowed <==>
            NoneDenies(ScopeAll(actor.policies), action, arn) && SomeAllows(actor.policies, action, arn)))
      && (r.Success? ==> r.value.actor == actor.(policies := ScopeAll(actor.policies)))
  {
    var arn := ResolveArn(actor, t);
    assert ResolveArn(actor.(policies := ScopeAll(actor.policies)), t) == arn;
    CheckOnScoped(actor.policies, action, arn);
    SomeAllowsScoped(actor.policies, action, arn);
    IsAllowedTo(actor.(policies := ScopeAll(actor.policies)), action, t)
  }

  /** Scoping does not change whether some policy allows. */
  lemma SomeAllowsScoped(ps: seq<Policy>, action: string, arn: string)
    ensures SomeAllows(ScopeAll(ps), action, arn) == SomeAllows(ps, action, arn)
  {
    var vs := ScopeAll(ps);
    CheckOnScoped(ps, action, arn);
    SomeAllowsMeans(ps, action, arn);
    SomeAllowsMeans(vs, action, arn);
    if SomeAllows(vs, action, arn) {
      var i :| 0 <= i < |vs| && Allows(vs[i], action, arn).allowed;
      assert Allows(ps[i], action, arn).allowed;
    }
    if SomeAllows(ps, action, arn) {
      var i :| 0 <= i < |ps| && Allows(ps[i], action, arn).allowed;
      assert Allows(vs[i], action, arn).allowed;
    }
  }

  /** Under the correction no question changes the answer to another: the
      result after any earlier check, as written or corrected, is the
      result on the actor as loaded. */
  lemma CorrectedIgnoresHistory(actor: Actor, a1: string, t1: Target, a2: string, t2: Target)
    ensures IsAllowedTo(actor, a1, t1).Success? ==>
              IsAllowedToScoped(IsAllowedTo(actor, a1, t1).value.actor, a2, t2) == IsAllowedToScoped(actor, a2, t2)
    ensures IsAllowedToScoped(actor, a1, t1).Success? ==>
              IsAllowedToScoped(IsAllowedToScoped(actor, a1, t1).value.actor, a2, t2) == IsAllowedToScoped(actor, a2, t2)
  {
    var r := IsAllowedTo(actor, a1, t1);
    if r.Success? {
      CheckKeepsScopedView(actor.policies, a1, ResolveArn(actor, t1));
      assert r.value.actor.(policies := ScopeAll(r.value.actor.policies)) == actor.(policies := ScopeAll(actor.policies));
    }
    var s := IsAllowedToScoped(actor, a1, t1);
    if s.Success? {
      var ps := actor.policies;
      forall i | 0 <= i < |ps|
        ensures ScopedView(ScopeAll(ps)[i]) == ScopedView(ps[i])
      {
        ScopedViewIdempotent(ps[i]);
      }
      assert ScopeAll(ScopeAll(ps)) == ScopeAll(ps);
    }
  }

  // -------------------------------------------------------------------
  // The counterexample: an `Allow` on every `vps` instance of every
  // account and a `Deny` on one instance in another account, loaded for
  // an actor of `team`.
  // -------------------------------------------------------------------

  /** `arn:php:default:local:acc:vps/id`. */
  function VpsArn(acc: string, id: string): Arn
  {
    Arn(Some("php"), Some("default"), Some("local"), Some(acc), Some("vps"), Some(id))
  }

  /** The policy of the counterexample, rooted at `team` as `loadPolicies`
      leaves it; the statements themselves are not yet rooted. */
  function SplitPolicy(team: string, other: string, id: string, star: string): Policy
  {
    Policy([Statement("Allow", ["vps:Describe"], [GetArn(VpsArn(star, star))], None),
            Statement("Deny", ["vps:Describe"], [GetArn(VpsArn(other, id))], None)],
           Some(team))
  }

  /** The segments of a `VpsArn` are `:`-free and the ARN reads back. */
  lemma VpsArnShape(acc: string, id: string)
    requires ':' !in acc && ':' !in id && id != "" && id != "0"
    ensures Flat(VpsArn(acc, id)) && Canonical(VpsArn(acc, id))
    ensures ParseArn(GetArn(VpsArn(acc, id))) == VpsArn(acc, id)
    ensures PrintedFields(VpsArn(acc, id)) == ["arn", "php", "default", "local", acc, "vps" + "/" + id]
  {
    var a := VpsArn(acc, id);
    assert LastField(a) == "vps" + "/" + id;
    assert ':' !in "vps" + "/" + id;
    ParsePrinted(a);
  }

  /** A `VpsArn` holds a `*` only where its account or id does. */
  lemma VpsArnStarFree(acc: string, id: string)
    requires ':' !in acc && ':' !in id && id != "" && id != "0"
    requires '*' !in acc && '*' !in id
    ensures '*' !in GetArn(VpsArn(acc, id))
  {
    var a := VpsArn(acc, id);
    ArnAsFields(a);
    VpsArnShape(acc, id);
    assert '*' !in "vps" + "/" + id;
    NotInJoin(PrintedFields(a), ':', '*');
  }

  /** The `Allow` pattern for every `vps` instance of every account, rooted
      at `team`, passes
      every instance of `team`. */
  lemma AllowPatternPasses(team: string, id: string, star: string)
    requires star == "*"
    requires ':' !in team && team != "" && team != "0"
    requires ':' !in id && id != "" && id != "0"
    ensures ResourcePatternPasses(GetArn(VpsArn(star, star)), Some(team), GetArn(VpsArn(team, id)))
  {
    var pattern := GetArn(VpsArn(star, star));
    VpsArnShape(star, star);
    VpsArnShape(team, star);
    VpsArnShape(team, id);
    assert ScopeArn(ParseArn(pattern), Some(team)) == VpsArn(team, star);
    VpsFieldsGlob(team, id, star);
    ScopedMatchFieldwise(pattern, Some(team), VpsArn(team, id));
  }

  /** Field by field, the `team` instance pattern with id `*` globs every
      instance of `team`. */
  lemma VpsFieldsGlob(team: string, id: string, star: string)
    requires star == "*"
    requires ':' !in team && team != "" && team != "0"
    requires ':' !in id && id != "" && id != "0"
    ensures forall i :: 0 <= i < 6 ==> Glob(PrintedFields(VpsArn(team, star))[i], PrintedFields(VpsArn(team, id))[i])
  {
    VpsArnShape(team, star);
    VpsArnShape(team, id);
    var ps := PrintedFields(VpsArn(team, star));
    var vs := PrintedFields(VpsArn(team, id));
    assert ps[5] == "vps/" + star;
    assert vs[5] == "vps/" + id;
    GlobPrefixStar("vps/", vs[5]);
    SameHeadFields(ps, vs);
  }

  /** Six fields that agree on the first five and glob on the last glob
      field by field. */
  lemma SameHeadFields(ps: seq<string>, vs: seq<string>)
    requires |ps| == 6 && |vs| == 6
    requires forall i :: 0 <= i < 5 ==> ps[i] == vs[i]
    requires Glob(ps[5], vs[5])
    ensures forall i :: 0 <= i < 6 ==> Glob(ps[i], vs[i])
  {
    forall i | 0 <= i < 5
      ensures Glob(ps[i], vs[i])
    {
      GlobReflexive(ps[i]);
    }
  }

  /** The `Deny` pattern for account `other`: unrooted it misses an
      instance of `team`; rooted at `team` it is that instance exactly. */
  lemma DenyPatternRooting(team: string, other: string, id: string)
    requires ':' !in team && '*' !in team && team != "" && team != "0"
    requires ':' !in other && '*' !in other && other != team
    requires ':' !in id && '*' !in id && id != "" && id != "0"
    ensures !ResourcePatternPasses(GetArn(VpsArn(other, id)), None, GetArn(VpsArn(team, id)))
    ensures ResourcePatternPasses(GetArn(VpsArn(other, id)), Some(team), GetArn(VpsArn(team, id)))
  {
    var pattern := GetArn(VpsArn(other, id));
    var target := GetArn(VpsArn(team, id));
    VpsArnShape(other, id);
    VpsArnShape(team, id);
    VpsArnStarFree(other, id);
    assert pattern != target by {
      assert ParseArn(pattern) != ParseArn(target);
    }
    assert ScopedPattern(pattern, None) == pattern;
    GlobLiteral(pattern, target);
    assert ScopeArn(ParseArn(pattern), Some(team)) == VpsArn(team, id);
    GlobReflexive(target);
  }

  /** The actor of the counterexample, as `loadPolicies` leaves it. */
  function SplitActor(team: string, other: string, id: string, star: string): Actor
  {
    Actor(ActorIdentity(Some(team), None), [SplitPolicy(team, other, id, star)])
  }

  /** The conditions on the counterexample's names: `:`-free, `*`-free
      (except `star`, which is the wildcard itself), two distinct
      accounts, a truthy root and a truthy id. */
  predicate SplitNames(team: string, other: string, id: string, star: string)
  {
    && star == "*"
    && ':' !in team && '*' !in team && team != "" && team != "0"
    && ':' !in other && '*' !in other && other != team
    && ':' !in id && '*' !in id && id != "" && id != "0"
  }

  /** Asked first, `vps:Describe` on the `team` instance is allowed: the
      unrooted deny misses it and the rooted allow covers it. */
  lemma FreshCheckAllows(team: string, other: string, id: string, star: string)
    requires SplitNames(team, other, id, star)
    ensures var r := IsAllowedTo(SplitActor(team, other, id, star), "vps:Describe", ArnString(GetArn(VpsArn(team, id))));
            r.Success? && r.value.allowed
  {
    var p := SplitPolicy(team, other, id, star);
    var target := GetArn(VpsArn(team, id));
    VpsArnStarFree(team, id);
    assert '*' !in "vps:Describe";
    DenyPatternRooting(team, other, id);
    assert !Passes(p.statements[1], "vps:Describe", target);
    assert !PolicyExplicitlyDenies(p, "vps:Describe", target);
    assert NoneDenies([p], "vps:Describe", target);
    AllowPatternPasses(team, id, star);
    assert ActionPatternPasses("vps:Describe", "vps:Describe");
    assert Passes(SetStatementRoot(p.statements[0], Some(team)), "vps:Describe", target);
    assert DecisionPoint(Some(team), p.statements, "vps:Describe", target) == 0;
    assert SomeAllows([p], "vps:Describe", target);
  }

  /** An unrelated question, `vps:List`, matches no statement, so the scan
      visits and roots both of them. */
  lemma UnrelatedCheckRoots(team: string, other: string, id: string, star: string)
    requires SplitNames(team, other, id, star)
    ensures var a := SplitActor(team, other, id, star);
            var r := IsAllowedTo(a, "vps:List", ArnString(GetArn(VpsArn(team, id))));
            r.Success? && r.value.actor == a.(policies := [ScopedView(SplitPolicy(team, other, id, star))])
  {
    var p := SplitPolicy(team, other, id, star);
    var target := GetArn(VpsArn(team, id));
    VpsArnStarFree(team, id);
    assert '*' !in "vps:List";
    GlobLiteral("vps:Describe", "vps:List");
    assert !ActionPatternPasses("vps:Describe", "vps:List");
    assert forall k :: 0 <= k < 2 ==> !Passes(SetStatementRoot(p.statements[k], Some(team)), "vps:List", target);
    assert forall k :: 0 <= k < 2 ==> !Passes(p.statements[k], "vps:List", target);
    assert !PolicyExplicitlyDenies(p, "vps:List", target);
    assert FirstDeny([p], "vps:List", target) == 1;
    assert DecisionPoint(Some(team), p.statements, "vps:List", target) == 2;
    assert Allows(p, "vps:List", target).policy == ScopedView(p);
  }

  /** Once the statements are rooted, the same `vps:Describe` question is
      refused: the deny for `other` now reads as a deny for `team`. */
  lemma RootedCheckDenies(team: string, other: string, id: string, star: string)
    requires SplitNames(team, other, id, star)
    ensures var a := SplitActor(team, other, id, star);
            var r := IsAllowedTo(a.(policies := [ScopedView(SplitPolicy(team, other, id, star))]), "vps:Describe", ArnString(GetArn(VpsArn(team, id))));
            r.Success? && !r.value.allowed
  {
    var v := ScopedView(SplitPolicy(team, other, id, star));
    var target := GetArn(VpsArn(team, id));
    VpsArnStarFree(team, id);
    assert '*' !in "vps:Describe";
    DenyPatternRooting(team, other, id);
    assert ActionPatternPasses("vps:Describe", "vps:Describe");
    assert v.statements[1].effect != "Allow";
    assert Passes(v.statements[1], "vps:Describe", target);
    assert PolicyExplicitlyDenies(v, "vps:Describe", target);
    assert !NoneDenies([v], "vps:Describe", target);
  }

  /** The corrected check roots the statements before it asks, so it
      refuses `vps:Describe` on the first call already. */
  lemma ScopedCheckDenies(team: string, other: string, id: string, star: string)
    requires SplitNames(team, other, id, star)
    ensures var r := IsAllowedToScoped(SplitActor(team, other, id, star), "vps:Describe", ArnString(GetArn(VpsArn(team, id))));
            r.Success? && !r.value.allowed
  {
    var a := SplitActor(team, other, id, star);
    assert ScopeAll(a.policies) == [ScopedView(SplitPolicy(team, other, id, star))];
    RootedCheckDenies(team, other, id, star);
  }

  /** The finding: the same question gets two answers, depending on an
      earlier, unrelated one. The corrected check gives the rooted answer
      from the start. */
  lemma HistoryChangesVerdict(team: string, other: string, id: string, star: string)
    requires SplitNames(team, other, id, star)
    ensures var a := SplitActor(team, other, id, star);
            var target := ArnString(GetArn(VpsArn(team, id)));
            var first := IsAllowedTo(a, "vps:Describe", target);
            var between := IsAllowedTo(a, "vps:List", target);
            && first.Success? && first.value.allowed
            && between.Success?
            && IsAllowedTo(between.value.actor, "vps:Describe", target).Success?
            && !IsAllowedTo(between.value.actor, "vps:Describe", target).value.allowed
            && IsAllowedToScoped(a, "vps:Describe", target).Success?
            && !IsAllowedToScoped(a, "vps:Describe", target).value.allowed
  {
    FreshCheckAllows(team, other, id, star);
    UnrelatedCheckRoots(team, other, id, star);
    RootedCheckDenies(team, other, id, star);
    ScopedCheckDenies(team, other, id, star);
  }
}
