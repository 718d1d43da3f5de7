/** An actor ruled by policies (`HasPolicies`): it loads a list of
    policies, answers `isAllowedTo` across all of them, and builds the
    allow/deny id lists of `getQuery`. */
module Actors {

  import opened Wrappers
  import opened Arns
  import opened Statements
  import opened Policies
  import opened Resources

  datatype Actor = Actor(identity: ActorIdentity, policies: seq<Policy>)

  /** A value handed to `loadPolicies`: a policy, an array of values, or
      anything else. */
  datatype Value = PolicyValue(policy: Policy) | ArrayValue(items: seq<Value>) | OtherValue

  /** What `isAllowedTo` and `getQuery` are asked about: a literal ARN
      string, an `Arnable` instance, or the name of an `Arnable` class. */
  datatype Target = ArnString(arn: string) | Instance(resource: Resource) | ClassName(cls: ResourceClass)

  /** The exceptions of the actor: a wildcard in the question, or a loaded
      value on which `setRootAccount` cannot be called. */
  datatype AclError = WildcardNotPermitted(action: string, arn: string) | NotAPolicy

  /** The verdict of `isAllowedTo` and the actor as the check leaves it. */
  datatype Checked = Checked(allowed: bool, actor: Actor)

  // -------------------------------------------------------------------
  // loadPolicies
  // -------------------------------------------------------------------

  /** The argument list, with a lone array argument unwrapped. */
  function LoadedValues(args: seq<Value>): seq<Value>
  {
    if |args| == 1 && args[0].ArrayValue? then args[0].items else args
  }

  /** `setRootAccount(account)` on every loaded value in order; `None` at
      the first value that is not a policy. */
  function RootAll(values: seq<Value>, account: Option<string>): (r: Option<seq<Policy>>)
    ensures r.Some? <==> forall i :: 0 <= i < |values| ==> values[i].PolicyValue?
    ensures r.Some? ==> |r.value| == |values|
    ensures r.Some? ==> forall i :: 0 <= i < |values| ==>
              r.value[i].statements == values[i].policy.statements
              && r.value[i].rootAccountId == (if account.Some? then account else values[i].policy.rootAccountId)
  {
    if |values| == 0 then Some([])
    else if !values[0].PolicyValue? then None
    else
      match RootAll(values[1..], account)
      case None => None
      case Some(rest) => Some([SetPolicyRoot(values[0].policy, account)] + rest)
  }

  /** `loadPolicies(...$policies)`: the policies replace the actor's, each
      rooted at the actor's account (a `null` account leaves the policy's
      own root). It fails when a loaded value is not a policy. */
  function LoadPolicies(actor: Actor, args: seq<Value>): (r: Result<Actor, AclError>)
    ensures r.Success? <==> forall i :: 0 <= i < |LoadedValues(args)| ==> LoadedValues(args)[i].PolicyValue?
    ensures r.Failure? ==> r.error == NotAPolicy
    ensures r.Success? ==> r.value.identity == actor.identity
    ensures r.Success? ==> |r.value.policies| == |LoadedValues(args)|
    ensures r.Success? && actor.identity.accountId.Some? ==>
              forall i :: 0 <= i < |r.value.policies| ==> r.value.policies[i].rootAccountId == actor.identity.accountId
    ensures r.Success? ==> forall i :: 0 <= i < |r.value.policies| ==>
              && r.value.policies[i].statements == LoadedValues(args)[i].policy.statements
              && r.value.policies[i].rootAccountId
                 == (if actor.identity.accountId.Some? then actor.identity.accountId
                     else LoadedValues(args)[i].policy.rootAccountId)
  {
    match RootAll(LoadedValues(args), actor.identity.accountId)
    case None => Failure(NotAPolicy)
    case Some(ps) => Success(actor.(policies := ps))
  }

  // -------------------------------------------------------------------
  // isAllowedTo
  // -------------------------------------------------------------------

  /** The ARN string a target stands for: the instance's `toArn`, or the
      class's id-agnostic ARN as seen by this actor. */
  function ResolveArn(actor: Actor, t: Target): string
  {
    match t
    case ArnString(s) => s
    case Instance(r) => ToArn(r)
    case ClassName(cls) => ResourceIdAgnosticArn(cls, actor.identity)
  }

  /** The index of the first policy that explicitly denies, or `|ps|`. */
  function FirstDeny(ps: seq<Policy>, action: string, arn: string): (k: nat)
    ensures k <= |ps|
    ensures forall j :: 0 <= j < k ==> !PolicyExplicitlyDenies(ps[j], action, arn)
    ensures k < |ps| ==> PolicyExplicitlyDenies(ps[k], action, arn)
  {
    if |ps| == 0 then 0
    else if PolicyExplicitlyDenies(ps[0], action, arn) then 0
    else 1 + FirstDeny(ps[1..], action, arn)
  }

  /** Where the loop of `isAllowedTo` ends: whether a deny cut it short,
      whether an `allows` was hit before that, and the policies as the
      visited `allows` calls left them. */
  datatype LoopState = LoopState(denied: bool, hit: bool, policies: seq<Policy>)

  /** The loop of `isAllowedTo`: per policy, a deny ends the loop; otherwise
      `allows` runs and may record a hit. A deny anywhere is seen; without
      one, a hit is recorded exactly when some policy allows. The policies
      before the first deny come back as `allows` left them. */
  function CheckPolicies(ps: seq<Policy>, action: string, arn: string): (res: LoopState)
    ensures res.denied <==> !NoneDenies(ps, action, arn)
    ensures !res.denied ==> (res.hit <==> SomeAllows(ps, action, arn))
    ensures |res.policies| == |ps|
    ensures forall i :: 0 <= i < |ps| ==>
              res.policies[i] == if i < FirstDeny(ps, action, arn) then Allows(ps[i], action, arn).policy else ps[i]
  {
    if |ps| == 0 then LoopState(false, false, [])
    else if PolicyExplicitlyDenies(ps[0], action, arn) then
      assert FirstDeny(ps, action, arn) == 0;
      LoopState(true, false, ps)
    else
      var e := Allows(ps[0], action, arn);
      var rest := CheckPolicies(ps[1..], action, arn);
      StateStep(ps, action, arn, rest.policies);
      LoopState(rest.denied, e.allowed || rest.hit, [e.policy] + rest.policies)
  }

  /** No policy of `ps` explicitly denies. */
  predicate NoneDenies(ps: seq<Policy>, action: string, arn: string)
  {
    |ps| == 0 || (!PolicyExplicitlyDenies(ps[0], action, arn) && NoneDenies(ps[1..], action, arn))
  }

  /** Some policy of `ps` allows. */
  predicate SomeAllows(ps: seq<Policy>, action: string, arn: string)
  {
    |ps| > 0 && (Allows(ps[0], action, arn).allowed || SomeAllows(ps[1..], action, arn))
  }

  lemma {:induction false} NoneDeniesMeans(ps: seq<Policy>, action: string, arn: string)
    ensures NoneDenies(ps, action, arn) <==> forall i :: 0 <= i < |ps| ==> !PolicyExplicitlyDenies(ps[i], action, arn)
  {
    if |ps| > 0 {
      NoneDeniesMeans(ps[1..], action, arn);
      assert forall i :: 1 <= i < |ps| ==> ps[1..][i - 1] == ps[i];
    }
  }

  lemma {:induction false} SomeAllowsMeans(ps: seq<Policy>, action: string, arn: string)
    ensures SomeAllows(ps, action, arn) <==> exists i :: 0 <= i < |ps| && Allows(ps[i], action, arn).allowed
  {
    if |ps| > 0 {
      SomeAllowsMeans(ps[1..], action, arn);
      var tail := ps[1..];
      assert forall i :: 1 <= i < |ps| ==> tail[i - 1] == ps[i];
      if exists i :: 0 <= i < |tail| && Allows(tail[i], action, arn).allowed {
        var i :| 0 <= i < |tail| && Allows(tail[i], action, arn).allowed;
        assert Allows(ps[i + 1], action, arn).allowed;
      }
    }
  }

  /** The policies after one step of the loop, the first policy not
      denying: it comes back as `allows` left it, ahead of the rest. */
  lemma StateStep(ps: seq<Policy>, action: string, arn: string, rest: seq<Policy>)
    requires |ps| > 0 && !PolicyExplicitlyDenies(ps[0], action, arn)
    requires |rest| == |ps| - 1
    requires forall i :: 0 <= i < |rest| ==>
               rest[i] == if i < FirstDeny(ps[1..], action, arn) then Allows(ps[1..][i], action, arn).policy else ps[1..][i]
    ensures forall i :: 0 <= i < |ps| ==>
              ([Allows(ps[0], action, arn).policy] + rest)[i]
              == if i < FirstDeny(ps, action, arn) then Allows(ps[i], action, arn).policy else ps[i]
  {
    var k := FirstDeny(ps, action, arn);
    assert k == 1 + FirstDeny(ps[1..], action, arn);
    var out := [Allows(ps[0], action, arn).policy] + rest;
    forall i | 0 <= i < |ps|
      ensures out[i] == if i < k then Allows(ps[i], action, arn).policy else ps[i]
    {
      if i > 0 {
        assert out[i] == rest[i - 1];
        assert ps[1..][i - 1] == ps[i];
      }
    }
  }

  /** `isAllowedTo(action, arn)`: a `*` in the action or in the resolved
      ARN is refused; otherwise deny-overrides across policies. */
  function IsAllowedTo(actor: Actor, action: string, t: Target): (r: Result<Checked, AclError>)
    ensures var arn := ResolveArn(actor, t);
      && (r.Failure? <==> '*' in action || '*' in arn)
      && (r.Failure? ==> r.error == WildcardNotPermitted(action, arn))
      && (r.Success? ==> (r.value.allowed <==> NoneDenies(actor.policies, action, arn) && SomeAllows(actor.policies, action, arn)))
      && (r.Success? ==> r.value.actor.identity == actor.identity
                         && |r.value.actor.policies| == |actor.policies|)
    ensures var arn := ResolveArn(actor, t);
      r.Success? ==> forall i :: 0 <= i < |actor.policies| ==>
        r.value.actor.policies[i]
          == if i < FirstDeny(actor.policies, action, arn) then Allows(actor.policies[i], action, arn).policy
             else actor.policies[i]
  {
    var arn := ResolveArn(actor, t);
    if '*' in action || '*' in arn then Failure(WildcardNotPermitted(action, arn))
    else
      var loop := CheckPolicies(actor.policies, action, arn);
      Success(Checked(!loop.denied && loop.hit, actor.(policies := loop.policies)))
  }

  /** Loading an array of policies and spreading the same policies as
      arguments end the same way. */
  lemma ArrayOrSpread(actor: Actor, values: seq<Value>)
    requires !(|values| == 1 && values[0].ArrayValue?)
    ensures LoadPolicies(actor, [ArrayValue(values)]) == LoadPolicies(actor, values)
  {
  }

  /** Deny-overrides across policies, stated without the loop: a checked
      question is allowed exactly when no policy explicitly denies it and
      some policy allows it. */
  lemma {:induction false} DenyOverrides(actor: Actor, action: string, t: Target)
    ensures var arn := ResolveArn(actor, t);
            var r := IsAllowedTo(actor, action, t);
            var ps := actor.policies;
            r.Success? ==>
              (r.value.allowed <==>
                 (forall i :: 0 <= i < |ps| ==> !PolicyExplicitlyDenies(ps[i], action, arn))
                 && (exists i :: 0 <= i < |ps| && Allows(ps[i], action, arn).allowed))
  {
    NoneDeniesMeans(actor.policies, action, ResolveArn(actor, t));
    SomeAllowsMeans(actor.policies, action, ResolveArn(actor, t));
  }

  /** One deny statement that matches, in any loaded policy and at any
      position, refuses the question, even when an `Allow` listed before
      it matches too. The deny is read with the root it currently holds. */
  lemma DenyAnywhereWins(actor: Actor, action: string, t: Target, k: nat, j: nat)
    requires k < |actor.policies| && j < |actor.policies[k].statements|
    requires actor.policies[k].statements[j].effect != "Allow"
    requires Passes(actor.policies[k].statements[j], action, ResolveArn(actor, t))
    ensures IsAllowedTo(actor, action, t).Success? ==> !IsAllowedTo(actor, action, t).value.allowed
  {
    assert PolicyExplicitlyDenies(actor.policies[k], action, ResolveArn(actor, t));
    DenyOverrides(actor, action, t);
  }

  /** The verdict (not the policies left behind) does not depend on the
      order of the policy values, nor on repeated values: only which
      values are loaded matters. One policy object loaded at two
      positions shares its statements in PHP; that is not modelled. */
  lemma PolicyOrderIrrelevant(actor: Actor, ps: seq<Policy>, action: string, t: Target)
    requires forall p :: p in ps <==> p in actor.policies
    ensures var r := IsAllowedTo(actor, action, t);
            var q := IsAllowedTo(actor.(policies := ps), action, t);
            r.Success? == q.Success? && (r.Success? ==> r.value.allowed == q.value.allowed)
  {
    var arn := ResolveArn(actor, t);
    assert ResolveArn(actor.(policies := ps), t) == arn;
    SameElementsSameVerdict(actor.policies, ps, action, arn);
  }

  /** Two policy lists with the same elements agree on both halves of
      the verdict. */
  lemma SameElementsSameVerdict(ps: seq<Policy>, qs: seq<Policy>, action: string, arn: string)
    requires forall p :: p in ps <==> p in qs
    ensures NoneDenies(ps, action, arn) == NoneDenies(qs, action, arn)
    ensures SomeAllows(ps, action, arn) == SomeAllows(qs, action, arn)
  {
    NoneDeniesMeans(ps, action, arn);
    NoneDeniesMeans(qs, action, arn);
    SomeAllowsMeans(ps, action, arn);
    SomeAllowsMeans(qs, action, arn);
    if exists i :: 0 <= i < |qs| && Allows(qs[i], action, arn).allowed {
      var i :| 0 <= i < |qs| && Allows(qs[i], action, arn).allowed;
      assert qs[i] in ps;
    }
    if exists i :: 0 <= i < |ps| && Allows(ps[i], action, arn).allowed {
      var i :| 0 <= i < |ps| && Allows(ps[i], action, arn).allowed;
      assert ps[i] in qs;
    }
    if exists i :: 0 <= i < |qs| && PolicyExplicitlyDenies(qs[i], action, arn) {
      var i :| 0 <= i < |qs| && PolicyExplicitlyDenies(qs[i], action, arn);
      assert qs[i] in ps;
    }
    if exists i :: 0 <= i < |ps| && PolicyExplicitlyDenies(ps[i], action, arn) {
      var i :| 0 <= i < |ps| && PolicyExplicitlyDenies(ps[i], action, arn);
      assert ps[i] in qs;
    }
  }

  /** An actor without policies is allowed nothing. */
  lemma NoPoliciesNoAccess(actor: Actor, action: string, t: Target)
    requires |actor.policies| == 0
    ensures IsAllowedTo(actor, action, t).Success? ==> !IsAllowedTo(actor, action, t).value.allowed
  {
  }

  // -------------------------------------------------------------------
  // getQuery
  // -------------------------------------------------------------------

  /** The id lists `getQuery` returns. */
  datatype Query = Only(ids: seq<string>) | Except(ids: seq<string>)

  /** One segment of a pattern covers the resource's: the two are
      identical (both `null` included) or the pattern's is `*`. */
  predicate Covers(pattern: Option<string>, resource: Option<string>)
  {
    resource == pattern || pattern == Some("*")
  }

  /** The id a resource pattern contributes: every segment up to the type
      covers the resource's, and the pattern's id is neither `null` nor
      empty. Root accounts play no part. */
  function PatternId(resource: Arn, pattern: string): Option<string>
  {
    var a := ParseArn(pattern);
    if Covers(a.partition, resource.partition) && Covers(a.service, resource.service)
       && Covers(a.region, resource.region) && Covers(a.accountId, resource.accountId)
       && Covers(a.resourceType, resource.resourceType) && a.resourceId.Some? && a.resourceId.value != ""
    then a.resourceId
    else None
  }

  /** The ids of a statement's patterns, in order. */
  function PatternIds(resource: Arn, patterns: seq<string>): (ids: seq<string>)
    ensures forall x :: x in ids <==> exists k :: 0 <= k < |patterns| && PatternId(resource, patterns[k]) == Some(x)
  {
    if |patterns| == 0 then []
    else
      var rest := PatternIds(resource, patterns[1..]);
      assert forall k :: 1 <= k < |patterns| ==> patterns[1..][k - 1] == patterns[k];
      match PatternId(resource, patterns[0])
      case None => rest
      case Some(x) => [x] + rest
  }

  /** Which list a statement feeds: `allow` for the exact effect `Allow`,
      `deny` for every other effect. */
  predicate Feeds(st: Statement, allowSide: bool)
  {
    (st.effect == "Allow") == allowSide
  }

  /** The ids the statements of one side contribute, in order. */
  function StatementIds(ss: seq<Statement>, action: string, resource: Arn, allowSide: bool): (ids: seq<string>)
    ensures forall x :: x in ids <==>
              exists j :: 0 <= j < |ss| && Feeds(ss[j], allowSide) && PassesAction(ss[j], action)
                          && x in PatternIds(resource, ss[j].resource)
  {
    if |ss| == 0 then []
    else
      var rest := StatementIds(ss[1..], action, resource, allowSide);
      assert forall j :: 1 <= j < |ss| ==> ss[1..][j - 1] == ss[j];
      (if Feeds(ss[0], allowSide) && PassesAction(ss[0], action) then PatternIds(resource, ss[0].resource) else [])
      + rest
  }

  /** The statement `st` of one of the policies feeds `x` to one side. */
  predicate Grants(ps: seq<Policy>, action: string, resource: Arn, allowSide: bool, x: string)
  {
    exists i, j :: 0 <= i < |ps| && 0 <= j < |ps[i].statements|
      && Feeds(ps[i].statements[j], allowSide) && PassesAction(ps[i].statements[j], action)
      && x in PatternIds(resource, ps[i].statements[j].resource)
  }

  /** An id is granted by a list of policies exactly when the first
      policy's statements give it or the rest grant it. */
  lemma GrantsCons(ps: seq<Policy>, action: string, resource: Arn, allowSide: bool, x: string)
    requires |ps| > 0
    ensures Grants(ps, action, resource, allowSide, x)
            <==> x in StatementIds(ps[0].statements, action, resource, allowSide)
                 || Grants(ps[1..], action, resource, allowSide, x)
  {
    if Grants(ps, action, resource, allowSide, x) {
      var i, j :| 0 <= i < |ps| && 0 <= j < |ps[i].statements|
        && Feeds(ps[i].statements[j], allowSide) && PassesAction(ps[i].statements[j], action)
        && x in PatternIds(resource, ps[i].statements[j].resource);
      if i > 0 {
        assert ps[1..][i - 1] == ps[i];
      }
    }
    if Grants(ps[1..], action, resource, allowSide, x) {
      var i, j :| 0 <= i < |ps[1..]| && 0 <= j < |ps[1..][i].statements|
        && Feeds(ps[1..][i].statements[j], allowSide) && PassesAction(ps[1..][i].statements[j], action)
        && x in PatternIds(resource, ps[1..][i].statements[j].resource);
      assert ps[1..][i] == ps[i + 1];
    }
  }

  /** The raw list of one side, across policies in order, repeats kept. */
  function CollectIds(ps: seq<Policy>, action: string, resource: Arn, allowSide: bool): (ids: seq<string>)
    ensures forall x :: x in ids <==> Grants(ps, action, resource, allowSide, x)
  {
    if |ps| == 0 then []
    else
      var rest := CollectIds(ps[1..], action, resource, allowSide);
      var here := StatementIds(ps[0].statements, action, resource, allowSide);
      assert forall x :: x in here + rest <==> Grants(ps, action, resource, allowSide, x) by {
        forall x ensures x in here + rest <==> Grants(ps, action, resource, allowSide, x) {
          GrantsCons(ps, action, resource, allowSide, x);
        }
      }
      here + rest
  }

  /** No value occurs twice. */
  predicate NoDuplicates(xs: seq<string>)
  {
    forall i, j :: 0 <= i < j < |xs| ==> xs[i] != xs[j]
  }

  /** The position where `x` first occurs in `xs`. */
  function FirstIndex(xs: seq<string>, x: string): (k: nat)
    requires x in xs
    ensures k < |xs| && xs[k] == x && x !in xs[..k]
  {
    if xs[0] == x then 0
    else
      var k := FirstIndex(xs[1..], x);
      assert xs[..k + 1] == [xs[0]] + xs[1..][..k];
      k + 1
  }

  /** A position holding `x` with no earlier `x` is the first one. */
  lemma FirstIndexIs(xs: seq<string>, x: string, m: nat)
    requires m < |xs| && xs[m] == x && x !in xs[..m]
    ensures FirstIndex(xs, x) == m
  {
    var k := FirstIndex(xs, x);
    assert forall i :: 0 <= i < m ==> xs[..m][i] == xs[i];
    assert forall i :: 0 <= i < k ==> xs[..k][i] == xs[i];
  }

  /** Extending a list keeps the first positions of the values it had. */
  lemma FirstIndexPrefix(xs: seq<string>, n: nat, x: string)
    requires n <= |xs| && x in xs[..n]
    ensures FirstIndex(xs, x) == FirstIndex(xs[..n], x)
  {
    var m := FirstIndex(xs[..n], x);
    assert xs[..n][..m] == xs[..m];
    FirstIndexIs(xs, x, m);
  }

  /** `unique()`: the first occurrence of every value, in order. */
  function Unique(xs: seq<string>): (ys: seq<string>)
    ensures forall x :: x in ys <==> x in xs
    ensures NoDuplicates(ys)
    ensures |ys| <= |xs|
    ensures forall i, j :: 0 <= i < j < |ys| ==> FirstIndex(xs, ys[i]) < FirstIndex(xs, ys[j])
  {
    if |xs| == 0 then []
    else
      var init := Unique(xs[..|xs| - 1]);
      assert forall x :: x in xs <==> x in xs[..|xs| - 1] || x == xs[|xs| - 1] by {
        assert xs == xs[..|xs| - 1] + [xs[|xs| - 1]];
      }
      assert xs == xs[..|xs| - 1] + [xs[|xs| - 1]];
      UniqueStep(xs[..|xs| - 1], xs[|xs| - 1], init);
      if xs[|xs| - 1] in init then init else init + [xs[|xs| - 1]]
  }

  /** The order of `Unique` survives one more value at the end: the values
      already kept keep their first positions, and a new value comes last. */
  lemma UniqueStep(p: seq<string>, last: string, init: seq<string>)
    requires forall x :: x in init <==> x in p
    requires forall i, j :: 0 <= i < j < |init| ==> FirstIndex(p, init[i]) < FirstIndex(p, init[j])
    ensures forall i, j :: 0 <= i < j < |init| ==> FirstIndex(p + [last], init[i]) < FirstIndex(p + [last], init[j])
    ensures last !in init ==>
              forall i :: 0 <= i < |init| ==> FirstIndex(p + [last], init[i]) < FirstIndex(p + [last], last)
  {
    var xs := p + [last];
    assert xs[..|p|] == p;
    forall i | 0 <= i < |init|
      ensures FirstIndex(xs, init[i]) == FirstIndex(p, init[i])
    {
      FirstIndexPrefix(xs, |p|, init[i]);
    }
    if last !in init {
      FirstIndexIs(xs, last, |p|);
    }
  }

  /** Dropping the head keeps a list duplicate-free, and the head does
      not occur again. */
  lemma TailNoDuplicates(xs: seq<string>)
    requires |xs| > 0
    ensures NoDuplicates(xs) ==> NoDuplicates(xs[1..]) && xs[0] !in xs[1..]
  {
    if NoDuplicates(xs) {
      forall i, j | 0 <= i < j < |xs[1..]|
        ensures xs[1..][i] != xs[1..][j]
      {
        assert xs[1..][i] == xs[i + 1] && xs[1..][j] == xs[j + 1];
      }
      forall k | 0 <= k < |xs[1..]|
        ensures xs[1..][k] != xs[0]
      {
        assert xs[1..][k] == xs[k + 1];
      }
    }
  }

  /** `diff()`: the values of `xs` that are not in `ys`, in order. */
  function Without(xs: seq<string>, ys: seq<string>): (zs: seq<string>)
    ensures forall x :: x in zs <==> x in xs && x !in ys
    ensures NoDuplicates(xs) ==> NoDuplicates(zs)
    ensures NoDuplicates(xs) ==>
              forall i, j :: 0 <= i < j < |zs| ==> FirstIndex(xs, zs[i]) < FirstIndex(xs, zs[j])
  {
    if |xs| == 0 then []
    else
      var rest := Without(xs[1..], ys);
      assert forall x :: x in xs <==> x == xs[0] || x in xs[1..] by {
        assert xs == [xs[0]] + xs[1..];
      }
      TailNoDuplicates(xs);
      if xs[0] in ys then rest else [xs[0]] + rest
  }

  /** `getQuery(action, arn)`: the ids of the resource patterns that cover
      the resource, split by effect and deduplicated. A denied `*` gives
      `only: []`; otherwise an allowed `*` gives `except: deny`; otherwise
      `only: allow minus deny`. A `*` in the question is refused. */
  function GetQuery(actor: Actor, action: string, t: Target): (r: Result<Query, AclError>)
    ensures var arn := ResolveArn(actor, t);
      && (r.Failure? <==> '*' in action || '*' in arn)
      && (r.Failure? ==> r.error == WildcardNotPermitted(action, arn))
    ensures var resource := ParseArn(ResolveArn(actor, t));
      var allowed := (x: string) => Grants(actor.policies, action, resource, true, x);
      var denied := (x: string) => Grants(actor.policies, action, resource, false, x);
      r.Success? ==>
        && NoDuplicates(r.value.ids)
        && (denied("*") ==> r.value == Only([]))
        && (!denied("*") && allowed("*") ==> r.value.Except? && forall x :: x in r.value.ids <==> denied(x))
        && (!denied("*") && !allowed("*") ==> r.value.Only? && forall x :: x in r.value.ids <==> allowed(x) && !denied(x))
  {
    var arn := ResolveArn(actor, t);
    if '*' in action || '*' in arn then Failure(WildcardNotPermitted(action, arn))
    else
      var resource := ParseArn(arn);
      var deny := Unique(CollectIds(actor.policies, action, resource, false));
      var allow := Unique(CollectIds(actor.policies, action, resource, true));
      if "*" in deny then Success(Only([]))
      else if "*" in allow then Success(Except(deny))
      else Success(Only(Without(allow, deny)))
  }
}
