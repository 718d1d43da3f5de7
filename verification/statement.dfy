/** One policy statement: an effect, a list of action patterns and a list
    of resource (ARN) patterns, plus the root account that scopes the
    resource patterns. Matching is independent of the effect; the
    `ExplicitlyDenies*` family applies it only to non-`Allow` statements. */
module Statements {

  import opened Wrappers
  import opened Text
  import opened Wildcard
  import opened Arns
  import RootAccount

  /** A constructor argument that may be one string or a list of them. */
  datatype StringOrList = One(item: string) | Many(items: seq<string>)

  datatype Statement = Statement(
    effect: string,
    action: seq<string>,
    resource: seq<string>,
    rootAccountId: Option<string>)

  /** `Arr::wrap`: a single string becomes a one-element list, a list is
      kept as it is. */
  function Wrap(x: StringOrList): (r: seq<string>)
    ensures x.One? ==> |r| == 1 && r[0] == x.item
    ensures x.Many? ==> r == x.items
  {
    match x
    case One(s) => [s]
    case Many(xs) => xs
  }

  /** `new Statement(effect, action, resource, rootAccountId)` and
      `Statement::make`, with the same defaults: an `Allow` effect, no
      actions, no resources and a `null` root. */
  function NewStatement(effect: string := "Allow", action: StringOrList := Many([]),
                        resource: StringOrList := Many([]), root: Option<string> := None): (st: Statement)
    ensures st.effect == effect
    ensures st.action == Wrap(action) && st.resource == Wrap(resource)
    ensures root.None? ==> st.rootAccountId.None?
    ensures root.Some? ==> st.rootAccountId == root
  {
    Statement(effect, Wrap(action), Wrap(resource), RootAccount.SetRootAccount(RootAccount.InitialRoot, root))
  }

  /** A statement built without an effect allows; one built with no
      arguments at all is an empty, unrooted `Allow`. */
  lemma StatementDefaults(action: StringOrList, resource: StringOrList)
    ensures NewStatement(action := action, resource := resource).effect == "Allow"
    ensures NewStatement(action := action, resource := resource).rootAccountId.None?
    ensures NewStatement() == Statement("Allow", [], [], None)
  {
  }

  /** `setRootAccount` on a statement: only the root can change. */
  function SetStatementRoot(st: Statement, root: Option<string>): (r: Statement)
    ensures r.effect == st.effect && r.action == st.action && r.resource == st.resource
    ensures root.None? ==> r == st
    ensures root.Some? ==> r.rootAccountId == root
  {
    st.(rootAccountId := RootAccount.SetRootAccount(st.rootAccountId, root))
  }

  // -------------------------------------------------------------------
  // Action matching
  // -------------------------------------------------------------------

  /** One action pattern of `passesAction`: `*`, the action itself, or a
      glob that matches it. */
  predicate ActionPatternPasses(pattern: string, action: string)
  {
    pattern == "*" || pattern == action || Glob(pattern, action)
  }

  /** The loop of `passesAction`: true at the first pattern that passes. */
  function AnyActionPasses(patterns: seq<string>, action: string): (r: bool)
    ensures r <==> exists i :: 0 <= i < |patterns| && ActionPatternPasses(patterns[i], action)
  {
    if |patterns| == 0 then false
    else ActionPatternPasses(patterns[0], action) || AnyActionPasses(patterns[1..], action)
  }

  function PassesAction(st: Statement, action: string): bool
  {
    AnyActionPasses(st.action, action)
  }

  /** The loop of `explicitlyDeniesAction`: the glob alone, without the
      `*` and identity shortcuts. */
  function AnyActionGlob(patterns: seq<string>, action: string): (r: bool)
    ensures r <==> exists i :: 0 <= i < |patterns| && Glob(patterns[i], action)
  {
    if |patterns| == 0 then false
    else Glob(patterns[0], action) || AnyActionGlob(patterns[1..], action)
  }

  /** The shortcuts of `passesAction` are already glob matches, so the deny
      loop and the pass loop agree. */
  lemma ActionMatchersAgree(patterns: seq<string>, action: string)
    ensures AnyActionGlob(patterns, action) <==> AnyActionPasses(patterns, action)
  {
    GlobStar(action);
    GlobReflexive(action);
    forall i | 0 <= i < |patterns|
      ensures Glob(patterns[i], action) <==> ActionPatternPasses(patterns[i], action)
    {
      if patterns[i] == "*" {
        GlobStar(action);
      } else if patterns[i] == action {
        GlobReflexive(action);
      }
    }
  }

  /** Wildcards count on the pattern side only: when no action pattern
      holds a `*`, exactly the listed actions pass, so `vps:Read` rejects
      the candidate `vps:*`. */
  lemma LiteralActionPatterns(st: Statement, action: string)
    requires forall i :: 0 <= i < |st.action| ==> '*' !in st.action[i]
    ensures PassesAction(st, action) <==> action in st.action
  {
    forall i | 0 <= i < |st.action|
      ensures ActionPatternPasses(st.action[i], action) <==> st.action[i] == action
    {
      GlobLiteral(st.action[i], action);
    }
  }

  // -------------------------------------------------------------------
  // Resource matching
  // -------------------------------------------------------------------

  /** The pattern's ARN with the account replaced by the root, when the
      root is truthy. */
  function ScopeArn(a: Arn, root: Option<string>): Arn
  {
    if Truthy(root) then a.(accountId := root) else a
  }

  /** A resource pattern as `passesArn` compares it: read as an ARN,
      scoped to the root, printed again. */
  function ScopedPattern(pattern: string, root: Option<string>): string
  {
    GetArn(ScopeArn(ParseArn(pattern), root))
  }

  /** One resource pattern of `passesArn`: byte-identical to the ARN, or
      its scoped form matches it. */
  predicate ResourcePatternPasses(pattern: string, root: Option<string>, arn: string)
  {
    pattern == arn || Glob(ScopedPattern(pattern, root), arn)
  }

  /** The loop shared by `passesArn` and `explicitlyDeniesArn`. */
  function AnyResourcePasses(patterns: seq<string>, root: Option<string>, arn: string): (r: bool)
    ensures r <==> exists i :: 0 <= i < |patterns| && ResourcePatternPasses(patterns[i], root, arn)
  {
    if |patterns| == 0 then false
    else ResourcePatternPasses(patterns[0], root, arn) || AnyResourcePasses(patterns[1..], root, arn)
  }

  function PassesArn(st: Statement, arn: string): bool
  {
    AnyResourcePasses(st.resource, st.rootAccountId, arn)
  }

  /** `passes`: the action and the ARN both match; with an empty action or
      resource list nothing passes. */
  function Passes(st: Statement, action: string, arn: string): (r: bool)
    ensures r ==> |st.action| > 0 && |st.resource| > 0
    ensures r <==> ((exists i :: 0 <= i < |st.action| && ActionPatternPasses(st.action[i], action))
                    && (exists j :: 0 <= j < |st.resource| && ResourcePatternPasses(st.resource[j], st.rootAccountId, arn)))
  {
    PassesAction(st, action) && PassesArn(st, arn)
  }

  function ExplicitlyDeniesAction(st: Statement, action: string): bool
  {
    st.effect != "Allow" && AnyActionGlob(st.action, action)
  }

  function ExplicitlyDeniesArn(st: Statement, arn: string): bool
  {
    st.effect != "Allow" && AnyResourcePasses(st.resource, st.rootAccountId, arn)
  }

  /** `explicitlyDenies`: a statement whose effect is exactly `Allow` never
      denies; any other effect denies exactly what it passes. */
  function ExplicitlyDenies(st: Statement, action: string, arn: string): (r: bool)
    ensures r <==> st.effect != "Allow" && Passes(st, action, arn)
  {
    ActionMatchersAgree(st.action, action);
    ExplicitlyDeniesAction(st, action) && ExplicitlyDeniesArn(st, arn)
  }

  /** A candidate byte-equal to one of the resource patterns passes,
      whatever the root account. */
  lemma ExactArnPasses(st: Statement, arn: string, root: Option<string>)
    requires arn in st.resource
    ensures PassesArn(st, arn)
    ensures PassesArn(SetStatementRoot(st, root), arn)
  {
    var i :| 0 <= i < |st.resource| && st.resource[i] == arn;
    assert ResourcePatternPasses(st.resource[i], st.rootAccountId, arn);
    assert ResourcePatternPasses(SetStatementRoot(st, root).resource[i], SetStatementRoot(st, root).rootAccountId, arn);
  }

  // -------------------------------------------------------------------
  // Root-account scoping, field by field
  // -------------------------------------------------------------------

  /** The six printed `:`-fields of the full ARN (the id folded into the
      last one). */
  function PrintedFields(a: Arn): seq<string>
  {
    Fields(a)[5 := LastField(a)]
  }

  /** No printed field of `a`, the id included, holds a `:`. */
  predicate Flat(a: Arn)
  {
    forall i :: 0 <= i < 6 ==> ':' !in PrintedFields(a)[i]
  }

  /** When both sides print as six `:`-free fields, the glob of a scoped
      pattern is a field-by-field glob: a `*` never reaches across a `:`. */
  lemma ScopedMatchFieldwise(pattern: string, root: Option<string>, c: Arn)
    requires Flat(ScopeArn(ParseArn(pattern), root)) && Flat(c)
    ensures Glob(ScopedPattern(pattern, root), GetArn(c))
        <==> forall i :: 0 <= i < 6 ==> Glob(PrintedFields(ScopeArn(ParseArn(pattern), root))[i], PrintedFields(c)[i])
  {
    var p := ScopeArn(ParseArn(pattern), root);
    ArnAsFields(p);
    ArnAsFields(c);
    GlobFields(PrintedFields(p), PrintedFields(c), ':');
  }

  /** Cross-account protection: under a truthy root without `:`, a
      pattern that is not byte-identical to a flat candidate passes only
      if the root matches the candidate's account — equals it, when the
      root holds no `*`. */
  lemma RootScopesEveryPattern(pattern: string, root: Option<string>, c: Arn)
    requires Truthy(root) && ':' !in root.value
    requires Flat(ParseArn(pattern)) && Flat(c)
    requires pattern != GetArn(c)
    requires ResourcePatternPasses(pattern, root, GetArn(c))
    ensures Glob(root.value, Render(c.accountId))
    ensures '*' !in root.value ==> c.accountId == root
  {
    var p := ScopeArn(ParseArn(pattern), root);
    assert PrintedFields(p)[4] == root.value;
    assert forall i :: 0 <= i < 6 && i != 4 ==> PrintedFields(p)[i] == PrintedFields(ParseArn(pattern))[i];
    ScopedMatchFieldwise(pattern, root, c);
    assert Glob(PrintedFields(p)[4], PrintedFields(c)[4]);
    if '*' !in root.value {
      GlobLiteral(root.value, Render(c.accountId));
    }
  }

  /** The resource pattern `*` reads as `arn:*:*:*:*:*`. Unscoped it
      passes every flat ARN; under a truthy root `t` it becomes
      `arn:*:*:*:t:*` and passes exactly the ARNs whose account `t`
      matches. */
  lemma WildcardResourceScoping(root: Option<string>, c: Arn)
    requires Flat(c)
    requires !Truthy(root) || ':' !in root.value
    ensures !Truthy(root) ==> ResourcePatternPasses("*", root, GetArn(c))
    ensures Truthy(root) ==> ScopedPattern("*", root) == "arn:*:*:*:" + root.value + ":*"
    ensures Truthy(root) ==> (ResourcePatternPasses("*", root, GetArn(c)) <==> Glob(root.value, Render(c.accountId)))
  {
    var acc := if Truthy(root) then root.value else "*";
    ScopedWildcardFields(root);
    var ps := PrintedFields(ScopeArn(WildcardArn(), root));
    var vs := PrintedFields(c);
    PrintedStartsWithA(c);
    assert vs[0] == "arn";
    GlobReflexive("arn");
    forall i | 0 <= i < 6 && i != 4
      ensures Glob(ps[i], vs[i])
    {
      if i == 0 {
        assert ps[0] == vs[0];
      } else {
        GlobStar(vs[i]);
      }
    }
    assert vs[4] == Render(c.accountId);
    assert (forall i :: 0 <= i < 6 ==> Glob(ps[i], vs[i])) <==> Glob(acc, Render(c.accountId));
    ScopedMatchFieldwise("*", root, c);
    if !Truthy(root) {
      GlobStar(Render(c.accountId));
    }
  }

  /** The printed fields of the wildcard ARN under a root: `*` everywhere
      but the account, which is the root when truthy. */
  lemma ScopedWildcardFields(root: Option<string>)
    requires !Truthy(root) || ':' !in root.value
    ensures var acc := if Truthy(root) then root.value else "*";
            && PrintedFields(ScopeArn(WildcardArn(), root)) == ["arn", "*", "*", "*", acc, "*"]
            && Flat(ScopeArn(WildcardArn(), root))
            && ScopedPattern("*", root) == "arn:*:*:*:" + acc + ":*"
  {
    var acc := if Truthy(root) then root.value else "*";
    var p := ScopeArn(WildcardArn(), root);
    assert p == Arn(Some("*"), Some("*"), Some("*"), Some(acc), Some("*"), None);
    assert LastField(p) == "*";
    var f := PrintedFields(p);
    assert f == ["arn", "*", "*", "*", acc, "*"];
    ArnAsFields(p);
    WildcardJoin(acc);
  }

  lemma WildcardJoin(acc: string)
    ensures Join(["arn", "*", "*", "*", acc, "*"], ':') == "arn:*:*:*:" + acc + ":*"
  {
    var f := ["arn", "*", "*", "*", acc, "*"];
    JoinSix(f, ':');
    assert Join(f, ':') == "arn" + [':'] + ("*" + [':'] + ("*" + [':'] + ("*" + [':'] + (acc + [':'] + "*"))));
  }

  /** A printed ARN starts with `a`, so it is never the lone `*`. */
  lemma PrintedStartsWithA(c: Arn)
    ensures |GetArn(c)| > 0 && GetArn(c)[0] == 'a' && GetArn(c) != "*"
  {
    ArnAsFields(c);
    JoinSix(PrintedFields(c), ':');
  }

  /** A pattern ending in `*` whose scoped form is `q*`, `q` free of `*`,
      passes a candidate without `*` exactly when the candidate starts with
      `q`: a pattern whose id ends in `dir/` and a `*` covers the bare
      `dir/`, every deeper path below it, and no sibling directory. */
  lemma PrefixPattern(pattern: string, root: Option<string>, q: string, arn: string)
    requires ScopedPattern(pattern, root) == q + "*"
    requires '*' in pattern
    requires '*' !in q && '*' !in arn
    ensures ResourcePatternPasses(pattern, root, arn) <==> |q| <= |arn| && arn[..|q|] == q
  {
    GlobPrefixStar(q, arn);
  }
}
