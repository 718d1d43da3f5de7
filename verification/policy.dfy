/** A policy: an ordered list of statements and a root account. `Allows`
    scans the statements in order and stops at the first one that decides;
    on its way it writes the policy's root into every statement it visits,
    so it returns the updated policy next to the verdict. */
module Policies {

  import opened Wrappers
  import opened Statements
  import RootAccount

  datatype Policy = Policy(statements: seq<Statement>, rootAccountId: Option<string>)

  /** The verdict of `allows` and the policy as the scan leaves it. */
  datatype Evaluation = Evaluation(allowed: bool, policy: Policy)

  /** `new Policy(statements, rootAccountId)`: a `null` root leaves the
      policy's root unset. Both arguments default: no statements and a
      `null` root. */
  function NewPolicy(statements: seq<Statement> := [], root: Option<string> := None): (p: Policy)
    ensures p.statements == statements
    ensures root.None? ==> p.rootAccountId.None?
    ensures root.Some? ==> p.rootAccountId == root
  {
    Policy(statements, RootAccount.SetRootAccount(RootAccount.InitialRoot, root))
  }

  /** A policy built with no arguments has no statements and no root,
      and so allows nothing. */
  lemma PolicyDefaults(action: string, arn: string)
    ensures NewPolicy() == Policy([], None)
    ensures NewPolicy(statements := [NewStatement()]).rootAccountId.None?
    ensures !Allows(NewPolicy(), action, arn).allowed
    ensures !PolicyExplicitlyDenies(NewPolicy(), action, arn)
  {
  }

  /** `setRootAccount` on a policy: only its own root changes, not the
      statements'. */
  function SetPolicyRoot(p: Policy, root: Option<string>): (r: Policy)
    ensures r.statements == p.statements
    ensures root.None? ==> r == p
    ensures root.Some? ==> r.rootAccountId == root
  {
    p.(rootAccountId := RootAccount.SetRootAccount(p.rootAccountId, root))
  }

  /** Where the scan of `allows` stops: the first statement that passes
      once the root is written into it, or `|ss|` when none does. */
  function DecisionPoint(root: Option<string>, ss: seq<Statement>, action: string, arn: string): (k: nat)
    ensures k <= |ss|
    ensures forall j :: 0 <= j < k ==> !Passes(SetStatementRoot(ss[j], root), action, arn)
    ensures k < |ss| ==> Passes(SetStatementRoot(ss[k], root), action, arn)
  {
    if |ss| == 0 then 0
    else if Passes(SetStatementRoot(ss[0], root), action, arn) then 0
    else 1 + DecisionPoint(root, ss[1..], action, arn)
  }

  /** The statements after a scan that stopped at `d`: the visited ones,
      up to and including `d`, carry the root; the rest are untouched. */
  predicate ScannedUpTo(root: Option<string>, ss: seq<Statement>, d: nat, out: seq<Statement>)
  {
    && |out| == |ss|
    && forall i :: 0 <= i < |ss| ==> out[i] == if i <= d then SetStatementRoot(ss[i], root) else ss[i]
  }

  /** The loop of `allows`: write the root, return false on an explicit
      deny, true on a pass, and move on otherwise. The first statement
      that passes decides, by its effect alone. */
  function Scan(root: Option<string>, ss: seq<Statement>, action: string, arn: string): (res: (bool, seq<Statement>))
    ensures var d := DecisionPoint(root, ss, action, arn);
      && (res.0 <==> d < |ss| && ss[d].effect == "Allow")
      && ScannedUpTo(root, ss, d, res.1)
  {
    if |ss| == 0 then (false, [])
    else
      var st := SetStatementRoot(ss[0], root);
      ScannedStop(root, ss);
      if ExplicitlyDenies(st, action, arn) then (false, [st] + ss[1..])
      else if Passes(st, action, arn) then (true, [st] + ss[1..])
      else
        var (allowed, rest) := Scan(root, ss[1..], action, arn);
        ScannedCons(root, ss, DecisionPoint(root, ss[1..], action, arn), rest);
        (allowed, [st] + rest)
  }

  /** A scan that stops at the first statement roots only that one. */
  lemma ScannedStop(root: Option<string>, ss: seq<Statement>)
    requires |ss| > 0
    ensures ScannedUpTo(root, ss, 0, [SetStatementRoot(ss[0], root)] + ss[1..])
  {
    var out := [SetStatementRoot(ss[0], root)] + ss[1..];
    forall i | 0 < i < |ss|
      ensures out[i] == ss[i]
    {
      assert out[i] == ss[1..][i - 1];
    }
  }

  /** A scan that moves past the first statement roots it, then does what
      the scan of the rest does, one place further on. */
  lemma ScannedCons(root: Option<string>, ss: seq<Statement>, d: nat, rest: seq<Statement>)
    requires |ss| > 0
    requires ScannedUpTo(root, ss[1..], d, rest)
    ensures ScannedUpTo(root, ss, d + 1, [SetStatementRoot(ss[0], root)] + rest)
  {
    var out := [SetStatementRoot(ss[0], root)] + rest;
    forall i | 0 < i < |ss|
      ensures out[i] == if i <= d + 1 then SetStatementRoot(ss[i], root) else ss[i]
    {
      assert out[i] == rest[i - 1] && ss[1..][i - 1] == ss[i];
    }
  }

  /** `allows`: first decision in statement order, not deny-overrides. The
      verdict is true exactly when the first statement that passes (once
      scoped) is an `Allow`; with none passing it is false. */
  function Allows(p: Policy, action: string, arn: string): (e: Evaluation)
    ensures var d := DecisionPoint(p.rootAccountId, p.statements, action, arn);
      && (e.allowed <==> d < |p.statements| && p.statements[d].effect == "Allow")
      && e.policy.rootAccountId == p.rootAccountId
      && ScannedUpTo(p.rootAccountId, p.statements, d, e.policy.statements)
  {
    var (allowed, statements) := Scan(p.rootAccountId, p.statements, action, arn);
    Evaluation(allowed, p.(statements := statements))
  }

  /** The loop of `explicitlyDenies`: any statement, as it stands, that
      explicitly denies. Nothing is written. */
  function AnyDenies(ss: seq<Statement>, action: string, arn: string): (r: bool)
    ensures r <==> exists i :: 0 <= i < |ss| && ExplicitlyDenies(ss[i], action, arn)
  {
    if |ss| == 0 then false
    else ExplicitlyDenies(ss[0], action, arn) || AnyDenies(ss[1..], action, arn)
  }

  /** `explicitlyDenies`: some statement denies, with the root each
      statement currently holds; the policy's own root plays no part. */
  function PolicyExplicitlyDenies(p: Policy, action: string, arn: string): (r: bool)
    ensures r <==> exists i :: 0 <= i < |p.statements| && p.statements[i].effect != "Allow"
                              && Passes(p.statements[i], action, arn)
  {
    AnyDenies(p.statements, action, arn)
  }

  // -------------------------------------------------------------------
  // Properties
  // -------------------------------------------------------------------

  /** A policy without statements allows nothing. */
  lemma EmptyPolicyAllowsNothing(root: Option<string>, action: string, arn: string)
    ensures !Allows(Policy([], root), action, arn).allowed
    ensures !PolicyExplicitlyDenies(Policy([], root), action, arn)
  {
  }

  /** Order decides inside `allows`: with a matching `Allow` and a matching
      deny, the one listed first wins. `explicitlyDenies` sees the deny in
      either order. */
  lemma FirstMatchWins(allow: Statement, deny: Statement, root: Option<string>, action: string, arn: string)
    requires allow.effect == "Allow" && deny.effect != "Allow"
    requires Passes(SetStatementRoot(allow, root), action, arn)
    requires Passes(SetStatementRoot(deny, root), action, arn)
    ensures Allows(Policy([allow, deny], root), action, arn).allowed
    ensures !Allows(Policy([deny, allow], root), action, arn).allowed
  {
    assert DecisionPoint(root, [allow, deny], action, arn) == 0;
    assert DecisionPoint(root, [deny, allow], action, arn) == 0;
  }

  /** Deny anywhere is seen by `explicitlyDenies`, whatever the order or
      the policy root: only which statements are present matters. */
  lemma ExplicitDenyIgnoresOrder(p: Policy, q: Policy, action: string, arn: string)
    requires forall s :: s in p.statements <==> s in q.statements
    ensures PolicyExplicitlyDenies(p, action, arn) == PolicyExplicitlyDenies(q, action, arn)
  {
    if PolicyExplicitlyDenies(p, action, arn) {
      var i :| 0 <= i < |p.statements| && p.statements[i].effect != "Allow" && Passes(p.statements[i], action, arn);
      assert p.statements[i] in q.statements;
    }
    if PolicyExplicitlyDenies(q, action, arn) {
      var i :| 0 <= i < |q.statements| && q.statements[i].effect != "Allow" && Passes(q.statements[i], action, arn);
      assert q.statements[i] in p.statements;
    }
  }

  /** With a `null` root the scan writes nothing: the policy comes back
      unchanged. */
  lemma NullRootWritesNothing(p: Policy, action: string, arn: string)
    requires p.rootAccountId.None?
    ensures Allows(p, action, arn).policy == p
  {
    var e := Allows(p, action, arn);
    assert e.policy.statements == p.statements;
  }

  /** Two statement lists that agree once scoped stop at the same place. */
  lemma {:induction false} DecisionPointScoped(root: Option<string>, ss: seq<Statement>, ts: seq<Statement>, action: string, arn: string)
    requires |ss| == |ts|
    requires forall i :: 0 <= i < |ss| ==> SetStatementRoot(ss[i], root) == SetStatementRoot(ts[i], root)
    ensures DecisionPoint(root, ss, action, arn) == DecisionPoint(root, ts, action, arn)
  {
    if |ss| > 0 {
      DecisionPointScoped(root, ss[1..], ts[1..], action, arn);
    }
  }

  /** Repeating a check changes nothing further: the second scan reaches
      the same verdict and leaves the policy as the first one did. */
  lemma AllowsIdempotent(p: Policy, action: string, arn: string)
    ensures Allows(Allows(p, action, arn).policy, action, arn) == Allows(p, action, arn)
  {
    var root := p.rootAccountId;
    var e := Allows(p, action, arn);
    var ss := p.statements;
    var d := DecisionPoint(root, ss, action, arn);
    forall i | 0 <= i < |ss|
      ensures SetStatementRoot(e.policy.statements[i], root) == SetStatementRoot(ss[i], root)
    {
      RootAccount.SetRootAccountLaws(ss[i].rootAccountId, root);
    }
    DecisionPointScoped(root, e.policy.statements, ss, action, arn);
    var e2 := Allows(e.policy, action, arn);
    assert e2.allowed == e.allowed;
    assert e2.policy.statements == e.policy.statements;
  }
}
