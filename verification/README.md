# An authorization engine with ARN-addressed resources, in Dafny

This project models the core of `renoki-co/acl`, a PHP library that
decides whether an actor may perform an action on a resource. Resources
are named by ARNs of the form
`arn:<partition>:<service>:<region>:<account>:<type>[/<id>]`. Actors
carry policies. A policy is a list of `Allow`/`Deny` statements, each
holding lists of action patterns and resource patterns, and `*` acts as
a glob in those patterns.

The modules follow the source files:

| module | file | models |
|---|---|---|
| `Wrappers` | `wrappers.dfy` | `Option` and `Result` (errors and `null`) |
| `Text` | `text.dfy` | split, join, lower-case on strings |
| `Wildcard` | `wildcard.dfy` | the `*`-glob of Laravel's `Str::is` |
| `Arns` | `arn.dfy` | `Arn`, `getResourceArn`, `getArn`, and the assumed parser `ParseArn` |
| `RootAccount` | `root_account.dfy` | `HasRootAccountId::setRootAccount` |
| `Statements` | `statement.dfy` | `Statement`: the pass and deny matchers, with root-account scoping |
| `Policies` | `policy.dfy` | `Policy::allows` (a first-decision scan that roots the statements it visits) and `Policy::explicitlyDenies` |
| `Resources` | `resources.dfy` | `HasArn::toArn` and `HasStaticArn::resourceIdAgnosticArn` |
| `Actors` | `actor.dfy` | `HasPolicies`: `loadPolicies`, `isAllowedTo`, `getQuery` |
| `History` | `history.dfy` | the finding below: the as-written behaviour, a counterexample, and the corrected check |

Design choices:
- **Values, not objects.** The PHP objects are mutable, so the model makes every change explicit.
  - `Allows` returns the verdict together with the policy as the scan leaves it.
  - `IsAllowedTo` returns the verdict together with the actor as the loop leaves it.
- **ARN segments** are `Option<string>`. `null` prints as the empty string.
- **PHP truthiness** is the predicate `Arns.Truthy`: `null`, `""` and `"0"` are false.
- **Resolved targets.** The three things `isAllowedTo` and `getQuery` accept are the datatype `Actors.Target`:
  - a literal ARN;
  - an `Arnable` instance;
  - an `Arnable` class name.
- **Inputs.** The actor's resolved account and region are the input `Resources.ActorIdentity`.

In these places the model follows the code:
- **`allows` is a first-decision scan** in statement order (`src/Policy.php:37-47`), not deny-overrides.
- **Every resource pattern is scoped.** Under a truthy root, the account of every pattern that is not byte-identical to the candidate is replaced (`src/Statement.php:120-126`), not only the literal `*`.
- **Matching is a whole-string glob** over the scoped pattern (`src/Statement.php:126`), not a segment-by-segment comparison.
- **Any effect other than exactly `Allow` acts as a deny** (`src/Statement.php:143-145`).
- **No parse error.** The parser is not in the source; no malformed-ARN error is modelled (see `ParseArn` below).
- **No serialization round trip.** It cannot be established, because `Statement::fromArray` does not exist.

## Model

| member | source | states |
|---|---|---|
| Arns.GetArn | src/Arn.php:35-63 | `getResourceArn` is a prefix of `getArn`. With a truthy id, `getArn` is the resource ARN followed by `/` and the id. With a falsy id (`null`, `""`, `"0"`), the two are equal. |
| Arns.DefaultArn | src/Arn.php:18-27 | A default-constructed ARN prints as `arn:php:default:local:0:` and has no type and no id. |
| Arns.ResourceArnFields | src/Arn.php:35-45 | For `:`-free segments, the resource ARN splits into exactly six `:`-fields: `arn`, partition, service, region, account, type. A `null` segment renders as an empty field. |
| Arns.ResourceArnIgnoresId | src/Arn.php:35-62 | The resource ARN does not depend on the id. With a falsy id, `getArn` is the resource ARN. |
| RootAccount.SetRootAccountLaws | src/Concerns/HasRootAccountId.php:26-33 | Setting `null` changes nothing. A non-null value is stored even when falsy. A set root stays set. Setting the same value twice is setting it once. |
| RootAccount.LastWriteWins | src/Concerns/HasRootAccountId.php:28-30 | After a series of writes, the root is the last non-null write, or the initial root when every write was `null`. |
| RootAccount.NeverBackToNull | src/Concerns/HasRootAccountId.php:26-33 | Once a root is set, no series of writes makes it `null` again. |
| Statements.NewStatement | src/Statement.php:22-55 | The constructor and `make` keep the effect and wrap a lone action or resource string into a one-element list. A `null` root leaves the statement unrooted. The defaults are an `Allow` effect, empty lists and a `null` root. |
| Statements.StatementDefaults | src/Statement.php:45-49 | A statement built without an effect is an `Allow` statement with no root; one built with no arguments is an empty `Allow`. |
| Statements.AnyActionPasses | src/Statement.php:91-104 | `passesAction` holds exactly when some pattern is `*`, equals the action, or globs it. An empty list passes nothing. |
| Statements.LiteralActionPatterns | src/Statement.php:93-98 | With no `*` among the patterns, exactly the listed actions pass. A `*` in the candidate is only a literal, so `vps:Read` rejects `vps:*`. |
| Statements.ActionMatchersAgree | src/Statement.php:141-154 | The deny matcher's glob-only loop accepts exactly the actions that the pass matcher's loop (with its `*` and identity shortcuts) accepts. |
| Statements.AnyResourcePasses | src/Statement.php:113-132 | `passesArn` holds exactly when some resource pattern equals the ARN or its root-scoped form globs it. |
| Statements.Passes | src/Statement.php:66-69 | `passes` holds exactly when some action pattern and some resource pattern pass. With an empty action or resource list, nothing passes. |
| Statements.ExplicitlyDenies | src/Statement.php:141-186 | A statement with effect exactly `Allow` never denies. Any other effect denies exactly what the statement passes. |
| Statements.ExactArnPasses | src/Statement.php:115-118 | A candidate byte-identical to one of the resource patterns passes, whatever root the statement holds. |
| Statements.RootScopesEveryPattern | src/Statement.php:120-126 | Under a truthy, `:`-free root, any pattern that passes a flat candidate without being identical to it has the root glob the candidate's account. For a `*`-free root, that account is the root. |
| Statements.WildcardResourceScoping | src/Statement.php:120-126 | Unrooted, the resource `*` passes every flat ARN. Rooted, it reads as `arn:*:*:*:<root>:*` and passes exactly the ARNs whose account the root globs. |
| Statements.PrefixPattern | src/Statement.php:126 | A pattern whose scoped form is a `*`-free prefix followed by `*` passes exactly the candidates that start with that prefix. This covers sub-paths under `.../user1/*`. |
| Policies.NewPolicy | src/Policy.php:20-25 | The constructor keeps the statements. A `null` root leaves the policy unrooted; a non-null one is stored. The defaults are no statements and a `null` root. |
| Policies.PolicyDefaults | src/Policy.php:20-23 | A policy built with no arguments has no statements and no root, allows nothing and denies nothing. |
| Policies.Allows | src/Policy.php:35-50 | The verdict is true exactly when the first statement that passes once rooted is an `Allow`. The policy root is kept. The statements up to and including that one come back rooted; later ones come back untouched. |
| Policies.PolicyExplicitlyDenies | src/Policy.php:60-69 | True exactly when some statement, with the root it currently holds, has a non-`Allow` effect and passes. |
| Policies.EmptyPolicyAllowsNothing | src/Policy.php:49 | A policy without statements allows nothing and denies nothing. |
| Policies.FirstMatchWins | src/Policy.php:37-47 | With a matching `Allow` and a matching deny, `allows` follows whichever is listed first. |
| Policies.ExplicitDenyIgnoresOrder | src/Policy.php:62-68 | `explicitlyDenies` depends only on which statements are present, not on their order. |
| Policies.NullRootWritesNothing | src/Policy.php:37-38 | Under a `null` policy root, `allows` returns the policy unchanged. |
| Policies.AllowsIdempotent | src/Policy.php:35-50 | A second `allows` on the policy the first one left gives the same verdict and changes nothing further. |
| Resources.NewResource | src/Concerns/HasArn.php:42-68 | An instance's partition, service and region default to its class's static ones. |
| Resources.ToArn | src/Concerns/HasArn.php:20-33 | `toArn` prints the instance's six fields joined by `:`, followed by `/id` exactly when the id is truthy. The assumed parser reads them back when they are canonical. |
| Resources.ToArnFields | src/Concerns/HasArn.php:20-33 | Without `:` inside a field, the part of `toArn` before the id splits back into `arn`, the instance's partition, service, region and account, and the class's type. |
| Resources.ResourceIdAgnosticArn | src/Concerns/HasStaticArn.php:21-32 | The agnostic ARN has no id part. Its account is the actor's and its region is the actor's when truthy, else the class's. It equals what `toArn` prints for an id-less instance with those segments. |
| Resources.DefaultResourceArn | src/Concerns/HasArn.php:20-33 | With the default statics, `toArn` is `arn:php:default:local:<account>:<type>`, followed by `/<id>` exactly when the id is truthy. |
| Resources.DefaultAgnosticArn | src/Concerns/HasStaticArn.php:21-67 | With the default statics, the agnostic ARN is `arn:php:default:<region>:<actor account>:<type>`. The region falls back to `local` when the actor's is falsy. |
| Resources.ClassAccountUnused | src/Concerns/HasStaticArn.php:76-79 | The class's static `arnAccountId` appears in neither ARN. |
| Resources.DefaultTypeIsLowerCase | src/Concerns/HasStaticArn.php:92-95 | The default type is the lower-cased base name: it has no upper-case letter, and lower-casing it again changes nothing. |
| Resources.VpsInstanceArn | tests/ArnableTest.php:185-187 | A `Vps` instance of a team with a truthy id prints as `arn:php:default:local:<team>:vps/<id>`, so `vps-1` of `team-1` prints as `arn:php:default:local:team-1:vps/vps-1`. |
| Resources.VpsClassArn | tests/ArnableTest.php:183 | The `Vps` class seen by an actor of a team in a truthy region prints as `arn:php:default:<region>:<team>:vps`; for `team-1` in `local` that is `arn:php:default:local:team-1:vps`. |
| Resources.VpsClassArnWithoutAccount | tests/ArnableTest.php:176 | Seen by an actor with neither account nor region, the `Vps` class prints as `arn:php:default:local::vps`. |
| Actors.LoadPolicies | src/Concerns/HasPolicies.php:25-45 | Loading succeeds exactly when every loaded value is a policy. The loaded policies replace the actor's, in order, each with its own statements. Under a non-null actor account, every policy is rooted at it; under a null account, each keeps its own root. |
| Actors.ArrayOrSpread | src/Concerns/HasPolicies.php:30-36 | Passing one array of values and spreading the same values as arguments load the same policies, unless those values are themselves a lone array. |
| Actors.CheckPolicies | src/Concerns/HasPolicies.php:72-84 | The loop stops at a deny exactly when some policy denies. Without a deny, it records a hit exactly when some policy allows. The policies before the first deny come back as `allows` left them; the rest come back untouched. |
| Actors.IsAllowedTo | src/Concerns/HasPolicies.php:56-85 | A `*` in the action or the resolved ARN is refused with `WildcardNotPermitted`, and no verdict is given. Otherwise the verdict is: no policy denies and some policy allows. The policies up to the first denying one are left rooted as `allows` leaves them; the rest are untouched. |
| Actors.DenyOverrides | src/Concerns/HasPolicies.php:72-84 | Stated without the loop: allowed exactly when every policy does not deny and at least one policy allows. |
| Actors.DenyAnywhereWins | src/Concerns/HasPolicies.php:74-77 | A matching deny statement at any position of any policy refuses the question, even behind a matching `Allow`. |
| Actors.PolicyOrderIrrelevant | src/Concerns/HasPolicies.php:74-84 | The verdict depends only on which policy values are loaded, not on their order or on repeated values. |
| Actors.SameElementsSameVerdict | src/Concerns/HasPolicies.php:74-84 | Two policy lists with the same elements agree on "none denies" and on "some allows". |
| Actors.NoPoliciesNoAccess | src/Concerns/HasPolicies.php:72-84 | An actor without policies is allowed nothing. |
| Actors.PatternIds | src/Concerns/HasPolicies.php:117-145 | The ids collected from one statement's resource patterns are exactly those of patterns that cover the resource segment by segment (equal or `*`) and have a non-empty id. |
| Actors.CollectIds | src/Concerns/HasPolicies.php:111-147 | An id is collected on the allow or deny side exactly when some statement of that effect passes the action and has a covering pattern with that id. No root scoping is applied. |
| Actors.Unique | src/Concerns/HasPolicies.php:149-150 | Deduplication keeps every element, repeats none, never grows the list, and lists the values in the order of their first occurrences. |
| Actors.Without | src/Concerns/HasPolicies.php:162 | The difference holds exactly the allowed ids that are not denied, adds no repeats, and keeps the allowed ids in their order. |
| Actors.GetQuery | src/Concerns/HasPolicies.php:91-165 | A `*` in the question is refused. A denied `*` gives `only: []`. Otherwise an allowed `*` gives `except:` the denied ids. Otherwise the answer is `only:` the allowed ids that are not denied. No id appears twice. |
| History.AllowsOnScopedView | src/Policy.php:35-50 | On a policy whose statements are already rooted, `allows` writes nothing and gives the verdict it gives on the original policy. |
| History.HistoryChangesVerdict | src/Policy.php:60-69 | As written, the same `vps:Describe` question is first allowed. After an unrelated `vps:List` question it is refused. The corrected check refuses it from the start. |
| History.IsAllowedToScoped | src/Concerns/HasPolicies.php:72-84 | The corrected check reads every statement rooted at its policy's root. Its verdict is: no scoped policy denies and some policy allows. |
| History.CorrectedIgnoresHistory | src/Policy.php:60-69 | After any earlier as-written or corrected check, the corrected check answers every question as it would on the original actor. |

## Left out

- ParseArn: `Arn::fromString` is called by the source but not defined in it. `ParseArn` is an assumption with these rules:
  - `*` reads as the all-wildcard ARN.
  - Otherwise fields 1 to 4 are partition, service, region and account.
  - Everything after the fifth `:` is split at its first `/` into type and id.
  - A missing field is `null`.
  - It never fails: no malformed-ARN error is modelled.
  - `Arns.ParsePrinted` is a fact about this assumed parser, not about the library's.
- `Arn::toString` is not defined in the source either. It is taken to be `getArn`.
- Integer segments (`string|int`) are not modelled; every segment is a string or `null`.
- Laravel's `Str::is` is modelled as a plain glob. Its regex does not let `*` cross a newline and handles Unicode through `/u`; neither detail is modelled.
- Serialization is not modelled, because no round trip holds:
  - `Policy::fromArray` and `Policy::toArray`: `Statement::fromArray` does not exist, and `toArray` returns raw statement objects.
  - `src/Acl.php` is a one-line factory over the policy constructor.
- Reflection is not modelled: `class_exists`, `$arn::resourceIdAgnosticArn` and `class_basename`. The caller picks the `Target` variant, and a class is given by its static segments.
- Global resolvers are inputs, not modelled code: the actor's `resolveArnAccountId` and `resolveArnRegion` and the process-wide resolver callbacks are the `ActorIdentity` value.
- Actors.LoadPolicies: does not model object sharing or partial effects.
  - In PHP, `loadPolicies` roots shared policy objects through a reference loop. Policies loaded before a non-policy value are already rooted when the error is thrown.
  - The model returns `NotAPolicy` and leaves the caller's actor as it was.
  - A call with no argument reads `$policies[0]` on an empty list; the model treats it as loading nothing.
- Actors.Unique: compares ids by exact string equality. Laravel's `unique()` compares loosely, so `"1"` and `"01"` collapse there.
- Actors.GetQuery: does not model three source details, and does not state the order of the ids.
  - Its contract speaks of which ids appear; the order is the one `Unique` and `Without` state.
  - The `except` list keeps the original array keys after `unique()`; the model returns a plain list.
  - The optional `null` target of the signature is not modelled; a target is required.
  - The loose `== null` id test is modelled only for strings: `""` is skipped and `"0"` is kept.
- Actors.IsAllowedTo: does not model the exception type. The failure is `WildcardNotPermitted(action, arn)`, not the exception's message text.
  - Policies are values. In PHP one policy object loaded at two positions is one object; a root set on it during the loop shows at both positions. The model roots each position separately.
- Actors.PolicyOrderIrrelevant: is about policy values. With one PHP object loaded twice (`[P, Q, P]`), the second `P` already carries the root from the first check; that sharing is not modelled.
- Some test expectations come from another revision of the library and contradict the source. They are not modelled:
  - `tests/PolicyTest.php:28` expects `isAllowedTo('*', '*')` to be true.
  - `tests/DenyTest.php:153` expects deny-overrides inside `Policy::allows`.
  - `tests/ArnableTest.php:176` and `tests/ArnableTest.php:183` call `resourceIdAgnosticArn()` without an actor. `Resources.VpsClassArn` and `Resources.VpsClassArnWithoutAccount` give the actor explicitly.

## Findings

| source | as written | input that shows it | evidently intended | confidence | as-written member | corrected member |
|---|---|---|---|---|---|---|
| src/Policy.php:60-69 | `explicitlyDenies` reads the root each statement currently holds. Only an earlier `allows` scan writes the policy root into the statements, so the same `isAllowedTo` question can get different answers depending on which questions came before it. | An actor of `team` with one policy rooted at `team`. The policy has `Allow vps:Describe on arn:php:default:local:*:vps/*`, then `Deny vps:Describe on arn:php:default:local:<other>:vps/<id>`. `vps:Describe` on `arn:php:default:local:team:vps/<id>` is allowed. After `vps:List` on the same ARN, the same question is refused. | The answer of a check does not depend on earlier checks. Every statement is read rooted at its policy's root, as `allows` reads it. | medium; not executed | History.HistoryChangesVerdict | History.IsAllowedToScoped |
