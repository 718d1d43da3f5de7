/** Resources that print their own ARN (`HasArn`, `HasStaticArn`). A
    resource class supplies the static segments; an instance adds its
    account and id and may override partition, service and region. */
module Resources {

  import opened Wrappers
  import opened Text
  import opened Arns

  /** The static ARN segments of a resource class. Each is a method a
      class may override; `DefaultResourceClass` holds the defaults. */
  datatype ResourceClass = ResourceClass(
    partition: Option<string>,
    service: Option<string>,
    region: Option<string>,
    accountId: Option<string>,
    resourceType: Option<string>)

  /** The defaults of `HasStaticArn` for a class with base name `basename`:
      `php`, `default`, `local`, `0`, and the lower-cased base name. */
  function DefaultResourceClass(basename: string): ResourceClass
  {
    ResourceClass(Some("php"), Some("default"), Some("local"), Some("0"), Some(ToLower(basename)))
  }

  /** An `Arnable` instance: its class, the instance-level segments, and
      the account and id every `Arnable` must provide. */
  datatype Resource = Resource(
    cls: ResourceClass,
    partition: Option<string>,
    service: Option<string>,
    region: Option<string>,
    accountId: Option<string>,
    id: Option<string>)

  /** An instance that keeps the default instance segments of `HasArn`,
      which read the class's static ones. */
  function NewResource(cls: ResourceClass, accountId: Option<string>, id: Option<string>): (r: Resource)
    ensures r.cls == cls && r.accountId == accountId && r.id == id
    ensures r.partition == cls.partition && r.service == cls.service && r.region == cls.region
  {
    Resource(cls, cls.partition, cls.service, cls.region, accountId, id)
  }

  /** What the actor contributes to an id-agnostic ARN: its account
      (`resolveArnAccountId`) and region (`resolveArnRegion`). */
  datatype ActorIdentity = ActorIdentity(accountId: Option<string>, region: Option<string>)

  /** The ARN value `toArn` builds. */
  function InstanceArn(r: Resource): Arn
  {
    Arn(r.partition, r.service, r.region, r.accountId, r.cls.resourceType, r.id)
  }

  /** `toArn`: the instance's full ARN: its own six fields joined by `:`,
      then `/id` when the id is truthy. The class's static account never
      appears in it, and it reads back, under the parser, as the
      instance's own segments. */
  function ToArn(r: Resource): (s: string)
    ensures Truthy(r.id) ==> s == GetResourceArn(InstanceArn(r)) + "/" + r.id.value
    ensures !Truthy(r.id) ==> s == GetResourceArn(InstanceArn(r))
    ensures Canonical(InstanceArn(r)) ==> ParseArn(s) == InstanceArn(r)
  {
    var a := InstanceArn(r);
    ReadsBackWhenCanonical(a);
    GetArn(a)
  }

  /** When no field holds a `:`, the text before any `/id` of `toArn`
      splits back into the instance's own six fields, its own account
      among them. */
  lemma ToArnFields(r: Resource)
    requires ColonFree(InstanceArn(r))
    ensures var s := ToArn(r);
      var base := GetResourceArn(InstanceArn(r));
      && |base| <= |s| && s[..|base|] == base
      && Split(base, ':')
         == ["arn", Render(r.partition), Render(r.service), Render(r.region),
             Render(r.accountId), Render(r.cls.resourceType)]
  {
    ResourceArnFields(InstanceArn(r));
  }

  lemma ReadsBackWhenCanonical(a: Arn)
    ensures Canonical(a) ==> ParseArn(GetArn(a)) == a
  {
    if Canonical(a) {
      ParsePrinted(a);
    }
  }

  /** The ARN value `resourceIdAgnosticArn` builds: the actor's account, the
      actor's region when truthy and the class's otherwise, and no id. */
  function AgnosticArn(cls: ResourceClass, actor: ActorIdentity): Arn
  {
    Arn(cls.partition, cls.service, if Truthy(actor.region) then actor.region else cls.region,
        actor.accountId, cls.resourceType, None)
  }

  /** `resourceIdAgnosticArn`: the resource ARN of the class as seen by
      `actor`. It never has an id part and it is what `toArn` prints for an
      id-less instance in the actor's account and region. The class's
      static account plays no part. */
  function ResourceIdAgnosticArn(cls: ResourceClass, actor: ActorIdentity): (s: string)
    ensures s == GetResourceArn(AgnosticArn(cls, actor))
    ensures var region := if Truthy(actor.region) then actor.region else cls.region;
            s == ToArn(NewResource(cls, actor.accountId, None).(region := region))
  {
    GetArn(AgnosticArn(cls, actor))
  }

  // -------------------------------------------------------------------
  // Properties
  // -------------------------------------------------------------------

  /** Six fields headed by `arn`, joined by `:`, as one flat string. */
  lemma SixFields(p: string, sv: string, rg: string, acc: string, t: string)
    ensures Join(["arn", p, sv, rg, acc, t], ':') == "arn:" + p + ":" + sv + ":" + rg + ":" + acc + ":" + t
  {
    var f := ["arn", p, sv, rg, acc, t];
    JoinSix(f, ':');
    var tail4 := acc + [':'] + t;
    var tail3 := rg + [':'] + tail4;
    var tail2 := sv + [':'] + tail3;
    var tail1 := p + [':'] + tail2;
    assert Join(f, ':') == "arn" + [':'] + tail1;
    assert "arn" + [':'] == "arn:";
    assert "arn:" + tail1 == "arn:" + p + ":" + sv + ":" + rg + ":" + acc + ":" + t;
  }

  /** The printed shape of a default resource: account, lower-cased type,
      then `/id` exactly when the id is truthy. */
  lemma DefaultResourceArn(basename: string, accountId: string, id: Option<string>)
    ensures var s := ToArn(NewResource(DefaultResourceClass(basename), Some(accountId), id));
            s == "arn:php:default:local:" + accountId + ":" + ToLower(basename)
                 + (if Truthy(id) then "/" + id.value else "")
  {
    var a := InstanceArn(NewResource(DefaultResourceClass(basename), Some(accountId), id));
    var t := ToLower(basename);
    assert Fields(a) == ["arn", "php", "default", "local", accountId, t];
    SixFields("php", "default", "local", accountId, t);
    assert "arn:" + "php" + ":" + "default" + ":" + "local" + ":" == "arn:php:default:local:";
    assert GetResourceArn(a) == "arn:php:default:local:" + accountId + ":" + t;
  }

  /** The default id-agnostic ARN: the actor's account (empty when it has
      none) and its region, or `local` when the actor's region is falsy. */
  lemma DefaultAgnosticArn(basename: string, actor: ActorIdentity)
    ensures var region := if Truthy(actor.region) then actor.region.value else "local";
            ResourceIdAgnosticArn(DefaultResourceClass(basename), actor)
              == "arn:php:default:" + region + ":" + Render(actor.accountId) + ":" + ToLower(basename)
  {
    var a := AgnosticArn(DefaultResourceClass(basename), actor);
    var region := if Truthy(actor.region) then actor.region.value else "local";
    assert Fields(a) == ["arn", "php", "default", region, Render(actor.accountId), ToLower(basename)];
    SixFields("php", "default", region, Render(actor.accountId), ToLower(basename));
    assert "arn:" + "php" + ":" + "default" + ":" == "arn:php:default:";
  }

  /** Neither ARN reads the class's static account (`arnAccountId`). */
  lemma ClassAccountUnused(r: Resource, cls: ResourceClass, actor: ActorIdentity, acc: Option<string>)
    ensures ToArn(r.(cls := r.cls.(accountId := acc))) == ToArn(r)
    ensures ResourceIdAgnosticArn(cls.(accountId := acc), actor) == ResourceIdAgnosticArn(cls, actor)
  {
  }

  /** The type of a default class has no upper-case letter, and
      lower-casing it again changes nothing. */
  lemma DefaultTypeIsLowerCase(basename: string)
    ensures var t := DefaultResourceClass(basename).resourceType.value;
            (forall i :: 0 <= i < |t| ==> !IsUpper(t[i])) && ToLower(t) == t
  {
    ToLowerIdempotent(basename);
  }

  /** The fixture class `Vps` prints its type as `vps`. */
  lemma VpsType()
    ensures DefaultResourceClass("Vps").resourceType == Some("vps")
  {
    assert LowerChar('V') == 'v';
    assert "s"[1..] == "" && "ps"[1..] == "s" && "Vps"[1..] == "ps";
    assert ToLower("s") == "s";
    assert ToLower("ps") == "ps";
    assert ToLower("Vps") == "vps";
  }

  /** A default instance with a truthy id, printed. */
  lemma DefaultInstanceWithId(basename: string, team: string, id: string)
    requires Truthy(Some(id))
    ensures ToArn(NewResource(DefaultResourceClass(basename), Some(team), Some(id)))
            == "arn:php:default:local:" + team + ":" + ToLower(basename) + "/" + id
  {
    DefaultResourceArn(basename, team, Some(id));
  }

  /** A default class seen by an actor with an account and region. */
  lemma DefaultClassSeenBy(basename: string, team: string, region: string)
    requires Truthy(Some(region))
    ensures ResourceIdAgnosticArn(DefaultResourceClass(basename), ActorIdentity(Some(team), Some(region)))
            == "arn:php:default:" + region + ":" + team + ":" + ToLower(basename)
  {
    DefaultAgnosticArn(basename, ActorIdentity(Some(team), Some(region)));
  }

  /** A default class seen by an actor with neither account nor region. */
  lemma DefaultClassSeenByNobody(basename: string, actor: ActorIdentity)
    requires actor.accountId.None? && actor.region.None?
    ensures ResourceIdAgnosticArn(DefaultResourceClass(basename), actor)
            == "arn:php:default:local::" + ToLower(basename)
  {
    DefaultAgnosticArn(basename, actor);
    assert Render(actor.accountId) == "";
    assert "arn:php:default:" + "local" + ":" + "" + ":" == "arn:php:default:local::";
  }

  /** A `Vps` instance of `team` with a truthy id (`vps-1` of `team-1`
      prints as `arn:php:default:local:team-1:vps/vps-1`). */
  lemma VpsInstanceArn(basename: string, team: string, id: string)
    requires basename == "Vps" && Truthy(Some(id))
    ensures ToArn(NewResource(DefaultResourceClass(basename), Some(team), Some(id)))
            == "arn:php:default:local:" + team + ":vps/" + id
  {
    DefaultInstanceWithId(basename, team, id);
    VpsType();
    var t := ToLower(basename);
    assert t == "vps";
    assert ":" + t + "/" == ":vps/";
    assert "arn:php:default:local:" + team + ":" + t + "/" + id == "arn:php:default:local:" + team + (":" + t + "/") + id;
  }

  /** The `Vps` class seen by an actor of `team` in a truthy `region`
      (`team-1` in `local` sees `arn:php:default:local:team-1:vps`). */
  lemma VpsClassArn(basename: string, team: string, region: string)
    requires basename == "Vps" && Truthy(Some(region))
    ensures ResourceIdAgnosticArn(DefaultResourceClass(basename), ActorIdentity(Some(team), Some(region)))
            == "arn:php:default:" + region + ":" + team + ":vps"
  {
    DefaultClassSeenBy(basename, team, region);
    VpsType();
    var t := ToLower(basename);
    assert t == "vps";
    assert ":" + t == ":vps";
    assert "arn:php:default:" + region + ":" + team + ":" + t == "arn:php:default:" + region + ":" + team + (":" + t);
  }

  /** The `Vps` class seen by an actor that has neither account nor
      region: the account field is empty and the region is the class's. */
  lemma VpsClassArnWithoutAccount(basename: string, actor: ActorIdentity)
    requires basename == "Vps" && actor.accountId.None? && actor.region.None?
    ensures ResourceIdAgnosticArn(DefaultResourceClass(basename), actor) == "arn:php:default:local::vps"
  {
    DefaultClassSeenByNobody(basename, actor);
    VpsType();
    var t := ToLower(basename);
    assert t == "vps";
    assert "arn:php:default:local::" + t == "arn:php:default:local::vps";
  }
}
