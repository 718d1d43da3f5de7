/** The ARN value: six optional segments rendered as
    `arn:partition:service:region:accountId:resourceType[/resourceId]`. */
module Arns {

  import opened Wrappers
  import opened Text

  /** PHP truthiness of a `string|null` value: `null`, `""` and `"0"` are
      falsy, every other string is truthy. */
  predicate Truthy(v: Option<string>)
  {
    v.Some? && v.value != "" && v.value != "0"
  }

  /** An ARN. A segment is `None` where PHP holds `null`. The defaults are
      those of the PHP constructor. */
  datatype Arn = Arn(
    partition: Option<string> := Some("php"),
    service: Option<string> := Some("default"),
    region: Option<string> := Some("local"),
    accountId: Option<string> := Some("0"),
    resourceType: Option<string> := None,
    resourceId: Option<string> := None)

  /** A segment as `join` prints it: `null` prints as the empty string. */
  function Render(v: Option<string>): string
  {
    v.GetOr("")
  }

  /** The six printed fields of the id-less ARN, in order. */
  function Fields(a: Arn): seq<string>
  {
    ["arn", Render(a.partition), Render(a.service), Render(a.region),
     Render(a.accountId), Render(a.resourceType)]
  }

  /** `getResourceArn`: the six fields joined by `:`; the id plays no part. */
  function GetResourceArn(a: Arn): string
  {
    Join(Fields(a), ':')
  }

  /** `getArn` (also used for `toString`): the resource ARN, followed by
      `/resourceId` only when the id is truthy. */
  function GetArn(a: Arn): (s: string)
    ensures |GetResourceArn(a)| <= |s| && s[..|GetResourceArn(a)|] == GetResourceArn(a)
    ensures Truthy(a.resourceId) ==> s == GetResourceArn(a) + "/" + a.resourceId.value
    ensures !Truthy(a.resourceId) ==> s == GetResourceArn(a)
  {
    var base := GetResourceArn(a);
    if Truthy(a.resourceId) then base + "/" + a.resourceId.value else base
  }

  /** No printed segment of `a` contains a `:` (the id may). */
  predicate ColonFree(a: Arn)
  {
    forall i :: 0 <= i < |Fields(a)| ==> ':' !in Fields(a)[i]
  }

  /** The default ARN `new Arn()`. */
  lemma DefaultArn()
    ensures GetArn(Arn()) == "arn:php:default:local:0:"
    ensures Arn().resourceType.None? && Arn().resourceId.None?
  {
    JoinSix(Fields(Arn()), ':');
  }

  /** The resource ARN is always exactly six `:`-fields — `arn`, partition,
      service, region, account and type, with `null` printed empty — as
      long as no segment itself holds a `:`. */
  lemma ResourceArnFields(a: Arn)
    requires ColonFree(a)
    ensures Split(GetResourceArn(a), ':') == Fields(a)
    ensures |Split(GetResourceArn(a), ':')| == 6
    ensures GetResourceArn(a)[..4] == "arn:"
  {
    SplitJoin(Fields(a), ':');
    var f := Fields(a);
    assert GetResourceArn(a) == "arn" + [':'] + Join(f[1..], ':');
  }

  /** The resource ARN does not depend on the resource id. */
  lemma ResourceArnIgnoresId(a: Arn, id: Option<string>)
    ensures GetResourceArn(a.(resourceId := id)) == GetResourceArn(a)
    ensures !Truthy(id) ==> GetArn(a.(resourceId := id)) == GetResourceArn(a)
  {
  }

  /** The resource ARN with `fields[4]`, the account field, replaced. */
  lemma FieldsWithAccount(a: Arn, acc: Option<string>)
    ensures Fields(a.(accountId := acc)) == Fields(a)[4 := Render(acc)]
  {
  }

  // ---------------------------------------------------------------------
  // Parsing. `Arn::fromString` is called by the library but not defined
  // in it: `ParseArn` is an ASSUMED stand-in. It reads the
  // lone `*` as `arn:*:*:*:*:*`; otherwise it splits on `:`, ignores the
  // first field, takes fields 1-4 as partition, service, region and
  // account, re-joins everything after the fifth `:` as the resource part
  // and splits that at its first `/` into type and id. A missing field
  // becomes `null`; the parser never fails.
  // ---------------------------------------------------------------------

  /** The ARN every segment of which is the wildcard `*`. */
  function WildcardArn(): Arn
  {
    Arn(Some("*"), Some("*"), Some("*"), Some("*"), Some("*"), None)
  }

  function FieldAt(fields: seq<string>, i: nat): Option<string>
  {
    if i < |fields| then Some(fields[i]) else None
  }

  /** The resource type and id read from the part after the fifth `:`. */
  function ResourcePart(fields: seq<string>): (Option<string>, Option<string>)
  {
    if |fields| < 6 then (None, None)
    else
      var (rtype, rid) := SplitAtFirst(Join(fields[5..], ':'), '/');
      (Some(rtype), rid)
  }

  /** The assumed `Arn::fromString`. */
  function ParseArn(s: string): Arn
  {
    if s == "*" then WildcardArn()
    else
      var fields := Split(s, ':');
      var (rtype, rid) := ResourcePart(fields);
      Arn(FieldAt(fields, 1), FieldAt(fields, 2), FieldAt(fields, 3), FieldAt(fields, 4), rtype, rid)
  }

  /** An ARN in the shape `ParseArn` reads back: every segment up to the
      type present and `:`-free, a type without `/`, and either no id or
      a truthy one. */
  predicate Canonical(a: Arn)
  {
    && a.partition.Some? && a.service.Some? && a.region.Some?
    && a.accountId.Some? && a.resourceType.Some?
    && ColonFree(a)
    && '/' !in a.resourceType.value
    && (a.resourceId.None? || Truthy(a.resourceId))
  }

  /** The last `:`-field of the printed ARN: type, then `/id` if any. */
  function LastField(a: Arn): string
  {
    Render(a.resourceType) + (if Truthy(a.resourceId) then "/" + a.resourceId.value else "")
  }

  /** The full ARN as six `:`-joined fields, the id folded into the last. */
  lemma ArnAsFields(a: Arn)
    ensures GetArn(a) == Join(Fields(a)[5 := LastField(a)], ':')
  {
    var f := Fields(a);
    var g := f[5 := LastField(a)];
    JoinSix(f, ':');
    JoinSix(g, ':');
  }

  /** Five `:`-free fields and a last one, joined by `:`, split back into
      the five and the split of the last. */
  lemma SplitFive(f: seq<string>, last: string)
    requires |f| == 5 && forall i :: 0 <= i < 5 ==> ':' !in f[i]
    ensures Split(f[0] + [':'] + (f[1] + [':'] + (f[2] + [':'] + (f[3] + [':'] + (f[4] + [':'] + last)))), ':')
            == f + Split(last, ':')
  {
    var t4 := f[4] + [':'] + last;
    var t3 := f[3] + [':'] + t4;
    var t2 := f[2] + [':'] + t3;
    var t1 := f[1] + [':'] + t2;
    SplitFirstField(f[4], ':', last);
    SplitFirstField(f[3], ':', t4);
    SplitFirstField(f[2], ':', t3);
    SplitFirstField(f[1], ':', t2);
    SplitFirstField(f[0], ':', t1);
    assert [f[0]] + ([f[1]] + ([f[2]] + ([f[3]] + ([f[4]] + Split(last, ':'))))) == f + Split(last, ':');
  }

  /** The `:`-fields of a printed ARN whose segments are `:`-free. */
  lemma SplitPrinted(a: Arn)
    requires ColonFree(a)
    ensures Split(GetArn(a), ':') == Fields(a)[..5] + Split(LastField(a), ':')
  {
    var f := Fields(a);
    var last := LastField(a);
    ArnAsFields(a);
    JoinSix(f[5 := last], ':');
    assert forall i :: 0 <= i < 5 ==> f[5 := last][i] == f[..5][i];
    SplitFive(f[..5], last);
  }

  /** Under the assumed parser, reading back a canonical ARN's string gives
      the same ARN. */
  lemma ParsePrinted(a: Arn)
    requires Canonical(a)
    ensures ParseArn(GetArn(a)) == a
  {
    var s := GetArn(a);
    var last := LastField(a);
    assert s != "*" by {
      ArnAsFields(a);
      JoinSix(Fields(a)[5 := last], ':');
      assert s[0] == 'a';
    }
    SplitPrinted(a);
    var fields := Split(s, ':');
    assert fields[5..] == Split(last, ':');
    JoinSplit(last, ':');
    assert Join(fields[5..], ':') == last;
    var rtype := a.resourceType.value;
    if Truthy(a.resourceId) {
      assert last == rtype + ['/'] + a.resourceId.value;
      SplitAtFirstOf(rtype, '/', a.resourceId.value);
    } else {
      assert last == rtype;
    }
  }
}
