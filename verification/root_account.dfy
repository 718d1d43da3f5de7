/** The root account shared by statements and policies
    (`HasRootAccountId`): the account that wildcard resource patterns are
    scoped to. It starts out `null`, and `setRootAccount` ignores `null`. */
module RootAccount {

  import opened Wrappers

  /** The root account of a fresh statement or policy. */
  const InitialRoot: Option<string> := None

  /** `setRootAccount(incoming)` on an object whose root is `current`: any
      non-null value is stored, falsy ones such as `"0"` included. */
  function SetRootAccount(current: Option<string>, incoming: Option<string>): Option<string>
  {
    if incoming.Some? then incoming else current
  }

  /** The root after a series of `setRootAccount` calls, first to last. */
  function ApplyAll(current: Option<string>, writes: seq<Option<string>>): Option<string>
    decreases |writes|
  {
    if |writes| == 0 then current
    else ApplyAll(SetRootAccount(current, writes[0]), writes[1..])
  }

  /** The last non-null value among `writes`, if there is one. */
  function LastNonNull(writes: seq<Option<string>>): (last: Option<string>)
    ensures last.Some? ==> last in writes
    ensures last.None? ==> forall i :: 0 <= i < |writes| ==> writes[i].None?
  {
    if |writes| == 0 then None
    else if writes[|writes| - 1].Some? then writes[|writes| - 1]
    else LastNonNull(writes[..|writes| - 1])
  }

  lemma {:induction false} ApplyAllSnoc(current: Option<string>, writes: seq<Option<string>>, w: Option<string>)
    ensures ApplyAll(current, writes + [w]) == SetRootAccount(ApplyAll(current, writes), w)
    decreases |writes|
  {
    if |writes| > 0 {
      assert (writes + [w])[1..] == writes[1..] + [w];
      ApplyAllSnoc(SetRootAccount(current, writes[0]), writes[1..], w);
    }
  }

  /** The last non-null write wins; with no non-null write the root keeps
      its value. */
  lemma {:induction false} LastWriteWins(current: Option<string>, writes: seq<Option<string>>)
    ensures ApplyAll(current, writes) == if LastNonNull(writes).Some? then LastNonNull(writes) else current
  {
    if |writes| > 0 {
      var init := writes[..|writes| - 1];
      assert writes == init + [writes[|writes| - 1]];
      ApplyAllSnoc(current, init, writes[|writes| - 1]);
      LastWriteWins(current, init);
    }
  }

  /** `setRootAccount(null)` changes nothing, a set root never returns to
      `null`, and setting the same value twice is setting it once. */
  lemma SetRootAccountLaws(current: Option<string>, incoming: Option<string>)
    ensures SetRootAccount(current, None) == current
    ensures current.Some? ==> SetRootAccount(current, incoming).Some?
    ensures SetRootAccount(SetRootAccount(current, incoming), incoming) == SetRootAccount(current, incoming)
    ensures incoming.Some? ==> SetRootAccount(current, incoming) == incoming
  {
  }

  /** A root that has been set stays set through any series of calls. */
  lemma {:induction false} NeverBackToNull(current: Option<string>, writes: seq<Option<string>>)
    requires current.Some?
    ensures ApplyAll(current, writes).Some?
  {
    LastWriteWins(current, writes);
  }
}
