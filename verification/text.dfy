/** String helpers the engine relies on: PHP's `join`/`explode` on one
    separator character, occurrence counting and ASCII `strtolower`. */
module Text {

  import opened Wrappers

  /** Number of occurrences of `c` in `s`. */
  function Count(c: char, s: string): nat
  {
    if |s| == 0 then 0
    else (if s[0] == c then 1 else 0) + Count(c, s[1..])
  }

  lemma {:induction false} CountConcat(c: char, a: string, b: string)
    ensures Count(c, a + b) == Count(c, a) + Count(c, b)
  {
    if |a| == 0 {
      assert a + b == b;
    } else {
      assert (a + b)[1..] == a[1..] + b;
      CountConcat(c, a[1..], b);
    }
  }

  lemma {:induction false} CountZero(c: char, s: string)
    ensures Count(c, s) == 0 <==> c !in s
  {
    if |s| > 0 {
      CountZero(c, s[1..]);
      assert s == [s[0]] + s[1..];
    }
  }

  /** `explode(sep, s)` without a limit: the maximal `sep`-free pieces of `s`,
      in order. There is always at least one piece. */
  function Split(s: string, sep: char): (fields: seq<string>)
    ensures |fields| == Count(sep, s) + 1
    ensures forall i :: 0 <= i < |fields| ==> sep !in fields[i]
  {
    if |s| == 0 then [""]
    else
      var rest := Split(s[1..], sep);
      if s[0] == sep then [""] + rest
      else [[s[0]] + rest[0]] + rest[1..]
  }

  /** `join(sep, fields)`. */
  function Join(fields: seq<string>, sep: char): string
  {
    if |fields| == 0 then ""
    else if |fields| == 1 then fields[0]
    else fields[0] + [sep] + Join(fields[1..], sep)
  }

  /** Six fields joined, written out. */
  lemma JoinSix(f: seq<string>, sep: char)
    requires |f| == 6
    ensures Join(f, sep) == f[0] + [sep] + (f[1] + [sep] + (f[2] + [sep] + (f[3] + [sep] + (f[4] + [sep] + f[5]))))
  {
    assert f[5..] == [f[5]];
    assert f[4..][1..] == f[5..];
    assert f[3..][1..] == f[4..];
    assert f[2..][1..] == f[3..];
    assert f[1..][1..] == f[2..];
    assert Join(f[4..], sep) == f[4] + [sep] + f[5];
    assert Join(f[3..], sep) == f[3] + [sep] + Join(f[4..], sep);
    assert Join(f[2..], sep) == f[2] + [sep] + Join(f[3..], sep);
    assert Join(f[1..], sep) == f[1] + [sep] + Join(f[2..], sep);
  }

  /** A character that is neither the separator nor in any field is not
      in the joined string. */
  lemma {:induction false} NotInJoin(fields: seq<string>, sep: char, c: char)
    requires c != sep
    requires forall i :: 0 <= i < |fields| ==> c !in fields[i]
    ensures c !in Join(fields, sep)
  {
    if |fields| > 1 {
      NotInJoin(fields[1..], sep, c);
    }
  }

  /** Splitting, then joining again, gives back the input. */
  lemma {:induction false} JoinSplit(s: string, sep: char)
    ensures Join(Split(s, sep), sep) == s
  {
    if |s| > 0 {
      var rest := Split(s[1..], sep);
      JoinSplit(s[1..], sep);
      if s[0] == sep {
        assert Join([""] + rest, sep) == "" + [sep] + Join(rest, sep);
      } else if |rest| == 1 {
        assert Join(Split(s, sep), sep) == [s[0]] + rest[0];
      } else {
        var head := [s[0]] + rest[0];
        assert Split(s, sep) == [head] + rest[1..];
        assert Join(rest, sep) == rest[0] + [sep] + Join(rest[1..], sep);
      }
      assert s == [s[0]] + s[1..];
    }
  }

  /** A piece without the separator splits into itself. */
  lemma {:induction false} SplitField(x: string, sep: char)
    requires sep !in x
    ensures Split(x, sep) == [x]
  {
    CountZero(sep, x);
    JoinSplit(x, sep);
  }

  /** A leading `sep`-free field is peeled off by `Split`. */
  lemma {:induction false} SplitFirstField(x: string, sep: char, y: string)
    requires sep !in x
    ensures Split(x + [sep] + y, sep) == [x] + Split(y, sep)
  {
    if |x| == 0 {
      assert x + [sep] + y == [sep] + y;
      assert ([sep] + y)[1..] == y;
    } else {
      assert (x + [sep] + y)[1..] == x[1..] + [sep] + y;
      SplitFirstField(x[1..], sep, y);
      assert x == [x[0]] + x[1..];
    }
  }

  /** Joining separator-free fields and splitting again gives back the fields. */
  lemma {:induction false} SplitJoin(fields: seq<string>, sep: char)
    requires |fields| >= 1
    requires forall i :: 0 <= i < |fields| ==> sep !in fields[i]
    ensures Split(Join(fields, sep), sep) == fields
  {
    if |fields| == 1 {
      SplitField(fields[0], sep);
    } else {
      SplitJoin(fields[1..], sep);
      SplitFirstField(fields[0], sep, Join(fields[1..], sep));
      assert fields == [fields[0]] + fields[1..];
    }
  }

  /** The pieces of `s` before and after the first `sep`, as PHP's
      `explode(sep, s, 2)`: no second piece when `sep` does not occur. */
  function SplitAtFirst(s: string, sep: char): (parts: (string, Option<string>))
    ensures parts.1.None? <==> sep !in s
    ensures sep !in parts.0
    ensures parts.1.Some? ==> s == parts.0 + [sep] + parts.1.value
    ensures parts.1.None? ==> parts.0 == s
  {
    if |s| == 0 then ("", None)
    else if s[0] == sep then ("", Some(s[1..]))
    else
      var (head, tail) := SplitAtFirst(s[1..], sep);
      ([s[0]] + head, tail)
  }

  /** The first `sep` of `x + [sep] + y` is the one after `x` when `x` has none. */
  lemma {:induction false} SplitAtFirstOf(x: string, sep: char, y: string)
    requires sep !in x
    ensures SplitAtFirst(x + [sep] + y, sep) == (x, Some(y))
  {
    if |x| > 0 {
      assert (x + [sep] + y)[1..] == x[1..] + [sep] + y;
      SplitAtFirstOf(x[1..], sep, y);
      assert x == [x[0]] + x[1..];
    } else {
      assert (x + [sep] + y)[1..] == y;
    }
  }

  /** `strtolower` on one character: ASCII letters only. */
  function LowerChar(c: char): char
  {
    if 'A' <= c <= 'Z' then (c as int + 32) as char else c
  }

  predicate IsUpper(c: char)
  {
    'A' <= c <= 'Z'
  }

  /** `strtolower`: ASCII upper-case letters become lower-case, every other
      character stays where it is. */
  function ToLower(s: string): (r: string)
    ensures |r| == |s|
    ensures forall i :: 0 <= i < |r| ==> !IsUpper(r[i])
    ensures forall i :: 0 <= i < |s| && !IsUpper(s[i]) ==> r[i] == s[i]
  {
    if |s| == 0 then ""
    else [LowerChar(s[0])] + ToLower(s[1..])
  }

  lemma ToLowerIdempotent(s: string)
    ensures ToLower(ToLower(s)) == ToLower(s)
  {
    var once := ToLower(s);
    var twice := ToLower(once);
    assert forall i :: 0 <= i < |once| ==> twice[i] == once[i];
  }
}
