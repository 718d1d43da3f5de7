/** The `*`-glob the engine uses to compare a stored pattern with a concrete
    action name or ARN (Laravel's `Str::is`): `*` stands for any, possibly
    empty, run of characters — `:` and `/` included — and every other
    character of the pattern stands for itself. */
module Wildcard {

  import opened Text

  /** `pattern` matches the whole of `value`. */
  predicate Glob(pattern: string, value: string)
    decreases |pattern| + |value|
  {
    if |pattern| == 0 then |value| == 0
    else if pattern[0] == '*' then
      Glob(pattern[1..], value) || (|value| > 0 && Glob(pattern, value[1..]))
    else
      |value| > 0 && pattern[0] == value[0] && Glob(pattern[1..], value[1..])
  }

  /** `Str::is`: the byte-identical shortcut, then the glob. */
  predicate StrIs(pattern: string, value: string)
  {
    pattern == value || Glob(pattern, value)
  }

  /** Every string matches itself as a pattern, `*` characters included
      (a pattern `*` may swallow a literal `*`). */
  lemma {:induction false} GlobReflexive(p: string)
    ensures Glob(p, p)
  {
    if |p| > 0 {
      GlobReflexive(p[1..]);
      if p[0] == '*' {
        assert Glob(p[1..], p[1..]);
        assert Glob(p, p[1..]);
      }
    }
  }

  /** The identical-string shortcut of `Str::is` adds nothing to the glob. */
  lemma StrIsIsGlob(pattern: string, value: string)
    ensures StrIs(pattern, value) <==> Glob(pattern, value)
  {
    if pattern == value {
      GlobReflexive(pattern);
    }
  }

  /** The lone pattern `*` matches every value. */
  lemma {:induction false} GlobStar(v: string)
    ensures Glob("*", v)
  {
    if |v| > 0 {
      GlobStar(v[1..]);
    }
  }

  /** A pattern without `*` matches exactly itself: a `*` on the value side
      is an ordinary character. */
  lemma {:induction false} GlobLiteral(p: string, v: string)
    requires '*' !in p
    ensures Glob(p, v) <==> p == v
  {
    if |p| > 0 && |v| > 0 {
      GlobLiteral(p[1..], v[1..]);
      assert p == [p[0]] + p[1..];
      assert v == [v[0]] + v[1..];
    }
  }

  /** A pattern `q*` with a `*`-free `q` matches exactly the values that
      start with `q`. */
  lemma {:induction false} GlobPrefixStar(q: string, v: string)
    requires '*' !in q
    ensures Glob(q + "*", v) <==> |q| <= |v| && v[..|q|] == q
  {
    if |q| == 0 {
      assert q + "*" == "*";
      GlobStar(v);
    } else {
      assert (q + "*")[1..] == q[1..] + "*";
      if |v| > 0 {
        GlobPrefixStar(q[1..], v[1..]);
        assert q == [q[0]] + q[1..];
        if |q| <= |v| {
          assert v[..|q|] == [v[0]] + v[1..][..|q| - 1];
        }
      }
    }
  }

  /** Matching is compatible with concatenation. */
  lemma {:induction false} GlobConcat(a: string, b: string, c: string, d: string)
    requires Glob(a, b) && Glob(c, d)
    ensures Glob(a + c, b + d)
    decreases |a| + |b|
  {
    if |a| == 0 {
      assert a + c == c && b + d == d;
    } else if a[0] == '*' {
      assert (a + c)[1..] == a[1..] + c;
      if Glob(a[1..], b) {
        GlobConcat(a[1..], b, c, d);
      } else {
        assert (b + d)[1..] == b[1..] + d;
        GlobConcat(a, b[1..], c, d);
      }
    } else {
      assert (a + c)[1..] == a[1..] + c;
      assert (b + d)[1..] == b[1..] + d;
      GlobConcat(a[1..], b[1..], c, d);
    }
  }

  /** A literal (non-`*`) character `c` of the pattern must be matched by a
      `c` of the value, so the value holds at least as many of them. */
  lemma {:induction false} GlobCount(p: string, v: string, c: char)
    requires c != '*'
    requires Glob(p, v)
    ensures Count(c, p) <= Count(c, v)
    decreases |p| + |v|
  {
    if |p| > 0 {
      if p[0] == '*' {
        if Glob(p[1..], v) {
          GlobCount(p[1..], v, c);
        } else {
          GlobCount(p, v[1..], c);
        }
      } else {
        GlobCount(p[1..], v[1..], c);
      }
    }
  }

  /** When pattern and value carry equally many separators `c` after their
      first field, the match splits at the first separator: no `*` can
      swallow a separator the rest of the pattern still needs. */
  lemma {:induction false} GlobFieldStep(x: string, p: string, y: string, s: string, c: char)
    requires c != '*' && c !in x && c !in y
    requires Count(c, p) == Count(c, s)
    ensures Glob(x + [c] + p, y + [c] + s) <==> Glob(x, y) && Glob(p, s)
    decreases |x| + |y|
  {
    var pat := x + [c] + p;
    var val := y + [c] + s;
    CountConcat(c, x + [c], p);
    CountConcat(c, x, [c]);
    assert Count(c, [c]) == 1;
    if Glob(x, y) && Glob(p, s) {
      assert Glob([c] + p, [c] + s) by {
        assert ([c] + p)[1..] == p && ([c] + s)[1..] == s;
      }
      GlobConcat(x, y, [c] + p, [c] + s);
      assert pat == x + ([c] + p) && val == y + ([c] + s);
    }
    if Glob(pat, val) {
      if |x| == 0 {
        assert pat == [c] + p;
        assert val[0] == c;
        assert |y| == 0;
        assert val == [c] + s;
        assert pat[1..] == p && val[1..] == s;
      } else if x[0] == '*' {
        assert pat[1..] == x[1..] + [c] + p;
        if Glob(pat[1..], val) {
          GlobFieldStep(x[1..], p, y, s, c);
        } else if |y| > 0 {
          assert val[1..] == y[1..] + [c] + s;
          GlobFieldStep(x, p, y[1..], s, c);
        } else {
          assert val[1..] == s;
          GlobCount(pat, s, c);
          assert false;
        }
      } else {
        assert val[0] == x[0] && x[0] in x;
        assert |y| > 0;
        assert pat[1..] == x[1..] + [c] + p;
        assert val[1..] == y[1..] + [c] + s;
        GlobFieldStep(x[1..], p, y[1..], s, c);
      }
    }
  }

  /** Joining `c`-free fields with `c` yields one `c` fewer than fields. */
  lemma JoinCount(fields: seq<string>, c: char)
    requires |fields| >= 1
    requires forall i :: 0 <= i < |fields| ==> c !in fields[i]
    ensures Count(c, Join(fields, c)) == |fields| - 1
  {
    SplitJoin(fields, c);
  }

  /** Field-wise matching: when pattern and value are the same number of
      `c`-free fields joined by `c`, the glob holds iff every pattern field
      matches the corresponding value field. */
  lemma {:induction false} GlobFields(ps: seq<string>, vs: seq<string>, c: char)
    requires c != '*'
    requires |ps| == |vs| >= 1
    requires forall i :: 0 <= i < |ps| ==> c !in ps[i]
    requires forall i :: 0 <= i < |vs| ==> c !in vs[i]
    ensures Glob(Join(ps, c), Join(vs, c)) <==> forall i :: 0 <= i < |ps| ==> Glob(ps[i], vs[i])
  {
    if |ps| > 1 {
      GlobFields(ps[1..], vs[1..], c);
      JoinCount(ps[1..], c);
      JoinCount(vs[1..], c);
      GlobFieldStep(ps[0], Join(ps[1..], c), vs[0], Join(vs[1..], c), c);
      if forall i :: 0 <= i < |ps[1..]| ==> Glob(ps[1..][i], vs[1..][i]) {
        if Glob(ps[0], vs[0]) {
          forall i | 0 <= i < |ps|
            ensures Glob(ps[i], vs[i])
          {
            if i > 0 {
              assert ps[i] == ps[1..][i - 1] && vs[i] == vs[1..][i - 1];
            }
          }
        }
      }
      if forall i :: 0 <= i < |ps| ==> Glob(ps[i], vs[i]) {
        forall i | 0 <= i < |ps[1..]|
          ensures Glob(ps[1..][i], vs[1..][i])
        {
          assert ps[1..][i] == ps[i + 1] && vs[1..][i] == vs[i + 1];
        }
      }
    }
  }

  /** A pattern that has more separators `c` than the value cannot match it. */
  lemma MoreFieldsNeverMatch(p: string, v: string, c: char)
    requires c != '*'
    requires Count(c, p) > Count(c, v)
    ensures !Glob(p, v)
  {
    if Glob(p, v) {
      GlobCount(p, v, c);
    }
  }
}
