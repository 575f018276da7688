/**
 * SQLite's `LIKE` operator as the name search uses it: `nome LIKE '%' || q || '%'`
 * with SQLite's defaults (no ESCAPE clause, `case_sensitive_like` off, no ICU).
 */
module SqlLike {

  /** Under LIKE, SQLite folds ASCII upper-case letters only. */
  function Fold(c: char): char {
    if 'A' <= c <= 'Z' then (c as int + 32) as char else c
  }

  /** `t LIKE p`: `%` matches any run of characters, `_` any one, everything else itself up to ASCII case. */
  predicate Like(p: string, t: string)
    decreases |p| + |t|
    ensures Like(p, t) && NoPercent(p) ==> |t| == |p|
  {
    if p == [] then t == []
    else if p[0] == '%' then Like(p[1..], t) || (t != [] && Like(p, t[1..]))
    else if t == [] then false
    else if p[0] == '_' then Like(p[1..], t[1..])
    else Fold(p[0]) == Fold(t[0]) && Like(p[1..], t[1..])
  }

  /** A pattern without `%` matches only texts of its own length. */
  predicate NoPercent(p: string) {
    forall i :: 0 <= i < |p| ==> p[i] != '%'
  }

  /** The pattern text LIKE uses for a substring search on `q`. */
  function SubstringPattern(q: string): (p: string)
    ensures |p| == |q| + 2 && p[0] == '%' && p[|p| - 1] == '%' && p[1..|p| - 1] == q
  {
    ['%'] + q + ['%']
  }

  predicate NoWildcards(q: string) {
    forall i :: 0 <= i < |q| ==> q[i] != '%' && q[i] != '_'
  }

  predicate FoldEqual(a: string, b: string) {
    |a| == |b| && forall i :: 0 <= i < |a| ==> Fold(a[i]) == Fold(b[i])
  }

  /** `q` occurs in `t` at position `i`, ignoring ASCII case. */
  predicate OccursAt(t: string, q: string, i: int) {
    0 <= i <= |t| - |q| && FoldEqual(t[i..i + |q|], q)
  }

  /** `q` occurs in `t` somewhere, ignoring ASCII case. */
  ghost predicate ContainsFolded(t: string, q: string) {
    exists i :: OccursAt(t, q, i)
  }

  lemma {:induction false} PercentMatchesAll(t: string)
    ensures Like("%", t)
  {
    if t != [] {
      PercentMatchesAll(t[1..]);
    }
  }

  /** A leading `%` lets the rest of the pattern match any suffix. */
  lemma {:induction false} LeadingPercent(r: string, t: string)
    ensures Like(['%'] + r, t) <==> exists i :: 0 <= i <= |t| && Like(r, t[i..])
  {
    var p := ['%'] + r;
    assert p[1..] == r;
    assert t[0..] == t;
    if t != [] {
      LeadingPercent(r, t[1..]);
      forall i | 1 <= i <= |t|
        ensures t[1..][i - 1..] == t[i..]
      {
      }
      if Like(p, t[1..]) {
        var i :| 0 <= i <= |t| - 1 && Like(r, t[1..][i..]);
        assert Like(r, t[i + 1..]);
      }
      if !Like(r, t) && exists i :: 0 <= i <= |t| && Like(r, t[i..]) {
        var i :| 0 <= i <= |t| && Like(r, t[i..]);
        assert i != 0;
        assert Like(r, t[1..][i - 1..]);
      }
    }
  }

  /** A wildcard-free prefix followed by `%` matches exactly the texts that start with it, up to case. */
  lemma {:induction false} PrefixThenPercent(q: string, t: string)
    requires NoWildcards(q)
    ensures Like(q + ['%'], t) <==> |q| <= |t| && FoldEqual(t[..|q|], q)
  {
    if q == [] {
      assert q + ['%'] == "%";
      PercentMatchesAll(t);
    } else if t != [] {
      assert (q + ['%'])[1..] == q[1..] + ['%'];
      PrefixThenPercent(q[1..], t[1..]);
      if |q| <= |t| {
        assert t[1..][..|q| - 1] == t[..|q|][1..];
        if Fold(q[0]) == Fold(t[0]) && FoldEqual(t[1..][..|q| - 1], q[1..]) {
          forall k | 0 <= k < |q|
            ensures Fold(t[..|q|][k]) == Fold(q[k])
          {
            if k > 0 {
              assert t[..|q|][k] == t[1..][..|q| - 1][k - 1];
            }
          }
        }
        if FoldEqual(t[..|q|], q) {
          assert Fold(t[..|q|][0]) == Fold(q[0]);
          forall k | 0 <= k < |q| - 1
            ensures Fold(t[1..][..|q| - 1][k]) == Fold(q[1..][k])
          {
            assert t[1..][..|q| - 1][k] == t[..|q|][k + 1];
          }
        }
      }
    }
  }

  /**
   * For a needle with no `%` or `_`, the search pattern is an ASCII
   * case-insensitive substring test.
   */
  lemma SubstringSearch(q: string, t: string)
    requires NoWildcards(q)
    ensures Like(SubstringPattern(q), t) <==> ContainsFolded(t, q)
  {
    assert SubstringPattern(q) == ['%'] + (q + ['%']);
    LeadingPercent(q + ['%'], t);
    forall i | 0 <= i <= |t|
      ensures Like(q + ['%'], t[i..]) <==> OccursAt(t, q, i)
    {
      PrefixThenPercent(q, t[i..]);
      if i + |q| <= |t| {
        assert t[i..][..|q|] == t[i..i + |q|];
      }
    }
  }

  /** An empty needle gives `'%%'`, which every text matches. */
  lemma EmptyNeedleMatchesAll(t: string)
    ensures Like(SubstringPattern(""), t)
  {
    assert SubstringPattern("") == ['%'] + "%";
    LeadingPercent("%", t);
    PercentMatchesAll(t);
    assert t[0..] == t;
  }
}
