/** The one piece of SQL the tier list relies on: `column ILIKE '%term%'` as
    SQLAlchemy renders it for SQLite, i.e. `lower(column) LIKE lower(pattern)`.
    Without the ICU extension SQLite folds only the ASCII letters, and `LIKE`
    without an `ESCAPE` clause treats `%` and `_` in the pattern as wildcards. */
module SqlLike {

  /** SQLite's built-in `lower()` on one character: ASCII letters only. */
  function Lower(c: char): (d: char)
    ensures 'A' <= c <= 'Z' ==> d as int == c as int + 32
    ensures !('A' <= c <= 'Z') ==> d == c
  {
    if 'A' <= c <= 'Z' then (c as int + 32) as char else c
  }

  /** `s LIKE p`: `%` matches any run of characters, `_` any one character,
      anything else itself up to ASCII case. */
  predicate Like(s: string, p: string)
    decreases |s| + |p|
  {
    if p == [] then s == []
    else if p[0] == '%' then Like(s, p[1..]) || (s != [] && Like(s[1..], p))
    else if p[0] == '_' then s != [] && Like(s[1..], p[1..])
    else s != [] && Lower(s[0]) == Lower(p[0]) && Like(s[1..], p[1..])
  }

  /** The pattern `%term%` the search box builds. */
  function Surround(term: string): (p: string)
    ensures |p| == |term| + 2 && p[0] == '%' && p[|p| - 1] == '%'
    ensures p[1..|p| - 1] == term
  {
    ['%'] + term + ['%']
  }

  predicate NoWildcards(q: string)
  {
    forall k :: 0 <= k < |q| ==> q[k] != '%' && q[k] != '_'
  }

  /** `q` occurs in `s` at offset `i`, up to ASCII case. */
  predicate MatchesAt(s: string, q: string, i: int)
  {
    0 <= i <= |s| - |q| && forall k :: 0 <= k < |q| ==> Lower(s[i + k]) == Lower(q[k])
  }

  /** `q` is a substring of `s`, up to ASCII case. */
  predicate Contains(s: string, q: string)
  {
    exists i :: 0 <= i <= |s| - |q| && MatchesAt(s, q, i)
  }

  lemma {:induction false} LikeAnything(s: string)
    ensures Like(s, "%")
  {
    if s != [] {
      LikeAnything(s[1..]);
    }
  }

  /** `q%` with a wildcard-free `q` matches exactly the strings that start with `q`. */
  lemma {:induction false} LikePrefix(s: string, q: string)
    requires NoWildcards(q)
    ensures Like(s, q + "%") <==> MatchesAt(s, q, 0)
  {
    if q == [] {
      assert q + "%" == "%";
      LikeAnything(s);
    } else {
      assert (q + "%")[1..] == q[1..] + "%";
      assert (q + "%")[0] == q[0];
      if s != [] {
        LikePrefix(s[1..], q[1..]);
        if MatchesAt(s, q, 0) {
          assert forall k :: 0 <= k < |q| - 1 ==> s[1..][k] == s[k + 1] && q[1..][k] == q[k + 1];
        }
        if Lower(s[0]) == Lower(q[0]) && MatchesAt(s[1..], q[1..], 0) {
          forall k | 0 <= k < |q|
            ensures Lower(s[k]) == Lower(q[k])
          {
            if k > 0 {
              assert s[1..][k - 1] == s[k] && q[1..][k - 1] == q[k];
            }
          }
        }
      }
    }
  }

  /** `%r` matches `s` exactly when `r` matches some suffix of `s`. */
  lemma {:induction false} LikeSuffix(s: string, r: string)
    ensures Like(s, ['%'] + r) <==> exists i :: 0 <= i <= |s| && Like(s[i..], r)
  {
    assert (['%'] + r)[1..] == r;
    assert s[0..] == s;
    if s != [] {
      LikeSuffix(s[1..], r);
      if exists i :: 0 <= i <= |s| && Like(s[i..], r) {
        var i :| 0 <= i <= |s| && Like(s[i..], r);
        if i > 0 {
          assert s[1..][i - 1..] == s[i..];
        }
      }
      if exists i :: 0 <= i <= |s[1..]| && Like(s[1..][i..], r) {
        var i :| 0 <= i <= |s[1..]| && Like(s[1..][i..], r);
        assert s[1..][i..] == s[i + 1..];
      }
    }
  }

  /** With no wildcard in the search term, the `ILIKE '%term%'` filter is
      case-insensitive (for ASCII) substring search, in both directions. */
  lemma SearchIsSubstring(s: string, q: string)
    requires NoWildcards(q)
    ensures Like(s, Surround(q)) <==> Contains(s, q)
  {
    assert Surround(q) == ['%'] + (q + "%");
    LikeSuffix(s, q + "%");
    if Contains(s, q) {
      var i :| 0 <= i <= |s| - |q| && MatchesAt(s, q, i);
      LikePrefix(s[i..], q);
      assert MatchesAt(s[i..], q, 0) by {
        assert forall k :: 0 <= k < |q| ==> s[i..][k] == s[i + k];
      }
    }
    if Like(s, Surround(q)) {
      var i :| 0 <= i <= |s| && Like(s[i..], q + "%");
      LikePrefix(s[i..], q);
      assert forall k :: 0 <= k < |q| ==> s[i..][k] == s[i + k];
      assert MatchesAt(s, q, i);
    }
  }
}
