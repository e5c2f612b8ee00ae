/**
 * PostgreSQL's `ILIKE` as `contact_match` uses it: `%` matches any run of
 * characters, `_` any single character, and `\` (the default escape) makes the
 * next pattern character literal. Case is folded with ASCII rules; the
 * database's locale-dependent folding is not modelled.
 */
module Ilike {

  /** ASCII lower-casing: 'A'..'Z' become 'a'..'z', every other character is kept. */
  function FoldChar(ch: char): char
  {
    if 'A' <= ch <= 'Z' then (ch as int + 32) as char else ch
  }

  /** A folded character is never an upper-case letter, so folding twice changes nothing more. */
  lemma FoldIdempotent(ch: char)
    ensures !('A' <= FoldChar(ch) <= 'Z')
    ensures FoldChar(FoldChar(ch)) == FoldChar(ch)
  {
  }

  /** Two characters fold alike exactly when they are equal or are the two cases of one ASCII letter. */
  lemma FoldEqual(x: char, y: char)
    ensures FoldChar(x) == FoldChar(y) <==>
      || x == y
      || ('A' <= x <= 'Z' && y as int == x as int + 32)
      || ('A' <= y <= 'Z' && x as int == y as int + 32)
  {
  }

  /** Case-insensitive `LIKE`: does the whole of `s` match the pattern `p`? */
  predicate Like(s: string, p: string)
    decreases |s| + |p|
  {
    if p == [] then s == []
    else if p[0] == '%' then Like(s, p[1..]) || (s != [] && Like(s[1..], p))
    else if p[0] == '_' then s != [] && Like(s[1..], p[1..])
    else if p[0] == '\\' then
      // PostgreSQL rejects a pattern ending in a lone escape; such a pattern is
      // never built here (EnclosedPatternEscapesClosed), and it matches nothing.
      |p| >= 2 && s != [] && FoldChar(s[0]) == FoldChar(p[1]) && Like(s[1..], p[2..])
    else s != [] && FoldChar(s[0]) == FoldChar(p[0]) && Like(s[1..], p[1..])
  }

  /** Every escape in `p` is followed by the character it escapes. */
  predicate EscapesClosed(p: string)
  {
    if p == [] then true
    else if p[0] == '\\' then |p| >= 2 && EscapesClosed(p[2..])
    else EscapesClosed(p[1..])
  }

  /** `q` holds none of the characters that are special in a `LIKE` pattern. */
  predicate NoWildcards(q: string)
  {
    forall k :: 0 <= k < |q| ==> q[k] != '%' && q[k] != '_' && q[k] != '\\'
  }

  /** `t` starts with `q`, compared case-insensitively. */
  predicate FoldedPrefix(q: string, t: string)
  {
    |q| <= |t| && forall k :: 0 <= k < |q| ==> FoldChar(t[k]) == FoldChar(q[k])
  }

  /** `q` occurs somewhere in `name`, compared case-insensitively. */
  predicate ContainsFolded(name: string, q: string)
  {
    exists i :: 0 <= i <= |name| && FoldedPrefix(q, name[i..])
  }

  /** The pattern that `contact_match` binds for the query `q`. */
  function Enclosed(q: string): (p: string)
    ensures |p| == |q| + 2 && p[0] == '%' && p[|p| - 1] == '%' && p[1..|p| - 1] == q
  {
    "%" + q + "%"
  }

  lemma {:induction false} PercentMatchesAll(s: string)
    ensures Like(s, "%")
  {
    if s != [] {
      PercentMatchesAll(s[1..]);
    }
  }

  /** A leading `%` lets the rest of the pattern match any suffix. */
  lemma {:induction false} LeadingPercent(s: string, p: string)
    ensures Like(s, ['%'] + p) <==> exists i :: 0 <= i <= |s| && Like(s[i..], p)
  {
    var pp := ['%'] + p;
    assert pp[1..] == p;
    assert s[0..] == s;
    if s != [] {
      LeadingPercent(s[1..], p);
      if Like(s, pp) && !Like(s, p) {
        assert Like(s[1..], pp);
        var j :| 0 <= j <= |s[1..]| && Like(s[1..][j..], p);
        assert s[1..][j..] == s[j + 1..];
      }
      if i :| 0 <= i <= |s| && Like(s[i..], p) {
        if i > 0 {
          assert s[1..][i - 1..] == s[i..];
          assert Like(s[1..], pp);
        }
      }
    }
  }

  /** A wildcard-free `q` followed by `%` matches exactly the strings that start with `q`. */
  lemma {:induction false} LiteralThenPercent(t: string, q: string)
    requires NoWildcards(q)
    ensures Like(t, q + "%") <==> FoldedPrefix(q, t)
  {
    if q == [] {
      assert q + "%" == "%";
      PercentMatchesAll(t);
    } else {
      var p := q + "%";
      assert p[0] == q[0] && p[1..] == q[1..] + "%";
      assert NoWildcards(q[1..]) by {
        forall k | 0 <= k < |q[1..]| ensures q[1..][k] != '%' && q[1..][k] != '_' && q[1..][k] != '\\' {
          assert q[1..][k] == q[k + 1];
        }
      }
      if t != [] {
        LiteralThenPercent(t[1..], q[1..]);
        if FoldedPrefix(q, t) {
          forall k | 0 <= k < |q[1..]| ensures FoldChar(t[1..][k]) == FoldChar(q[1..][k]) {
            assert t[1..][k] == t[k + 1] && q[1..][k] == q[k + 1];
          }
        }
        if FoldChar(t[0]) == FoldChar(q[0]) && FoldedPrefix(q[1..], t[1..]) {
          forall k | 0 <= k < |q| ensures FoldChar(t[k]) == FoldChar(q[k]) {
            if k > 0 {
              assert t[1..][k - 1] == t[k] && q[1..][k - 1] == q[k];
            }
          }
        }
      }
    }
  }

  /**
   * For a query free of wildcards and escapes, `name ILIKE '%' || q || '%'`
   * holds exactly when `q` occurs in `name` ignoring ASCII case.
   */
  lemma EnclosedMatchesSubstring(name: string, q: string)
    requires NoWildcards(q)
    ensures Like(name, Enclosed(q)) <==> ContainsFolded(name, q)
  {
    var rest := q + "%";
    assert Enclosed(q) == ['%'] + rest;
    LeadingPercent(name, rest);
    forall i | 0 <= i <= |name|
      ensures Like(name[i..], rest) <==> FoldedPrefix(q, name[i..])
    {
      LiteralThenPercent(name[i..], q);
    }
  }

  /** The empty query becomes `%%`, which matches every name. */
  lemma EmptyQueryMatchesAll(name: string)
    ensures Like(name, Enclosed(""))
  {
  }

  lemma {:induction false} PercentClosesEscapes(x: string)
    ensures EscapesClosed(x + "%")
  {
    if x != [] {
      var p := x + "%";
      if x[0] == '\\' && |x| >= 2 {
        assert p[2..] == x[2..] + "%";
        PercentClosesEscapes(x[2..]);
      } else if x[0] != '\\' {
        assert p[1..] == x[1..] + "%";
        PercentClosesEscapes(x[1..]);
      } else {
        assert p == "\\%" && p[2..] == [];
      }
    }
  }

  /** The pattern built from any query never ends in a lone escape, so the database never rejects it. */
  lemma EnclosedPatternEscapesClosed(q: string)
    ensures EscapesClosed(Enclosed(q))
  {
    var rest := q + "%";
    assert Enclosed(q) == ['%'] + rest && (['%'] + rest)[1..] == rest;
    PercentClosesEscapes(q);
  }
}
