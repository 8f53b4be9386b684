/** Character-level semantics of the two SQL queries the catalog runs:
    `LOWER(..)` on ASCII text, `=` on strings, and the `LIKE` pattern match. */
module Text {

  /** ASCII lower-casing of one character; every other character is kept. */
  function LowerChar(c: char): char
  {
    if 'A' <= c <= 'Z' then (c as int - 'A' as int + 'a' as int) as char else c
  }

  /** SQL `LOWER`, restricted to ASCII letters. */
  function Lower(s: string): string
  {
    seq(|s|, i requires 0 <= i < |s| => LowerChar(s[i]))
  }

  lemma LowerIdempotent(s: string)
    ensures Lower(Lower(s)) == Lower(s)
  {
  }

  lemma LowerAppend(a: string, b: string)
    ensures Lower(a + b) == Lower(a) + Lower(b)
  {
    assert forall i :: 0 <= i < |a + b| ==> Lower(a + b)[i] == (Lower(a) + Lower(b))[i];
  }

  /** `q` occurs in `s` as a contiguous run of characters. */
  ghost predicate IsSubstring(q: string, s: string)
  {
    exists i :: OccursAt(q, s, i)
  }

  /** `q` occurs in `s` starting at position `i`. */
  predicate OccursAt(q: string, s: string, i: int)
  {
    0 <= i <= |s| - |q| && s[i..i + |q|] == q
  }

  /** `q` holds neither of the two LIKE wildcards. */
  predicate NoWildcards(q: string)
  {
    forall i :: 0 <= i < |q| ==> q[i] != '%' && q[i] != '_'
  }

  /** Lower-casing neither creates nor removes a wildcard. */
  lemma LowerKeepsNoWildcards(q: string)
    ensures NoWildcards(Lower(q)) <==> NoWildcards(q)
  {
    forall i | 0 <= i < |q|
      ensures (Lower(q)[i] == '%' <==> q[i] == '%') && (Lower(q)[i] == '_' <==> q[i] == '_')
    {
      assert Lower(q)[i] == LowerChar(q[i]);
    }
  }

  /** SQL `s LIKE p` without an ESCAPE clause: `%` matches any run of
      characters (possibly empty), `_` matches exactly one character, and
      every other pattern character matches itself. */
  predicate Like(s: string, p: string)
    decreases |s| + |p|
  {
    if |p| == 0 then |s| == 0
    else if p[0] == '%' then Like(s, p[1..]) || (|s| > 0 && Like(s[1..], p))
    else |s| > 0 && (p[0] == '_' || p[0] == s[0]) && Like(s[1..], p[1..])
  }

  /** A lone `%` matches every string. */
  lemma {:induction false} LikeAnyRest(s: string)
    ensures Like(s, "%")
    decreases |s|
  {
    if |s| > 0 {
      LikeAnyRest(s[1..]);
    }
  }

  /** A literal followed by `%` matches exactly the strings it prefixes. */
  lemma {:induction false} LikeLiteralThenAny(t: string, q: string)
    requires NoWildcards(q)
    ensures Like(t, q + "%") <==> |q| <= |t| && t[..|q|] == q
    decreases |q|
  {
    if |q| == 0 {
      assert q + "%" == "%";
      LikeAnyRest(t);
    } else {
      assert (q + "%")[1..] == q[1..] + "%";
      assert q[0] != '%' && q[0] != '_';
      if |t| > 0 {
        LikeLiteralThenAny(t[1..], q[1..]);
        if |q| <= |t| && t[..|q|] == q {
          assert t[1..][..|q| - 1] == q[1..];
        }
        if t[0] == q[0] && |q[1..]| <= |t[1..]| && t[1..][..|q[1..]|] == q[1..] {
          assert t[..|q|] == [t[0]] + t[1..][..|q[1..]|];
          assert q == [q[0]] + q[1..];
        }
      }
    }
  }

  /** A leading `%` lets the rest of the pattern start at any position. */
  lemma {:induction false} LikeLeadingAny(s: string, p: string)
    ensures Like(s, "%" + p) <==> exists i :: 0 <= i <= |s| && Like(s[i..], p)
    decreases |s|
  {
    assert ("%" + p)[1..] == p;
    assert s[0..] == s;
    if |s| > 0 {
      LikeLeadingAny(s[1..], p);
      forall i | 0 <= i <= |s| - 1
        ensures s[1..][i..] == s[i + 1..]
      {
      }
      if exists i :: 0 <= i <= |s| && Like(s[i..], p) {
        var i :| 0 <= i <= |s| && Like(s[i..], p);
        if i > 0 {
          assert s[1..][i - 1..] == s[i..];
        }
      }
    }
  }

  /** The author query: for a search term without wildcards, the pattern
      `%q%` matches exactly the strings that contain `q`. */
  lemma LikeContains(s: string, q: string)
    requires NoWildcards(q)
    ensures Like(s, "%" + q + "%") <==> IsSubstring(q, s)
  {
    assert "%" + q + "%" == "%" + (q + "%");
    LikeLeadingAny(s, q + "%");
    if Like(s, "%" + q + "%") {
      var i :| 0 <= i <= |s| && Like(s[i..], q + "%");
      LikeLiteralThenAny(s[i..], q);
      assert s[i..][..|q|] == s[i..i + |q|];
      assert OccursAt(q, s, i);
    }
    if IsSubstring(q, s) {
      var i :| OccursAt(q, s, i);
      LikeLiteralThenAny(s[i..], q);
      assert s[i..][..|q|] == s[i..i + |q|];
    }
  }

  /** String equality after lower-casing, decided one character at a time. */
  function EqualsIgnoreCase(a: string, b: string): (r: bool)
    ensures r <==> Lower(a) == Lower(b)
  {
    if |a| != |b| then false
    else if |a| == 0 then true
    else
      assert Lower(a) == [LowerChar(a[0])] + Lower(a[1..]);
      assert Lower(b) == [LowerChar(b[0])] + Lower(b[1..]);
      assert Lower(a) == Lower(b) ==> Lower(a)[0] == Lower(b)[0] && Lower(a)[1..] == Lower(b)[1..];
      LowerChar(a[0]) == LowerChar(b[0]) && EqualsIgnoreCase(a[1..], b[1..])
  }
}
