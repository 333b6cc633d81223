/** The `ilike` filters of the list endpoint (`backend/app.py`). The code
    builds each pattern as `f'%{term}%'` from the raw query parameter, so
    `%` and `_` typed by the user act as wildcards instead of standing for
    themselves. This module models the operator as written, shows where it
    departs from a substring test, and defines the substring test the rest
    of the model uses. Matching is the default SQLite engine's: no escape
    character, ASCII case folding. */
module Like {
  import opened Text

  predicate IsWildcard(c: char) {
    c == '%' || c == '_'
  }

  predicate NoWildcards(p: string) {
    forall k :: 0 <= k < |p| ==> !IsWildcard(p[k])
  }

  /** `s LIKE p`: `%` matches any run of characters, `_` any one character,
      every other character itself up to ASCII case. */
  predicate LikeMatch(p: string, s: string)
    decreases |p| + |s|
  {
    if p == [] then s == []
    else if p[0] == '%' then LikeMatch(p[1..], s) || (s != [] && LikeMatch(p, s[1..]))
    else s != [] && (p[0] == '_' || LowerChar(p[0]) == LowerChar(s[0])) && LikeMatch(p[1..], s[1..])
  }

  /** `column.ilike(f'%{term}%')`, as the endpoint writes it. */
  predicate IlikeContains(column: string, term: string) {
    LikeMatch("%" + term + "%", column)
  }

  /** `term` occurs in `column` at position `i`, up to ASCII case. */
  ghost predicate FoldedAt(column: string, term: string, i: int) {
    0 <= i <= |column| - |term| && Lower(column[i..i + |term|]) == Lower(term)
  }

  /** The evidently intended filter: `term` occurs in `column`, ignoring case. */
  function ContainsIgnoringCase(column: string, term: string): (r: bool)
    ensures r <==> exists i :: FoldedAt(column, term, i)
  {
    InfixOfLower(column, term);
    Contains(Lower(column), Lower(term))
  }

  lemma InfixOfLower(column: string, term: string)
    ensures IsInfix(Lower(term), Lower(column)) <==> exists i :: FoldedAt(column, term, i)
  {
    if IsInfix(Lower(term), Lower(column)) {
      var i :| InfixAt(Lower(term), Lower(column), i);
      assert Lower(column[i..i + |term|]) == Lower(column)[i..i + |term|];
      assert FoldedAt(column, term, i);
    }
    if exists i :: FoldedAt(column, term, i) {
      var i :| FoldedAt(column, term, i);
      assert Lower(column[i..i + |term|]) == Lower(column)[i..i + |term|];
      assert InfixAt(Lower(term), Lower(column), i);
    }
  }

  // ---------------------------------------------------------------------
  // The two agree on terms without wildcards
  // ---------------------------------------------------------------------

  /** A trailing `%` matches every string. */
  lemma {:induction false} PercentMatchesAll(s: string)
    ensures LikeMatch("%", s)
    decreases |s|
  {
    if s != [] {
      PercentMatchesAll(s[1..]);
    }
  }

  /** A wildcard-free pattern matches exactly the strings equal to it up to case. */
  lemma {:induction false} LiteralMatch(p: string, s: string)
    requires NoWildcards(p)
    ensures LikeMatch(p, s) <==> Lower(p) == Lower(s)
    decreases |p|
  {
    if p != [] && s != [] {
      LiteralMatch(p[1..], s[1..]);
      assert Lower(p) == [LowerChar(p[0])] + Lower(p[1..]);
      assert Lower(s) == [LowerChar(s[0])] + Lower(s[1..]);
    }
  }

  /** A wildcard-free pattern followed by `%` matches the strings it begins,
      up to case. */
  lemma {:induction false} LiteralPrefixMatch(p: string, s: string)
    requires NoWildcards(p)
    ensures LikeMatch(p + "%", s) <==> |p| <= |s| && Lower(p) == Lower(s[..|p|])
    decreases |p|
  {
    if p == [] {
      assert p + "%" == "%";
      PercentMatchesAll(s);
    } else {
      assert (p + "%")[0] == p[0] && (p + "%")[1..] == p[1..] + "%";
      assert !IsWildcard(p[0]);
      LowerCons(p);
      if s != [] {
        assert NoWildcards(p[1..]) by {
          forall k | 0 <= k < |p| - 1 ensures !IsWildcard(p[1..][k]) { assert p[1..][k] == p[k + 1]; }
        }
        LiteralPrefixMatch(p[1..], s[1..]);
        if |p| <= |s| {
          var head := s[..|p|];
          assert head[0] == s[0] && head[1..] == s[1..][..|p| - 1];
          LowerCons(head);
          ConsEqual(LowerChar(p[0]), Lower(p[1..]), LowerChar(s[0]), Lower(head[1..]));
        }
      }
    }
  }

  lemma LowerCons(s: string)
    requires s != []
    ensures Lower(s) == [LowerChar(s[0])] + Lower(s[1..])
  {
  }

  lemma ConsEqual(a: char, x: string, b: char, y: string)
    ensures [a] + x == [b] + y <==> a == b && x == y
  {
    if [a] + x == [b] + y {
      assert ([a] + x)[0] == a && ([a] + x)[1..] == x;
      assert ([b] + y)[0] == b && ([b] + y)[1..] == y;
    }
  }

  /** A leading `%` lets the rest of the pattern match any suffix. */
  lemma {:induction false} LeadingPercent(q: string, s: string)
    ensures LikeMatch("%" + q, s) <==> exists i :: 0 <= i <= |s| && LikeMatch(q, s[i..])
    decreases |s|
  {
    assert ("%" + q)[0] == '%' && ("%" + q)[1..] == q;
    assert s[0..] == s;
    if s != [] {
      LeadingPercent(q, s[1..]);
      forall i | 1 <= i <= |s| ensures s[1..][i - 1..] == s[i..] { }
      if exists i :: 0 <= i <= |s| && LikeMatch(q, s[i..]) {
        var i :| 0 <= i <= |s| && LikeMatch(q, s[i..]);
        if i > 0 {
          assert LikeMatch(q, s[1..][i - 1..]);
        }
      }
    }
  }

  /** On a term without `%` or `_`, the filter as written is the substring test. */
  lemma AgreeWithoutWildcards(column: string, term: string)
    requires NoWildcards(term)
    ensures IlikeContains(column, term) <==> ContainsIgnoringCase(column, term)
  {
    assert "%" + term + "%" == "%" + (term + "%");
    LeadingPercent(term + "%", column);
    forall i | 0 <= i <= |column|
      ensures LikeMatch(term + "%", column[i..]) <==> FoldedAt(column, term, i)
    {
      LiteralPrefixMatch(term, column[i..]);
      if |term| <= |column[i..]| {
        assert column[i..][..|term|] == column[i..i + |term|];
      }
    }
  }

  // ---------------------------------------------------------------------
  // Where they differ
  // ---------------------------------------------------------------------

  /** A search for "_" lists every job with a non-empty field, although no
      field contains an underscore. */
  lemma UnderscoreMatchesAnyCharacter()
    ensures IlikeContains("Acme", "_")
    ensures !ContainsIgnoringCase("Acme", "_")
  {
    assert "%" + "_" + "%" == "%_%";
    assert LikeMatch("%", "cme") by { PercentMatchesAll("cme"); }
    assert LikeMatch("_%", "Acme") by { assert "_%"[1..] == "%" && "Acme"[1..] == "cme"; }
    assert "%_%"[1..] == "_%";
    forall i | FoldedAt("Acme", "_", i) ensures false { }
  }

  /** A search for "%" matches every value of the column, the empty one included. */
  lemma PercentMatchesEverything(column: string)
    ensures IlikeContains(column, "%")
  {
    assert "%" + "%" + "%" == "%%%";
    assert "%%%"[1..] == "%%" && "%%"[1..] == "%";
    PercentMatchesAll(column);
  }
}
