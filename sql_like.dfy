/** The SQL LIKE operator, which the listing search uses for brand and model, and the
    fact the search relies on: for a search word free of LIKE's special characters,
    `value LIKE '%word%'` holds exactly when the word occurs in the value.  Case
    folding by the column's collation is not part of this model. */
module SqlLike {

  /** The characters a LIKE pattern gives a meaning: '%', '_' and the escape '\'. */
  predicate IsSpecial(c: char) {
    c == '%' || c == '_' || c == '\\'
  }

  predicate NoWildcards(s: string) {
    forall i | 0 <= i < |s| :: !IsSpecial(s[i])
  }

  /** value LIKE pattern: '%' matches any run of characters, '_' exactly one, '\'
      makes the next pattern character literal, and every other character matches itself. */
  function Like(v: string, p: string): bool
    decreases |v| + |p|
  {
    if p == [] then v == []
    else if p[0] == '%' then Like(v, p[1..]) || (v != [] && Like(v[1..], p))
    else if p[0] == '_' then v != [] && Like(v[1..], p[1..])
    else if p[0] == '\\' && |p| > 1 then v != [] && v[0] == p[1] && Like(v[1..], p[2..])
    else v != [] && v[0] == p[0] && Like(v[1..], p[1..])
  }

  predicate IsPrefix(x: string, v: string) {
    |x| <= |v| && v[..|x|] == x
  }

  /** x occurs in v as a contiguous substring. */
  predicate Contains(v: string, x: string) {
    exists k | 0 <= k <= |v| :: IsPrefix(x, v[k..])
  }

  /** The pattern '%' matches every value. */
  lemma {:induction false} PercentMatchesAll(v: string)
    ensures Like(v, "%")
  {
    assert "%"[1..] == [];
    if v != [] {
      PercentMatchesAll(v[1..]);
    }
  }

  /** A literal followed by '%' matches exactly the values that start with the literal. */
  lemma {:induction false} LiteralThenPercent(v: string, x: string)
    requires NoWildcards(x)
    ensures Like(v, x + "%") <==> IsPrefix(x, v)
  {
    if x == [] {
      assert x + "%" == "%";
      PercentMatchesAll(v);
    } else {
      var p := x + "%";
      assert p[0] == x[0] && !IsSpecial(x[0]);
      assert p[1..] == x[1..] + "%";
      assert NoWildcards(x[1..]);
      if v != [] {
        LiteralThenPercent(v[1..], x[1..]);
        if |x| <= |v| {
          assert v[..|x|] == [v[0]] + v[1..][..|x| - 1];
          assert x == [x[0]] + x[1..];
        }
      }
    }
  }

  /** A pattern that starts with '%' matches a value exactly when the rest of the
      pattern matches some suffix of the value. */
  lemma {:induction false} LeadingPercent(v: string, q: string)
    ensures Like(v, "%" + q) <==> exists k | 0 <= k <= |v| :: Like(v[k..], q)
  {
    var p := "%" + q;
    assert p[0] == '%' && p[1..] == q;
    assert v[0..] == v;
    if v != [] {
      LeadingPercent(v[1..], q);
      if Like(v[1..], p) {
        var k :| 0 <= k <= |v| - 1 && Like(v[1..][k..], q);
        assert v[1..][k..] == v[k + 1..];
      }
      if exists k | 0 <= k <= |v| :: Like(v[k..], q) {
        var k :| 0 <= k <= |v| && Like(v[k..], q);
        if k > 0 {
          assert v[1..][k - 1..] == v[k..];
        }
      }
    }
  }

  /** For a search word free of special characters, `value LIKE '%word%'` holds
      exactly when the word occurs in the value. */
  lemma ContainsPattern(v: string, x: string)
    requires NoWildcards(x)
    ensures Like(v, "%" + x + "%") <==> Contains(v, x)
  {
    assert "%" + x + "%" == "%" + (x + "%");
    LeadingPercent(v, x + "%");
    forall k | 0 <= k <= |v|
      ensures Like(v[k..], x + "%") <==> IsPrefix(x, v[k..])
    {
      LiteralThenPercent(v[k..], x);
    }
  }
}
