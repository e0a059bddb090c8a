/**
 * The table-existence probe of exists(): the name is sent as the pattern of a
 * SHOW TABLES LIKE statement, and the table counts as present when any table name matches.
 */
module TableProbe {
  /**
   * MySQL's LIKE: `%` matches any run of characters, `_` any single character, a backslash
   * makes the character after it literal, and every other character matches itself.
   */
  predicate LikeMatches(pattern: string, name: string)
    decreases |pattern| + |name|
  {
    if pattern == [] then name == []
    else if pattern[0] == '%' then
      LikeMatches(pattern[1..], name) || (name != [] && LikeMatches(pattern, name[1..]))
    else if pattern[0] == '\\' && |pattern| > 1 then
      name != [] && name[0] == pattern[1] && LikeMatches(pattern[2..], name[1..])
    else
      name != [] && (pattern[0] == '_' || pattern[0] == name[0]) && LikeMatches(pattern[1..], name[1..])
  }

  predicate IsSpecial(c: char) {
    c == '%' || c == '_' || c == '\\'
  }

  /**
   * The probe as exists() sends it: the table name itself is the pattern. It is exact
   * for a name without `%`, `_` or backslash.
   */
  function ProbeAsWritten(tables: set<string>, name: string): (found: bool)
    ensures (forall i | 0 <= i < |name| :: !IsSpecial(name[i])) ==> (found <==> name in tables)
  {
    PlainProbeIsExact(tables, name);
    exists t | t in tables :: LikeMatches(name, t)
  }

  lemma PlainProbeIsExact(tables: set<string>, name: string)
    ensures (forall i | 0 <= i < |name| :: !IsSpecial(name[i])) ==>
      ((exists t | t in tables :: LikeMatches(name, t)) <==> name in tables)
  {
    if forall i | 0 <= i < |name| :: !IsSpecial(name[i]) {
      forall t | t in tables ensures LikeMatches(name, t) <==> t == name {
        PlainLikeIsExact(name, t);
      }
    }
  }

  /** An `_` in an otherwise plain name matches any character in its place. */
  lemma {:induction false} UnderscoreMatchesAnyChar(prefix: string, suffix: string, c: char)
    requires forall i | 0 <= i < |prefix| :: !IsSpecial(prefix[i])
    requires forall i | 0 <= i < |suffix| :: !IsSpecial(suffix[i])
    ensures LikeMatches(prefix + "_" + suffix, prefix + [c] + suffix)
    decreases |prefix|
  {
    var p, n := prefix + "_" + suffix, prefix + [c] + suffix;
    if prefix == [] {
      assert p[0] == '_' && p[1..] == suffix && n[1..] == suffix;
      PlainLikeIsExact(suffix, suffix);
    } else {
      assert !IsSpecial(prefix[0]);
      assert p[0] == n[0] == prefix[0];
      assert p[1..] == prefix[1..] + "_" + suffix;
      assert n[1..] == prefix[1..] + [c] + suffix;
      UnderscoreMatchesAnyChar(prefix[1..], suffix, c);
    }
  }

  /**
   * The probe answers yes for a table that does not exist: "user_data" is reported
   * present when only "userxdata" is, since `_` matches the `x`.
   */
  lemma ProbeAsWrittenFalsePositive()
    ensures ProbeAsWritten({"userxdata"}, "user_data")
    ensures "user_data" !in {"userxdata"}
  {
    UnderscoreMatchesAnyChar("user", "data", 'x');
    assert "user" + "_" + "data" == "user_data";
    assert "user" + ['x'] + "data" == "userxdata";
    assert "user_data"[4] != "userxdata"[4];
  }

  /** A name without wildcards or backslashes matches only itself: the probe is exact then. */
  lemma {:induction false} PlainLikeIsExact(name: string, t: string)
    requires forall i | 0 <= i < |name| :: !IsSpecial(name[i])
    ensures LikeMatches(name, t) <==> t == name
    decreases |name|
  {
    if name != [] {
      assert !IsSpecial(name[0]);
      PlainLikeIsExact(name[1..], if t == [] then [] else t[1..]);
      if t != [] && t[0] == name[0] && t[1..] == name[1..] {
        assert t == [t[0]] + t[1..];
        assert name == [name[0]] + name[1..];
      }
    }
  }

  /** The name with a backslash before every `%`, `_` and backslash. */
  function Escape(name: string): (p: string)
    ensures |p| >= |name|
    decreases |name|
  {
    if name == [] then []
    else if IsSpecial(name[0]) then ['\\', name[0]] + Escape(name[1..])
    else [name[0]] + Escape(name[1..])
  }

  /** The escaped name matches exactly the name itself. */
  lemma {:induction false} EscapedLikeIsExact(name: string, t: string)
    ensures LikeMatches(Escape(name), t) <==> t == name
    decreases |name|
  {
    if name != [] {
      var p := Escape(name);
      var rest := if t == [] then [] else t[1..];
      EscapedLikeIsExact(name[1..], rest);
      if IsSpecial(name[0]) {
        assert p[0] == '\\' && p[1] == name[0] && p[2..] == Escape(name[1..]);
      } else {
        assert p[0] == name[0] && p[1..] == Escape(name[1..]);
      }
      if t != [] && t[0] == name[0] && t[1..] == name[1..] {
        assert t == [t[0]] + t[1..];
        assert name == [name[0]] + name[1..];
      }
    }
  }

  /** The probe with the name escaped: yes exactly for an existing table. */
  function ProbeEscaped(tables: set<string>, name: string): (found: bool)
    ensures found <==> name in tables
  {
    assert forall t | t in tables :: LikeMatches(Escape(name), t) <==> t == name by {
      forall t | t in tables ensures LikeMatches(Escape(name), t) <==> t == name {
        EscapedLikeIsExact(name, t);
      }
    }
    exists t | t in tables :: LikeMatches(Escape(name), t)
  }
}
