/**
 * Shell-style file-name patterns as `fnmatch.fnmatch` reads them, restricted
 * to `*` (any run of characters, `/` included), `?` (any one character) and
 * literal characters; and the "matches any of these patterns" test a
 * template applies to a path.
 */
module Glob {

  /** A pattern with no wildcard in it. */
  predicate IsLiteral(pattern: string) {
    forall i :: 0 <= i < |pattern| ==> pattern[i] != '*' && pattern[i] != '?'
  }

  predicate EndsWith(s: string, suffix: string) {
    |suffix| <= |s| && s[|s| - |suffix|..] == suffix
  }

  /** Does the whole of `name` match `pattern`? */
  predicate Match(name: string, pattern: string)
    decreases |pattern|, |name|
  {
    if pattern == [] then name == []
    else if pattern[0] == '*' then
      Match(name, pattern[1..]) || (name != [] && Match(name[1..], pattern))
    else
      name != [] && (pattern[0] == '?' || pattern[0] == name[0]) && Match(name[1..], pattern[1..])
  }

  /** A pattern without wildcards matches exactly itself. */
  lemma {:induction false} LiteralMatch(name: string, pattern: string)
    requires IsLiteral(pattern)
    ensures Match(name, pattern) <==> name == pattern
  {
    if pattern != [] {
      assert IsLiteral(pattern[1..]) by {
        forall i | 0 <= i < |pattern[1..]| ensures pattern[1..][i] != '*' && pattern[1..][i] != '?' {
          assert pattern[1..][i] == pattern[i + 1];
        }
      }
      if name != [] {
        LiteralMatch(name[1..], pattern[1..]);
        assert name == [name[0]] + name[1..];
        assert pattern == [pattern[0]] + pattern[1..];
      }
    }
  }

  /** `*` alone matches every name. */
  lemma {:induction false} StarMatchesAll(name: string)
    ensures Match(name, "*")
  {
    assert "*"[1..] == [];
    if name != [] {
      StarMatchesAll(name[1..]);
    }
  }

  /** `*` followed by a literal (as in `*.service`) matches exactly the names
      that end with that literal. */
  lemma {:induction false} StarSuffixMatch(name: string, suffix: string)
    requires IsLiteral(suffix)
    ensures Match(name, "*" + suffix) <==> EndsWith(name, suffix)
  {
    var pattern := "*" + suffix;
    assert pattern[0] == '*' && pattern[1..] == suffix;
    LiteralMatch(name, suffix);
    if name != [] {
      StarSuffixMatch(name[1..], suffix);
      if |suffix| < |name| {
        assert name[1..][|name| - 1 - |suffix|..] == name[|name| - |suffix|..];
        assert name != suffix;
      } else if |suffix| == |name| {
        assert !EndsWith(name[1..], suffix);
        assert name[|name| - |suffix|..] == name;
      }
    }
  }

  /** True when at least one of `patterns` matches `name`; evaluated front to
      back, as the template's loop over its patterns is. */
  predicate AnyMatch(name: string, patterns: seq<string>)
  {
    patterns != [] && (Match(name, patterns[0]) || AnyMatch(name, patterns[1..]))
  }

  /** The left-to-right test is the plain "some pattern matches". */
  lemma {:induction false} AnyMatchExists(name: string, patterns: seq<string>)
    ensures AnyMatch(name, patterns) <==> exists i :: 0 <= i < |patterns| && Match(name, patterns[i])
  {
    if patterns != [] {
      AnyMatchExists(name, patterns[1..]);
      if AnyMatch(name, patterns[1..]) {
        var i :| 0 <= i < |patterns[1..]| && Match(name, patterns[1..][i]);
        assert Match(name, patterns[i + 1]);
      }
      if exists i :: 0 <= i < |patterns| && Match(name, patterns[i]) {
        var i :| 0 <= i < |patterns| && Match(name, patterns[i]);
        if i > 0 {
          assert patterns[1..][i - 1] == patterns[i];
        }
      }
    }
  }

  /** Neither the order of the patterns nor how often each is listed changes
      the answer: only which patterns there are matters. */
  lemma AnyMatchOrderIrrelevant(name: string, patterns: seq<string>, reordered: seq<string>)
    requires forall p :: p in patterns <==> p in reordered
    ensures AnyMatch(name, patterns) == AnyMatch(name, reordered)
  {
    AnyMatchExists(name, patterns);
    AnyMatchExists(name, reordered);
    if AnyMatch(name, patterns) {
      var i :| 0 <= i < |patterns| && Match(name, patterns[i]);
      assert patterns[i] in reordered;
      var j :| 0 <= j < |reordered| && reordered[j] == patterns[i];
    }
    if AnyMatch(name, reordered) {
      var j :| 0 <= j < |reordered| && Match(name, reordered[j]);
      assert reordered[j] in patterns;
      var i :| 0 <= i < |patterns| && patterns[i] == reordered[j];
    }
  }
}
