/**
 * Relative-path handling of `sync_workflow_files`: separator normalisation,
 * lower-casing, substring search and the exclusion rule (`EXCLUDE_PATTERNS`).
 */
module Paths {

  /** `EXCLUDE_PATTERNS`: files whose path mentions one of these are never synced. */
  const ExcludePatterns: set<string> := {"workflows", "CODEOWNERS", "dependabot.yml"}

  /** One character of `str.replace("\\", "/")`. */
  function SlashChar(c: char): char
  {
    if c == '\\' then '/' else c
  }

  /** `str(relative).replace("\\", "/")`: every backslash becomes a forward slash. */
  function Normalize(p: string): string
  {
    seq(|p|, i requires 0 <= i < |p| => SlashChar(p[i]))
  }

  /** One character of `str.lower()`, restricted to ASCII letters. */
  function LowerChar(c: char): char
  {
    if 'A' <= c <= 'Z' then (c as int - 'A' as int + 'a' as int) as char else c
  }

  /** `str.lower()` on ASCII text. */
  function Lower(s: string): string
  {
    seq(|s|, i requires 0 <= i < |s| => LowerChar(s[i]))
  }

  /** `pat` occurs in `s` starting at index `i`. */
  predicate OccursAt(s: string, pat: string, i: int)
  {
    0 <= i && i + |pat| <= |s| && s[i..i + |pat|] == pat
  }

  /** Python's `pat in s` on strings, by scanning the start positions left to right. */
  function Contains(s: string, pat: string): bool
    decreases |s|
  {
    if |pat| > |s| then false
    else if s[..|pat|] == pat then true
    else Contains(s[1..], pat)
  }

  /** The scan finds `pat` exactly when it occurs somewhere in `s`. */
  lemma {:induction false} ContainsIff(s: string, pat: string)
    ensures Contains(s, pat) <==> exists i :: OccursAt(s, pat, i)
    decreases |s|
  {
    if |pat| > |s| {
      assert forall i :: !OccursAt(s, pat, i);
    } else if s[..|pat|] == pat {
      assert OccursAt(s, pat, 0);
    } else {
      ContainsIff(s[1..], pat);
      forall i | OccursAt(s[1..], pat, i)
        ensures OccursAt(s, pat, i + 1)
      {
        assert s[1..][i..i + |pat|] == s[i + 1..i + 1 + |pat|];
      }
      forall i | OccursAt(s, pat, i) && i != 0
        ensures OccursAt(s[1..], pat, i - 1)
      {
        assert s[1..][i - 1..i - 1 + |pat|] == s[i..i + |pat|];
      }
    }
  }

  /**
   * The exclusion rule: the lower-cased normalised path contains some
   * lower-cased pattern of `ExcludePatterns`.
   */
  predicate IsExcluded(normalized: string)
  {
    exists pat :: pat in ExcludePatterns && Contains(Lower(normalized), Lower(pat))
  }

  /** Normalised paths hold no backslash, and normalising twice changes nothing more. */
  lemma NormalizeIdempotent(p: string)
    ensures '\\' !in Normalize(p)
    ensures Normalize(Normalize(p)) == Normalize(p)
    ensures '\\' !in p ==> Normalize(p) == p
  {
    if '\\' !in p {
      assert forall i :: 0 <= i < |p| ==> p[i] != '\\';
    }
  }

  /** The three exclusion patterns, spelled out in lower case. */
  lemma ExcludedIff(normalized: string)
    ensures IsExcluded(normalized) <==>
      Contains(Lower(normalized), "workflows")
      || Contains(Lower(normalized), "codeowners")
      || Contains(Lower(normalized), "dependabot.yml")
  {
    assert Lower("workflows") == "workflows";
    assert Lower("CODEOWNERS") == "codeowners";
    assert Lower("dependabot.yml") == "dependabot.yml";
  }

  /** An occurrence of a lower-cased pattern in the lower-cased path excludes it. */
  lemma ExcludedAt(normalized: string, pat: string, i: int)
    requires pat in ExcludePatterns
    requires OccursAt(Lower(normalized), Lower(pat), i)
    ensures IsExcluded(normalized)
  {
    ContainsIff(Lower(normalized), Lower(pat));
  }

  /** The excluded `workflows` directory excludes every path below it. */
  lemma ExclusionMatchesDirectory(s: string)
    ensures IsExcluded("workflows/" + s)
  {
    assert Lower("workflows") == "workflows";
    assert Lower("workflows/" + s)[0..9] == "workflows";
    ExcludedAt("workflows/" + s, "workflows", 0);
  }

  /** Lower-casing is idempotent. */
  lemma LowerIdempotent(s: string)
    ensures Lower(Lower(s)) == Lower(s)
  {
  }

  /**
   * The case of the path does not matter: a path is excluded exactly when
   * its lower-cased form is, which needs lower-casing to be idempotent. That
   * two paths that differ only in case are excluded together follows
   * directly from `IsExcluded` reading only the lower-cased path.
   */
  lemma ExclusionIgnoresCase(p: string, q: string)
    ensures IsExcluded(p) <==> IsExcluded(Lower(p))
    ensures Lower(p) == Lower(q) ==> (IsExcluded(p) <==> IsExcluded(q))
  {
    LowerIdempotent(p);
  }

  /** `CODEOWNERS`, `codeowners` and `Dependabot.YML` are all excluded. */
  lemma ExclusionCaseExamples()
    ensures IsExcluded("CODEOWNERS")
    ensures IsExcluded("codeowners")
    ensures IsExcluded("Dependabot.YML")
  {
    OwnersExcluded();
    DependabotExcluded();
  }

  /** `CODEOWNERS` in either case. */
  lemma OwnersExcluded()
    ensures IsExcluded("CODEOWNERS")
    ensures IsExcluded("codeowners")
  {
    assert Lower("CODEOWNERS") == "codeowners";
    assert Lower("codeowners") == "codeowners";
    ExcludedAt("CODEOWNERS", "CODEOWNERS", 0);
    ExcludedAt("codeowners", "CODEOWNERS", 0);
  }

  /** `dependabot.yml` written in mixed case. */
  lemma DependabotExcluded()
    ensures IsExcluded("Dependabot.YML")
  {
    assert Lower("dependabot.yml") == "dependabot.yml";
    assert Lower("Dependabot.YML") == "dependabot.yml";
    ExcludedAt("Dependabot.YML", "dependabot.yml", 0);
  }

  /** The match is a plain substring search, so it over-matches names that mention a pattern. */
  lemma ExclusionOverMatches()
    ensures IsExcluded("my-Workflows-notes.md")
  {
    assert "my-Workflows-notes.md" == "my-" + "Workflows" + "-notes.md";
    LowerAppend("my-" + "Workflows", "-notes.md");
    LowerAppend("my-", "Workflows");
    assert Lower("my-") == "my-";
    assert Lower("Workflows") == "workflows";
    assert Lower("workflows") == "workflows";
    OccursBetween(Lower("my-"), "workflows", Lower("-notes.md"));
    ExcludedAt("my-Workflows-notes.md", "workflows", 3);
  }

  /** Lower-casing works character by character, so it distributes over concatenation. */
  lemma LowerAppend(a: string, b: string)
    ensures Lower(a + b) == Lower(a) + Lower(b)
  {
  }

  /** A text occurs in any text built around it. */
  lemma OccursBetween(before: string, pat: string, after: string)
    ensures OccursAt(before + pat + after, pat, |before|)
  {
    assert (before + pat + after)[|before|..|before| + |pat|] == pat;
  }

  /** A pattern holding a character the text lacks does not occur in it. */
  lemma MissingCharNotContained(s: string, pat: string, k: int)
    requires 0 <= k < |pat| && pat[k] !in s
    ensures !Contains(s, pat)
  {
    ContainsIff(s, pat);
  }

  /**
   * Every lower-cased pattern holds a 'w' except `dependabot.yml`, which
   * holds a 'd' and a 'y'; so a path without a 'w', and without a 'd' or
   * without a 'y', in any case, is never excluded.
   */
  lemma NoPatternLetterNotExcluded(normalized: string)
    requires 'w' !in Lower(normalized)
    requires 'd' !in Lower(normalized) || 'y' !in Lower(normalized)
    ensures !IsExcluded(normalized)
  {
    ExcludedIff(normalized);
    MissingCharNotContained(Lower(normalized), "workflows", 0);
    MissingCharNotContained(Lower(normalized), "codeowners", 5);
    if 'd' !in Lower(normalized) {
      MissingCharNotContained(Lower(normalized), "dependabot.yml", 0);
    } else {
      MissingCharNotContained(Lower(normalized), "dependabot.yml", 11);
    }
  }

  /** Ordinary documentation files are not excluded. */
  lemma ExclusionMisses()
    ensures !IsExcluded("README.md")
    ensures !IsExcluded("docs/notes.txt")
  {
    ReadmeNotExcluded();
    assert Lower("docs/notes.txt") == "docs/notes.txt";
    NoPatternLetterNotExcluded("docs/notes.txt");
  }

  /** `README.md` mentions no pattern. */
  lemma ReadmeNotExcluded()
    ensures !IsExcluded("README.md")
  {
    assert Lower("README.md") == "readme.md";
    NoPatternLetterNotExcluded("README.md");
  }
}
