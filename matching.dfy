/**
 * The rule matcher of the inventory (`contentMatch` in src/index.js) and the
 * two default exclusion lists.
 *
 * `contentMatch(content, rules)` builds `new RegExp(rule)` for each rule in
 * order and stops at the first rule whose `test(content)` succeeds.  The
 * regular-expression engine is a parameter here (`Engine`): every property of
 * the matcher and of the walker holds for any engine.  `FragmentTest` is one
 * concrete engine, exact for patterns made of literal characters, `.` and a
 * `?` after a single character, which covers every default rule.
 */
module Matching {

  /** What testing one rule against a name does. */
  datatype Test =
    | Hit      // the pattern occurs somewhere in the name
    | Miss     // it does not
    | Invalid  // `new RegExp(rule)` throws a SyntaxError

  /** A regular-expression engine: `Engine(rule, content)` tests pattern `rule` against `content`. */
  type Engine = (string, string) -> Test

  /** The outcome of `contentMatch`: true, false, or the exception it lets escape. */
  datatype MatchOutcome = Matched | Unmatched | Raised

  /**
   * `contentMatch(content, rules)`: `rules.find(rule => new RegExp(rule).test(content)) !== undefined`.
   * `find` visits the rules in order and stops at the first hit, so a rule that
   * cannot be compiled only raises when no earlier rule matched.
   */
  function ContentMatch(content: string, rules: seq<string>, regex: Engine): MatchOutcome
  {
    if rules == [] then Unmatched
    else
      match regex(rules[0], content)
      case Hit => Matched
      case Invalid => Raised
      case Miss => ContentMatch(content, rules[1..], regex)
  }

  /**
   * What `contentMatch` answers: false exactly when every rule misses; true
   * exactly when some rule hits and every rule before it misses; an exception
   * exactly when some rule cannot be compiled and every rule before it misses.
   */
  lemma {:induction false} ContentMatchSpec(content: string, rules: seq<string>, regex: Engine)
    ensures ContentMatch(content, rules, regex) == Unmatched <==>
      forall i :: 0 <= i < |rules| ==> regex(rules[i], content) == Miss
    ensures ContentMatch(content, rules, regex) == Matched <==>
      exists i :: 0 <= i < |rules| && regex(rules[i], content) == Hit &&
        forall j :: 0 <= j < i ==> regex(rules[j], content) == Miss
    ensures ContentMatch(content, rules, regex) == Raised <==>
      exists i :: 0 <= i < |rules| && regex(rules[i], content) == Invalid &&
        forall j :: 0 <= j < i ==> regex(rules[j], content) == Miss
    decreases |rules|
  {
    if rules != [] && regex(rules[0], content) == Miss {
      ContentMatchSpec(content, rules[1..], regex);
      assert forall i :: 1 <= i < |rules| ==> rules[i] == rules[1..][i - 1];
      if ContentMatch(content, rules, regex) == Matched {
        var i :| 0 <= i < |rules[1..]| && regex(rules[1..][i], content) == Hit &&
          forall j :: 0 <= j < i ==> regex(rules[1..][j], content) == Miss;
        assert forall j :: 0 <= j < i + 1 ==> regex(rules[j], content) == Miss by {
          forall j | 0 <= j < i + 1 ensures regex(rules[j], content) == Miss {
            if j > 0 {
              assert rules[j] == rules[1..][j - 1];
            }
          }
        }
        assert regex(rules[i + 1], content) == Hit;
      }
      if ContentMatch(content, rules, regex) == Raised {
        var i :| 0 <= i < |rules[1..]| && regex(rules[1..][i], content) == Invalid &&
          forall j :: 0 <= j < i ==> regex(rules[1..][j], content) == Miss;
        assert forall j :: 0 <= j < i + 1 ==> regex(rules[j], content) == Miss by {
          forall j | 0 <= j < i + 1 ensures regex(rules[j], content) == Miss {
            if j > 0 {
              assert rules[j] == rules[1..][j - 1];
            }
          }
        }
        assert regex(rules[i + 1], content) == Invalid;
      }
    }
  }

  /** Every rule compiles when tested against `content`. */
  predicate AllCompile(content: string, rules: seq<string>, regex: Engine)
  {
    forall i :: 0 <= i < |rules| ==> regex(rules[i], content) != Invalid
  }

  /**
   * Whether a name is left alone ("no rule matches and none raises") does not
   * depend on the order of the rules, nor on repeated rules.
   */
  lemma UnmatchedIgnoresOrder(content: string, rules: seq<string>, others: seq<string>, regex: Engine)
    requires forall x :: x in rules <==> x in others
    ensures ContentMatch(content, rules, regex) == Unmatched <==> ContentMatch(content, others, regex) == Unmatched
  {
    ContentMatchSpec(content, rules, regex);
    ContentMatchSpec(content, others, regex);
    if ContentMatch(content, rules, regex) == Unmatched {
      forall i | 0 <= i < |others| ensures regex(others[i], content) == Miss {
        assert others[i] in rules;
      }
    }
    if ContentMatch(content, others, regex) == Unmatched {
      forall i | 0 <= i < |rules| ensures regex(rules[i], content) == Miss {
        assert rules[i] in others;
      }
    }
  }

  /**
   * When every rule compiles, the result of `contentMatch` is "some rule
   * matches", so reordering (or repeating) the rules does not change it.
   */
  lemma ContentMatchIgnoresOrder(content: string, rules: seq<string>, others: seq<string>, regex: Engine)
    requires forall x :: x in rules <==> x in others
    requires AllCompile(content, rules, regex)
    ensures ContentMatch(content, rules, regex) == ContentMatch(content, others, regex)
  {
    ContentMatchSpec(content, rules, regex);
    ContentMatchSpec(content, others, regex);
    UnmatchedIgnoresOrder(content, rules, others, regex);
    assert AllCompile(content, others, regex) by {
      forall i | 0 <= i < |others| ensures regex(others[i], content) != Invalid {
        assert others[i] in rules;
      }
    }
  }

  // ---------------------------------------------------------------------------
  // A small fragment of JavaScript regular expressions

  /** The characters that end a line for JavaScript's `.`, which does not match them. */
  predicate IsLineTerminator(c: char)
  {
    c == '\n' || c == '\r' || c == '\U{2028}' || c == '\U{2029}'
  }

  /** Pattern character `p` (a literal or `.`) against name character `c`. */
  predicate CharMatches(p: char, c: char)
  {
    if p == '.' then !IsLineTerminator(c) else p == c
  }

  /** Does `pat` match at the very start of `s`?  `x?` makes `x` optional (greedy). */
  predicate MatchHere(pat: string, s: string)
    decreases |pat|
  {
    if pat == [] then true
    else if |pat| >= 2 && pat[1] == '?' then
      (s != [] && CharMatches(pat[0], s[0]) && MatchHere(pat[2..], s[1..])) || MatchHere(pat[2..], s)
    else
      s != [] && CharMatches(pat[0], s[0]) && MatchHere(pat[1..], s[1..])
  }

  /** Unanchored search, as `RegExp.prototype.test` does without flags. */
  predicate Search(pat: string, s: string)
    decreases |s|
  {
    MatchHere(pat, s) || (s != [] && Search(pat, s[1..]))
  }

  /** The characters that are special in a JavaScript pattern. */
  predicate IsMeta(c: char)
  {
    || c == '\\' || c == '^' || c == '$' || c == '.' || c == '|' || c == '?' || c == '*'
    || c == '+' || c == '(' || c == ')' || c == '[' || c == ']' || c == '{' || c == '}'
  }

  /**
   * Patterns this engine interprets exactly: literal characters, `.`, and a `?`
   * that follows a literal or `.` (never a leading `?`, never `??`).
   */
  predicate InFragment(rule: string)
  {
    forall i :: 0 <= i < |rule| ==> FragmentCharAt(rule, i)
  }

  /** Character `i` of `rule` is a literal, a `.`, or a `?` after a literal or `.`. */
  predicate FragmentCharAt(rule: string, i: int)
    requires 0 <= i < |rule|
  {
    !IsMeta(rule[i]) || rule[i] == '.' || (rule[i] == '?' && i > 0 && rule[i - 1] != '?')
  }

  /**
   * The fragment engine.  A leading `?` has nothing to repeat, so the
   * constructor throws, as JavaScript's does.
   */
  function FragmentTest(rule: string, content: string): Test
  {
    if |rule| > 0 && rule[0] == '?' then Invalid
    else if Search(rule, content) then Hit
    else Miss
  }

  /** `pat` occurs in `s` as a contiguous run of characters. */
  ghost predicate Occurs(pat: string, s: string)
  {
    exists i :: OccursAt(pat, s, i)
  }

  /** `pat` occurs in `s` starting at index `i`. */
  predicate OccursAt(pat: string, s: string, i: int)
  {
    0 <= i && i + |pat| <= |s| && s[i..i + |pat|] == pat
  }

  /** A pattern without any special character. */
  predicate IsLiteral(pat: string)
  {
    forall i :: 0 <= i < |pat| ==> !IsMeta(pat[i])
  }

  lemma {:induction false} MatchHereLiteral(pat: string, s: string)
    requires IsLiteral(pat)
    ensures MatchHere(pat, s) <==> |pat| <= |s| && s[..|pat|] == pat
    decreases |pat|
  {
    if pat != [] {
      assert pat[0] != '.' && !(|pat| >= 2 && pat[1] == '?');
      assert IsLiteral(pat[1..]);
      if s != [] {
        MatchHereLiteral(pat[1..], s[1..]);
        if |pat| <= |s| && s[..|pat|] == pat {
          assert s[1..][..|pat| - 1] == s[..|pat|][1..];
        }
        if CharMatches(pat[0], s[0]) && MatchHere(pat[1..], s[1..]) {
          assert s[..|pat|] == [s[0]] + s[1..][..|pat| - 1];
        }
      }
    }
  }

  /** A rule without special characters behaves as a plain substring test. */
  lemma {:induction false} SearchLiteral(pat: string, s: string)
    requires IsLiteral(pat)
    ensures Search(pat, s) <==> Occurs(pat, s)
    decreases |s|
  {
    MatchHereLiteral(pat, s);
    if s != [] {
      SearchLiteral(pat, s[1..]);
    }
    if Search(pat, s) {
      if MatchHere(pat, s) {
        assert OccursAt(pat, s, 0);
      } else {
        var i :| OccursAt(pat, s[1..], i);
        assert s[1..][i..i + |pat|] == s[i + 1..i + 1 + |pat|];
        assert OccursAt(pat, s, i + 1);
      }
    }
    if Occurs(pat, s) {
      var i :| OccursAt(pat, s, i);
      if i == 0 {
        assert s[..|pat|] == pat;
      } else {
        assert s[1..][i - 1..i - 1 + |pat|] == s[i..i + |pat|];
        assert OccursAt(pat, s[1..], i - 1);
      }
    }
  }

  // ---------------------------------------------------------------------------
  // The default rules

  /** `EXCLUDED_FILES`: operating-system metadata files. */
  const ExcludedFiles: seq<string> :=
    [".DS_Store", ".DS_Store?", ".Spotlight-V100", ".Trashes", "ehthumbs.db", "Thumbs.db"]

  /** `EXCLUDED_DIRECTORIES`: version-control and dependency directories. */
  const ExcludedDirectories: seq<string> := [".git", "node_modules", "vendor"]

  /** Every default rule lies in the fragment that `FragmentTest` interprets exactly. */
  lemma DefaultsInFragment()
    ensures forall i :: 0 <= i < |ExcludedFiles| ==> InFragment(ExcludedFiles[i])
    ensures forall i :: 0 <= i < |ExcludedDirectories| ==> InFragment(ExcludedDirectories[i])
  {
    FileRulesInFragment();
    DirectoryRulesInFragment();
  }

  lemma FileRulesInFragment()
    ensures InFragment(".DS_Store") && InFragment(".DS_Store?") && InFragment(".Spotlight-V100")
    ensures InFragment(".Trashes") && InFragment("ehthumbs.db") && InFragment("Thumbs.db")
  {
    assert InFragment(".DS_Store") && InFragment(".DS_Store?");
    assert InFragment(".Spotlight-V100");
    assert InFragment(".Trashes") && InFragment("ehthumbs.db") && InFragment("Thumbs.db");
  }

  lemma DirectoryRulesInFragment()
    ensures InFragment(".git") && InFragment("node_modules") && InFragment("vendor")
  {
  }

  /** A run of literal characters at the start of `s`, then a pattern that matches what follows it. */
  lemma {:induction false} MatchHereThroughLiteral(lit: string, tail: string, s: string)
    requires IsLiteral(lit) && (tail == [] || tail[0] != '?')
    requires |lit| <= |s| && s[..|lit|] == lit && MatchHere(tail, s[|lit|..])
    ensures MatchHere(lit + tail, s)
    decreases |lit|
  {
    if lit == [] {
      assert lit + tail == tail && s[|lit|..] == s;
    } else {
      var p := lit + tail;
      assert p[0] == lit[0] && p[1..] == lit[1..] + tail;
      assert IsLiteral(lit[1..]);
      assert s[1..][..|lit| - 1] == lit[1..] && s[1..][|lit| - 1..] == s[|lit|..];
      MatchHereThroughLiteral(lit[1..], tail, s[1..]);
    }
  }

  /**
   * A pattern whose second character is a plain character that must be
   * present (neither it nor the next is made optional) misses every name
   * without that character.
   */
  lemma {:induction false} MissWithoutSecondChar(pat: string, s: string)
    requires |pat| >= 3 && !IsMeta(pat[1]) && pat[2] != '?'
    requires pat[1] !in s
    ensures !Search(pat, s)
    decreases |s|
  {
    if s != [] {
      assert !MatchHere(pat[1..], s[1..]) by {
        assert pat[1..][0] == pat[1] && pat[1..][1] == pat[2];
        if |s| >= 2 {
          assert s[1] in s;
          assert !CharMatches(pat[1], s[1..][0]);
        }
      }
      assert pat[1] !in s[1..] by {
        assert forall k :: 0 <= k < |s[1..]| ==> s[1..][k] == s[k + 1];
      }
      MissWithoutSecondChar(pat, s[1..]);
    }
  }

  /**
   * The default rules are patterns, not names: `.` in `.git` matches any
   * character, so a directory named `digit` is excluded by default.
   */
  lemma DefaultRulesExcludeDigit()
    ensures ContentMatch("digit", ExcludedDirectories, FragmentTest) == Matched
  {
    assert MatchHere("git", "git") by {
      MatchHereThroughLiteral("git", "", "git");
      assert "git" + "" == "git";
    }
    assert MatchHere(".git", "igit");
    assert Search(".git", "digit");
  }

  /** No default file rule matches `keep.txt`. */
  lemma DefaultRulesKeepSampleFile()
    ensures ContentMatch("keep.txt", ExcludedFiles, FragmentTest) == Unmatched
  {
    ContentMatchSpec("keep.txt", ExcludedFiles, FragmentTest);
    forall i | 0 <= i < |ExcludedFiles|
      ensures FragmentTest(ExcludedFiles[i], "keep.txt") == Miss
    {
      NoMatchOnSampleFile(ExcludedFiles[i]);
    }
  }

  lemma NoMatchOnSampleFile(rule: string)
    requires rule in ExcludedFiles
    ensures FragmentTest(rule, "keep.txt") == Miss
  {
    assert rule[0] != '?' && |rule| >= 3 && !IsMeta(rule[1]) && rule[2] != '?';
    assert rule[1] !in "keep.txt";
    MissWithoutSecondChar(rule, "keep.txt");
  }

  /** The default rules exclude a file named `.DS_Store`. */
  lemma DefaultRulesExcludeDsStore()
    ensures ContentMatch(".DS_Store", ExcludedFiles, FragmentTest) == Matched
  {
    assert MatchHere("DS_Store", "DS_Store") by {
      MatchHereThroughLiteral("DS_Store", "", "DS_Store");
      assert "DS_Store" + "" == "DS_Store";
    }
    assert MatchHere(".DS_Store", ".DS_Store");
  }

  /** The default rules exclude a directory named `node_modules`: `.git` misses it, `node_modules` hits. */
  lemma DefaultRulesExcludeNodeModules()
    ensures ContentMatch("node_modules", ExcludedDirectories, FragmentTest) == Matched
  {
    GitMissesNodeModules();
    NodeModulesHitsItself();
    SecondRuleDecides("node_modules", ExcludedDirectories, FragmentTest);
  }

  /** `.git` needs a `g` after its first character, and `node_modules` has none. */
  lemma GitMissesNodeModules()
    ensures FragmentTest(".git", "node_modules") == Miss
  {
    var name := "node_modules";
    assert 'g' !in name;
    MissWithoutSecondChar(".git", name);
  }

  /** The rule `node_modules` is plain text, so it hits the name `node_modules`. */
  lemma NodeModulesHitsItself()
    ensures FragmentTest("node_modules", "node_modules") == Hit
  {
    assert IsLiteral("node_modules");
    MatchHereLiteral("node_modules", "node_modules");
  }

  /** When the first rule misses, the second one's answer is `contentMatch`'s answer (if it does not miss). */
  lemma SecondRuleDecides(content: string, rules: seq<string>, regex: Engine)
    requires |rules| >= 2 && regex(rules[0], content) == Miss && regex(rules[1], content) != Miss
    ensures ContentMatch(content, rules, regex) == if regex(rules[1], content) == Hit then Matched else Raised
  {
    assert rules[1..][0] == rules[1];
  }

  /** `.DS_Store?` makes the final `e` optional: it matches `.DS_Stor` as well. */
  lemma OptionalMatchesShorterName()
    ensures FragmentTest(".DS_Store?", ".DS_Stor") == Hit
  {
    var rule, name := ".DS_Store?", ".DS_Stor";
    assert MatchHere(rule[1..], name[1..]) by {
      assert rule[1..] == "DS_Stor" + "e?" && name[1..] == "DS_Stor";
      assert MatchHere("e?", "");
      MatchHereThroughLiteral("DS_Stor", "e?", "DS_Stor");
    }
    assert MatchHere(rule, name) by {
      assert rule[0] == '.' && rule[1] != '?' && name != [];
    }
    assert Search(rule, name);
  }

  /** With a rule that cannot be compiled, the rule order decides between true and an exception. */
  lemma OrderMattersWithInvalidRule()
    ensures ContentMatch("a", ["a", "?"], FragmentTest) == Matched
    ensures ContentMatch("a", ["?", "a"], FragmentTest) == Raised
  {
    assert MatchHere("a", "a");
  }
}
