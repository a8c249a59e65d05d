/** Path patterns of mutability policies (policy/types.rs). */
module Glob {
  import opened Wrappers

  datatype DeleteBehavior = Immediate | Soft | Reject

  datatype ExpiryBehavior = Purge | Hold

  datatype PolicyRule = PolicyRule(
    pathPattern: string,
    onDelete: DeleteBehavior,
    recordChanges: bool,
    mutable: bool,
    retentionSecs: Option<nat>,
    onExpiry: ExpiryBehavior)

  // ----- The matcher -----

  /** The parts between separators; always at least one. */
  function Split(s: string, sep: char): (parts: seq<string>)
    ensures parts != []
  {
    if s == "" then [""]
    else
      var rest := Split(s[1..], sep);
      if s[0] == sep then [""] + rest else [[s[0]] + rest[0]] + rest[1..]
  }

  predicate MatchSegment(pattern: string, segment: string) {
    if pattern == "*" then true
    else if "*" <= pattern then
      var suffix := pattern[1..];
      |suffix| <= |segment| && segment[|segment| - |suffix|..] == suffix
    else if pattern != "" && pattern[|pattern| - 1] == '*' then
      pattern[..|pattern| - 1] <= segment
    else pattern == segment
  }

  predicate MatchParts(pattern: seq<string>, path: seq<string>)
    decreases |pattern|
  {
    if pattern == [] then path == []
    else if pattern[0] == "**" then
      exists i | 0 <= i <= |path| :: MatchParts(pattern[1..], path[i..])
    else if path == [] then false
    else MatchSegment(pattern[0], path[0]) && MatchParts(pattern[1..], path[1..])
  }

  predicate Matches(pattern: string, path: string) {
    if pattern == "**" || pattern == "**/*" then true
    else MatchParts(Split(pattern, '/'), Split(path, '/'))
  }

  /** The first rule whose pattern matches the path. */
  function MatchRule(rules: seq<PolicyRule>, path: string): (r: Option<PolicyRule>) {
    if rules == [] then None
    else if Matches(rules[0].pathPattern, path) then Some(rules[0])
    else MatchRule(rules[1..], path)
  }

  // ----- What matching means -----

  function Join(parts: seq<string>, sep: char): string {
    if parts == [] then ""
    else if |parts| == 1 then parts[0]
    else parts[0] + [sep] + Join(parts[1..], sep)
  }

  /** Splitting yields the one list of separator-free parts that joins back to the string. */
  lemma {:induction false} SplitIsExact(s: string, sep: char, parts: seq<string>)
    ensures parts == Split(s, sep) <==>
            parts != [] && Join(parts, sep) == s && forall k | 0 <= k < |parts| :: sep !in parts[k]
  {
    SplitJoins(s, sep);
    if parts != [] && Join(parts, sep) == s && (forall k | 0 <= k < |parts| :: sep !in parts[k]) {
      JoinSplits(parts, sep);
    }
  }

  lemma {:induction false} SplitJoins(s: string, sep: char)
    ensures Join(Split(s, sep), sep) == s
    ensures forall k | 0 <= k < |Split(s, sep)| :: sep !in Split(s, sep)[k]
  {
    if s != "" {
      var rest := Split(s[1..], sep);
      SplitJoins(s[1..], sep);
      var parts := Split(s, sep);
      if s[0] == sep {
        assert parts[1..] == rest;
      } else if |rest| > 1 {
        assert parts[1..] == rest[1..];
        assert s == [s[0]] + rest[0] + [sep] + Join(rest[1..], sep);
      }
    }
  }

  lemma {:induction false} JoinSplits(parts: seq<string>, sep: char)
    requires parts != [] && forall k | 0 <= k < |parts| :: sep !in parts[k]
    ensures Split(Join(parts, sep), sep) == parts
  {
    if |parts| == 1 {
      SplitAtom(parts[0], sep);
    } else {
      JoinSplits(parts[1..], sep);
      SplitAfter(parts[0], Join(parts[1..], sep), sep);
      assert parts == [parts[0]] + parts[1..];
    }
  }

  lemma {:induction false} SplitAtom(part: string, sep: char)
    requires sep !in part
    ensures Split(part, sep) == [part]
  {
    if part != "" {
      SplitAtom(part[1..], sep);
      assert part[0] in part;
      assert [part[0]] + part[1..] == part;
    }
  }

  lemma {:induction false} SplitAfter(part: string, rest: string, sep: char)
    requires sep !in part
    ensures Split(part + [sep] + rest, sep) == [part] + Split(rest, sep)
  {
    var s := part + [sep] + rest;
    if part == "" {
      assert s[1..] == rest;
    } else {
      assert part[0] in part;
      SplitAfter(part[1..], rest, sep);
      assert s[1..] == part[1..] + [sep] + rest;
      assert [part[0]] + part[1..] == part;
      assert Split(s[1..], sep)[1..] == Split(rest, sep);
    }
  }

  ghost predicate EndsWith(s: string, suffix: string) {
    exists n | 0 <= n <= |s| :: s[n..] == suffix
  }

  ghost predicate StartsWith(s: string, prefix: string) {
    exists n | 0 <= n <= |s| :: s[..n] == prefix
  }

  /** One star at the start or at the end of a pattern stands for any string; every other star for itself. */
  lemma SegmentMeaning(pattern: string, segment: string)
    ensures MatchSegment(pattern, segment) <==>
            if pattern != "" && pattern[0] == '*' then EndsWith(segment, pattern[1..])
            else if pattern != "" && pattern[|pattern| - 1] == '*' then StartsWith(segment, pattern[..|pattern| - 1])
            else segment == pattern
  {
    if pattern != "" && pattern[0] == '*' {
      var suffix := pattern[1..];
      if |pattern| == 1 {
        assert pattern == "*" && segment[|segment|..] == suffix;
      } else if |suffix| <= |segment| {
        assert MatchSegment(pattern, segment) <==> segment[|segment| - |suffix|..] == suffix;
      }
    } else if pattern != "" && pattern[|pattern| - 1] == '*' {
      var prefix := pattern[..|pattern| - 1];
      assert MatchSegment(pattern, segment) <==> prefix <= segment;
      if prefix <= segment {
        assert segment[..|prefix|] == prefix;
      }
    }
  }

  /**
   cuts[k]..cuts[k + 1] is the piece of the path that part k of the pattern stands
   for: any run of segments for a double star, one matching segment otherwise.
   */
  ghost predicate Covers(pattern: seq<string>, path: seq<string>, cuts: seq<nat>) {
    && |cuts| == |pattern| + 1
    && cuts[0] == 0 && cuts[|pattern|] == |path|
    && forall k | 0 <= k < |pattern| :: PieceFits(pattern[k], path, cuts[k], cuts[k + 1])
  }

  ghost predicate PieceFits(part: string, path: seq<string>, start: nat, end: nat) {
    && start <= end <= |path|
    && (part != "**" ==> end == start + 1 && MatchSegment(part, path[start]))
  }

  lemma {:induction false} MatchGivesPieces(pattern: seq<string>, path: seq<string>) returns (cuts: seq<nat>)
    requires MatchParts(pattern, path)
    ensures Covers(pattern, path, cuts)
    decreases |pattern|
  {
    if pattern == [] {
      cuts := [0];
    } else {
      var n: nat := 1;
      if pattern[0] == "**" {
        n :| 0 <= n <= |path| && MatchParts(pattern[1..], path[n..]);
      }
      var tail := MatchGivesPieces(pattern[1..], path[n..]);
      cuts := [0] + seq(|tail|, k requires 0 <= k < |tail| => tail[k] + n);
      forall k | 0 <= k < |pattern|
        ensures PieceFits(pattern[k], path, cuts[k], cuts[k + 1])
      {
        if k > 0 {
          assert PieceFits(pattern[1..][k - 1], path[n..], tail[k - 1], tail[k]);
        }
      }
    }
  }

  lemma {:induction false} PiecesGiveMatch(pattern: seq<string>, path: seq<string>, cuts: seq<nat>)
    requires Covers(pattern, path, cuts)
    ensures MatchParts(pattern, path)
    decreases |pattern|
  {
    if pattern != [] {
      assert PieceFits(pattern[0], path, cuts[0], cuts[1]);
      CutsGrow(pattern, path, cuts, |pattern|);
      var n := cuts[1];
      var tail := seq(|cuts| - 1, k requires 0 <= k < |cuts| - 1 => CutPast(cuts, k, n));
      forall k | 0 <= k < |pattern| - 1
        ensures PieceFits(pattern[1..][k], path[n..], tail[k], tail[k + 1])
      {
        CutsGrow(pattern, path, cuts, k + 1);
        assert PieceFits(pattern[k + 1], path, cuts[k + 1], cuts[k + 2]);
      }
      PiecesGiveMatch(pattern[1..], path[n..], tail);
    }
  }

  /** Cut k + 1, counted from position n on. */
  ghost function CutPast(cuts: seq<nat>, k: nat, n: nat): nat
    requires k < |cuts| - 1
  {
    if cuts[k + 1] >= n then cuts[k + 1] - n else 0
  }

  lemma {:induction false} CutsGrow(pattern: seq<string>, path: seq<string>, cuts: seq<nat>, k: nat)
    requires Covers(pattern, path, cuts) && 1 <= k <= |pattern|
    ensures cuts[1] <= cuts[k]
  {
    if k > 1 {
      CutsGrow(pattern, path, cuts, k - 1);
      assert PieceFits(pattern[k - 1], path, cuts[k - 1], cuts[k]);
    }
  }

  /** A path matches exactly when its segments split into pieces that fit the pattern. */
  lemma MatchMeansCover(pattern: seq<string>, path: seq<string>)
    ensures MatchParts(pattern, path) <==> exists cuts :: Covers(pattern, path, cuts)
  {
    if MatchParts(pattern, path) {
      var cuts := MatchGivesPieces(pattern, path);
    }
    if cuts :| Covers(pattern, path, cuts) {
      PiecesGiveMatch(pattern, path, cuts);
    }
  }

  /** The two shortcuts change nothing: the general matcher accepts every path for them too. */
  lemma ShortcutsAgree(pattern: string, path: string)
    ensures Matches(pattern, path) <==> MatchParts(Split(pattern, '/'), Split(path, '/'))
  {
    var segments := Split(path, '/');
    if pattern == "**" {
      SplitIsExact("**", '/', ["**"]);
      PiecesGiveMatch(["**"], segments, [0, |segments|]);
    } else if pattern == "**/*" {
      assert Join(["**", "*"], '/') == "**" + "/" + Join(["*"], '/');
      SplitIsExact("**/*", '/', ["**", "*"]);
      var cuts := [0, |segments| - 1, |segments|];
      assert PieceFits("**", segments, 0, |segments| - 1);
      assert PieceFits("*", segments, |segments| - 1, |segments|);
      PiecesGiveMatch(["**", "*"], segments, cuts);
    }
  }

  /** The rule found is the matching one of least index. */
  lemma {:induction false} FirstMatchWins(rules: seq<PolicyRule>, path: string)
    ensures MatchRule(rules, path) == None <==> forall k | 0 <= k < |rules| :: !Matches(rules[k].pathPattern, path)
    ensures MatchRule(rules, path).Some? <==>
            exists i | 0 <= i < |rules| :: FirstMatch(rules, path, i) && MatchRule(rules, path) == Some(rules[i])
  {
    if rules != [] {
      FirstMatchWins(rules[1..], path);
      if Matches(rules[0].pathPattern, path) {
        assert FirstMatch(rules, path, 0);
      } else if MatchRule(rules[1..], path).Some? {
        var i :| 0 <= i < |rules[1..]| && FirstMatch(rules[1..], path, i)
                 && MatchRule(rules[1..], path) == Some(rules[1..][i]);
        forall k | 0 <= k < i + 1
          ensures !Matches(rules[k].pathPattern, path)
        {
          if k > 0 {
            assert rules[k] == rules[1..][k - 1];
          }
        }
        assert FirstMatch(rules, path, i + 1);
      } else {
        forall k | 0 <= k < |rules|
          ensures !Matches(rules[k].pathPattern, path)
        {
          if k > 0 {
            assert rules[k] == rules[1..][k - 1];
          }
        }
      }
    }
  }

  ghost predicate FirstMatch(rules: seq<PolicyRule>, path: string, i: int) {
    && 0 <= i < |rules|
    && Matches(rules[i].pathPattern, path)
    && forall k | 0 <= k < i :: !Matches(rules[k].pathPattern, path)
  }
}
