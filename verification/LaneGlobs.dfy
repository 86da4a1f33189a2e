/**
 The segment glob matcher of `lane_done.py` and the ownership ceiling built on it.
 The ceiling treats a declared pattern as if it were a path; the results below say
 for which required globs that is sound.
 */
module LaneGlobs {

  /** Which characters a bracket expression accepts; nothing below depends on it. */
  type ClassTest = (string, char) -> bool

  const GLOBSTAR := "**"
  const STAR := "*"

  // ----- fnmatch on one segment -----

  predicate IsMeta(c: char) {
    c == '*' || c == '?' || c == '['
  }

  predicate MetaFree(s: string) {
    forall c | c in s :: !IsMeta(c)
  }

  /** Position of the `]` that closes the bracket opened at 0, at or after `from`; -1 if it is never closed. */
  function ClosingFrom(pat: string, from: nat): (j: int)
    requires from <= |pat|
    ensures -1 <= j < |pat|
    ensures j >= 0 ==> j >= from && pat[j] == ']'
    decreases |pat| - from
  {
    if from == |pat| then -1 else if pat[from] == ']' then from else ClosingFrom(pat, from + 1)
  }

  /** A `!` and then a `]` right after the bracket do not close it. */
  function ClassEnd(pat: string): (j: int)
    requires pat != []
    ensures -1 <= j < |pat|
    ensures j >= 0 ==> j >= 1 && pat[j] == ']'
  {
    var a := if |pat| > 1 && pat[1] == '!' then 2 else 1;
    var b := if a < |pat| && pat[a] == ']' then a + 1 else a;
    ClosingFrom(pat, b)
  }

  predicate Fnmatch(t: ClassTest, s: string, pat: string)
    decreases |s| + |pat|
  {
    if pat == [] then s == []
    else if pat[0] == '*' then Fnmatch(t, s, pat[1..]) || (s != [] && Fnmatch(t, s[1..], pat))
    else if s == [] then false
    else if pat[0] == '?' then Fnmatch(t, s[1..], pat[1..])
    else if pat[0] == '[' && ClassEnd(pat) >= 0 then
      t(pat[1..ClassEnd(pat)], s[0]) && Fnmatch(t, s[1..], pat[ClassEnd(pat) + 1..])
    else s[0] == pat[0] && Fnmatch(t, s[1..], pat[1..])
  }

  lemma {:induction false} ClosingFromMeans(pat: string, from: nat, j: nat)
    requires from <= j < |pat| && pat[j] == ']' && forall k | from <= k < j :: pat[k] != ']'
    ensures ClosingFrom(pat, from) == j
    decreases j - from
  {
    if from < j {
      ClosingFromMeans(pat, from + 1, j);
    }
  }

  /**
   A bracket expression takes one character and hands it, with everything between the
   brackets, to the class test. A `]` in first place, or after a `!` in first place,
   belongs to the class.
   */
  lemma BracketMatches(t: ClassTest, s: string, lead: string, body: string, rest: string)
    requires lead == "" || lead == "!" || lead == "]" || lead == "!]"
    requires ']' !in body && (lead == "" || lead == "!" ==> body != []) && (lead == "" ==> body[0] != '!')
    ensures Fnmatch(t, s, "[" + lead + body + "]" + rest) <==>
              s != [] && t(lead + body, s[0]) && Fnmatch(t, s[1..], rest)
  {
    var inner := lead + body;
    var pat := "[" + inner + "]" + rest;
    assert "[" + lead + body + "]" + rest == pat;
    var j := 1 + |inner|;
    assert pat[j] == ']' && forall k | 1 <= k < j :: pat[k] == inner[k - 1];
    BracketEnd(pat, inner, lead, body);
    assert pat[1..j] == inner && pat[j + 1..] == rest;
  }

  lemma BracketEnd(pat: string, inner: string, lead: string, body: string)
    requires lead == "" || lead == "!" || lead == "]" || lead == "!]"
    requires ']' !in body && (lead == "" || lead == "!" ==> body != []) && (lead == "" ==> body[0] != '!')
    requires inner == lead + body && |pat| > 1 + |inner| && pat[1 + |inner|] == ']'
    requires forall k | 1 <= k < 1 + |inner| :: pat[k] == inner[k - 1]
    ensures ClassEnd(pat) == 1 + |inner|
  {
    forall k | 1 + |lead| <= k < 1 + |inner| ensures pat[k] != ']' {
      assert pat[k] == body[k - 1 - |lead|];
    }
    ClosingFromMeans(pat, 1 + |lead|, 1 + |inner|);
    if body != [] {
      assert pat[1 + |lead|] == body[0] && body[0] != ']';
    }
    if lead != "" {
      assert pat[1] == lead[0];
    }
    if |lead| == 2 {
      assert pat[2] == lead[1];
    }
  }

  /** Without a closing `]` the bracket is an ordinary character; `?` takes any one character. */
  lemma OpenBracketAndAnyMatch(t: ClassTest, s: string, rest: string)
    ensures ']' !in rest ==> (Fnmatch(t, s, "[" + rest) <==> s != [] && s[0] == '[' && Fnmatch(t, s[1..], rest))
    ensures Fnmatch(t, s, "?" + rest) <==> s != [] && Fnmatch(t, s[1..], rest)
  {
    assert ("[" + rest)[1..] == rest && ("?" + rest)[1..] == rest;
    assert forall k | 1 <= k < |"[" + rest| :: ("[" + rest)[k] in rest;
  }

  // ----- the segment matcher -----

  predicate MatchParts(t: ClassTest, path: seq<string>, pattern: seq<string>)
    decreases |path| + |pattern|
  {
    if pattern == [] then path == []
    else if pattern[0] == GLOBSTAR then
      MatchParts(t, path, pattern[1..]) || (path != [] && MatchParts(t, path[1..], pattern))
    else path != [] && Fnmatch(t, path[0], pattern[0]) && MatchParts(t, path[1..], pattern[1..])
  }

  // ----- what the matcher is for -----

  /** `**` takes any run of path segments, every other pattern segment exactly one it matches. */
  predicate Takes(t: ClassTest, segment: string, run: seq<string>) {
    segment == GLOBSTAR || (|run| == 1 && Fnmatch(t, run[0], segment))
  }

  function Joined(runs: seq<seq<string>>): seq<string> {
    if runs == [] then [] else runs[0] + Joined(runs[1..])
  }

  /** `runs` cuts the path into one run of segments per pattern segment. */
  predicate SplitInto(t: ClassTest, path: seq<string>, pattern: seq<string>, runs: seq<seq<string>>) {
    && |runs| == |pattern| && Joined(runs) == path
    && forall i | 0 <= i < |pattern| :: Takes(t, pattern[i], runs[i])
  }

  lemma SplitCons(t: ClassTest, run: seq<string>, rest: seq<string>, pattern: seq<string>, runs: seq<seq<string>>)
    requires pattern != [] && Takes(t, pattern[0], run) && SplitInto(t, rest, pattern[1..], runs)
    ensures SplitInto(t, run + rest, pattern, [run] + runs)
  {
    assert ([run] + runs)[1..] == runs;
    forall i | 0 <= i < |pattern| ensures Takes(t, pattern[i], ([run] + runs)[i]) {
      if i > 0 {
        assert pattern[1..][i - 1] == pattern[i];
      }
    }
  }

  lemma {:induction false} MatchGivesSplit(t: ClassTest, path: seq<string>, pattern: seq<string>)
      returns (runs: seq<seq<string>>)
    requires MatchParts(t, path, pattern)
    ensures SplitInto(t, path, pattern, runs)
    decreases |path| + |pattern|
  {
    if pattern == [] {
      runs := [];
    } else if pattern[0] == GLOBSTAR && MatchParts(t, path, pattern[1..]) {
      var rest := MatchGivesSplit(t, path, pattern[1..]);
      SplitCons(t, [], path, pattern, rest);
      assert [] + path == path;
      runs := [[]] + rest;
    } else if pattern[0] == GLOBSTAR {
      var rest := MatchGivesSplit(t, path[1..], pattern);
      assert [path[0]] + path[1..] == path;
      assert [path[0]] + (rest[0] + Joined(rest[1..])) == ([path[0]] + rest[0]) + Joined(rest[1..]);
      runs := [[path[0]] + rest[0]] + rest[1..];
      assert runs[1..] == rest[1..];
    } else {
      var rest := MatchGivesSplit(t, path[1..], pattern[1..]);
      SplitCons(t, [path[0]], path[1..], pattern, rest);
      assert [path[0]] + path[1..] == path;
      runs := [[path[0]]] + rest;
    }
  }

  lemma {:induction false} SplitGivesMatch(t: ClassTest, path: seq<string>, pattern: seq<string>,
      runs: seq<seq<string>>)
    requires SplitInto(t, path, pattern, runs)
    ensures MatchParts(t, path, pattern)
    decreases |pattern|
  {
    if pattern != [] {
      var rest := Joined(runs[1..]);
      assert path[|runs[0]|..] == rest;
      assert Takes(t, pattern[0], runs[0]);
      forall i | 0 <= i < |pattern[1..]| ensures Takes(t, pattern[1..][i], runs[1..][i]) {
        assert Takes(t, pattern[i + 1], runs[i + 1]);
      }
      SplitGivesMatch(t, rest, pattern[1..], runs[1..]);
      if pattern[0] == GLOBSTAR {
        GlobstarAbsorbs(t, path, pattern, |runs[0]|);
      }
    }
  }

  lemma {:induction false} GlobstarAbsorbs(t: ClassTest, path: seq<string>, pattern: seq<string>, n: nat)
    requires pattern != [] && pattern[0] == GLOBSTAR && n <= |path|
    requires MatchParts(t, path[n..], pattern[1..])
    ensures MatchParts(t, path, pattern)
    decreases n
  {
    if n == 0 {
      assert path[0..] == path;
    } else {
      assert path[1..][n - 1..] == path[n..];
      GlobstarAbsorbs(t, path[1..], pattern, n - 1);
    }
  }

  /** The recursive matcher is exactly "the pattern segments split the path". */
  lemma MatchIffSplit(t: ClassTest, path: seq<string>, pattern: seq<string>)
    ensures MatchParts(t, path, pattern) <==> exists runs :: SplitInto(t, path, pattern, runs)
  {
    if MatchParts(t, path, pattern) {
      var runs := MatchGivesSplit(t, path, pattern);
    }
    forall runs | SplitInto(t, path, pattern, runs) ensures MatchParts(t, path, pattern) {
      SplitGivesMatch(t, path, pattern, runs);
    }
  }

  // ----- when treating a pattern as a path is sound -----

  /** Whatever pattern segment is judged covered by `r` denotes only segments that `r` matches. */
  ghost predicate SoundSegment(t: ClassTest, r: string) {
    forall d | Fnmatch(t, d, r) :: d != GLOBSTAR && forall s | Fnmatch(t, s, d) :: Fnmatch(t, s, r)
  }

  ghost predicate SoundGlob(t: ClassTest, required: seq<string>) {
    forall r | r in required :: r == GLOBSTAR || SoundSegment(t, r)
  }

  /** Coverage is transitive through a declared pattern when every required segment is sound. */
  lemma {:induction false} CoverageTransfers(t: ClassTest, file: seq<string>, declared: seq<string>,
      required: seq<string>)
    requires SoundGlob(t, required)
    requires MatchParts(t, declared, required) && MatchParts(t, file, declared)
    ensures MatchParts(t, file, required)
    decreases |file| + |declared| + |required|
  {
    if required == [] {
    } else if required[0] == GLOBSTAR {
      if MatchParts(t, declared, required[1..]) {
        CoverageTransfers(t, file, declared, required[1..]);
      } else if declared[0] == GLOBSTAR && MatchParts(t, file, declared[1..]) {
        CoverageTransfers(t, file, declared[1..], required);
      } else if declared[0] == GLOBSTAR {
        CoverageTransfers(t, file[1..], declared, required);
      } else {
        CoverageTransfers(t, file[1..], declared[1..], required);
      }
    } else {
      assert required[0] in required;
      CoverageTransfers(t, file[1..], declared[1..], required[1..]);
    }
  }

  // ----- which segments are sound -----

  lemma {:induction false} LiteralMatches(t: ClassTest, s: string, r: string)
    requires MetaFree(r)
    ensures Fnmatch(t, s, r) <==> s == r
    decreases |r|
  {
    if r != [] {
      assert r[0] in r;
      if s != [] {
        assert forall c | c in r[1..] :: c in r;
        LiteralMatches(t, s[1..], r[1..]);
        assert s == [s[0]] + s[1..] && r == [r[0]] + r[1..];
      }
    }
  }

  lemma LiteralIsSound(t: ClassTest, r: string)
    requires MetaFree(r)
    ensures SoundSegment(t, r)
  {
    forall d | Fnmatch(t, d, r) ensures d != GLOBSTAR && forall s | Fnmatch(t, s, d) :: Fnmatch(t, s, r) {
      LiteralMatches(t, d, r);
      assert GLOBSTAR[0] in GLOBSTAR;
    }
  }

  /** A metacharacter-free prefix of a pattern is a prefix of everything the pattern matches. */
  lemma {:induction false} PrefixPeels(t: ClassTest, s: string, prefix: string, rest: string)
    requires MetaFree(prefix)
    ensures Fnmatch(t, s, prefix + rest) <==> prefix <= s && Fnmatch(t, s[|prefix|..], rest)
    decreases |prefix|
  {
    if prefix == [] {
      assert prefix + rest == rest;
      assert s[0..] == s;
    } else {
      assert prefix[0] in prefix;
      assert (prefix + rest)[1..] == prefix[1..] + rest;
      if s != [] {
        assert forall c | c in prefix[1..] :: c in prefix;
        PrefixPeels(t, s[1..], prefix[1..], rest);
        assert s == [s[0]] + s[1..] && prefix == [prefix[0]] + prefix[1..];
        if prefix <= s {
          assert s[1..][|prefix| - 1..] == s[|prefix|..];
        }
      }
    }
  }

  predicate EndsWith(s: string, suffix: string) {
    |suffix| <= |s| && s[|s| - |suffix|..] == suffix
  }

  lemma {:induction false} StarSuffix(t: ClassTest, s: string, suffix: string)
    requires MetaFree(suffix)
    ensures Fnmatch(t, s, STAR + suffix) <==> EndsWith(s, suffix)
    decreases |s|
  {
    assert (STAR + suffix)[1..] == suffix;
    LiteralMatches(t, s, suffix);
    if s != [] {
      StarSuffix(t, s[1..], suffix);
      if |suffix| < |s| {
        assert s[1..][|s| - 1 - |suffix|..] == s[|s| - |suffix|..];
      }
    }
  }

  lemma EndsWithTail(s: string, k: nat, suffix: string)
    requires k <= |s| && EndsWith(s[k..], suffix)
    ensures EndsWith(s, suffix)
  {
    assert s[k..][|s| - k - |suffix|..] == s[|s| - |suffix|..];
  }

  lemma TailEndsWith(s: string, k: nat, suffix: string)
    requires EndsWith(s, suffix) && k <= |s| - |suffix|
    ensures EndsWith(s[k..], suffix)
  {
    assert s[k..][|s| - k - |suffix|..] == s[|s| - |suffix|..];
  }

  /** One step of a match: `k` characters of the text against `m` of the pattern, a longer piece ending at its `]`. */
  lemma MatchStep(t: ClassTest, s: string, pat: string) returns (k: nat, m: nat)
    requires pat != [] && Fnmatch(t, s, pat)
    ensures k <= 1 && k <= |s| && m <= |pat| && k + m > 0
    ensures m > 1 ==> pat[m - 1] == ']'
    ensures Fnmatch(t, s[k..], pat[m..])
  {
    if pat[0] == '*' {
      if Fnmatch(t, s, pat[1..]) {
        k, m := 0, 1;
        assert s[0..] == s;
      } else {
        k, m := 1, 0;
        assert pat[0..] == pat;
      }
    } else if pat[0] == '[' && ClassEnd(pat) >= 0 {
      k, m := 1, ClassEnd(pat) + 1;
    } else {
      k, m := 1, 1;
    }
  }

  /**
   A plain suffix of a pattern, with no `]` that an earlier bracket could claim, ends
   everything the pattern matches.
   */
  lemma {:induction false} SuffixSurvives(t: ClassTest, s: string, pat: string, suffix: string)
    requires MetaFree(suffix) && ']' !in suffix && EndsWith(pat, suffix)
    requires Fnmatch(t, s, pat)
    ensures EndsWith(s, suffix)
    decreases |s| + |pat|
  {
    if |pat| == |suffix| {
      assert pat == suffix;
      LiteralMatches(t, s, suffix);
    } else {
      var k, m := MatchStep(t, s, pat);
      TailEndsWith(pat, m, suffix);
      SuffixSurvives(t, s[k..], pat[m..], suffix);
      EndsWithTail(s, k, suffix);
    }
  }

  /** One star between plain texts, not both empty, and no `]` after the star: `feature.*`, `*.py`, `test_*.py`. */
  predicate OneStar(prefix: string, suffix: string) {
    MetaFree(prefix) && MetaFree(suffix) && ']' !in suffix && prefix + suffix != []
  }

  lemma OneStarMatches(t: ClassTest, s: string, prefix: string, suffix: string)
    requires OneStar(prefix, suffix)
    ensures Fnmatch(t, s, prefix + (STAR + suffix)) <==> prefix <= s && EndsWith(s[|prefix|..], suffix)
  {
    PrefixPeels(t, s, prefix, STAR + suffix);
    if prefix <= s {
      StarSuffix(t, s[|prefix|..], suffix);
    }
  }

  lemma OneStarIsSound(t: ClassTest, prefix: string, suffix: string)
    requires OneStar(prefix, suffix)
    ensures SoundSegment(t, prefix + (STAR + suffix))
  {
    forall d | Fnmatch(t, d, prefix + (STAR + suffix))
      ensures d != GLOBSTAR && forall s | Fnmatch(t, s, d) :: Fnmatch(t, s, prefix + (STAR + suffix))
    {
      OneStarMatches(t, d, prefix, suffix);
      CoveredHasText(d, prefix, suffix);
      forall s | Fnmatch(t, s, d) ensures Fnmatch(t, s, prefix + (STAR + suffix)) {
        CoveredTransfers(t, s, d, prefix, suffix);
      }
    }
  }

  lemma CoveredHasText(d: string, prefix: string, suffix: string)
    requires OneStar(prefix, suffix) && prefix <= d && EndsWith(d[|prefix|..], suffix)
    ensures d != [] && (d[0] != '*' || d[|d| - 1] != '*')
  {
    if prefix != [] {
      assert prefix[0] in prefix && d[0] == prefix[0];
    } else {
      assert suffix[|suffix| - 1] in suffix && d[|d| - 1] == suffix[|suffix| - 1];
    }
  }

  lemma CoveredTransfers(t: ClassTest, s: string, d: string, prefix: string, suffix: string)
    requires OneStar(prefix, suffix) && prefix <= d && EndsWith(d[|prefix|..], suffix) && Fnmatch(t, s, d)
    ensures Fnmatch(t, s, prefix + (STAR + suffix))
  {
    var tail := d[|prefix|..];
    assert d == prefix + tail;
    PrefixPeels(t, s, prefix, tail);
    SuffixSurvives(t, s[|prefix|..], tail, suffix);
    OneStarMatches(t, s, prefix, suffix);
  }

  /** The required segments a coordinator may use: plain text, `**`, or one star with plain text beside it. */
  ghost predicate CeilingSegment(r: string) {
    r == GLOBSTAR || MetaFree(r) || exists prefix, suffix :: OneStar(prefix, suffix) && r == prefix + (STAR + suffix)
  }

  lemma CeilingSegmentsAreSound(t: ClassTest, required: seq<string>)
    requires forall r | r in required :: CeilingSegment(r)
    ensures SoundGlob(t, required)
  {
    forall r | r in required && r != GLOBSTAR ensures SoundSegment(t, r) {
      if MetaFree(r) {
        LiteralIsSound(t, r);
      } else {
        var prefix, suffix :| OneStar(prefix, suffix) && r == prefix + (STAR + suffix);
        OneStarIsSound(t, prefix, suffix);
      }
    }
  }

  // ----- a bare `*` in the ceiling, exactly -----

  /** Plain text, `**`, one star beside plain text, and the bare `*`. */
  ghost predicate Documented(required: seq<string>) {
    forall r | r in required :: r == STAR || CeilingSegment(r)
  }

  lemma DocumentedKinds(literal: string, prefix: string, suffix: string)
    requires MetaFree(literal) && OneStar(prefix, suffix)
    ensures Documented([GLOBSTAR, STAR, literal, prefix + (STAR + suffix)])
  {
  }

  /** As text, such a segment is covered by itself. */
  lemma MatchesItself(t: ClassTest, r: string)
    requires CeilingSegment(r) && r != GLOBSTAR
    ensures Fnmatch(t, r, r)
  {
    if MetaFree(r) {
      LiteralMatches(t, r, r);
    } else {
      var prefix, suffix :| OneStar(prefix, suffix) && r == prefix + (STAR + suffix);
      OneStarMatches(t, r, prefix, suffix);
      assert r[|prefix|..] == STAR + suffix;
    }
  }

  function CountStars(required: seq<string>): nat {
    if required == [] then 0 else (if required[0] == STAR then 1 else 0) + CountStars(required[1..])
  }

  function Named(required: seq<string>): seq<string> {
    if required == [] then []
    else (if required[0] == STAR || required[0] == GLOBSTAR then [] else [required[0]]) + Named(required[1..])
  }

  /** What a lane would declare to get around the ceiling: every `*` written as `**`. */
  function Widened(required: seq<string>): seq<string> {
    if required == [] then []
    else [if required[0] == STAR then GLOBSTAR else required[0]] + Widened(required[1..])
  }

  lemma StarMatchesAnything(t: ClassTest, s: string)
    ensures Fnmatch(t, s, STAR)
  {
    assert STAR + [] == STAR;
    StarSuffix(t, s, []);
  }

  lemma {:induction false} WidenedIsCovered(t: ClassTest, required: seq<string>)
    requires Documented(required)
    ensures MatchParts(t, Widened(required), required)
  {
    if required != [] {
      var w := Widened(required);
      assert w[1..] == Widened(required[1..]);
      WidenedIsCovered(t, required[1..]);
      assert required[0] in required;
      if required[0] == STAR {
        StarMatchesAnything(t, GLOBSTAR);
      } else if required[0] != GLOBSTAR {
        MatchesItself(t, required[0]);
      } else {
        assert MatchParts(t, w[1..], required);
      }
    }
  }

  lemma {:induction false} NamedMatchWidened(t: ClassTest, required: seq<string>)
    requires Documented(required)
    ensures MatchParts(t, Named(required), Widened(required))
  {
    if required != [] {
      var w := Widened(required);
      assert w[1..] == Widened(required[1..]);
      NamedMatchWidened(t, required[1..]);
      assert required[0] in required;
      if required[0] == STAR || required[0] == GLOBSTAR {
        assert Named(required) == Named(required[1..]);
      } else {
        MatchesItself(t, required[0]);
        assert Named(required)[1..] == Named(required[1..]);
      }
    }
  }

  /** Every segment of a documented glob other than `**` costs one path segment. */
  lemma {:induction false} MatchNeedsLength(t: ClassTest, file: seq<string>, required: seq<string>)
    requires MatchParts(t, file, required)
    ensures |file| >= CountStars(required) + |Named(required)|
    decreases |file| + |required|
  {
    if required != [] {
      if required[0] == GLOBSTAR && !MatchParts(t, file, required[1..]) {
        MatchNeedsLength(t, file[1..], required);
      } else {
        MatchNeedsLength(t, if required[0] == GLOBSTAR then file else file[1..], required[1..]);
      }
    }
  }

  lemma {:induction false} GlobstarsMatchAnything(t: ClassTest, file: seq<string>, pattern: seq<string>)
    requires pattern != [] && forall r | r in pattern :: r == GLOBSTAR
    ensures MatchParts(t, file, pattern)
    decreases |file| + |pattern|
  {
    assert pattern[0] in pattern;
    if file != [] {
      GlobstarsMatchAnything(t, file[1..], pattern);
    } else if |pattern| > 1 {
      assert forall r | r in pattern[1..] :: r in pattern;
      GlobstarsMatchAnything(t, file, pattern[1..]);
    }
  }

  lemma {:induction false} NoneNamedMeansGlobstars(required: seq<string>)
    requires Documented(required) && Named(required) == []
    ensures |Widened(required)| == |required| && forall r | r in Widened(required) :: r == GLOBSTAR
    ensures forall r | r in required :: r == STAR || r == GLOBSTAR
  {
    if required != [] {
      assert required == [required[0]] + required[1..];
      NoneNamedMeansGlobstars(required[1..]);
    }
  }

  /** `*` and at least one `**`, nothing else: such a glob matches every file anyway. */
  predicate MatchesEveryFile(required: seq<string>) {
    CountStars(required) == 1 && Named(required) == [] && GLOBSTAR in required
  }

  lemma {:induction false} EveryFileMatches(t: ClassTest, file: seq<string>, required: seq<string>)
    requires Documented(required) && Named(required) == [] && file != []
    requires CountStars(required) <= 1 && (CountStars(required) == 1 ==> |file| == 1 || GLOBSTAR in required)
    requires required != []
    ensures MatchParts(t, file, required)
    decreases |file| + |required|
  {
    if required[0] == GLOBSTAR {
      if CountStars(required) == 0 {
        NoStars(required);
        NoneNamedMeansGlobstars(required);
        GlobstarsMatchAnything(t, file, required);
      } else if |file| > 1 {
        EveryFileMatches(t, file[1..], required);
      } else {
        EveryFileMatches(t, file, required[1..]);
      }
    } else {
      NoneNamedMeansGlobstars(required);
      assert required[0] in required;
      StarMatchesAnything(t, file[0]);
      NoStars(required[1..]);
      if |required| > 1 {
        assert forall r | r in required[1..] :: r in required;
        GlobstarsMatchAnything(t, file[1..], required[1..]);
      } else {
        assert required == [STAR];
        assert |file| == 1;
      }
    }
  }

  lemma {:induction false} NoStars(required: seq<string>)
    ensures CountStars(required) == 0 <==> STAR !in required
  {
    if required != [] {
      NoStars(required[1..]);
      assert required == [required[0]] + required[1..];
    }
  }

  /** No non-empty file can slip past this required glob through a declared pattern that it covers. */
  ghost predicate CeilingHolds(t: ClassTest, required: seq<string>) {
    forall declared, file | file != [] && MatchParts(t, declared, required) && MatchParts(t, file, declared) ::
      MatchParts(t, file, required)
  }

  /**
   For a required glob made of plain text, one star beside plain text, `*` and `**`:
   the ceiling holds if and only if it has no bare `*`, or it is one `*` among `**`s,
   which matches every file.
   */
  lemma StarCeilingExactly(t: ClassTest, required: seq<string>)
    requires Documented(required)
    ensures CeilingHolds(t, required) <==> STAR !in required || MatchesEveryFile(required)
  {
    NoStars(required);
    if STAR !in required {
      assert forall r | r in required :: CeilingSegment(r);
      CeilingSegmentsAreSound(t, required);
      forall declared, file | MatchParts(t, declared, required) && MatchParts(t, file, declared)
        ensures MatchParts(t, file, required)
      {
        CoverageTransfers(t, file, declared, required);
      }
    } else if MatchesEveryFile(required) {
      forall file: seq<string> | file != [] ensures MatchParts(t, file, required) {
        EveryFileMatches(t, file, required);
      }
    } else {
      StarEscapes(t, required);
    }
  }

  lemma StarEscapes(t: ClassTest, required: seq<string>)
    requires Documented(required) && CountStars(required) > 0 && !MatchesEveryFile(required)
    ensures !CeilingHolds(t, required)
  {
    var declared := Widened(required);
    WidenedIsCovered(t, required);
    var file := Named(required);
    if file != [] {
      NamedMatchWidened(t, required);
      if MatchParts(t, file, required) {
        MatchNeedsLength(t, file, required);
      }
    } else {
      NoneNamedMeansGlobstars(required);
      file := if CountStars(required) > 1 then ["x"] else ["x", "y"];
      GlobstarsMatchAnything(t, file, declared);
      if CountStars(required) > 1 {
        if MatchParts(t, file, required) {
          MatchNeedsLength(t, file, required);
        }
      } else {
        OnlyStar(required);
        assert required == [STAR];
        assert !MatchParts(t, file[1..], []);
      }
    }
    assert MatchParts(t, declared, required) && MatchParts(t, file, declared) && !MatchParts(t, file, required);
  }

  lemma {:induction false} OnlyStar(required: seq<string>)
    requires forall r | r in required :: r == STAR
    ensures CountStars(required) == |required|
  {
    if required != [] {
      assert required[0] in required && forall r | r in required[1..] :: r in required;
      OnlyStar(required[1..]);
    }
  }

  // ----- path strings -----

  /** Text before the first '/', and the text after it. */
  function CutSlash(s: string): (cut: (string, string))
    requires '/' in s
    ensures s == cut.0 + "/" + cut.1 && '/' !in cut.0
  {
    if s[0] == '/' then ([], s[1..])
    else var (a, b) := CutSlash(s[1..]); ([s[0]] + a, b)
  }

  /** Components of a relative path: empty ones and "." are dropped. */
  function Components(s: string): (parts: seq<string>)
    ensures forall p | p in parts :: p != [] && p != "." && '/' !in p
    decreases |s|
  {
    var cut := if '/' in s then CutSlash(s) else (s, []);
    var rest := if '/' in s then Components(cut.1) else [];
    if cut.0 == [] || cut.0 == "." then rest else [cut.0] + rest
  }

  /** `PurePosixPath(path).parts`: exactly two leading slashes keep a root of their own. */
  function Parts(path: string): seq<string> {
    var root := if "//" <= path && !("///" <= path) then ["//"] else if "/" <= path then ["/"] else [];
    root + Components(path)
  }

  /** The components with a "/" between any two. */
  function PathText(parts: seq<string>): string {
    if parts == [] then [] else if |parts| == 1 then parts[0] else parts[0] + "/" + PathText(parts[1..])
  }

  predicate PlainParts(parts: seq<string>) {
    forall p | p in parts :: p != [] && p != "." && '/' !in p
  }

  lemma {:induction false} CutFirst(x: string, y: string)
    requires '/' !in x
    ensures CutSlash(x + "/" + y) == (x, y)
  {
    var s := x + "/" + y;
    if x == [] {
      assert s[1..] == y;
    } else {
      assert s[1..] == x[1..] + "/" + y && s[0] == x[0];
      CutFirst(x[1..], y);
      assert [x[0]] + x[1..] == x;
    }
  }

  lemma OneComponent(p: string)
    requires '/' !in p
    ensures Components(p) == if p == [] || p == "." then [] else [p]
  {
  }

  /** A slash anywhere in the text separates the components before it from those after it. */
  lemma {:induction false} ComponentsSplit(a: string, b: string)
    ensures Components(a + "/" + b) == Components(a) + Components(b)
    decreases |a|
  {
    if '/' in a {
      var cut := CutSlash(a);
      assert a + "/" + b == cut.0 + "/" + (cut.1 + "/" + b);
      CutFirst(cut.0, cut.1 + "/" + b);
      ComponentsSplit(cut.1, b);
    } else {
      CutFirst(a, b);
      OneComponent(a);
    }
  }

  /** Splitting loses nothing: joined components come back one by one. */
  lemma {:induction false} TextSplits(parts: seq<string>)
    requires PlainParts(parts)
    ensures Components(PathText(parts)) == parts && !("/" <= PathText(parts)) && Parts(PathText(parts)) == parts
  {
    if parts != [] {
      assert parts[0] in parts && forall p | p in parts[1..] :: p in parts;
      OneComponent(parts[0]);
      assert parts == [parts[0]] + parts[1..];
      TextSplits(parts[1..]);
      if |parts| > 1 {
        ComponentsSplit(parts[0], PathText(parts[1..]));
      }
    }
    NotRooted(PathText(parts));
  }

  lemma NotRooted(path: string)
    requires !("/" <= path)
    ensures Parts(path) == Components(path)
  {
    assert "//" <= path ==> "/" <= path;
    assert [] + Components(path) == Components(path);
  }

  /** One leading slash is the root, two are another root, three or more are the first again. */
  lemma RootedParts(rest: string)
    ensures !("/" <= rest) ==> Parts("/" + rest) == ["/"] + Components(rest)
    ensures !("/" <= rest) ==> Parts("//" + rest) == ["//"] + Components(rest)
    ensures Parts("///" + rest) == ["/"] + Components(rest)
  {
    SlashBefore(rest);
    SlashBefore("/" + rest);
    SlashBefore("//" + rest);
    assert "/" + ("/" + rest) == "//" + rest && "/" + ("//" + rest) == "///" + rest;
    LeadingSlashes(rest);
  }

  lemma SlashBefore(rest: string)
    ensures Components("/" + rest) == Components(rest)
  {
    ComponentsSplit("", rest);
    OneComponent("");
    assert "" + "/" + rest == "/" + rest && [] + Components(rest) == Components(rest);
  }

  lemma LeadingSlashes(rest: string)
    ensures !("/" <= rest) ==> "/" <= "/" + rest && !("//" <= "/" + rest)
    ensures !("/" <= rest) ==> "//" <= "//" + rest && !("///" <= "//" + rest)
    ensures "///" <= "///" + rest && "/" <= "///" + rest
  {
    if "//" <= "/" + rest {
      assert ("/" + rest)[1] == '/' && ("/" + rest)[1..] == rest;
    }
    if "///" <= "//" + rest {
      assert ("//" + rest)[2] == '/' && ("//" + rest)[2..] == rest;
    }
  }

  /** So path text is matched component by component. */
  lemma TextMatches(t: ClassTest, file: seq<string>, pattern: seq<string>)
    requires PlainParts(file) && PlainParts(pattern)
    ensures PathMatches(t, PathText(file), PathText(pattern)) <==> MatchParts(t, file, pattern)
  {
    TextSplits(file);
    TextSplits(pattern);
  }

  predicate PathMatches(t: ClassTest, path: string, pattern: string) {
    MatchParts(t, Parts(path), Parts(pattern))
  }

  predicate MatchesAny(t: ClassTest, path: string, patterns: seq<string>) {
    exists pattern | pattern in patterns :: PathMatches(t, path, pattern)
  }

  /** `owned_paths_outside_required`: the declared patterns, in order, that no required glob covers as text. */
  function OutsideRequired(t: ClassTest, declared: seq<string>, required: seq<string>): (outside: seq<string>)
    ensures forall p :: p in outside <==> p in declared && !MatchesAny(t, p, required)
  {
    if declared == [] then []
    else
      var rest := OutsideRequired(t, declared[1..], required);
      if MatchesAny(t, declared[0], required) then rest else [declared[0]] + rest
  }

  function Violations(t: ClassTest, changed: seq<string>, owned: seq<string>): (outside: seq<string>)
    ensures forall f :: f in outside <==> f in changed && !MatchesAny(t, f, owned)
  {
    if changed == [] then []
    else (if MatchesAny(t, changed[0], owned) then [] else [changed[0]]) + Violations(t, changed[1..], owned)
  }

  /** `list(dict.fromkeys(...))`. */
  function Distinct(s: seq<string>): (d: seq<string>)
    ensures forall x :: x in d <==> x in s
    ensures forall i, j | 0 <= i < j < |d| :: d[i] != d[j]
  {
    if s == [] then []
    else
      var init := Distinct(s[..|s| - 1]);
      assert s == s[..|s| - 1] + [s[|s| - 1]];
      if s[|s| - 1] in init then init else init + [s[|s| - 1]]
  }

  datatype Verdict = Passed | Refused(reason: string) | Skipped

  /** The ownership part of a lane's receipt; a refusal stops the checks after it. */
  class LaneReceipt {
    var checks: map<string, Verdict>

    constructor ()
      ensures checks == map[]
    {
      checks := map[];
    }

    /**
     The two ownership checks of `_run_checks`. With a ceiling whose segments are
     plain text, `**`, or one star beside plain text, a lane that is not refused has
     changed only files inside the ceiling, whatever patterns it declared itself.
     */
    method CheckOwnership(t: ClassTest, changed: seq<string>, manifest: seq<string>, extra: seq<string>,
        required: seq<string>)
      returns (admitted: bool)
      modifies this
      ensures admitted <==>
                && (forall f | f in changed :: MatchesAny(t, f, manifest + extra))
                && (required != [] ==> forall p | p in manifest + extra :: MatchesAny(t, p, required))
      ensures admitted && required != [] && (forall r, p | r in required && p in Parts(r) :: CeilingSegment(p)) ==>
                forall f | f in changed :: MatchesAny(t, f, required)
      ensures admitted ==>
                checks == old(checks)["owned_paths" := Passed]
                  ["owned_paths_within_required" := if required != [] then Passed else Skipped]
      ensures !admitted ==>
                checks ==
                  if exists f | f in changed :: !MatchesAny(t, f, manifest + extra)
                  then old(checks)["owned_paths" := Refused("owned_path_violation")]
                  else old(checks)["owned_paths" := Passed]
                         ["owned_paths_within_required" := Refused("owned_paths_not_subset_of_required")]
    {
      var owned := Distinct(manifest + extra);
      var violated := Violations(t, changed, owned);
      if violated != [] {
        checks := checks["owned_paths" := Refused("owned_path_violation")];
        assert violated[0] in violated;
        return false;
      }
      checks := checks["owned_paths" := Passed];
      if required == [] {
        checks := checks["owned_paths_within_required" := Skipped];
        return true;
      }
      var uncovered := OutsideRequired(t, owned, required);
      if uncovered != [] {
        checks := checks["owned_paths_within_required" := Refused("owned_paths_not_subset_of_required")];
        assert uncovered[0] in uncovered;
        return false;
      }
      checks := checks["owned_paths_within_required" := Passed];
      if forall r | r in required :: forall p | p in Parts(r) :: CeilingSegment(p) {
        CeilingEnforced(t, changed, owned, required);
      }
      return true;
    }
  }

  /**
   If no declared pattern is reported outside the ceiling and every changed file
   matches a declared pattern, then every changed file matches a required glob.
   */
  lemma CeilingEnforced(t: ClassTest, changed: seq<string>, declared: seq<string>, required: seq<string>)
    requires forall r | r in required :: forall p | p in Parts(r) :: CeilingSegment(p)
    requires OutsideRequired(t, declared, required) == []
    requires forall f | f in changed :: MatchesAny(t, f, declared)
    ensures forall f | f in changed :: MatchesAny(t, f, required)
  {
    forall f | f in changed ensures MatchesAny(t, f, required) {
      var d :| d in declared && PathMatches(t, f, d);
      assert d !in OutsideRequired(t, declared, required);
      var r :| r in required && PathMatches(t, d, r);
      CeilingSegmentsAreSound(t, Parts(r));
      CoverageTransfers(t, Parts(f), Parts(d), Parts(r));
    }
  }

  function PathTexts(paths: seq<seq<string>>): seq<string> {
    seq(|paths|, i requires 0 <= i < |paths| => PathText(paths[i]))
  }

  lemma TextMatchesAny(t: ClassTest, file: seq<string>, patterns: seq<seq<string>>)
    requires PlainParts(file) && forall q | q in patterns :: PlainParts(q)
    ensures MatchesAny(t, PathText(file), PathTexts(patterns)) <==> exists q | q in patterns :: MatchParts(t, file, q)
  {
    forall q | q in patterns ensures PathMatches(t, PathText(file), PathText(q)) <==> MatchParts(t, file, q) {
      TextMatches(t, file, q);
    }
    if q :| q in patterns && MatchParts(t, file, q) {
      var i :| 0 <= i < |patterns| && patterns[i] == q;
      assert PathTexts(patterns)[i] == PathText(q);
    }
    if text :| text in PathTexts(patterns) && PathMatches(t, PathText(file), text) {
      var i :| 0 <= i < |patterns| && PathTexts(patterns)[i] == text;
      assert patterns[i] in patterns && text == PathText(patterns[i]);
    }
  }

  /** The ceiling on files and patterns given by their components, as the lane's path texts enforce it. */
  lemma CeilingOnComponents(t: ClassTest, changed: seq<seq<string>>, declared: seq<seq<string>>,
                            required: seq<seq<string>>)
    requires forall p | p in changed + declared + required :: PlainParts(p)
    requires forall r, p | r in required && p in r :: CeilingSegment(p)
    requires OutsideRequired(t, PathTexts(declared), PathTexts(required)) == []
    requires forall f | f in changed :: exists d | d in declared :: MatchParts(t, f, d)
    ensures forall f | f in changed :: exists r | r in required :: MatchParts(t, f, r)
  {
    forall f | f in changed ensures exists r | r in required :: MatchParts(t, f, r) {
      assert f in changed + declared + required;
      forall p | p in declared || p in required ensures PlainParts(p) {
        assert p in changed + declared + required;
      }
      TextMatchesAny(t, f, declared);
      forall r | r in PathTexts(required) ensures forall p | p in Parts(r) :: CeilingSegment(p) {
        var i :| 0 <= i < |required| && PathTexts(required)[i] == r;
        TextSplits(required[i]);
      }
      CeilingEnforced(t, [PathText(f)], PathTexts(declared), PathTexts(required));
      assert PathText(f) in [PathText(f)];
      TextMatchesAny(t, f, required);
    }
  }
}
