/** The changelog file filter: the regular expression
    `^\/?<directory>.*\.json$` with flags `g`, `i` and `m`, and
    `shouldCheckFile`, which resets the expression's `lastIndex` before
    testing a name. */
module FileFilter {
  import opened Text

  /** A regular-expression atom: one literal character, or `.`. */
  datatype Atom = Char(c: char) | AnyChar

  /** An atom matched exactly once, at most once (`?`), or any number of
      times (`*`). */
  datatype Term = Once(atom: Atom) | Optional(atom: Atom) | Star(atom: Atom)

  /** With the `i` flag letters compare case-insensitively; `.` matches
      anything but a line terminator. */
  predicate AtomMatches(a: Atom, c: char, ignoreCase: bool) {
    match a
    case Char(x) => if ignoreCase then LowerChar(x) == LowerChar(c) else x == c
    case AnyChar => !IsLineTerminator(c)
  }

  /** Whether the terms can match all of `s`. Which alternative a
      backtracking matcher tries first decides only which match it
      reports, never whether there is one. */
  predicate FullMatch(p: seq<Term>, s: string, ignoreCase: bool)
    decreases |s|, |p|
  {
    if |p| == 0 then |s| == 0
    else match p[0]
      case Once(a) =>
        |s| > 0 && AtomMatches(a, s[0], ignoreCase) && FullMatch(p[1..], s[1..], ignoreCase)
      case Optional(a) =>
        || (|s| > 0 && AtomMatches(a, s[0], ignoreCase) && FullMatch(p[1..], s[1..], ignoreCase))
        || FullMatch(p[1..], s, ignoreCase)
      case Star(a) =>
        || FullMatch(p[1..], s, ignoreCase)
        || (|s| > 0 && AtomMatches(a, s[0], ignoreCase) && FullMatch(p, s[1..], ignoreCase))
  }

  /** A string spelled out literally. */
  function Literals(w: string): (p: seq<Term>)
    ensures |p| == |w|
  {
    seq(|w|, i requires 0 <= i < |w| => Once(Char(w[i])))
  }

  /** The characters with a meaning in regular-expression syntax. */
  predicate IsRegexSyntax(c: char) {
    c in "^$\\.*+?()[]{}|"
  }

  /** A directory name that reads as itself when spliced into a regular
      expression, and that holds no line terminator. */
  predicate IsPlainDirectory(dir: string) {
    forall i :: 0 <= i < |dir| ==> !IsRegexSyntax(dir[i]) && !IsLineTerminator(dir[i])
  }

  /** `new RegExp(`^\\/?${changeLogDirectory}.*\\.json$`, 'gim')`, the
      anchors left out: `FullMatch` matches the whole string. */
  function FilterPattern(dir: string): seq<Term> {
    [Optional(Char('/'))] + Literals(dir) + [Star(AnyChar)] + Literals(".json")
  }

  /** `RegExp.prototype.test` on the filter with a given `lastIndex`, for a
      name without line terminators: the search starts at `lastIndex`;
      with the `m` flag `^` holds at the start of the string or just after
      a line terminator, so here only at position 0, and `$` only at the
      end. A match leaves `lastIndex` at its end, a failure resets it to 0. */
  function FilterTest(dir: string, name: string, lastIndex: nat): (result: (bool, nat))
    requires NoLineTerminator(name)
  {
    if lastIndex == 0 && FullMatch(FilterPattern(dir), name, true) then (true, |name|)
    else (false, 0)
  }

  /** `name` continues, from position `k`, with the directory in any letter
      case, and ends in `.json` in any letter case. */
  predicate DirectoryThenJson(name: string, dir: string, k: nat) {
    && k + |dir| + 5 <= |name|
    && EqualsIgnoringCase(name[k..k + |dir|], dir)
    && EqualsIgnoringCase(name[|name| - 5..], ".json")
  }

  /** `shouldCheckFile`: reset `lastIndex`, then test. */
  function ShouldCheckFile(name: string, dir: string): bool
    requires NoLineTerminator(name) && IsPlainDirectory(dir)
  {
    FilterTest(dir, name, 0).0
  }

  /** A name is checked exactly when, after an optional leading `/`, it
      starts with the directory and ends in `.json`, both in any letter
      case. */
  lemma ShouldCheckFileSpec(name: string, dir: string)
    requires NoLineTerminator(name) && IsPlainDirectory(dir)
    ensures ShouldCheckFile(name, dir) <==>
      (DirectoryThenJson(name, dir, 0) || (|name| > 0 && name[0] == '/' && DirectoryThenJson(name, dir, 1)))
  {
    FilterMatches(name, dir);
  }

  predicate LiteralMatch(w: string, t: string, ignoreCase: bool)
    requires |w| == |t|
  {
    forall i :: 0 <= i < |w| ==> AtomMatches(Char(w[i]), t[i], ignoreCase)
  }

  lemma LiteralMatchIgnoringCase(w: string, t: string)
    requires |w| == |t|
    ensures LiteralMatch(w, t, true) <==> EqualsIgnoringCase(t, w)
  {
    if LiteralMatch(w, t, true) {
      assert LowerStr(t) == LowerStr(w) by {
        forall i | 0 <= i < |w| ensures LowerStr(t)[i] == LowerStr(w)[i] {
          assert AtomMatches(Char(w[i]), t[i], true);
        }
      }
    }
    if EqualsIgnoringCase(t, w) {
      forall i | 0 <= i < |w| ensures AtomMatches(Char(w[i]), t[i], true) {
        assert LowerStr(t)[i] == LowerStr(w)[i];
      }
    }
  }

  /** A literal prefix of the pattern consumes the same number of
      characters of the subject. */
  lemma {:induction false} FullMatchLiterals(w: string, rest: seq<Term>, s: string, ignoreCase: bool)
    ensures FullMatch(Literals(w) + rest, s, ignoreCase) <==>
      && |w| <= |s|
      && LiteralMatch(w, s[..|w|], ignoreCase)
      && FullMatch(rest, s[|w|..], ignoreCase)
    decreases |w|
  {
    if |w| == 0 {
      assert Literals(w) + rest == rest;
    } else {
      var p := Literals(w) + rest;
      assert p[0] == Once(Char(w[0]));
      assert p[1..] == Literals(w[1..]) + rest;
      if |s| > 0 {
        FullMatchLiterals(w[1..], rest, s[1..], ignoreCase);
        if |w| <= |s| {
          assert s[1..][|w| - 1..] == s[|w|..];
          assert LiteralMatch(w, s[..|w|], ignoreCase) <==>
            AtomMatches(Char(w[0]), s[0], ignoreCase) && LiteralMatch(w[1..], s[1..][..|w| - 1], ignoreCase)
          by {
            assert forall i :: 1 <= i < |w| ==> w[1..][i - 1] == w[i] && s[1..][..|w| - 1][i - 1] == s[..|w|][i];
          }
        }
      }
    }
  }

  /** `.*` followed by a literal suffix matches a string without line
      terminators exactly when the string ends with the suffix. */
  lemma {:induction false} FullMatchStarThenLiterals(w: string, s: string, ignoreCase: bool)
    requires NoLineTerminator(s)
    ensures FullMatch([Star(AnyChar)] + Literals(w), s, ignoreCase) <==>
      |w| <= |s| && LiteralMatch(w, s[|s| - |w|..], ignoreCase)
    decreases |s|
  {
    var p := [Star(AnyChar)] + Literals(w);
    assert p[1..] == Literals(w) + [];
    FullMatchLiterals(w, [], s, ignoreCase);
    assert FullMatch(p[1..], s, ignoreCase) <==> |w| == |s| && LiteralMatch(w, s, ignoreCase) by {
      if |w| <= |s| {
        assert s[..|w|] == s <==> |w| == |s|;
      }
    }
    if |s| > 0 {
      FullMatchStarThenLiterals(w, s[1..], ignoreCase);
      if |w| <= |s| - 1 {
        assert s[1..][|s| - 1 - |w|..] == s[|s| - |w|..];
      }
      if |w| == |s| {
        assert s[|s| - |w|..] == s;
      }
    }
  }

  /** The filter test from position 0 is the closed form. */
  lemma FilterMatches(name: string, dir: string)
    requires NoLineTerminator(name)
    ensures FullMatch(FilterPattern(dir), name, true) <==>
      DirectoryThenJson(name, dir, 0) || (|name| > 0 && name[0] == '/' && DirectoryThenJson(name, dir, 1))
  {
    var rest := Literals(dir) + ([Star(AnyChar)] + Literals(".json"));
    assert FilterPattern(dir) == [Optional(Char('/'))] + rest;
    OptionalSlash(rest, name);
    AfterOptionalSlash(name, dir);
    if |name| > 0 {
      AfterOptionalSlash(name[1..], dir);
      ShiftedDirectoryThenJson(name, dir);
    }
  }

  lemma OptionalSlash(rest: seq<Term>, s: string)
    ensures FullMatch([Optional(Char('/'))] + rest, s, true) <==>
      (|s| > 0 && s[0] == '/' && FullMatch(rest, s[1..], true)) || FullMatch(rest, s, true)
  {
    var p := [Optional(Char('/'))] + rest;
    assert p[0] == Optional(Char('/')) && p[1..] == rest;
    if |s| > 0 {
      assert AtomMatches(Char('/'), s[0], true) <==> s[0] == '/';
    }
  }

  lemma ShiftedDirectoryThenJson(name: string, dir: string)
    requires |name| > 0
    ensures DirectoryThenJson(name[1..], dir, 0) <==> DirectoryThenJson(name, dir, 1)
  {
    if 1 + |dir| + 5 <= |name| {
      assert name[1..][0..|dir|] == name[1..1 + |dir|];
      assert name[1..][|name| - 1 - 5..] == name[|name| - 5..];
    }
  }

  lemma AfterOptionalSlash(s: string, dir: string)
    requires NoLineTerminator(s)
    ensures FullMatch(Literals(dir) + ([Star(AnyChar)] + Literals(".json")), s, true) <==>
      DirectoryThenJson(s, dir, 0)
  {
    var tail := [Star(AnyChar)] + Literals(".json");
    FullMatchLiterals(dir, tail, s, true);
    if |dir| <= |s| {
      var rest := s[|dir|..];
      assert NoLineTerminator(rest);
      FullMatchStarThenLiterals(".json", rest, true);
      LiteralMatchIgnoringCase(dir, s[..|dir|]);
      if 5 <= |rest| {
        LiteralMatchIgnoringCase(".json", rest[|rest| - 5..]);
        assert rest[|rest| - 5..] == s[|s| - 5..];
      }
      assert s[0..|dir|] == s[..|dir|];
    }
  }

  /** Testing again without resetting `lastIndex` would reject a name the
      first test accepted: the reset is what makes repeated checks agree. */
  lemma StaleLastIndexRejects(name: string, dir: string)
    requires NoLineTerminator(name) && IsPlainDirectory(dir)
    requires ShouldCheckFile(name, dir)
    ensures FilterTest(dir, name, 0) == (true, |name|)
    ensures !FilterTest(dir, name, FilterTest(dir, name, 0).1).0
  {
    ShouldCheckFileSpec(name, dir);
  }

  /** The documented table: a `.json` under the directory is checked,
      with or without a leading `/` and in any sub-directory; a name with a
      suffix after `.json`, or outside the directory, is not. */
  lemma JsonUnderDirectoryIsChecked(dir: string, middle: string, lead: string)
    requires IsPlainDirectory(dir) && NoLineTerminator(middle)
    requires lead == "" || lead == "/"
    ensures NoLineTerminator(lead + dir + middle + ".json")
    ensures ShouldCheckFile(lead + dir + middle + ".json", dir)
  {
    var name := lead + dir + middle + ".json";
    var k := |lead|;
    assert name[k..k + |dir|] == dir;
    assert name[|name| - 5..] == ".json";
    assert NoLineTerminator(".json") by {
      forall i | 0 <= i < 5 ensures !IsLineTerminator(".json"[i]) {
        assert ".json"[i] in ".json";
      }
    }
    if lead == "/" {
      assert name[0] == '/';
    }
    assert NoLineTerminator(name);
    ShouldCheckFileSpec(name, dir);
  }

  lemma NotEndingInJsonIsSkipped(name: string, dir: string)
    requires NoLineTerminator(name) && IsPlainDirectory(dir)
    requires |name| >= 5 ==> !EqualsIgnoringCase(name[|name| - 5..], ".json")
    ensures !ShouldCheckFile(name, dir)
  {
    ShouldCheckFileSpec(name, dir);
  }

  lemma OutsideDirectoryIsSkipped(name: string, dir: string)
    requires NoLineTerminator(name) && IsPlainDirectory(dir)
    requires |dir| <= |name| ==> !EqualsIgnoringCase(name[..|dir|], dir)
    requires |name| > 0 && name[0] == '/' && |dir| + 1 <= |name| ==> !EqualsIgnoringCase(name[1..1 + |dir|], dir)
    ensures !ShouldCheckFile(name, dir)
  {
    if |dir| <= |name| {
      assert name[0..|dir|] == name[..|dir|];
    }
    ShouldCheckFileSpec(name, dir);
  }
}
