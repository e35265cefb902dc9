/** The directory scan and its clean-up helpers: escaping a URL for a
    regular expression, turning the links to one URL back into bold text,
    rewriting a file's lines, and the CSV report of broken links. */
module Scan {
  import opened Wrappers
  import opened Text
  import opened Types
  import opened FileFilter
  import opened UrlCheck
  import opened Validation

  // ---------------------------------------------------------------------
  // escapeUrlForRegex

  /** `s.replace(c, rep)` with a one-character string pattern: only the
      first occurrence of `c` is replaced. */
  function ReplaceFirst(s: string, c: char, rep: string): string
    decreases |s|
  {
    if s == [] then []
    else if s[0] == c then rep + s[1..]
    else [s[0]] + ReplaceFirst(s[1..], c, rep)
  }

  lemma {:induction false} ReplaceFirstAbsent(s: string, c: char, rep: string)
    requires c !in s
    ensures ReplaceFirst(s, c, rep) == s
    decreases |s|
  {
    if s != [] {
      assert c !in s[1..] by {
        assert forall x :: x in s[1..] ==> x in s;
      }
      ReplaceFirstAbsent(s[1..], c, rep);
    }
  }

  lemma {:induction false} ReplaceFirstAt(s: string, c: char, rep: string, i: nat)
    requires FirstIndex(s, c) == Some(i)
    ensures ReplaceFirst(s, c, rep) == s[..i] + rep + s[i + 1..]
    decreases |s|
  {
    if s[0] != c {
      var t := s[1..];
      assert FirstIndex(t, c) == Some(i - 1);
      ReplaceFirstAt(t, c, rep, i - 1);
      assert ReplaceFirst(s, c, rep) == [s[0]] + (t[..i - 1] + rep + t[i..]);
      assert [s[0]] + (t[..i - 1] + rep + t[i..]) == s[..i] + rep + s[i + 1..] by {
        assert s[..i] == [s[0]] + t[..i - 1];
        assert s[i + 1..] == t[i..];
        ConcatAssociative([s[0]], t[..i - 1], rep);
        ConcatAssociative([s[0]], t[..i - 1] + rep, t[i..]);
      }
    }
  }

  /** The replacement happens at `s.indexOf(c)`, and nowhere when `c` does
      not occur. */
  lemma ReplaceFirstAtFirstIndex(s: string, c: char, rep: string)
    ensures c !in s ==> ReplaceFirst(s, c, rep) == s
    ensures c in s ==> ReplaceFirst(s, c, rep) == s[..FirstIndex(s, c).value] + rep + s[FirstIndex(s, c).value + 1..]
  {
    if c in s {
      ReplaceFirstAt(s, c, rep, FirstIndex(s, c).value);
    } else {
      ReplaceFirstAbsent(s, c, rep);
    }
  }

  /** `escapeUrlForRegex`: a backslash before the first `.`, then a
      backslash before the first `?` of the result. */
  function EscapeUrlForRegex(url: string): string {
    ReplaceFirst(ReplaceFirst(url, '.', "\\."), '?', "\\?")
  }

  /** Escaping read left to right: a character is escaped when it is the
      first `.` (`dot` says one was already seen) or the first `?` (`query`
      says one was already seen); every other character is copied. */
  function EscapeFrom(url: string, dot: bool, query: bool): string
    decreases |url|
  {
    if url == [] then []
    else
      var c := url[0];
      var piece := if c == '.' && !dot then "\\." else if c == '?' && !query then "\\?" else [c];
      piece + EscapeFrom(url[1..], dot || c == '.', query || c == '?')
  }

  lemma ReplaceFirstHead(t: string, c: char, rep: string)
    ensures ReplaceFirst([c] + t, c, rep) == rep + t
  {
    assert ([c] + t)[1..] == t;
  }

  lemma ReplaceFirstSkip(x: char, t: string, c: char, rep: string)
    requires x != c
    ensures ReplaceFirst([x] + t, c, rep) == [x] + ReplaceFirst(t, c, rep)
  {
    assert ([x] + t)[1..] == t;
  }

  /** Applying the outstanding replacements to the rest of the URL. */
  function Pending(t: string, dot: bool, query: bool): string {
    var afterDot := if dot then t else ReplaceFirst(t, '.', "\\.");
    if query then afterDot else ReplaceFirst(afterDot, '?', "\\?")
  }

  lemma PendingFirstDot(t: string, query: bool)
    ensures Pending(['.'] + t, false, query) == "\\." + Pending(t, true, query)
  {
    ReplaceFirstHead(t, '.', "\\.");
    if !query {
      var r := ReplaceFirst(t, '?', "\\?");
      assert ReplaceFirst("\\." + t, '?', "\\?") == "\\." + r by {
        assert "\\." + t == ['\\'] + (['.'] + t);
        ReplaceFirstSkip('\\', ['.'] + t, '?', "\\?");
        ReplaceFirstSkip('.', t, '?', "\\?");
        assert ['\\'] + (['.'] + r) == "\\." + r;
      }
    }
  }

  lemma PendingFirstQuery(t: string, dot: bool)
    ensures Pending(['?'] + t, dot, false) == "\\?" + Pending(t, dot, true)
  {
    if !dot {
      ReplaceFirstSkip('?', t, '.', "\\.");
    }
    var afterDot := if dot then t else ReplaceFirst(t, '.', "\\.");
    ReplaceFirstHead(afterDot, '?', "\\?");
  }

  lemma PendingCopied(c: char, t: string, dot: bool, query: bool)
    requires c == '.' ==> dot
    requires c == '?' ==> query
    ensures Pending([c] + t, dot, query) == [c] + Pending(t, dot, query)
  {
    if !dot {
      ReplaceFirstSkip(c, t, '.', "\\.");
    }
    var afterDot := if dot then t else ReplaceFirst(t, '.', "\\.");
    if !query {
      ReplaceFirstSkip(c, afterDot, '?', "\\?");
    }
  }

  lemma {:induction false} PendingIsEscapeFrom(url: string, dot: bool, query: bool)
    ensures Pending(url, dot, query) == EscapeFrom(url, dot, query)
    decreases |url|
  {
    if url == [] {
    } else {
      var c := url[0];
      var t := url[1..];
      assert url == [c] + t;
      PendingIsEscapeFrom(t, dot || c == '.', query || c == '?');
      if c == '.' && !dot {
        PendingFirstDot(t, query);
      } else if c == '?' && !query {
        PendingFirstQuery(t, dot);
      } else {
        PendingCopied(c, t, dot, query);
      }
    }
  }

  /** Only the first `.` and the first `?` are escaped; all other
      characters, later `.` and `?` included, are copied unchanged. */
  lemma EscapeIsFirstOnly(url: string)
    ensures EscapeUrlForRegex(url) == EscapeFrom(url, false, false)
  {
    PendingIsEscapeFrom(url, false, false);
  }

  /** A URL with neither `.` nor `?` is returned unchanged. */
  lemma EscapeWithoutDotOrQuery(url: string)
    requires '.' !in url && '?' !in url
    ensures EscapeUrlForRegex(url) == url
  {
    ReplaceFirstAtFirstIndex(url, '.', "\\.");
    ReplaceFirstAtFirstIndex(url, '?', "\\?");
  }

  // ---------------------------------------------------------------------
  // The regular expression the escaped URL becomes

  /** A URL that the escaping turns into a literal pattern, apart from the
      later `.` characters: no other regular-expression syntax, and at most
      one `?`. */
  predicate SafeUrl(url: string) {
    && (forall i :: 0 <= i < |url| ==> url[i] == '.' || url[i] == '?' || !IsRegexSyntax(url[i]))
    && (forall i, j :: 0 <= i < j < |url| ==> !(url[i] == '?' && url[j] == '?'))
  }

  /** How the regular-expression compiler reads a string made of plain
      characters, `.` and escapes of syntax characters; `None` for any
      other syntax, which this model does not cover. */
  function ParsePattern(e: string): Option<seq<Atom>>
    decreases |e|
  {
    if e == [] then Some([])
    else if e[0] == '\\' then
      if |e| < 2 || !IsRegexSyntax(e[1]) then None
      else match ParsePattern(e[2..])
        case None => None
        case Some(rest) => Some([Char(e[1])] + rest)
    else if e[0] == '.' then
      match ParsePattern(e[1..])
      case None => None
      case Some(rest) => Some([AnyChar] + rest)
    else if IsRegexSyntax(e[0]) then None
    else
      match ParsePattern(e[1..])
      case None => None
      case Some(rest) => Some([Char(e[0])] + rest)
  }

  /** The pattern the URL stands for: each character matches itself,
      except a `.` after the first one, which matches any character but a
      line terminator. */
  function PatternFrom(url: string, dot: bool): (p: seq<Atom>)
    ensures |p| == |url|
    decreases |url|
  {
    if url == [] then []
    else
      var c := url[0];
      [if c == '.' && dot then AnyChar else Char(c)] + PatternFrom(url[1..], dot || c == '.')
  }

  function UrlPattern(url: string): (p: seq<Atom>)
    ensures |p| == |url|
  {
    PatternFrom(url, false)
  }

  lemma {:induction false} ParseEscapeFrom(url: string, dot: bool, query: bool)
    requires SafeUrl(url)
    requires query ==> '?' !in url
    ensures ParsePattern(EscapeFrom(url, dot, query)) == Some(PatternFrom(url, dot))
    decreases |url|
  {
    if url != [] {
      var c := url[0];
      var t := url[1..];
      assert SafeUrl(t) by {
        forall i, j | 0 <= i < j < |t| ensures !(t[i] == '?' && t[j] == '?') {
          assert t[i] == url[i + 1] && t[j] == url[j + 1];
        }
        forall i | 0 <= i < |t| ensures t[i] == '.' || t[i] == '?' || !IsRegexSyntax(t[i]) {
          assert t[i] == url[i + 1];
        }
      }
      assert (query || c == '?') ==> '?' !in t by {
        if '?' in t {
          var j :| 0 <= j < |t| && t[j] == '?';
          assert url[j + 1] == '?';
        }
      }
      ParseEscapeFrom(t, dot || c == '.', query || c == '?');
      var rest := EscapeFrom(t, dot || c == '.', query || c == '?');
      assert url[0] == c;
      if c == '.' && !dot {
        assert EscapeFrom(url, dot, query) == "\\." + rest;
        assert ("\\." + rest)[2..] == rest;
      } else if c == '?' && !query {
        assert EscapeFrom(url, dot, query) == "\\?" + rest;
        assert ("\\?" + rest)[2..] == rest;
      } else {
        assert c == '?' ==> query;
        assert c != '?' by {
          assert c in url;
        }
        assert EscapeFrom(url, dot, query) == [c] + rest;
        assert ([c] + rest)[1..] == rest;
      }
    }
  }

  /** The regular expression compiled from the escaped URL is the URL's
      pattern: the first `.` and the `?` are literal, later `.` are
      wildcards, everything else is literal. */
  lemma EscapedUrlPattern(url: string)
    requires SafeUrl(url)
    ensures ParsePattern(EscapeUrlForRegex(url)) == Some(UrlPattern(url))
  {
    EscapeIsFirstOnly(url);
    ParseEscapeFrom(url, false, false);
  }

  // ---------------------------------------------------------------------
  // removeLinkFromLine

  /** The pattern matches all of `s`, one atom per character, with case
      significant (the expression has no `i` flag). */
  predicate PatternMatches(p: seq<Atom>, s: string) {
    |p| == |s| && forall k :: 0 <= k < |s| ==> AtomMatches(p[k], s[k], false)
  }

  /** A match of `\[(?<linkText>[^\]]*?)\]\(<pattern>\)` at the start of a
      string: `close` is the position of the `]`, `end` the position just
      after the `)`. */
  datatype LinkMatch = LinkMatch(close: nat, end: nat)

  /** The expression matches at the start of `s` with its `]` at `j`: the
      link text between `[` and `]` holds no `]` (line terminators are
      allowed, since a negated class matches them). */
  predicate IsLinkMatch(s: string, j: nat, p: seq<Atom>) {
    && 0 < j && j + 2 + |p| < |s|
    && s[0] == '[' && s[j] == ']' && ']' !in s[1..j]
    && s[j + 1] == '(' && PatternMatches(p, s[j + 2..j + 2 + |p|]) && s[j + 2 + |p|] == ')'
  }

  /** The backtracking search at the start of `s`: the lazy text group can
      only stop at the first `]`, so that is the one candidate. */
  function LinkAt(s: string, p: seq<Atom>): (m: Option<LinkMatch>)
    ensures m.Some? ==> 0 < m.value.close && m.value.end == m.value.close + 3 + |p| <= |s|
  {
    if s == [] || s[0] != '[' then None
    else match FirstIndex(s[1..], ']')
      case None => None
      case Some(d) =>
        var j := 1 + d;
        if j + 2 + |p| < |s| && s[j + 1] == '(' && PatternMatches(p, s[j + 2..j + 2 + |p|]) && s[j + 2 + |p|] == ')'
        then Some(LinkMatch(j, j + 3 + |p|))
        else None
  }

  lemma LinkAtSound(s: string, p: seq<Atom>)
    ensures LinkAt(s, p).Some? ==> IsLinkMatch(s, LinkAt(s, p).value.close, p)
  {
    if LinkAt(s, p).Some? {
      var d := FirstIndex(s[1..], ']').value;
      assert s[1..][..d] == s[1..1 + d];
    }
  }

  lemma LinkAtComplete(s: string, p: seq<Atom>, j: nat)
    requires IsLinkMatch(s, j, p)
    ensures LinkAt(s, p) == Some(LinkMatch(j, j + 3 + |p|))
  {
    assert s[1..][j - 1] == ']' && ']' !in s[1..][..j - 1] by {
      assert s[1..][..j - 1] == s[1..j];
    }
    FirstIndexAt(s[1..], ']', j - 1);
  }

  /** `LinkAt` finds a match exactly when the expression matches, and then
      the one the expression matches. */
  lemma LinkAtSpec(s: string, p: seq<Atom>)
    ensures LinkAt(s, p).Some? ==> IsLinkMatch(s, LinkAt(s, p).value.close, p)
    ensures forall j: nat :: IsLinkMatch(s, j, p) ==> LinkAt(s, p) == Some(LinkMatch(j, j + 3 + |p|))
  {
    LinkAtSound(s, p);
    forall j: nat | IsLinkMatch(s, j, p) ensures LinkAt(s, p) == Some(LinkMatch(j, j + 3 + |p|)) {
      LinkAtComplete(s, p, j);
    }
  }

  /** `line.replace(regex, '**$1**')` with the `g` flag: every match, taken
      left to right without overlap, becomes its link text in bold. */
  function Replace(s: string, p: seq<Atom>): string
    decreases |s|
  {
    if s == [] then []
    else match LinkAt(s, p)
      case Some(m) => "**" + s[1..m.close] + "**" + Replace(s[m.end..], p)
      case None => [s[0]] + Replace(s[1..], p)
  }

  /** `removeLinkFromLine(line, link)`: the links to `link` in `line` are
      replaced by their text in bold. */
  function RemoveLinkFromLine(line: string, link: string): string
    requires SafeUrl(link)
  {
    EscapedUrlPattern(link);
    Replace(line, ParsePattern(EscapeUrlForRegex(link)).value)
  }

  /** The expression built from the link is the link's own pattern. */
  lemma RemoveLinkUsesUrlPattern(line: string, link: string)
    requires SafeUrl(link)
    ensures RemoveLinkFromLine(line, link) == Replace(line, UrlPattern(link))
  {
    EscapedUrlPattern(link);
  }

  /** No match may start at any position of `s`. */
  predicate NoLinkIn(s: string, p: seq<Atom>) {
    forall k :: 0 <= k < |s| ==> LinkAt(s[k..], p).None?
  }

  lemma {:induction false} ReplaceWithoutMatch(s: string, p: seq<Atom>)
    requires NoLinkIn(s, p)
    ensures Replace(s, p) == s
    decreases |s|
  {
    if s != [] {
      assert s[0..] == s;
      assert NoLinkIn(s[1..], p) by {
        forall k | 0 <= k < |s[1..]| ensures LinkAt(s[1..][k..], p).None? {
          assert s[1..][k..] == s[k + 1..];
        }
      }
      ReplaceWithoutMatch(s[1..], p);
    }
  }

  lemma ReplaceAtMatch(s: string, p: seq<Atom>)
    requires LinkAt(s, p).Some?
    ensures Replace(s, p) != s
  {
    var m := LinkAt(s, p).value;
    assert Replace(s, p) == "**" + s[1..m.close] + "**" + Replace(s[m.end..], p);
    assert Replace(s, p)[0] == '*' != s[0];
  }

  lemma ReplaceCons(s: string, p: seq<Atom>)
    requires s != [] && LinkAt(s, p).None?
    ensures Replace(s, p) == [s[0]] + Replace(s[1..], p)
  {
  }

  lemma Tail(c: char, t: string)
    ensures ([c] + t)[1..] == t
  {
  }

  lemma {:induction false} ReplaceWithMatch(s: string, p: seq<Atom>)
    requires !NoLinkIn(s, p)
    ensures Replace(s, p) != s
    decreases |s|
  {
    var k :| 0 <= k < |s| && LinkAt(s[k..], p).Some?;
    if LinkAt(s, p).Some? {
      ReplaceAtMatch(s, p);
    } else {
      assert k != 0 by {
        assert s[0..] == s;
      }
      assert !NoLinkIn(s[1..], p) by {
        assert s[1..][k - 1..] == s[k..];
      }
      ReplaceWithMatch(s[1..], p);
      assert Replace(s, p)[1..] == Replace(s[1..], p) by {
        ReplaceCons(s, p);
        Tail(s[0], Replace(s[1..], p));
      }
    }
  }

  /** A line is returned unchanged exactly when no link to the URL occurs
      in it. */
  lemma RemoveLinkUnchangedIff(line: string, link: string)
    requires SafeUrl(link)
    ensures RemoveLinkFromLine(line, link) == line <==> NoLinkIn(line, UrlPattern(link))
  {
    RemoveLinkUsesUrlPattern(line, link);
    if NoLinkIn(line, UrlPattern(link)) {
      ReplaceWithoutMatch(line, UrlPattern(link));
    } else {
      ReplaceWithMatch(line, UrlPattern(link));
    }
  }

  /** Text holding no `[` is copied: no match can start in it. */
  lemma {:induction false} ReplacePlainPrefix(x: string, y: string, p: seq<Atom>)
    requires '[' !in x
    ensures Replace(x + y, p) == x + Replace(y, p)
    decreases |x|
  {
    if x != [] {
      assert (x + y)[0] == x[0];
      assert (x + y)[1..] == x[1..] + y;
      ReplacePlainPrefix(x[1..], y, p);
      assert [x[0]] + (x[1..] + Replace(y, p)) == x + Replace(y, p);
    } else {
      assert x + y == y;
    }
  }

  lemma PatternMatchesUrl(url: string, dot: bool)
    ensures PatternMatches(PatternFrom(url, dot), url)
    decreases |url|
  {
    if url != [] {
      PatternMatchesUrl(url[1..], dot || url[0] == '.');
      var p := PatternFrom(url, dot);
      forall k | 0 <= k < |url| ensures AtomMatches(p[k], url[k], false) {
        if k > 0 {
          assert p[k] == PatternFrom(url[1..], dot || url[0] == '.')[k - 1];
        }
      }
    }
  }

  /** A link whose URL the pattern matches, at the start: its text, in
      bold, replaces it. */
  lemma MatchInFront(text: string, other: string, p: seq<Atom>, post: string)
    requires ']' !in text && PatternMatches(p, other)
    ensures Replace("[" + text + "](" + other + ")" + post, p)
         == "**" + text + "**" + Replace(post, p)
  {
    var s := "[" + text + "](" + other + ")" + post;
    var j := 1 + |text|;
    assert s[1..j] == text;
    assert s[j + 2..j + 2 + |p|] == other;
    assert IsLinkMatch(s, j, p);
    LinkAtSpec(s, p);
    assert s[j + 3 + |p|..] == post;
  }

  /** A link to the URL at the start: its text, in bold, replaces it. */
  lemma LinkInFront(text: string, url: string, post: string)
    requires ']' !in text
    ensures Replace("[" + text + "](" + url + ")" + post, UrlPattern(url))
         == "**" + text + "**" + Replace(post, UrlPattern(url))
  {
    PatternMatchesUrl(url, false);
    MatchInFront(text, url, UrlPattern(url), post);
  }

  /** A link to another URL at the start is not matched: the other URL
      differs from the pattern at some position within its own length. */
  lemma NoLinkAtFirstClose(s: string, p: seq<Atom>, j: nat)
    requires 0 < j < |s| && FirstIndex(s[1..], ']') == Some(j - 1)
    requires j + 2 + |p| < |s| ==> !PatternMatches(p, s[j + 2..j + 2 + |p|])
    ensures LinkAt(s, p).None?
  {
  }

  lemma OtherLinkInFront(text: string, other: string, url: string, rest: string)
    requires ']' !in text
    requires exists d :: 0 <= d < |other| && d < |url| && !AtomMatches(UrlPattern(url)[d], other[d], false)
    ensures LinkAt("[" + text + "](" + other + ")" + rest, UrlPattern(url)).None?
  {
    var s := "[" + text + "](" + other + ")" + rest;
    var p := UrlPattern(url);
    var j := 1 + |text|;
    assert FirstIndex(s[1..], ']') == Some(j - 1) by {
      assert s[1..][..j - 1] == text;
      FirstIndexAt(s[1..], ']', j - 1);
    }
    assert j + 2 + |p| < |s| ==> !PatternMatches(p, s[j + 2..j + 2 + |p|]) by {
      if j + 2 + |p| < |s| {
        var d :| 0 <= d < |other| && d < |url| && !AtomMatches(p[d], other[d], false);
        assert s[j + 2..j + 2 + |p|][d] == other[d];
      }
    }
    NoLinkAtFirstClose(s, p, j);
  }

  /** The link to the URL becomes its bold text; the text before and after
      it, a trailing `\r` included, is unchanged. */
  lemma RemoveSingleLink(pre: string, text: string, link: string, post: string)
    requires SafeUrl(link)
    requires '[' !in pre && '[' !in post && ']' !in text
    ensures RemoveLinkFromLine(pre + "[" + text + "](" + link + ")" + post, link)
         == pre + "**" + text + "**" + post
  {
    PatternMatchesUrl(link, false);
    LookalikeLinkIsRemoved(pre, text, link, link, post);
  }

  /** Only the first `.` is escaped, so a later `.` of the URL matches any
      character: a link to a different URL that the pattern accepts is
      removed as well. */
  lemma LookalikeLinkIsRemoved(pre: string, text: string, other: string, link: string, post: string)
    requires SafeUrl(link) && PatternMatches(UrlPattern(link), other)
    requires '[' !in pre && '[' !in post && ']' !in text
    ensures RemoveLinkFromLine(pre + "[" + text + "](" + other + ")" + post, link)
         == pre + "**" + text + "**" + post
  {
    var p := UrlPattern(link);
    var l := "[" + text + "](" + other + ")" + post;
    var line := pre + "[" + text + "](" + other + ")" + post;
    assert line == pre + l;
    assert RemoveLinkFromLine(line, link) == Replace(pre + l, p) by {
      RemoveLinkUsesUrlPattern(line, link);
    }
    assert Replace(pre + l, p) == pre + Replace(l, p) by {
      ReplacePlainPrefix(pre, l, p);
    }
    assert Replace(l, p) == "**" + text + "**" + Replace(post, p) by {
      MatchInFront(text, other, p, post);
    }
    assert Replace(post, p) == post by {
      PlainText(post, p);
    }
    assert pre + ("**" + text + "**" + post) == pre + "**" + text + "**" + post by {
      Regroup(pre, "**", text, "**", post);
    }
  }

  lemma LaterDotPattern()
    ensures UrlPattern("a.b.c") == [Char('a'), Char('.'), Char('b'), AnyChar, Char('c')]
  {
    assert "a.b.c" == ['a'] + ".b.c";
    assert ".b.c" == ['.'] + "b.c";
    assert "b.c" == ['b'] + ".c";
    assert ".c" == ['.'] + "c";
    assert "c" == ['c'] + "";
  }

  /** With link `a.b.c` the second `.` is a wildcard: a link to `a.bxc` is
      removed too, while the first `.` stays literal. */
  lemma LaterDotIsWildcard()
    ensures UrlPattern("a.b.c") == [Char('a'), Char('.'), Char('b'), AnyChar, Char('c')]
    ensures SafeUrl("a.b.c") && PatternMatches(UrlPattern("a.b.c"), "a.bxc")
    ensures !PatternMatches(UrlPattern("a.b.c"), "axb.c")
  {
    LaterDotPattern();
    var p := [Char('a'), Char('.'), Char('b'), AnyChar, Char('c')];
    assert PatternMatches(p, "a.bxc") by {
      forall k | 0 <= k < 5 ensures AtomMatches(p[k], "a.bxc"[k], false) {
      }
    }
    assert !AtomMatches(p[1], "axb.c"[1], false);
    assert SafeUrl("a.b.c") by {
      forall i | 0 <= i < 5 ensures "a.b.c"[i] == '.' || "a.b.c"[i] == '?' || !IsRegexSyntax("a.b.c"[i]) {
      }
      assert '?' !in "a.b.c";
    }
  }

  lemma Regroup(a: string, b: string, c: string, d: string, e: string)
    ensures a + (b + c + d + e) == a + b + c + d + e
  {
  }

  lemma PlainText(s: string, p: seq<Atom>)
    requires '[' !in s
    ensures Replace(s, p) == s
  {
    ReplacePlainPrefix(s, [], p);
    assert s + [] == s;
  }

  lemma TwoLinksLayout(pre: string, t1: string, u1: string, mid: string, t2: string, link: string, post: string)
    ensures pre + "[" + t1 + "](" + u1 + ")" + mid + "[" + t2 + "](" + link + ")" + post
         == pre + ("[" + ((t1 + "](" + u1 + ")" + mid) + ("[" + t2 + "](" + link + ")" + post)))
    ensures "[" + ((t1 + "](" + u1 + ")" + mid) + ("[" + t2 + "](" + link + ")" + post))
         == "[" + t1 + "](" + u1 + ")" + (mid + ("[" + t2 + "](" + link + ")" + post))
    ensures pre + ("[" + ((t1 + "](" + u1 + ")" + mid) + ("**" + t2 + "**" + post)))
         == pre + "[" + t1 + "](" + u1 + ")" + mid + "**" + t2 + "**" + post
  {
  }

  /** Of two links, the one to another URL is kept and the one to the URL
      is removed, as in the repository's own example line. */
  lemma RemoveSecondOfTwoLinks(pre: string, t1: string, u1: string, mid: string,
                               t2: string, link: string, post: string)
    requires SafeUrl(link)
    requires '[' !in pre && '[' !in t1 && '[' !in u1 && '[' !in mid && '[' !in post
    requires ']' !in t1 && ']' !in t2
    requires exists d :: 0 <= d < |u1| && d < |link| && !AtomMatches(UrlPattern(link)[d], u1[d], false)
    ensures RemoveLinkFromLine(pre + "[" + t1 + "](" + u1 + ")" + mid + "[" + t2 + "](" + link + ")" + post, link)
         == pre + "[" + t1 + "](" + u1 + ")" + mid + "**" + t2 + "**" + post
  {
    var p := UrlPattern(link);
    var second := "[" + t2 + "](" + link + ")" + post;
    var kept := t1 + "](" + u1 + ")" + mid;
    var line := pre + "[" + t1 + "](" + u1 + ")" + mid + "[" + t2 + "](" + link + ")" + post;
    TwoLinksLayout(pre, t1, u1, mid, t2, link, post);
    assert RemoveLinkFromLine(line, link) == Replace(pre + ("[" + (kept + second)), p) by {
      RemoveLinkUsesUrlPattern(line, link);
    }
    assert Replace(pre + ("[" + (kept + second)), p) == pre + Replace("[" + (kept + second), p) by {
      ReplacePlainPrefix(pre, "[" + (kept + second), p);
    }
    assert Replace("[" + (kept + second), p) == "[" + Replace(kept + second, p) by {
      OtherLinkInFront(t1, u1, link, mid + second);
      ReplaceCons("[" + (kept + second), p);
      assert ("[" + (kept + second))[1..] == kept + second;
    }
    assert Replace(kept + second, p) == kept + Replace(second, p) by {
      assert '[' !in kept by {
        assert '[' !in "](" && '[' !in ")";
      }
      ReplacePlainPrefix(kept, second, p);
    }
    assert Replace(second, p) == "**" + t2 + "**" + post by {
      LinkInFront(t2, link, post);
      PlainText(post, p);
      Regroup([], "**", t2, "**", post);
    }
  }

  // ---------------------------------------------------------------------
  // removeBrokenLinksFromFile

  /** Links whose URLs the escaping turns into the pattern they stand for. */
  predicate SafeLinks(links: seq<BrokenLink>) {
    forall b :: b in links ==> SafeUrl(b.link)
  }

  /** Every link names a line of the file. */
  predicate InRange(links: seq<BrokenLink>, count: nat) {
    forall b :: b in links ==> 1 <= b.lineNumber <= count
  }

  /** The loop of `removeBrokenLinksFromFile` on the file's lines: each link,
      in order, is removed from the line it was found on. A line number
      outside the file makes `lines[n - 1]` undefined and the call throw,
      so nothing is written: `None`. */
  function RewriteLines(lines: seq<string>, links: seq<BrokenLink>): Option<seq<string>>
    requires SafeLinks(links)
    decreases |links|
  {
    if links == [] then Some(lines)
    else
      var b := links[0];
      if b.lineNumber < 1 || b.lineNumber > |lines| then None
      else
        var k := b.lineNumber - 1;
        RewriteLines(lines[k := RemoveLinkFromLine(lines[k], b.link)], links[1..])
  }

  /** Only a line some link points at can change. */
  predicate Untouched(links: seq<BrokenLink>, k: nat) {
    forall b :: b in links ==> b.lineNumber != k + 1
  }

  /** The rewrite succeeds exactly when every line number is in range. */
  lemma {:induction false} RewriteDefinedIff(lines: seq<string>, links: seq<BrokenLink>)
    requires SafeLinks(links)
    ensures RewriteLines(lines, links).Some? <==> InRange(links, |lines|)
    decreases |links|
  {
    if links != [] {
      var b := links[0];
      assert b in links;
      if 1 <= b.lineNumber <= |lines| {
        var k := b.lineNumber - 1;
        assert forall c :: c in links[1..] ==> c in links;
        RewriteDefinedIff(lines[k := RemoveLinkFromLine(lines[k], b.link)], links[1..]);
        assert InRange(links, |lines|) <==> InRange(links[1..], |lines|) by {
          assert links == [b] + links[1..];
        }
      }
    }
  }

  /** What becomes of line `k` (counted from zero): the links found on it
      are removed from it one after the other, in the order given. */
  function LineAfter(line: string, links: seq<BrokenLink>, k: nat): string
    requires SafeLinks(links)
    decreases |links|
  {
    if links == [] then line
    else if links[0].lineNumber == k + 1 then LineAfter(RemoveLinkFromLine(line, links[0].link), links[1..], k)
    else LineAfter(line, links[1..], k)
  }

  /** Line by line, the rewrite is the removal of that line's own links:
      links on other lines do not affect it. */
  lemma {:induction false} RewriteLineByLine(lines: seq<string>, links: seq<BrokenLink>)
    requires SafeLinks(links)
    ensures RewriteLines(lines, links).Some? ==>
      |RewriteLines(lines, links).value| == |lines| &&
      forall k :: 0 <= k < |lines| ==> RewriteLines(lines, links).value[k] == LineAfter(lines[k], links, k)
    decreases |links|
  {
    if links != [] {
      var b := links[0];
      if 1 <= b.lineNumber <= |lines| {
        var k := b.lineNumber - 1;
        assert forall c :: c in links[1..] ==> c in links;
        var next := lines[k := RemoveLinkFromLine(lines[k], b.link)];
        RewriteLineByLine(next, links[1..]);
        var r := RewriteLines(next, links[1..]);
        assert RewriteLines(lines, links) == r;
        if r.Some? {
          forall j | 0 <= j < |lines| ensures r.value[j] == LineAfter(lines[j], links, j) {
            assert r.value[j] == LineAfter(next[j], links[1..], j);
          }
        }
      }
    }
  }

  /** A line no link points at is kept as it is. */
  lemma {:induction false} LineAfterUntouched(line: string, links: seq<BrokenLink>, k: nat)
    requires SafeLinks(links) && Untouched(links, k)
    ensures LineAfter(line, links, k) == line
    decreases |links|
  {
    if links != [] {
      assert links[0] in links;
      assert forall c :: c in links[1..] ==> c in links;
      LineAfterUntouched(line, links[1..], k);
    }
  }

  /** A successful rewrite keeps the number of lines, and every line no
      link points at is kept as it is. */
  lemma RewriteKeepsOtherLines(lines: seq<string>, links: seq<BrokenLink>)
    requires SafeLinks(links)
    ensures RewriteLines(lines, links).Some? ==> |RewriteLines(lines, links).value| == |lines|
    ensures RewriteLines(lines, links).Some? ==>
      forall k :: 0 <= k < |lines| && Untouched(links, k) ==> RewriteLines(lines, links).value[k] == lines[k]
  {
    RewriteLineByLine(lines, links);
    forall k | 0 <= k < |lines| && Untouched(links, k) ensures LineAfter(lines[k], links, k) == lines[k] {
      LineAfterUntouched(lines[k], links, k);
    }
  }

  /** `removeBrokenLinksFromFile` as the source writes it: the lines are
      updated in place, link by link. */
  method RemoveBrokenLinks(lines: seq<string>, links: seq<BrokenLink>) returns (r: Option<seq<string>>)
    requires SafeLinks(links)
    ensures r == RewriteLines(lines, links)
  {
    var current := lines;
    assert links[0..] == links;
    for t := 0 to |links|
      invariant RewriteState(lines, links, t, current)
    {
      var b := links[t];
      RewriteStep(lines, links, t, current);
      if b.lineNumber < 1 || b.lineNumber > |current| {
        return None;
      }
      current := RemoveLinkAt(current, b);
    }
    RewriteDone(lines, links, current);
    r := Some(current);
  }

  /** When every link has been applied, the current lines are the rewrite. */
  lemma RewriteDone(lines: seq<string>, links: seq<BrokenLink>, current: seq<string>)
    requires SafeLinks(links) && RewriteState(lines, links, |links|, current)
    ensures RewriteLines(lines, links) == Some(current)
  {
    assert links[|links|..] == [];
  }

  /** The state of the rewrite loop before link `t`: the remaining links,
      applied to the current lines, give the rewrite of the whole file. */
  predicate RewriteState(lines: seq<string>, links: seq<BrokenLink>, t: nat, current: seq<string>)
    requires t <= |links| && SafeLinks(links)
  {
    SafeLinks(links[t..]) && RewriteLines(current, links[t..]) == RewriteLines(lines, links)
  }

  /** The lines with one link removed from the line it names. */
  function RemoveLinkAt(lines: seq<string>, b: BrokenLink): seq<string>
    requires SafeUrl(b.link) && 1 <= b.lineNumber <= |lines|
  {
    lines[b.lineNumber - 1 := RemoveLinkFromLine(lines[b.lineNumber - 1], b.link)]
  }

  /** One link of the rewrite: it fails at once, or the loop state holds
      for the next link with the updated line. */
  lemma RewriteStep(lines: seq<string>, links: seq<BrokenLink>, t: nat, current: seq<string>)
    requires t < |links| && SafeLinks(links) && RewriteState(lines, links, t, current)
    ensures SafeUrl(links[t].link) &&
      var n := links[t].lineNumber;
      if n < 1 || n > |current| then RewriteLines(lines, links) == None
      else RewriteState(lines, links, t + 1, RemoveLinkAt(current, links[t]))
  {
    assert links[t..][1..] == links[t + 1..];
    assert links[t..][0] == links[t];
    assert links[t] in links[t..];
    assert forall c :: c in links[t + 1..] ==> c in links[t..];
  }

  /** Replacing links never introduces a line break. */
  lemma {:induction false} ReplaceKeepsNoBreak(s: string, p: seq<Atom>)
    requires '\n' !in s
    ensures '\n' !in Replace(s, p)
    decreases |s|
  {
    if s != [] {
      match LinkAt(s, p)
      case Some(m) =>
        ReplaceKeepsNoBreak(s[m.end..], p);
        assert forall c :: c in s[1..m.close] ==> c in s;
        assert forall c :: c in s[m.end..] ==> c in s;
        assert '\n' !in "**";
      case None =>
        ReplaceKeepsNoBreak(s[1..], p);
        assert forall c :: c in s[1..] ==> c in s;
    }
  }

  predicate NoBreakLines(lines: seq<string>) {
    forall k :: 0 <= k < |lines| ==> '\n' !in lines[k]
  }

  lemma {:induction false} LineAfterKeepsNoBreak(line: string, links: seq<BrokenLink>, k: nat)
    requires SafeLinks(links) && '\n' !in line
    ensures '\n' !in LineAfter(line, links, k)
    decreases |links|
  {
    if links != [] {
      var b := links[0];
      assert SafeLinks(links[1..]) by {
        assert forall c :: c in links[1..] ==> c in links;
      }
      if b.lineNumber == k + 1 {
        assert SafeUrl(b.link) by {
          assert b in links;
        }
        var next := RemoveLinkFromLine(line, b.link);
        assert '\n' !in next by {
          RemoveLinkUsesUrlPattern(line, b.link);
          ReplaceKeepsNoBreak(line, UrlPattern(b.link));
        }
        LineAfterKeepsNoBreak(next, links[1..], k);
      } else {
        LineAfterKeepsNoBreak(line, links[1..], k);
      }
    }
  }

  lemma RewriteKeepsNoBreak(lines: seq<string>, links: seq<BrokenLink>)
    requires SafeLinks(links) && NoBreakLines(lines)
    ensures RewriteLines(lines, links).Some? ==> NoBreakLines(RewriteLines(lines, links).value)
  {
    RewriteLineByLine(lines, links);
    forall k | 0 <= k < |lines| ensures '\n' !in LineAfter(lines[k], links, k) {
      LineAfterKeepsNoBreak(lines[k], links, k);
    }
  }

  /** The content `removeBrokenLinksFromFile` writes back: the file split
      into lines, rewritten, and joined again. */
  function RemoveBrokenLinksFromFile(content: string, links: seq<BrokenLink>): Option<string>
    requires SafeLinks(links)
  {
    match RewriteLines(Split(content, '\n'), links)
    case None => None
    case Some(lines) => Some(Join(lines, '\n'))
  }

  /** The written file has the same lines as before, except the rewritten
      ones: splitting it again gives the rewritten lines. */
  lemma RemoveBrokenLinksKeepsLines(content: string, links: seq<BrokenLink>)
    requires SafeLinks(links)
    ensures RemoveBrokenLinksFromFile(content, links).Some? ==>
      Split(RemoveBrokenLinksFromFile(content, links).value, '\n') == RewriteLines(Split(content, '\n'), links).value
    ensures RemoveBrokenLinksFromFile(content, links).Some? ==>
      |Split(RemoveBrokenLinksFromFile(content, links).value, '\n')| == |Split(content, '\n')|
  {
    var lines := Split(content, '\n');
    RewriteKeepsOtherLines(lines, links);
    RewriteKeepsNoBreak(lines, links);
    if RewriteLines(lines, links).Some? {
      SplitJoin(RewriteLines(lines, links).value, '\n');
    }
  }

  /** With no links the file is written back exactly as it was read. */
  lemma RemoveNothingKeepsFile(content: string)
    ensures RemoveBrokenLinksFromFile(content, []) == Some(content)
  {
    JoinSplit(content, '\n');
  }

  /** In `scan`, the links the check reports for a file are removed from
      that same file: each names one of its lines, so the rewrite always
      goes through and the file keeps its number of lines. */
  lemma ScanRemovalSucceeds(env: Env, content: string, s: Session)
    requires SafeLinks(CheckFile(env, [], Split(content, '\n'), s).brokenLinks)
    ensures RemoveBrokenLinksFromFile(content, CheckFile(env, [], Split(content, '\n'), s).brokenLinks).Some?
    ensures |Split(RemoveBrokenLinksFromFile(content, CheckFile(env, [], Split(content, '\n'), s).brokenLinks).value, '\n')|
         == |Split(content, '\n')|
  {
    var lines := Split(content, '\n');
    var links := CheckFile(env, [], lines, s).brokenLinks;
    CheckFileSpec(env, [], lines, s);
    RewriteDefinedIff(lines, links);
    RemoveBrokenLinksKeepsLines(content, links);
  }

  // ---------------------------------------------------------------------
  // The CSV report of `scan`

  const CsvHeader := "File,Line,Link"

  /** The file name of the changelog schema, which the scan skips. */
  const SchemaFile := "changelog.schema.json"

  /** One row: file name, line number and link, separated by commas. */
  function CsvRow(file: string, b: BrokenLink): string {
    file + "," + Decimal(b.lineNumber) + "," + b.link
  }

  /** Reads a row back: the file name runs to the first comma, the line
      number to the next, and the link is the rest, commas included. */
  function ReadRow(row: string): Option<(string, BrokenLink)> {
    match FirstIndex(row, ',')
    case None => None
    case Some(i) =>
      var rest := row[i + 1..];
      match FirstIndex(rest, ',')
      case None => None
      case Some(j) =>
        var digits := rest[..j];
        if |digits| == 0 || !IsDigits(digits) then None
        else Some((row[..i], BrokenLink(DecimalValue(digits), rest[j + 1..])))
  }

  lemma DigitsHaveNoComma(s: string)
    requires IsDigits(s)
    ensures ',' !in s
  {
    forall k | 0 <= k < |s| ensures s[k] != ',' {
    }
  }

  /** A row reads back as the file and the broken link it was written
      from, provided the file name holds no comma; the link may. */
  lemma ReadRowRoundTrip(file: string, b: BrokenLink)
    requires ',' !in file
    ensures ReadRow(CsvRow(file, b)) == Some((file, b))
  {
    var digits := Decimal(b.lineNumber);
    DigitsHaveNoComma(digits);
    var row := CsvRow(file, b);
    assert row == file + ([','] + (digits + ([','] + b.link)));
    var rest := digits + ([','] + b.link);
    assert FirstIndex(row, ',') == Some(|file|) by {
      assert row[..|file|] == file;
      FirstIndexAt(row, ',', |file|);
    }
    assert row[|file| + 1..] == rest;
    assert FirstIndex(rest, ',') == Some(|digits|) by {
      assert rest[..|digits|] == digits;
      FirstIndexAt(rest, ',', |digits|);
    }
    assert rest[..|digits|] == digits && rest[|digits| + 1..] == b.link;
    DecimalRoundTrip(b.lineNumber);
  }

  function FileRows(file: string, links: seq<BrokenLink>): (rows: seq<string>)
    ensures |rows| == |links|
  {
    seq(|links|, t requires 0 <= t < |links| => CsvRow(file, links[t]))
  }

  /** Row `t` of a file reads back as that file and its `t`-th broken
      link, when the file name holds no comma. */
  lemma FileRowsReadBack(file: string, links: seq<BrokenLink>)
    requires ',' !in file
    ensures forall t :: 0 <= t < |links| ==> ReadRow(FileRows(file, links)[t]) == Some((file, links[t]))
  {
    forall t | 0 <= t < |links| ensures ReadRow(FileRows(file, links)[t]) == Some((file, links[t])) {
      ReadRowRoundTrip(file, links[t]);
    }
  }

  /** The rows gathered by `scan`, or the name of the file whose read
      failed, which ends the scan. */
  datatype ScanOutcome =
    | Rows(rows: seq<string>, session: Session)
    | ScanFailed(fileName: string, session: Session)

  /** The loop of `scan` over the directory's files: the schema file is
      skipped in any letter case; every other file is read and checked
      with no predicted URLs, and contributes one row per broken link. */
  function ScanFiles(env: Env, names: seq<string>, read: string -> Option<string>, s: Session): ScanOutcome
    decreases |names|
  {
    if names == [] then Rows([], s)
    else
      var name := names[0];
      if LowerStr(name) == SchemaFile then ScanFiles(env, names[1..], read, s)
      else match read(name)
        case None => ScanFailed(name, s)
        case Some(content) =>
          var c := CheckFile(env, [], Split(content, '\n'), s);
          match ScanFiles(env, names[1..], read, c.session)
          case ScanFailed(n, s') => ScanFailed(n, s')
          case Rows(rest, s') => Rows(FileRows(name, c.brokenLinks) + rest, s')
  }

  /** The content of `brokenFiles.csv`: the header and the rows, one per
      line; no file is written when there is no row. */
  function CsvFile(rows: seq<string>): Option<string> {
    var lines := [CsvHeader] + rows;
    if |lines| > 1 then Some(Join(lines, '\n')) else None
  }

  /** The schema file is never read: two readers that agree on every other
      name give the same outcome. */
  lemma {:induction false} SchemaFileIsNotRead(env: Env, names: seq<string>, read: string -> Option<string>,
                                              read': string -> Option<string>, s: Session)
    requires forall n :: n in names && LowerStr(n) != SchemaFile ==> read(n) == read'(n)
    ensures ScanFiles(env, names, read, s) == ScanFiles(env, names, read', s)
    decreases |names|
  {
    if names != [] {
      var name := names[0];
      assert name in names;
      assert forall n :: n in names[1..] ==> n in names;
      if LowerStr(name) == SchemaFile {
        SchemaFileIsNotRead(env, names[1..], read, read', s);
      } else {
        match read(name)
        case None =>
        case Some(content) =>
          var c := CheckFile(env, [], Split(content, '\n'), s);
          SchemaFileIsNotRead(env, names[1..], read, read', c.session);
      }
    }
  }

  /** Every row names a scanned file other than the schema and a broken
      link with a line number of that file and a non-empty link. */
  lemma {:induction false} ScanRowsSpec(env: Env, names: seq<string>, read: string -> Option<string>, s: Session)
    ensures ScanFiles(env, names, read, s).Rows? ==>
      forall r :: r in ScanFiles(env, names, read, s).rows ==>
        exists n, b :: (n in names && LowerStr(n) != SchemaFile && r == CsvRow(n, b)
                         && 1 <= b.lineNumber && b.link != "")
    decreases |names|
  {
    if names != [] {
      var name := names[0];
      assert forall n :: n in names[1..] ==> n in names;
      if LowerStr(name) == SchemaFile {
        ScanRowsSpec(env, names[1..], read, s);
      } else {
        match read(name)
        case None =>
        case Some(content) =>
          var lines := Split(content, '\n');
          var c := CheckFile(env, [], lines, s);
          ScanRowsSpec(env, names[1..], read, c.session);
          CheckFileSpec(env, [], lines, s);
          assert name in names;
          forall r | r in FileRows(name, c.brokenLinks)
            ensures exists n, b :: (n in names && LowerStr(n) != SchemaFile && r == CsvRow(n, b)
                                    && 1 <= b.lineNumber && b.link != "")
          {
            var t :| 0 <= t < |c.brokenLinks| && r == CsvRow(name, c.brokenLinks[t]);
            assert c.brokenLinks[t] in c.brokenLinks;
          }
      }
    }
  }

  /** Every name other than the schema file can be read. */
  predicate Scannable(names: seq<string>, read: string -> Option<string>) {
    forall j :: 0 <= j < |names| && LowerStr(names[j]) != SchemaFile ==> read(names[j]).Some?
  }

  /** The loop of `scan` run front to back over the first `k` names: the
      schema file is skipped, every other file is read and checked in the
      session the files before it reached and its rows are pushed, one per
      broken link in order; the first read that fails ends the loop. */
  function RowsUpTo(env: Env, names: seq<string>, read: string -> Option<string>, k: nat, s: Session): ScanOutcome
    requires k <= |names|
    decreases k
  {
    if k == 0 then Rows([], s)
    else match RowsUpTo(env, names, read, k - 1, s)
      case ScanFailed(n, s') => ScanFailed(n, s')
      case Rows(rows, s') =>
        var name := names[k - 1];
        if LowerStr(name) == SchemaFile then Rows(rows, s')
        else match read(name)
          case None => ScanFailed(name, s')
          case Some(content) =>
            var c := CheckFile(env, [], Split(content, '\n'), s');
            Rows(rows + FileRows(name, c.brokenLinks), c.session)
  }

  /** The front-to-back loop over `name` and then `names`: `name` comes
      first, and its rows precede those of the loop over `names`. */
  lemma {:induction false} RowsUpToCons(env: Env, name: string, names: seq<string>,
                                       read: string -> Option<string>, k: nat, s: Session)
    requires k <= |names|
    ensures RowsUpTo(env, [name] + names, read, k + 1, s) ==
      if LowerStr(name) == SchemaFile then RowsUpTo(env, names, read, k, s)
      else match read(name)
        case None => ScanFailed(name, s)
        case Some(content) =>
          var c := CheckFile(env, [], Split(content, '\n'), s);
          match RowsUpTo(env, names, read, k, c.session)
          case ScanFailed(n, s') => ScanFailed(n, s')
          case Rows(rows, s') => Rows(FileRows(name, c.brokenLinks) + rows, s')
    decreases k
  {
    var all := [name] + names;
    assert all[0] == name;
    if k == 0 {
      if LowerStr(name) != SchemaFile {
        match read(name)
        case None =>
        case Some(content) =>
          var c := CheckFile(env, [], Split(content, '\n'), s);
          assert [] + FileRows(name, c.brokenLinks) == FileRows(name, c.brokenLinks) + [];
      }
    } else {
      RowsUpToCons(env, name, names, read, k - 1, s);
      assert all[k] == names[k - 1];
      if LowerStr(name) != SchemaFile {
        match read(name)
        case None =>
        case Some(content) =>
          var c := CheckFile(env, [], Split(content, '\n'), s);
          match RowsUpTo(env, names, read, k - 1, c.session)
          case ScanFailed(n, s') =>
          case Rows(rows, s') =>
            var next := names[k - 1];
            if LowerStr(next) != SchemaFile {
              match read(next)
              case None =>
              case Some(content') =>
                var c' := CheckFile(env, [], Split(content', '\n'), s');
                ConcatAssociative(FileRows(name, c.brokenLinks), rows, FileRows(next, c'.brokenLinks));
            }
      }
    }
  }

  lemma ScannableSnoc(names: seq<string>, read: string -> Option<string>, k: nat)
    requires k < |names|
    ensures Scannable(names[..k + 1], read) <==>
      Scannable(names[..k], read) && (LowerStr(names[k]) != SchemaFile ==> read(names[k]).Some?)
  {
    var a := names[..k];
    var b := names[..k + 1];
    assert forall j :: 0 <= j < k ==> b[j] == a[j];
    assert b[k] == names[k];
  }

  /** The scan gives rows exactly when every file other than the schema
      can be read; otherwise it names the first that cannot. */
  lemma {:induction false} RowsUpToScannable(env: Env, names: seq<string>, read: string -> Option<string>, k: nat, s: Session)
    requires k <= |names|
    ensures var o := RowsUpTo(env, names, read, k, s);
      && (o.Rows? <==> Scannable(names[..k], read))
      && (o.ScanFailed? ==> exists j :: (0 <= j < k && names[j] == o.fileName && LowerStr(names[j]) != SchemaFile
                                         && read(names[j]).None? && Scannable(names[..j], read)))
    decreases k
  {
    if k > 0 {
      var p := RowsUpTo(env, names, read, k - 1, s);
      var o := RowsUpTo(env, names, read, k, s);
      RowsUpToScannable(env, names, read, k - 1, s);
      ScannableSnoc(names, read, k - 1);
      if p.ScanFailed? {
        assert o == p;
        var j :| (0 <= j < k - 1 && names[j] == p.fileName && LowerStr(names[j]) != SchemaFile
                  && read(names[j]).None? && Scannable(names[..j], read));
      } else if LowerStr(names[k - 1]) != SchemaFile && read(names[k - 1]).None? {
        assert o == ScanFailed(names[k - 1], p.session);
        assert Scannable(names[..k - 1], read);
      } else {
        assert o.Rows?;
      }
    }
  }

  /** The directory loop of `scan`: the rows are, file by file in
      directory order, one row per broken link of every file but the
      schema, each checked with no predicted URLs; rows come exactly when
      every such file can be read, and otherwise the first that cannot is
      named. */
  lemma {:induction false} ScanFilesSpec(env: Env, names: seq<string>, read: string -> Option<string>, s: Session)
    ensures var o := ScanFiles(env, names, read, s);
      && o == RowsUpTo(env, names, read, |names|, s)
      && (o.Rows? <==> Scannable(names, read))
      && (o.ScanFailed? ==> exists j :: (0 <= j < |names| && names[j] == o.fileName && LowerStr(names[j]) != SchemaFile
                                         && read(names[j]).None? && Scannable(names[..j], read)))
  {
    ScanFilesFrontToBack(env, names, read, s);
    RowsUpToScannable(env, names, read, |names|, s);
    assert names[..|names|] == names;
  }

  lemma {:induction false} ScanFilesFrontToBack(env: Env, names: seq<string>, read: string -> Option<string>, s: Session)
    ensures ScanFiles(env, names, read, s) == RowsUpTo(env, names, read, |names|, s)
    decreases |names|
  {
    if names != [] {
      var name := names[0];
      var rest := names[1..];
      assert names == [name] + rest;
      RowsUpToCons(env, name, rest, read, |rest|, s);
      if LowerStr(name) == SchemaFile {
        ScanFilesFrontToBack(env, rest, read, s);
      } else {
        match read(name)
        case None =>
        case Some(content) =>
          var c := CheckFile(env, [], Split(content, '\n'), s);
          ScanFilesFrontToBack(env, rest, read, c.session);
      }
    }
  }

  /** The CSV file is written exactly when there is a row, and reads back,
      line by line, as the header followed by the rows. */
  lemma CsvFileLines(rows: seq<string>)
    requires forall r :: r in rows ==> '\n' !in r
    ensures CsvFile(rows).Some? <==> rows != []
    ensures CsvFile(rows).Some? ==> Split(CsvFile(rows).value, '\n') == [CsvHeader] + rows
  {
    var lines := [CsvHeader] + rows;
    assert '\n' !in CsvHeader;
    forall k | 0 <= k < |lines| ensures '\n' !in lines[k] {
      if k > 0 {
        assert lines[k] == rows[k - 1];
        assert rows[k - 1] in rows;
      }
    }
    SplitJoin(lines, '\n');
  }
}
