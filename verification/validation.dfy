/** The line, file and batch validators: `getInvalidLinks`,
    `isLineInvalid`, `checkFileForBrokenLinks` and
    `checkFilesForBrokenLinks`. File contents come in as a parameter. */
module Validation {
  import opened Wrappers
  import opened Text
  import opened Types
  import opened GraphUrl
  import opened FileFilter
  import opened LinkExtract
  import opened UrlCheck

  /** The invalid links of a line and the session after classifying them. */
  datatype LineCheck = LineCheck(links: seq<string>, session: Session)

  /** The loop of `getInvalidLinks` over the URLs of one line: each is
      classified in turn, and an invalid one is kept unless it is empty. */
  function InvalidAmong(env: Env, newUrls: seq<string>, urls: seq<string>, s: Session): (c: LineCheck)
    ensures IsSubsequence(c.links, urls)
    ensures forall l :: l in c.links ==> l != "" && l in urls
    decreases |urls|
  {
    if urls == [] then LineCheck([], s)
    else
      var v := IsUrlInvalid(env, newUrls, Some(urls[0]), s);
      var rest := InvalidAmong(env, newUrls, urls[1..], v.session);
      SubsequenceMembers(rest.links, urls[1..]);
      if v.invalid && urls[0] != "" then
        var links := [urls[0]] + rest.links;
        assert links[1..] == rest.links;
        LineCheck(links, rest.session)
      else
        LineCheck(rest.links, rest.session)
  }

  /** Checking `a ++ b` is checking `a` and then `b` from the session `a`
      ends in; the links found are concatenated. */
  lemma {:induction false} InvalidAmongAppend(env: Env, newUrls: seq<string>, a: seq<string>, b: seq<string>, s: Session)
    ensures var x := InvalidAmong(env, newUrls, a, s);
      var y := InvalidAmong(env, newUrls, b, x.session);
      InvalidAmong(env, newUrls, a + b, s) == LineCheck(x.links + y.links, y.session)
    decreases |a|
  {
    if a == [] {
      assert a + b == b;
    } else {
      var v := IsUrlInvalid(env, newUrls, Some(a[0]), s);
      assert (a + b)[0] == a[0] && (a + b)[1..] == a[1..] + b;
      InvalidAmongAppend(env, newUrls, a[1..], b, v.session);
      var x' := InvalidAmong(env, newUrls, a[1..], v.session);
      var y := InvalidAmong(env, newUrls, b, x'.session);
      if v.invalid && a[0] != "" {
        ConcatAssociative([a[0]], x'.links, y.links);
      }
    }
  }

  /** The URL at index `t` is kept exactly when it is non-empty and its
      verdict, in the session reached after the URLs before it, is
      invalid; it comes after the links kept before it and before those
      kept after it. */
  lemma InvalidAmongAt(env: Env, newUrls: seq<string>, urls: seq<string>, s: Session, t: nat)
    requires t < |urls|
    ensures var before := InvalidAmong(env, newUrls, urls[..t], s);
      var v := IsUrlInvalid(env, newUrls, Some(urls[t]), before.session);
      var after := InvalidAmong(env, newUrls, urls[t + 1..], v.session);
      InvalidAmong(env, newUrls, urls, s) ==
        LineCheck(before.links + (if v.invalid && urls[t] != "" then [urls[t]] else []) + after.links, after.session)
  {
    var before := InvalidAmong(env, newUrls, urls[..t], s);
    var v := IsUrlInvalid(env, newUrls, Some(urls[t]), before.session);
    var tail := [urls[t]] + urls[t + 1..];
    assert urls == urls[..t] + tail;
    InvalidAmongAppend(env, newUrls, urls[..t], tail, s);
    assert tail[0] == urls[t] && tail[1..] == urls[t + 1..];
    var after := InvalidAmong(env, newUrls, urls[t + 1..], v.session);
    var here := if v.invalid && urls[t] != "" then [urls[t]] else [];
    assert InvalidAmong(env, newUrls, tail, before.session) == LineCheck(here + after.links, after.session);
    ConcatAssociative(before.links, here, after.links);
  }

  /** Checking the links of a line keeps the cache invariant. */
  lemma {:induction false} InvalidAmongKeepsCacheWellFormed(env: Env, newUrls: seq<string>, urls: seq<string>, s: Session)
    requires Wf(s)
    ensures Wf(InvalidAmong(env, newUrls, urls, s).session)
    decreases |urls|
  {
    if urls != [] {
      var v := IsUrlInvalid(env, newUrls, Some(urls[0]), s);
      VerdictKeepsCacheWellFormed(env, newUrls, Some(urls[0]), s);
      InvalidAmongKeepsCacheWellFormed(env, newUrls, urls[1..], v.session);
    }
  }

  /** `getInvalidLinks(line, newUrls)`. */
  function GetInvalidLinks(env: Env, newUrls: seq<string>, line: string, s: Session): LineCheck {
    InvalidAmong(env, newUrls, Urls(line), s)
  }

  /** The links `getInvalidLinks` reports are, in order, some of the
      line's URLs: none empty, none holding `)` or a line terminator. */
  lemma ReportedLinksAreUrls(env: Env, newUrls: seq<string>, line: string, s: Session)
    ensures IsSubsequence(GetInvalidLinks(env, newUrls, line, s).links, Urls(line))
    ensures forall l :: l in GetInvalidLinks(env, newUrls, line, s).links ==>
      l != "" && ')' !in l && NoLineTerminator(l)
  {
    var urls := Urls(line);
    var c := InvalidAmong(env, newUrls, urls, s);
    forall l | l in c.links ensures l != "" && ')' !in l && NoLineTerminator(l) {
      var t :| 0 <= t < |urls| && urls[t] == l;
    }
  }

  /** The loop of `isLineInvalid`: stop at the first invalid URL. */
  function AnyInvalid(env: Env, newUrls: seq<string>, urls: seq<string>, s: Session): (v: Verdict)
    ensures urls == [] ==> v == Verdict(false, s)
    ensures "" in urls ==> v.invalid
    decreases |urls|
  {
    if urls == [] then Verdict(false, s)
    else
      var v := IsUrlInvalid(env, newUrls, Some(urls[0]), s);
      if v.invalid then v
      else
        assert forall u :: u in urls ==> u == urls[0] || u in urls[1..];
        AnyInvalid(env, newUrls, urls[1..], v.session)
  }

  /** `isLineInvalid(line, newUrls)`. */
  function IsLineInvalid(env: Env, newUrls: seq<string>, line: string, s: Session): (v: Verdict)
    ensures Urls(line) == [] ==> v == Verdict(false, s)
  {
    AnyInvalid(env, newUrls, Urls(line), s)
  }

  /** The two line checks agree except on the empty URL: a line is invalid
      exactly when `getInvalidLinks` reports a link or one of its links is
      empty, which `getInvalidLinks` never reports. */
  lemma {:induction false} AnyInvalidIffReported(env: Env, newUrls: seq<string>, urls: seq<string>, s: Session)
    ensures AnyInvalid(env, newUrls, urls, s).invalid <==>
      InvalidAmong(env, newUrls, urls, s).links != [] || "" in urls
    decreases |urls|
  {
    if urls != [] {
      var v := IsUrlInvalid(env, newUrls, Some(urls[0]), s);
      if !v.invalid {
        AnyInvalidIffReported(env, newUrls, urls[1..], v.session);
        assert "" in urls <==> "" in urls[1..] by {
          assert forall u :: u in urls <==> u == urls[0] || u in urls[1..];
        }
      }
    }
  }

  lemma LineInvalidIffReported(env: Env, newUrls: seq<string>, line: string, s: Session)
    ensures IsLineInvalid(env, newUrls, line, s).invalid <==>
      GetInvalidLinks(env, newUrls, line, s).links != [] || "" in Urls(line)
  {
    AnyInvalidIffReported(env, newUrls, Urls(line), s);
  }

  /** A line in which the link expression matches nowhere is valid and
      reports nothing, and classifies nothing. */
  lemma LineWithoutLinks(env: Env, newUrls: seq<string>, line: string, s: Session)
    requires forall p, j, k :: !IsMatch(line, p, j, k)
    ensures GetInvalidLinks(env, newUrls, line, s) == LineCheck([], s)
    ensures IsLineInvalid(env, newUrls, line, s) == Verdict(false, s)
  {
    NoMatchNoUrls(line);
  }

  /** `[x]()`: the empty URL makes the line invalid but is never reported. */
  lemma EmptyLink(env: Env, newUrls: seq<string>, line: string, s: Session)
    requires line == "[x]()"
    ensures GetInvalidLinks(env, newUrls, line, s).links == []
    ensures IsLineInvalid(env, newUrls, line, s).invalid
  {
    assert NoLineTerminator("x") by {
      assert forall c :: c in "x" ==> c == 'x';
    }
    SingleLink("", "x", "", "");
    assert "" + "[" + "x" + "](" + "" + ")" + "" == line;
  }

  /** The broken links of a file and the session after checking it. */
  datatype FileCheck = FileCheck(brokenLinks: seq<BrokenLink>, session: Session)

  /** The invalid links of one line, numbered with the line's number. */
  function Numbered(links: seq<string>, lineNumber: nat): (bs: seq<BrokenLink>)
    ensures |bs| == |links|
  {
    seq(|links|, t requires 0 <= t < |links| => BrokenLink(lineNumber, links[t]))
  }

  /** The links reported on line `n`, in order. */
  function LinksOnLine(bs: seq<BrokenLink>, n: nat): (links: seq<string>)
    ensures |links| <= |bs|
  {
    if bs == [] then []
    else if bs[0].lineNumber == n then [bs[0].link] + LinksOnLine(bs[1..], n)
    else LinksOnLine(bs[1..], n)
  }

  lemma {:induction false} LinksOnLineAppend(a: seq<BrokenLink>, b: seq<BrokenLink>, n: nat)
    ensures LinksOnLine(a + b, n) == LinksOnLine(a, n) + LinksOnLine(b, n)
    decreases |a|
  {
    if a == [] {
      assert a + b == b;
    } else {
      assert (a + b)[1..] == a[1..] + b;
      LinksOnLineAppend(a[1..], b, n);
    }
  }

  lemma {:induction false} LinksOnLineNumbered(links: seq<string>, m: nat, n: nat)
    ensures LinksOnLine(Numbered(links, m), n) == if m == n then links else []
    decreases |links|
  {
    if links != [] {
      assert Numbered(links, m)[1..] == Numbered(links[1..], m);
      LinksOnLineNumbered(links[1..], m, n);
    }
  }

  lemma {:induction false} LinksOnLineAbsent(bs: seq<BrokenLink>, n: nat)
    requires forall b :: b in bs ==> b.lineNumber != n
    ensures LinksOnLine(bs, n) == []
    decreases |bs|
  {
    if bs != [] {
      assert bs[0] in bs;
      assert forall b :: b in bs[1..] ==> b in bs;
      LinksOnLineAbsent(bs[1..], n);
    }
  }

  /** The URLs of every line of a file, line by line. */
  function LineUrls(lines: seq<string>): (urls: seq<seq<string>>)
    ensures |urls| == |lines|
  {
    seq(|lines|, t requires 0 <= t < |lines| => Urls(lines[t]))
  }

  /** Every link carries the 1-based number of a line from index `i` on,
      and is a non-empty URL of that line. */
  predicate LinksOfLines(bs: seq<BrokenLink>, urls: seq<seq<string>>, i: nat) {
    bs == [] ||
    (&& i + 1 <= bs[0].lineNumber <= |urls|
     && bs[0].link != ""
     && bs[0].link in urls[bs[0].lineNumber - 1]
     && LinksOfLines(bs[1..], urls, i))
  }

  /** Line numbers never decrease. */
  predicate InLineOrder(bs: seq<BrokenLink>) {
    |bs| <= 1 || (bs[0].lineNumber <= bs[1].lineNumber && InLineOrder(bs[1..]))
  }

  lemma {:induction false} LinksOfLinesMembers(bs: seq<BrokenLink>, urls: seq<seq<string>>, i: nat)
    requires LinksOfLines(bs, urls, i)
    ensures forall b :: b in bs ==>
      i + 1 <= b.lineNumber <= |urls| && b.link != "" && b.link in urls[b.lineNumber - 1]
  {
    if bs != [] {
      LinksOfLinesMembers(bs[1..], urls, i);
      assert forall b :: b in bs ==> b == bs[0] || b in bs[1..];
    }
  }

  lemma {:induction false} InLineOrderPairs(bs: seq<BrokenLink>)
    requires InLineOrder(bs)
    ensures forall a, b :: 0 <= a < b < |bs| ==> bs[a].lineNumber <= bs[b].lineNumber
  {
    if |bs| > 1 {
      InLineOrderPairs(bs[1..]);
      assert forall b :: 1 <= b < |bs| ==> bs[b] == bs[1..][b - 1];
    }
  }

  lemma {:induction false} Widen(bs: seq<BrokenLink>, urls: seq<seq<string>>, i: nat)
    requires LinksOfLines(bs, urls, i + 1)
    ensures LinksOfLines(bs, urls, i)
  {
    if bs != [] {
      Widen(bs[1..], urls, i);
    }
  }

  /** The links of line `i + 1` followed by links of later lines. */
  lemma {:induction false} LinesThenLater(links: seq<string>, rest: seq<BrokenLink>, urls: seq<seq<string>>, i: nat)
    requires i < |urls|
    requires forall l :: l in links ==> l != "" && l in urls[i]
    requires LinksOfLines(rest, urls, i + 1) && InLineOrder(rest)
    ensures LinksOfLines(Numbered(links, i + 1) + rest, urls, i)
    ensures InLineOrder(Numbered(links, i + 1) + rest)
    decreases |links|
  {
    var bs := Numbered(links, i + 1) + rest;
    if links == [] {
      assert bs == rest;
      Widen(rest, urls, i);
    } else {
      assert bs[1..] == Numbered(links[1..], i + 1) + rest;
      assert links[0] in links;
      assert forall l :: l in links[1..] ==> l in links;
      LinesThenLater(links[1..], rest, urls, i);
    }
  }

  /** The line loop of `checkFileForBrokenLinks` from line index `i` on,
      over the URLs of each line: every broken link carries the 1-based
      number of its line and is one of that line's non-empty URLs, and the
      links come in line order. */
  function CheckLinesFrom(env: Env, newUrls: seq<string>, urls: seq<seq<string>>, i: nat, s: Session): FileCheck
    requires i <= |urls|
    decreases |urls| - i
  {
    if i == |urls| then FileCheck([], s)
    else
      var line := InvalidAmong(env, newUrls, urls[i], s);
      var rest := CheckLinesFrom(env, newUrls, urls, i + 1, line.session);
      FileCheck(Numbered(line.links, i + 1) + rest.brokenLinks, rest.session)
  }

  /** Each reported link is a link of the line it is numbered with, and
      the reports come in line order. */
  lemma {:induction false} CheckLinesFromSpec(env: Env, newUrls: seq<string>, urls: seq<seq<string>>, i: nat, s: Session)
    requires i <= |urls|
    ensures LinksOfLines(CheckLinesFrom(env, newUrls, urls, i, s).brokenLinks, urls, i)
    ensures InLineOrder(CheckLinesFrom(env, newUrls, urls, i, s).brokenLinks)
    decreases |urls| - i
  {
    if i < |urls| {
      var line := InvalidAmong(env, newUrls, urls[i], s);
      CheckLinesFromSpec(env, newUrls, urls, i + 1, line.session);
      var rest := CheckLinesFrom(env, newUrls, urls, i + 1, line.session);
      LinesThenLater(line.links, rest.brokenLinks, urls, i);
    }
  }

  /** Checking the lines of a file keeps the cache invariant. */
  lemma {:induction false} CheckLinesKeepsCacheWellFormed(env: Env, newUrls: seq<string>, urls: seq<seq<string>>, i: nat, s: Session)
    requires i <= |urls| && Wf(s)
    ensures Wf(CheckLinesFrom(env, newUrls, urls, i, s).session)
    decreases |urls| - i
  {
    if i < |urls| {
      var line := InvalidAmong(env, newUrls, urls[i], s);
      InvalidAmongKeepsCacheWellFormed(env, newUrls, urls[i], s);
      CheckLinesKeepsCacheWellFormed(env, newUrls, urls, i + 1, line.session);
    }
  }

  /** `checkFileForBrokenLinks` on the lines of a file. */
  function CheckFile(env: Env, newUrls: seq<string>, lines: seq<string>, s: Session): FileCheck {
    CheckLinesFrom(env, newUrls, LineUrls(lines), 0, s)
  }


  /** Within a line, the links reported keep the order of the line's links. */
  lemma {:induction false} LinksKeepLineOrder(env: Env, newUrls: seq<string>, urls: seq<seq<string>>, i: nat, s: Session)
    requires i <= |urls|
    ensures forall n :: i + 1 <= n <= |urls| ==>
      IsSubsequence(LinksOnLine(CheckLinesFrom(env, newUrls, urls, i, s).brokenLinks, n), urls[n - 1])
    decreases |urls| - i
  {
    if i < |urls| {
      var line := InvalidAmong(env, newUrls, urls[i], s);
      var rest := CheckLinesFrom(env, newUrls, urls, i + 1, line.session);
      var here := Numbered(line.links, i + 1);
      var bs := here + rest.brokenLinks;
      assert CheckLinesFrom(env, newUrls, urls, i, s).brokenLinks == bs;
      LinksKeepLineOrder(env, newUrls, urls, i + 1, line.session);
      CheckLinesFromSpec(env, newUrls, urls, i + 1, line.session);
      LinksOfLinesMembers(rest.brokenLinks, urls, i + 1);
      forall n | i + 1 <= n <= |urls|
        ensures IsSubsequence(LinksOnLine(bs, n), urls[n - 1])
      {
        LinksOnLineAppend(here, rest.brokenLinks, n);
        LinksOnLineNumbered(line.links, i + 1, n);
        if n == i + 1 {
          LinksOnLineAbsent(rest.brokenLinks, n);
          assert LinksOnLine(bs, n) == line.links;
        } else {
          assert LinksOnLine(bs, n) == LinksOnLine(rest.brokenLinks, n);
        }
      }
    }
  }

  lemma FileLinksKeepLineOrder(env: Env, newUrls: seq<string>, lines: seq<string>, s: Session)
    ensures forall n :: 1 <= n <= |lines| ==>
      IsSubsequence(LinksOnLine(CheckFile(env, newUrls, lines, s).brokenLinks, n), LineUrls(lines)[n - 1])
  {
    LinksKeepLineOrder(env, newUrls, LineUrls(lines), 0, s);
  }

  lemma {:induction false} LinksOnLineMembers(bs: seq<BrokenLink>, n: nat)
    ensures forall l :: l in LinksOnLine(bs, n) ==> BrokenLink(n, l) in bs
    decreases |bs|
  {
    if bs != [] {
      LinksOnLineMembers(bs[1..], n);
      assert forall b :: b in bs[1..] ==> b in bs;
      assert bs[0] in bs;
    }
  }

  /** The lines before index `k`, checked front to back as the loop of
      `checkFileForBrokenLinks` runs: the links found so far and the
      session reached. */
  function CheckedUpTo(env: Env, newUrls: seq<string>, urls: seq<seq<string>>, k: nat, s: Session): FileCheck
    requires k <= |urls|
    decreases k
  {
    if k == 0 then FileCheck([], s)
    else
      var p := CheckedUpTo(env, newUrls, urls, k - 1, s);
      var line := InvalidAmong(env, newUrls, urls[k - 1], p.session);
      FileCheck(p.brokenLinks + Numbered(line.links, k), line.session)
  }

  /** The check of a file is the check of its first `k` lines followed by
      the check of the rest from the session those lines reached. */
  lemma {:induction false} CheckLinesSplit(env: Env, newUrls: seq<string>, urls: seq<seq<string>>, k: nat, s: Session)
    requires k <= |urls|
    ensures var p := CheckedUpTo(env, newUrls, urls, k, s);
      var r := CheckLinesFrom(env, newUrls, urls, k, p.session);
      CheckLinesFrom(env, newUrls, urls, 0, s) == FileCheck(p.brokenLinks + r.brokenLinks, r.session)
    decreases k
  {
    var p := CheckedUpTo(env, newUrls, urls, k, s);
    var r := CheckLinesFrom(env, newUrls, urls, k, p.session);
    if k == 0 {
      assert p.brokenLinks + r.brokenLinks == r.brokenLinks;
    } else {
      CheckLinesSplit(env, newUrls, urls, k - 1, s);
      var q := CheckedUpTo(env, newUrls, urls, k - 1, s);
      var line := InvalidAmong(env, newUrls, urls[k - 1], q.session);
      assert CheckLinesFrom(env, newUrls, urls, k - 1, q.session)
          == FileCheck(Numbered(line.links, k) + r.brokenLinks, r.session);
      ConcatAssociative(q.brokenLinks, Numbered(line.links, k), r.brokenLinks);
    }
  }

  /** The check of a file is the front-to-back loop over all its lines. */
  lemma CheckFileFrontToBack(env: Env, newUrls: seq<string>, lines: seq<string>, s: Session)
    ensures CheckFile(env, newUrls, lines, s) == CheckedUpTo(env, newUrls, LineUrls(lines), |lines|, s)
  {
    var urls := LineUrls(lines);
    CheckLinesSplit(env, newUrls, urls, |lines|, s);
    var p := CheckedUpTo(env, newUrls, urls, |lines|, s);
    assert p.brokenLinks + [] == p.brokenLinks;
  }

  lemma {:induction false} CheckedUpToNumbers(env: Env, newUrls: seq<string>, urls: seq<seq<string>>, k: nat, s: Session)
    requires k <= |urls|
    ensures forall b :: b in CheckedUpTo(env, newUrls, urls, k, s).brokenLinks ==> b.lineNumber <= k
    decreases k
  {
    if k > 0 {
      CheckedUpToNumbers(env, newUrls, urls, k - 1, s);
      var p := CheckedUpTo(env, newUrls, urls, k - 1, s);
      var line := InvalidAmong(env, newUrls, urls[k - 1], p.session);
      var here := Numbered(line.links, k);
      forall b | b in here ensures b.lineNumber == k {
        var t :| 0 <= t < |here| && here[t] == b;
      }
    }
  }

  /** Between links of earlier and of later lines, the links numbered `n`
      are the links of line `n`. */
  lemma LinksOnLineBetween(p: seq<BrokenLink>, links: seq<string>, r: seq<BrokenLink>, n: nat)
    requires forall b :: b in p ==> b.lineNumber < n
    requires forall b :: b in r ==> b.lineNumber > n
    ensures LinksOnLine(p + (Numbered(links, n) + r), n) == links
  {
    var here := Numbered(links, n);
    LinksOnLineAppend(p, here + r, n);
    LinksOnLineAppend(here, r, n);
    LinksOnLineAbsent(p, n);
    LinksOnLineAbsent(r, n);
    LinksOnLineNumbered(links, n, n);
  }

  /** The links reported with number `n` are exactly the links found on
      line `n`, in the session the lines before it reached. */
  lemma LinesLinksOfLine(env: Env, newUrls: seq<string>, urls: seq<seq<string>>, s: Session, n: nat)
    requires 1 <= n <= |urls|
    ensures var before := CheckedUpTo(env, newUrls, urls, n - 1, s);
      LinksOnLine(CheckLinesFrom(env, newUrls, urls, 0, s).brokenLinks, n)
        == InvalidAmong(env, newUrls, urls[n - 1], before.session).links
  {
    var p := CheckedUpTo(env, newUrls, urls, n - 1, s);
    var line := InvalidAmong(env, newUrls, urls[n - 1], p.session);
    var r := CheckLinesFrom(env, newUrls, urls, n, line.session);
    var here := Numbered(line.links, n);
    assert CheckLinesFrom(env, newUrls, urls, 0, s).brokenLinks == p.brokenLinks + (here + r.brokenLinks) by {
      CheckLinesSplit(env, newUrls, urls, n - 1, s);
      assert CheckLinesFrom(env, newUrls, urls, n - 1, p.session).brokenLinks == here + r.brokenLinks;
    }
    assert forall b :: b in p.brokenLinks ==> b.lineNumber < n by {
      CheckedUpToNumbers(env, newUrls, urls, n - 1, s);
    }
    assert forall b :: b in r.brokenLinks ==> b.lineNumber > n by {
      CheckLinesFromSpec(env, newUrls, urls, n, line.session);
      LinksOfLinesMembers(r.brokenLinks, urls, n);
    }
    LinksOnLineBetween(p.brokenLinks, line.links, r.brokenLinks, n);
  }

  /** The links reported on line `n` are exactly the links `getInvalidLinks`
      reports for that line, in the session that checking the lines before
      it reached. */
  lemma FileLinksOfLine(env: Env, newUrls: seq<string>, lines: seq<string>, s: Session, n: nat)
    requires 1 <= n <= |lines|
    ensures var before := CheckedUpTo(env, newUrls, LineUrls(lines), n - 1, s);
      LinksOnLine(CheckFile(env, newUrls, lines, s).brokenLinks, n)
        == GetInvalidLinks(env, newUrls, lines[n - 1], before.session).links
  {
    var urls := LineUrls(lines);
    LinesLinksOfLine(env, newUrls, urls, s, n);
    assert urls[n - 1] == Urls(lines[n - 1]);
  }

  /** Every broken link of a file has the number of its line, between 1 and
      the number of lines, and is a non-empty URL of that line; line numbers
      never decrease; and the links numbered `n` are exactly those
      `getInvalidLinks` reports for line `n` in the session reached after
      the lines before it. */
  lemma CheckFileSpec(env: Env, newUrls: seq<string>, lines: seq<string>, s: Session)
    ensures forall b :: b in CheckFile(env, newUrls, lines, s).brokenLinks ==>
      1 <= b.lineNumber <= |lines| && b.link != "" && b.link in LineUrls(lines)[b.lineNumber - 1]
    ensures InLineOrder(CheckFile(env, newUrls, lines, s).brokenLinks)
    ensures forall n :: 1 <= n <= |lines| ==>
      LinksOnLine(CheckFile(env, newUrls, lines, s).brokenLinks, n)
        == GetInvalidLinks(env, newUrls, lines[n - 1], CheckedUpTo(env, newUrls, LineUrls(lines), n - 1, s).session).links
  {
    var urls := LineUrls(lines);
    CheckLinesFromSpec(env, newUrls, urls, 0, s);
    LinksOfLinesMembers(CheckLinesFrom(env, newUrls, urls, 0, s).brokenLinks, urls, 0);
    forall n | 1 <= n <= |lines|
      ensures LinksOnLine(CheckFile(env, newUrls, lines, s).brokenLinks, n)
        == GetInvalidLinks(env, newUrls, lines[n - 1], CheckedUpTo(env, newUrls, urls, n - 1, s).session).links
    {
      FileLinksOfLine(env, newUrls, lines, s, n);
    }
  }

  /** A non-empty URL of line `n` whose verdict is invalid when its turn
      comes is reported with the number of that line. */
  lemma InvalidLinkIsReported(env: Env, newUrls: seq<string>, lines: seq<string>, s: Session, n: nat, t: nat)
    requires 1 <= n <= |lines| && t < |Urls(lines[n - 1])|
    ensures var urls := Urls(lines[n - 1]);
      var before := CheckedUpTo(env, newUrls, LineUrls(lines), n - 1, s);
      var v := IsUrlInvalid(env, newUrls, Some(urls[t]), InvalidAmong(env, newUrls, urls[..t], before.session).session);
      v.invalid && urls[t] != "" ==> BrokenLink(n, urls[t]) in CheckFile(env, newUrls, lines, s).brokenLinks
  {
    var urls := Urls(lines[n - 1]);
    var before := CheckedUpTo(env, newUrls, LineUrls(lines), n - 1, s);
    FileLinksOfLine(env, newUrls, lines, s, n);
    InvalidAmongAt(env, newUrls, urls, before.session, t);
    LinksOnLineMembers(CheckFile(env, newUrls, lines, s).brokenLinks, n);
  }

  /** The inner loop of `checkFileForBrokenLinks`: number the invalid
      links of one line and append them. */
  method AppendNumbered(acc: seq<BrokenLink>, links: seq<string>, lineNumber: nat)
    returns (r: seq<BrokenLink>)
    ensures r == acc + Numbered(links, lineNumber)
  {
    r := acc;
    for t := 0 to |links|
      invariant r == acc + Numbered(links[..t], lineNumber)
    {
      assert Numbered(links[..t + 1], lineNumber) == Numbered(links[..t], lineNumber) + [BrokenLink(lineNumber, links[t])];
      r := r + [BrokenLink(lineNumber, links[t])];
    }
    assert links[..|links|] == links;
  }

  /** The state of the line loop before line `i`: the links found so far,
      followed by what the remaining lines report from the current session,
      are the links of the whole file, and the remaining lines end in the
      whole file's session. */
  predicate LoopState(env: Env, newUrls: seq<string>, lines: seq<string>, i: nat,
                      found: seq<BrokenLink>, session: Session, whole: FileCheck)
    requires i <= |lines|
  {
    var rest := CheckLinesFrom(env, newUrls, LineUrls(lines), i, session);
    found + rest.brokenLinks == whole.brokenLinks && rest.session == whole.session
  }

  /** One step of the line loop: appending the numbered invalid links of
      line `i` keeps the loop state. */
  lemma CheckLinesStep(env: Env, newUrls: seq<string>, lines: seq<string>, i: nat,
                       found: seq<BrokenLink>, session: Session, whole: FileCheck)
    requires i < |lines| && LoopState(env, newUrls, lines, i, found, session, whole)
    ensures var line := GetInvalidLinks(env, newUrls, lines[i], session);
      LoopState(env, newUrls, lines, i + 1, found + Numbered(line.links, i + 1), line.session, whole)
  {
    var line := GetInvalidLinks(env, newUrls, lines[i], session);
    assert LineUrls(lines)[i] == Urls(lines[i]);
    var rest := CheckLinesFrom(env, newUrls, LineUrls(lines), i + 1, line.session);
    ConcatAssociative(found, Numbered(line.links, i + 1), rest.brokenLinks);
  }

  /** `checkFileForBrokenLinks` as the loop the source runs over the lines. */
  method CheckFileForBrokenLinks(env: Env, newUrls: seq<string>, lines: seq<string>, s: Session)
    returns (brokenLinks: seq<BrokenLink>, session: Session)
    ensures FileCheck(brokenLinks, session) == CheckFile(env, newUrls, lines, s)
  {
    brokenLinks := [];
    session := s;
    ghost var whole := CheckFile(env, newUrls, lines, s);
    assert LoopState(env, newUrls, lines, 0, [], s, whole) by {
      assert [] + whole.brokenLinks == whole.brokenLinks;
    }
    for i := 0 to |lines|
      invariant LoopState(env, newUrls, lines, i, brokenLinks, session, whole)
    {
      var found := GetInvalidLinks(env, newUrls, lines[i], session);
      CheckLinesStep(env, newUrls, lines, i, brokenLinks, session, whole);
      brokenLinks := AppendNumbered(brokenLinks, found.links, i + 1);
      session := found.session;
    }
    assert brokenLinks + [] == brokenLinks;
  }

  /** Lines without URLs report nothing and leave the session alone. */
  lemma {:induction false} PlainLines(env: Env, newUrls: seq<string>, urls: seq<seq<string>>, i: nat, j: nat, s: Session)
    requires i <= j <= |urls|
    requires forall t :: i <= t < j ==> urls[t] == []
    ensures CheckLinesFrom(env, newUrls, urls, i, s) == CheckLinesFrom(env, newUrls, urls, j, s)
    decreases j - i
  {
    if i < j {
      LineWithoutUrls(env, newUrls, urls, i, s);
      if i + 1 < j {
        PlainLines(env, newUrls, urls, i + 1, j, s);
      }
    }
  }

  lemma LineWithoutUrls(env: Env, newUrls: seq<string>, urls: seq<seq<string>>, i: nat, s: Session)
    requires i < |urls| && urls[i] == []
    ensures CheckLinesFrom(env, newUrls, urls, i, s) == CheckLinesFrom(env, newUrls, urls, i + 1, s)
  {
    assert InvalidAmong(env, newUrls, urls[i], s) == LineCheck([], s);
    var rest := CheckLinesFrom(env, newUrls, urls, i + 1, s);
    assert Numbered([], i + 1) + rest.brokenLinks == rest.brokenLinks;
  }

  /** A line whose one URL is fresh, well-formed and answered not ok. */
  lemma NotOkUrl(env: Env, newUrls: seq<string>, url: string, s: Session)
    requires url != "" && !IsCached(s, url) && env.parses(url) && env.head(url, s.requests) == NotOk
    ensures InvalidAmong(env, newUrls, [url], s) ==
      LineCheck(if LowerStr(url) in newUrls then [] else [url], s.(requests := s.requests + 1))
  {
    var v := IsUrlInvalid(env, newUrls, Some(url), s);
    assert v == Verdict(LowerStr(url) !in newUrls, s.(requests := s.requests + 1));
    assert [url][1..] == [];
    assert InvalidAmong(env, newUrls, [], v.session) == LineCheck([], v.session);
  }

  /** Among lines without URLs, the one line whose one URL is fresh,
      well-formed and answered not ok. */
  lemma NotOkUrlAmongLines(env: Env, newUrls: seq<string>, urls: seq<seq<string>>, k: nat, url: string, s: Session)
    requires k < |urls| && urls[k] == [url]
    requires forall t :: 0 <= t < |urls| && t != k ==> urls[t] == []
    requires url != "" && !IsCached(s, url) && env.parses(url) && env.head(url, s.requests) == NotOk
    ensures CheckLinesFrom(env, newUrls, urls, 0, s).brokenLinks ==
      if LowerStr(url) in newUrls then [] else [BrokenLink(k + 1, url)]
  {
    PlainLines(env, newUrls, urls, 0, k, s);
    NotOkUrl(env, newUrls, url, s);
    var after := s.(requests := s.requests + 1);
    PlainLines(env, newUrls, urls, k + 1, |urls|, after);
    var links := if LowerStr(url) in newUrls then [] else [url];
    assert CheckLinesFrom(env, newUrls, urls, k, s).brokenLinks == Numbered(links, k + 1) + [];
  }

  /** One link to a fresh, well-formed URL whose first request answers not
      ok, among lines without links: it is reported, with the number of its
      line, unless the pull request adds the page it names. */
  lemma NotOkLinkInFile(env: Env, newUrls: seq<string>, before: seq<string>, after: seq<string>,
                        pre: string, text: string, url: string, post: string, s: Session)
    requires forall t :: 0 <= t < |before| ==> '[' !in before[t]
    requires forall t :: 0 <= t < |after| ==> '[' !in after[t]
    requires '[' !in pre && '[' !in post
    requires ']' !in text && NoLineTerminator(text)
    requires ')' !in url && NoLineTerminator(url) && url != ""
    requires !IsCached(s, url) && env.parses(url) && env.head(url, s.requests) == NotOk
    ensures var lines := before + [pre + "[" + text + "](" + url + ")" + post] + after;
      CheckFile(env, newUrls, lines, s).brokenLinks ==
        if LowerStr(url) in newUrls then [] else [BrokenLink(|before| + 1, url)]
  {
    var line := pre + "[" + text + "](" + url + ")" + post;
    var lines := before + [line] + after;
    var urls := LineUrls(lines);
    var k := |before|;
    forall t | 0 <= t < |lines| && t != k ensures urls[t] == [] {
      if t < k {
        assert lines[t] == before[t];
      } else {
        assert lines[t] == after[t - k - 1];
      }
      NoBracketNoUrls(lines[t]);
    }
    SingleLink(pre, text, url, post);
    assert lines[k] == line;
    NotOkUrlAmongLines(env, newUrls, urls, k, url, s);
  }

  /** The outcome of `checkFilesForBrokenLinks`: the files with broken
      links, or the file whose reading rejected, which rejects the whole
      call. */
  datatype Outcome =
    | Reported(errorFiles: seq<FileBrokenLinks>, session: Session)
    | ReadFailed(fileName: string, session: Session)

  predicate NamesWithoutLineTerminators(files: seq<PullFile>) {
    forall t :: 0 <= t < |files| ==> NoLineTerminator(files[t].filename)
  }

  /** The names the filter selects, in order. */
  function CheckedNames(files: seq<PullFile>, dir: string): seq<string>
    requires NamesWithoutLineTerminators(files) && IsPlainDirectory(dir)
    decreases |files|
  {
    if files == [] then []
    else
      var rest := CheckedNames(files[1..], dir);
      if ShouldCheckFile(files[0].filename, dir) then [files[0].filename] + rest else rest
  }

  /** Every selected name is the name of a file of the pull request that
      the filter accepts. */
  lemma {:induction false} CheckedNamesAreSelected(files: seq<PullFile>, dir: string)
    requires NamesWithoutLineTerminators(files) && IsPlainDirectory(dir)
    ensures forall n :: n in CheckedNames(files, dir) ==>
      exists f :: f in files && f.filename == n && ShouldCheckFile(n, dir)
    decreases |files|
  {
    if files != [] {
      CheckedNamesAreSelected(files[1..], dir);
      assert forall f :: f in files[1..] ==> f in files;
      assert files[0] in files;
    }
  }

  function FileNames(errorFiles: seq<FileBrokenLinks>): (names: seq<string>)
    ensures |names| == |errorFiles|
  {
    seq(|errorFiles|, t requires 0 <= t < |errorFiles| => errorFiles[t].fileName)
  }

  /** The loop of `checkFilesForBrokenLinks`: a file the filter selects is
      read and checked, and reported when it has broken links; a failed
      read ends the loop. */
  function CheckEach(env: Env, newUrls: seq<string>, files: seq<PullFile>, dir: string,
                     read: string -> Option<string>, s: Session): Outcome
    requires NamesWithoutLineTerminators(files) && IsPlainDirectory(dir)
    decreases |files|
  {
    if files == [] then Reported([], s)
    else
      var name := files[0].filename;
      if !ShouldCheckFile(name, dir) then
        CheckEach(env, newUrls, files[1..], dir, read, s)
      else match read(name)
        case None => ReadFailed(name, s)
        case Some(content) =>
          var c := CheckFile(env, newUrls, Split(content, '\n'), s);
          var rest := CheckEach(env, newUrls, files[1..], dir, read, c.session);
          if rest.Reported? && c.brokenLinks != [] then
            Reported([FileBrokenLinks(name, c.brokenLinks)] + rest.errorFiles, rest.session)
          else rest
  }

  /** The reported files are selected files, in pull-request order, each
      with at least one broken link; a failed read names a selected file
      that could not be read. */
  lemma {:induction false} CheckEachReports(env: Env, newUrls: seq<string>, files: seq<PullFile>, dir: string,
                                           read: string -> Option<string>, s: Session)
    requires NamesWithoutLineTerminators(files) && IsPlainDirectory(dir)
    ensures var o := CheckEach(env, newUrls, files, dir, read, s);
      o.Reported? ==> IsSubsequence(FileNames(o.errorFiles), CheckedNames(files, dir))
    ensures var o := CheckEach(env, newUrls, files, dir, read, s);
      o.Reported? ==> forall e :: e in o.errorFiles ==> e.brokenLinks != []
    ensures var o := CheckEach(env, newUrls, files, dir, read, s);
      o.ReadFailed? ==> o.fileName in CheckedNames(files, dir) && read(o.fileName).None?
    decreases |files|
  {
    if files != [] {
      var name := files[0].filename;
      if !ShouldCheckFile(name, dir) {
        CheckEachReports(env, newUrls, files[1..], dir, read, s);
      } else {
        match read(name)
        case None =>
        case Some(content) =>
          var c := CheckFile(env, newUrls, Split(content, '\n'), s);
          CheckEachReports(env, newUrls, files[1..], dir, read, c.session);
          var rest := CheckEach(env, newUrls, files[1..], dir, read, c.session);
          if rest.Reported? && c.brokenLinks != [] {
            var errorFiles := [FileBrokenLinks(name, c.brokenLinks)] + rest.errorFiles;
            assert FileNames(errorFiles) == [name] + FileNames(rest.errorFiles);
          }
      }
    }
  }

  /** Every one of `names` can be read. */
  predicate Readable(names: seq<string>, read: string -> Option<string>) {
    forall j :: 0 <= j < |names| ==> read(names[j]).Some?
  }

  /** The entry pushed for a checked file: none when its check finds no
      broken link, otherwise one with exactly the links found. */
  function EntryOf(name: string, c: FileCheck): seq<FileBrokenLinks> {
    if c.brokenLinks == [] then [] else [FileBrokenLinks(name, c.brokenLinks)]
  }

  /** The loop of `checkFilesForBrokenLinks` run front to back over the
      first `k` checked names: each file is read and checked in the session
      the files before it reached and its entry is pushed; the first read
      that fails ends the loop. */
  function ReportedUpTo(env: Env, newUrls: seq<string>, names: seq<string>, read: string -> Option<string>,
                        k: nat, s: Session): Outcome
    requires k <= |names|
    decreases k
  {
    if k == 0 then Reported([], s)
    else match ReportedUpTo(env, newUrls, names, read, k - 1, s)
      case ReadFailed(n, s') => ReadFailed(n, s')
      case Reported(errorFiles, s') =>
        match read(names[k - 1])
        case None => ReadFailed(names[k - 1], s')
        case Some(content) =>
          var c := CheckFile(env, newUrls, Split(content, '\n'), s');
          Reported(errorFiles + EntryOf(names[k - 1], c), c.session)
  }

  /** The front-to-back loop over `name` and then `names`: `name` is read
      and checked first, and its entry precedes those of the loop over
      `names` from the session that checking `name` reached. */
  lemma {:induction false} ReportedUpToCons(env: Env, newUrls: seq<string>, name: string, names: seq<string>,
                                           read: string -> Option<string>, k: nat, s: Session)
    requires k <= |names|
    ensures ReportedUpTo(env, newUrls, [name] + names, read, k + 1, s) ==
      match read(name)
      case None => ReadFailed(name, s)
      case Some(content) =>
        var c := CheckFile(env, newUrls, Split(content, '\n'), s);
        match ReportedUpTo(env, newUrls, names, read, k, c.session)
        case ReadFailed(n, s') => ReadFailed(n, s')
        case Reported(errorFiles, s') => Reported(EntryOf(name, c) + errorFiles, s')
    decreases k
  {
    var all := [name] + names;
    assert all[0] == name;
    if k == 0 {
      match read(name)
      case None =>
      case Some(content) =>
        var c := CheckFile(env, newUrls, Split(content, '\n'), s);
        assert [] + EntryOf(name, c) == EntryOf(name, c) + [];
    } else {
      ReportedUpToCons(env, newUrls, name, names, read, k - 1, s);
      assert all[k] == names[k - 1];
      match read(name)
      case None =>
      case Some(content) =>
        var c := CheckFile(env, newUrls, Split(content, '\n'), s);
        match ReportedUpTo(env, newUrls, names, read, k - 1, c.session)
        case ReadFailed(n, s') =>
        case Reported(errorFiles, s') =>
          match read(names[k - 1])
          case None =>
          case Some(content') =>
            var c' := CheckFile(env, newUrls, Split(content', '\n'), s');
            ConcatAssociative(EntryOf(name, c), errorFiles, EntryOf(names[k - 1], c'));
    }
  }

  lemma ReadableSnoc(names: seq<string>, read: string -> Option<string>, k: nat)
    requires k < |names|
    ensures Readable(names[..k + 1], read) <==> Readable(names[..k], read) && read(names[k]).Some?
  {
    var a := names[..k];
    var b := names[..k + 1];
    assert forall j :: 0 <= j < k ==> b[j] == a[j];
    assert b[k] == names[k];
  }

  /** The loop over the first `k` checked names reports exactly when each
      of them can be read; otherwise it names the first that cannot. */
  lemma {:induction false} ReportedUpToReadable(env: Env, newUrls: seq<string>, names: seq<string>,
                                               read: string -> Option<string>, k: nat, s: Session)
    requires k <= |names|
    ensures var o := ReportedUpTo(env, newUrls, names, read, k, s);
      && (o.Reported? <==> Readable(names[..k], read))
      && (o.ReadFailed? ==> exists j :: (0 <= j < k && names[j] == o.fileName
                                         && read(names[j]).None? && Readable(names[..j], read)))
    decreases k
  {
    if k > 0 {
      var p := ReportedUpTo(env, newUrls, names, read, k - 1, s);
      var o := ReportedUpTo(env, newUrls, names, read, k, s);
      ReportedUpToReadable(env, newUrls, names, read, k - 1, s);
      ReadableSnoc(names, read, k - 1);
      if p.ReadFailed? {
        assert o == p;
        var j :| 0 <= j < k - 1 && names[j] == p.fileName && read(names[j]).None? && Readable(names[..j], read);
      } else if read(names[k - 1]).None? {
        assert o == ReadFailed(names[k - 1], p.session);
        assert Readable(names[..k - 1], read);
      } else {
        assert o.Reported?;
      }
    }
  }

  /** The loop of `checkFilesForBrokenLinks` over all the pull request's
      files is the front-to-back loop over the names the filter selects. */
  lemma {:induction false} CheckEachSpec(env: Env, newUrls: seq<string>, files: seq<PullFile>, dir: string,
                                        read: string -> Option<string>, s: Session)
    requires NamesWithoutLineTerminators(files) && IsPlainDirectory(dir)
    ensures var names := CheckedNames(files, dir);
      CheckEach(env, newUrls, files, dir, read, s) == ReportedUpTo(env, newUrls, names, read, |names|, s)
    decreases |files|
  {
    if files != [] {
      var name := files[0].filename;
      var names' := CheckedNames(files[1..], dir);
      if !ShouldCheckFile(name, dir) {
        CheckEachSpec(env, newUrls, files[1..], dir, read, s);
      } else {
        ReportedUpToCons(env, newUrls, name, names', read, |names'|, s);
        match read(name)
        case None =>
        case Some(content) =>
          var c := CheckFile(env, newUrls, Split(content, '\n'), s);
          CheckEachSpec(env, newUrls, files[1..], dir, read, c.session);
          var rest := CheckEach(env, newUrls, files[1..], dir, read, c.session);
          if rest.Reported? && c.brokenLinks == [] {
            assert [] + rest.errorFiles == rest.errorFiles;
          }
      }
    }
  }

  /** `checkFilesForBrokenLinks(files, changeLogDirectory)`: the URLs that
      new pages will have are predicted from every file of the pull
      request, added ones only, before any file is checked. */
  function CheckFilesForBrokenLinks(env: Env, files: seq<PullFile>, dir: string,
                                    read: string -> Option<string>, s: Session): (o: Outcome)
    requires NamesWithoutLineTerminators(files) && IsPlainDirectory(dir)
    ensures o.Reported? ==> IsSubsequence(FileNames(o.errorFiles), CheckedNames(files, dir))
    ensures o.Reported? ==> forall e :: e in o.errorFiles ==> e.brokenLinks != []
    ensures o.ReadFailed? ==> o.fileName in CheckedNames(files, dir) && read(o.fileName).None?
    ensures var names := CheckedNames(files, dir);
      && o == ReportedUpTo(env, NewUrls(files), names, read, |names|, s)
      && (o.Reported? <==> Readable(names, read))
      && (o.ReadFailed? ==> exists j :: (0 <= j < |names| && names[j] == o.fileName
                                         && read(names[j]).None? && Readable(names[..j], read)))
  {
    CheckEachReports(env, NewUrls(files), files, dir, read, s);
    CheckEachSpec(env, NewUrls(files), files, dir, read, s);
    var names := CheckedNames(files, dir);
    ReportedUpToReadable(env, NewUrls(files), names, read, |names|, s);
    assert names[..|names|] == names;
    CheckEach(env, NewUrls(files), files, dir, read, s)
  }

  /** The cache invariant holds for the whole batch: a URL is never both
      known good and known bad, and neither list repeats a URL. */
  lemma {:induction false} CheckEachKeepsCacheWellFormed(env: Env, newUrls: seq<string>, files: seq<PullFile>, dir: string,
                                                        read: string -> Option<string>, s: Session)
    requires NamesWithoutLineTerminators(files) && IsPlainDirectory(dir) && Wf(s)
    ensures Wf(CheckEach(env, newUrls, files, dir, read, s).session)
    decreases |files|
  {
    if files != [] {
      var name := files[0].filename;
      if !ShouldCheckFile(name, dir) {
        CheckEachKeepsCacheWellFormed(env, newUrls, files[1..], dir, read, s);
      } else {
        match read(name)
        case None =>
        case Some(content) =>
          var lines := Split(content, '\n');
          var c := CheckFile(env, newUrls, lines, s);
          CheckLinesKeepsCacheWellFormed(env, newUrls, LineUrls(lines), 0, s);
          CheckEachKeepsCacheWellFormed(env, newUrls, files[1..], dir, read, c.session);
      }
    }
  }

  /** Files the filter skips are never read: two file systems that agree
      on the selected files give the same outcome. */
  lemma {:induction false} SkippedFilesAreNotRead(env: Env, newUrls: seq<string>, files: seq<PullFile>, dir: string,
                                                 read: string -> Option<string>, read': string -> Option<string>, s: Session)
    requires NamesWithoutLineTerminators(files) && IsPlainDirectory(dir)
    requires forall n :: n in CheckedNames(files, dir) ==> read(n) == read'(n)
    ensures CheckEach(env, newUrls, files, dir, read, s) == CheckEach(env, newUrls, files, dir, read', s)
    decreases |files|
  {
    if files != [] {
      var name := files[0].filename;
      var rest := CheckedNames(files[1..], dir);
      assert forall n :: n in rest ==> n in CheckedNames(files, dir);
      if ShouldCheckFile(name, dir) {
        assert name in CheckedNames(files, dir);
        match read(name)
        case None =>
        case Some(content) =>
          var c := CheckFile(env, newUrls, Split(content, '\n'), s);
          SkippedFilesAreNotRead(env, newUrls, files[1..], dir, read, read', c.session);
      } else {
        SkippedFilesAreNotRead(env, newUrls, files[1..], dir, read, read', s);
      }
    }
  }
}
