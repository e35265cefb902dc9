/** The pull-request comment that lists the files with invalid links. */
module Report {
  import opened Wrappers
  import opened Text
  import opened Types

  /** The report header: a level-two title, a blank line, an introduction. */
  const Header := "## Changelog link validation failed\n\nThe following files in this pull request have invalid links:\n"

  /** The closing request of the report. */
  const Footer := "Please add a commit to this branch that fixes the invalid links."

  /** The bullet that opens a file's entry, without its line break. */
  function FileLine(name: string): string {
    "- " + name + ":"
  }

  /** What opens the nested bullet of a broken link. */
  const LinkBullet := "  - Line "

  /** The nested bullet of one broken link, without its line break. */
  function LinkLine(b: BrokenLink): string {
    LinkBullet + Decimal(b.lineNumber) + ": `" + b.link + "`"
  }

  function LinkLines(bs: seq<BrokenLink>): (ls: seq<string>)
    ensures |ls| == |bs|
  {
    seq(|bs|, t requires 0 <= t < |bs| => LinkLine(bs[t]))
  }

  /** The lines of the bulleted list: each file's bullet, then one nested
      bullet per broken link, files and links in the given order. */
  function ListLines(files: seq<FileBrokenLinks>): seq<string>
    decreases |files|
  {
    if files == [] then []
    else [FileLine(files[0].fileName)] + LinkLines(files[0].brokenLinks) + ListLines(files[1..])
  }

  /** Every line followed by a line break. */
  function Terminated(lines: seq<string>): string
    decreases |lines|
  {
    if lines == [] then [] else lines[0] + "\n" + Terminated(lines[1..])
  }

  /** The bulleted list of the report. */
  function FileList(files: seq<FileBrokenLinks>): string {
    Terminated(ListLines(files))
  }

  /** The report as `generatePrComment` assembles it from its template:
      header, a line break, the list, a line break, the footer. */
  function Comment(files: seq<FileBrokenLinks>): string {
    Header + "\n" + FileList(files) + "\n" + Footer
  }

  function TotalLinks(files: seq<FileBrokenLinks>): nat
    decreases |files|
  {
    if files == [] then 0 else |files[0].brokenLinks| + TotalLinks(files[1..])
  }

  lemma {:induction false} TerminatedAppend(a: seq<string>, b: seq<string>)
    ensures Terminated(a + b) == Terminated(a) + Terminated(b)
    decreases |a|
  {
    if a != [] {
      assert (a + b)[1..] == a[1..] + b;
      TerminatedAppend(a[1..], b);
    } else {
      assert a + b == b;
    }
  }

  lemma {:induction false} ListLinesAppend(a: seq<FileBrokenLinks>, b: seq<FileBrokenLinks>)
    ensures ListLines(a + b) == ListLines(a) + ListLines(b)
    decreases |a|
  {
    if a != [] {
      assert (a + b)[1..] == a[1..] + b;
      ListLinesAppend(a[1..], b);
    } else {
      assert a + b == b;
    }
  }

  /** The list for `a ++ b` is the list for `a` followed by the list for `b`. */
  lemma FileListAppend(a: seq<FileBrokenLinks>, b: seq<FileBrokenLinks>)
    ensures FileList(a + b) == FileList(a) + FileList(b)
  {
    ListLinesAppend(a, b);
    TerminatedAppend(ListLines(a), ListLines(b));
  }

  /** One line per file and one per broken link. */
  lemma {:induction false} ListLinesCount(files: seq<FileBrokenLinks>)
    ensures |ListLines(files)| == |files| + TotalLinks(files)
    decreases |files|
  {
    if files != [] {
      ListLinesCount(files[1..]);
    }
  }

  /** A file's entry: its bullet and then its links' bullets. */
  lemma SingleFileList(f: FileBrokenLinks)
    ensures FileList([f]) == FileLine(f.fileName) + "\n" + Terminated(LinkLines(f.brokenLinks))
  {
    var head := [FileLine(f.fileName)];
    assert ListLines([f]) == head + LinkLines(f.brokenLinks) + [] by {
      assert [f][1..] == [];
    }
    assert head + LinkLines(f.brokenLinks) + [] == head + LinkLines(f.brokenLinks);
    TerminatedAppend(head, LinkLines(f.brokenLinks));
    assert Terminated(head) == FileLine(f.fileName) + "\n" + [] by {
      assert head[1..] == [];
    }
  }

  lemma LinkLinesSnoc(bs: seq<BrokenLink>, t: nat)
    requires t < |bs|
    ensures Terminated(LinkLines(bs[..t + 1])) == Terminated(LinkLines(bs[..t])) + LinkLine(bs[t]) + "\n"
  {
    assert LinkLines(bs[..t + 1]) == LinkLines(bs[..t]) + [LinkLine(bs[t])];
    TerminatedAppend(LinkLines(bs[..t]), [LinkLine(bs[t])]);
    assert [LinkLine(bs[t])][1..] == [];
  }

  /** The inner loop of `generatePrComment`: one nested bullet per link. */
  method AppendLinkLines(acc: string, links: seq<BrokenLink>) returns (r: string)
    ensures r == acc + Terminated(LinkLines(links))
  {
    r := acc;
    for t := 0 to |links|
      invariant r == acc + Terminated(LinkLines(links[..t]))
    {
      var link := links[t];
      ghost var done := Terminated(LinkLines(links[..t]));
      r := r + LinkLine(link) + "\n";
      assert r == acc + Terminated(LinkLines(links[..t + 1])) by {
        LinkLinesSnoc(links, t);
        ConcatAssociative(acc, done, LinkLine(link));
        ConcatAssociative(acc, done + LinkLine(link), "\n");
      }
    }
    assert links[..|links|] == links;
  }

  /** `generatePrComment`: the list is accumulated file by file and link
      by link, then placed between the header and the footer. */
  method GeneratePrComment(errorFiles: seq<FileBrokenLinks>) returns (comment: string)
    ensures comment == Comment(errorFiles)
  {
    var fileList := "";
    for i := 0 to |errorFiles|
      invariant fileList == FileList(errorFiles[..i])
    {
      var file := errorFiles[i];
      ghost var before := fileList;
      ghost var links := Terminated(LinkLines(file.brokenLinks));
      fileList := AppendLinkLines(fileList + FileLine(file.fileName) + "\n", file.brokenLinks);
      assert fileList == FileList(errorFiles[..i + 1]) by {
        SingleFileList(file);
        assert errorFiles[..i + 1] == errorFiles[..i] + [file];
        FileListAppend(errorFiles[..i], [file]);
        ConcatAssociative(before, FileLine(file.fileName), "\n");
        ConcatAssociative(before, FileLine(file.fileName) + "\n", links);
      }
    }
    assert errorFiles[..|errorFiles|] == errorFiles;
    comment := Header + "\n" + fileList + "\n" + Footer;
  }

  /** The text between a given opening and closing, if `c` has both. */
  function Between(c: string, open: string, close: string): Option<string> {
    if |c| < |open| + |close| || c[..|open|] != open || c[|c| - |close|..] != close then None
    else Some(c[|open|..|c| - |close|])
  }

  lemma BetweenOf(open: string, body: string, close: string)
    ensures Between(open + body + close, open, close) == Some(body)
  {
    var c := open + body + close;
    assert c[..|open|] == open;
    assert c[|c| - |close|..] == close;
    assert c[|open|..|c| - |close|] == body;
  }

  /** Reads a report back into its list lines: `None` unless it has the
      header and footer around a list of complete lines. */
  function ReadComment(c: string): Option<seq<string>> {
    match Between(c, Header + "\n", "\n" + Footer)
    case None => None
    case Some(body) =>
      var parts := Split(body, '\n');
      if parts[|parts| - 1] != "" then None else Some(parts[..|parts| - 1])
  }

  lemma DigitsHaveNoBreak(s: string)
    requires IsDigits(s)
    ensures '\n' !in s
  {
  }

  lemma LinkLineHasNoBreak(b: BrokenLink)
    requires '\n' !in b.link
    ensures '\n' !in LinkLine(b)
  {
    DigitsHaveNoBreak(Decimal(b.lineNumber));
    assert '\n' !in "  - Line ";
    assert '\n' !in ": `";
  }

  lemma {:induction false} ListLinesHaveNoBreak(files: seq<FileBrokenLinks>)
    requires forall f :: f in files ==> '\n' !in f.fileName && forall b :: b in f.brokenLinks ==> '\n' !in b.link
    ensures forall l :: l in ListLines(files) ==> '\n' !in l
    decreases |files|
  {
    if files != [] {
      var f := files[0];
      ListLinesHaveNoBreak(files[1..]);
      forall b | b in f.brokenLinks ensures '\n' !in LinkLine(b) {
        LinkLineHasNoBreak(b);
      }
      assert '\n' !in "- " && '\n' !in ":";
      assert forall l :: l in LinkLines(f.brokenLinks) ==> exists t :: 0 <= t < |f.brokenLinks| && l == LinkLine(f.brokenLinks[t]);
    }
  }

  /** Splitting break-free lines that each end in a break gives the lines
      and one empty piece after the last break. */
  lemma {:induction false} SplitTerminated(lines: seq<string>)
    requires forall l :: l in lines ==> '\n' !in l
    ensures Split(Terminated(lines), '\n') == lines + [""]
    decreases |lines|
  {
    if lines == [] {
      SplitWithoutSeparator("", '\n');
    } else {
      var first := lines[0];
      var rest := Terminated(lines[1..]);
      assert '\n' !in first by {
        assert first in lines;
      }
      assert Split(rest, '\n') == lines[1..] + [""] by {
        assert forall l :: l in lines[1..] ==> l in lines;
        SplitTerminated(lines[1..]);
      }
      assert Split(Terminated(lines), '\n') == [first] + Split(rest, '\n') by {
        assert Terminated(lines) == first + ['\n'] + rest;
        SplitAppend(first, rest, '\n');
        SplitWithoutSeparator(first, '\n');
      }
      assert [first] + (lines[1..] + [""]) == lines + [""] by {
        assert [first] + lines[1..] == lines;
        ConcatAssociative([first], lines[1..], [""]);
      }
    }
  }

  /** The report can be read back: between its header and footer are
      exactly the list lines, one per file and one per broken link, when
      no file name or link holds a line break. */
  lemma CommentReadsBack(files: seq<FileBrokenLinks>)
    requires forall f :: f in files ==> '\n' !in f.fileName && forall b :: b in f.brokenLinks ==> '\n' !in b.link
    ensures ReadComment(Comment(files)) == Some(ListLines(files))
  {
    var open := Header + "\n";
    var close := "\n" + Footer;
    var body := FileList(files);
    assert Comment(files) == open + body + close by {
      ConcatAssociative(open + body, "\n", Footer);
    }
    BetweenOf(open, body, close);
    ListLinesHaveNoBreak(files);
    SplitTerminated(ListLines(files));
    var parts := ListLines(files) + [""];
    assert parts[..|parts| - 1] == ListLines(files);
  }

  /** Reads a file's bullet back: the name between `- ` and the final `:`. */
  function ReadFileLine(l: string): Option<string> {
    Between(l, "- ", ":")
  }

  /** Reads a link's bullet back: the line number is the digits up to the
      first `:`, and the link is what lies between the backquotes after it,
      backquotes and colons included. */
  function ReadLinkLine(l: string): Option<BrokenLink> {
    if |l| < |LinkBullet| || l[..|LinkBullet|] != LinkBullet then None
    else
      var rest := l[|LinkBullet|..];
      match FirstIndex(rest, ':')
      case None => None
      case Some(i) =>
        var digits := rest[..i];
        if |digits| == 0 || !IsDigits(digits) then None
        else match Between(rest[i..], ": `", "`")
          case None => None
          case Some(link) => Some(BrokenLink(DecimalValue(digits), link))
  }

  lemma ReadFileLineRoundTrip(name: string)
    ensures ReadFileLine(FileLine(name)) == Some(name)
  {
    BetweenOf("- ", name, ":");
  }

  lemma LinkLineShape(b: BrokenLink)
    ensures LinkLine(b) == LinkBullet + (Decimal(b.lineNumber) + (": `" + b.link + "`"))
  {
    var digits := Decimal(b.lineNumber);
    ConcatAssociative(LinkBullet, digits, ": `" + b.link);
    ConcatAssociative(LinkBullet + digits, ": `" + b.link, "`");
    ConcatAssociative(LinkBullet, digits + (": `" + b.link), "`");
    ConcatAssociative(digits, ": `" + b.link, "`");
  }

  /** The first `:` after a run of digits is the one right after it. */
  lemma ColonAfterDigits(digits: string, tail: string)
    requires IsDigits(digits) && |tail| > 0 && tail[0] == ':'
    ensures FirstIndex(digits + tail, ':') == Some(|digits|)
  {
    var rest := digits + tail;
    assert ':' !in digits by {
      forall k | 0 <= k < |digits| ensures digits[k] != ':' {
      }
    }
    assert rest[..|digits|] == digits;
    FirstIndexAt(rest, ':', |digits|);
  }

  /** A bullet made of digits and a link reads back as their value and the
      link. */
  lemma ReadLinkLineParts(digits: string, link: string)
    requires IsDigits(digits) && |digits| > 0
    ensures ReadLinkLine(LinkBullet + (digits + (": `" + link + "`"))) == Some(BrokenLink(DecimalValue(digits), link))
  {
    var tail := ": `" + link + "`";
    var rest := digits + tail;
    var l := LinkBullet + rest;
    assert l[..|LinkBullet|] == LinkBullet && l[|LinkBullet|..] == rest;
    assert FirstIndex(rest, ':') == Some(|digits|) by {
      ColonAfterDigits(digits, tail);
    }
    assert rest[..|digits|] == digits && rest[|digits|..] == tail;
    assert Between(tail, ": `", "`") == Some(link) by {
      BetweenOf(": `", link, "`");
    }
  }

  /** A link's bullet reads back as its broken link, whatever the link. */
  lemma ReadLinkLineRoundTrip(b: BrokenLink)
    ensures ReadLinkLine(LinkLine(b)) == Some(b)
  {
    LinkLineShape(b);
    ReadLinkLineParts(Decimal(b.lineNumber), b.link);
    DecimalRoundTrip(b.lineNumber);
  }

  /** A file's bullet is never read as a link's bullet, nor the reverse. */
  lemma BulletsDiffer(name: string, b: BrokenLink)
    ensures ReadLinkLine(FileLine(name)).None?
    ensures ReadFileLine(LinkLine(b)).None?
  {
    var f := FileLine(name);
    assert f[0] == '-';
    if |f| >= |LinkBullet| {
      assert f[..|LinkBullet|][0] != LinkBullet[0];
    }
    var l := LinkLine(b);
    assert l[0] == ' ';
    if |l| >= 2 {
      assert l[..2][0] != '-';
    }
  }

  /** Each bullet of `LinkLines(bs)` reads back as its broken link. */
  lemma LinkLinesReadBack(bs: seq<BrokenLink>)
    ensures forall t :: 0 <= t < |bs| ==> ReadLinkLine(LinkLines(bs)[t]) == Some(bs[t])
  {
    forall t | 0 <= t < |bs| ensures ReadLinkLine(LinkLines(bs)[t]) == Some(bs[t]) {
      ReadLinkLineRoundTrip(bs[t]);
    }
  }

  /** The links' bullets at the front of `lines`, read back, and how many
      lines they take. */
  function ReadLinks(lines: seq<string>): (r: (seq<BrokenLink>, nat))
    ensures r.1 <= |lines|
    decreases |lines|
  {
    if lines == [] then ([], 0)
    else match ReadLinkLine(lines[0])
      case None => ([], 0)
      case Some(b) =>
        var rest := ReadLinks(lines[1..]);
        ([b] + rest.0, rest.1 + 1)
  }

  /** Reads the list lines back into the files: each file's bullet and the
      links' bullets that follow it. */
  function ReadList(lines: seq<string>): Option<seq<FileBrokenLinks>>
    decreases |lines|
  {
    if lines == [] then Some([])
    else match ReadFileLine(lines[0])
      case None => None
      case Some(name) =>
        var links := ReadLinks(lines[1..]);
        match ReadList(lines[1 + links.1..])
        case None => None
        case Some(rest) => Some([FileBrokenLinks(name, links.0)] + rest)
  }

  /** Reads a report back into the files and broken links it lists. */
  function ReadReport(c: string): Option<seq<FileBrokenLinks>> {
    match ReadComment(c)
    case None => None
    case Some(lines) => ReadList(lines)
  }

  lemma ReadLinksCons(l: string, ls: seq<string>, b: BrokenLink)
    requires ReadLinkLine(l) == Some(b)
    ensures ReadLinks([l] + ls) == ([b] + ReadLinks(ls).0, ReadLinks(ls).1 + 1)
  {
    assert ([l] + ls)[0] == l && ([l] + ls)[1..] == ls;
  }

  lemma LinkLinesCons(bs: seq<BrokenLink>)
    requires bs != []
    ensures LinkLines(bs) == [LinkLine(bs[0])] + LinkLines(bs[1..])
  {
  }

  /** The links' bullets read back as their broken links, up to the first
      line that is not a link's bullet. */
  lemma {:induction false} ReadLinksOf(bs: seq<BrokenLink>, more: seq<string>)
    requires ReadLinks(more) == ([], 0)
    ensures ReadLinks(LinkLines(bs) + more) == (bs, |bs|)
    decreases |bs|
  {
    if bs == [] {
      assert LinkLines(bs) + more == more;
    } else {
      var tail := LinkLines(bs[1..]) + more;
      assert LinkLines(bs) + more == [LinkLine(bs[0])] + tail by {
        LinkLinesCons(bs);
      }
      ReadLinkLineRoundTrip(bs[0]);
      ReadLinksCons(LinkLine(bs[0]), tail, bs[0]);
      ReadLinksOf(bs[1..], more);
      assert [bs[0]] + bs[1..] == bs;
    }
  }

  /** The list lines read back as the files they were written from. */
  lemma {:induction false} ReadListOf(files: seq<FileBrokenLinks>)
    ensures ReadList(ListLines(files)) == Some(files)
    decreases |files|
  {
    if files != [] {
      var f := files[0];
      var rest := ListLines(files[1..]);
      var lines := ListLines(files);
      assert lines == [FileLine(f.fileName)] + (LinkLines(f.brokenLinks) + rest);
      assert ReadFileLine(lines[0]) == Some(f.fileName) by {
        ReadFileLineRoundTrip(f.fileName);
      }
      assert ReadLinks(lines[1..]) == (f.brokenLinks, |f.brokenLinks|) by {
        assert ReadLinks(rest) == ([], 0) by {
          if files[1..] != [] {
            assert rest[0] == FileLine(files[1..][0].fileName);
            BulletsDiffer(files[1..][0].fileName, BrokenLink(0, ""));
          }
        }
        assert lines[1..] == LinkLines(f.brokenLinks) + rest;
        ReadLinksOf(f.brokenLinks, rest);
      }
      assert ReadList(lines[1 + |f.brokenLinks|..]) == Some(files[1..]) by {
        assert lines[1 + |f.brokenLinks|..] == rest;
        ReadListOf(files[1..]);
      }
      assert [FileBrokenLinks(f.fileName, f.brokenLinks)] + files[1..] == files;
    }
  }

  /** The report reads back as the files and broken links it was written
      from, when no file name or link holds a line break. */
  lemma ReportReadsBack(files: seq<FileBrokenLinks>)
    requires forall f :: f in files ==> '\n' !in f.fileName && forall b :: b in f.brokenLinks ==> '\n' !in b.link
    ensures ReadReport(Comment(files)) == Some(files)
  {
    CommentReadsBack(files);
    ReadListOf(files);
  }

  /** The list of one file with one broken link: two lines. */
  lemma OneLinkList(name: string, n: nat, link: string)
    ensures FileList([FileBrokenLinks(name, [BrokenLink(n, link)])])
         == "- " + name + ":\n" + ("  - Line " + Decimal(n) + ": `" + link + "`" + "\n")
  {
    var b := BrokenLink(n, link);
    var f := FileBrokenLinks(name, [b]);
    SingleFileList(f);
    assert LinkLines([b]) == [LinkLine(b)];
    assert Terminated([LinkLine(b)]) == LinkLine(b) + "\n" by {
      assert [LinkLine(b)][1..] == [];
    }
  }

  /** A report of one file with one broken link. */
  lemma OneLinkExample(name: string, n: nat, link: string)
    ensures Comment([FileBrokenLinks(name, [BrokenLink(n, link)])])
         == Header + "\n" + ("- " + name + ":\n" + ("  - Line " + Decimal(n) + ": `" + link + "`" + "\n")) + "\n" + Footer
  {
    OneLinkList(name, n, link);
  }
}
