/** The Markdown link extractor: every match of `\[.*?\]\((?<url>.*?)\)`
    with the `g` flag, found by `String.prototype.matchAll`, and the text
    of each match's `url` group. */
module LinkExtract {
  import opened Wrappers
  import opened Text

  predicate NoTerminatorBetween(s: string, lo: nat, hi: nat)
    requires lo <= hi <= |s|
  {
    forall t :: lo <= t < hi ==> !IsLineTerminator(s[t])
  }

  /** `s[lo..hi]` holds neither `)` nor a line terminator. */
  predicate NoCloseBetween(s: string, lo: nat, hi: nat)
    requires lo <= hi <= |s|
  {
    forall t :: lo <= t < hi ==> s[t] != ')' && !IsLineTerminator(s[t])
  }

  /** The expression matches with `[` at `i`, `](` at `j` and the closing
      `)` at `k`: the two `.*?` spans hold no line terminator, and the lazy
      `url` group stops at the first `)`. */
  predicate IsMatch(s: string, i: nat, j: nat, k: nat) {
    && i < j && j + 2 <= k < |s|
    && s[i] == '[' && s[j] == ']' && s[j + 1] == '(' && s[k] == ')'
    && NoTerminatorBetween(s, i + 1, j)
    && NoCloseBetween(s, j + 2, k)
  }

  /** The match the engine reports at `i`: the lazy text group takes the
      first `](` from which a closing `)` can be reached. */
  ghost predicate IsLazyMatch(s: string, i: nat, j: nat, k: nat) {
    && IsMatch(s, i, j, k)
    && forall j', k' :: i < j' < j ==> !IsMatch(s, i, j', k')
  }

  /** The lazy `url` group from position `m`: up to the first `)`, failing
      at a line terminator or at the end of the line. */
  function FindClose(s: string, m: nat): (r: Option<nat>)
    requires m <= |s|
    ensures r.Some? ==> m <= r.value < |s|
    decreases |s| - m
  {
    if m == |s| || IsLineTerminator(s[m]) then None
    else if s[m] == ')' then Some(m)
    else FindClose(s, m + 1)
  }

  /** `FindClose` finds the first `)` when no line terminator comes before
      it, and fails exactly when there is no such `)`. */
  lemma {:induction false} FindCloseSpec(s: string, m: nat)
    requires m <= |s|
    ensures FindClose(s, m).Some? ==>
      s[FindClose(s, m).value] == ')' && NoCloseBetween(s, m, FindClose(s, m).value)
    ensures FindClose(s, m).None? ==>
      forall k :: m <= k < |s| && s[k] == ')' ==> !NoCloseBetween(s, m, k)
    decreases |s| - m
  {
    if m < |s| && !IsLineTerminator(s[m]) && s[m] != ')' {
      FindCloseSpec(s, m + 1);
    }
  }

  /** The lazy text group of a match opened at `i`, trying `](` at `j`,
      then `j + 1`, and so on. */
  function FindSeparator(s: string, i: nat, j: nat): (r: Option<(nat, nat)>)
    requires i < j <= |s|
    ensures r.Some? ==> j <= r.value.0 && r.value.0 + 2 <= r.value.1 < |s|
    decreases |s| - j
  {
    if j + 1 >= |s| then None
    else if s[j] == ']' && s[j + 1] == '(' && FindClose(s, j + 2).Some? then
      Some((j, FindClose(s, j + 2).value))
    else if IsLineTerminator(s[j]) then None
    else FindSeparator(s, i, j + 1)
  }

  /** `FindSeparator` finds the first `](` from `j` on from which a `)`
      can be reached, with that `)`, and fails exactly when there is none. */
  lemma {:induction false} FindSeparatorSpec(s: string, i: nat, j: nat)
    requires i < j <= |s| && s[i] == '['
    requires NoTerminatorBetween(s, i + 1, j)
    ensures FindSeparator(s, i, j).Some? ==>
      IsMatch(s, i, FindSeparator(s, i, j).value.0, FindSeparator(s, i, j).value.1)
    ensures FindSeparator(s, i, j).Some? ==>
      forall j', k' :: j <= j' < FindSeparator(s, i, j).value.0 ==> !IsMatch(s, i, j', k')
    ensures FindSeparator(s, i, j).None? ==> forall j', k' :: j <= j' ==> !IsMatch(s, i, j', k')
    decreases |s| - j
  {
    if j + 1 < |s| {
      FindCloseSpec(s, j + 2);
      if !(s[j] == ']' && s[j + 1] == '(' && FindClose(s, j + 2).Some?) && !IsLineTerminator(s[j]) {
        FindSeparatorSpec(s, i, j + 1);
      }
    }
  }

  /** The match starting at `i`, if there is one. */
  function MatchAt(s: string, i: nat): (r: Option<(nat, nat)>)
    ensures r.Some? ==> i < r.value.0 && r.value.0 + 2 <= r.value.1 < |s|
  {
    if i < |s| && s[i] == '[' then FindSeparator(s, i, i + 1) else None
  }

  /** `MatchAt` reports the engine's match at `i`, and fails exactly when
      the expression does not match at `i`. */
  lemma MatchAtSpec(s: string, i: nat)
    ensures MatchAt(s, i).Some? ==> IsLazyMatch(s, i, MatchAt(s, i).value.0, MatchAt(s, i).value.1)
    ensures MatchAt(s, i).None? ==> forall j, k :: !IsMatch(s, i, j, k)
  {
    if i < |s| && s[i] == '[' {
      FindSeparatorSpec(s, i, i + 1);
    }
  }

  /** Where one match lies in the line. */
  datatype Span = Span(open: nat, separator: nat, close: nat)

  ghost predicate Covered(ms: seq<Span>, p: nat) {
    exists t :: 0 <= t < |ms| && ms[t].open <= p <= ms[t].close
  }

  /** The successive matches of the global expression from `from`: after
      a match the search resumes just past its `)`, after a failure one
      position further on. */
  function MatchesFrom(s: string, from: nat): (ms: seq<Span>)
    requires from <= |s|
    ensures forall t :: 0 <= t < |ms| ==>
      from <= ms[t].open < ms[t].separator && ms[t].separator + 2 <= ms[t].close < |s|
    decreases |s| - from
  {
    if from == |s| then []
    else match MatchAt(s, from)
      case Some((j, k)) => [Span(from, j, k)] + MatchesFrom(s, k + 1)
      case None => MatchesFrom(s, from + 1)
  }

  /** Each match found is the one the engine reports at its start. */
  lemma {:induction false} MatchesAreLazy(s: string, from: nat)
    requires from <= |s|
    ensures forall t :: 0 <= t < |MatchesFrom(s, from)| ==>
      IsLazyMatch(s, MatchesFrom(s, from)[t].open, MatchesFrom(s, from)[t].separator, MatchesFrom(s, from)[t].close)
    decreases |s| - from
  {
    if from < |s| {
      MatchAtSpec(s, from);
      match MatchAt(s, from)
      case Some((j, k)) =>
        var rest := MatchesFrom(s, k + 1);
        MatchesAreLazy(s, k + 1);
        var ms := [Span(from, j, k)] + rest;
        assert MatchesFrom(s, from) == ms;
        assert forall t :: 1 <= t < |ms| ==> ms[t] == rest[t - 1];
      case None =>
        MatchesAreLazy(s, from + 1);
    }
  }

  /** The matches come in order and do not overlap. */
  lemma {:induction false} MatchesInOrder(s: string, from: nat)
    requires from <= |s|
    ensures forall t :: 0 <= t < |MatchesFrom(s, from)| - 1 ==>
      MatchesFrom(s, from)[t].close < MatchesFrom(s, from)[t + 1].open
    decreases |s| - from
  {
    if from < |s| {
      match MatchAt(s, from)
      case Some((j, k)) =>
        var rest := MatchesFrom(s, k + 1);
        MatchesInOrder(s, k + 1);
        var ms := [Span(from, j, k)] + rest;
        assert MatchesFrom(s, from) == ms;
        assert forall t :: 1 <= t < |ms| ==> ms[t] == rest[t - 1];
      case None =>
        MatchesInOrder(s, from + 1);
    }
  }

  /** No match starts at a position the scan passed over: every match of
      the expression from `from` on starts inside a match found. */
  lemma {:induction false} NoMatchSkipped(s: string, from: nat)
    requires from <= |s|
    ensures forall p :: from <= p < |s| && !Covered(MatchesFrom(s, from), p) ==>
      forall j, k :: !IsMatch(s, p, j, k)
    decreases |s| - from
  {
    if from < |s| {
      MatchAtSpec(s, from);
      match MatchAt(s, from)
      case Some((j, k)) =>
        var rest := MatchesFrom(s, k + 1);
        NoMatchSkipped(s, k + 1);
        var ms := [Span(from, j, k)] + rest;
        assert MatchesFrom(s, from) == ms;
        forall p | k + 1 <= p && Covered(rest, p) ensures Covered(ms, p) {
          var t :| 0 <= t < |rest| && rest[t].open <= p <= rest[t].close;
          assert ms[t + 1] == rest[t];
        }
        forall p | from <= p <= k ensures Covered(ms, p) {
          assert ms[0].open <= p <= ms[0].close;
        }
      case None =>
        NoMatchSkipped(s, from + 1);
        assert MatchesFrom(s, from) == MatchesFrom(s, from + 1);
    }
  }

  /** The `url` group of every match of the line, in order, verbatim: the
      text between the match's `](` and the first `)` after it. */
  function Urls(s: string): (urls: seq<string>)
    ensures forall t :: 0 <= t < |urls| ==> ')' !in urls[t] && NoLineTerminator(urls[t])
  {
    var ms := MatchesFrom(s, 0);
    MatchesAreLazy(s, 0);
    assert forall t :: 0 <= t < |ms| ==> IsLazyMatch(s, ms[t].open, ms[t].separator, ms[t].close);
    seq(|ms|, t requires 0 <= t < |ms| => s[ms[t].separator + 2..ms[t].close])
  }

  /** A line in which the expression matches nowhere has no URLs. */
  lemma NoMatchNoUrls(s: string)
    requires forall p, j, k :: !IsMatch(s, p, j, k)
    ensures Urls(s) == []
  {
    var ms := MatchesFrom(s, 0);
    MatchesAreLazy(s, 0);
    assert forall t :: 0 <= t < |ms| ==> IsLazyMatch(s, ms[t].open, ms[t].separator, ms[t].close);
    assert |ms| > 0 ==> IsMatch(s, ms[0].open, ms[0].separator, ms[0].close);
    assert |Urls(s)| == |ms|;
  }

  /** In particular a line without `[` has no URLs. */
  lemma NoBracketNoUrls(s: string)
    requires '[' !in s
    ensures Urls(s) == []
  {
    forall p: nat, j: nat, k: nat ensures !IsMatch(s, p, j, k) {
      if p < |s| {
        assert s[p] in s;
      }
    }
    NoMatchNoUrls(s);
  }

  /** The engine's match at a given `[` is determined. */
  lemma LazyMatchIsUnique(s: string, i: nat, j: nat, k: nat, j': nat, k': nat)
    requires IsLazyMatch(s, i, j, k) && IsLazyMatch(s, i, j', k')
    ensures j == j' && k == k'
  {
  }

  /** Scanning over text without `[` finds no match there. */
  lemma {:induction false} SkipPlain(s: string, from: nat, to: nat)
    requires from <= to <= |s|
    requires forall p :: from <= p < to ==> s[p] != '['
    ensures MatchesFrom(s, from) == MatchesFrom(s, to)
    decreases |s| - from
  {
    if from < to {
      assert MatchAt(s, from) == None;
      SkipPlain(s, from + 1, to);
    }
  }

  /** A line whose only `[` outside the match opens that match has
      exactly that one match. */
  lemma OnlyMatch(s: string, i: nat, j: nat, k: nat)
    requires IsLazyMatch(s, i, j, k)
    requires forall p :: 0 <= p < i ==> s[p] != '['
    requires forall p :: k < p < |s| ==> s[p] != '['
    ensures MatchesFrom(s, 0) == [Span(i, j, k)]
  {
    var r := MatchAt(s, i);
    MatchAtSpec(s, i);
    LazyMatchIsUnique(s, i, j, k, r.value.0, r.value.1);
    SkipPlain(s, 0, i);
    SkipPlain(s, k + 1, |s|);
  }

  /** Where the pieces of `pre + "[" + text + "](" + url + ")" + post` lie. */
  lemma LinkLayout(pre: string, text: string, url: string, post: string)
    ensures var s := pre + "[" + text + "](" + url + ")" + post;
      var i := |pre|; var j := i + 1 + |text|; var k := j + 2 + |url|;
      && |s| == k + 1 + |post|
      && s[i] == '[' && s[j] == ']' && s[j + 1] == '(' && s[k] == ')'
      && (forall p :: 0 <= p < i ==> s[p] == pre[p])
      && (forall t :: i < t < j ==> s[t] == text[t - i - 1])
      && (forall t :: j + 2 <= t < k ==> s[t] == url[t - j - 2])
      && (forall t :: k < t < |s| ==> s[t] == post[t - k - 1])
      && s[j + 2..k] == url
  {
  }

  /** A line holding one well-formed link `[text](url)` yields exactly
      its URL. */
  lemma SingleLink(pre: string, text: string, url: string, post: string)
    requires '[' !in pre && '[' !in post
    requires ']' !in text && NoLineTerminator(text)
    requires ')' !in url && NoLineTerminator(url)
    ensures Urls(pre + "[" + text + "](" + url + ")" + post) == [url]
  {
    var s := pre + "[" + text + "](" + url + ")" + post;
    var i := |pre|;
    var j := i + 1 + |text|;
    var k := j + 2 + |url|;
    LinkLayout(pre, text, url, post);
    forall t | i < t < j ensures s[t] != ']' && !IsLineTerminator(s[t]) {
      assert text[t - i - 1] in text;
    }
    forall t | j + 2 <= t < k ensures s[t] != ')' && !IsLineTerminator(s[t]) {
      assert url[t - j - 2] in url;
    }
    assert IsMatch(s, i, j, k);
    forall p | 0 <= p < i ensures s[p] != '[' {
      assert pre[p] in pre;
    }
    forall p | k < p < |s| ensures s[p] != '[' {
      assert post[p - k - 1] in post;
    }
    OnlyMatch(s, i, j, k);
  }
}
