/** `isUrlInvalid`: the run-wide cache of known good and known bad URLs,
    the syntax check, and the `HEAD` request with one retry after a
    timeout. */
module UrlCheck {
  import opened Wrappers
  import opened Text

  /** How one `HEAD` request ends: a response with an ok status, a
      response with another status, an `ETIMEDOUT` fetch error, or any
      other error. */
  datatype Response = Ok | NotOk | TimedOut | Failed

  /** The world outside the program: whether `new URL(u)` accepts `u`, and
      how the `n`-th request of the run, issued for `u`, ends. */
  datatype Env = Env(parses: string -> bool, head: (string, nat) -> Response)

  /** `knownGoodUrls` and `knownBadUrls`, which live for the whole run, and
      the number of requests issued so far. */
  datatype Session = Session(knownGood: seq<string>, knownBad: seq<string>, requests: nat)

  const Fresh := Session([], [], 0)

  /** The answer of `isUrlInvalid` and the session after it. */
  datatype Verdict = Verdict(invalid: bool, session: Session)

  predicate NoDuplicates(q: seq<string>) {
    forall i, j :: 0 <= i < j < |q| ==> q[i] != q[j]
  }

  /** The cache invariant: neither list repeats a URL and no URL is both
      known good and known bad. */
  predicate Wf(s: Session) {
    && NoDuplicates(s.knownGood)
    && NoDuplicates(s.knownBad)
    && forall u :: u in s.knownGood ==> u !in s.knownBad
  }

  predicate IsCached(s: Session, u: string) {
    u in s.knownGood || u in s.knownBad
  }

  /** `isUrlInvalid(newUrls, url)`. A missing or empty URL is invalid. A
      cached URL gets its cached verdict, known bad first. A URL the parser
      rejects is recorded bad. Otherwise one request is issued: ok records
      the URL good; a timeout earns a second request, whose ok records it
      good and whose any other end records it bad; any other error records
      it bad. A response that is not ok leaves the cache alone, and the URL
      is invalid unless its lower-case form is one of `newUrls`. */
  function IsUrlInvalid(env: Env, newUrls: seq<string>, url: Option<string>, s: Session): (v: Verdict)
    ensures s.knownGood <= v.session.knownGood && s.knownBad <= v.session.knownBad
    ensures s.requests <= v.session.requests <= s.requests + 2
    ensures url.None? || url == Some("") ==> v == Verdict(true, s)
  {
    match url
    case None => Verdict(true, s)
    case Some(u) =>
      if u == "" then Verdict(true, s)
      else if u in s.knownBad then Verdict(true, s)
      else if u in s.knownGood then Verdict(false, s)
      else if !env.parses(u) then Verdict(true, s.(knownBad := s.knownBad + [u]))
      else
        var n := s.requests;
        match env.head(u, n)
        case Ok => Verdict(false, Session(s.knownGood + [u], s.knownBad, n + 1))
        case NotOk => Verdict(LowerStr(u) !in newUrls, s.(requests := n + 1))
        case Failed => Verdict(true, Session(s.knownGood, s.knownBad + [u], n + 1))
        case TimedOut =>
          if env.head(u, n + 1) == Ok then Verdict(false, Session(s.knownGood + [u], s.knownBad, n + 2))
          else Verdict(true, Session(s.knownGood, s.knownBad + [u], n + 2))
  }

  /** Only a URL in neither list is ever appended, to one list at most:
      to the good list with the answer valid, to the bad list with the
      answer invalid. */
  lemma CacheGrowsByTheUrl(env: Env, newUrls: seq<string>, url: Option<string>, s: Session)
    ensures var v := IsUrlInvalid(env, newUrls, url, s);
      && (v.session.knownGood == s.knownGood
          || (url.Some? && !IsCached(s, url.value) && v.session.knownGood == s.knownGood + [url.value]
              && v.session.knownBad == s.knownBad && !v.invalid))
      && (v.session.knownBad == s.knownBad
          || (url.Some? && !IsCached(s, url.value) && v.session.knownBad == s.knownBad + [url.value]
              && v.session.knownGood == s.knownGood && v.invalid))
  {
  }

  /** A second request is issued only after the first one timed out. */
  lemma RetryOnlyAfterTimeout(env: Env, newUrls: seq<string>, url: Option<string>, s: Session)
    ensures IsUrlInvalid(env, newUrls, url, s).session.requests == s.requests + 2 ==>
      url.Some? && env.head(url.value, s.requests) == TimedOut
  {
  }

  /** The cache invariant survives every call. */
  lemma VerdictKeepsCacheWellFormed(env: Env, newUrls: seq<string>, url: Option<string>, s: Session)
    requires Wf(s)
    ensures Wf(IsUrlInvalid(env, newUrls, url, s).session)
  {
    var v := IsUrlInvalid(env, newUrls, url, s);
    CacheGrowsByTheUrl(env, newUrls, url, s);
    if v.session.knownGood != s.knownGood {
      var u := url.value;
      assert forall i :: 0 <= i < |s.knownGood| ==> v.session.knownGood[i] == s.knownGood[i];
      assert v.session.knownGood[|s.knownGood|] == u;
      assert forall x :: x in v.session.knownGood ==> x in s.knownGood || x == u;
    }
    if v.session.knownBad != s.knownBad {
      var u := url.value;
      assert forall i :: 0 <= i < |s.knownBad| ==> v.session.knownBad[i] == s.knownBad[i];
      assert v.session.knownBad[|s.knownBad|] == u;
      assert forall x :: x in v.session.knownBad ==> x in s.knownBad || x == u;
    }
  }

  /** The URL is reachable: the first request is ok, or it timed out and
      the retry is ok. */
  predicate Reachable(env: Env, u: string, n: nat) {
    env.head(u, n) == Ok || (env.head(u, n) == TimedOut && env.head(u, n + 1) == Ok)
  }

  /** A cached verdict is final: asking again about the URL, under any
      world and any list of new URLs, gives the same answer without a
      request and without touching the cache. */
  lemma CachedVerdictIsFinal(env: Env, newUrls: seq<string>, u: string, s: Session,
                             env': Env, newUrls': seq<string>)
    requires u != ""
    requires IsCached(IsUrlInvalid(env, newUrls, Some(u), s).session, u)
    ensures var v := IsUrlInvalid(env, newUrls, Some(u), s);
      IsUrlInvalid(env', newUrls', Some(u), v.session) == v
  {
  }

  /** A URL that parses and is not cached is valid exactly when it is
      reachable, or when its first request answers not ok and its lower-case
      form is a URL the pull request adds; only in the latter case is
      nothing cached. */
  lemma FreshUrlVerdict(env: Env, newUrls: seq<string>, u: string, s: Session)
    requires u != "" && !IsCached(s, u) && env.parses(u)
    ensures var v := IsUrlInvalid(env, newUrls, Some(u), s);
      && (!v.invalid <==> Reachable(env, u, s.requests)
                          || (env.head(u, s.requests) == NotOk && LowerStr(u) in newUrls))
      && (u in v.session.knownGood <==> Reachable(env, u, s.requests))
      && (IsCached(v.session, u) <==> env.head(u, s.requests) != NotOk)
      && v.session.requests > s.requests
  {
  }

  /** A URL the parser rejects is recorded bad without a request. */
  lemma UnparsableUrl(env: Env, newUrls: seq<string>, u: string, s: Session)
    requires u != "" && !IsCached(s, u) && !env.parses(u)
    ensures IsUrlInvalid(env, newUrls, Some(u), s)
      == Verdict(true, s.(knownBad := s.knownBad + [u]))
  {
  }

  /** The list of new URLs matters only when the first request answers not
      ok: that is the one verdict left uncached. */
  lemma NewUrlsOnlyExemptNotOk(env: Env, newUrls: seq<string>, newUrls': seq<string>, u: string, s: Session)
    requires IsUrlInvalid(env, newUrls, Some(u), s) != IsUrlInvalid(env, newUrls', Some(u), s)
    ensures u != "" && !IsCached(s, u) && env.parses(u) && env.head(u, s.requests) == NotOk
    ensures !IsCached(IsUrlInvalid(env, newUrls, Some(u), s).session, u)
  {
  }
}
