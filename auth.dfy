/**
 * The access gate of the archetype pages: token verification through a time-bounded
 * cache, the archetype taken from the page path, the decision between public view,
 * private view and denial, and the choice between the denial page and an inline error.
 *
 * The verification service, the clock and the existence probe of the denial page are
 * parameters: `reply` is what the service answered, `now` and `later` are the two
 * readings of `Date.now()`, `probe` is the answer to the `HEAD` request. Rendering is
 * reduced to the action it stands for.
 */
module Auth {
  import opened Wrappers
  import UriComponent

  // ---------------------------------------------------------------------------
  // Verification results and the verification service
  // ---------------------------------------------------------------------------

  /** The identity record the service returns; the gate only passes it on. */
  datatype UserInfo = UserInfo(fields: map<string, string>)

  /** The parsed JSON body `{valid, error?, userInfo?}`. */
  datatype Verification = Verification(valid: bool, error: Option<string>, userInfo: Option<UserInfo>)

  const ConnectionError := "Errore di connessione al server"

  /** The one result every failure to verify collapses into. */
  const Unverified := Verification(false, Some(ConnectionError), None)

  /**
   * What `fetch` gave: a response with its status and its body (`None` when the
   * body is not JSON, so that `response.json()` rejects), or a rejected request.
   */
  datatype Reply = Response(status: int, body: Option<Verification>) | NetworkError

  /** `response.ok`. */
  predicate IsOk(status: int) {
    200 <= status <= 299
  }

  /** The service answered OK with a body that parses. */
  predicate Answered(reply: Reply) {
    reply.Response? && IsOk(reply.status) && reply.body.Some?
  }

  // ---------------------------------------------------------------------------
  // The verification cache
  // ---------------------------------------------------------------------------

  /** `CACHE_DURATION`: five minutes in milliseconds. */
  const CacheDuration: int := 300000

  datatype Entry = Entry(data: Verification, timestamp: int)

  /** `${token}_${archetipo}`: the token, an underscore, then the archetype, in place. */
  function CacheKey(token: string, archetipo: string): (k: string)
    ensures |k| == |token| + 1 + |archetipo|
    ensures k[..|token|] == token && k[|token|] == '_' && k[|token| + 1..] == archetipo
  {
    token + "_" + archetipo
  }

  /** An entry is reused only while it is strictly younger than the cache duration. */
  predicate IsFresh(e: Entry, now: int) {
    now - e.timestamp < CacheDuration
  }

  predicate IsHit(cache: map<string, Entry>, key: string, now: int) {
    key in cache && IsFresh(cache[key], now)
  }

  /** The result of one lookup, the cache after it, and whether the service was called. */
  datatype Lookup = Lookup(result: Verification, cache: map<string, Entry>, fetched: bool)

  /**
   * `verifyToken(token, archetipo)` as a function of the cache before the call: `now` is
   * the clock when the cache is read, `later` the clock when the answer is stored.
   */
  function Verify(cache: map<string, Entry>, token: string, archetipo: string,
                  now: nat, later: nat, reply: Reply): (o: Lookup)
    ensures o.fetched <==> !IsHit(cache, CacheKey(token, archetipo), now)
    ensures !o.fetched ==> o.result == cache[CacheKey(token, archetipo)].data && o.cache == cache
    ensures o.fetched && Answered(reply) ==>
              o.result == reply.body.value &&
              o.cache == cache[CacheKey(token, archetipo) := Entry(reply.body.value, later)]
    ensures o.fetched && !Answered(reply) ==> o.result == Unverified && o.cache == cache
    ensures forall k :: k != CacheKey(token, archetipo) ==>
              (k in o.cache <==> k in cache) && (k in cache ==> o.cache[k] == cache[k])
  {
    var key := CacheKey(token, archetipo);
    if IsHit(cache, key, now) then Lookup(cache[key].data, cache, false)
    else if Answered(reply) then Lookup(reply.body.value, cache[key := Entry(reply.body.value, later)], true)
    else Lookup(Unverified, cache, true)
  }

  /** The module-level `tokenCache` and the function that reads and fills it. */
  class Verifier {
    var cache: map<string, Entry>

    constructor ()
      ensures cache == map[]
    {
      cache := map[];
    }

    method VerifyToken(token: string, archetipo: string, now: nat, later: nat, reply: Reply)
      returns (r: Verification, fetched: bool)
      modifies this
      ensures Lookup(r, cache, fetched) == Verify(old(cache), token, archetipo, now, later, reply)
      ensures !fetched ==> cache == old(cache)
      ensures !Answered(reply) ==> cache == old(cache)
    {
      var key := CacheKey(token, archetipo);
      if key in cache && now - cache[key].timestamp < CacheDuration {
        return cache[key].data, false;
      }
      fetched := true;
      match reply {
        case NetworkError =>
          r := Unverified;
        case Response(status, body) =>
          if !IsOk(status) {
            r := Unverified;
          } else if body.None? {
            r := Unverified;
          } else {
            cache := cache[key := Entry(body.value, later)];
            r := body.value;
          }
      }
    }
  }

  /**
   * A verdict stored from an answer is returned unchanged, without calling the service,
   * by every later lookup of the same key while it is fresh.
   */
  lemma RepeatWithinTtlIsCached(cache: map<string, Entry>, token: string, archetipo: string,
                                now: nat, later: nat, reply: Reply, now2: nat, later2: nat, reply2: Reply)
    requires Answered(reply)
    requires now2 - later < CacheDuration
    ensures var first := Verify(cache, token, archetipo, now, later, reply);
            var second := Verify(first.cache, token, archetipo, now2, later2, reply2);
            first.fetched ==> !second.fetched && second.result == first.result && second.cache == first.cache
  {
  }

  /** Once the stored verdict is the cache duration old or older, the service is called again. */
  lemma StaleEntryRefetched(cache: map<string, Entry>, token: string, archetipo: string,
                            now: nat, later: nat, reply: Reply)
    requires CacheKey(token, archetipo) in cache
    requires now - cache[CacheKey(token, archetipo)].timestamp >= CacheDuration
    ensures Verify(cache, token, archetipo, now, later, reply).fetched
  {
  }

  /**
   * Failures are not remembered: after a failed call, whether the key had no entry or a
   * stale one, the next lookup of that key calls the service again, however soon it comes.
   */
  lemma FailureRetriedNextTime(cache: map<string, Entry>, token: string, archetipo: string,
                               now: nat, later: nat, reply: Reply, now2: nat, later2: nat, reply2: Reply)
    requires !Answered(reply)
    requires now <= now2
    ensures var first := Verify(cache, token, archetipo, now, later, reply);
            first.fetched ==>
              first.result == Unverified && first.cache == cache &&
              Verify(first.cache, token, archetipo, now2, later2, reply2).fetched
    ensures CacheKey(token, archetipo) !in cache ==> Verify(cache, token, archetipo, now, later, reply).fetched
  {
  }

  /**
   * The key is not injective: token `a_b` for archetype `c` and token `a` for archetype
   * `b_c` share one cache entry, so a verdict stored for one is returned for the other.
   */
  lemma CacheKeyCollision(data: Verification, t: nat, now: nat, later: nat, reply: Reply)
    requires now - t < CacheDuration
    ensures CacheKey("a_b", "c") == CacheKey("a", "b_c")
    ensures var cache := map[CacheKey("a_b", "c") := Entry(data, t)];
            Verify(cache, "a", "b_c", now, later, reply) == Lookup(data, cache, false)
  {
    assert CacheKey("a_b", "c") == "a_b_c" == CacheKey("a", "b_c");
  }

  /** The position of the first `c` in `s`, or `|s|` when there is none. */
  function FirstIndexOf(s: string, c: char): (i: nat)
    ensures i <= |s| && c !in s[..i]
    ensures i < |s| ==> s[i] == c
    decreases |s|
  {
    if s == [] || s[0] == c then 0
    else
      var i := 1 + FirstIndexOf(s[1..], c);
      assert s[..i] == [s[0]] + s[1..][..i - 1];
      i
  }

  lemma {:induction false} FirstUnderscoreOfKey(token: string, archetipo: string)
    requires '_' !in token
    ensures FirstIndexOf(CacheKey(token, archetipo), '_') == |token|
    decreases |token|
  {
    var k := CacheKey(token, archetipo);
    if token != [] {
      assert k[1..] == CacheKey(token[1..], archetipo);
      FirstUnderscoreOfKey(token[1..], archetipo);
    }
  }

  /** For tokens without an underscore the key does tell the pairs apart. */
  lemma CacheKeyInjectiveWithoutUnderscore(t1: string, a1: string, t2: string, a2: string)
    requires '_' !in t1 && '_' !in t2
    requires CacheKey(t1, a1) == CacheKey(t2, a2)
    ensures t1 == t2 && a1 == a2
  {
    var k := CacheKey(t1, a1);
    FirstUnderscoreOfKey(t1, a1);
    FirstUnderscoreOfKey(t2, a2);
    assert t1 == k[..|t1|] == t2;
    assert a1 == k[|t1| + 1..] == a2;
  }

  // ---------------------------------------------------------------------------
  // The archetype in the page path
  // ---------------------------------------------------------------------------

  const ArchetypesDir := "/archetipi/"

  predicate IsSegment(r: string) {
    |r| > 0 && '/' !in r
  }

  /**
   * The pattern `/\/archetipi\/([^\/]+)\//` matches at position `i` of `path` with
   * capture `r`.
   */
  predicate CaptureAt(path: string, i: int, r: string) {
    var start := i + |ArchetypesDir|;
    0 <= i && start + |r| < |path| &&
    path[i..start] == ArchetypesDir && path[start..start + |r|] == r && path[start + |r|] == '/' &&
    IsSegment(r)
  }

  /** The length of the run of non-slash characters from position `k`. */
  function SegmentLength(path: string, k: nat): (n: nat)
    requires k <= |path|
    ensures k + n <= |path|
    ensures forall j :: k <= j < k + n ==> path[j] != '/'
    ensures k + n < |path| ==> path[k + n] == '/'
    decreases |path| - k
  {
    if k == |path| || path[k] == '/' then 0 else 1 + SegmentLength(path, k + 1)
  }

  /** At a given position the greedy group `[^\/]+` leaves no choice: a capture is the whole run. */
  lemma CaptureIsRun(path: string, i: nat, r: string)
    requires CaptureAt(path, i, r)
    ensures r == path[i + |ArchetypesDir|..i + |ArchetypesDir| + SegmentLength(path, i + |ArchetypesDir|)]
  {
  }

  /** The leftmost match at or after position `i`, with its position. */
  function MatchFrom(path: string, i: nat): (m: Option<(nat, string)>)
    requires i <= |path|
    ensures m.Some? ==> i <= m.value.0 && CaptureAt(path, m.value.0, m.value.1)
    ensures m.Some? ==> forall j, r :: i <= j < m.value.0 ==> !CaptureAt(path, j, r)
    ensures m.None? ==> forall j, r :: i <= j ==> !CaptureAt(path, j, r)
    decreases |path| - i
  {
    var start := i + |ArchetypesDir|;
    if start >= |path| then
      NoCaptureNearEnd(path, i);
      None
    else
      var n := SegmentLength(path, start);
      if path[i..start] == ArchetypesDir && n > 0 && start + n < |path| then
        Some((i, path[start..start + n]))
      else
        NoCaptureAt(path, i);
        MatchFrom(path, i + 1)
  }

  /** Too close to the end of the path for `/archetipi/` and a segment to fit. */
  lemma NoCaptureNearEnd(path: string, i: nat)
    requires |path| <= i + |ArchetypesDir|
    ensures forall j, r :: i <= j ==> !CaptureAt(path, j, r)
  {
  }

  /** Where the run after `/archetipi/` is empty or not closed by a slash, nothing matches. */
  lemma NoCaptureAt(path: string, i: nat)
    requires i + |ArchetypesDir| < |path|
    requires var start := i + |ArchetypesDir|; var n := SegmentLength(path, start);
             !(path[i..start] == ArchetypesDir && n > 0 && start + n < |path|)
    ensures forall r :: !CaptureAt(path, i, r)
  {
    forall r | CaptureAt(path, i, r) ensures false {
      CaptureIsRun(path, i, r);
    }
  }

  /** `extractArchetypeFromUrl()` on the page's path. */
  function ExtractArchetype(path: string): (r: Option<string>)
    ensures r.Some? ==> IsSegment(r.value)
    ensures r.Some? ==> exists i :: CaptureAt(path, i, r.value) && forall j, r' :: 0 <= j < i ==> !CaptureAt(path, j, r')
    ensures r.None? <==> forall i, r' :: !CaptureAt(path, i, r')
  {
    match MatchFrom(path, 0)
    case Some((i, r)) => Some(r)
    case None => None
  }

  predicate OccursAt(s: string, i: int, w: string) {
    0 <= i && i + |w| <= |s| && s[i..i + |w|] == w
  }

  /** A non-null archetype is a path segment that the path holds between `/archetipi/` and a slash. */
  lemma ArchetypeOccursInPath(path: string)
    requires ExtractArchetype(path).Some?
    ensures var r := ExtractArchetype(path).value;
            IsSegment(r) && exists i :: OccursAt(path, i, ArchetypesDir + r + "/")
  {
    var r := ExtractArchetype(path).value;
    var i :| CaptureAt(path, i, r);
    CaptureOccurs(path, i, r);
  }

  lemma CaptureOccurs(path: string, i: int, r: string)
    requires CaptureAt(path, i, r)
    ensures OccursAt(path, i, ArchetypesDir + r + "/")
  {
    var w := ArchetypesDir + r + "/";
    var start := i + |ArchetypesDir|;
    assert path[i..i + |w|] == path[i..start] + path[start..start + |r|] + [path[start + |r|]];
  }

  /** The trailing slash is required: a bare `/archetipi/<name>` path yields no archetype. */
  lemma TrailingSlashRequired(name: string)
    requires IsSegment(name)
    ensures ExtractArchetype(ArchetypesDir + name) == None
    ensures ExtractArchetype(ArchetypesDir + name + "/") == Some(name)
  {
    var bare := ArchetypesDir + name;
    forall i, r' | CaptureAt(bare, i, r') ensures false {
    }
    var full := ArchetypesDir + name + "/";
    assert CaptureAt(full, 0, name);
  }

  // ---------------------------------------------------------------------------
  // The denial: a redirect to the error page, or an inline error
  // ---------------------------------------------------------------------------

  const AccessDenied := "Accesso negato"
  const ErrorPage := "/accesso-negato.html"
  const ErrorQuery := "?error="

  /** The answer to `fetch(errorPageUrl, { method: 'HEAD' })`. */
  datatype Probe = ProbeResponse(status: int) | ProbeRejected

  datatype ErrorView = Navigate(url: string) | InlineError(message: string)

  /** `redirectToError(message)` once its probe has settled; `None` stands for no argument. */
  function RedirectToError(message: Option<string>, probe: Probe): (v: ErrorView)
    ensures v.Navigate? <==> probe.ProbeResponse? && IsOk(probe.status)
    ensures v.Navigate? ==> ErrorPage + ErrorQuery <= v.url
    ensures v.InlineError? ==> v.message == message.GetOr(AccessDenied)
  {
    var m := message.GetOr(AccessDenied);
    if probe.ProbeResponse? && IsOk(probe.status) then Navigate(ErrorPage + ErrorQuery + UriComponent.Encode(m))
    else InlineError(m)
  }

  /** The message the error page reads from its `error` parameter. */
  function ErrorParameter(url: string): Option<string> {
    ParameterAfter(ErrorPage + ErrorQuery, url)
  }

  /** The decoded text after `head`, when `url` starts with `head`. */
  function ParameterAfter(head: string, url: string): Option<string> {
    if head <= url then UriComponent.Decode(url[|head|..]) else None
  }

  /**
   * The visitor always learns the message: the error page receives it intact in its
   * single `error` parameter when the page exists, and otherwise it is shown inline.
   */
  lemma RedirectCarriesMessage(message: Option<string>, probe: Probe)
    ensures var m := message.GetOr(AccessDenied);
            match RedirectToError(message, probe)
            case Navigate(url) =>
              probe.ProbeResponse? && IsOk(probe.status) && ErrorParameter(url) == Some(m) &&
              |ErrorPage + ErrorQuery| <= |url| && UriComponent.Escaped(url[|ErrorPage + ErrorQuery|..])
            case InlineError(shown) =>
              !(probe.ProbeResponse? && IsOk(probe.status)) && shown == m
  {
    var m := message.GetOr(AccessDenied);
    if probe.ProbeResponse? && IsOk(probe.status) {
      ParameterRoundTrip(ErrorPage + ErrorQuery, m);
      assert RedirectToError(message, probe) == Navigate(ErrorPage + ErrorQuery + UriComponent.Encode(m));
    } else {
      assert RedirectToError(message, probe) == InlineError(m);
    }
  }

  /** An encoded message after a fixed head reads back intact, and holds only escapes and unreserved characters. */
  lemma ParameterRoundTrip(head: string, m: string)
    ensures var url := head + UriComponent.Encode(m);
            ParameterAfter(head, url) == Some(m) && UriComponent.Escaped(url[|head|..])
  {
    var e := UriComponent.Encode(m);
    assert (head + e)[|head|..] == e;
    UriComponent.DecodeEncode(m);
  }

  // ---------------------------------------------------------------------------
  // The access decision
  // ---------------------------------------------------------------------------

  const InvalidUrl := "URL non valido"
  const InvalidToken := "Token non valido"
  const InternalError := "Errore interno"

  /** What the gate does to the page. */
  datatype Action = ShowPublic | ShowPrivate(userInfo: UserInfo) | Deny(message: string)

  /** The action, whether the loading notice was shown first, and whether the service was called. */
  datatype Access = Access(action: Action, loading: bool, fetched: bool)

  /** `!token` is false: the `token` query parameter is present and not empty. */
  predicate HasToken(token: Option<string>) {
    token.Some? && token.value != ""
  }

  /**
   * The end of `checkAccess` once the verification is known. A valid verdict without
   * `userInfo` makes `showPrivateContent` throw on `userInfo.archetipo`, and the outer
   * `catch` turns that into the internal error.
   */
  function Conclude(v: Verification): (a: Action)
    ensures a != ShowPublic
    ensures a.ShowPrivate? <==> v.valid && v.userInfo.Some?
    ensures a.ShowPrivate? ==> a.userInfo == v.userInfo.value
    ensures !v.valid ==> a.Deny? && (a.message == InvalidToken <==> v.error.None? || v.error.value in {"", InvalidToken})
    ensures !v.valid && v.error.Some? && v.error.value != "" ==> a.message == v.error.value
    ensures v.valid && v.userInfo.None? ==> a == Deny(InternalError)
    ensures a.Deny? ==> a.message != ""
  {
    if v.valid then
      match v.userInfo
      case Some(info) => ShowPrivate(info)
      case None => Deny(InternalError)
    else
      Deny(if v.error.None? || v.error.value == "" then InvalidToken else v.error.value)
  }

  /** `checkAccess()`: `token` is the decoded `token` query parameter, `path` the page path. */
  method CheckAccess(verifier: Verifier, token: Option<string>, path: string,
                     now: nat, later: nat, reply: Reply) returns (a: Access)
    modifies verifier
    ensures !HasToken(token) ==> a == Access(ShowPublic, false, false) && verifier.cache == old(verifier.cache)
    ensures HasToken(token) && ExtractArchetype(path).None? ==>
              a == Access(Deny(InvalidUrl), false, false) && verifier.cache == old(verifier.cache)
    ensures HasToken(token) && ExtractArchetype(path).Some? ==>
              var o := Verify(old(verifier.cache), token.value, ExtractArchetype(path).value, now, later, reply);
              a == Access(Conclude(o.result), true, o.fetched) && verifier.cache == o.cache
    ensures a.action.ShowPublic? <==> !HasToken(token)
    ensures a.action.Deny? ==> a.action.message != ""
  {
    var archetipo := ExtractArchetype(path);
    if !HasToken(token) {
      return Access(ShowPublic, false, false);
    }
    if archetipo.None? {
      return Access(Deny(InvalidUrl), false, false);
    }
    var verification, fetched := verifier.VerifyToken(token.value, archetipo.value, now, later, reply);
    a := Access(Conclude(verification), true, fetched);
  }
}
