/**
 * Credential resolution for the X (Twitter) client: the auth_token and ct0
 * cookies are taken from explicit arguments first, then from environment
 * variables; duplicate browser cookie records are disambiguated by domain.
 *
 * The process environment is an injected map from variable names to values.
 */
module Cookies {
  import opened Wrappers
  import opened Text

  // ---------------------------------------------------------------------------
  // Values

  /** A raw value of unknown type, as read from the environment: a string, or
      anything else (`undefined` for a variable that is not set). */
  datatype Raw = Str(s: string) | NonStr

  /** The two credential fields `readEnvCookie` can fill. */
  datatype Field = AuthToken | Ct0

  /** The closed set of browser cookie stores. */
  datatype CookieSource = Safari | Chrome | Firefox

  /** The two cookie names of interest. */
  datatype CookieName = AuthTokenCookie | Ct0Cookie

  /** A decoded browser cookie record; every field may be missing. */
  datatype CookieRecord = CookieRecord(name: Option<string>, value: Option<string>, domain: Option<string>)

  /** A caller's choice of browser sources: nothing, one source, or a list. */
  datatype SourceSelector = Unspecified | One(source: CookieSource) | Many(sources: seq<CookieSource>)

  /** The value of a `TwitterCookies` record. */
  datatype Credentials = Credentials(
    authToken: Option<string>,
    ct0: Option<string>,
    cookieHeader: Option<string>,
    source: Option<string>)
  {
    /** The field `f` selects. */
    function Get(f: Field): Option<string>
    {
      match f
      case AuthToken => authToken
      case Ct0 => ct0
    }

    /** This record with field `f` replaced by `v`. */
    function Set(f: Field, v: Option<string>): (c: Credentials)
      ensures c.Get(f) == v
      ensures c.cookieHeader == cookieHeader && c.source == source
      ensures forall g :: g != f ==> c.Get(g) == Get(g)
    {
      match f
      case AuthToken => this.(authToken := v)
      case Ct0 => this.(ct0 := v)
    }
  }

  /** JavaScript truthiness of a `string | null`: present and not empty. */
  predicate Truthy(o: Option<string>)
  {
    o.Some? && o.value != ""
  }

  const CliSource: string := "CLI argument"
  const AuthTokenKeys: seq<string> := ["AUTH_TOKEN", "TWITTER_AUTH_TOKEN"]
  const Ct0Keys: seq<string> := ["CT0", "TWITTER_CT0"]

  // ---------------------------------------------------------------------------
  // normalizeValue, cookieHeader

  /** The gate every raw value passes: non-strings and blank strings are
      absent; anything else is the string with its surrounding whitespace
      removed. */
  function NormalizeValue(v: Raw): (r: Option<string>)
    ensures r.Some? <==> Usable(v)
    ensures r.Some? ==> r.value == Trim(v.s)
    ensures r.Some? ==> r.value != "" && !IsSpace(r.value[0]) && !IsSpace(r.value[|r.value| - 1])
  {
    match v
    case NonStr => None
    case Str(s) =>
      var trimmed := Trim(s);
      if |trimmed| > 0 then Some(trimmed) else None
  }

  /** A raw value that normalizes to a string: a string that is not all whitespace. */
  predicate Usable(v: Raw)
  {
    v.Str? && !Blank(v.s)
  }

  /** Normalizing a normalized value changes nothing. */
  lemma NormalizeIdempotent(v: Raw)
    requires NormalizeValue(v).Some?
    ensures NormalizeValue(Str(NormalizeValue(v).value)) == NormalizeValue(v)
  {
    TrimFixed(NormalizeValue(v).value);
  }

  /** The `Cookie:` header value carrying both tokens. */
  function CookieHeader(authToken: string, ct0: string): (h: string)
    ensures |h| == |authToken| + |ct0| + 17
    ensures h[..11] == "auth_token=" && h[11..11 + |authToken|] == authToken
    ensures h[11 + |authToken|..17 + |authToken|] == "; ct0=" && h[17 + |authToken|..] == ct0
  {
    "auth_token=" + authToken + "; ct0=" + ct0
  }

  /** The header determines both tokens when the auth token holds no `;`. */
  lemma {:induction false} CookieHeaderInjective(a1: string, c1: string, a2: string, c2: string)
    requires ';' !in a1 && ';' !in a2
    requires CookieHeader(a1, c1) == CookieHeader(a2, c2)
    ensures a1 == a2 && c1 == c2
  {
    var h := CookieHeader(a1, c1);
    // The first ';' of the header sits right after the auth token.
    assert h[11 + |a1|] == ';' && h[11 + |a2|] == ';';
    assert forall k :: 11 <= k < 11 + |a1| ==> h[k] == a1[k - 11] != ';';
    assert forall k :: 11 <= k < 11 + |a2| ==> h[k] == a2[k - 11] != ';';
    assert |a1| == |a2|;
  }

  // ---------------------------------------------------------------------------
  // buildEmpty and readEnvCookie

  /** The mutable credentials record the resolver fills in. */
  class TwitterCookies {
    var authToken: Option<string>
    var ct0: Option<string>
    var cookieHeader: Option<string>
    var source: Option<string>

    /** The record as a value. */
    function View(): Credentials
      reads this
    {
      Credentials(authToken, ct0, cookieHeader, source)
    }

    /** `buildEmpty`: every field null. */
    constructor ()
      ensures View() == Credentials(None, None, None, None)
    {
      authToken, ct0, cookieHeader, source := None, None, None, None;
    }
  }

  /** The environment variable `key`, as a raw value. */
  function EnvLookup(env: map<string, string>, key: string): Raw
  {
    if key in env then Str(env[key]) else NonStr
  }

  /** The index of the first of `keys[from..]` whose environment value
      normalizes to a string. */
  function FirstEnvHit(env: map<string, string>, keys: seq<string>, from: nat): (r: Option<nat>)
    requires from <= |keys|
    ensures r.Some? ==> from <= r.value < |keys| && Usable(EnvLookup(env, keys[r.value]))
    ensures r.Some? ==> forall j :: from <= j < r.value ==> !Usable(EnvLookup(env, keys[j]))
    ensures r.None? ==> forall j :: from <= j < |keys| ==> !Usable(EnvLookup(env, keys[j]))
    decreases |keys| - from
  {
    if from == |keys| then None
    else if Usable(EnvLookup(env, keys[from])) then Some(from)
    else FirstEnvHit(env, keys, from + 1)
  }

  /** The normalized value of the first usable key, if any. */
  function FirstEnvValue(env: map<string, string>, keys: seq<string>): Option<string>
  {
    match FirstEnvHit(env, keys, 0)
    case None => None
    case Some(i) => NormalizeValue(EnvLookup(env, keys[i]))
  }

  /** What `readEnvCookie` makes of the record `c`. */
  function EnvFilled(c: Credentials, env: map<string, string>, keys: seq<string>, field: Field): Credentials
  {
    if Truthy(c.Get(field)) then c
    else match FirstEnvHit(env, keys, 0)
      case None => c
      case Some(i) =>
        var filled := c.Set(field, NormalizeValue(EnvLookup(env, keys[i])));
        if Truthy(c.source) then filled else filled.(source := Some("env " + keys[i]))
  }

  /** `readEnvCookie`: fill an empty field from the first usable environment
      variable among `keys`, and record that variable as the source unless a
      source is already recorded. */
  method ReadEnvCookie(cookies: TwitterCookies, env: map<string, string>, keys: seq<string>, field: Field)
    modifies cookies
    ensures cookies.View() == EnvFilled(old(cookies.View()), env, keys, field)
  {
    if Truthy(cookies.View().Get(field)) {
      return;
    }
    var i := 0;
    while i < |keys|
      invariant 0 <= i <= |keys|
      invariant FirstEnvHit(env, keys, i) == FirstEnvHit(env, keys, 0)
      invariant cookies.View() == old(cookies.View())
    {
      var value := NormalizeValue(EnvLookup(env, keys[i]));
      if !Truthy(value) {
        i := i + 1;
        continue;
      }
      match field {
        case AuthToken => cookies.authToken := value;
        case Ct0 => cookies.ct0 := value;
      }
      if !Truthy(cookies.source) {
        cookies.source := Some("env " + keys[i]);
      }
      break;
    }
  }

  /** Field by field: the selected field keeps a non-empty value and otherwise
      takes the first environment value, if there is one; the other token and
      the header never change; a recorded source is never replaced. */
  lemma EnvFilledFields(c: Credentials, env: map<string, string>, keys: seq<string>, field: Field)
    ensures var r := EnvFilled(c, env, keys, field);
      && r.Get(field) == (if !Truthy(c.Get(field)) && FirstEnvValue(env, keys).Some?
                          then FirstEnvValue(env, keys) else c.Get(field))
      && (forall g :: g != field ==> r.Get(g) == c.Get(g))
      && r.cookieHeader == c.cookieHeader
      && (Truthy(c.source) ==> r.source == c.source)
  {
  }

  /** A non-empty field is never overwritten, and nothing else changes. */
  lemma EnvFilledKeepsSetField(c: Credentials, env: map<string, string>, keys: seq<string>, field: Field)
    requires Truthy(c.Get(field))
    ensures EnvFilled(c, env, keys, field) == c
  {
  }

  /** The first usable key is the one `FirstEnvHit` finds. */
  lemma FirstEnvHitAt(env: map<string, string>, keys: seq<string>, i: nat)
    requires i < |keys| && Usable(EnvLookup(env, keys[i]))
    requires forall j :: 0 <= j < i ==> !Usable(EnvLookup(env, keys[j]))
    ensures FirstEnvHit(env, keys, 0) == Some(i)
  {
  }

  /** An empty field takes the normalized value of the first usable key; the
      source is recorded only if none was; the other fields are untouched. */
  lemma EnvFilledTakesFirstHit(c: Credentials, env: map<string, string>, keys: seq<string>, field: Field, i: nat)
    requires !Truthy(c.Get(field))
    requires i < |keys| && Usable(EnvLookup(env, keys[i]))
    requires forall j :: 0 <= j < i ==> !Usable(EnvLookup(env, keys[j]))
    ensures var r := EnvFilled(c, env, keys, field);
      && r.Get(field) == NormalizeValue(EnvLookup(env, keys[i]))
      && (forall g :: g != field ==> r.Get(g) == c.Get(g))
      && r.cookieHeader == c.cookieHeader
      && r.source == (if Truthy(c.source) then c.source else Some("env " + keys[i]))
  {
    FirstEnvHitAt(env, keys, i);
  }

  /** Only the keys up to the first usable one matter: changing the
      environment at later keys changes nothing. */
  lemma EnvFilledIgnoresLaterKeys(c: Credentials, env1: map<string, string>, env2: map<string, string>,
                                  keys: seq<string>, field: Field, i: nat)
    requires i < |keys| && Usable(EnvLookup(env1, keys[i]))
    requires forall j :: 0 <= j <= i ==> EnvLookup(env1, keys[j]) == EnvLookup(env2, keys[j])
    requires forall j :: 0 <= j < i ==> !Usable(EnvLookup(env1, keys[j]))
    ensures EnvFilled(c, env1, keys, field) == EnvFilled(c, env2, keys, field)
  {
    if !Truthy(c.Get(field)) {
      EnvFilledTakesFirstHit(c, env1, keys, field, i);
      EnvFilledTakesFirstHit(c, env2, keys, field, i);
    }
  }

  /** When no key yields a value, the record is unchanged. */
  lemma EnvFilledNoHit(c: Credentials, env: map<string, string>, keys: seq<string>, field: Field)
    requires forall j :: 0 <= j < |keys| ==> !Usable(EnvLookup(env, keys[j]))
    ensures EnvFilled(c, env, keys, field) == c
  {
  }

  // ---------------------------------------------------------------------------
  // resolveSources and labelForSource

  /** The browser sources to consult, in order. */
  function ResolveSources(selector: SourceSelector): (r: seq<CookieSource>)
    ensures selector.Many? ==> r == selector.sources
    ensures selector.One? ==> r == [selector.source]
    ensures selector.Unspecified? ==> |r| == 3 && Safari in r && Chrome in r && Firefox in r
    ensures selector.Unspecified? ==> !MultiProfile(r[0]) && MultiProfile(r[1]) && MultiProfile(r[2])
  {
    match selector
    case Many(sources) => sources
    case One(source) => [source]
    case Unspecified => [Safari, Chrome, Firefox]
  }

  /** The default order is Safari, Chrome, Firefox. */
  lemma ResolveSourcesDefaultOrder()
    ensures ResolveSources(Unspecified) == [Safari, Chrome, Firefox]
  {
  }

  /** The browsers that keep several profiles. */
  predicate MultiProfile(s: CookieSource)
  {
    s != Safari
  }

  /** The display name of a browser. */
  function BrowserName(s: CookieSource): string
  {
    match s
    case Safari => "Safari"
    case Chrome => "Chrome"
    case Firefox => "Firefox"
  }

  /** A human-readable provenance label for a browser and optional profile. */
  function LabelForSource(source: CookieSource, profile: Option<string>): (r: string)
    ensures !MultiProfile(source) ==> r == BrowserName(source)
    ensures MultiProfile(source) && Truthy(profile) ==>
      r == BrowserName(source) + " profile \"" + profile.value + "\""
    ensures MultiProfile(source) && !Truthy(profile) ==> r == BrowserName(source) + " default profile"
  {
    if source == Safari then BrowserName(Safari)
    else if Truthy(profile) then BrowserName(source) + " profile \"" + profile.value + "\""
    else BrowserName(source) + " default profile"
  }

  /** Distinct labels for distinct browsers, and for distinct shown profiles. */
  lemma LabelForSourceInjective(s1: CookieSource, p1: Option<string>, s2: CookieSource, p2: Option<string>)
    requires LabelForSource(s1, p1) == LabelForSource(s2, p2)
    ensures s1 == s2
    ensures MultiProfile(s1) ==> Truthy(p1) == Truthy(p2)
    ensures MultiProfile(s1) && Truthy(p1) ==> p1.value == p2.value
  {
    var r := LabelForSource(s1, p1);
    // The first letter names the browser.
    assert r[0] == BrowserName(s1)[0] == BrowserName(s2)[0];
    var n := |BrowserName(s1)|;
    // The letter after the browser name tells a named profile from the default one.
    assert MultiProfile(s1) ==> r[n + 1] == (if Truthy(p1) then 'p' else 'd') == (if Truthy(p2) then 'p' else 'd');
    if MultiProfile(s1) && Truthy(p1) {
      assert p1.value == r[n + 10..|r| - 1];
      assert p2.value == r[n + 10..|r| - 1];
    }
  }

  // ---------------------------------------------------------------------------
  // pickCookieValue

  /** The name of a cookie as it appears in a record. */
  function NameText(n: CookieName): string
  {
    match n
    case AuthTokenCookie => "auth_token"
    case Ct0Cookie => "ct0"
  }

  /** A record counts for name `n` when it carries that name and a string value. */
  predicate IsMatch(c: CookieRecord, n: CookieName)
  {
    c.name == Some(NameText(n)) && c.value.Some?
  }

  /** A record's domain, with a missing domain read as the empty string. */
  function DomainOf(c: CookieRecord): string
  {
    if c.domain.Some? then c.domain.value else ""
  }

  /** The record's domain ends with `suffix`. */
  predicate InDomain(c: CookieRecord, suffix: string)
  {
    EndsWith(DomainOf(c), suffix)
  }

  /** The records of `cookies` that count for name `n`, in their original order. */
  function Matches(cookies: seq<CookieRecord>, n: CookieName): (ms: seq<CookieRecord>)
    ensures |ms| <= |cookies|
    ensures forall c :: c in ms ==> c in cookies && IsMatch(c, n)
    ensures forall i :: 0 <= i < |cookies| && IsMatch(cookies[i], n) ==> cookies[i] in ms
  {
    if |cookies| == 0 then []
    else (if IsMatch(cookies[0], n) then [cookies[0]] else []) + Matches(cookies[1..], n)
  }

  /** Filtering a concatenation filters each part: `filter` keeps the order
      and the multiplicity of the records it keeps. */
  lemma {:induction false} MatchesAppend(a: seq<CookieRecord>, b: seq<CookieRecord>, n: CookieName)
    ensures Matches(a + b, n) == Matches(a, n) + Matches(b, n)
  {
    if |a| > 0 {
      MatchesAppend(a[1..], b, n);
      assert (a + b)[1..] == a[1..] + b;
    } else {
      assert a + b == b;
    }
  }

  /** Filtering one record keeps it exactly when it counts for `n`; with
      `MatchesAppend` this fixes the filter on every list. */
  lemma MatchesSingle(c: CookieRecord, n: CookieName)
    ensures Matches([c], n) == if IsMatch(c, n) then [c] else []
  {
    assert [c][1..] == [];
  }

  /** `find`: the first record whose domain ends with `suffix`. */
  function FindInDomain(ms: seq<CookieRecord>, suffix: string): (r: Option<CookieRecord>)
    ensures r.Some? ==> r.value in ms && InDomain(r.value, suffix)
    ensures r.Some? ==> exists i :: 0 <= i < |ms| && ms[i] == r.value && NoneInDomainBefore(ms, i, suffix)
    ensures r.None? <==> forall j :: 0 <= j < |ms| ==> !InDomain(ms[j], suffix)
  {
    if |ms| == 0 then None
    else if InDomain(ms[0], suffix) then
      assert NoneInDomainBefore(ms, 0, suffix);
      Some(ms[0])
    else
      var r := FindInDomain(ms[1..], suffix);
      if r.Some? then
        var i :| 0 <= i < |ms| - 1 && ms[1..][i] == r.value && NoneInDomainBefore(ms[1..], i, suffix);
        assert ms[i + 1] == r.value && NoneInDomainBefore(ms, i + 1, suffix);
        r
      else r
  }

  /** No record of `ms` before index `i` is in the domain `suffix`. */
  predicate NoneInDomainBefore(ms: seq<CookieRecord>, i: nat, suffix: string)
    requires i <= |ms|
  {
    forall j :: 0 <= j < i ==> !InDomain(ms[j], suffix)
  }

  /** `pickCookieValue`: among the records for name `n`, prefer the first in
      the x.com domain, then the first in the twitter.com domain, then the
      first of all; a preferred record with an empty value is passed over. */
  function PickCookieValue(cookies: seq<CookieRecord>, n: CookieName): (r: Option<string>)
    ensures r.None? <==> forall i :: 0 <= i < |cookies| ==> !IsMatch(cookies[i], n)
    ensures r.Some? ==> exists i :: 0 <= i < |cookies| && IsMatch(cookies[i], n) && cookies[i].value == r
  {
    var matches := Matches(cookies, n);
    if |matches| == 0 then None
    else
      var preferred := FindInDomain(matches, "x.com");
      var twitter := FindInDomain(matches, "twitter.com");
      var chosen := if preferred.Some? && Truthy(preferred.value.value) then preferred.value
                    else if twitter.Some? && Truthy(twitter.value.value) then twitter.value
                    else matches[0];
      assert chosen in matches;
      chosen.value
  }

  /** Reference definition over the unfiltered list: the index of the first
      record that counts for `n` and whose domain ends with `suffix` (every
      domain ends with the empty suffix). */
  function FirstMatchIn(cookies: seq<CookieRecord>, n: CookieName, suffix: string): (r: Option<nat>)
    ensures r.Some? ==> r.value < |cookies| && IsMatch(cookies[r.value], n)
    ensures r.Some? ==> InDomain(cookies[r.value], suffix)
    ensures r.Some? ==> forall j :: 0 <= j < r.value && IsMatch(cookies[j], n) ==> !InDomain(cookies[j], suffix)
    ensures r.None? ==> forall j :: 0 <= j < |cookies| && IsMatch(cookies[j], n) ==> !InDomain(cookies[j], suffix)
  {
    if |cookies| == 0 then None
    else if IsMatch(cookies[0], n) && InDomain(cookies[0], suffix) then Some(0)
    else match FirstMatchIn(cookies[1..], n, suffix)
      case None => None
      case Some(k) => Some(k + 1)
  }

  /** The record at index `k`, if any. */
  function RecordAt(cookies: seq<CookieRecord>, k: Option<nat>): Option<CookieRecord>
  {
    if k.Some? && k.value < |cookies| then Some(cookies[k.value]) else None
  }

  /** Filtering then finding picks the same record as searching the whole list. */
  lemma {:induction false} FindAfterFilter(cookies: seq<CookieRecord>, n: CookieName, suffix: string)
    ensures FindInDomain(Matches(cookies, n), suffix) == RecordAt(cookies, FirstMatchIn(cookies, n, suffix))
  {
    if |cookies| > 0 {
      var rest := cookies[1..];
      FindAfterFilter(rest, n, suffix);
      var ms, mr := Matches(cookies, n), Matches(rest, n);
      if IsMatch(cookies[0], n) {
        assert ms == [cookies[0]] + mr;
        assert ms[1..] == mr;
      } else {
        assert ms == mr;
      }
    }
  }

  /** The value of the record chosen at `k`. */
  function ValueAt(cookies: seq<CookieRecord>, k: Option<nat>): Option<string>
  {
    if k.Some? && k.value < |cookies| then cookies[k.value].value else None
  }

  /** The preference order stated over the unfiltered list: the first x.com
      record for `n` wins if its value is non-empty, regardless of where
      twitter.com records are; otherwise the first twitter.com record if its
      value is non-empty; otherwise the first record for `n`. */
  lemma PickCookieValuePreference(cookies: seq<CookieRecord>, n: CookieName)
    ensures var x := ValueAt(cookies, FirstMatchIn(cookies, n, "x.com"));
            var t := ValueAt(cookies, FirstMatchIn(cookies, n, "twitter.com"));
            var f := ValueAt(cookies, FirstMatchIn(cookies, n, ""));
      PickCookieValue(cookies, n) == (if Truthy(x) then x else if Truthy(t) then t else f)
  {
    FindAfterFilter(cookies, n, "x.com");
    FindAfterFilter(cookies, n, "twitter.com");
    FindAfterFilter(cookies, n, "");
    var ms := Matches(cookies, n);
    if |ms| > 0 {
      assert InDomain(ms[0], "");
    }
  }

  /** An x.com record is preferred over a legacy twitter.com record, in either order. */
  lemma PickCookieValueCanonicalExample()
    ensures var legacy := CookieRecord(Some("auth_token"), Some("x"), Some("old.twitter.com"));
            var current := CookieRecord(Some("auth_token"), Some("y"), Some("x.com"));
      && PickCookieValue([legacy, current], AuthTokenCookie) == Some("y")
      && PickCookieValue([current, legacy], AuthTokenCookie) == Some("y")
  {
    var legacy := CookieRecord(Some("auth_token"), Some("x"), Some("old.twitter.com"));
    var current := CookieRecord(Some("auth_token"), Some("y"), Some("x.com"));
    assert !EndsWith("old.twitter.com", "x.com") by {
      assert "old.twitter.com"[10..] == "r.com";
    }
    assert EndsWith("x.com", "x.com");
    assert Matches([legacy, current], AuthTokenCookie) == [legacy, current] by {
      assert [legacy, current][1..] == [current];
    }
    assert Matches([current, legacy], AuthTokenCookie) == [current, legacy] by {
      assert [current, legacy][1..] == [legacy];
    }
    assert [legacy, current][1..] == [current];
  }

  /** The domain test is a bare suffix test: a fox.com record counts as x.com
      and wins over an earlier twitter.com record. */
  lemma PickCookieValueSuffixExample()
    ensures var legacy := CookieRecord(Some("ct0"), Some("t"), Some("twitter.com"));
            var other := CookieRecord(Some("ct0"), Some("f"), Some("fox.com"));
      PickCookieValue([legacy, other], Ct0Cookie) == Some("f")
  {
    var legacy := CookieRecord(Some("ct0"), Some("t"), Some("twitter.com"));
    var other := CookieRecord(Some("ct0"), Some("f"), Some("fox.com"));
    assert !EndsWith("twitter.com", "x.com") by {
      assert "twitter.com"[6..] == "r.com";
    }
    assert EndsWith("fox.com", "x.com") by {
      assert "fox.com"[2..] == "x.com";
    }
    assert Matches([legacy, other], Ct0Cookie) == [legacy, other] by {
      assert [legacy, other][1..] == [other];
    }
  }

  // ---------------------------------------------------------------------------
  // resolveCredentials

  /** The record after the explicit stage and the two environment stages. */
  function EnvStages(env: map<string, string>, authToken: string, ct0: string): Credentials
  {
    var explicit := Credentials(Some(authToken), Some(ct0), None, Some(CliSource));
    EnvFilled(EnvFilled(explicit, env, AuthTokenKeys, AuthToken), env, Ct0Keys, Ct0)
  }

  /** The completion check: the header is set when both tokens are non-empty. */
  function WithHeader(c: Credentials): Credentials
  {
    if Truthy(c.authToken) && Truthy(c.ct0) then
      c.(cookieHeader := Some(CookieHeader(c.authToken.value, c.ct0.value)))
    else c
  }

  /** The credentials `resolveCredentials` returns, as a value. */
  function Resolved(env: map<string, string>, authToken: string, ct0: string): Credentials
  {
    WithHeader(EnvStages(env, authToken, ct0))
  }

  /** `resolveCredentials`: explicit values first, then the environment; the
      header is built only when both tokens are non-empty. */
  method ResolveCredentials(env: map<string, string>, authToken: string, ct0: string)
    returns (cookies: TwitterCookies, warnings: seq<string>)
    ensures fresh(cookies)
    ensures cookies.View() == Resolved(env, authToken, ct0)
    ensures warnings == []
  {
    warnings := [];
    cookies := new TwitterCookies();

    cookies.authToken := Some(authToken);
    cookies.source := Some(CliSource);

    cookies.ct0 := Some(ct0);
    cookies.source := if Truthy(cookies.source) then cookies.source else Some(CliSource);

    ReadEnvCookie(cookies, env, AuthTokenKeys, AuthToken);
    ReadEnvCookie(cookies, env, Ct0Keys, Ct0);

    if Truthy(cookies.authToken) && Truthy(cookies.ct0) {
      cookies.cookieHeader := Some(CookieHeader(cookies.authToken.value, cookies.ct0.value));
      return;
    }
  }

  /** The two environment stages, seen through `EnvFilledFields`. */
  lemma ResolvedStages(env: map<string, string>, authToken: string, ct0: string)
    ensures var afterCt0 := EnvStages(env, authToken, ct0);
      && afterCt0.source == Some(CliSource)
      && afterCt0.cookieHeader == None
      && afterCt0.authToken == (if authToken == "" && FirstEnvValue(env, AuthTokenKeys).Some?
                                then FirstEnvValue(env, AuthTokenKeys) else Some(authToken))
      && afterCt0.ct0 == (if ct0 == "" && FirstEnvValue(env, Ct0Keys).Some?
                          then FirstEnvValue(env, Ct0Keys) else Some(ct0))
  {
    var explicit := Credentials(Some(authToken), Some(ct0), None, Some(CliSource));
    var afterAuth := EnvFilled(explicit, env, AuthTokenKeys, AuthToken);
    EnvFilledFields(explicit, env, AuthTokenKeys, AuthToken);
    assert afterAuth.Get(Ct0) == Some(ct0);
    EnvFilledFields(afterAuth, env, Ct0Keys, Ct0);
    assert EnvFilled(afterAuth, env, Ct0Keys, Ct0).Get(AuthToken) == afterAuth.Get(AuthToken);
  }

  /** The completion check touches only the header. */
  lemma WithHeaderFields(c: Credentials)
    requires c.cookieHeader == None
    ensures var r := WithHeader(c);
      && r.authToken == c.authToken && r.ct0 == c.ct0 && r.source == c.source
      && (r.cookieHeader.Some? <==> Truthy(c.authToken) && Truthy(c.ct0))
      && (r.cookieHeader.Some? ==> r.cookieHeader.value == "auth_token=" + c.authToken.value + "; ct0=" + c.ct0.value)
  {
  }

  /** The recorded source is always the explicit-argument label: an
      environment label can never be written on this path. */
  lemma ResolvedSourceIsCli(env: map<string, string>, authToken: string, ct0: string)
    ensures Resolved(env, authToken, ct0).source == Some("CLI argument")
  {
    ResolvedStages(env, authToken, ct0);
    WithHeaderFields(EnvStages(env, authToken, ct0));
  }

  /** A non-empty explicit value appears unchanged (not even trimmed); an
      empty one is replaced by the first usable environment variable, and
      kept as the empty string when there is none. */
  lemma ResolvedTokens(env: map<string, string>, authToken: string, ct0: string)
    ensures var r := Resolved(env, authToken, ct0);
      && (authToken != "" ==> r.authToken == Some(authToken))
      && (ct0 != "" ==> r.ct0 == Some(ct0))
      && (authToken == "" ==>
            r.authToken == (if FirstEnvValue(env, AuthTokenKeys).Some? then FirstEnvValue(env, AuthTokenKeys) else Some("")))
      && (ct0 == "" ==>
            r.ct0 == (if FirstEnvValue(env, Ct0Keys).Some? then FirstEnvValue(env, Ct0Keys) else Some("")))
  {
    ResolvedStages(env, authToken, ct0);
    WithHeaderFields(EnvStages(env, authToken, ct0));
  }

  /** The header is present exactly when both tokens are non-empty, and then
      carries exactly those tokens. */
  lemma ResolvedHeader(env: map<string, string>, authToken: string, ct0: string)
    ensures var r := Resolved(env, authToken, ct0);
      && (r.cookieHeader.Some? <==> Truthy(r.authToken) && Truthy(r.ct0))
      && (r.cookieHeader.Some? ==>
           r.cookieHeader.value == "auth_token=" + r.authToken.value + "; ct0=" + r.ct0.value)
  {
    ResolvedStages(env, authToken, ct0);
    WithHeaderFields(EnvStages(env, authToken, ct0));
  }

  /** With no explicit auth token and both auth-token variables set, the
      first-listed variable wins, and the source still reads "CLI argument". */
  lemma ResolvedEnvExample()
    ensures var r := Resolved(map["AUTH_TOKEN" := "a", "TWITTER_AUTH_TOKEN" := "b"], "", "c");
      r.authToken == Some("a") && r.source == Some("CLI argument")
      && r.cookieHeader == Some("auth_token=a; ct0=c")
  {
    var env := map["AUTH_TOKEN" := "a", "TWITTER_AUTH_TOKEN" := "b"];
    TrimFixed("a");
    assert EnvLookup(env, AuthTokenKeys[0]) == Str("a");
    assert FirstEnvValue(env, AuthTokenKeys) == Some("a");
    ResolvedSourceIsCli(env, "", "c");
    ResolvedTokens(env, "", "c");
    ResolvedHeader(env, "", "c");
    var r := Resolved(env, "", "c");
    assert r.authToken == Some("a") && r.ct0 == Some("c");
    assert r.cookieHeader.value == "auth_token=" + "a" + "; ct0=" + "c";
    assert "auth_token=" + "a" + "; ct0=" + "c" == "auth_token=a; ct0=c";
  }
}
