# Credential resolution for the X (Twitter) client, in Dafny

This project models `src/lib/cookies.ts`, the part of the client that works
out which `auth_token` and `ct0` cookies to use:

- `normalizeValue` turns a raw value into a trimmed, non-blank string or
  nothing;
- `cookieHeader` serialises both tokens as `auth_token=<a>; ct0=<c>`;
- `buildEmpty` and `readEnvCookie` create and fill a `TwitterCookies`
  record from an ordered list of environment variables, recording the
  variable as provenance only if none is recorded yet;
- `resolveSources` and `labelForSource` enumerate and label the three browser
  cookie stores (Safari, Chrome, Firefox);
- `pickCookieValue` chooses among duplicate cookie records by domain:
  first `x.com`, then `twitter.com`, then the first record;
- `resolveCredentials` applies the explicit arguments, then the environment,
  and builds the header when both tokens are non-empty.

Files:

- `wrappers.dfy`: `Option`, standing for `string | null` and optional
  parameters.
- `text.dfy`: JavaScript's `String.prototype.trim`, over the exact
  ECMAScript whitespace set, and `endsWith`.
- `cookies.dfy`: module `Cookies`, the whole of `cookies.ts`. `TwitterCookies`
  is a class whose four fields the methods update in place. Its value,
  `Credentials`, is what the specification functions `EnvFilled` and
  `Resolved` compute. `ReadEnvCookie` and `ResolveCredentials` are proved
  against those functions, and the lemmas state the properties of the
  functions.

The process environment is a parameter `env: map<string, string>`. A
variable that is not set reads as `undefined`, the `NonStr` raw value.
JavaScript truthiness of a `string | null` is `Truthy`: present and not
empty.

Where the code does less than its own doc comment and declarations suggest,
this model follows the code. The comment on `resolveCredentials`
(src/lib/cookies.ts:97-99) announces three priority levels (CLI arguments,
then environment variables, then browsers), and the `source` field
(src/lib/cookies.ts:7) reads as the provenance of the credentials:

- `resolveCredentials` sets `source` to `"CLI argument"` unconditionally
  (src/lib/cookies.ts:109), before it looks at any value. So the guard at
  :112 never fires, and the `env <KEY>` label at :49 is never written on
  this path. `ResolvedSourceIsCli` proves this, and `ResolvedEnvExample`
  shows a token taken from `AUTH_TOKEN` while the source still reads
  `"CLI argument"`.
- Explicit arguments are stored raw (:108, :111). They are neither trimmed
  nor normalised, and an empty explicit value stays `""`, never `null`. So
  in the result both tokens are always non-null, and the header is present
  exactly when both are non-empty (`ResolvedHeader`). It is not the case
  that the header is present exactly when both are non-null.
- `pickCookieValue` passes over the first `x.com` match when its value is
  empty, even if a later `x.com` match has a value (:84-87). The same holds
  for `twitter.com` (:89-92). The last fallback returns the first match's
  value even when it is empty (:94).
- There is no browser stage: nothing after the environment stage reads a
  cookie store, and `warnings` is always empty.

## Model

| member | source | states |
|---|---|---|
| `Text.Trim` | src/lib/cookies.ts:26 | the trimmed string is the slice of the input between its leading and trailing whitespace; everything cut off is whitespace; a non-empty result starts and ends with non-whitespace; it is empty exactly when the input is blank |
| `Text.TrimFixed` | src/lib/cookies.ts:26 | a string without whitespace at either end trims to itself |
| `Cookies.NormalizeValue` | src/lib/cookies.ts:22-28 | null exactly for a non-string or a blank string; otherwise the trimmed string, which is non-empty and has no whitespace at either end |
| `Cookies.NormalizeIdempotent` | src/lib/cookies.ts:22-28 | normalising a normalised value gives it back unchanged |
| `Cookies.CookieHeader` | src/lib/cookies.ts:30-32 | the header is `auth_token=`, the auth token, `; ct0=`, then ct0, at fixed positions and with nothing else |
| `Cookies.CookieHeaderInjective` | src/lib/cookies.ts:30-32 | when the auth tokens hold no `;`, equal headers mean equal tokens (the header can be split back) |
| `Cookies.TwitterCookies.constructor` | src/lib/cookies.ts:34-36 | a new record has all four fields null |
| `Cookies.FirstEnvHit` | src/lib/cookies.ts:42-46 | the index of the first key whose environment value normalises to a string; every earlier key fails; none means every key fails |
| `Cookies.ReadEnvCookie` | src/lib/cookies.ts:38-53 | the loop leaves the record equal to `EnvFilled` of the record it started with |
| `Cookies.EnvFilledFields` | src/lib/cookies.ts:38-53 | the selected field keeps a non-empty value, else takes the first environment value if there is one; the other token and the header never change; a recorded source is never replaced |
| `Cookies.EnvFilledKeepsSetField` | src/lib/cookies.ts:39-41 | when the selected field is non-empty, no field of the record changes |
| `Cookies.FirstEnvHitAt` | src/lib/cookies.ts:42-46 | the first key whose value normalises is the one the search finds |
| `Cookies.EnvFilledTakesFirstHit` | src/lib/cookies.ts:42-52 | an empty field becomes the normalised value of the first usable key; the source becomes `env <KEY>` only if it was empty; the other token and the header are untouched |
| `Cookies.EnvFilledIgnoresLaterKeys` | src/lib/cookies.ts:42-51 | keys after the first usable one are not consulted: changing their values changes nothing |
| `Cookies.EnvFilledNoHit` | src/lib/cookies.ts:42-52 | when no key yields a value, the record is unchanged |
| `Cookies.ResolveSources` | src/lib/cookies.ts:55-63 | a supplied list is returned as is; a single source becomes a one-element list; no choice gives all three sources, the single-profile browser first |
| `Cookies.ResolveSourcesDefaultOrder` | src/lib/cookies.ts:62 | the default order is exactly Safari, Chrome, Firefox |
| `Cookies.LabelForSource` | src/lib/cookies.ts:65-73 | Safari is labelled `Safari` whatever the profile; Chrome and Firefox name a non-empty profile in quotes, and an absent or empty profile yields `default profile` |
| `Cookies.LabelForSourceInjective` | src/lib/cookies.ts:65-73 | equal labels mean the same browser and, for Chrome and Firefox, the same shown profile |
| `Cookies.Matches` | src/lib/cookies.ts:79 | the filter keeps exactly the records with the target name and a string value |
| `Cookies.MatchesAppend` | src/lib/cookies.ts:79 | filtering a concatenation is the concatenation of the filtered parts, so the kept records stay in their order and keep their multiplicity |
| `Cookies.MatchesSingle` | src/lib/cookies.ts:79 | a one-record list keeps its record exactly when it has the target name and a string value |
| `Cookies.FindInDomain` | src/lib/cookies.ts:84 | `find` returns the first record of the list in the requested domain (every earlier record is outside it), and nothing exactly when no record is in that domain |
| `Cookies.PickCookieValue` | src/lib/cookies.ts:75-95 | null exactly when no record has the target name and a string value; otherwise the value of one of those records |
| `Cookies.FirstMatchIn` | src/lib/cookies.ts:84-94 | reference search on the unfiltered list: the first record with the target name, a string value and a domain ending with the suffix |
| `Cookies.FindAfterFilter` | src/lib/cookies.ts:79-89 | filtering and then finding picks the same record as the reference search on the whole list |
| `Cookies.PickCookieValuePreference` | src/lib/cookies.ts:84-94 | the first `x.com` match wins if its value is non-empty, wherever `twitter.com` records sit; otherwise the first `twitter.com` match if its value is non-empty; otherwise the first match |
| `Cookies.PickCookieValueCanonicalExample` | src/lib/cookies.ts:84-87 | an `x.com` record beats an `old.twitter.com` record in either order |
| `Cookies.PickCookieValueSuffixExample` | src/lib/cookies.ts:84-87 | the domain test is a plain suffix test: `fox.com` counts as `x.com` |
| `Cookies.ResolveCredentials` | src/lib/cookies.ts:101-125 | the method returns a fresh record equal to `Resolved` of its inputs, and an empty warnings list |
| `Cookies.ResolvedStages` | src/lib/cookies.ts:106-117 | after the explicit and environment stages the source is `CLI argument`, there is no header, and each token is the explicit value unless that was empty and the environment supplies one |
| `Cookies.WithHeaderFields` | src/lib/cookies.ts:119-124 | the completion check changes only the header, which it sets exactly when both tokens are non-empty |
| `Cookies.ResolvedSourceIsCli` | src/lib/cookies.ts:109-114 | the resolved source is always `CLI argument` |
| `Cookies.ResolvedTokens` | src/lib/cookies.ts:108-117 | a non-empty explicit token appears unchanged; an empty one is replaced by the first environment value, or stays `""` when there is none |
| `Cookies.ResolvedHeader` | src/lib/cookies.ts:119-121 | the header is present exactly when both final tokens are non-empty, and is then `auth_token=<a>; ct0=<c>` |
| `Cookies.ResolvedEnvExample` | src/lib/cookies.ts:108-121 | with no explicit auth token and both `AUTH_TOKEN=a` and `TWITTER_AUTH_TOKEN=b` set, the token is `a` and the source is `CLI argument` |

## Left out

- Reading `process.env`: the environment is an injected map, because real environment access is I/O.
- `async`/`Promise`: `resolveCredentials` contains no `await`, so it is a plain method.
- The constants `TWITTER_URL`, `TWITTER_ORIGINS` and `DEFAULT_COOKIE_TIMEOUT_MS`: nothing in the file uses them. `TWITTER_COOKIE_NAMES` appears only as the two-valued type `CookieName`.
- Reading and decrypting browser cookie stores: the file does none of it, and it would be foreign I/O.
- Null or non-object entries in the list given to `pickCookieValue` (`c?.name`): records are values of `CookieRecord`, so a null record cannot occur.
- Run-time `typeof` check on a record's `value` (:79): a value that is not a string is modelled as absent (`None`).
- A `domain` that is neither a string nor missing: `(c.domain ?? '').endsWith(...)` (:84, :89) would throw a `TypeError`; the declared type `domain?: string` (:76) excludes it, so the model has no such domain and no exception.
- Whitespace for `trim` is the ECMAScript set with the Unicode space separators listed as of current Unicode; later Unicode versions that add space separators are not tracked.
- Cookies.CookieHeaderInjective: stated only for auth tokens without `;`, because the header does not escape its values: the tokens `x; ct0=y` and `z` give the same header as `x` and `y; ct0=z`. The source makes no promise either way.
