# investment_ui API client, modelled in Dafny

The web client of the investment/wallet platform sends every backend call through one axios
instance (`src/apiClient.ts`). Two interceptors wrap each call:

- The **request interceptor** reads the session token from `localStorage` and the `csrftoken`
  cookie from `document.cookie`. It writes `Authorization: Bearer <token>` (the form of
  section 2.1 of RFC 6750) and `X-CSRFToken: <value>` when those are truthy.
- The **response interceptor** passes successes through. On an error whose response status is
  401 or 403 (sections 15.5.2 and 15.5.4 of RFC 9110), it removes the token from
  `localStorage`. It rejects every error again, unchanged.

The cookie reader `getCSRFToken` is a simplified reading of the cookie string of section 4.2.1
of RFC 6265. It splits on `;`, trims each segment, splits it on `=`, and returns the second
piece of the first segment whose first piece is exactly `csrftoken`. It returns `null` when no
segment matches.

The model has three modules:

- `JsStrings` (`js_strings.dfy`): the JavaScript semantics the code relies on.
  - `split` with a one-character separator, with `Join` as its proved inverse.
  - `trim`, over ECMAScript's white-space and line-terminator code points.
  - Truthiness of a value that may be `null`, `undefined` or a string.
- `Cookies` (`cookies.dfy`): `getCSRFToken`.
  - `GetCSRFToken` keeps the source's `for` loop with early return.
  - It is proved equal to `LookupCsrf`, a recursion over the segments, and the lemmas state what
    that lookup returns.
  - Destructuring `[name, value]` yields `undefined` when a segment has no `=`. So the result is
    a `JsValue` (`Null`, `Undefined` or `Str`), not an option.
- `ApiClient` (`api_client.dfy`): the two interceptors.
  - Class `Client` holds `localStorage` as a `storage` map. The request interceptor only reads
    it; the response interceptor may remove the `token` key.
  - `document.cookie` is a parameter of each request.
  - Three module-level scenario methods at the end (`SignedInRequest`, `SignedOutRequest`,
    `ForbiddenEndsSession`) check the intended usage scenarios against these contracts.

## Model

| member | source | states |
|---|---|---|
| `JsStrings.Truthy` | src/apiClient.ts:66 | `if (token)` / `if (csrfToken)` (also line 70): only a non-empty string passes; `null`, `undefined` and `""` do not |
| `JsStrings.Trim` | src/apiClient.ts:52 | `.trim()`: `TrimStart` then `TrimEnd`; its properties are stated by `TrimShape` and `TrimKeepsPrefix` |
| `JsStrings.Split` | src/apiClient.ts:50 | `split(';')` and `split('=')` always return at least one piece, so `parts[0]` is always defined |
| `JsStrings.SplitPieces` | src/apiClient.ts:50 | no piece holds the separator, and every character of a piece comes from the input |
| `JsStrings.SplitWithoutSeparator` | src/apiClient.ts:52 | there is exactly one piece, the whole string, iff the separator does not occur |
| `JsStrings.SplitThenJoin` | src/apiClient.ts:50 | splitting loses nothing: joining the pieces with the separator rebuilds the string |
| `JsStrings.JoinThenSplit` | src/apiClient.ts:50 | splitting inverts joining: separator-free pieces come back unchanged |
| `JsStrings.SplitAround` | src/apiClient.ts:50 | splitting `a;b` on `;` gives the pieces of `a` followed by the pieces of `b` |
| `JsStrings.SplitFirstPieces` | src/apiClient.ts:52 | the first piece is a prefix; with two pieces, the string starts with first piece, separator, second piece, followed by its end or another separator |
| `JsStrings.TrimStartShape` | src/apiClient.ts:52 | the leading-blank pass of `trim()` keeps a suffix of the input, drops only white space, and leaves no leading white space |
| `JsStrings.TrimEndShape` | src/apiClient.ts:52 | the trailing-blank pass of `trim()` keeps a prefix of the input, drops only white space, and leaves no trailing white space |
| `JsStrings.TrimShape` | src/apiClient.ts:52 | `trim()` neither starts nor ends with white space, holds only characters of its input, and is empty iff the input is all white space |
| `JsStrings.TrimKeepsPrefix` | src/apiClient.ts:52 | a segment that starts with a non-blank keeps, after `trim()`, everything up to any later non-blank |
| `Cookies.ParseSegment` | src/apiClient.ts:52 | `const [name, value] = cookie.trim().split('=')`: the first piece as the name, the second as the value or `undefined` when there is none; its properties are stated by `ParseSegmentShape` |
| `Cookies.ParseSegmentShape` | src/apiClient.ts:52 | `[name, value]` of a segment: the name is the trimmed text up to the first `=`; the value is the text between the first and second `=` (or the end), and `undefined` iff there is no `=`; neither holds `=` |
| `Cookies.NameEndsAtFirstEquals` | src/apiClient.ts:52 | the name's length is the index of the first `=` of the trimmed segment |
| `Cookies.EntriesAt` | src/apiClient.ts:51-52 | the entry the loop destructures at step `i` is the `i`-th segment, parsed |
| `Cookies.EntriesAppend` | src/apiClient.ts:51-52 | segments are parsed one at a time, independently of their neighbours |
| `Cookies.LookupCsrf` | src/apiClient.ts:51-57 | the loop as a recursion over parsed entries: the value of the first entry named `csrftoken`, `null` when none is; stated by `LookupFirstMatch`, `LookupNullIffNoMatch`, `LookupFromEntry`, `LookupAppend` |
| `Cookies.CsrfToken` | src/apiClient.ts:49-58 | `getCSRFToken()` as a function of `document.cookie`: `LookupCsrf` over the parsed `;`-separated segments; the loop `GetCSRFToken` is proved equal to it |
| `Cookies.GetCSRFToken` | src/apiClient.ts:49-58 | the loop with early return computes exactly the first-match lookup over the `;`-separated segments |
| `Cookies.LookupFirstMatch` | src/apiClient.ts:51-55 | the first segment named `csrftoken` decides the result, whatever follows it |
| `Cookies.LookupNullIffNoMatch` | src/apiClient.ts:53-57 | the lookup is `null` iff no entry's name equals `csrftoken` exactly |
| `Cookies.CsrfTokenNullIffNoMatch` | src/apiClient.ts:49-58 | `getCSRFToken` returns `null` iff no segment of the cookie string parses to the name `csrftoken`; a non-null result comes from a segment with that name |
| `Cookies.LookupFromEntry` | src/apiClient.ts:54 | a non-null result is the value part of one of the entries |
| `Cookies.LookupAppend` | src/apiClient.ts:51-57 | over two runs of entries, the first run decides whenever it has a match; otherwise the second run does |
| `Cookies.CsrfValueHasNoSeparators` | src/apiClient.ts:50-54 | a returned CSRF value never contains `;` or `=` |
| `Cookies.CookieAppend` | src/apiClient.ts:50-57 | cookies appended after `;` cannot override a `csrftoken` already found: later duplicates are ignored |
| `Cookies.PairName` | src/apiClient.ts:52 | in `name=value`, with no `=` in the name and no leading blank, the parsed name is `name` |
| `Cookies.PairValue` | src/apiClient.ts:52 | in `name=value`, with no `=` in the value and no trailing blank either, the parsed value is `value` |
| `Cookies.SingleSegment` | src/apiClient.ts:49-58 | a cookie string without `;` yields its value when its name is `csrftoken`, and `null` otherwise |
| `Cookies.SinglePair` | src/apiClient.ts:49-58 | a cookie string of one `name=value` pair yields a value iff `name` is exactly `csrftoken`; when, besides, `value` holds no `=` and does not end with white space, it yields exactly `value` (otherwise the source trims it or cuts it at its first `=`) |
| `Cookies.EmptyFirstValueShadowsLater` | src/apiClient.ts:53-54 | `csrftoken=;<rest>` yields `""`, which is falsy, whatever `rest` holds: the first matching segment returns even with an empty value |
| `Cookies.BlankBeforeEqualsDoesNotMatch` | src/apiClient.ts:52-57 | `csrftoken =x` yields `null`: the name is `"csrftoken "` |
| `ApiClient.IsAuthFailure` | src/apiClient.ts:86 | the condition of line 86: the error carries a response and its status is 401 or 403 (optional chaining makes a missing response fail both comparisons) |
| `ApiClient.Client.StoredToken` | src/apiClient.ts:63 | `localStorage.getItem('token')`: the stored string, or `null` when the key is absent |
| `ApiClient.SessionHeaders` | src/apiClient.ts:63-73 | a truthy token sets `Authorization` to exactly `Bearer <token>`; a truthy CSRF value sets `X-CSRFToken` to exactly that value; a falsy one leaves its header as it was; no other header changes |
| `ApiClient.SessionHeadersIdempotent` | src/apiClient.ts:70-73 | running the whole header transform a second time with the same token and cookie changes nothing (the repeated CSRF write inside one call, lines 71-72, is covered by `OnRequest`'s contract instead) |
| `ApiClient.Client.OnRequest` | src/apiClient.ts:62-76 | reads token and cookie afresh, rewrites the headers as `SessionHeaders` says (the double CSRF write included), and leaves the rest of the config and all storage unchanged |
| `ApiClient.Client.InterceptRequest` | src/apiClient.ts:61-80 | a config goes through `OnRequest`; an earlier failure is rejected again as the same error |
| `ApiClient.Client.OnResponseError` | src/apiClient.ts:85-91 | on 401 or 403 the token is gone afterwards, whatever it was before; otherwise storage is unchanged; no other key is touched; clearing an absent token is a no-op; the same error is rejected again |
| `ApiClient.Client.InterceptResponse` | src/apiClient.ts:83-92 | the caller gets exactly what the server produced; only a rejected 401/403 changes storage, by removing the token |

## Left out

- The axios instance (`axios.create`, `baseURL`, `withCredentials`), the registration of the
  interceptors, promises and the network. The interceptor bodies are methods; a settled
  promise is the `Settled` datatype.
- `localStorage` and `document.cookie` as browser APIs: storage is a map field, the cookie string
  a parameter. Nothing in the core writes the token, so no setter is modelled.
- Header names are plain map keys. Axios's case-insensitive header normalisation and non-string
  header values are not modelled.
- A thrown value that is not an axios error. `RequestError` always has an optional `response`
  with an integer status, as axios errors do.
- The commented-out first version of the client (src/apiClient.ts:1-38): dead code.
- src/App.tsx (route table) and src/Pages/Transaction/Transaction.tsx (page component). They are
  UI, not part of this model. The route guards they import are not in the source, so guard
  behaviour is not modelled.
- Behaviour stated by the code where a one-line summary of the client would say otherwise:
  - With no truthy token, a pre-existing `Authorization` header is left in place, not removed.
  - An empty stored token or an empty CSRF value sends no header.
  - The first `csrftoken` segment decides even when its value is empty or missing, so
    `csrftoken=; csrftoken=abc` sends no `X-CSRFToken` header (`EmptyFirstValueShadowsLater`,
    `CookieAppend`).
  - The model follows the code on all three.
- JavaScript strings are sequences of UTF-16 code units; the model's `string` is a sequence of
  Unicode scalar values, so a cookie or token holding an unpaired surrogate cannot be expressed.
  The characters the code inspects (`;`, `=` and the white space `trim` removes) all lie in the
  Basic Multilingual Plane, so parsing is unaffected.
