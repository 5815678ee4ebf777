# Access gate and offer countdown of the archetype pages

This project models two browser scripts of the site in Dafny and proves properties of the model.

`js/auth.js` is the access gate of the archetype pages.
- `verifyToken` looks a token up in a five-minute cache keyed by `token + "_" + archetype`. It calls the verification service only on a miss, and it stores only OK answers whose body parses.
- `extractArchetypeFromUrl` takes the archetype from the page path with the pattern `/archetipi/<segment>/`.
- `checkAccess` picks exactly one of three outcomes: the public view, the private view, or a denial carrying a message.
- `redirectToError` sends the visitor to `/accesso-negato.html?error=<message>` when that page answers OK. Otherwise it shows the message inline.

`js/countdown.js` is the countdown to the end of the offer.
- It splits the milliseconds left into days, hours, minutes and seconds.
- It writes them in three formats: 'detailed' (two-digit fields), 'simple' (`<d>g <h>h <m>m`) and 'days-only'.
- `getDaysRemaining` gives the days left.
- When the page loads, a countdown is chosen from the elements the page holds.

Modules:
- `Wrappers` (`wrappers.dfy`): `Option`, standing for JavaScript's `null`/`undefined`.
- `Decimal` (`decimal.dfy`): `Number.prototype.toString` on non-negative integers below 10^21 and `padStart`. `ParseNat` reads a numeral back.
- `UriComponent` (`uri_component.dfy`): ECMAScript's `encodeURIComponent` on Unicode scalar values, as UTF-8 bytes with upper-case percent escapes. `Decode` is its inverse.
- `Countdown` (`countdown.dfy`): one tick of `initCountdown` and of `initDetailedCountdown`, plus `getDaysRemaining` and the auto-selection.
  - The page is the set of its element ids.
  - A tick is the list of text writes it makes, and whether it stopped on a `TypeError`.
- `Auth` (`auth.dfy`):
  - The cache is the class `Verifier` with a `map` field. Its method `VerifyToken` is proved against the function `Verify`.
  - `checkAccess` is a method over a `Verifier`.
  - The path parser and the redirect choice are functions.

The model takes its inputs as parameters:
- the service's reply and the `HEAD` probe's outcome;
- the decoded `token` query parameter and the page path;
- the clock readings. `verifyToken` reads `Date.now()` at most twice: `now` at the freshness check (js/auth.js:20), which is skipped when there is no entry, and `later` when storing (js/auth.js:49), which a hit never reaches.

Behaviour of the gate worth noting:
- Failed verifications are not cached.
- The category in the service's answer is not compared with the page's archetype.
- The cache key is `token + "_" + archetype`, and it is not injective (`Auth.CacheKeyCollision`).
- Only `/archetipi/<name>/` with a trailing slash is recognised.
- When a token is present but the page path has no archetype, the visitor is denied with 'URL non valido'.

## Model

| member | source | states |
|---|---|---|
| Decimal.NatToString | js/countdown.js:41-44 | `n.toString()` is a non-empty run of digits. It starts with '0' only for 0, and it is one character long exactly when n < 10 |
| Decimal.ParseNatToString | js/countdown.js:44 | The decimal text of n reads back as n |
| Decimal.NatToStringInjective | js/countdown.js:44 | Two numbers have the same decimal text if and only if they are equal |
| Decimal.PadStart | js/countdown.js:35-38 | `padStart(width, fill)` has length max(\|s\|, width), ends with s, and everything before s is the fill character |
| Decimal.TwoDigits | js/countdown.js:35-38 | Two-digit padding puts one '0' before the digit of values below ten and leaves the decimal text of values of ten or more, including three-digit days, unchanged. The result is all digits and at least two long |
| Decimal.TwoDigitsReadsBack | js/countdown.js:78-81 | The padded text reads back as the value |
| UriComponent.Encode | js/auth.js:295 | `encodeURIComponent` output holds only '%' and unreserved characters, and a text of unreserved characters is left as it is |
| UriComponent.DecodeEncode | js/auth.js:295 | Decoding the encoded text gives back the original text, character for character |
| UriComponent.EncodeInjective | js/auth.js:295 | Different messages give different encoded texts |
| UriComponent.Utf8RoundTrip | js/auth.js:295 | The UTF-8 bytes of every character decode back to that character |
| Countdown.Decompose | js/countdown.js:28-31 | For a non-negative distance: hours < 24, minutes < 60, seconds < 60, and days·86400000 + hours·3600000 + minutes·60000 + seconds·1000 ≤ distance < that + 1000 |
| Countdown.DecomposeUnique | js/countdown.js:68-71 | Any in-range split that is exact to the second is the one computed, so both countdowns show identical fields for the same distance |
| Countdown.SimpleTextRoundTrip | js/countdown.js:41 | The 'simple' text `days + "g " + hours + "h " + minutes + "m"` reads back as (days, hours, minutes) |
| Countdown.SimpleTickReadsBack | js/countdown.js:39-41 | Before the end, the 'simple' format writes one text to its element, and that text reads back as the days, hours and minutes left |
| Countdown.DaysOnlyTickShowsDaysRemaining | js/countdown.js:42-44 | Before the end, the 'days-only' format writes the decimal days, which is what `getDaysRemaining` returns |
| Countdown.UnknownFormatWritesNothing | js/countdown.js:33-45 | A format other than the three known ones writes nothing before the end and never faults |
| Countdown.WriteStrict | js/countdown.js:35-38 | The unguarded writes fault exactly when some field element is missing. The writes made form a prefix of the fields, every one goes to an existing element, and on a fault the next field's element is the missing one. All fields are written when nothing faults |
| Countdown.SlotsFaultExactly | js/countdown.js:35-38 | The four detailed writes fault exactly when one of `days`, `hours`, `minutes`, `seconds` is missing |
| Countdown.CountdownTick | js/countdown.js:15-46 | Without its element the tick does nothing. It faults exactly when its element exists, the offer has not ended, the format is 'detailed' and a field element is missing. Every write goes to an element the page has |
| Countdown.DetailedCountdownTick | js/countdown.js:56-82 | The tick never faults and writes only to elements the page has. Before the end it writes exactly those of the four padded fields of the time left whose element exists |
| Countdown.DetailedTickFaultsWithoutDays | js/countdown.js:20-35 | Before the end, `initCountdown(id, 'detailed')` on a page that has the element `id` but no `days` element throws before writing anything |
| Countdown.WriteIfPresent | js/countdown.js:73-81 | The guarded writes are exactly the field writes whose element exists |
| Countdown.ExpiredWritesNoField | js/countdown.js:22-66 | Once distance < 0, `initCountdown` never faults and, when its element exists, writes exactly 'Offerta scaduta!' to it and nothing else. `initDetailedCountdown` writes only the expiry notice, and when `countdown` exists it writes exactly that notice to it |
| Countdown.DetailedExpiredWithoutContainer | js/countdown.js:60-66 | After the end, a detailed page without a `countdown` element gets no write |
| Countdown.EndInstantShowsZeros | js/countdown.js:22-41 | At distance 0 the countdown is not expired: the 'simple' format shows "0g 0h 0m" |
| Countdown.DetailedFormatsAgree | js/countdown.js:68-81 | Before the end, when the element `id` and all four field elements exist, `initCountdown(id, 'detailed')` and `initDetailedCountdown()` make the same writes |
| Countdown.DaysRemaining | js/countdown.js:91-98 | `getDaysRemaining()` is 0 after the end, and otherwise the whole days d with d·86400000 ≤ distance < (d+1)·86400000 |
| Countdown.DaysRemainingIsDaysField | js/countdown.js:97 | The days left equal the days field the countdown shows |
| Countdown.DaysRemainingNonIncreasing | js/countdown.js:91-98 | As the clock advances, the days left never increase |
| Countdown.AutoSelect | js/countdown.js:104-120 | The detailed countdown is chosen exactly when both `days` and `hours` exist; otherwise the 'simple' countdown on `countdown-timer` when that exists; otherwise 'days-only' on `countdown-days` when that exists; otherwise nothing |
| Countdown.AutoSelectShowsCountdown | js/countdown.js:114-120 | A chosen countdown's first tick before the end writes something and does not fault |
| Auth.Verify | js/auth.js:14-61 | The service is called exactly when there is no entry for the key, or the entry is 300000 ms old or older. A hit returns the stored data and leaves the cache alone. An OK parsed answer is returned and stored as key ↦ (data, later). Every other reply gives the fixed connection-error result and leaves the cache alone. No other key changes |
| Auth.Verifier.constructor | js/auth.js:10 | The cache starts empty |
| Auth.Verifier.VerifyToken | js/auth.js:14-61 | The returned result, service call and new cache are those `Verify` gives for the old cache. The cache changes only after an OK parsed answer |
| Auth.CacheKey | js/auth.js:17 | The key is the token, then '_', then the archetype, each at its own position |
| Auth.RepeatWithinTtlIsCached | js/auth.js:17-23 | After an answered lookup, a lookup of the same key less than 300000 ms after the store returns the same result without a call and without changing the cache |
| Auth.StaleEntryRefetched | js/auth.js:20 | An entry 300000 ms old or older is not reused |
| Auth.FailureRetriedNextTime | js/auth.js:17-60 | A lookup that calls the service and fails, whether the key had no entry or a stale one, returns the connection error and leaves the cache unchanged. The next lookup of that key, at the same clock or later, calls the service again. A key with no entry always calls |
| Auth.CacheKeyCollision | js/auth.js:17 | Token `a_b` with archetype `c` and token `a` with archetype `b_c` share one key, and a verdict stored for one is returned for the other |
| Auth.CacheKeyInjectiveWithoutUnderscore | js/auth.js:17 | For tokens without '_', equal keys mean equal token and archetype |
| Auth.CaptureIsRun | js/auth.js:130 | At a given match position the greedy `[^/]+` capture is the whole run of non-slash characters |
| Auth.MatchFrom | js/auth.js:130 | The search from position i returns the leftmost match at or after i with its capture, or reports that there is none |
| Auth.ExtractArchetype | js/auth.js:128-132 | A returned archetype is a non-empty slash-free segment captured at the leftmost match. It is null exactly when the pattern matches nowhere |
| Auth.ArchetypeOccursInPath | js/auth.js:128-132 | When an archetype r is returned, "/archetipi/" + r + "/" occurs in the path |
| Auth.TrailingSlashRequired | js/auth.js:130 | `/archetipi/<name>` yields null, while `/archetipi/<name>/` yields the name |
| Auth.RedirectToError | js/auth.js:285-305 | The visitor is sent away exactly when the probe answers OK, to a URL beginning `/accesso-negato.html?error=`. Otherwise the message, or 'Accesso negato' when there is none, is shown inline |
| Auth.RedirectCarriesMessage | js/auth.js:285-305 | With an OK probe the visitor is sent to `/accesso-negato.html?error=` plus text that holds only escapes and unreserved characters and decodes to the message. Otherwise the same message is shown inline. A missing message defaults to 'Accesso negato' |
| Auth.ParameterRoundTrip | js/auth.js:295 | An encoded message after a fixed head reads back intact |
| Auth.Conclude | js/auth.js:112-124 | Private view exactly when `valid` holds and `userInfo` is present, with that `userInfo`. An invalid verdict is denied with its error, or with 'Token non valido' when the error is missing or empty. A valid verdict without `userInfo` ends in 'Errore interno'. A denial message is never empty |
| Auth.CheckAccess | js/auth.js:85-125 | No or empty token gives the public view, with no loading state, no call and the cache unchanged. A token without archetype is denied with 'URL non valido', with no call. Otherwise the loading state is shown and the outcome is `Conclude` of the cached-or-fetched verification. The public view comes exactly when there is no token |

## Left out

- DOM rendering in js/auth.js (`showPublicContent`, `showPrivateContent`, `showLoadingState`, `addAccessNotice`, `hidePrivateContent`, `showFullContent`, `showQuizCTA`, `addUserInfo`, `showInlineError`) is reduced to the outcome it stands for, because it is page I/O.
- A denial is the message `checkAccess` hands to `redirectToError`. `RedirectToError` models what happens to that message once the probe settles.
- `fetch`, the `HEAD` probe, `getTokenStats`, `initAuth`, the `window.AuthSystem` export and console logging are left out: they are network and start-up code. The service reply and the probe outcome are inputs.
- The asynchronous interleaving of concurrent lookups, and the missing deduplication of simultaneous calls, are left out. Each lookup is modelled as one atomic step.
- `URLSearchParams` decoding of the `token` parameter is left out. The decoded parameter is an input.
- Auth.Conclude: `valid` is modelled as a boolean, and `error` as an optional string where only the empty string is falsy. JavaScript truthiness of other values (`0`, `"false"`, objects) is not modelled.
- A JSON body of `null` is cached like any other answer (js/auth.js:47-50). Then `verification.valid` throws at js/auth.js:112, so every lookup of that key within 300000 ms ends in 'Errore interno'. This is not modelled: a parsed body is always a `{valid, error?, userInfo?}` record, and a body that fails to parse is `None`.
- A number, string, boolean or array body has no `valid` field and does not throw. It is cached, and `checkAccess` denies it with 'Token non valido' (js/auth.js:115-118). In the model it is the record `Verification(false, None, None)`, which is stored and concluded the same way.
- UriComponent.Encode: lone surrogates are outside the model, because Dafny's `char` is a Unicode scalar value. In the program a server's `error` text can hold one. `encodeURIComponent` then throws `URIError` inside the probe's `.then` (js/auth.js:295), the `.catch` at js/auth.js:301-304 takes it, and the message is shown inline instead of redirecting, even with an OK probe. `Auth.RedirectToError` does not capture this.
- UriComponent.Decode accepts over-long UTF-8 forms that `decodeURIComponent` rejects. It is used only as the inverse of `Encode`, whose output never contains them.
- The `setInterval` repetition of the countdown tick and the `style.color` write are left out. The model is one tick.
- The calendar construction of `OFFER_END_DATE` in the visitor's local time zone is left out. The end is the constant 18 August 2025 23:59:59 UTC+2.
- js/main.js (sharing, clipboard, notifications, animations) and src/pages/Index.tsx (static markup) are not part of this model.
