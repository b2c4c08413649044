# Client session core of RBAC-CLIENT, in Dafny

This project models how the RBAC client keeps a user signed in:

- `lib/auth.ts` keeps the signed-in user's record and bearer token in `localStorage` under `rbac_user` and `rbac_token`. Each write dispatches an `auth-change` event on `window`.
- `hooks/useDecodeToken.ts` reads the claims of the JSON Web Token without checking its signature, and compares `exp` with the current second.
- `hooks/useAuth.ts` is the React hook. Its `checkAuth` turns the stored token and record into `user`, `isAuthenticated` and `isLoading`. It clears the store when the token is unreadable or expired. It re-runs whenever an `auth-change` event arrives.
- `infrastructures/api/endpoints.ts` holds the user API's paths.

The modules, from the bottom up:

| module | file | what it is |
|---|---|---|
| `Wrappers` | wrappers.dfy | `Option`, standing for `null` / `undefined` |
| `Bytes` | bytes.dfy | the byte type |
| `Decimal` | decimal.dfy | decimal and hexadecimal digits, `String(n)` |
| `Json` | json.dfy | JavaScript values, object property lookup, spread, `??`, truthiness |
| `JsonText` | json_text.dfy | `JSON.stringify` and `JSON.parse` |
| `Base64` | base64.dfy | `atob` (forgiving base64 decoding) and an unpadded encoder |
| `Utf8` | utf8.dfy | UTF-8 decoding and encoding |
| `Uri` | uri.dfy | the per-byte `%xx` escaping in `decodeToken`, and `decodeURIComponent` |
| `Token` | token.dfy | `decodeToken` and `useDecodeToken` |
| `SessionStore` | session_store.dfy | `saveUser`, `getUser`, `getToken`, `clearUser`; the class `Store` holds the storage map and the event log |
| `AuthHook` | auth_hook.dfy | `checkAuth`, `login`, `logout`, the listener; the class `AuthHook` holds the hook's state |
| `Endpoints` | endpoints.dfy | the user API's paths |

The browser environment is explicit:

- `typeof window === "undefined"` is the `hasWindow` flag of a `Store`.
- `localStorage` is a `map<string, string>`.
- The events dispatched on `window` are appended to a `seq<string>` log.
- The current time in seconds is a parameter `now`.

`dispatchEvent` runs its listeners synchronously. So when the hook's listener is registered (`subscribed`), `AuthHook.DeliverEvent` runs `CheckAuth` from inside the `saveUser` or `clearUser` that dispatched the event. The `isCheckingRef` flag (`checking`) stops a check from re-entering itself. `CheckAuth`, `Reject` and `DeliverEvent` are mutually recursive, and they terminate because of that flag.

`CheckAuth` is proved against the function `AuthHook.Evaluate`. That function gives the exit the check takes: no session, an undecodable token, an expired token, or a valid user. The lemmas beside it relate the check to the store, to `useDecodeToken` and to itself.

Behaviour the model follows as the code is written:

- `login` sets the state to authenticated after `saveUser` returns. The listener's check runs inside `saveUser`. If the new token is unreadable or already expired, that check clears the store, and `login` still reports the user as signed in: `AuthHook.LoginWithExpiredToken` states this. With a live token, the check and `login` agree (`AuthHook.LoginWithLiveToken`). One difference remains in that case: `login` stores the record as given, while the check stores it with `token` and a backfilled `_id`.
- `logout` does not set `isLoading` itself. When the listener is registered, the check that `clearUser`'s event triggers sets it to `false`. `AuthHook.AuthHook.Logout` states both cases.
- `decodeToken` returns whatever `JSON.parse` produces, whatever its type. `checkAuth` only rejects a falsy result (`null`, `false`, `0`, `""`). A payload such as `"x"` or `[]` therefore passes the decode step, has no `exp` and is never expired.

## Model

| member | source | states |
|---|---|---|
| SessionStore.ToObject | lib/auth.ts:9-14 | a `SafeUserData` value is a well-formed object (unique keys) |
| SessionStore.RoleOfName | lib/auth.ts:7 | every role name maps back to its role |
| SessionStore.Normalize | lib/auth.ts:26-31 | the saved record has exactly the keys `_id` (only when the given `_id` is truthy), `name`, `email`, `role`, in that order |
| SessionStore.NormalizeFields | lib/auth.ts:26-31 | `_id` is kept only when truthy; `name` and `email` default to `""` and `role` to `"viewer"` when missing or `null`, and are kept otherwise; no other property is present |
| SessionStore.NormalizeOnlySafeKeys | lib/auth.ts:26-31 | any property of the saved record is one of the four `SafeUserData` keys |
| SessionStore.NormalizeIdempotent | lib/auth.ts:26-31 | projecting a projected record changes nothing |
| SessionStore.NormalizeSafeUser | lib/auth.ts:26-31 | a well-typed `SafeUserData` is saved unchanged, except that an empty `_id` is dropped |
| SessionStore.NormalizeRecord | lib/auth.ts:26-31 | projecting a record keeps its non-null fields and drops a falsy `_id` |
| SessionStore.NormalizeWellFormed | lib/auth.ts:26-33 | projecting a well-formed object gives a well-formed object, which `JSON.stringify` can write |
| SessionStore.Saved | lib/auth.ts:21-33 | after `saveUser` the record key holds the stringified projection, the token key holds the token when one is given, and every other key is unchanged |
| SessionStore.Cleared | lib/auth.ts:64-65 | `clearUser` removes both keys and no other |
| SessionStore.ReadToken | lib/auth.ts:54-57 | `getToken` returns the stored token exactly when there is a window and the key is set |
| SessionStore.TokenProperty | lib/auth.ts:46-47 | the record's `token` is the stored token when it is non-empty, else `undefined` |
| SessionStore.ReadUser | lib/auth.ts:40-52 | a record returned by `getUser` carries `token` as `TokenProperty` gives it |
| SessionStore.ReadUserNone | lib/auth.ts:41-51 | `getUser` returns `null` exactly when there is no window, no or an empty record, or text `JSON.parse` rejects |
| SessionStore.SaveThenReadToken | lib/auth.ts:21-23 | after `saveUser(u, t)`, `getToken()` returns `t` |
| SessionStore.SaveKeepsToken | lib/auth.ts:21-23 | `saveUser` without a token keeps the stored token |
| SessionStore.SaveThenReadUser | lib/auth.ts:17-52 | after `saveUser(u, t)`, `getUser()` returns the projection of `u` followed by `token`: `t` when non-empty, absent for `""`, or the old stored token when `t` is not given |
| SessionStore.SavedTokenProperty | lib/auth.ts:46-47 | the `token` property read back after a save, for each form of the token argument |
| SessionStore.AssignAbsent | lib/auth.ts:47 | spreading a record and adding a property it does not have appends that property, or adds nothing for `undefined` |
| SessionStore.ClearThenRead | lib/auth.ts:62-68 | after `clearUser()`, `getUser()` and `getToken()` both return `null` |
| SessionStore.NoWindowReads | lib/auth.ts:40-57 | without a window both readers return `null` |
| SessionStore.Store.constructor | lib/auth.ts:17-68 | the environment every operation consults: whether `window` exists (the tests at lines 18, 41, 55 and 63), the current `localStorage`, and an empty log of dispatched events |
| SessionStore.Store.SaveUser | lib/auth.ts:17-35 | with a window the storage becomes `Saved` and one `auth-change` is dispatched; without one nothing changes |
| SessionStore.Store.GetUser | lib/auth.ts:40-52 | returns `ReadUser` of the current storage and changes nothing |
| SessionStore.Store.GetToken | lib/auth.ts:54-57 | returns `ReadToken` of the current storage |
| SessionStore.Store.ClearUser | lib/auth.ts:62-68 | with a window the storage becomes `Cleared` and one `auth-change` is dispatched; without one nothing changes |
| Token.Split | hooks/useDecodeToken.ts:39 | `split` gives at least one piece and no piece contains the separator |
| Token.SplitJoin | hooks/useDecodeToken.ts:39 | splitting pieces joined by the separator gives the pieces back |
| Token.JoinSplit | hooks/useDecodeToken.ts:39 | joining the pieces of a split gives the text back |
| Token.ToStandardAlphabet | hooks/useDecodeToken.ts:42 | each `-` becomes `+`, each `_` becomes `/`, and every other character is kept |
| Token.ToUrlAlphabet | hooks/useDecodeToken.ts:42 | the inverse translation, `+` to `-` and `/` to `_` |
| Token.StandardOfUrl | hooks/useDecodeToken.ts:42 | translating a base64url text back gives the standard text |
| Token.UrlHasNoDot | hooks/useDecodeToken.ts:39-42 | a base64url segment contains no `.`, so it stays one segment |
| Token.PayloadSegment | hooks/useDecodeToken.ts:39-40 | the segment read is non-empty and contains no `.` |
| Token.DecodeToken | hooks/useDecodeToken.ts:37-55 | a decoded token is a well-formed value other than `null` |
| Token.DecodePayload | hooks/useDecodeToken.ts:42-51 | the same for the payload pipeline alone |
| Token.NullToNone | hooks/useDecodeToken.ts:51 | a parsed `null` counts as failure; any other result is kept |
| Token.DecodeTokenNoDot | hooks/useDecodeToken.ts:39-40 | a token without a `.` decodes to `null` |
| Token.DecodeTokenReadsPayload | hooks/useDecodeToken.ts:39-40 | only the second segment matters: the header and any number of further segments are ignored, and an empty second segment gives `null` |
| Token.DecodeTokenRoundTrip | hooks/useDecodeToken.ts:37-55 | a token whose second segment is the unpadded base64url of the UTF-8 of a text decodes to what `JSON.parse` makes of that text |
| Token.DecodeTokenOfClaims | hooks/useDecodeToken.ts:37-55 | `header.payload.signature`, with the payload encoding any claims value other than `null`, decodes to exactly those claims |
| Token.ParseEmpty | hooks/useDecodeToken.ts:51 | `JSON.parse("")` throws |
| Token.ToNumber | hooks/useDecodeToken.ts:30 | `exp` compares as its number when it is a number; `undefined` and objects compare as `NaN` |
| Token.Expired | hooks/useDecodeToken.ts:30 | expiry needs an `exp` claim; a numeric `exp` is expired exactly when it is less than `now` |
| Token.ExpiryBoundaryAccepted | hooks/useDecodeToken.ts:30 | a token whose `exp` equals `now` is not expired |
| Token.UseDecodeToken | hooks/useDecodeToken.ts:16-35 | no decoded token implies expired; a token is decoded exactly when it is present, non-empty and decodes to a truthy value; a decoded token is `decodeToken`'s result and is expired exactly when `Expired` holds |
| Base64.StripWs | hooks/useDecodeToken.ts:45 | `atob` drops ASCII whitespace and keeps text that has none |
| Base64.StripPadding | hooks/useDecodeToken.ts:45 | at most two trailing `=` are removed, only from a length that is a multiple of 4 |
| Base64.Decode | hooks/useDecodeToken.ts:45 | `atob` succeeds exactly on text that, once whitespace and padding are removed, is all base64 alphabet with a length mod 4 other than 1, and then gives three bytes per four characters |
| Base64.Encode | hooks/useDecodeToken.ts:45 | unpadded base64 of `n` bytes has `ceil(4n/3)` characters of the alphabet |
| Base64.DecodeEncode | hooks/useDecodeToken.ts:45 | `atob` of unpadded base64 gives the bytes back |
| Base64.DecodePadded | hooks/useDecodeToken.ts:45 | `atob` of padded base64 gives the bytes back |
| Base64.Padded | hooks/useDecodeToken.ts:45 | padding makes the length a multiple of 4 by appending only `=` |
| Base64.StripPadded | hooks/useDecodeToken.ts:45 | removing the padding from padded base64 gives the unpadded text |
| Uri.PercentEscape | hooks/useDecodeToken.ts:46-48 | each byte becomes three characters |
| Uri.EscapeByte | hooks/useDecodeToken.ts:47 | `"%" + ("00" + hex).slice(-2)`: `%` then two lower-case hex digits whose value is the byte |
| Uri.EscapedBytes | hooks/useDecodeToken.ts:44 | reading `n` escapes consumes `3n` characters and gives `n` bytes |
| Uri.LeadCount | hooks/useDecodeToken.ts:44 | `decodeURIComponent` counts the lead byte's leading one bits: a sequence of at most four bytes, one byte for a clear top bit, an error for one bit or more than four |
| Uri.LeadCountIsLeadLength | hooks/useDecodeToken.ts:44 | that bit count agrees with the UTF-8 lead-byte ranges, so `decodeURIComponent` expects as many bytes as the lead byte announces |
| Uri.DecodeUriComponent | hooks/useDecodeToken.ts:44 | text without `%` is returned unchanged, and a result is never longer than its input |
| Uri.DecodePercentEscape | hooks/useDecodeToken.ts:44-49 | `decodeURIComponent` of the per-byte escapes is the UTF-8 decoding of the bytes |
| Uri.PercentEscapeAt | hooks/useDecodeToken.ts:46-48 | the `i`-th escape is the escape of the `i`-th byte |
| Uri.EscapedPrefix | hooks/useDecodeToken.ts:44-48 | reading `n` escapes back gives the first `n` bytes |
| Uri.EscapeSuffix | hooks/useDecodeToken.ts:46-48 | the escapes after the `n`-th are the escapes of the remaining bytes |
| Utf8.DecodeCodePoint | hooks/useDecodeToken.ts:44 | a character is accepted only from its own encoding, so overlong forms, surrogates and values past U+10FFFF are rejected |
| Utf8.Decode | hooks/useDecodeToken.ts:44 | what is accepted is exactly an encoding: the characters found encode back to the given bytes (the converse of `DecodeEncode`) |
| Utf8.EncodeChar | hooks/useDecodeToken.ts:44 | a character encodes to one to four bytes, as its lead byte announces |
| Utf8.DecodeEncode | hooks/useDecodeToken.ts:44 | decoding the UTF-8 of a string gives it back |
| Utf8.DecodeEncodeChar | hooks/useDecodeToken.ts:44 | the same for a single character |
| JsonText.Stringify | lib/auth.ts:33 | `JSON.stringify` never gives `""`, and strings, arrays and objects keep their delimiters at both ends |
| JsonText.Parse | hooks/useDecodeToken.ts:51 | `JSON.parse` yields only well-formed values (no duplicate keys) |
| JsonText.ParseStringify | lib/auth.ts:33-45 | `JSON.parse(JSON.stringify(v))` gives back any well-formed value |
| JsonText.StringifyStart | lib/auth.ts:33 | `JSON.stringify` never gives `""`, and its first character tells the kind of value |
| JsonText.SkipWs | hooks/useDecodeToken.ts:51 | whitespace skipping only shortens the text and stops at a non-whitespace character |
| JsonText.ParseNumber | hooks/useDecodeToken.ts:51 | a number literal parses to a number and consumes input |
| JsonText.ParseNumberIntToString | lib/auth.ts:33-45 | the decimal text of any integer parses back to it |
| JsonText.DigitRun | hooks/useDecodeToken.ts:51 | the digit run is the longest all-digit prefix |
| JsonText.EscapeChar | lib/auth.ts:33 | a character is written as itself or as an escape starting with `\` |
| Json.Get | lib/auth.ts:27-30 | `o[k]` is defined exactly when `o` has property `k`, with the value of that property |
| Json.GetCons | lib/auth.ts:27-30 | lookup checks the first property before the rest |
| Json.Remove | lib/auth.ts:47 | deleting `k` removes it, keeps every other property and keeps keys unique |
| Json.Assign | lib/auth.ts:47 | `{...o, [k]: v}` reads back `v` at `k`, keeps every other property and keeps keys unique |
| Json.AssignCons | lib/auth.ts:47 | assigning a key past a different first property leaves that property first |
| Json.Coalesce | lib/auth.ts:28-30 | `a ?? b` is `b` exactly when `a` is `null` or `undefined` |
| Json.Spread | lib/auth.ts:47 | spreading an object copies its properties; `null`, booleans and numbers contribute none |
| Json.IndexedFrom | lib/auth.ts:47 | spreading an array or a string gives properties named by the indices |
| Json.Property | hooks/useAuth.ts:49-66 | for the keys the code looks up (`_id`, `id`, `exp`), only a plain object has the property |
| Json.Truthy | lib/auth.ts:27 | the `!x` tests and the logical-or defaults: `null` and `undefined` are falsy, arrays and objects truthy, a string exactly when non-empty, a number exactly when non-zero, a boolean as itself |
| Json.Keys | lib/auth.ts:26-31 | the key list has one key per property, in order |
| Decimal.NatToString | lib/auth.ts:33 | the decimal text of `n` is non-empty and all digits, with a leading `0` only for `0` |
| Decimal.DigitsValueOfNatToString | lib/auth.ts:33-45 | the value of the decimal text of `n` is `n` |
| Decimal.DigitsValueAppend | hooks/useDecodeToken.ts:51 | appending a digit multiplies the value by ten and adds the digit |
| Decimal.IntToString | lib/auth.ts:33 | an integer's text starts with `-` or a digit |
| Decimal.DigitChar | lib/auth.ts:33 | a digit value gives a digit character, `0` only for zero |
| Decimal.DigitValue | hooks/useDecodeToken.ts:51 | a digit character gives a value below ten that maps back to it |
| Decimal.HexDigit | hooks/useDecodeToken.ts:47 | `toString(16)` writes lower-case hex digits |
| Decimal.HexValueOfHexDigit | hooks/useDecodeToken.ts:44-47 | reading a written hex digit gives its value |
| Decimal.HexPair | hooks/useDecodeToken.ts:47 | a byte is written as two lower-case hex digits with its value |
| AuthHook.TokenPresent | hooks/useAuth.ts:29 | `!token` is false exactly when there is a window and the stored token is a non-empty (truthy) string |
| AuthHook.Evaluate | hooks/useAuth.ts:18-81 | the exit of `checkAuth`: no session exactly when the token is missing or empty or there is no record; undecodable exactly when, past that, the token decodes to a falsy value; a valid user only for a decoded, unexpired token, and then the record with `_id` backfilled |
| AuthHook.Backfill | hooks/useAuth.ts:63-74 | a truthy `_id` is kept, a falsy one is replaced by the token's `id` claim, and every other property is unchanged |
| AuthHook.AfterCheck | hooks/useAuth.ts:29-80 | every exit ends loading, and `isAuthenticated` holds exactly when a user is set, which is exactly the valid exit |
| AuthHook.StoreAfter | hooks/useAuth.ts:29-60 | only the two rejecting exits change the storage |
| AuthHook.RejectClears | hooks/useAuth.ts:38-60 | after an undecodable or expired token, neither a record nor a token is left |
| AuthHook.ClearedIsNoSession | hooks/useAuth.ts:29-36 | an empty store evaluates to no session |
| AuthHook.CheckIdempotent | hooks/useAuth.ts:18-81 | a second check right after a first, at the same second, gives the same state and changes the store no further |
| AuthHook.ExpiryBoundaryAccepted | hooks/useAuth.ts:52 | a session whose token's `exp` equals `now` is accepted |
| AuthHook.EvaluateAgreesWithUseDecodeToken | hooks/useAuth.ts:24-60 | `checkAuth` accepts exactly when there is a record and `useDecodeToken` reports a decoded, unexpired token |
| AuthHook.LoginWithExpiredToken | hooks/useAuth.ts:110-116 | `login` with an expired token: the listener's check sees `Expired` and clears what was just saved |
| AuthHook.LoginWithLiveToken | hooks/useAuth.ts:110-116 | `login` with a live token: the listener's check accepts the saved record, with its `_id` backfilled, and keeps the store |
| AuthHook.AuthHook.constructor | hooks/useAuth.ts:10-13 | no user, not authenticated, loading, no check running, no listener |
| AuthHook.AuthHook.CheckAuth | hooks/useAuth.ts:18-81 | a call during a check changes nothing; otherwise the state becomes `AfterCheck(Evaluate(...))` of the storage it started from, the storage becomes `StoreAfter`, one `auth-change` is logged exactly when a token is rejected, and the flag is reset |
| AuthHook.AuthHook.Reject | hooks/useAuth.ts:38-59 | a rejecting exit clears the storage, logs one event and sets the signed-out state |
| AuthHook.AuthHook.DeliverEvent | hooks/useAuth.ts:90-93 | an event runs a full check when the listener is registered and no check is running, and changes nothing otherwise |
| AuthHook.AuthHook.Mount | hooks/useAuth.ts:84-99 | the first check runs, then the listener is registered |
| AuthHook.AuthHook.Unmount | hooks/useAuth.ts:101-104 | the listener is removed and the state is kept |
| AuthHook.AuthHook.Login | hooks/useAuth.ts:110-116 | the state ends authenticated with the given user. The storage is `Saved`, or what the listener's check leaves of it, and the event log shows the save plus a clear when that check rejects |
| AuthHook.AuthHook.Logout | hooks/useAuth.ts:121-126 | the user is signed out and the storage cleared, with one event. `isLoading` becomes false only through the listener's check, and is otherwise unchanged |
| Endpoints.ById | infrastructures/api/endpoints.ts:5 | the path is `/users/` followed by the id, unescaped |
| Endpoints.IdOf | infrastructures/api/endpoints.ts:5 | an id can be read back exactly from paths under `/users/` |
| Endpoints.IdOfById | infrastructures/api/endpoints.ts:5 | reading the id back from `byId(id)` gives `id` |
| Endpoints.ByIdInjective | infrastructures/api/endpoints.ts:5 | distinct ids give distinct paths |
| Endpoints.UnderBase | infrastructures/api/endpoints.ts:2-5 | every path starts with the base path |
| Endpoints.FixedRoutesCollide | infrastructures/api/endpoints.ts:3-5 | `byId("register")` and `byId("login")` are the register and login paths |

## Left out

- Token.ToNumber: a string other than `""` or a run of ASCII digits, and a non-empty array, are treated as `NaN`. JavaScript's `Number` also accepts whitespace, signs, decimals, exponents, hex, `Infinity` and one-element arrays.
- Token.Expired: inherits the weaker `ToNumber` above. An `exp` of such a form never counts as expired here, though JavaScript may compare it as a number.
- Numbers are integers. `JSON.parse` here rejects fractions and exponents, so a token whose claims contain one decodes to `null` in the model. Floating point is not modelled.
- JsonText.Parse: JSON text with a duplicate key in an object is rejected. `JSON.parse` keeps the last value instead. This keeps every parsed object free of duplicate keys.
- JsonText.Parse: a `\u` escape naming a lone surrogate is rejected, because a Dafny `char` is a Unicode scalar value. JavaScript strings can hold lone surrogates.
- Property order: an object is the list of its properties in insertion order. JavaScript lists integer-like keys first in ascending order; that reordering is not modelled.
- Json.Spread: a string is split into Unicode scalar values, where JavaScript splits it into UTF-16 code units. A record holding a JSON string with a character outside the Basic Multilingual Plane is therefore spread into one property per such character here, where JavaScript makes two (such as `"0"` and `"1"`, each a lone surrogate).
- A property set to `undefined` (`token: undefined`, `_id: undefined`) is modelled as absent. This agrees with `JSON.stringify` and with every lookup the code makes.
- The `useMemo` cache in `useDecodeToken` is not modelled. `Token.UseDecodeToken` computes the result afresh for the token and time it is given.
- The clock (`Date.now()`) is the parameter `now`, already in whole seconds.
- The `storage` event from other tabs runs the same listener. It is represented by `AuthHook.AuthHook.DeliverEvent`; other tabs' writes to the storage are not modelled.
- Only one hook instance and one listener are modelled. Each further mounted `useAuth` would run its own check for each event.
- React's batching and re-rendering of state updates are not modelled. A setter takes effect at once.
- `console.log` / `console.error` output, and `debugAuth` (lib/auth.ts:73-86), are left out: they only log and read.
- `localStorage` quota errors and a throwing `localStorage` are not modelled. Writes always succeed.
- The HTTP layer that uses the endpoints (infrastructures/repository/UserRepoAPI.ts, infrastructures/api/httpClients.ts) and the schema validation of domains/models/User.ts are not part of this model.
