# api-router, modelled in Dafny

api-router is a small HTTP reverse proxy. A request to `/<provider>/<path>`
is forwarded to the provider's configured `base_url` with one of the
provider's API keys. Keys are handed out round-robin. The upstream answer
is relayed back with its status and most of its headers.

This project models the two parts of the router that hold logic:

- **The key registry** (`Config` in config.py), in `registry.dfy`.
  - The parsed configuration is an immutable map from provider name to `ProviderEntry`. Beside it sits the dictionary's iteration order.
  - A key source is a list, a comma-separated string or some other value. It is normalised into an ordered key list.
  - A mutable cursor table `keyIndices` holds one cursor per active provider.
  - `GetNextKey` dispenses the key under the cursor and advances the cursor modulo the number of keys.
  - The class invariant `Valid()` says that exactly the active providers have a cursor. Every cursor of a provider with usable keys indexes its key list; the others stay 0.
  - Fairness is stated twice. `CursorAfter(n, len)` is the cursor after `n` steps of `GetNextKey` from the initial 0; it equals `n mod len`, so any `len` consecutive dispenses hand out every key exactly once. `DispenseRounds` calls `GetNextKey` `n` times on a provider whose cursor is 0 and proves that the `j`-th call returns `keys[j mod len]`.
  - `RotationScenario` is a small client: two keys alternate, and a provider with an empty key list is neither listed nor served.
- **The forwarding engine** (`forward_request` and `route_request` in app.py), in `forwarding.dfy`.
  - It builds the outbound request: the target URL, the rewritten headers, the credential, the query parameters and the body form.
  - It filters the upstream response headers.
  - It maps every failure to a 500.
  - It short-circuits an unknown provider with a 400.
  - The upstream call is an input value: a status and header pairs, or a transport failure.
- **Python string operations** (`text.dfy`): `str.isspace`, `strip`, `split` on one character, and ASCII `lower`. The registry relies on them.

Where the code is narrower than one might expect, the model follows the code:

- Every outbound request is sent with `stream=True`. There is no path-based streaming rule.
- Only `content-length` and `connection` are removed from the relayed headers.
- Vendor credential headers sent by the caller (for example `x-goog-api-key`) are forwarded unchanged. Only `Host` and `Authorization` are dropped.
- There is no separate branch for an unparsable JSON body. `request.get_json()` is evaluated in a log message (app.py:69) after the key is dispensed, and a malformed body makes Flask raise there. `except Exception` (app.py:106-109) turns that into a 500 with the cursor already advanced and nothing sent. A JSON `null` body parses to `None`, so neither `json=` nor `data=` carries a body (app.py:78-79). The model has both cases (`JsonBody`, `JsonFails`).
- No lock guards the cursor table.
- The activity test (`IsActive`, config.py:34-37 and 76-79) only checks that a string is not blank. Normalisation also drops empty pieces. So `keys: ","` is active: the provider is listed and routed, but every dispense fails with `NoKeysAvailable`, which becomes a 500. `Registry.ActiveWithoutUsableKeys` states this. The cursor invariant allows for it: such a provider keeps cursor 0 forever.
- `get_next_key` reads `self.key_indices[provider]` and `keys[current_index]` (config.py:58-59). Both could raise in principle. `Registry.UsableKeysAreActive` and the invariant prove that neither can happen, so the model has no error case for them.

## Model

| member | source | states |
|---|---|---|
| Text.LStrip | config.py:49 | the result is no longer than the input, and it is empty or starts with a non-space |
| Text.LStripSuffix | config.py:49 | the result of `LStrip` is a suffix of its input |
| Text.LStripRemovesBlank | config.py:49 | everything `LStrip` removes is whitespace |
| Text.RStrip | config.py:49 | the result is no longer than the input, and it is empty or ends with a non-space |
| Text.RStripPrefix | config.py:49 | the result of `RStrip` is a prefix of its input |
| Text.RStripRemovesBlank | config.py:49 | everything `RStrip` removes is whitespace |
| Text.Strip | config.py:49 | the stripped key is no longer than the piece, and it is empty or begins and ends with a non-space |
| Text.StripEmptyIffBlank | config.py:36 | `s.strip()` is empty exactly when every character of `s` is whitespace (both directions) |
| Text.StripPadding | config.py:49 | a core that begins and ends with a non-space, framed by whitespace on both sides, strips to exactly that core |
| Text.LStripBlankPrefix | config.py:49 | `LStrip` removes exactly a whitespace prefix followed by a non-space |
| Text.RStripBlankSuffix | config.py:49 | `RStrip` removes exactly a whitespace suffix preceded by a non-space |
| Text.Split | config.py:49 | `split(",")` yields at least one piece, and no piece contains the separator |
| Text.SplitPrefix | config.py:49 | a separator-free prefix is glued onto the first piece of the rest |
| Text.JoinSplit | config.py:49 | joining the pieces of a split with the separator gives back the original string |
| Text.SplitJoin | config.py:49 | splitting the join of separator-free pieces gives back exactly those pieces |
| Text.JoinChars | config.py:49 | every character of a joined string is the separator or belongs to one of the pieces |
| Text.SplitChars | config.py:49 | every character of a piece occurs in the split string |
| Text.LowerChar | app.py:97 | the result is no capital, is the same letter as the input up to case, and a non-capital is kept as it is |
| Text.Lower | app.py:97 | `name.lower()` spells the same word up to ASCII case and leaves no capital |
| Text.LowerIdempotent | app.py:97 | lower-casing twice equals lower-casing once |
| Text.LowerEqualsIff | app.py:97 | against a name with no capitals, `name.lower() == t` holds exactly when `name` equals `t` up to case (both directions) |
| Registry.SplitKeys | config.py:49 | the key list comprehension over `split(",")`; it yields at most one key per piece |
| Registry.StrippedNonEmpty | config.py:49 | the filter-and-strip of the comprehension; it keeps at most one key per piece; which keys it keeps, and in what order, is stated by `StrippedNonEmptyMembers` and `StrippedNonEmptyConcat` |
| Registry.StrippedNonEmptyTrimmed | config.py:49 | every kept key is non-empty and begins and ends with a non-space |
| Registry.StrippedNonEmptyEmptyIff | config.py:49-56 | no key is kept exactly when every piece strips to nothing (both directions) |
| Registry.StrippedKeepsAll | config.py:49 | when no piece strips to nothing, every piece is kept, stripped, in its original order |
| Registry.StrippedNonEmptyConcat | config.py:49 | normalisation works piece by piece: the keys of `a + b` are the keys of `a` followed by the keys of `b`, so blank pieces anywhere drop out and the others keep their order |
| Registry.StrippedNonEmptyMembers | config.py:49 | a key is kept exactly when it is non-empty and some piece strips to it (both directions) |
| Registry.SplitTrailingComma | config.py:49 | `"a,b,"` splits into `a`, `b` and an empty last piece, as Python's `split(",")` does |
| Registry.SplitBlankPiece | config.py:49 | `"a, ,b"` splits into `a`, a blank piece and `b` |
| Registry.BlankPiecesContributeNothing | config.py:49 | the pieces `["a", "b", ""]` and `["a", " ", "b"]` both normalise to `["a", "b"]` |
| Registry.TrailingAndBlankPiecesDropped | config.py:49 | `keys: "a,b,"` and `keys: "a, ,b"` both yield exactly the keys `a` and `b` |
| Registry.NormaliseKeys | config.py:43-56 | normalisation fails exactly when the source is neither a list nor a string, an empty list, or a string whose split leaves no key; a non-list, non-string source is `KeysNotListOrString` and an empty result is `NoKeysAvailable`; a non-empty list is used exactly as given and a string gives `SplitKeys` of its text; a successful normalisation is non-empty |
| Registry.KeysFor | config.py:39-56 | the provider is reported `ProviderNotConfigured` exactly when it or its `keys` entry is missing; otherwise the result is the normalisation of its key source |
| Registry.IsActive | config.py:32-37 | the activity test shared with config.py:74-79; only a list or a string key source can pass it |
| Registry.SplitKeysEmptyIff | config.py:49-56 | a comma-separated string yields no key exactly when it consists of commas and whitespace only (both directions) |
| Registry.SplitKeysNonBlank | config.py:36-49 | a string that yields a key is not blank, so it passes the activity test |
| Registry.UsableKeysAreActive | config.py:30-58 | every provider whose keys normalise successfully is active, so it has a cursor |
| Registry.ActiveWithoutUsableKeys | config.py:36-56 | `keys: ","` passes the activity test yet normalises to `NoKeysAvailable` |
| Registry.StringAndListNormaliseAlike | config.py:46-49 | `"x, y ,z"` and `["x", "y", "z"]` both normalise to `["x", "y", "z"]` and are both active |
| Registry.SplitExample | config.py:49 | `"x, y ,z".split(",")` is `["x", " y ", "z"]` |
| Registry.StripSingle | config.py:49 | a single non-space character strips to itself |
| Registry.StripPadded | config.py:49 | `" y "` strips to `"y"` |
| Registry.StripExample | config.py:49 | the pieces `["x", " y ", "z"]` strip to `["x", "y", "z"]` and none is dropped |
| Registry.Position | config.py:73 | the index of a configured name in the configuration order, the first at which it occurs |
| Registry.ListedIn | config.py:71-80 | the names `get_providers` appends, in configuration order; no more of them than configured names |
| Registry.ListedInMembers | config.py:71-80 | a name is listed exactly when it is configured and its entry passes the activity test (both directions) |
| Registry.PositionInPrefix | config.py:73 | in a list of distinct names, a name's index in a prefix is its index in the whole list |
| Registry.InConfigOrderPrefix | config.py:73-79 | names ordered within a prefix of the configuration order are ordered the same way in the whole order, and all come before its end |
| Registry.InConfigOrderAppend | config.py:77-79 | appending a name that comes after every listed one keeps the listing in configuration order |
| Registry.ListedInOrder | config.py:71-80 | the listing follows the configuration order |
| Registry.AdvanceKeepsInvariant | config.py:58-62 | for a provider with usable keys the cursor exists and indexes the key list, and advancing it by one step keeps the whole-table invariant |
| Registry.NextCursor | config.py:62 | one step of a cursor stays in range of the key list |
| Registry.NextCursorIsMod | config.py:62 | one step of a cursor is `(current_index + 1) % len(keys)` |
| Registry.CursorAfter | config.py:58-62 | the cursor after any number of dispenses is in range of the key list |
| Registry.CursorAfterIsModular | config.py:58-62 | after `n` dispenses from cursor 0 the cursor is `n mod len(keys)`, so the `n`-th dispense returns `keys[n mod len(keys)]` |
| Registry.FullCycleReaches | config.py:58-62 | every key position is reached within any `len(keys)` consecutive dispenses |
| Registry.FullCycleDistinct | config.py:58-62 | no key position is reached twice within `len(keys)` consecutive dispenses |
| Registry.CursorAfterShift | config.py:58-62 | the cursor `i < len(keys)` dispenses after the `start`-th one is `start mod len(keys)` advanced by `i`, wrapped once |
| Registry.ModShift | config.py:62 | `(start + i) mod len` for `i < len` is `start mod len` advanced by `i`, wrapped once |
| Registry.ModSucc | config.py:62 | advancing `count mod n` by one modulo `n` gives `(count + 1) mod n` |
| Registry.Config.constructor | config.py:17-21 | the configuration is kept, every active provider and no other gets cursor 0, and the invariant holds |
| Registry.Config.InitializeKeyIndices | config.py:30-37 | the cursor table maps exactly the active providers, each to 0, and the invariant holds |
| Registry.Config.GetNextKey | config.py:39-64 | keeps the invariant; fails exactly when `KeysFor` fails, with the same error and no state change; otherwise returns `keys[cursor]`, sets that provider's cursor to the next one, `(cursor + 1) mod len(keys)`, and leaves every other cursor unchanged |
| Registry.Config.GetBaseUrl | config.py:66-69 | succeeds exactly when the provider and its `base_url` are configured, returns that URL, and otherwise fails with `BaseUrlNotFound`; it reads no mutable state |
| Registry.Config.GetProviders | config.py:71-80 | returns the listing `ListedIn`: exactly the active providers, in configuration order |
| Registry.DispenseRounds | config.py:58-64 | from cursor 0, `n` calls of `GetNextKey` return `keys[j mod len(keys)]` for the `j`-th call, leave that cursor at `n mod len(keys)`, change no other cursor and keep the invariant |
| Registry.DispenseStep | config.py:58-62 | one round: the key handed out is the one under the cursor after `i` dispenses, and the cursor table becomes the one after `i + 1` |
| Registry.DispensedCyclically | config.py:58-62 | keys handed out at cursors `CursorAfter(j, len)` are `keys[j mod len]`, and the final cursor is `n mod len` |
| Forwarding.BuildOutbound | app.py:37-82 | no request is built exactly when the request is JSON and its body does not parse. Otherwise the outbound request has the inbound verb and the URL `base_url + path`. Its headers are the inbound ones without `Host` and `Authorization`, plus `Authorization: Bearer <key>` for every provider but `gemini` and the two fixed headers for `openrouter` only. Its params are the inbound ones, with `key` set for `gemini` only. A JSON request sends the parsed document under `json=` (nothing for JSON `null`) and no `data=`; any other sends its raw bytes under `data=` only. It has `stream` on and timeout 300 |
| Forwarding.OutboundDetermined | app.py:37-82 | two outbound requests that both meet that description are equal |
| Forwarding.IsExcludedHeader | app.py:93-97 | the filter test; only names of the lengths of `content-length` and `connection` are dropped |
| Forwarding.ExcludedIff | app.py:93-97 | a header is dropped exactly when its name equals `content-length` or `connection` up to ASCII case (both directions) |
| Forwarding.ExcludedIgnoresCase | app.py:93-97 | the header filter gives the same answer for a name and its lower-cased form |
| Forwarding.ExcludedExample | app.py:93-97 | `Content-Length` and `CONNECTION` are dropped; `Transfer-Encoding` is kept |
| Forwarding.RelayHeaders | app.py:93-98 | a pair is relayed exactly when it came from upstream and its lower-cased name is neither `content-length` nor `connection` |
| Forwarding.RelayHeadersConcat | app.py:94-98 | filtering distributes over concatenation, so the relayed pairs keep their upstream order |
| Forwarding.RelayHeadersIdempotent | app.py:94-98 | filtering the relayed headers again changes nothing |
| Forwarding.Relay | app.py:93-105 | an upstream reply is relayed with its own status and the filtered headers; a transport failure becomes a 500 `RequestFailed` |
| Forwarding.Forward | app.py:29-109 | a failed dispense answers 500 and changes no cursor. A dispense that succeeds advances the cursor even when the base-URL lookup or the JSON body then fails; either failure also answers 500 and sends nothing. Otherwise the request built from the dispensed key is sent and the upstream result is relayed |
| Forwarding.Route | app.py:115-122 | a provider that is not active answers 400 `UnsupportedProvider`, sends nothing and dispenses no key; an active one is forwarded as `Forward` describes |

## Left out

- `_load_config` (config.py:23-28): file access and YAML parsing. The parsed configuration is given to the constructor as a map plus its key order.
- Configuration values of other shapes are not modelled. This covers a provider entry that is not a mapping, a `base_url` that is not a string, and list elements that are not strings. The model types every `base_url` and list key as a string.
- The Flask application, the route decorators, the health check and the JSON error bodies (app.py:25, 112-114, 125-134): framework wiring. A response is modelled as its status and the failure's kind.
- The `requests.request` call, its timeout behaviour and the `generate()` chunk stream (app.py:73-91): network I/O. The upstream result is an input, and the response body is not modelled.
- Logging, `time.time()` and `request_id` (app.py:19-23, 30-31, 63-71, 84-86, 103-108): side effects with no logical content.
- JSON decoding of the inbound body: a body that parses is represented by its bytes, not by the decoded document; whether it parses is an input (`JsonBody`).
- Exception messages: each raise site and exception kind is a datatype variant instead of a text.
- Header and argument multiplicity: Flask's header and argument collections become plain maps, as `dict(...)` makes them. Repeated names are not modelled, and neither is the insertion order of the outbound header dictionary.
- Concurrency: requests are handled one at a time. The unlocked read-modify-write of a cursor under parallel requests is not modelled.
- Text.Lower: covers the ASCII letters only. Header names from the HTTP client are Latin-1, and the two excluded names are ASCII.
