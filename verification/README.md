# LastMile trip intelligence in Dafny

LastMile is a single-page trip planner. The user names a destination. The
app asks a reasoning service for two replies in parallel. The *core* reply
gives drive and walk times and opening hours. The *deep* reply gives
parking, weather and traffic trend. The app merges both into one
`TripAnalysis` and shows it. It also keeps a short, case-insensitive search
history. A plan can be shared with another user as a *snapshot*.

This project models the deterministic logic around those calls, as pure
functions over immutable datatypes:

- `wrappers.dfy` (`Wrappers`): `Option`, `Result`, and the JavaScript
  `||` and `??` defaults. Under `||`, `""` and `0` count as absent.
- `text.dfy` (`Text`): the string built-ins the code relies on.
  - `toLowerCase`, `trim` emptiness, `includes` and `indexOf`.
  - `replace` of the first match.
  - Decimal rendering of integers.
- `types.dfy` (`Types`): the records of `types.ts`. It also holds
  `Partial*` variants with every field optional, which describe what the
  service actually returns.
- `json_extract.dfy` (`JsonExtract`): `extractJSON`. It finds the first
  `{`, counts braces until the count is zero again, and parses that span.
  The JSON parser is a function parameter.
- `gemini_service.dfy` (`GeminiService`): what `getCoreAnalysis` and
  `getDeepAnalysis` do with a reply.
  - Blank and malformed replies.
  - The "unknown" traffic fix and the time validation.
  - The deep fallback and the grounding-chunk projection.
  - The service call is a parameter holding its outcome.
- `trip_merge.dfy` (`TripMerge`): the merge block of `performSearch`.
- `app_state.dfy` (`AppState`): the state the app component keeps, and the
  actions that change it.
  - The actions are login, search and share.
  - Each action is a function from state to state.
  - An invariant `Valid` holds initially, and every action preserves it.
- `display.dfy` (`Display`): `getTimeAgo`, `getWeatherIcon` and
  `getTrafficColor`.

The current time, the device position, the random snapshot id and the
service replies are all parameters.

Notes on the code, which the model follows as written:

- A core reply whose JSON has no `driving` object makes
  `parsed.driving.trafficStatus` throw a `TypeError` before the time
  check runs. It is modelled as its own error, `MissingDrivingSection`.
- Time validation rejects only missing or zero times. This matches the core
  prompt, which forbids only 0 (services/geminiService.ts:51). Negative
  times pass.
- Handle normalisation removes only the *first* `@`, wherever it is, so
  `"@@bob"` becomes `"@bob"`. The login field's placeholder `@username`
  (App.tsx:228) suggests the `@` is an optional prefix to strip.
- Login lower-cases the untrimmed input. Only the emptiness test trims.
- `getTrafficColor` knows only "gridlock", "heavy" and "moderate". The
  declared status "Congested" therefore shows green (emerald).

## Model

| member | source | states |
|---|---|---|
| Text.IndexOf | services/geminiService.ts:14-15 | `indexOf('{')`: no index exactly when the character is absent; otherwise the index of its first occurrence |
| Text.RemoveFirst | App.tsx:52 | `replace('@', '')` on a string: unchanged without an `@`; otherwise exactly the first `@` is cut out and every other character stays in order |
| Text.ContainsIffOccurs | App.tsx:196-206 | `includes`, scanned left to right, holds exactly when the word occurs at some position |
| Text.BlankIffTrimEmpty | App.tsx:51 | `trim() === ''` holds exactly when every character is whitespace |
| Text.Trim | App.tsx:51 | `trim()` returns the input with only its leading and trailing whitespace removed: a contiguous slice of the input with nothing but whitespace before and after it, which neither starts nor ends with whitespace |
| Text.NatToString | App.tsx:189-190 | a number in a template literal renders as decimal digits without a leading zero that denote the number |
| Text.IntToString | App.tsx:189-190 | a number renders as at least one decimal digit with no leading zero (except "0" itself) denoting it; a negative number as `-` followed by the digits of its non-zero magnitude |
| JsonExtract.ScanFrom | services/geminiService.ts:17-29 | the brace-counting loop stops at the first later index where the running count is zero, and reports none when the text ends first |
| JsonExtract.FindSpan | services/geminiService.ts:14-31 | the span found is exactly the one that starts at the first `{` and ends where the count first returns to zero (iff); none when no such span exists |
| JsonExtract.ExtractJson | services/geminiService.ts:11-40 | null for a missing or empty text or one without `{`; a result only when an extracted span exists; otherwise the parser's verdict on exactly that span |
| JsonExtract.ExtractedSpanShape | services/geminiService.ts:17-31 | an extracted span ends in `}` after its `{`, and every proper prefix has more `{` than `}` |
| JsonExtract.EmbeddedObjectExtracted | services/geminiService.ts:7-40 | prose without `{` followed by a brace-balanced object and any trailing text yields exactly that object |
| JsonExtract.TruncatedObjectRejected | services/geminiService.ts:17-31 | a reply cut off inside its object yields null |
| JsonExtract.BraceInsideStringClosesSpan | services/geminiService.ts:19-24 | braces inside JSON strings are counted too: in `{"a":"}"}` the quoted `}` closes the span |
| GeminiService.BlankReplyIffTrimmedEmpty | services/geminiService.ts:81 | a reply counts as empty exactly when its text is missing, empty or trims to nothing |
| GeminiService.NormalizeStatus | services/geminiService.ts:92-95 | a missing, empty or case-insensitive "unknown" status becomes "Moderate"; any other status is kept; the result is always a known status |
| GeminiService.NormalizeStatusIdempotent | services/geminiService.ts:92-95 | fixing an already fixed status changes nothing |
| GeminiService.CoreAnalysis | services/geminiService.ts:80-107 | the error for each failure: service error, blank reply, no JSON, missing `driving`, zero or missing time. Success iff all checks pass; only the traffic status of the parsed object may change, and the result passes validation |
| GeminiService.ProjectChunk | services/geminiService.ts:163-166 | `maps` wins over `web`; an empty or missing title defaults to "Map" or "Web"; a chunk with neither yields nothing |
| GeminiService.ProjectChunks | services/geminiService.ts:162-167 | at most one source per chunk, every title non-empty, and every source is the projection of some chunk |
| GeminiService.ProjectChunksAppend | services/geminiService.ts:162-167 | map-then-filter works chunk by chunk: the sources of `a + b` are those of `a` followed by those of `b` |
| GeminiService.ProjectChunksSingle | services/geminiService.ts:163-167 | one chunk contributes its projection or nothing |
| GeminiService.DeepAnalysis | services/geminiService.ts:150-173 | the deep path never fails. Every failure returns exactly `{groundingSources: []}`. Success keeps the parsed object and replaces only its sources with the projected chunks |
| TripMerge.ParkingOptionsOf | App.tsx:97 | the deep reply's parking list, or none when the deep reply has no driving section or no list |
| TripMerge.Merge | App.tsx:96-123 | the merged analysis copies the core times, status and hours and stamps the current time. The total is the drive plus the first lot's walk, or the drive alone without lots. Defaults: "stable" trend, recommended walking, no sources, and the target when the core names no destination |
| TripMerge.MergeModuloTimestamp | App.tsx:101-123 | two merges of the same replies differ at most in the timestamp |
| TripMerge.MergeWithDeepFallback | App.tsx:97-122 | with the deep fallback the trend is "stable", parking and sources are empty, walking is recommended and the total equals the drive |
| TripMerge.ValidCoreMergesValid | App.tsx:101-115 | a validated core reply has every field the merge dereferences, and merges into an analysis with non-zero times and a known status |
| TripMerge.TotalTimeExample | App.tsx:97-99 | a 12-minute drive with lots 4 and 9 minutes away totals 16; without lots, 12 |
| AppState.RemoveCaseEq | App.tsx:76 | the filter keeps only entries unequal to the destination up to case, each one present in the history, in their order |
| AppState.RemoveCaseEqCounts | App.tsx:76 | every copy of an entry unequal to the destination survives the filter, and no copy of an equal one |
| AppState.InsertHistory | App.tsx:74-78 | the destination comes first, followed by the first four (or fewer) entries that survive the filter, in order; the length is one more than the survivors, capped at five. A case-distinct history stays case-distinct |
| AppState.InsertHistoryIdempotent | App.tsx:75-78 | searching the same destination twice leaves the history as after once |
| AppState.InsertHistoryExample | App.tsx:75-78 | "Paris" over `["paris", "Rome"]` gives `["Paris", "Rome"]` |
| AppState.NormalizeHandle | App.tsx:52 | the handle is lower-case. Without `@` it is the lower-cased input; otherwise it is the lower-cased input with exactly its first `@` cut out |
| AppState.NormalizeHandleSingleAt | App.tsx:52 | a handle typed with at most one `@` comes out without any |
| AppState.NormalizeHandleDoubleAt | App.tsx:165 | only the first `@` is removed: "@@bob" gives "@bob" |
| AppState.FinalDestination | App.tsx:64 | the explicit target when it is non-empty, else the search box; empty exactly when both are |
| AppState.Login | App.tsx:49-55 | blank input changes nothing; otherwise only the user changes, to the normalised, lower-case handle |
| AppState.PerformSearch | App.tsx:63-135 | no destination, no change. A manual search updates the history and clears the old analysis; a refresh keeps both. An analysis is shown iff there is a position and the core fetch succeeds, and any new analysis is valid and stamped now |
| AppState.DeepFailureDoesNotBlock | App.tsx:91-123 | a failing deep fetch still yields an analysis with the deep defaults |
| AppState.Sender | App.tsx:164 | the user's name when there is a user with a non-empty name, else "anonymous"; never empty, and lower-case when the name is |
| AppState.Share | App.tsx:159-172 | with no analysis or no recipient nothing changes. Otherwise the snapshot goes to the end of the log, with the sender, normalised recipient, analysis and time; it goes to the inbox front iff addressed to the current user |
| AppState.LoginPreservesValid | App.tsx:49-55 | login keeps the state invariant (short case-distinct history, lower-case names, valid analyses) |
| AppState.SearchPreservesValid | App.tsx:63-135 | search keeps the state invariant |
| AppState.SharePreservesValid | App.tsx:159-172 | sharing keeps the state invariant |
| Display.FloorDivTwice | App.tsx:188-190 | flooring seconds and then minutes is flooring minutes directly |
| Display.TimeAgo | App.tsx:187-191 | under a minute, whole elapsed seconds with "s ago"; otherwise whole elapsed minutes with "m ago" |
| Display.TimeAgoSecondsBoundary | App.tsx:187-189 | 59 999 ms after the snapshot reads "59s ago" |
| Display.TimeAgoMinuteBoundary | App.tsx:187-190 | exactly 60 000 ms after the snapshot reads "1m ago" |
| Display.WeatherIconFor | App.tsx:193-201 | the spinner iff there is no condition; otherwise the first match among snow, rain/drizzle/shower, cloud/overcast and storm/thunder, ignoring case; sun when none matches. Each icon is drawn with the class string `Display.IconClass` gives it (App.tsx:194-200) |
| Display.WeatherIconIgnoresCase | App.tsx:195 | the icon of a condition equals the icon of its lower-cased form |
| Display.LightRainShowsShowers | App.tsx:197 | "Light Rain" shows showers |
| Display.SnowShowersShowSnow | App.tsx:196-197 | snow is checked before showers: "Snow Showers" shows snow |
| Display.TrafficColorFor | App.tsx:203-208 | red iff the status mentions gridlock or heavy; yellow iff it mentions moderate but neither of those; an empty status reads as "clear" and shows emerald. Each colour is drawn with the class string `Display.ColorClass` gives it (App.tsx:205-207) |
| Display.FilledInStatusShowsYellow | App.tsx:203-208 | a status the core path had to fill in shows yellow |
| Display.HeavyTrafficShowsRed | App.tsx:205 | "Heavy Traffic" shows red |
| Display.CongestedShowsEmerald | App.tsx:203-208 | the declared status "Congested" shows emerald |

## Left out

- The service client is not modelled: the prompts, model names, tool configuration and temperature. Only the reply outcome enters the model.
- `JSON.parse` is an uninterpreted parameter. A field of the wrong JSON type is not modelled; for example, a non-string `trafficStatus` makes `toLowerCase` throw.
- Geolocation, `Promise.all` and the parallel fetch are not modelled. The position and both outcomes are parameters.
- AppState.PerformSearch: modelled as one atomic step from the state at call time. In the app the search awaits the position and both replies between updating the history and setting the analysis, so another search or a share can run in between, and the search that finishes last sets the analysis.
- The sync cooldown, the live-tracking interval, `isSearching`, `searchDuration` and the alerts are timers and UI flags, so they are not modelled.
- `localStorage` persistence is not modelled. The global snapshot list is a field of the state, and loading saved state is out of scope.
- Logout, clearing the history and opening a snapshot from the inbox are plain assignments outside the modelled core.
- The `setTimeout` that clears the recipient after sharing is UI timing, so it is not modelled.
- The snapshot id from `Math.random()` is a parameter.
- Text.ToLower: folds only ASCII capitals, because JavaScript's full Unicode case mapping is out of scope.
- JavaScript's UTF-16 code units are modelled as Dafny characters.
- Times are whole integers. Fractional minutes are not modelled. A parking lot without `walkTimeMins`, which makes the total NaN, is not modelled either.
- Display.TimeAgo: does not model JavaScript's exponent notation for very large numbers.
- A grounding chunk whose `uri` is missing is not modelled. Every chunk reference carries a `uri`.
- The rendered JSX and the layout component are not modelled.
- The `console.error` logging in `extractJSON` and in both fetch paths has no effect on any result, so it is not modelled.
