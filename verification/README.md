# Station resolution and date phrases of akAIfe's journey planner

The journey planner of akAIfe has two pieces of pure string logic. This
project models them and proves their properties in Dafny.

- `resolve_station_code` (utils.py) maps what a user typed to a railway station code:
  - It builds a name→code dictionary from each station's four name fields. Each name is normalised with `strip().lower()`, and names that are `None` or empty are skipped.
  - It then answers with the code of an exact key, else the code of the only key containing the input, else the code of the shortest key containing the input, else `None`.
- The date branch of `plan_journey` (main.py) reads phrases such as `today`, `tomorrow`, `in 3 days`, `in 2 weeks` and `2025-05-01`.
- The guard of `plan_journey` resolves both endpoints against one station list and refuses the journey unless both are found.

Modules:

| module | file | what it holds |
|---|---|---|
| `Wrappers` | wrappers.dfy | `Option` and `Result` |
| `Text` | text.dfy | Python's `strip`, `lower`, `split`, `rstrip(ch)`, `startswith` and `in` on `str` |
| `Numerals` | numerals.dfy | Python's `int(token)` for base 10, and `str(n)` |
| `StationIndex` | station_index.dfy | Stations, and the dictionary built at utils.py:16-20, modelled as an association list |
| `Resolver` | resolver.dfy | `resolve_station_code` |
| `DatePhrase` | date_phrase.dfy | the date branch of `plan_journey` |
| `Journey` | journey.dfy | the date branch combined with the two resolutions and the not-found guard |

Design points:

- **The dictionary.** A Python `dict` keeps its keys in order of first insertion. Assigning to an existing key replaces the value in place. The index is therefore a `seq<Entry>` with distinct keys, built by `Put`. The order of keys is what decides `min(..., key=len)` on a length tie. Python's `min` returns the first minimal element.
- **Whitespace.** `strip()` and `split()` use Python's exact `str.isspace()` set. This includes the Unicode spaces U+0085, U+00A0, U+1680, U+2000–U+200A, U+2028, U+2029, U+202F, U+205F and U+3000, and the separators U+001C–U+001F.
- **Lower case.** `lower()` is modelled on ASCII, Latin-1, basic Cyrillic and Georgian Mtavruli. Mtavruli lowers to Mkhedruli, which matters because the station names include Georgian. Every other character is left unchanged.
- **The date.** Nothing reads the clock. A relative phrase yields `DaysFromNow(n)` and an explicit phrase yields `OnDate(y, m, d)`. The `OverflowError` that `timedelta` raises beyond 999,999,999 days is modelled as `DeltaOverflow`. The `ValueError` of `strptime` for an impossible date, including year 0, is modelled as `InvalidDate`.

Two consequences of the code that are easy to miss:

- **Blank input.** `"" in name` is true for every name, so blank input matches every key. The result is `None` only when no station has a truthy name (`Resolver.BlankInputMatchesAll`).
- **Empty codes.** The guard tests `not orig_code or not dest_code`, so a station whose code is `""` also counts as not found (`Journey.Decide`).

## Model

| member | source | states |
|---|---|---|
| Text.Strip | utils.py:15 | `strip()` yields the slice of the input between a leading and a trailing run of whitespace, and the slice neither starts nor ends with whitespace |
| Text.TrimStartSpec | utils.py:15 | the left trim drops exactly the leading run of whitespace |
| Text.TrimEndSpec | utils.py:15 | the right trim drops exactly the trailing run of whitespace |
| Text.LowerChar | utils.py:15 | lowering a character never turns whitespace into non-whitespace or back |
| Text.NormalizeIdempotent | utils.py:15 | `strip().lower()` applied twice equals applying it once |
| Text.NormalizePadded | utils.py:15 | whitespace added around an input does not change its normal form |
| Text.NormalizeIgnoresCase | utils.py:15 | lowering an input first does not change its normal form |
| Text.ContainsIffOccurs | utils.py:24 | `needle in hay` holds exactly when `needle` occurs at some position of `hay` |
| Text.ContainsLength | utils.py:21-29 | a string only contains strings no longer than itself, and one of equal length only if the two are equal |
| Text.ContainsEmpty | utils.py:24 | every string contains the empty string |
| Text.Split | main.py:159 | `split()` yields only non-empty tokens free of whitespace |
| Text.SplitJoin | main.py:159 | splitting tokens joined by single spaces gives back the tokens |
| Text.SplitPadded | main.py:159 | leading whitespace does not change the result of `split()` |
| Text.RStripChar | main.py:162 | `rstrip(ch)` keeps a prefix, drops only copies of `ch`, and leaves no `ch` at the end |
| Text.RStripCharPadded | main.py:162 | appending more copies of `ch` does not change `rstrip(ch)` |
| Numerals.ParseInt | main.py:161 | `int(token)` succeeds exactly on an optional sign followed by digits with single underscores between them, and then its value is the digits' number, negated after a `-` |
| Numerals.NatToStringDecimal | main.py:161 | `str(n)` is a well-formed decimal body that reads back as `n` |
| Numerals.IntRoundTrip | main.py:161 | `int(str(n)) == n` for every integer |
| Numerals.UnderscoreExample | main.py:161 | `int("1_000")` is 1000 |
| Numerals.MalformedExample | main.py:161 | `1__0`, `_1` and `+` are rejected |
| Numerals.SignExample | main.py:161 | `int("-07")` is -7 |
| StationIndex.NameWritesSpec | utils.py:18-20 | a station writes exactly its truthy names, each normalised and stored under its own code |
| StationIndex.StationWritesSpec | utils.py:18-20 | a station's writes are exactly the entries it names under its own code |
| StationIndex.WritesSpec | utils.py:17-20 | the writes of the two loops are exactly the normalised truthy names of all the stations |
| StationIndex.Lookup | utils.py:21-22 | `name_to_code[k]` is absent exactly when `k` is not a key, and otherwise is the code of an entry with key `k` |
| StationIndex.LookupAt | utils.py:22 | with distinct keys, the lookup of a position's key returns that position's code |
| StationIndex.Position | utils.py:20 | the position of a key in the index, or the length of the index when the key is absent |
| StationIndex.Put | utils.py:20 | assignment keeps the keys distinct, keeps an existing key in place, and appends a new key at the end |
| StationIndex.PutLookup | utils.py:20 | after the assignment the key maps to the new code and every other key is unchanged |
| StationIndex.BuildLookup | utils.py:17-20 | last write wins: each key holds the code of the last write to it |
| StationIndex.BuildKeys | utils.py:17-20 | the keys stay in order of their first write |
| StationIndex.LastWriteSpec | utils.py:17-20 | a key has a last write exactly when it is written, and the write is one of the writes |
| StationIndex.IndexOfSpec | utils.py:16-20 | the keys are exactly the normalised truthy names of the stations, and the code under a key belongs to a station with that name |
| StationIndex.IndexCodesFromStations | utils.py:16-20 | every code in the index is the code of a listed station |
| StationIndex.LastStationWins | utils.py:17-20 | on a collision, the last station with the name decides the code, whatever earlier stations wrote |
| StationIndex.FalsyNamesIgnored | utils.py:18-19 | stations that differ only in which falsy names are `None` and which are `""` build the same index |
| StationIndex.BlankNameIndexed | utils.py:18-20 | a whitespace-only name is truthy and is indexed under the empty key |
| StationIndex.IndexNames | utils.py:18-20 | the inner loop over one station's names applies that station's writes to the index |
| StationIndex.BuildIndex | utils.py:16-20 | the two nested loops, run from `{}`, build exactly the index that the writes describe |
| Resolver.Matching | utils.py:24 | the comprehension keeps exactly the entries whose key contains the input, and no more than the index holds |
| Resolver.ShortestSpec | utils.py:29 | `min(key=len)` returns one of the names, no longer than any other and strictly shorter than every name before it |
| Resolver.ShortestIsBestMatch | utils.py:27-30 | over the matching names, `min` picks the first of the shortest keys that contain the input |
| Resolver.ExactIsBestMatch | utils.py:21-22 | an exact key is the first of the shortest containing keys, and its code is what the lookup returns |
| Resolver.SingleIsBestMatch | utils.py:24-26 | a sole containing key is the first of the shortest containing keys |
| Resolver.BestMatchUnique | utils.py:27-30 | at most one position is the first of the shortest containing keys |
| Resolver.ResolveInIsBestMatch | utils.py:21-31 | all three branches agree: the result is `None` exactly when no key contains the input, and is otherwise the code of the first of the shortest keys that contain it |
| Resolver.ResolveInStations | utils.py:16-31 | the result is `None` exactly when no truthy normalised name contains the input, and is otherwise the code of a listed station |
| Resolver.Resolve | utils.py:6-31 | `resolve_station_code` returns `None` exactly when no truthy station name, normalised, contains the normalised input, and otherwise returns the code of one of the given stations |
| Resolver.ResolvePicksBestMatch | utils.py:27-30 | with several matches, the result is the code under the first of the shortest matching keys, in the order keys were first written |
| Resolver.SingleMatchWins | utils.py:24-26 | a single key containing the input decides the result |
| Resolver.ExactNameWins | utils.py:17-22 | an exact name match wins over any number of substring matches, with the code of the last station having that name |
| Resolver.ResolveIgnoresCaseAndPadding | utils.py:15 | inputs that differ only in surrounding whitespace or letter case resolve alike |
| Resolver.BlankInputMatchesAll | utils.py:15-30 | empty or blank input gives `None` only when no station has a truthy name |
| DatePhrase.Shift | main.py:166-168 | adding `timedelta(days=n)` succeeds exactly within 999,999,999 days and otherwise overflows |
| DatePhrase.UnitOffset | main.py:165-171 | `day` gives N days and `week` gives 7·N days, and succeeds exactly when that many days is within the `timedelta` range; an out-of-range count overflows; any other unit is unsupported |
| DatePhrase.IsoString | main.py:153 | the ISO form of a date has the shape `^\d{4}-\d{2}-\d{2}$` |
| DatePhrase.FixedDigitsValue | main.py:173 | zero-padded digits read back as the number they pad |
| DatePhrase.ClassifySpec | main.py:153-175 | a date is returned only when it is valid and the phrase is its ISO form; an offset only for `today`, `tomorrow` or an `in` phrase within range; "could not parse" exactly for phrases of none of the four shapes; an unsupported unit only from an `in` phrase |
| DatePhrase.IsoStringOfShape | main.py:172-173 | an ISO-shaped phrase is the ISO form of the date its three fields spell |
| DatePhrase.ParseWhenIgnoresCaseAndPadding | main.py:151 | phrases that differ only in surrounding whitespace or letter case read alike |
| DatePhrase.InPrefix | main.py:158 | tokens beginning with `in` join into a phrase that starts with `in ` and is neither `today` nor `tomorrow` |
| DatePhrase.InPhraseTokens | main.py:158-171 | an `in` phrase with a missing token or a non-integer count is unsupported; otherwise the count and the third token, less its trailing `s`, decide the offset |
| DatePhrase.InPhraseSplit | main.py:158-159 | an `in` phrase reads the same as its `split()` tokens joined by single spaces, so any run of whitespace between tokens acts as one space |
| DatePhrase.InUnitPhrase | main.py:158-171 | the three-token phrase `in NUM UNIT` is unsupported when NUM is not an integer and otherwise reads as NUM units |
| DatePhrase.ExtraTokensIgnored | main.py:159-162 | tokens after the unit are ignored |
| DatePhrase.TrailingSIgnored | main.py:162 | any number of trailing `s` on the unit is ignored, so `day`, `days` and `dayss` read alike |
| DatePhrase.IntToStringToken | main.py:159-161 | a written integer is a single whitespace-free token |
| DatePhrase.RelativeRoundTrip | main.py:158-168 | `in N days` reads as N days and `in N weeks` as 7·N days, for every integer N |
| DatePhrase.ExplicitRoundTrip | main.py:172-173 | the ISO form of a four-digit-year date reads back as that date when it is valid, and as an invalid date otherwise |
| DatePhrase.RenderRoundTrip | main.py:153-175 | every phrase the planner understands, written out, reads back as its meaning |
| Journey.Decide | main.py:182-183 | a date error comes first; otherwise the search proceeds exactly when both codes are present and non-empty |
| Journey.PlanJourney | main.py:150-183 | a date error is reported as such; a planned search carries the parsed date and the two resolved codes, both non-empty and both codes of listed stations |
| Journey.FoundIffNamed | main.py:180-182 | when all codes are non-empty, an endpoint is found exactly when some station name contains it |
| Journey.JourneyFound | main.py:179-183 | with a readable date and non-empty codes, the search proceeds exactly when both endpoints are contained in some station name |
| Journey.JourneySymmetric | main.py:180-181 | origin and destination are resolved alike, so swapping them swaps the two codes and changes nothing else |
| Journey.NoStationsNoJourney | main.py:179-183 | with an empty station list the journey always fails, and with a readable date it fails with "station not found" |

## Left out

- Fetching the station list and the rides over HTTP, the POST payload, the unverified SSL context and the purchase URL (main.py:121-135, 185-233). These are network I/O; the station list is a parameter instead.
- Pydantic validation of the station and ride JSON, and the flattening of the ride list (main.py:18-117, 209-217). These are dynamic typing over external data.
- `datetime.now()` and the calendar date of `now + timedelta(...)`. A relative phrase is kept as a day offset, so an offset that overflows the `datetime` range (before year 1 or after 9999) is not modelled. Only the `timedelta` range itself is.
- The text of the error messages. Each error is kept as its kind, and the unsupported-unit error keeps the unit; the quoted `when` text is dropped.
- Text.LowerChar: lowering is partial. It covers ASCII, Latin-1, basic Cyrillic and Georgian Mtavruli; other scripts, and lowerings to more than one character (such as U+0130), are left as they are.
- Numerals.ParseInt: digits are ASCII only. Python's `int()` and the `\d` of the ISO regex also accept other Unicode decimal digits. `int()`'s 4300-digit limit is not modelled either.
- DatePhrase.IsoString: stated only for four-digit years. Those are the only years the ISO regex admits.
- aramain.py, client.py, mapsAPIutils.py and akaife-back/server.js are not part of this model: database, LLM, maps and subprocess plumbing. The same goes for the `Open_URL_in_Browser` tools, which are browser side effects.
