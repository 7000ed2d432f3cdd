# geostring in Dafny

A model of the place-name resolution engine of geostring, with proofs about it. The engine
splits a free-text location ("Paris, France") into tokens. It matches each token against a
location index: normalized key -> `[city, subcountry, country]`, where the last two are
`?`-joined ambiguity fields. It then resolves the surviving matches into one location.

Two revisions are modelled:

- `geostring/geostring.py` (module `Geostring`):
  - an exact mode;
  - row filters for the index builder;
  - a conditional `del loc_index['']`;
  - a shared default index that `subset_locations` / `restore_locations` rebind.
- `build/lib/geostring/geostring.py` (module `GeostringLegacy`):
  - fuzzy matching only;
  - an unconditional `del loc_index['']`;
  - a hand-written `georgia` entry;
  - display values that are not transliterated: lower-cased, and stripped except the city name and the subcountry table's own name.

Shared modules hold what the two revisions have in common:

- `Strings`: `lower`, `strip`, `split`, `join`, substring `in`, `sorted(set(...))`, and the canonical `?`-field.
- `Normalizer`: the display cleaning `unidecode(s).lower().strip()` and the key `re.sub('[^a-z]', '', ...)`.
- `Tokenizer`: rewriting the default delimiters to `,`, then splitting.
- `OrderedDicts`: insertion-ordered dictionaries. `update` keeps the position of an existing key and appends new keys.
- `Matching`: the first-minimum edit-distance scan, the match record, and the per-token record list.
- `Counting`: `Counter.most_common`.
- `Resolution`: the tolerance filter, vertical resolution (majority vote per field) and horizontal resolution (cross-field check through the index).
- `IndexBuild`: the per-table row loops, the merge with its fixed precedence, the `?`-field cleanup, and the nickname table.

Python exceptions become `Err` values of a `Result`. `unidecode` and `editdistance.eval` are
foreign libraries: the model takes them as the two functions of `Externals`.

Three behaviours of the code are easy to miss; the model follows the code:

- Fuzzy matching does not always return a candidate. When every key is 1000 or more edits away, the new revision returns a "no match" record with distance 1000. The old revision raises `KeyError(None)`.
- An empty token matched against an empty key raises `ZeroDivisionError` instead of giving a result. The new revision can still hold an empty nickname key.
- `resolve(..., verbose=True)` raises `TypeError` when a "no match" record is over the tolerance (`Resolution.VerboseCrash`).

## Model

| member | source | states |
|---|---|---|
| Normalizer.Normalize | geostring/geostring.py:14-16 | a lookup key holds only the letters `a`-`z` |
| Normalizer.NormalizeKeepsLetters | geostring/geostring.py:14-16 | the key keeps each letter `a`-`z` of the cleaned name as often as it occurs there, and no other character |
| Strings.KeepLettersAppend | geostring/geostring.py:16 | deleting the non-letters of a concatenation deletes them part by part, so the kept letters stay in their order |
| Strings.KeepLettersCount | geostring/geostring.py:16 | every letter `a`-`z` is kept as often as it occurs, and nothing else |
| Strings.KeepLettersChar | geostring/geostring.py:16 | a single character is kept exactly when it is a letter `a`-`z` |
| Normalizer.CleanStable | geostring/geostring.py:175-177 | when transliteration maps to ASCII and fixes ASCII, cleaning a row cell is idempotent and normalizing the cleaned cell gives the key of the raw cell |
| Strings.CanonicalIdempotent | geostring/geostring.py:230-238 | the canonical form of a `?`-field (sorted distinct non-empty values) is its own canonical form |
| Strings.CanonicalValues | geostring/geostring.py:230-238 | a canonical field is empty only when the field has no non-empty value; otherwise it splits back into exactly the distinct non-empty values, sorted |
| Strings.SortedSet | geostring/geostring.py:232 | `sorted(list(set(xs)))` is strictly increasing and holds exactly the values of `xs` |
| Strings.SortedUnique | geostring/geostring.py:232 | two strictly sorted sequences with the same elements are equal, so the sorted set is determined by the set |
| Strings.JoinSplit | geostring/geostring.py:345 | joining the pieces of a split with the separator gives back the string |
| Strings.SplitJoin | geostring/geostring.py:110 | splitting a join of separator-free parts gives back the parts |
| Strings.JoinContainsPart | geostring/geostring.py:127-132 | every part of a joined field passes the substring test against the field |
| Tokenizer.ReplaceDelimiters | geostring/geostring.py:343-344 | the rewrite is empty exactly when the input is, and leaves no one-character delimiter other than `,` |
| Tokenizer.NoAndRemains | geostring/geostring.py:343-344 | no ` and ` is left anywhere in the rewritten string |
| Tokenizer.CommaFreePrefixCopied | geostring/geostring.py:343-344 | a `,`-free prefix of the rewrite is a prefix of the input |
| Tokenizer.TokensRejoin | geostring/geostring.py:342-345 | empty input gives no tokens; otherwise the tokens joined by `,` are the rewritten input, and no token holds a delimiter character |
| Tokenizer.CommaFreeCopied | geostring/geostring.py:343-344 | any comma-free stretch of the rewritten input occurs in the raw input as it stands |
| Tokenizer.TokensCopied | geostring/geostring.py:342-345 | every token is a stretch of the raw input, copied unchanged, that holds no delimiter character |
| OrderedDicts.Put | geostring/geostring.py:206-216 | `d[k] = v` sets the value, and appends `k` to the key order only when it is new |
| OrderedDicts.Remove | geostring/geostring.py:227-228 | `del d[k]` drops the key from the values and from the key order |
| OrderedDicts.Where | geostring/geostring.py:224 | a dict comprehension over `d` keeps exactly the chosen keys, in order, with their values |
| OrderedDicts.UpdateEmpty | geostring/geostring.py:218-219 | `{}.update(d)` is a copy of `d` |
| OrderedDicts.UpdateEntry | geostring/geostring.py:282 | after `d.update(o)` a key is present when either dict has it, `o`'s value wins, a key only `d` has keeps its value, and the keys are `d`'s followed by the new keys in `o`'s order |
| OrderedDicts.NewKeys | geostring/geostring.py:282 | the keys `update` appends are exactly the keys of the other dict that are not present yet, without repeats |
| Matching.Scan | geostring/geostring.py:24-28 | the scan's key, when it finds one, is an index key closer than 1000, at the distance recorded; otherwise the state is `(None, 1000)` |
| Matching.ScanFirstMinimum | geostring/geostring.py:17-28 | the scan finds nothing exactly when every key is 1000 or more away; otherwise it ends on the first key at the minimum distance (strict `<`) |
| Matching.ScanKeys | geostring/geostring.py:25-28 | the loop over the keys ends in the state `Scan` specifies |
| Matching.Matched | geostring/geostring.py:29-39 | a match record carries the entry's three fields verbatim and the distance; its tolerance times the longer length is the distance, and lies in [0, 1] when the distance is bounded; both strings empty raises `ZeroDivisionError` |
| Matching.MatchAll | geostring/geostring.py:345-350 | the record list succeeds exactly when every token's match succeeds, and then holds one record per token, in order |
| Matching.MatchAllFirstError | geostring/geostring.py:345-350 | a failed record list fails with the exception of the first failing token |
| Matching.MatchAllErrorSticks | geostring/geostring.py:345-350 | once a prefix of the tokens fails, the whole list fails the same way |
| Matching.MatchAllExtend | geostring/geostring.py:346-350 | one more successful token appends its record |
| Matching.MatchAllStops | geostring/geostring.py:346-350 | the first failing token decides the outcome of the whole list |
| Counting.SplitAllValues | geostring/geostring.py:101-103 | `loc_list` holds exactly the `?`-pieces of the fields |
| Counting.MostCommonSpec | geostring/geostring.py:104 | `most_common()` lists every value once, by non-increasing count, with a top-count value first |
| Counting.TopValuesSpec | geostring/geostring.py:104-109 | the top values are exactly the values that no other value outnumbers |
| Counting.FilterMostCommon | geostring/geostring.py:105-109 | keeping the `most_common()` entries whose count equals the first count gives the top values |
| Counting.CountBounds | geostring/geostring.py:104-105 | every counted value has a count between 1 and the top count, which some value reaches |
| Resolution.Survivors | geostring/geostring.py:71-73 | the filter keeps exactly the records within the tolerance |
| Resolution.SurvivorsAppend | geostring/geostring.py:71-73 | the filter keeps the records' order (it distributes over concatenation) |
| Resolution.SurvivorsNested | geostring/geostring.py:71-73 | filtering at a looser tolerance, then at a tighter one, is filtering at the tighter one, so raising the threshold never drops a survivor |
| Resolution.GatherPieces | geostring/geostring.py:101-103 | `loc_list` is the `?`-pieces of every field; a `None` field raises `AttributeError` |
| Resolution.KeepTop | geostring/geostring.py:105-109 | the city column keeps every value; the other columns keep the values whose count equals the first value's count |
| Resolution.VerticalField | geostring/geostring.py:100-116 | one pass of the vertical loop computes the vertical value of its column |
| Resolution.VerticalAll | geostring/geostring.py:100-112 | the resolved city value splits into exactly the city pieces of the records |
| Resolution.VerticalTop | geostring/geostring.py:100-116 | a resolved subcountry or country value splits into exactly the pieces no other piece outnumbers |
| Resolution.MissingKey | geostring/geostring.py:128-132 | names the key of a non-empty candidate that the index lacks, or says every candidate's key is present |
| Resolution.MissingKeyFirst | geostring/geostring.py:128-132 | the key named is that of the first non-empty candidate whose key the index lacks, the one the comprehension raises on |
| Resolution.Kept | geostring/geostring.py:123-132 | one comprehension keeps exactly the non-empty candidates whose indexed field contains the needle; a missing key raises `KeyError` on that key |
| Resolution.HorizontalAll | geostring/geostring.py:121-133 | the loop over the needles fails exactly when there is a needle and some candidate key is missing |
| Resolution.HorizontalAllValues | geostring/geostring.py:121-133 | `r2` holds exactly the non-empty candidates whose indexed field contains some needle |
| Resolution.Horizontal | geostring/geostring.py:121-133 | the horizontal loop computes the horizontal value |
| Resolution.HorizontalMeaning | geostring/geostring.py:121-144 | a horizontal value is the `?`-join of a strictly sorted list of exactly the agreeing candidates |
| Resolution.Disambiguate | geostring/geostring.py:88-146 | the multi-record branch computes the disambiguated location |
| Resolution.DisambiguateParts | geostring/geostring.py:99-146 | a disambiguated location is three vertical steps and two horizontal steps that all succeed; the country is the vertical value |
| Resolution.DisambiguatePresent | geostring/geostring.py:88-146 | a disambiguated location has all three fields, and so did every record |
| Resolution.DisambiguateCountry | geostring/geostring.py:100-116 | the resolved country splits into exactly the country pieces no other piece outnumbers |
| Resolution.DisambiguateSubcountry | geostring/geostring.py:118-133 | the resolved subcountry is the sorted join of the top subcountry pieces that some resolved country agrees with |
| Resolution.DisambiguateCity | geostring/geostring.py:135-144 | the resolved city is the sorted join of the city pieces that some top subcountry piece agrees with (the list taken before the subcountry filter) |
| Resolution.ResolveResults | geostring/geostring.py:59-146 | the body of `resolve` after the records are built: verbose crash, filter, `None`, one survivor, or disambiguation |
| Resolution.ResolveNone | geostring/geostring.py:75-78 | without a verbose crash the result is `None` exactly when every record is over the tolerance |
| Resolution.ResolveSingle | geostring/geostring.py:83-87 | a single survivor is returned field for field |
| Resolution.ResolveVerboseQuiet | geostring/geostring.py:59-70 | when `verbose` does not crash, it does not change the result |
| Resolution.ResolveVerboseCrash | geostring/geostring.py:59-70 | verbose `resolve` raises `TypeError` exactly when a "no match" record is over the tolerance, or the quiet call raises it too |
| IndexBuild.Keys | geostring/geostring.py:197-199 | one key per row, in row order |
| IndexBuild.BlankTable | geostring/geostring.py:197-199 | the blank table holds every key once, in first-occurrence order, with a blank entry |
| IndexBuild.IndexRow | geostring/geostring.py:201-216 | one row updates each of the three tables by its step |
| IndexBuild.BuildTables | geostring/geostring.py:197-216 | the row loop builds the city, subcountry and country tables |
| IndexBuild.BuildNicknames | geostring/geostring.py:267-273 | the nickname row loop builds the nickname table |
| IndexBuild.RowsFor | geostring/geostring.py:201-216 | the rows with a given key, in order: empty exactly when no row has it |
| IndexBuild.FoldEntry | geostring/geostring.py:201-216 | after the row loop a key holds what its rows accumulate: the last city or subcountry or country name, and a `?`-tag per row in the appended fields |
| IndexBuild.TableContents | geostring/geostring.py:197-216 | a table's keys are the rows' keys in first-occurrence order; each key holds what its rows accumulate from a blank entry |
| IndexBuild.TableHas | geostring/geostring.py:197-199 | a table has a key exactly when some row has that key |
| IndexBuild.Merge | geostring/geostring.py:218-226 | the merge loop computes the merged index |
| IndexBuild.MergeKeys | geostring/geostring.py:218-226 | the merged key order is: city keys, then subcountry keys that are not city keys, then new country keys |
| IndexBuild.MergeEntry | geostring/geostring.py:218-226 | a country key holds the country entry; another city key holds its city entry, with the subcountry entry appended when it is a subcountry key too; the rest hold the subcountry entry |
| IndexBuild.MergedMembership | geostring/geostring.py:197-226 | a key is absent from the merged index exactly when no row has it as a city, subcountry or country key |
| IndexBuild.MergedCityOnly | geostring/geostring.py:206-226 | a key only cities have holds what its city rows accumulate |
| IndexBuild.MergedCityLast | geostring/geostring.py:206-226 | such a key holds the city name of one of the rows with that key |
| IndexBuild.JoinWithEmptyPiece | geostring/geostring.py:232-236 | with an empty piece, the sorted set joins to the canonical field behind one `?` (or to the empty string) |
| IndexBuild.JoinWithoutEmptyPiece | geostring/geostring.py:232-236 | without an empty piece, the sorted set joins to a canonical field that does not start with `?` |
| IndexBuild.CanonicalPlain | geostring/geostring.py:231 | a field without `?` is already canonical |
| IndexBuild.TidyField | geostring/geostring.py:231-238 | tidying one field (join when it has a `?`, then drop a leading `?`) gives its canonical form |
| IndexBuild.TidyEntry | geostring/geostring.py:275-280 | tidying one entry tidies its fields (all three for nicknames) |
| IndexBuild.CleanedOf | geostring/geostring.py:230-238 | cleanup keeps the keys and their order, and tidies every entry |
| IndexBuild.CleanUp | geostring/geostring.py:230-238 | the cleanup loop computes the cleaned table |
| Geostring.CleanedRows | geostring/geostring.py:175-177 | every row is cleaned, in order |
| Geostring.CleanRows | geostring/geostring.py:175-177 | the cleaning loop computes the cleaned rows |
| Geostring.GetPlaces | geostring/geostring.py:148-155 | `get_places` on rows keeps exactly the rows whose cell equals some level name |
| Geostring.GetPlacesAppend | geostring/geostring.py:148-155 | filtering a concatenation filters each part, so the kept rows stay in input order |
| Geostring.GetPlacesCount | geostring/geostring.py:148-155 | a row is kept as often as it occurs when its cell equals a level name, and otherwise never |
| Geostring.FilterRows | geostring/geostring.py:179-195 | the filter falls back to all rows when no given list picks a row; otherwise the result is the rows the country list picks, then those the subcountry list picks, then those the city list picks, and it holds exactly the rows some list names |
| Geostring.FilterRowsCount | geostring/geostring.py:181-192 | unless nothing is picked, each row occurs once per list that names it for each time it occurs in the input; a row named by its country and by its city comes twice |
| Geostring.FilterNothing | geostring/geostring.py:194-195 | without filter lists every row is kept |
| Geostring.LocIndexOf | geostring/geostring.py:241-282 | building raises `UnboundLocalError` exactly when there is no nickname table |
| Geostring.CreateLocIndex | geostring/geostring.py:165-284 | `create_loc_index` computes the index |
| Geostring.LocIndexOverlay | geostring/geostring.py:282 | the finished keys are the gazetteer keys, then new nickname keys; a nickname entry overwrites a colliding key and every other gazetteer entry is kept |
| Geostring.GazetteerEntry | geostring/geostring.py:227-238 | the empty key is gone; every other merged key is present with its tidied entry; subcountry and country fields are canonical |
| Geostring.NicknameCanonical | geostring/geostring.py:275-280 | every nickname entry has all three fields canonical |
| Geostring.GetGeoInfo | geostring/geostring.py:10-50 | `get_geo_info` computes the record for a token |
| Geostring.ExactMatch | geostring/geostring.py:19-49 | exact mode: a hit gives distance 0, tolerance 0 and the entry verbatim; a hit on the empty key raises `ZeroDivisionError`; a miss gives no fields, distance 1 and tolerance 1 |
| Geostring.FuzzyMatch | geostring/geostring.py:24-49 | fuzzy mode: no match exactly when every key is 1000 or more away (then distance 1000); otherwise the first key at the minimum distance, with its entry's fields |
| Geostring.MatchTokens | geostring/geostring.py:342-350 | construction computes the record list of the tokens |
| Geostring.ResolveWith | geostring/geostring.py:52-146 | `resolve` builds the records and resolves them, with the tolerance forced to 0 in exact mode |
| Geostring.ResolveEmpty | geostring/geostring.py:342 | the empty input resolves to `None` |
| Geostring.ExactSurvivors | geostring/geostring.py:56-73 | in exact mode a record survives exactly when its token hit a key |
| Geostring.AnyContained | geostring/geostring.py:160-163 | `any(c in field for c in level)` holds exactly when some level name is a substring of the field |
| Geostring.PlacesIn | geostring/geostring.py:157-163 | `get_places(..., False)` keeps exactly the entries whose field contains some level name, unchanged |
| Geostring.SubsetEntries | geostring/geostring.py:292-304 | the subset holds exactly the entries some given filter list mentions, unchanged |
| Geostring.SubsetKey | geostring/geostring.py:292-304 | one key of the subset: picked exactly when a filter list mentions its entry |
| Geostring.AddPickedKey | geostring/geostring.py:293-296 | one `update` with a filter list's picks adds exactly the picked keys |
| Geostring.DefaultIndex.constructor | geostring/geostring.py:319-320 | the default index starts as the full index |
| Geostring.DefaultIndex.Subset | geostring/geostring.py:286-314 | `subset_locations` rebinds the default to the subset only when the subset is non-empty |
| Geostring.DefaultIndex.Restore | geostring/geostring.py:316-317 | `restore_locations` rebinds the default to the full index |
| Geostring.DefaultIndex.Resolve | geostring/geostring.py:52-58 | `resolve` works against the current default index |
| GeostringLegacy.PlacesOf | build/lib/geostring/geostring.py:103-122 | the rows as the table loop reads them: normalized keys, lower-cased display values |
| GeostringLegacy.GazetteerIndexOf | build/lib/geostring/geostring.py:124-145 | building raises `KeyError('')` exactly when the merged index has no empty key; otherwise the empty key is gone and `georgia` holds the hand-written entry |
| GeostringLegacy.LocIndexOf | build/lib/geostring/geostring.py:96-167 | building succeeds exactly when the gazetteer builds and a nickname table exists |
| GeostringLegacy.LocIndexOverlay | build/lib/geostring/geostring.py:165 | the finished keys are the gazetteer keys, then new nickname keys; a nickname entry overwrites any colliding key and every other gazetteer entry is kept |
| GeostringLegacy.CreateLocIndex | build/lib/geostring/geostring.py:96-167 | `create_loc_index` computes the index |
| GeostringLegacy.BuildFails | build/lib/geostring/geostring.py:133 | building raises `KeyError('')` exactly when no row normalizes to an empty city, subcountry or country key |
| GeostringLegacy.NoNicknames | build/lib/geostring/geostring.py:147-165 | without a nickname table a gazetteer that builds ends in `UnboundLocalError` |
| GeostringLegacy.GeorgiaOverride | build/lib/geostring/geostring.py:145-165 | `georgia` holds the hand-written entry unless a nickname overwrites it |
| GeostringLegacy.GazetteerKeeps | build/lib/geostring/geostring.py:133-145 | apart from `''` and `georgia` every merged key keeps its tidied entry |
| GeostringLegacy.CityOnlyEntry | build/lib/geostring/geostring.py:107-112 | a key only cities have holds a lower-cased raw city name of one of its rows |
| GeostringLegacy.CityNameNotStripped | build/lib/geostring/geostring.py:112 | in the finished gazetteer such a key's city name is only lower-cased, not stripped |
| GeostringLegacy.GetGeoInfo | build/lib/geostring/geostring.py:9-28 | `get_geo_info` computes the record for a token |
| GeostringLegacy.LegacyMatch | build/lib/geostring/geostring.py:12-27 | the record is for the first key at the minimum distance, with its entry's fields; `KeyError(None)` exactly when every key is 1000 or more away |
| GeostringLegacy.MatchTokens | build/lib/geostring/geostring.py:180-184 | construction computes the record list of the tokens |
| GeostringLegacy.Resolve | build/lib/geostring/geostring.py:30-94 | `resolve` builds the records and resolves them |
| GeostringLegacy.VerboseHarmless | build/lib/geostring/geostring.py:32-35 | every record names its key, so `verbose` never changes the outcome |

## Left out

- Reading the CSV files with pandas and locating them with `os.path`: the gazetteer and nickname rows are parameters. Rows always have the source's column count.
- `print` output: it only observes. The `TypeError` that the verbose message raises is modelled.
- Building the index when the class body runs: modelled as `Geostring.DefaultIndex.constructor`. `DefaultIndex` assumes the default nickname file is present.
- Transliteration and edit distance: foreign libraries, taken as the functions of `Externals`. Their guarantees appear only as named predicates (`TranslitFixesAscii`, `DistanceBounded`).
- General regular expressions: only the default key pattern `[^a-z]` and the default delimiter list are modelled.
- `str.lower`: ASCII case mapping only; there is no Unicode case mapping. (`str.strip` uses Python's full whitespace set.)
- Tolerances: Dafny `real` instead of Python floats; there is no rounding.
- The `Geostring` object: only its `results` list is modelled (`ResultsOf`). `geo_input`, `re_sub` and `delimiters` are only stored there.
- `get_places` with `list_out=True` on the index, and the dictionary comprehension on row lists: neither is ever called that way.
- IndexBuild.Lookup: its blank default for a missing key is never reached; every table lookup in the row loops is of a key placed beforehand.
- IndexBuild.CleanUp: requires a well-formed dictionary (distinct keys matching the value map), which every Python dict is.
