# composer-analyzer in Dafny

A model of the pure logic of composer-analyzer, with proofs about it.
composer-analyzer takes a list of tracks (`artist - title` or `artist<TAB>title` rows) and looks up each track's songwriters.
It asks Muso first; the MusicBrainz and Spotify fallbacks are written but currently disabled in the handler.
It then offers the results as a CSV download.

Every network call is an oracle parameter: a Dafny function from the query to a `Result`.
A `Failure` is an exception as `String(err)` renders it.
A `Success(None)` is a `null`, a missing field or a `!res.ok` answer.

| file | module | models |
|---|---|---|
| `base.dfy` | `Base` | `Option`, `Result`, `[...new Set(xs)]` (`Dedup`), `map`, `indexOf`, `Promise.all` (`Gather`), a push-at-most-one loop (`Collect`) |
| `text.dfy` | `Text` | the JavaScript string built-ins the system relies on: `\s`, `trim`, whitespace collapsing, `indexOf`/`includes`, `split` on a literal, on a character class and on the Muso artist joiner, `join`, `filter(Boolean)` |
| `helpers.dfy` | `Helpers` | `lib/helpers.ts`: `clean`, `splitArtists`, `normalizeTitle`, `normalizeArtistName`, `scoreMatch` |
| `musicbrainz.dfy` | `MusicBrainz` | `lib/musicbrainz.ts`: the writer-role filter, both composer extractors, the parent-work link, the query lists and first-hit loops |
| `muso.dfy` | `Muso` | `lib/muso.ts`: artist splitting, candidate filtering, track disambiguation, role-ordered writer extraction, `findMusoComposers` |
| `spotify.dfy` | `Spotify` | `lib/spotify.ts`: `primaryArtist`, the token cache, `findSpotifyISRC` |
| `composers_route.dfy` | `ComposersRoute` | `app/api/composers/route.ts`: row splitting and the records each row adds |
| `page.dfy` | `Page` | `app/page.tsx`: upload rows, field escaping and CSV assembly, and a reader that recovers the CSV's fields |

Three behaviours of the code that are easy to misread:
- `clean` is not idempotent. It strips one pair of quotes per call, so `clean('""a""')` is `'"a"'`, and cleaning that again gives `a`. `Helpers.CleanNotIdempotent` proves this.
- A track for which Muso finds nothing produces no record at all, not an "Unrecognized track" record. `findMusoComposers` always returns an array, so the falsy branch at `app/api/composers/route.ts:43-51` cannot be taken. A row therefore gives zero or one record, not exactly one.
- `findParentWorkComposers` follows only the first `parts`/`backward` relation. When that relation has no work id, the result is `[]`, even if a later one has an id.

## Model

| member | source | states |
|---|---|---|
| Helpers.StripQuotes | lib/helpers.ts:5 | the result is the text between one leading `"`, when there is one, and one trailing `"`, when one is left after that; nothing else is removed |
| Helpers.FixMojibake | lib/helpers.ts:6 | the output contains none of `ï`, `¿`, `½`, and text without them is unchanged |
| Helpers.FixMojibakeAppend | lib/helpers.ts:6 | the replacement works on each part of a text independently |
| Helpers.FixMojibakeChar | lib/helpers.ts:6 | each of `ï`, `¿`, `½` becomes `Ã©`, and every other character stays as it is |
| Helpers.Clean | lib/helpers.ts:1-9 | the empty input gives `""`; the output has no leading or trailing whitespace, every whitespace in it is a single `' '` between non-spaces, it holds none of `ï`, `¿`, `½`, and its non-whitespace characters are exactly those of the repaired, unquoted text |
| Helpers.CleanWords | lib/helpers.ts:1-9 | the output is the words of the repaired, unquoted text, in order, joined with single spaces |
| Text.SquashWords | lib/helpers.ts:7-8 | `.replace(/\s+/g, " ").trim()` gives the maximal runs of non-whitespace, in order, joined with one space each |
| Helpers.CleanEvery | lib/helpers.ts:3-8 | `clean` adds no characters except `' '` and the repair `Ã©`, so every property the input's characters share with those carries over |
| Helpers.CleanUnquotes | lib/helpers.ts:5 | `clean('"' + x + '"') == x` for every already-clean `x` |
| Helpers.CleanStable | lib/helpers.ts:1-9 | text `clean` could have produced that has no quote at either end is returned unchanged |
| Helpers.CleanNotIdempotent | lib/helpers.ts:5 | `clean(clean('""a""')) != clean('""a""')` |
| Helpers.CleanDoublyQuoted | lib/helpers.ts:5 | `clean('""a""') == '"a"'` |
| Helpers.CleanQuoted | lib/helpers.ts:5 | `clean('"a"') == "a"` |
| Helpers.MarkFeaturingUnmarked | lib/helpers.ts:12-14 | text without a ` feat`/` ft` marker is unchanged by the two marker replacements |
| Helpers.SplitArtists | lib/helpers.ts:11-18 | every artist returned is non-empty, tidy, free of `ï`, `¿`, `½` and free of `;` and `,` |
| Helpers.SplitArtistsAround | lib/helpers.ts:15-17 | a `;` or `,` cuts the text into two parts that are split independently, in order |
| Helpers.SplitArtistsSingle | lib/helpers.ts:11-18 | text without separators or markers is one artist, its `clean`ed self, or none when that is empty; `&` is not a separator |
| Helpers.MarkFeaturingFirst | lib/helpers.ts:12-13 | the first ` feat`, in any letter case, after marker-free text becomes `;` together with a dot right after it; in what follows only a ` ft` is still replaced |
| Helpers.MarkFeaturingFt | lib/helpers.ts:12-14 | in text without ` feat`, the first ` ft`, in any letter case, becomes `;` together with a dot right after it |
| Helpers.SplitArtistsFeat | lib/helpers.ts:11-18 | the first ` feat`, in any letter case, after marker-free text separates the names before it from those after it, and after it only ` ft`, `;` and `,` still separate |
| Helpers.SplitArtistsFt | lib/helpers.ts:11-18 | in text without ` feat`, the first ` ft`, in any letter case, separates the names before it from the names after it and its dot |
| Helpers.SplitArtistsSecondFeatKept | lib/helpers.ts:12-13 | of `a feat b feat c`, with either marker in any letter case, the second marker stays inside one name, `clean(b + m + c)`, after the names of `a` |
| Helpers.CutDash | lib/helpers.ts:25 | the result is a prefix of the text; when it is shorter, a `-` follows it and no line break follows that `-`; text without `-` is unchanged |
| Helpers.KeepTitleChars | lib/helpers.ts:26 | only letters, digits and whitespace remain, and text made only of those is unchanged |
| Helpers.KeepTitleCharsAppend | lib/helpers.ts:26 | the filter works on each part of a text independently |
| Helpers.KeepTitleCharsAround | lib/helpers.ts:26 | a character is kept in place exactly when it is a letter, a number or whitespace |
| Helpers.NormalizeTitle | lib/helpers.ts:20-29 | the output is tidy and holds only letters, digits and spaces, none of them a capital letter |
| Helpers.NormalizeTitleNoPunctuation | lib/helpers.ts:20-29 | the output contains no `(`, `)`, `[`, `]` or `-` |
| Helpers.NormalizeTitleIdempotent | lib/helpers.ts:20-29 | normalising a normalised title changes nothing |
| Helpers.NormalizeTitleStable | lib/helpers.ts:20-29 | every tidy text of lower-case letters, digits and single spaces is its own normal form |
| Helpers.NormalizeTitlePlain | lib/helpers.ts:20-29 | a title of letters, digits and whitespace only normalises to its lower-cased words joined with single spaces |
| Helpers.NormalizeTitleDropsParentheses | lib/helpers.ts:23 | a one-line `( … )` group is removed as if it were not there |
| Helpers.NormalizeTitleDropsBrackets | lib/helpers.ts:24 | a one-line `[ … ]` group is removed as if it were not there |
| Helpers.NormalizeTitleGroupsAfter | lib/helpers.ts:20-29 | a plain title followed by a one-line `( … )` group and a one-line `[ … ]` group normalises to the plain title's lower-cased words, as `"Song (feat. X) [Remix]"` gives `"song"` |
| Helpers.NormalizeTitleCutsAtDash | lib/helpers.ts:25 | a title is normalised as its text before the first `-` |
| Helpers.SpellAnd | lib/helpers.ts:38 | the output has no `&`, and text without `&` is unchanged |
| Helpers.SpellAndSplices | lib/helpers.ts:38 | each `&` becomes `and` in place |
| Helpers.DropNamePunctuation | lib/helpers.ts:39 | the output holds no `,`, `.` or `-` and is no longer than the input |
| Helpers.DropFeaturing | lib/helpers.ts:40 | the output is no longer than the input, and text with no whole-word `feat`/`ft`/`featuring` is unchanged |
| Helpers.DropFeaturingAt | lib/helpers.ts:40 | everything from a whole-word featuring word to the end of its line is dropped |
| Helpers.NormalizeArtistName | lib/helpers.ts:35-43 | the output is tidy and contains no `&`, `,`, `.`, `-` or capital letter |
| Helpers.NormalizeArtistNameDropsFeaturing | lib/helpers.ts:35-43 | a name is normalised as its text before a whole-word `feat`/`ft`/`featuring` |
| Helpers.NormalizeArtistNameStable | lib/helpers.ts:35-43 | every tidy name without capitals, `&`, `,`, `.`, `-` or featuring word is its own normal form |
| Helpers.NormalizeArtistNamePlain | lib/helpers.ts:35-43 | a name without `&`, `,`, `.`, `-` or featuring word normalises to its lower-cased words joined with single spaces |
| Helpers.NormalizeArtistNameSpellsAnd | lib/helpers.ts:38 | `&` normalises exactly like the word `and` in its place |
| Helpers.NormalizeArtistNameDropsPunctuation | lib/helpers.ts:39 | a `,`, `.` or `-` is deleted without leaving a space |
| Helpers.ScoreMatch | lib/helpers.ts:45-66 | the score lies in [10·overlap − 10, 10·overlap + 30], with separate bands for exact, partial and no title match; an exact title scores exactly 10·overlap + 30, or 10·overlap + 20 when it is a remix/cover/version/live title; a variant title scores at most 10·overlap + 20 |
| Helpers.ScoreMatchOverlap | lib/helpers.ts:54 | each overlapping artist is worth exactly 10 points |
| Helpers.ScoreMatchExact | lib/helpers.ts:57-58 | an exact title match scores the same whatever `titleMatch` says |
| Helpers.ScoreMatchVariant | lib/helpers.ts:57-63 | a variant word, in any case, in the Muso title costs exactly 10 points against a plain title that is equal to its own input title exactly when the variant one is |
| MusicBrainz.WriterNamesSpec | lib/musicbrainz.ts:117-127 | a name is collected iff it is the `clean`ed, non-empty artist name of a relation whose type is a writer type |
| Base.DedupOrder | lib/musicbrainz.ts:133-146 | collecting into a `Set` and spreading it lists each element of `xs` once, at the place of its first occurrence |
| Base.DedupIsFirstSeen | lib/muso.ts:159 | a duplicate-free list with the same elements in first-occurrence order is `[...new Set(xs)]` |
| MusicBrainz.ExtractComposersFromWork | lib/musicbrainz.ts:132-146 | the result has no duplicates, missing relations give `[]`, a name is in it iff some writer-typed relation with a non-empty artist name has it, and the names are in the order of their first writer relation |
| MusicBrainz.NamelessRelationIgnored | lib/musicbrainz.ts:138-140 | a relation without an artist name adds nothing |
| MusicBrainz.ComposerNotPerformer | lib/musicbrainz.ts:132-146 | a composer relation next to a non-writer relation gives just the composer's `clean`ed name |
| MusicBrainz.AttachedNamesSpec | lib/musicbrainz.ts:101-105 | a name comes from an attached work iff one of the recording's relations carries a work whose own relations have a writer with that name |
| MusicBrainz.CreditNamesSpec | lib/musicbrainz.ts:108-112 | a name comes from the credits iff a writer-typed credit has it, with no check that it is non-empty |
| MusicBrainz.ExtractComposersFromRecording | lib/musicbrainz.ts:95-115 | the result has no duplicates, a recording without relations or credits gives `[]`, and the names are in the order of their first appearance among the relation names, the attached-work names and the credit names |
| MusicBrainz.RecordingComposersSpec | lib/musicbrainz.ts:95-115 | a name is in the result iff it comes from the top-level relations, from an attached work, or from the credits |
| MusicBrainz.RecordingStartsWithRelationNames | lib/musicbrainz.ts:98 | the work extractor's result on the same relations is a prefix of the recording result |
| MusicBrainz.NamelessCreditKept | lib/musicbrainz.ts:108-110 | a writer-typed credit without a name puts `""` into the result |
| MusicBrainz.FirstParentLink | lib/musicbrainz.ts:149-151 | the result is the first relation of type `parts` and direction `backward`, or none when there is no such relation |
| MusicBrainz.ParentWorkId | lib/musicbrainz.ts:149-153 | an id is produced only when it is non-empty and comes from a parent link |
| MusicBrainz.FindParentWorkComposers | lib/musicbrainz.ts:148-157 | with no parent id the result is `[]`; a successful parent lookup gives the work extractor's names for that work; the call fails only when the parent lookup fails |
| MusicBrainz.FirstParentLinkDecides | lib/musicbrainz.ts:149-153 | a first parent link without a work id gives `[]` whatever follows it |
| MusicBrainz.ParentLinkLookedUp | lib/musicbrainz.ts:149-155 | a first parent link with a work id is the one looked up |
| MusicBrainz.FirstHitIndex | lib/musicbrainz.ts:210-222 | the position found is the first query whose search answers with a non-empty list |
| MusicBrainz.FirstHit | lib/musicbrainz.ts:210-228 | the result is `null` iff no query hits; otherwise it is the first result of the earliest query that hits; a thrown search counts as a miss |
| MusicBrainz.SearchesIssued | lib/musicbrainz.ts:210-222 | no more searches than queries are issued, fewer only when the last search issued hit, every search before the last one issued missed, and no search after the first hit is issued |
| MusicBrainz.FirstHitIgnoresLater | lib/musicbrainz.ts:219-221 | answers to queries after the first hit cannot change the result |
| MusicBrainz.FirstHitAppend | lib/musicbrainz.ts:210-228 | earlier queries take priority: a hit among them wins, and otherwise the later ones decide |
| MusicBrainz.WorkQueriesFor | lib/musicbrainz.ts:194-208 | exactly 2k + 4 queries for k artists: exact clean and normalised title per artist, then both exact titles, then both fuzzy titles |
| MusicBrainz.WorkQueriesWithoutArtists | lib/musicbrainz.ts:202-208 | without artists only the four title queries remain |
| MusicBrainz.FirstArtistQueryWins | lib/musicbrainz.ts:197-221 | a hit for the clean title with the first artist is the result |
| MusicBrainz.RecordingQueriesFor | lib/musicbrainz.ts:63-69 | one query per split artist, in order, all with the normalised title |
| MusicBrainz.FindRecordingByTextHit | lib/musicbrainz.ts:59-75 | a result is the first recording of the first split artist whose search hits, and without artists there is none |
| MusicBrainz.FindWorkLucene | lib/musicbrainz.ts:171-187 | a failing search gives `null` |
| MusicBrainz.FindWorkLuceneIsFirstHit | lib/musicbrainz.ts:171-187 | the result is the first hit of the single quoted `work: … AND artist: …` query |
| Muso.SplitArtists | lib/muso.ts:13-18 | every artist is non-empty, trimmed and free of `,` and `&`, and there are no more artists than pieces |
| Muso.SplitArtistsAround | lib/muso.ts:15-17 | a `,` or `&` ends an artist name, and the rest is split on its own |
| Muso.SplitArtistsSingle | lib/muso.ts:13-18 | a name without a joiner is one trimmed artist, or none when it is blank |
| Muso.SplitArtistsAmpersand | lib/muso.ts:15 | `a & b` gives the two trimmed names, unlike the `splitArtists` of `lib/helpers.ts` |
| Muso.SplitArtistsMarker | lib/muso.ts:15 | a ` feat` or ` ft` marker in any letter case, with a dot right after it, ends an artist name, and the rest is split on its own |
| Muso.SplitArtistsTwoFeat | lib/muso.ts:13-18 | `a feat b` or `a ft b`, in any letter case, gives the trimmed names `a` and `b` |
| Muso.SplitArtistsEveryFeat | lib/muso.ts:13-18 | `a feat b feat c`, with each marker ` feat` or ` ft` in any letter case, gives three trimmed names: every marker separates, unlike the `splitArtists` of `lib/helpers.ts` |
| Muso.SplitArtistsThreeNames | lib/muso.ts:13-18 | for capital letters X, Y and Z, `X feat Y feat Z` gives exactly the three names X, Y and Z |
| Text.ReplaceFirstMarkerAt | lib/helpers.ts:12-14 | `replace(/ feat\.?/i, r)` or `replace(/ ft\.?/i, r)` on marker-free text followed by a marker in any letter case replaces exactly that marker and a dot right after it |
| Text.SplitArtistJoinerMarker | lib/muso.ts:15 | a split on `/,\|&\| feat\.?\| ft\.?/i` of joiner-free text followed by a marker in any letter case gives that text, then the split of what follows the marker and its dot |
| Muso.Candidates | lib/muso.ts:62-69 | the call throws iff some item's track has an id but no title; otherwise exactly the accepted tracks are kept, in order |
| Muso.CandidatesAppend | lib/muso.ts:64-68 | the filter treats items independently and keeps their order |
| Muso.FilterTracks | lib/muso.ts:62-69 | every kept track has an id and a title whose normalised form contains the normalised input title, and every such track is kept |
| Muso.TracksViaProfile | lib/muso.ts:44-70 | a missing answer gives `[]`, a thrown request fails the call, a credits answer is filtered exactly as `FilterTracks` does, and every track returned has an id and a title whose normalised form contains the normalised input title |
| Muso.FullIndex | lib/muso.ts:128-130 | the first entry counted the given number of times, or none |
| Muso.ChooseTrack | lib/muso.ts:112-136 | the chosen track is one of the candidates, nothing is chosen only when the first list is empty, and with a single artist the choice is its first candidate |
| Muso.TallyIds | lib/muso.ts:116-126 | the counted ids are the distinct track ids in first-seen order |
| Muso.TallyCounts | lib/muso.ts:116-126 | each count is the number of occurrences of its id across all lists |
| Muso.TallyFirst | lib/muso.ts:120-121 | each entry keeps the first track seen with its id |
| Muso.FirstCommon | lib/muso.ts:115-135 | reference definition of the intended choice: the first track of the first list whose id every list has |
| Muso.FullCountIsCommon | lib/muso.ts:128-130 | when ids are unique within each list, a full count means the id is in every list, and the converse holds |
| Muso.IntersectionWins | lib/muso.ts:115-135 | with ids unique within each list, the choice is the first common track of the first list, or else that list's first candidate |
| Muso.DuplicatesInflateCount | lib/muso.ts:118-130 | a track listed twice for one artist is chosen although the other artist lacks it |
| Muso.RoleNames | lib/muso.ts:150-156 | the names of a role are exactly the non-empty names listed under it |
| Muso.ComposerNames | lib/muso.ts:146-159 | the names have no duplicates, a name is present iff it is non-empty and listed under Composer, Lyricist or Songwriter, and the names are in first-seen order over the Composer, then Lyricist, then Songwriter lists |
| Muso.LyricistBeforeSongwriter | lib/muso.ts:150-159 | a Lyricist name comes before every name first listed under Songwriter |
| Muso.ComposersFirst | lib/muso.ts:150-159 | the Composer names come first, in order |
| Muso.Present | lib/muso.ts:96-98 | exactly the profiles found are kept, no profile found gives none, and a profile found first comes first |
| Muso.PresentAppend | lib/muso.ts:96-98 | the filter works on each part of the list separately and keeps their order |
| Muso.ChosenTrack | lib/muso.ts:93-140 | a chosen track has an id, and no artist gives no track |
| Muso.FindMusoComposers | lib/muso.ts:90-160 | the result is duplicate-free and never contains `""`; no track or no collaborators give `[]`; otherwise it is the role-ordered writer list of the chosen track |
| Muso.NoProfilesNoComposers | lib/muso.ts:96-102 | when no artist resolves to a profile, no track is chosen and the result is `[]` |
| Spotify.PrimaryArtist | lib/spotify.ts:6-13 | the primary artist is clean text |
| Spotify.PrimaryArtistIsFirstArtist | lib/spotify.ts:6-13 | when the primary artist is non-empty it is the first artist `splitArtists` of `lib/helpers.ts` gives |
| Spotify.GetToken | lib/spotify.ts:15-46 | no request is made iff the cached token is non-empty and more than a minute from expiry; a reuse returns the cached token; a failure leaves the cache unchanged; a grant stores the token and expiry `now + 1000·expires_in`; `!res.ok` throws `Error: Spotify token request failed` |
| Spotify.FirstCallRequests | lib/spotify.ts:3-4 | the first call after start-up always asks for a token |
| Spotify.GrantedTokenReused | lib/spotify.ts:18-19 | a granted token is reused, with no request, until one minute before it expires |
| Spotify.StaleStaysStale | lib/spotify.ts:18 | a token too close to expiry stays so for every later call |
| Spotify.FailedRefreshRetries | lib/spotify.ts:36-39 | after a failed refresh the next call asks again |
| Spotify.SearchQuery | lib/spotify.ts:51-54 | the query is `track:` then the clean title, then ` artist:` then the primary artist, both fields tidy |
| Spotify.MatchOf | lib/spotify.ts:76-94 | a match exists iff there is a first item and it has an ISRC; the match carries that ISRC, the id, the name and the artists joined with `", "` |
| Spotify.FindSpotifyIsrc | lib/spotify.ts:48-95 | the token is obtained first and its failure fails the call; a `!res.ok` search gives `null`; otherwise the first item is shaped; the cache is that of the token step |
| ComposersRoute.RowFields | app/api/composers/route.ts:21-23 | a row with `" - "` is split there and neither field contains it; otherwise it is split on tab and neither field contains a tab; the artist is a prefix of the row |
| ComposersRoute.DashRowFields | app/api/composers/route.ts:21-22 | the artist is the text before the first `" - "`, and the title is the text from there to the next `" - "` or the end |
| ComposersRoute.TabRowFields | app/api/composers/route.ts:21-23 | without `" - "`, the artist is the text before the first tab and the title the text from there to the second tab or the end; a row without a tab is all artist, with title `""` |
| ComposersRoute.DashRow | app/api/composers/route.ts:21-22 | `artist - title` gives back both fields |
| ComposersRoute.TabRow | app/api/composers/route.ts:21-23 | `artist<TAB>title` gives back both fields |
| ComposersRoute.PlainRow | app/api/composers/route.ts:21-26 | a row with neither separator is all artist, with title `""` |
| ComposersRoute.ParseRow | app/api/composers/route.ts:25-26 | both fields are `clean`ed, and a missing title is `""` |
| ComposersRoute.RowRecord | app/api/composers/route.ts:41-65 | a row adds no record iff Muso finds `[]`; a failure gives the `["ERROR"]` record with the error text; otherwise a `MUSO` record with the composers; `isrc` is always `null` |
| ComposersRoute.Post | app/api/composers/route.ts:16-171 | at most one record per row, each either a Muso record or an error record |
| ComposersRoute.PostAppend | app/api/composers/route.ts:20-168 | rows are handled independently and their records keep row order |
| ComposersRoute.ErrorRowContinues | app/api/composers/route.ts:158-167 | a failing row adds its error record, and the following rows are still handled |
| ComposersRoute.SilentRowSkipped | app/api/composers/route.ts:53-65 | a row for which Muso finds no composers adds no record |
| ComposersRoute.ComposedRowRecorded | app/api/composers/route.ts:53-65 | a row with composers adds exactly one `MUSO` record holding them |
| Page.UploadRows | app/page.tsx:19-22 | every row is non-empty, trimmed and one line long |
| Page.UploadRowsAppend | app/page.tsx:19-22 | rows keep file order |
| Page.UploadRowsLine | app/page.tsx:19-22 | a single line gives its trimmed self, or nothing when it is blank |
| Page.Escape | app/page.tsx:73-76 | an escaped field starts and ends with `"` |
| Page.UnescapeEscape | app/page.tsx:73-76 | stripping the outer quotes and un-doubling gives the text back |
| Page.ReadFieldEscape | app/page.tsx:73-76 | a CSV reader reads an escaped field back as its text and stops right after it |
| Page.ReadLineOf | app/page.tsx:79 | a written line is read back as exactly its fields |
| Page.ReadCsvOf | app/page.tsx:78-80 | a written CSV is read back as exactly its lines of fields |
| Page.ExportFields | app/page.tsx:67-71 | every line has three fields |
| Page.Export | app/page.tsx:57-84 | nothing is exported iff there are no results; otherwise the content starts with U+FEFF and reads back as the header followed by one three-field line per result |
| Page.ExportRecords | app/page.tsx:61-80 | the export of the handler's records has one line per record after the header, holding its artist, title and composers joined with `"; "` |

## Left out

- HTTP, JSON decoding, environment variables and base64: provider answers are oracle parameters, and a `!res.ok` answer is `Success(None)` where the code returns `null`.
- `Promise.all` (`lib/muso.ts:96`, `lib/muso.ts:105`) is a sequential map. When several calls fail, the model reports the first failure in list order. The real rejection is whichever fails first in time.
- Logging (`logStep`, `console.*`) and the MusicBrainz client's rate limit have no effect on results.
- The fallback chain commented out in `app/api/composers/route.ts` (lines 67-157) is not behaviour. The route's `"Unrecognized track"` branch cannot be taken and is not modelled.
- A row that is not a string would throw before the `try` in the handler; rows are strings here.
- React state, the DOM, `Blob` and object URLs in `app/page.tsx`; the page's error-message selection after a failed upload; the `.join` on a sentinel string, since composers are always a list here.
- Unicode:
  - NFC normalisation is the identity.
  - `toLowerCase` covers ASCII and Latin-1.
  - `\p{L}` and `\p{N}` cover ASCII, Latin-1 and Latin Extended-A/B.
  - `\s` and the `trim` set are exact.
- `Date.now` is the parameter `now`.
- Spotify.GetToken: a non-numeric `expires_in` (which makes the expiry `NaN` in the system) is not modelled; `expires_in` is an integer.
- Spotify.FindSpotifyIsrc: a first item without an `artists` array (which throws in the system) is not modelled; `artists` is always a list.
- Muso.Candidates: a `null` item in `data.items` (which throws at `i.track`) is not modelled; items are optional tracks.
- MusicBrainz.FindWorkAdvanced and MusicBrainz.FindRecordingByText are thin compositions with no contract of their own. Their properties are stated on `WorkQueriesFor`, `FirstHit`, `RecordingQueriesFor` and `FindRecordingByTextHit`.
- `loadWork`, `loadRecordingDetails`, `findRecordingByISRC` and `findWorkByText` are single client calls. They appear only as oracle parameters.
- `findMusoProfile` and `loadMusoCollaborators` in `lib/muso.ts` are single requests. They are the `profile` and `collaborators` fields of `Muso.Api`.
- MusicBrainz.ExtractComposersFromRecording: a `null` entry in `artist-credit` (which throws at `ac.type` in the system) is not modelled.
