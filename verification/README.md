# mixtape-ui, modelled in Dafny

mixtape-ui lets a sender build a "mixtape" of up to five YouTube videos and hand it to a recipient as one link. It has three core pieces:

- **The form** (`app/page.js`). It keeps one to five url rows. The "create" action drops blank rows, extracts a video id of 11 UTF-16 code units from each url, and navigates to `/player?v=<ids joined by ','>&to=<encoded name>`. With no id it shows an error.
- **The API route** (`app/api/mixtape/route.js`). It takes the same fields as a form post. It answers 400 when the name or the urls are missing, and otherwise 200 with the mixtape record and the same kind of player link.
- **The tape player** (`app/player/page.js`). It reads the link back into a tape of tracks and the recipient's name. It drives an embedded video player through insert, eject, play/pause, previous and next, and through the callbacks of the video player.

The model is a set of pure functions over immutable data:

- **`YoutubeId`** models the extractor's regular expression `^.*(youtu.be\/|v\/|u\/\w\/|embed\/|watch\?v=|&v=)([^#&?]*).*` without a regex engine. The match position is the rightmost alternative that starts on the first line, because the leading `.*` is greedy. The capture is the longest run of characters other than `#`, `&` and `?`. The pattern has no `u` flag, so it works on UTF-16 code units. The `.` of `youtu.be` takes one code unit, and the 11 that `length` must equal are code units, so a character above U+FFFF counts twice. The repository has three copies of this extractor, and all three have the same behaviour.
- **`YoutubeIdFacts`** holds consequences of that definition: which links yield which ids.
- **`UriComponent`** models `encodeURIComponent` and `decodeURIComponent`, with the UTF-8 encoder and the UTF-8 decoder of the Encoding standard.
- **`SearchParams`** models how the player reads its query with `URLSearchParams`. The query splits on `&`, and each field splits at its first `=`. Names and values are decoded as `application/x-www-form-urlencoded`: `+` is a space, `%XY` is a byte, and the bytes are read as UTF-8 with U+FFFD for malformed sequences. `get` returns the first field with that name.
- **`Handoff`** models the link between the form and the player, including how a URL parser cuts the query out of the link.
- **`MixtapeForm`**, **`MixtapeRoute`** and **`TapePlayer`** model the three pages.
- In `TapePlayer`, each handler and each video-player callback is one atomic step from state to state. The calls made on the video player are recorded as a list of effects.
- **`Scenarios`** works concrete links through the model. **`LinkScenarios`** does the same for link reading, over whole families of ids.
- **`Seqs`**, **`Nullable`** and **`Numerals`** are generic helpers: filter, map, join, split, nullable values and decimal numerals.

## Model

| member | source | states |
|---|---|---|
| YoutubeId.MarkerAt | app/page.js:30 | The six alternatives begin with six different characters, so at most one matches at any position. The returned alternative is that one. The `.` of `youtu.be` is one UTF-16 code unit that is not a line terminator. |
| YoutubeId.Utf16Length | app/page.js:32 | `length` counts UTF-16 code units: at least one and at most two per character. |
| YoutubeId.Utf16LengthIsCount | app/page.js:32 | `length` equals the number of characters if and only if every character lies in the Basic Multilingual Plane. |
| YoutubeId.Utf16LengthAppend | app/page.js:32 | The `length` of a concatenation is the sum of the two lengths. |
| YoutubeId.FirstLineEnd | app/page.js:30 | The leading `.*` reaches exactly to the first line terminator: nothing before it is a terminator, and the character there is one. |
| YoutubeId.MatchStart | app/page.js:30-31 | The greedy `.*` backtracks to the last position on the first line where an alternative matches. When it finds none, there is no candidate anywhere. |
| YoutubeId.GroupAt | app/page.js:30 | The capture `([^#&?]*)` is the maximal run after the marker: it holds no delimiter, and it ends at the end of the input or at a delimiter. |
| YoutubeId.CaptureIsMatch | app/page.js:30-31 | The pattern matches exactly when some candidate exists. Its second group is then the group after the regex's match position. |
| YoutubeId.MatchPositionUnique | app/page.js:30-31 | The match position is unique. |
| YoutubeId.GetYoutubeId | app/page.js:29-33 | A returned id has a `length` of exactly 11 UTF-16 code units and holds none of `#`, `&` and `?`. |
| YoutubeId.GetYoutubeIdIsMatch | app/page.js:29-33 | An id comes back if and only if the group at the match position has a `length` of 11 UTF-16 code units. The id is then that group. |
| YoutubeIdFacts.IdFollowsMarker | app/page.js:29-33 | Every returned id appears in the url right after an alternative that starts on the first line. It is followed by a delimiter or by the end of the url. |
| YoutubeIdFacts.ExtractsFromLink | app/page.js:29-33 | Take a first-line prefix, the usual spelling of any alternative, an 11-character id of `\w`/`-` characters and a plain query such as `?t=30`. Any such url yields that id. |
| YoutubeIdFacts.LaterAmpVOverrides | app/page.js:30 | In `...watch?v=<a>&v=<b>` the later `&v=` decides the match, so the id is `b`. |
| YoutubeIdFacts.LaterShortRunGivesNull | app/page.js:30-32 | A well-formed id after `watch?v=` does not rescue a later `&v=` whose run is not 11 characters long. The result is null. |
| YoutubeIdFacts.IdCharsLength | app/page.js:32 | For a run of `\w`/`-` characters, `length` is the number of characters. |
| YoutubeIdFacts.AstralCharCountsTwice | app/page.js:29-33 | Nine id characters followed by one character above U+FFFF, such as `youtu.be/aaaaaaaaa😀`, make an 11-unit capture. That capture is returned. |
| YoutubeIdFacts.AstralWildcardGivesNull | app/page.js:30 | A character above U+FFFF in place of the `.` of `youtu.be` does not match it. With no other `/`, `#`, `&` or `?` in the text, as in `youtu😀be/aaaaaaaaaaa`, the result is null. |
| YoutubeIdFacts.NoIdWithoutAnchor | app/page.js:29-33 | Every alternative holds a `/`, `?` or `&`, so a url without `/`, `#`, `&` and `?` yields no id. |
| YoutubeIdFacts.NoIdWithoutMarkerInitial | app/page.js:29-33 | A url without any of `y v u e w &` yields no id. |
| UriComponent.HexDigit | app/page.js:51 | Escapes use the upper-case hex digits `0-9A-F`, and each digit reads back as its value. |
| UriComponent.Utf8 | app/page.js:51 | A character takes 1 to 4 bytes. ASCII is one byte, itself. Continuation bytes lie in 0x80..0xBF. |
| UriComponent.EncodeChar | app/page.js:51 | An unreserved character stays as it is. Any other character becomes `%`-escapes. |
| UriComponent.Encode | app/page.js:51 | The encoded name consists of unreserved characters and `%` only, so it can hold no `&`, `=` or `,`. It is never shorter than the input. |
| UriComponent.EncodeIdentity | app/page.js:51 | Encoding changes nothing if and only if every character is unreserved. |
| UriComponent.EncodeDecodesToUtf8 | app/page.js:51 | Inverse: decoding the escapes of the encoded text gives exactly the UTF-8 bytes of the original. |
| UriComponent.EncodeAppend | app/page.js:51 | Encoding works character by character: it distributes over concatenation. |
| UriComponent.DecodeFirst | app/player/page.js:64 | One step of the UTF-8 decoder consumes between 1 and all of the remaining bytes. A successful step yields a Unicode scalar value, and consumes exactly one byte exactly when that byte is ASCII. |
| UriComponent.Utf8RoundTrip | app/player/page.js:64 | Inverse of the UTF-8 encoder: decoding the bytes of a string gives the string back, under both the lenient and the strict decoder. |
| UriComponent.DecodeComponent | app/player/page.js:64 | When `decodeURIComponent` does not throw, its result is the UTF-8 reading of the bytes that the escapes spell. |
| UriComponent.DecodeComponentOfEncode | app/player/page.js:64 | Inverse: `decodeURIComponent` undoes `encodeURIComponent`. |
| UriComponent.DecodeComponentPlain | app/player/page.js:64 | Text without `%` decodes to itself. |
| UriComponent.LoneEscapeThrows | app/player/page.js:64 | A `%` without two hex digits after it makes `decodeURIComponent` throw a `URIError`. |
| SearchParams.PercentDecode | app/player/page.js:56-57 | Form decoding never lengthens a byte run. A `%` without two hex digits after it stays as it is. |
| SearchParams.Lookup | app/player/page.js:56-57 | `get` returns null if and only if no non-empty field has the decoded name. Otherwise it returns the decoded value of the first such field. |
| SearchParams.PairParts | app/player/page.js:56-57 | A field `name=value` whose name holds no `=` splits back into that name and that value. |
| SearchParams.DecodeUnescaped | app/player/page.js:56-57 | Without `%`, decoding only turns each `+` into a space. |
| SearchParams.DecodePlain | app/player/page.js:56-57 | Text without `+` and `%` decodes to itself. |
| SearchParams.DecodeEscaped | app/player/page.js:56-57 | Without `+`, form decoding of well-formed escaped text agrees with `decodeURIComponent`. |
| SearchParams.DecodeEncoded | app/player/page.js:57 | Inverse: form decoding undoes `encodeURIComponent`. |
| Handoff.PlayerTarget | app/page.js:52-55 | The link starts with `/player?`. Its query is exactly two `&`-joined fields, `v=<ids joined by ','>` then `to=<name>`. |
| Handoff.LinkQuery | app/player/page.js:56-57 | The query the page reads from a link holds no tab, newline or `#`. |
| Handoff.DecodeTracks | app/player/page.js:56-63 | An absent `v` gives no tracks. A present one gives comma-free ids, each with the watch url of its id, and joining those ids with commas gives `v` back. |
| Handoff.TargetFields | app/player/page.js:56-57 | Reading the query of a link whose ids hold no `&` or `#` gives two things. Under `v` it gives the form-decoded comma-joined ids, with tabs and newlines dropped. Under `to` it gives the form-decoded name. |
| Handoff.LinkCarriesName | app/player/page.js:57 | The name the link was made from is exactly what `get('to')` returns, whatever characters it holds. |
| Handoff.ArrivedJoin | app/player/page.js:56 | Dropping tabs and newlines and reading `+` as a space, character by character, commutes with joining ids by commas. |
| Handoff.LinkCarriesIds | app/player/page.js:56-63 | For ids without `&`, `#`, `,` and `%`, the player gets one track per id, in order. Each id loses its tabs and newlines and has each `+` turned into a space. |
| Handoff.LinkCarriesPlainIds | app/player/page.js:56-63 | Inverse of the link: ids without `&`, `#`, `,`, `%`, `+`, tabs and newlines come back exactly. |
| Handoff.HandoffRoundTrip | app/player/page.js:56-63 | Inverse of the link: the player's track ids are exactly the ids the link was made from, in order. This needs at least one id and no commas. |
| Handoff.EmptyHandoffGivesOneBlankTrack | app/player/page.js:56-63 | A link made from no ids reaches the player as one track with an empty id. |
| Handoff.CommaSplitsId | app/player/page.js:56 | An id holding a comma reaches the player as more than one track. |
| MixtapeForm.InitialRows | app/page.js:9 | A fresh form is one empty row, and it has the form's shape. |
| MixtapeForm.AddTrack | app/page.js:13-17 | Below five rows, one empty row with the fresh key is appended and the rows before it are unchanged. At five rows, nothing changes. |
| MixtapeForm.RemoveTrack | app/page.js:19-21 | No remaining row has the removed key. |
| MixtapeForm.RemoveTrackMembers | app/page.js:19-21 | Removal keeps every row with another key and invents none. |
| MixtapeForm.RemoveTrackKeepsOrder | app/page.js:19-21 | Removal keeps order: it distributes over concatenation. |
| MixtapeForm.RemoveAbsentTrack | app/page.js:19-21 | Removing a key that no row has changes nothing. |
| MixtapeForm.RemoveExactlyOne | app/page.js:19-21 | With distinct keys, removing row j's key deletes exactly row j. |
| MixtapeForm.UpdateTrack | app/page.js:23-27 | Only the url of the rows with that key changes. Keys, order and length stay. |
| MixtapeForm.UpdateTwice | app/page.js:23-27 | When the same row is updated twice, the last update wins. |
| MixtapeForm.UpdateWithSameUrl | app/page.js:23-27 | Writing back a row's own url changes nothing. |
| MixtapeForm.OfferedEditKeepsFormValid | app/page.js:130-157 | Three edits are offered: add below five rows, a remove button once there are two rows, and an url field per row. Each keeps one to five rows with distinct keys. |
| MixtapeForm.FormStaysValid | app/page.js:9-27 | After any script of offered edits, the form still has one to five rows with distinct keys. |
| MixtapeForm.TrimStart | app/page.js:41 | Only leading ECMAScript whitespace is removed, and the result does not start with whitespace. |
| MixtapeForm.TrimEnd | app/page.js:41 | Only trailing ECMAScript whitespace is removed, and the result does not end with whitespace. |
| MixtapeForm.TrimmedEmpty | app/page.js:41 | A url is blank if and only if it is all whitespace. |
| MixtapeForm.BlankUrlHasNoId | app/page.js:41-42 | A blank url yields no id. |
| MixtapeForm.ValidIds | app/page.js:40-43 | Every id sent has the extracted shape: a `length` of 11, and no `&`, `#` or `?`. There are at most as many ids as rows. |
| MixtapeForm.ValidIdsRowByRow | app/page.js:40-43 | The filter/map/filter pipeline equals the row-by-row reference: each row contributes its id when non-blank and extractable, in row order. |
| MixtapeForm.ValidIdsIgnoreBlankFilter | app/page.js:40-43 | The blank-row filter never changes the result: the ids are the successful extractions of all rows. |
| MixtapeForm.NameOrDefault | app/page.js:51 | An empty name becomes the non-empty default. Any other name is kept. |
| MixtapeForm.HandleCreateMixtape | app/page.js:35-56 | The form navigates if and only if some id was extracted, and then the error is cleared. Otherwise it shows the error. The target is the player link of those ids and the encoded name. |
| MixtapeForm.CreateLinkFields | app/page.js:50-55 | The link navigated to carries two values. Under `v` is the form-decoded comma-joined ids, with tabs and newlines dropped. Under `to` is the name, or "MY-MIX" when it is empty. |
| MixtapeForm.CreateThenOpen | app/page.js:50-55 | End to end, when no id holds `,` or `%`: the player gets one track per id the form sent, in order, each id as it arrives. |
| MixtapeForm.CreateThenOpenPlain | app/page.js:50-55 | End to end: the player reads back exactly the ids the form sent, in order, when no id holds `,`, `%`, `+`, a tab or a newline. |
| MixtapeRoute.RouteIds | app/api/mixtape/route.js:18-22 | Every id the route keeps has the extracted shape. There are at most as many ids as urls. |
| MixtapeRoute.RouteIdsAreExtractions | app/api/mixtape/route.js:18-22 | `filter(Boolean)` drops exactly the failed extractions, because an extracted id is never empty. |
| MixtapeRoute.Post | app/api/mixtape/route.js:10-37 | The route answers 400 "Missing required fields" if and only if the name is missing or empty, or no url field was sent. Otherwise it answers 200 with the record of the ids and the player link of the ids and the encoded name. |
| MixtapeRoute.PostLinkFields | app/api/mixtape/route.js:36 | The route's link carries two values. Under `v` is the form-decoded comma-joined ids. Under `to` is the name. |
| MixtapeRoute.RouteAcceptsNoValidUrl | app/api/mixtape/route.js:10-22 | When every url fails extraction, the route still answers 200 with no tracks. Its link opens as one blank track. |
| MixtapeRoute.SameIds | app/api/mixtape/route.js:18-22 | The route and the form extract the same ids from the same urls. |
| MixtapeRoute.RouteAgreesWithForm | app/api/mixtape/route.js:18-36 | Given a non-empty name, whenever the form navigates, the route answers 200 with the very same link. |
| MixtapeRoute.RouteAcceptsWhatFormRefuses | app/api/mixtape/route.js:10-15 | Where the form refuses for lack of a valid url, the route answers 200 with no tracks. |
| Numerals.NatToString | app/player/page.js:437 | A number renders as at least one decimal digit, and as a single digit exactly below 10. |
| Numerals.ParseNatToString | app/player/page.js:437 | Inverse: reading a rendered number gives the number back. |
| TapePlayer.FirstRender | app/player/page.js:33-40 | The first render has no tape in, nothing playing and no player, and it satisfies the track invariant. |
| TapePlayer.Open | app/player/page.js:55-65 | Read once, the link gives these tracks: none exactly when `v` is absent, otherwise pieces that re-join to `v`. The name is `to`, or empty without it. Nothing fails, and no error is shown. |
| TapePlayer.OpenAsWritten | app/player/page.js:56-67 | As the page does it, with the second decoding. Initialisation fails exactly when `decodeURIComponent` throws on `to`. It then shows "Failed to initialize player: URI malformed" and keeps the name empty. Otherwise the name is the decoded text and there is no error. |
| TapePlayer.OpenAsWrittenWithoutPercent | app/player/page.js:57-64 | When the decoded `to` holds no `%`, the page's reading and the single reading agree. |
| TapePlayer.TrailingPercentNeverPlays | app/player/page.js:57-67 | Take a name ending in `%`, such as `100%`. Reading its link as the page does shows the initialisation failure, and after any events there is still no player. |
| TapePlayer.OpenShowsSentName | app/player/page.js:57-108 | Read once, the name the form sent is the name shown, with no error. With at least one id, the player then gets built. |
| TapePlayer.FailedInitNeverBuildsPlayer | app/player/page.js:151-160 | After a failed initialisation, no sequence of events builds a player. |
| TapePlayer.HandlePlay | app/player/page.js:208-251 | With no tape, play does nothing. With no player, it shows "not ready". When playing, it pauses. On a track with an empty id, it shows "Invalid video ID". Otherwise it plays, after loading the track exactly when the reported state is unstarted or cued. The tape and position never change. |
| TapePlayer.HandleNextFrom | app/player/page.js:253-259 | Next moves to the following track and loads it when the state it reads has a tape in, a player and a later track. Otherwise nothing happens. |
| TapePlayer.HandleNext | app/player/page.js:253-259 | Only the position changes. It changes exactly when a tape is in, a player exists and a later track exists. It then moves by one and loads that track. |
| TapePlayer.HandlePrev | app/player/page.js:261-267 | Only the position changes. It changes exactly when a tape is in, a player exists and the position is not 0. It then moves back by one and loads that track. |
| TapePlayer.HandleInsertTape | app/player/page.js:269-293 | The tape is in and not loading. With a player and a first track that has an id, that track is loaded, paused and made current. Otherwise nothing is loaded. |
| TapePlayer.HandleEjectTape | app/player/page.js:295-302 | The tape is out and not playing, and nothing else changes. An existing player is stopped. |
| TapePlayer.PressTapeButton | app/player/page.js:413-418 | The tape button always flips whether a tape is in. Ejecting stops playback. |
| TapePlayer.TapeButtonTwice | app/player/page.js:413-418 | Ejecting and re-inserting puts the same tape back in, stopped and not loading. |
| TapePlayer.OpenedTapeTitle | app/player/page.js:381 | As the page reads the link, the cassette shows the twice-decoded name's mix. It shows "MY MIX" when that name is empty or could not be decoded. |
| TapePlayer.OnPlayerStateChange | app/player/page.js:181-206 | Ended does Next and clears loading. Playing sets playing and clears loading and the error. Paused clears both flags. Buffering sets loading. Cued and unstarted clear loading. Any other code changes nothing. |
| TapePlayer.OnPlayerStateChangeAsWired | app/player/page.js:132-135 | The callback as wired agrees with the corrected one on every code except Ended. |
| TapePlayer.EndedAsWiredNeverAdvances | app/player/page.js:132-135 | As wired, a video's end never moves the tape on: it only clears loading. |
| TapePlayer.EndedAsWiredCounterexample | app/player/page.js:181-186 | The discrepancy on a two-track tape at its first track: corrected, Ended loads track 2. As wired, it stays. |
| TapePlayer.EndedWalksTheTape | app/player/page.js:181-186 | Corrected, k video ends move the tape on by k tracks. |
| TapePlayer.OnError | app/player/page.js:136-142 | A playback error shows its message and stops playing, and nothing else changes. |
| TapePlayer.OnReady | app/player/page.js:124-130 | When the player is ready, the error is cleared, loading ends and nothing else changes. Without a constructed player, the callback cannot fire and changes nothing. |
| TapePlayer.OnPlayerCreated | app/player/page.js:67-149 | A player exists afterwards exactly when one existed before, or the tape has tracks and initialisation did not fail. |
| TapePlayer.StatusText | app/player/page.js:432-439 | "NO TAPE" exactly when no tape is in. "LOADING..." exactly when it is in and loading. "NO TRACKS" exactly when it is in, not loading and the tape is empty. |
| TapePlayer.TrackCounter | app/player/page.js:437 | The counter text starts with `TRACK ` and a digit. The other status texts start with `N` or `L`. |
| TapePlayer.CounterReadsBack | app/player/page.js:437 | Inverse: `TRACK k/n` reads back as k and n. |
| TapePlayer.StatusShowsPosition | app/player/page.js:432-439 | On a playable tape, the display shows the 1-based position of the current track, which lies within the tape's length. |
| TapePlayer.PrevButtonMatchesHandler | app/player/page.js:449-451 | Once a player exists, the previous button is greyed out exactly when its handler would do nothing. |
| TapePlayer.PlayButtonMatchesHandler | app/player/page.js:458-460 | A greyed-out play button does nothing. An enabled one on a playable track toggles playing. |
| TapePlayer.NextButtonMatchesHandler | app/player/page.js:474-476 | With a player and a non-empty tape, the next button is greyed out exactly when its handler would do nothing. |
| TapePlayer.NextEnabledOnEmptyTape | app/player/page.js:474-476 | On an empty tape, the next button is enabled but does nothing. |
| TapePlayer.NextThenPrev | app/player/page.js:253-267 | Next then previous returns to the same state and reloads the original track. |
| TapePlayer.PrevThenNext | app/player/page.js:253-267 | Previous then next returns to the same state and reloads the original track. |
| TapePlayer.PlayThenPause | app/player/page.js:208-251 | Pressing play twice on a playable track pauses again. Only loading is left cleared. |
| TapePlayer.EjectedIgnoresControls | app/player/page.js:295-302 | Ejecting is idempotent. An ejected tape ignores play, next and previous. |
| TapePlayer.EventKeepsValid | app/player/page.js:181-302 | No handler or callback changes the tape or moves the current track off it, and every video loaded is one of the tape's ids. |
| TapePlayer.RunKeepsValid | app/player/page.js:181-302 | After any sequence of events, the current track is still on the tape and the tape is unchanged. |
| Scenarios.ShortLinkWithTime | app/page.js:29-33 | `https://youtu.be/dQw4w9WgXcQ?t=30` yields `dQw4w9WgXcQ`. |
| Scenarios.WatchLink | app/page.js:29-33 | `https://www.youtube.com/watch?v=dQw4w9WgXcQ` yields `dQw4w9WgXcQ`. |
| Scenarios.NotAUrl | app/page.js:29-33 | `not a url` yields null. |
| Scenarios.LaterParameterWins | app/page.js:30 | `watch?v=<id>&v=aaaaaaaaaaa` yields `aaaaaaaaaaa`. |
| Scenarios.SamEncodesToItself | app/page.js:51 | `Sam` encodes to itself. |
| Scenarios.SampleLinkSpelledOut | app/page.js:55 | The link for that id and `Sam` is `/player?v=dQw4w9WgXcQ&to=Sam`. |
| Scenarios.OneValidOneBlank | app/page.js:35-56 | A watch link plus a blank row, sent for `Sam`, navigates to that link with no error. |
| Scenarios.RouteOneValidOneBlank | app/api/mixtape/route.js:18-37 | The route answers the same submission with 200, the one id and the same link. |
| LinkScenarios.OneIdLinkReadsBack | app/player/page.js:56-63 | A link made from one id of letters, digits, `_` and `-` reads back as that id under `v`, and as one track with that id. The name reads back under `to`. |
| LinkScenarios.PlusInIdArrivesAsSpace | app/player/page.js:56 | An id `a+b` sent in a link reaches the player as the track `a b`. |
| LinkScenarios.EscapeInIdIsDecoded | app/player/page.js:56 | An id `%41b` sent in a link reaches the player as `Ab`. |

## Left out

- Loading the YouTube iframe API: the script tag, the 10-second timeout, the polling and the retries. The player's options, the container element and the unmount cleanup are also out. They are browser I/O and timers. The model has only the resulting events `PlayerCreated`, `Ready`, `StateChange` and `PlayerError`, and the failure of a name that cannot be decoded.
- Sounds, animations, CSS and the rest of the JSX. These are presentation with no state of their own.
- `Date.now()` and `new Date().toISOString()` become parameters: `freshId` of `AddTrack`, and `id`/`createdAt` of `Post`. Nothing constrains their values. `Offered` only asks that a new row key be fresh.
- Handoff.LinkQuery: the URL parser's trimming of leading and trailing spaces and controls is not modelled. A player link starts with `/` and ends in escaped text, so it has none. The parser's escaping of characters in the query is not modelled either, because the form decoding turns those escapes back into the same bytes.
- CreateThenOpen: the per-track statement needs ids without `%` and `,`. An escape such as `%2C` can decode to a comma and split a track. For any ids, the exact value under `v` is stated by `CreateLinkFields`, and `EscapeInIdIsDecoded` shows an escape being decoded.
- UriComponent.LoneEscapeThrows: the error message "URI malformed" is the one V8 gives. The language standard fixes only that a `URIError` is thrown.
- The player's `getPlayerState()` is passed to `HandlePlay` as the parameter `reported`. The page is assumed never to throw from `loadVideoById`, `pauseVideo` and `playVideo`. The one throw the page reaches by itself, reading past the tape in play, is modelled.
- UriComponent.Utf8: lone surrogates, for which `encodeURIComponent` throws a `URIError`, are not modelled. A Dafny `char` is a Unicode scalar value.
- Re-initialising the player when `searchParams` changes identity is not modelled. The link is read once, by `Open`.
- The route's 500 answer is not modelled. It is reached when the request body is not form data or when something throws. Form values that are files instead of strings are not modelled either.
- TapePlayer.OnPlayerCreated: the page constructs a player only when `v` has at least one piece and the name did not throw. The function takes that as the condition under which `hasPlayer` becomes true. A failure to load the iframe API, and the retries after it, are not modelled.
- Handoff.HandoffRoundTrip: the round trip is stated for one or more ids with no commas in them. An empty id list legitimately reads back as one blank track, and an id with a comma as several tracks. `EmptyHandoffGivesOneBlankTrack` and `CommaSplitsId` state those two cases.
- The player page's own copy of `getYoutubeId` (`app/player/page.js:175-179`) is never called there. The route's copy (`app/api/mixtape/route.js:19-21`) is the same expression, and both are modelled by `YoutubeId.GetYoutubeId`.

## Findings

| source | as written | input that shows it | evidently intended | confidence | as-written member | corrected member |
|---|---|---|---|---|---|---|
| app/player/page.js:132-135, 181-186 | The player's state-change callback is created once, inside the effect that runs after the first render. It calls that render's `onPlayerStateChange`, whose `handleNext` reads the first render's state: no tape in, no player, no tracks. When a video ends, the tape therefore never moves to the next track. | A two-track tape, inserted and at track 1, receives the video player's `ENDED` (0). | When a video ends, the page moves to the next track, as the Next button does, and stops at the last track. | not executed | TapePlayer.OnPlayerStateChangeAsWired (shown by TapePlayer.EndedAsWiredCounterexample and TapePlayer.EndedAsWiredNeverAdvances) | TapePlayer.OnPlayerStateChange (with TapePlayer.EndedWalksTheTape; used by `Apply`) |
| app/player/page.js:57, 64 | The page decodes the recipient name twice. `searchParams.get('to')` has already undone the `encodeURIComponent` of the form, and the page then applies `decodeURIComponent` to the result. A name holding `%` is changed, or it makes the decoding throw. When it throws, initialisation stops before the player is constructed, and every retry throws the same way. | The name `100%` is sent as `to=100%25`. `get` returns `100%`, and `decodeURIComponent("100%")` throws. The tape then never plays: play only ever shows "Player not ready". | The page shows the name as typed and builds the player, reading `to` only once. | not executed | TapePlayer.OpenAsWritten (shown by TapePlayer.TrailingPercentNeverPlays) | TapePlayer.Open (with TapePlayer.OpenShowsSentName; used by `OpenLink`) |
