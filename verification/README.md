# NC Afters radio front end: the deterministic core, in Dafny

The front end plays one of several Icecast streams. Every eight seconds it polls the server's status document. From it, the page shows what is playing, how long the stream has been up, and a short history of the songs each mount has played. This project models the deterministic string, list and integer logic behind those displays, and proves what it promises:

- **Now-playing parser** (`NowPlaying`). `parseNowPlaying` splits a title like `"Artist - Track - Remix"` at its first `" - "` into a trimmed artist and a trimmed track. The track keeps every later separator. It is modelled on top of JavaScript's `trim`, `includes`, `split` and `join` (`JsString`). Each one follows the algorithm of ECMA-262 for that built-in.
- **Track history** (`TrackHistory`). `pushTrackHistory` works on a map from mount point to entries, newest first. It does nothing for an empty song or when no mount is selected. It also does nothing when the trimmed song is already the mount's newest entry. Otherwise it prepends the song and keeps at most five entries.
- **Duration labels** (`Durations`, `Decimal`). `timeAgo` picks one of four buckets: seconds, minutes, "hours minutes" or days. The uptime label splits minutes into hours and minutes. The clock (`Date.now()`) is an integer parameter in milliseconds. Labels are rendered the way a template literal renders an integer, and each label reads back to the bucket it came from.
- **Mount lookup** (`Icecast`). A single `source` object is wrapped into a list. The lookup picks the first source whose `listenurl` contains the selected mount. A poll with no match changes nothing. `Poll` combines the lookup with the panel texts and the history push. `Run` drives station selections and polls, and keeps every history well formed.

JavaScript's `%` truncates toward zero, unlike Dafny's. `Durations.MinuteOfHour` writes it out. `Math.floor(x / n)` with a positive integer `n` is Dafny's `/` (`Durations.FloorDiv`).

Two behaviours of the code are worth knowing:

- The history's comment says "no duplicates ever", but the guard only compares against the newest entry. A song that returns after another one is recorded again (`TrackHistory.ReturningSongRecordedAgain`).
- An edge case: a stream start that lies ahead of the local clock gives a negative minute count. `Math.floor` and the truncating `%` then combine into labels such as `-1h -5m` for five minutes (`Durations.UptimeAheadOfClock`).

## Model

| member | source | states |
|---|---|---|
| JsString.Trim | script.js:218 | the result has no space at either end and sits in the input with only spaces around it |
| JsString.TrimUnique | script.js:218 | that trimmed core is unique: any trimmed text padded only by spaces in the input is what trim returns |
| JsString.IndexOfFrom | script.js:217 | the least index at or after the start where the separator occurs, or none when it occurs nowhere after it |
| JsString.Includes | script.js:217 | true exactly when the text occurs somewhere in the string |
| JsString.JoinSplit | script.js:221-224 | splitting at a separator and joining the parts with the same separator gives back the original string |
| JsString.SplitFromPartsFree | script.js:221 | no part produced by split contains the separator |
| NowPlaying.Parse | script.js:214-226 | without " - " the artist is empty and the track is the trimmed title; with one, the artist is the trimmed text before the first separator and the track the trimmed text after it, later separators included |
| NowPlaying.ParseWithoutHyphen | script.js:214-226 | a trimmed title without a hyphen parses as that whole title for the track and no artist |
| NowPlaying.ArtistHasNoSeparator | script.js:221-223 | the parsed artist never contains " - " |
| NowPlaying.ParseAnnounce | script.js:214-226 | parsing "artist - track" gives back the artist and the track when both are trimmed and the artist neither contains " - " nor ends in " -" |
| Decimal.ValueOfNatToString | script.js:265 | the decimal numeral of a natural number has that number as its value |
| Decimal.ReadIntToString | script.js:265 | a rendered integer followed by a non-digit reads back as that integer and the text after it |
| Decimal.IntToStringInjective | script.js:265 | distinct integers render as distinct numerals |
| Durations.FloorDiv | script.js:263 | the quotient is the floor: q*b <= x < q*b + b |
| Durations.MinuteOfHour | script.js:269 | JavaScript's minutes % 60 lies in [0,59] for non-negative minutes and in [-59,0] for negative ones, and differs from the minutes by a multiple of 60 |
| Durations.AgoBucket | script.js:262-272 | the chosen label fits the elapsed time: seconds under a minute, minutes under an hour, hours and minutes under a day, else days, with its numbers bracketing the elapsed milliseconds and the minute part in [0,59] |
| Durations.FitsUnique | script.js:262-272 | each elapsed time has exactly one label that fits it, so the four branches never overlap |
| Durations.ReadRenderAgo | script.js:265-271 | every "time ago" label reads back as the bucket it renders |
| Durations.TimeAgo | script.js:262-272 | the label timeAgo shows reads back as the bucket of the elapsed time |
| Durations.FitsMonotone | script.js:262-272 | a label stands for no more time than has elapsed, and the label of a longer elapsed time stands for no less |
| Durations.AgoMonotone | script.js:262-272 | as the clock advances, the time a label stands for never decreases |
| Durations.UptimeOf | script.js:357-360 | minutes alone exactly when under an hour has passed, otherwise hours of at least one and minutes in [0,59] bracketing the elapsed time; a future start gives negative hours and minutes in [-59,0]; whenever hours are shown, the minute part is the whole minutes elapsed modulo 60 |
| Durations.UptimeAheadOfClock | script.js:357-360 | a start five minutes ahead of the clock shows "-1h -5m" |
| Durations.ReadRenderUptime | script.js:360 | every uptime label reads back as the uptime it renders |
| Durations.UptimeLabel | script.js:357-360 | the uptime text reads back as the uptime of the elapsed time |
| TrackHistory.Prepend | script.js:292-299 | the new entry is first, the previous entries follow in order, and the length grows by one below five and stays put at five or more |
| TrackHistory.Push | script.js:278-302 | an empty song, no selected mount, or a song equal to the current head changes nothing; otherwise the trimmed song with the clock time heads the mount's history, the old entries follow with the oldest dropped at five, and no other mount changes |
| TrackHistory.PushChangesUnlessSkipped | script.js:279-290 | a push leaves the histories unchanged exactly in the skip cases |
| TrackHistory.PushTwice | script.js:287-290 | pushing the same song twice has the effect of pushing it once |
| TrackHistory.PushWellFormed | script.js:283-299 | histories with one to five entries, trimmed titles and no title twice in a row keep those properties after a push |
| TrackHistory.PushNewestFirst | script.js:292-295 | with a clock not behind any head entry, every history stays ordered newest first |
| TrackHistory.PushPrepends | script.js:281-295 | a trimmed song that is not the head is prepended to the selected mount's history |
| TrackHistory.PushRecords | script.js:278-299 | on the selected mount, a push of a trimmed song is one step of the single-list recorder: skipped when it repeats the head, prepended otherwise |
| TrackHistory.ReturningSongRecordedAgain | script.js:287-299 | on one mount, songs A, B, A recorded in turn are all three kept, newest first: only a repeat of the head is suppressed |
| TrackHistory.RecordAllIsNewestDistinct | script.js:283-299 | after any sequence of songs on one mount, the history is the newest five of the songs with consecutive repeats removed, newest first, each with the time it was first seen |
| Icecast.FirstServing | script.js:333-335 | the first source from a position on whose listen url is non-empty and contains the selected mount, or none when no later source does |
| Icecast.FindMount | script.js:330-336 | a missing source fails; otherwise the result is the first listed source serving the mount, or not found when no source serves it |
| Icecast.RawSong | script.js:338 | the song is the source's title whenever that is non-empty, and "Unknown Track" when the title is missing or empty |
| Icecast.UnknownTrackParse | script.js:338-343 | the fallback song "Unknown Track" parses as a track with no artist |
| Icecast.PanelFor | script.js:338-362 | the title is the parsed track, else the raw song; the artist is the parsed artist, else "Unknown Artist"; neither is ever empty; a source without a title shows "Unknown Track" by "Unknown Artist"; an uptime is shown exactly when the start time is known, and it reads back as the uptime of the elapsed time |
| Icecast.Poll | script.js:325-365 | without a matching source nothing changes; with one, the panel for the first matching source is shown and its song is pushed so that it heads the mount's history |
| Icecast.Run | script.js:141-165 | over any run of station selections and polls, every history stays well formed, no mount's history disappears, and histories exist only for mounts that were selected |

## Left out

- The waveform visualisation (`startWaveform`, `stopWaveform`, the gain constants; script.js:375-481) is left out. It is floating-point work (`Math.log10`, `Math.pow`, `Math.sin`, exponential smoothing, adaptive gain) driven by animation frames and the audio analyser, and IEEE `log10`/`pow` have no faithful model here.
- The audio graph (`initAudioAnalyser`, `AudioContext`; script.js:102-118) is left out: it is platform audio.
- Network I/O is left out: the status `fetch`, `res.json()`, and the artwork search (script.js:232-249). A poll receives the already decoded `icestats.source` field.
- Date parsing of `stream_start_iso8601` (script.js:354-356) is left out. A stream start is an optional integer in milliseconds, None when the field is missing or does not parse.
- Most DOM writes are left out: the activity line, server status, mount, listeners, peak and bitrate texts (script.js:345-353), the history HTML of `renderTrackHistory` (script.js:304-319), and `applyArtwork`. The panel keeps the now-playing title, the artist and the uptime text.
- UI events are left out: play/pause, the live button, volume, theme toggle, the date/time tabs, `setInterval` and `DOMContentLoaded`. A station click is modelled only as it sets the current mount (`Icecast.Event.SelectStation`).
- Non-string `listenurl` values and `null` entries in the source list are left out. A source's `listenurl` is an optional string, and every list entry is a record. In the code, `m.listenurl.includes` on a non-string value, or reading `listenurl` of `null`, throws inside `find` (script.js:333-334). The catch at script.js:370 then abandons the whole poll, even when a later source would match.
- Non-string JSON titles are left out. Titles are strings, so the `typeof` guard of `parseNowPlaying` (script.js:215) never applies. The TypeError that `.trim()` would throw on a numeric title is not modelled.
- Durations.FloorDiv: `Math.floor((Date.now() - ts) / 1000)` is modelled as exact integer floor division. That equals the floating-point result for the magnitudes `Date.now()` produces, all far below 2^53.
- `trackHistories` is a plain object in the source and a map here. Property names with special meaning to objects are not modelled.
- Interleaving of overlapping asynchronous polls is left out. The state updates of one poll happen between two awaits, so each poll is applied atomically.
- The copy of the script under `Testing Folder/` is an earlier version of the same page and is not part of this model.
