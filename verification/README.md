# GifHub core, modelled in Dafny

GifHub is a Next.js web application. Users upload a video, pick a time range
on a timeline, turn that range into a GIF in the browser with ffmpeg.wasm,
and store and share their GIFs in repositories. This project models the
sequential logic at the heart of the application as pure Dafny functions
over immutable datatypes, and proves properties of it:

- **The timeline selectors.** `Timeline` models the mouse-driven selector:
  - the time/percent mappings;
  - the click, mouse-down, mouse-move and mouse-up handlers, with the three drag modes;
  - metadata load, reset and the preset buttons.

  `SliderTimeline` models the older two-slider selector. `SelectionReports`
  models the effect that reports `(start, end)` to the page. It runs on every
  change of the pair and on every render of the page, because the page passes
  a new inline callback each time. A report that changes the page's state
  therefore comes back once more with the same pair.
- **The GIF encoder front end.** `GifEncoder` covers `generateGif`:
  - the range check;
  - the colour-count and scale-filter tables;
  - the exact argument vectors of the palette and encode passes, which it also parses back;
  - the cached engine;
  - the copy of the output into a blob.
- **The upload page.** `UploadPage` covers the scaled dimensions, the size
  estimate with its ±30 % band, the download name and the cap passed to the
  timeline.
- **The file picker.** `VideoUploader` covers validation, drop and pick.
- **Cloud storage helpers.** `Gcs` covers:
  - client construction and caching, and private-key unescaping;
  - the upload and delete guards and the resumable rule;
  - signed-URL expiry;
  - reading an object path out of a public URL, modelled as a leftmost regular-expression match;
  - the bucket-name lookup.
- **List computations.**
  - `Activities` is the public activity feed.
  - `GifList` is the search, sort and delete of the "My GIFs" page.
  - `ProfileStats` is the per-user statistics route.
- **Accounts and tokens.** The store is `AuthStore`: users by email, and
  verification tokens by token string. The routes over it are `Register`,
  `PasswordReset` (request and redeem) and `EmailVerification` (request and
  redeem).

Shared pieces:

- `JsNumber` holds JavaScript numbers with NaN and infinities, `Math.min`/`Math.max` and `Math.round`.
- `Text` holds digits and `String(n)`, `startsWith`, `includes` and ASCII `toLowerCase`.
- `Sorting` is a stable sort by integer key.
- `Lists` holds `filter` and `reduce` sums.
- `Results` holds `Option` and `Result`.

Foreign code and the outside world become parameters:

- Database tables are maps and sequences.
- bcrypt is `hash: string -> string`.
- zod's email check is `isEmail`.
- `crypto.randomUUID` and database-assigned ids are plain values.
- The clock is `now`.
- The ffmpeg runtime's output is the byte sequence `produced`.
- `String(x)` of a non-integer time is `show`.
- `localeCompare` is a collation key `nameKey`.
- A failing query is a flag.
- A mailer that throws is the flag `mailFails`.

Times are `real` seconds in the selectors and the estimator, and integer
milliseconds in the routes.

The mouse-move listener is installed by an effect that depends only on
`isDragging`. During a drag it therefore reads the duration, the selection
and the cap as they were when the drag began. The selector keeps that
snapshot as its `grab`, and every move is computed from it.

JavaScript's `length`, and zod's `min` and `max` on strings, count UTF-16
code units. `Text.Utf16Length` gives that count: a character above U+FFFF
counts twice.

The start-handle drag does not apply `maxGifDuration`; only the end-handle
and whole-selection drags do. `Timeline.StartDragIgnoresCap` exhibits a valid
state in which dragging the start handle makes the selection longer than the
cap. This is recorded as behaviour, not as a defect, because nothing in the
code says the cap must hold at all times.

## Model

| member | source | states |
|---|---|---|
| Timeline.TimeToPercent | web/src/components/video/TimelineSelector.tsx:46-53 | the percentage is always within [0, 100], and is 0 whenever the duration is non-finite or not positive |
| Timeline.PercentToTime | web/src/components/video/TimelineSelector.tsx:54-62 | 0 for an unknown duration or a non-finite percent; otherwise a time within [0, duration] |
| Timeline.ClampTime | web/src/components/video/TimelineSelector.tsx:64-71 | 0 for a non-finite time or unknown duration; otherwise a time in [0, duration] that equals the input when the input already lies there |
| Timeline.PercentRoundTrip | web/src/components/video/TimelineSelector.tsx:46-62 | for a known duration, mapping a time to a percentage and back gives the time clamped to [0, duration] |
| Timeline.PercentToTimeMonotone | web/src/components/video/TimelineSelector.tsx:54-62 | a larger percentage never maps to an earlier time |
| Timeline.CapProp | web/src/components/video/TimelineSelector.tsx:12 | the cap is the `maxGifDuration` prop, and 30 when the prop is absent |
| Timeline.Init | web/src/components/video/TimelineSelector.tsx:12-20 | the mounted selector has duration 0, start 0, playhead 0 and no drag; its cap is the prop, or 30 when absent, and end = min(3, cap) |
| Timeline.UsableDuration | web/src/components/video/TimelineSelector.tsx:219 | the stored duration is never negative; it is positive exactly when the video reports a finite positive duration, and then equals it |
| Timeline.LoadMetadata | web/src/components/video/TimelineSelector.tsx:217-228 | loading metadata selects from 0 to min(3, maxGifDuration, usable duration) and rewinds the playhead |
| Timeline.ResetSelection | web/src/components/video/TimelineSelector.tsx:199-207 | reset selects from 0 to min(3, maxGifDuration, duration) and rewinds the playhead, keeping duration, cap and drag state |
| Timeline.ApplyPreset | web/src/components/video/TimelineSelector.tsx:362-405 | each preset button selects from 0 to min(k, maxGifDuration, duration) for k = 1, 3, 5, 10, or to min(maxGifDuration, duration) for "Max" |
| Timeline.FreshSelections | web/src/components/video/TimelineSelector.tsx:199-228 | load, reset and presets start at 0, never exceed the cap or the duration, and select exactly the asked length when it fits |
| Timeline.Click | web/src/components/video/TimelineSelector.tsx:73-89 | a click does nothing while dragging or with an unknown duration; otherwise it moves only the playhead, to a time within the video |
| Timeline.MouseDown | web/src/components/video/TimelineSelector.tsx:91-110 | pressing does nothing with an unknown duration; otherwise it starts dragging that handle and, for the whole selection, records the pointer offset; unless that handle was already being dragged, it snapshots the duration, selection and cap for the moves to read, and otherwise keeps the old snapshot |
| Timeline.DragStart | web/src/components/video/TimelineSelector.tsx:121-128 | from the values grabbed when the drag began: the new start is within [0, duration] and at most max(0, end − 0.1); it equals the pointer time when that is allowed, is 0 for a pointer at or before 0, and is exactly end − 0.1 for a pointer past it; the current end is unchanged |
| Timeline.DragEnd | web/src/components/video/TimelineSelector.tsx:129-136 | from the grabbed values: the new end is within [0, duration] and never before the grabbed start; with room for the 0.1 s gap it lies in [start + 0.1, min(duration, start + cap)] and follows the pointer inside that window; a pointer before the window parks the end at start + 0.1, one after it at min(duration, start + cap); the current start is unchanged |
| Timeline.DragSelection | web/src/components/video/TimelineSelector.tsx:137-155 | both bounds stay within the grabbed duration; for an ordered grabbed selection the result is ordered and its length is the grabbed length cut to the grabbed cap; the new start is the time of the pointer minus the grabbed offset whenever that leaves the selection inside the video |
| Timeline.PointerPercent | web/src/components/video/TimelineSelector.tsx:118 | the pointer percentage is forced into [0, 100], and is NaN exactly when the raw pointer is NaN |
| Timeline.MouseMove | web/src/components/video/TimelineSelector.tsx:112-176 | moving does nothing when idle or before a known duration was grabbed; no move changes the snapshot or the offset; a start drag keeps the end, an end drag keeps the start |
| Timeline.LastMoveWins | web/src/components/video/TimelineSelector.tsx:112-176 | two moves in a row end where the second alone would, because each reads only the snapshot and the pointer |
| Timeline.WholeDragUsesGrabbedSpan | web/src/components/video/TimelineSelector.tsx:137-155 | a 20 s selection in a 100 s video with a 10 s cap, dragged whole to the far right, ends at [80, 90] after one move and after two |
| Timeline.MouseUp | web/src/components/video/TimelineSelector.tsx:161-164 | releasing ends any drag and leaves the selection, duration and playhead alone |
| Timeline.StepKeepsValid | web/src/components/video/TimelineSelector.tsx:112-228 | every handler, given an event possible in its state, keeps the selection ordered, non-negative and, once the duration is known, inside the video, keeps the playhead inside the video, and keeps a running drag consistent with its snapshot |
| Timeline.RunKeepsValid | web/src/components/video/TimelineSelector.tsx:112-228 | any sequence of events, each possible where it arrives, keeps the state valid |
| Timeline.Session | web/src/components/video/TimelineSelector.tsx:42-44 | mounting reports the initial selection (0, min(3, cap)) first, the cap being the prop or 30; with a positive cap that pair differs from the page's (0, 0), so it is reported twice |
| Timeline.SessionReportsCurrentSelection | web/src/components/video/TimelineSelector.tsx:42-44 | after any session of possible events, the last pair reported to the page is the current selection, and the state is valid |
| Timeline.StartDragIgnoresCap | web/src/components/video/TimelineSelector.tsx:121-124 | a valid selection within the cap can be stretched past maxGifDuration by dragging the start handle |
| Timeline.ResetMidDragOrdersWrongly | web/src/components/video/TimelineSelector.tsx:199-207 | a reset during a start-handle drag, followed by a move, leaves the start after the end, because the listener still reads the old end |
| SelectionReports.Deliver | web/src/app/dashboard/upload/page.tsx:284 | one run of the effect reports the pair once to a page already holding it, and twice otherwise, because the page's new state brings a new callback |
| SelectionReports.Run | web/src/components/video/TimelineSelector.tsx:42-44 | at most two reports per event: an event that moves the pair or renders the page runs the effect once, and the page's echo at most once more |
| SelectionReports.ReportsAreReached | web/src/components/video/TimelineSelector.tsx:42-44 | every reported pair is the selection of a state the run reached |
| SelectionReports.ChangesAreReported | web/src/components/video/TimelineSelector.tsx:42-44 | every event that moves the selection, or after which the page renders, gets its new selection reported |
| SelectionReports.LastReportIsCurrent | web/src/app/components/video/TimelineSelector.tsx:26-28 | the last report always equals the final selection, and a run with no report ends where it started |
| SliderTimeline.Init | web/src/app/components/video/TimelineSelector.tsx:11-15 | the slider selector starts at [0, 3] with duration 0, which is an ordered selection; its cap is the prop, or 10 when absent |
| SliderTimeline.StartBounds | web/src/app/components/video/TimelineSelector.tsx:35 | the start slider ranges over [0, max(0, duration − 0.1)] |
| SliderTimeline.EndBounds | web/src/app/components/video/TimelineSelector.tsx:42 | the end slider ranges over [start + 0.1, duration] |
| SliderTimeline.SlideStart | web/src/app/components/video/TimelineSelector.tsx:35-37 | the new start is at most end − 0.1, equals the slider value when that is allowed and is exactly end − 0.1 otherwise; the end is unchanged |
| SliderTimeline.SlideEnd | web/src/app/components/video/TimelineSelector.tsx:42-44 | the selection is never longer than maxGifDuration; the end equals the slider value when that fits and is exactly start + maxGifDuration otherwise; the start is unchanged |
| SliderTimeline.SlidersKeepOrder | web/src/app/components/video/TimelineSelector.tsx:35-44 | with slider values inside their declared bounds, start stays ≥ 0 and at least 0.1 before end over any run |
| SliderTimeline.Session | web/src/app/components/video/TimelineSelector.tsx:26-28 | mounting reports the initial (0, 3) twice, since the page starts from (0, 0), stores the pair and passes a new callback |
| SliderTimeline.SliderReportsCurrentSelection | web/src/app/components/video/TimelineSelector.tsx:26-28 | over a whole session, the last selection reported to the page is always the current one |
| JsNumber.MathMin | web/src/components/video/TimelineSelector.tsx:118 | `Math.min` is NaN exactly when an argument is, and otherwise returns the smaller argument |
| JsNumber.MathMax | web/src/components/video/TimelineSelector.tsx:118 | `Math.max` is NaN exactly when an argument is, and otherwise returns the larger argument |
| JsNumber.Minus | web/src/components/video/TimelineSelector.tsx:105 | subtracting a finite number keeps finiteness and inverts addition |
| JsNumber.Round | web/src/app/dashboard/upload/page.tsx:146 | `Math.round` lands within half a unit of its argument, ties going up |
| GifEncoder.ColorCount | web/src/lib/ffmpeg.ts:45 | the palette size is 64, 128 or 256 |
| GifEncoder.ColorCountAntitone | web/src/lib/ffmpeg.ts:45 | low quality uses more colours than medium, which uses more than high, and every count divides 256 |
| GifEncoder.ScaleFilterNamesWidth | web/src/lib/ffmpeg.ts:46-53 | the filter is `scale=iw:ih` for the original size and `scale='min(W,iw)':-2` with W the decimal width cap otherwise |
| GifEncoder.PaletteArgs | web/src/lib/ffmpeg.ts:56-62 | the palette pass has ten arguments |
| GifEncoder.EncodeArgs | web/src/lib/ffmpeg.ts:65-72 | the encode pass has twelve arguments |
| GifEncoder.PaletteArgsParse | web/src/lib/ffmpeg.ts:56-62 | the palette pass parses as exactly: seek, length, `input.mp4`, the `fps,scale,palettegen` filter, overwrite, `palette.png` |
| GifEncoder.EncodeArgsParse | web/src/lib/ffmpeg.ts:65-72 | the encode pass parses as exactly: seek, length, `input.mp4`, `palette.png`, the `paletteuse=dither=bayer` graph, overwrite, `out.gif` |
| GifEncoder.PassesAgree | web/src/lib/ffmpeg.ts:56-72 | both passes read the same window of the same input through the same fps and scale filters; the encode pass reads the palette the first pass wrote and writes elsewhere; the colour count reads back from the filter |
| GifEncoder.GetFFmpeg | web/src/lib/ffmpeg.ts:10-17 | a cached engine is returned without loading; otherwise one load happens, and only a successful one is cached |
| GifEncoder.LoadedEngineIsReused | web/src/lib/ffmpeg.ts:10-17 | after a successful call every later call returns the same engine without loading; after a failed load the next call loads again |
| GifEncoder.ClipLength | web/src/lib/ffmpeg.ts:31 | the encoded length is never negative and is positive exactly when start < end |
| GifEncoder.CopyToBlob | web/src/lib/ffmpeg.ts:74-80 | the blob holds exactly the bytes ffmpeg wrote, typed `image/gif` |
| GifEncoder.GenerateGif | web/src/lib/ffmpeg.ts:29-81 | an empty or reversed range fails with "Invalid time range" before any runtime call; a load failure propagates; otherwise the engine, input write, both passes and output read happen in order and the output comes back as a GIF |
| UploadPage.ScaledDimensions | web/src/app/dashboard/upload/page.tsx:157-165 | only a frame wider than the cap of a non-original scale is narrowed, to the cap, with the height scaled and rounded |
| UploadPage.ScaledWidthMatchesFilter | web/src/app/dashboard/upload/page.tsx:157-165 | the width the estimate assumes is min(width, cap), the width the encoder's `min(W,iw)` filter produces |
| UploadPage.BytesPerPixelOrdering | web/src/app/dashboard/upload/page.tsx:172-182 | bytes per pixel fall as frames get larger, and rise from low to medium to high quality |
| UploadPage.EstimatedSize | web/src/app/dashboard/upload/page.tsx:150-206 | no estimate without a file, with end ≤ start, or without metadata; otherwise a positive band from 0.7 to 1.3 times the point estimate for the selection length, frame rate, quality and scaled pixel count |
| UploadPage.EstimatedSizeGrowsWithSelection | web/src/app/dashboard/upload/page.tsx:150-206 | widening the selection never lowers either end of the band |
| UploadPage.EstimatedSizeGrowsWithFps | web/src/app/dashboard/upload/page.tsx:150-206 | a higher frame rate never lowers either end of the band |
| UploadPage.EstimateAtLeastOverhead | web/src/app/dashboard/upload/page.tsx:185-196 | the estimate is at least 1024 bytes plus 20 bytes per frame |
| UploadPage.EstimateMonotoneInDuration | web/src/app/dashboard/upload/page.tsx:167-196 | a longer selection never gets a smaller estimate |
| UploadPage.EstimateMonotoneInFps | web/src/app/dashboard/upload/page.tsx:167-196 | a higher frame rate never gets a smaller estimate |
| UploadPage.DotFreeSuffix | web/src/app/dashboard/upload/page.tsx:146 | the length of the dot-free tail of a name, and the tail is preceded by a dot when shorter than the name |
| UploadPage.StripExtension | web/src/app/dashboard/upload/page.tsx:146 | removing the extension leaves a prefix of the name |
| UploadPage.StripExtensionIsRegexMatch | web/src/app/dashboard/upload/page.tsx:146 | the result is the name cut at the dot that `/\.[^.]+$/` matches, or the whole name when it does not match |
| UploadPage.StripExtensionOfStemAndExtension | web/src/app/dashboard/upload/page.tsx:146 | `stem.ext` with a non-empty dot-free extension loses exactly `.ext` |
| UploadPage.DownloadName | web/src/app/dashboard/upload/page.tsx:145-148 | `output.gif` without a file, otherwise the stripped file name followed by a dash |
| UploadPage.DownloadNameParts | web/src/app/dashboard/upload/page.tsx:145-148 | for any file name, the name reads back as the name without its extension, a dash, the rounded length in milliseconds in decimal (with a minus sign for an inverted selection) and `ms.gif` |
| UploadPage.DownloadNameReadsBack | web/src/app/dashboard/upload/page.tsx:145-148 | for `stem.ext`, the name is the stem, a dash, decimal digits that parse to the rounded length in milliseconds, and `ms.gif` |
| UploadPage.MaxGifDuration | web/src/app/dashboard/upload/page.tsx:286 | the cap is 60 s exactly for videos longer than 300 s, and 30 s otherwise |
| UploadPage.PageCapKeepsDefaultSelection | web/src/app/dashboard/upload/page.tsx:286 | with either cap, a loaded video starts with its first three seconds, or all of it when shorter |
| VideoUploader.DefaultConfig | web/src/components/video/VideoUploader.tsx:12 | 100 MiB and four accepted types, among them mp4 and webm |
| VideoUploader.Validate | web/src/components/video/VideoUploader.tsx:17-21 | no error exactly for an acceptable file; oversized files get the size error even when their type is wrong; other rejections are "Unsupported format" |
| VideoUploader.TakeFirst | web/src/components/video/VideoUploader.tsx:26-31 | no file changes nothing; a rejected first file sets the error and delivers nothing; an accepted one clears it and is delivered alone |
| VideoUploader.OnDrop | web/src/components/video/VideoUploader.tsx:23-32 | a drop always clears the drag highlight and delivers a file exactly when the first one is acceptable |
| VideoUploader.OnPick | web/src/components/video/VideoUploader.tsx:34-41 | an empty pick changes nothing; a file is delivered exactly when the first one is acceptable |
| VideoUploader.RunDeliversOnlyAcceptable | web/src/components/video/VideoUploader.tsx:23-41 | over any run only acceptable files reach `onVideoSelect`, at most one per event |
| VideoUploader.OfferDecides | web/src/components/video/VideoUploader.tsx:23-41 | an offered file is delivered with the error cleared exactly when acceptable, else the error is the validation message |
| VideoUploader.RunErrorReflectsLastOffer | web/src/components/video/VideoUploader.tsx:23-41 | after any run the error is the validation verdict on the last offered file, so it is cleared exactly when that file was accepted; a run offering no file leaves the error alone |
| Gcs.GetClient | web/src/lib/gcs.ts:5-52 | a cached client is returned as is; without a project id construction fails; a key file wins over an email/key pair; only a built client is cached |
| Gcs.ClientIsCached | web/src/lib/gcs.ts:5-6 | once built, the client is returned by every later call whatever the environment says |
| Gcs.UnescapeKey | web/src/lib/gcs.ts:39 | unescaping never lengthens the key |
| Gcs.UnescapeKeyComplete | web/src/lib/gcs.ts:39 | no backslash-n pair remains, and the key shrinks by exactly the number of newlines introduced |
| Gcs.UnescapeEscape | web/src/lib/gcs.ts:39 | escaping the newlines of a key and unescaping gives the key back |
| Gcs.WriteRequest | web/src/lib/gcs.ts:83-94 | the stream writes the buffer with its type; it is resumable exactly above 5 MiB; metadata keeps the caller's keys and adds the upload time and the size in decimal, which parses back to the buffer length |
| Gcs.Upload | web/src/lib/gcs.ts:62-129 | an empty buffer is refused first, then a missing name, before the client is touched; success stores exactly the buffer under (bucket, name) |
| Gcs.Delete | web/src/lib/gcs.ts:131-158 | missing names are refused; success removes that object only, and a missing object leaves the store as it was |
| Gcs.UploadThenDelete | web/src/lib/gcs.ts:62-158 | deleting what was just uploaded restores every other object |
| Gcs.SignedUrlExpiry | web/src/lib/gcs.ts:160-198 | the URL expires the given minutes, or the action's default, times 60 000 ms after now |
| Gcs.SignedUrlExpiryOrder | web/src/lib/gcs.ts:163-192 | the URL expires after now exactly for positive minutes, later for longer windows, and by default an hour for reads and fifteen minutes for writes |
| Gcs.NextSlash | web/src/lib/gcs.ts:202 | the first slash at or after a position, or the end |
| Gcs.LineEnd | web/src/lib/gcs.ts:202 | the first line terminator at or after a position, or the end |
| Gcs.MatchAtSound | web/src/lib/gcs.ts:202 | what the pattern finds at a position is a match there: the host, a non-empty slash-free bucket ending at the first slash, and a non-empty terminator-free path running to the line end |
| Gcs.NextSlashAt | web/src/lib/gcs.ts:202 | a slash preceded only by non-slashes from a position is the first slash found from there |
| Gcs.LineEndAtLeast | web/src/lib/gcs.ts:202 | a terminator-free run from a position ends no later than the line does |
| Gcs.MatchAtComplete | web/src/lib/gcs.ts:202 | whenever some match starts at a position, the pattern finds one there, with the greedy path reaching at least as far |
| Gcs.SearchFromSound | web/src/lib/gcs.ts:202-203 | the scan returns the path of the leftmost match at or after the position, or nothing when there is none |
| Gcs.ExtractFilePathSound | web/src/lib/gcs.ts:201-205 | null exactly when the URL has no match, and otherwise the path group of the leftmost match |
| Gcs.SearchFromPrefixed | web/src/lib/gcs.ts:202-203 | for any host prefix, a string made of the host, a slash-free bucket, a slash and a terminator-free path yields that path |
| Gcs.ExtractFilePathRoundTrip | web/src/lib/gcs.ts:201-205 | the path of a URL built from the host, a slash-free bucket and a terminator-free path is that path |
| Gcs.BucketName | web/src/lib/gcs.ts:208-214 | the bucket name is the variable's non-empty value, otherwise the "required" error |
| Lists.SelectShrinks | web/src/app/dashboard/gifs/page.tsx:70-73 | filtering never adds an element nor lengthens the list |
| Lists.SelectSatisfies | web/src/app/dashboard/gifs/page.tsx:70-73 | every element kept satisfies the predicate |
| Lists.SelectMembers | web/src/app/dashboard/gifs/page.tsx:70-73 | a value occurs in the result exactly when it occurs in the input and satisfies the predicate |
| Lists.Filter | web/src/app/dashboard/gifs/page.tsx:70-73 | `filter` keeps exactly the elements satisfying the predicate, each no more often than before |
| Lists.FilterAppend | web/src/app/dashboard/gifs/page.tsx:61 | filtering distributes over concatenation, so order is kept |
| Lists.FilterAll | web/src/app/dashboard/gifs/page.tsx:70-73 | filtering by a predicate every element meets changes nothing |
| Lists.FilterCountsPositions | web/src/app/api/profile/stats/route.ts:41 | the filtered list is as long as the number of positions whose element satisfies the predicate |
| Lists.SumAppend | web/src/app/api/profile/stats/route.ts:36-40 | reduce-sums add up over concatenation |
| Lists.SumNonNegative | web/src/app/api/profile/stats/route.ts:38-40 | a sum of non-negative terms is non-negative |
| Sorting.BoundedByHead | web/src/app/api/public/activities/route.ts:17 | an element bounding `x` and a list by key bounds every rearrangement of them |
| Sorting.ConsSortedDesc | web/src/app/api/public/activities/route.ts:17 | a descending list stays descending behind an element whose key bounds it |
| Sorting.InsertDesc | web/src/app/api/public/activities/route.ts:17 | inserting into a descending list keeps it descending and adds exactly that element |
| Sorting.SortDesc | web/src/app/api/public/activities/route.ts:17 | sorting by a key yields a descending permutation of the input |
| Sorting.SortAsc | web/src/app/dashboard/gifs/page.tsx:78-79 | sorting by a key yields an ascending permutation of the input |
| Sorting.PrefixSortedDesc | web/src/app/api/public/activities/route.ts:66-68 | every prefix of a descending list is descending |
| Sorting.PrefixDominates | web/src/app/api/public/activities/route.ts:17-19 | in a descending list no element outside a prefix has a larger key than one inside it |
| Text.NatToString | web/src/lib/ffmpeg.ts:60 | `String(n)` is a non-empty run of digits without a leading zero |
| Text.ParseNatToString | web/src/lib/ffmpeg.ts:60 | the decimal digits of n parse back to n |
| Text.NatToStringInjective | web/src/app/dashboard/upload/page.tsx:146 | different numbers print differently |
| Text.IncludesEmpty | web/src/app/dashboard/gifs/page.tsx:71-72 | every string includes the empty string |
| Text.Lower | web/src/app/dashboard/gifs/page.tsx:71-72 | lower-casing keeps the length and maps each ASCII capital to its small letter, leaving other characters |
| Text.Utf16Length | web/src/app/api/auth/register/route.ts:8 | the UTF-16 length lies between the character count and twice it; it equals the count without characters above U+FFFF and doubles it when all are |
| Text.Utf16LengthAppend | web/src/app/api/auth/register/route.ts:8 | the UTF-16 length of a concatenation is the sum of the parts' lengths |
| Activities.TakeSplit | web/src/app/api/public/activities/route.ts:18-36 | floor(limit/2) and ceil(limit/2) add up to the limit, differ by at most one, and are non-negative for a non-negative limit |
| Activities.Take | web/src/app/api/public/activities/route.ts:18-36 | `take n` returns the first n rows, and for a negative n at most the absolute value of n rows |
| Activities.SliceTo | web/src/app/api/public/activities/route.ts:68 | `slice(0, end)` is a prefix whose length follows the JavaScript rules for positive and negative ends |
| Activities.PublicRepo | web/src/app/api/public/activities/route.ts:24 | finds a public repository with that id, or proves there is none |
| Activities.RecentRepos | web/src/app/api/public/activities/route.ts:10-19 | at most `take` public repositories from the table; newest first for a non-negative `take` |
| Activities.RecentReposNewest | web/src/app/api/public/activities/route.ts:10-19 | for a non-negative `take`, exactly min(take, number of public repositories) are drawn, and none left out is newer than one drawn |
| Activities.JoinPublic | web/src/app/api/public/activities/route.ts:22-34 | every joined GIF comes from the table with its own public parent; order and completeness are stated by the two lemmas below |
| Activities.JoinPublicKeepsOrder | web/src/app/api/public/activities/route.ts:22-34 | the joined GIFs are exactly the GIFs with a public parent, in table order |
| Activities.JoinPublicComplete | web/src/app/api/public/activities/route.ts:22-34 | each joined GIF is paired with its public parent, and every GIF that has one is joined |
| Activities.RecentGifs | web/src/app/api/public/activities/route.ts:22-37 | at most `take` GIFs, each with its own public parent; newest first for a non-negative `take` |
| Activities.RecentGifsNewest | web/src/app/api/public/activities/route.ts:22-37 | for a non-negative `take`, exactly min(take, number of GIFs with a public parent) are drawn, and no such GIF left out is newer than one drawn |
| Activities.RepoActivity | web/src/app/api/public/activities/route.ts:41-51 | a repository entry has id `repo_<id>` and type repository created |
| Activities.GifActivity | web/src/app/api/public/activities/route.ts:52-62 | a GIF entry has id `gif_<id>`, type GIF uploaded, and its parent's user and id |
| Activities.MapRepos | web/src/app/api/public/activities/route.ts:41-51 | one repository entry per row, in order |
| Activities.MapGifs | web/src/app/api/public/activities/route.ts:52-62 | one GIF entry per row, in order |
| Activities.Feed | web/src/app/api/public/activities/route.ts:4-75 | empty for a NaN limit or a failure; otherwise at most `limit` entries, newest first, each built from a public repository or a GIF of one; for a non-negative limit, exactly the entries of the two draws, rearranged |
| Activities.MergedFromDb | web/src/app/api/public/activities/route.ts:40-63 | every merged entry traces back to a public database row |
| Activities.LimitParam | web/src/app/api/public/activities/route.ts:6 | an absent limit means 10 |
| Activities.NegativeLimitIsEmpty | web/src/app/api/public/activities/route.ts:18-68 | a negative limit always yields an empty feed |
| Activities.DrawsSplitLimit | web/src/app/api/public/activities/route.ts:18-36 | at most floor(limit/2) repositories and ceil(limit/2) GIFs are drawn, `limit` in all |
| Activities.FeedSize | web/src/app/api/public/activities/route.ts:4-75 | for a non-negative limit the feed holds min(floor(limit/2), public repositories) plus min(ceil(limit/2), GIFs with a public parent) entries |
| GifList.Search | web/src/app/dashboard/gifs/page.tsx:69-73 | a GIF is kept exactly when the lower-cased term occurs in its lower-cased name or repository name; an empty term keeps the list |
| GifList.SortBy | web/src/app/dashboard/gifs/page.tsx:74-87 | a permutation, descending by date for newest, ascending for oldest, descending by size for size |
| GifList.Shown | web/src/app/dashboard/gifs/page.tsx:69-87 | the shown list is a permutation of the matching GIFs, and of all GIFs for an empty term |
| GifList.DeleteGif | web/src/app/dashboard/gifs/page.tsx:55-67 | nothing happens without confirmation; only a successful response drops the entries with that id; only a thrown error alerts |
| GifList.DeleteKeepsOrder | web/src/app/dashboard/gifs/page.tsx:61 | deletion distributes over concatenation, leaves lists without the id alone, and is idempotent |
| ProfileStats.ResolveUserId | web/src/app/api/profile/stats/route.ts:9-13 | the session's own id wins; otherwise the id registered for the session's email; otherwise none |
| ProfileStats.Compute | web/src/app/api/profile/stats/route.ts:34-43 | counts the repositories; counts the public ones as the positions holding a public repository; counts and sums GIFs over the flat list of all GIFs; dates from creation or now |
| ProfileStats.PublicCount | web/src/app/api/profile/stats/route.ts:41 | `filter(repo => repo.isPublic).length` is the number of positions holding a public repository |
| ProfileStats.NestedSums | web/src/app/api/profile/stats/route.ts:36-40 | the nested reduces equal the sums over the flattened GIF list |
| ProfileStats.Handle | web/src/app/api/profile/stats/route.ts:5-50 | 401 exactly without a session user, 404 when no id resolves; for a resolved user, success exactly when no query fails, with that user's repositories' statistics, and the 500 "Failed to fetch stats" reply otherwise |
| ProfileStats.DownloadsBoundEachRepository | web/src/app/api/profile/stats/route.ts:38-40 | with non-negative counters, the total bounds every repository's downloads |
| AuthStore.IssueToken | web/src/app/api/auth/password/request/route.ts:5-16 | a bad email is 400; an unknown email stores nothing and answers ok; a known one stores one token for prefix + email, expiring in 3 600 000 ms, then mails it and answers ok, or answers 500 with the token kept when the mailer throws; users never change |
| AuthStore.IssueTokenHidesAccounts | web/src/app/api/auth/verify/request/route.ts:8-15 | while the mailer works, the reply is the same whether or not the email is registered |
| AuthStore.MailFailureRevealsAccount | web/src/app/api/auth/password/request/route.ts:9-15 | when the mailer throws, a registered email gets 500 with its token stored while an unknown one still gets ok |
| AuthStore.IssueTokenKeepsConsistent | web/src/app/api/auth/password/request/route.ts:10-12 | issuing keeps users filed under their emails and every existing token unchanged |
| Register.ParseRegistration | web/src/app/api/auth/register/route.ts:6-10 | an accepted body has a string email passing the email check, a string password of at least 8 UTF-16 code units, and an absent name or a string name of 1 to 100 code units, exactly as extracted |
| Register.ParseRegistrationRoundTrip | web/src/app/api/auth/register/route.ts:6-18 | a well-formed registration reads back from its body whatever other keys it carries, and an ill-formed one is rejected |
| Register.Register | web/src/app/api/auth/register/route.ts:12-35 | 500 on unreadable JSON, 400 on schema failure, 409 for a taken email; 201 exactly when valid, new and with a fresh id, adding one user holding hash(password) and replying with id, email and name only |
| Register.RegisterKeepsInvariants | web/src/app/api/auth/register/route.ts:21-30 | registration keeps emails and ids unique and adds exactly one user on success |
| Register.AddUserKeepsInvariants | web/src/app/api/auth/register/route.ts:27-30 | filing a new user under an unused email with an unused id keeps both uniqueness invariants |
| Register.RegisterTwiceConflicts | web/src/app/api/auth/register/route.ts:21-24 | registering the same email a second time gets 409 and changes nothing |
| PasswordReset.RequestReset | web/src/app/api/auth/password/request/route.ts:5-16 | a new token is stored only for a registered email, prefixed `reset:` and expiring an hour later; it is mailed to that email with an ok reply, or, when the mailer throws, kept with a 500 reply and no mail |
| PasswordReset.ResetInput | web/src/app/api/auth/password/reset/route.ts:6-9 | input passes exactly for a non-empty string token and a string password of at least 8 UTF-16 code units |
| PasswordReset.TargetEmail | web/src/app/api/auth/password/reset/route.ts:14 | the target email is the identifier with one leading `reset:` removed |
| PasswordReset.Reset | web/src/app/api/auth/password/reset/route.ts:5-18 | bad input and unknown, expired or non-reset tokens are 400 with no change; success exactly for a live reset token of an existing user, replacing that hash and deleting the token |
| PasswordReset.ResetKeepsConsistent | web/src/app/api/auth/password/reset/route.ts:15 | a reset keeps users filed under their emails |
| PasswordReset.ResetTokenLifecycle | web/src/app/api/auth/password/reset/route.ts:10-17 | a requested token, whether or not its mail went out, resets the password up to and including expiry, then fails as "Invalid token"; used later, it fails and changes nothing |
| PasswordReset.VerifyTokenCannotReset | web/src/app/api/auth/password/reset/route.ts:11 | a token without the `reset:` prefix never resets a password |
| PasswordReset.FourEmojiPasswordAccepted | web/src/app/api/auth/password/reset/route.ts:7 | a password of four characters above U+FFFF is eight code units long and passes the input check |
| EmailVerification.RequestVerification | web/src/app/api/auth/verify/request/route.ts:5-16 | a new token is stored only for a registered email, with the bare email as identifier, expiring an hour later; it is mailed with an ok reply, or, when the mailer throws, kept with a 500 reply and no mail |
| EmailVerification.Verify | web/src/app/api/auth/verify/route.ts:4-13 | missing, unknown or expired tokens redirect with `verified=0` and change nothing; success exactly for a live token of an existing user, stamping `emailVerified` and deleting the token |
| EmailVerification.VerifyKeepsConsistent | web/src/app/api/auth/verify/route.ts:10 | verification keeps users filed under their emails and never touches a password hash |
| EmailVerification.VerifyTokenLifecycle | web/src/app/api/auth/verify/route.ts:8-12 | a requested token, whether or not its mail went out, verifies the email up to and including expiry, then redirects with `verified=0`; followed later, it changes nothing |
| EmailVerification.ResetTokenCannotVerify | web/src/app/api/auth/verify/route.ts:9-10 | a reset token sent here matches no user, so a live one makes the update throw and nothing changes |

## Left out

- Rendering, styling and navigation of every page and component: presentation only.
- The video element's event listeners, object URLs and the `requestAnimationFrame` preview loop: browser plumbing with no state the selection depends on.
- ffmpeg.wasm itself (loading, file system, execution and the progress callback): a foreign runtime. Its output is the parameter `produced`.
- Concurrent calls to the cached engine and the cached storage client: the code does not serialise them, and the model is sequential.
- `toFixed`, `formatSize` and other display strings, and floating-point rounding in the estimator: real arithmetic is exact here.
- `String(x)` of non-integer times is an opaque `show`, so the parse-back of `-ss`/`-t` values is not modelled.
- GifList.SortBy: the name sort uses an opaque `nameKey` for `localeCompare` and states only the permutation, because collation is locale-dependent.
- Text.Lower: lower-cases ASCII letters only, because full Unicode case mapping is a foreign table.
- The storage SDK's stream, retries, CRC validation, two-minute timeout and "already exists" logging: foreign code and timers.
- Prisma, bcrypt, zod's email regular expression, `crypto.randomUUID` and `encodeURIComponent`: foreign code, passed in as parameters.
- The mailer's transport: only whether it throws is modelled, as `mailFails`. A sent mail is recorded as recipient, subject and token; its HTML body and the SMTP settings are not modelled.
- Activities.LimitParam: an empty `limit` string also falls back to 10; callers pass it as absent. `parseInt` itself is not modelled.
- Activities.Feed: Prisma's rejection of a NaN `take` is modelled as a query failure.
- VideoUploader.Validate: the size message always says 100MB, whatever `maxSize` is, as in the code.
- ProfileStats.Compute: `totalViews` is computed but no property beyond its definition is stated.
- Login, logout, session lookup and the NextAuth callbacks: framework code.
- The thin API routes that only check presence before a database or storage call.
- Timeline.PercentRoundTrip: times and percentages are exact reals in both selectors, so the floating-point rounding of `time / duration * 100` and back is not modelled. The round trip is exact here and only approximate in the browser.
- GifEncoder.GenerateGif: times are reals, so a NaN start or end is not modelled. In the code `Math.max(0, NaN)` is NaN, the `<= 0` check lets it through, and both passes get a NaN length.
- SelectionReports.Run: a render of the page for its own controls (quality, fps, scale, upload progress) re-reports the unchanged pair too. Only the renders that selector events cause are modelled, so those extra reports are missing from a run.
- Timeline.RunKeepsValid: holds only for events possible where they arrive. A metadata load, reset or preset during a drag can invert the selection on the next move; `Timeline.ResetMidDragOrdersWrongly` shows one.
