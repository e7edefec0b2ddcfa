# Wedding announcement page — behavioural model

The page (`src/App.tsx`) is one React component. Almost all of it is static
markup. It holds three small pieces of behaviour, and this project models and
proves properties of each of them:

- **Countdown** (`countdown.dfy`, module `Countdown`). Once a second the page
  turns the milliseconds left until the ceremony, `diff = target - now`, into
  `{days, hours, minutes, seconds}`. Each field is `Math.max(0, Math.floor(...))`,
  and hours, minutes and seconds are reduced by JavaScript's `%`.
  `Tick` is that expression on exact reals. `Decompose` is the same
  decomposition on integers. `TickMatchesDecompose` proves that the two agree
  for every `target` and `now`. The lemmas prove the clock ranges, that the
  countdown is all zeros once the target has passed, and that the decomposition
  is lossless at one-second resolution. The class `Timer` holds the `timeLeft`
  state: it starts at zero and each tick overwrites it.
- **Theme** (`theme.dfy`, module `Theme`). The initial theme is the stored
  string, or `"light"` when the string is missing or empty. The theme button
  maps `"light"` to `"dark"` and everything else to `"light"`. After every
  change an effect writes the theme to storage and to the root element's
  `data-theme` attribute. The class `ThemeState` holds the theme, the storage
  map and the attribute.
- **Music toggle** (`music.dfy`, module `Music`). The page has a `musicOn`
  flag and a hidden looping audio element. The spec function `Step` gives the
  page's response to each event: a click on the music button, the element's
  `error` event, or its `canplaythrough` event. The class `MusicToggle` holds
  the same state. Its handlers `Click`, `OnLoadError` and `OnCanPlayThrough`
  are proved equal to `Step`. `RequestPlay` and `RunEffect` are proved equal
  to the spec functions `Play` and `Effect`, and `Mount` to the spec constant
  `Initial`. Its invariant `Valid` includes "flag off implies audio paused". Each `play()`
  request is a boolean outcome. The `alert` and the console log are counters.

Exact integer and real arithmetic is used in place of JavaScript doubles.
The wall clock (`new Date().getTime()`), storage and the audio element's
`play()` outcomes are parameters.

Two behaviours of the code are easy to expect otherwise, and the model follows the code:

- One might expect a failed start of playback to turn music off. In the code
  (`src/App.tsx:137-144`), a failed `play()` on a click logs the error and
  shows the notice, and does nothing else. `musicOn` stays true. `FailedPlayLeavesFlagOn` states this. It also shows
  that the click the notice asks for then turns music off.
- One might expect a stored theme that is neither light nor dark to fall
  back to light. In the code (`src/App.tsx:44`), the stored string is only cast. Any non-empty
  string becomes the theme. `ToggleTwiceOfOtherValue` shows what two toggles
  then do to such a value.

## Model

| member | source | states |
|---|---|---|
| Countdown.Tick | src/App.tsx:55-60 | one tick's snapshot is well formed (all fields non-negative, hours < 24, minutes and seconds < 60); it is all zeros once `now >= target`; and while `now <= target` its fields add back up to the whole seconds left, `(target - now) / 1000` |
| Countdown.Decompose | src/App.tsx:56-60 | the integer decomposition is well formed, loses nothing at one-second resolution for `diff >= 0`, and is all zeros for a negative `diff` or one under a second |
| Countdown.DecomposeIsLossless | src/App.tsx:57-60 | `86400*days + 3600*(hours mod 24) + 60*(minutes mod 60) + seconds mod 60` equals the whole seconds in `diff` |
| Countdown.DecomposeRoundTrip | src/App.tsx:57-60 | every well-formed snapshot, plus any sub-second remainder, decomposes back to itself, so the decomposition is the inverse of `TotalSeconds` |
| Countdown.FieldsMatchDecompose | src/App.tsx:57-60 | the four fields as the page computes them (floor of the exact quotient, JavaScript's sign-of-dividend `%`, clamp at zero) equal the integer decomposition for every signed `diff` |
| Countdown.TickMatchesDecompose | src/App.tsx:55-61 | one tick of the page equals the integer decomposition of `target - now`, for every `target` and `now` |
| Countdown.DaysFieldIsClamped | src/App.tsx:57 | the days field is the whole days in `diff`, and zero when `diff` is negative |
| Countdown.FloorOfQuotient | src/App.tsx:57 | flooring an exact quotient gives integer floor division, for negative dividends too |
| Countdown.ClockFieldNonNegative | src/App.tsx:58-60 | for `diff >= 0`, `Math.floor((diff / unit) % m)` is `(diff / unit) mod m` |
| Countdown.ClockFieldNegative | src/App.tsx:58-60 | for `diff < 0`, JavaScript's `%` is never positive, so `Math.max(0, ...)` gives zero |
| Countdown.OneOfEachUnit | src/App.tsx:56-60 | 90061 seconds before the target the snapshot is one day, one hour, one minute and one second |
| Countdown.CountdownNeverGrows | src/App.tsx:55-61 | a later `now` never shows more seconds left than an earlier one |
| Countdown.Timer.constructor | src/App.tsx:43 | before the first tick the snapshot is all zeros |
| Countdown.Timer.OnTick | src/App.tsx:54-61 | a tick replaces the whole snapshot with the one computed from the current `now`, which is well formed and is zero once the target has passed |
| Theme.GetItem | src/App.tsx:44 | reading storage gives the stored string exactly when the key is present, and nothing (`null`) when it is missing |
| Theme.InitialTheme | src/App.tsx:44 | the initial theme is the stored string when it is present and non-empty, and `"light"` otherwise; it is never empty and is not checked against light/dark |
| Theme.Toggled | src/App.tsx:109 | the result is light or dark and always differs from the previous theme; it is dark exactly when the previous theme was light |
| Theme.ToggleTwiceRestores | src/App.tsx:109 | toggling light or dark twice gives back the original |
| Theme.ToggleTwiceOfOtherValue | src/App.tsx:109 | a value that is neither theme becomes light after one toggle and dark after two |
| Theme.ReloadRestoresTheme | src/App.tsx:44 | once storage holds a non-empty theme, the next mount starts with that theme |
| Theme.ReloadExamples | src/App.tsx:44 | a stored dark preference is read back as dark; a missing one gives light |
| Theme.ThemeState.Mount | src/App.tsx:44-51 | after mounting, the theme is the initial theme read from storage; storage holds it under `theme`, nothing else in storage changes, and the document attribute holds it |
| Theme.ThemeState.PersistEffect | src/App.tsx:48-51 | the effect writes the current theme to the document attribute and to storage under `theme`, and changes nothing else |
| Theme.ThemeState.Toggle | src/App.tsx:109 | the theme button sets the toggled theme, and afterwards storage and the attribute hold it and every other storage key keeps its value |
| Music.Step | src/App.tsx:66-146 | every event keeps "flag off implies audio paused"; a click negates the flag; a click that turns music on leaves the audio playing when either its own or the effect's `play()` succeeds; a load error forces the flag off; `canplaythrough` keeps the flag and, while music is on, a successful `play()` leaves the audio playing; only a click turns the flag on; audio starts only while the flag is on, and only when a `play()` succeeds; the audio stops only when the flag goes off; the notice count grows by one exactly when a click turns music on and its own `play()` fails; the error log never shrinks |
| Music.RunKeepsConsistent | src/App.tsx:99-100 | after any sequence of events the audio is paused whenever the flag is off |
| Music.NoSoundWithoutClick | src/App.tsx:45-101 | from the mounted state, without a click, music stays off, the audio stays paused and no notice appears |
| Music.NoticesAtMostFailedClicks | src/App.tsx:140-144 | over any sequence of events, no more notices are shown than there were clicks whose own `play()` outcome is a failure (counted whichever way the click turns the flag, so the bound is loose for clicks that turn music off) |
| Music.ClickTwiceRestoresFlag | src/App.tsx:137-138 | two clicks leave the flag as it was |
| Music.FailedPlayLeavesFlagOn | src/App.tsx:137-144 | a click that turns music on, where both `play()` requests fail, shows the notice once and leaves the flag on while the audio is paused; the next click turns the flag off and pauses |
| Music.MusicToggle.Mount | src/App.tsx:45-101 | the page mounts with music off and the audio paused, no notices, and the element set to volume 0.35 and looping; the class invariant, which includes "flag off implies audio paused", holds |
| Music.MusicToggle.RequestPlay | src/App.tsx:92-97 | a `play()` request starts the audio or, on failure, logs the error and changes nothing else |
| Music.MusicToggle.RunEffect | src/App.tsx:66-101 | the effect sets volume 0.35 and looping, then plays when the flag is on and pauses when it is off |
| Music.MusicToggle.Click | src/App.tsx:135-146 | the music button changes the state exactly as `Step` does for a click, and keeps the class invariant |
| Music.MusicToggle.OnLoadError | src/App.tsx:74-77 | the load-error handler logs the error and changes the state exactly as `Step` does for a load error, and keeps the class invariant |
| Music.MusicToggle.OnCanPlayThrough | src/App.tsx:80-86 | the `canplaythrough` handler asks to play only while the flag is on, as `Step` does, and keeps the class invariant |

## Left out

- Floating point: the page divides and takes `%` on doubles. The model uses exact reals and integers, so rounding of large quotients is not modelled.
- Timer scheduling: `setInterval` and `clearInterval`, the clock read and the parse of the ceremony date (`src/App.tsx:12`, `:54-63`) are host I/O. `now` and `target` are parameters.
- Browser audio internals: the promise behind `play()`, listener registration and removal, `preload` and the playback position. Each `play()` outcome is a boolean parameter. Whether `pause()` keeps the playback position is the browser's behaviour and is not modelled.
- Music.MusicToggle.Click: a click that turns music on issues two `play()` requests, the handler's and the effect's. The model applies their outcomes in that order. It does not model any other interleaving of the two asynchronous results.
- The `audioRef.current` null checks (`src/App.tsx:67`, `:140`) are not modelled. The audio element is rendered unconditionally (`src/App.tsx:264-270`), so the ref is set whenever these run.
- `console.error` messages and the `alert` text are not modelled. Only their counts are (`errorsLogged`, `notices`).
- Markup, styling, animation props (`fadeUp`), icons, the map iframe, the static content arrays (`storyMoments`, `galleryPhotos`, `heroImage`, `musicUrl`) and the image `onError` hiding are presentation with no logic.
