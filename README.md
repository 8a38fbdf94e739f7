# Portfolio2026 — verified model of its deterministic cores

Keynb23/Portfolio2026 is a React single-page portfolio. Most of it is layout and
animation. A handful of its pieces are small, deterministic computations, and
this project models those in Dafny and proves what they do:

- **Bionic reading** (`bionic.dfy`, module `Bionic`). `formatText` splits a text
  on single spaces and cuts every word into a bold prefix and a plain remainder.
  There are two rules. The banded rule of the hooks bolds 1/2/3 characters and
  then ceil(0.4 L); it renders `null` for an empty piece and a space after every
  word. The older rule of the context files bolds 1 and then ceil(0.4 L); it cuts
  every piece and renders no space. A mode flag and its `toggleBionic` are
  modelled too.
- **Scroll progress** (`scroll.dfy`, module `ScrollProgress`). This is the
  `--scroll-progress` value of the Featured Work section, computed from the
  container's top edge, its height and the viewport height.
- **Loading screen** (`loader.dfy`, module `Loader`). This is the bar's state
  machine: the 50 ms easing tick, the one dramatic pause at 67, the 2 s resume,
  the finishing tick with its 0.5 s `isLoaded` timer, the 12 s force-load, and
  the interval effect re-running. It appears as step functions over a state
  record and as a `LoadingScreen` class whose methods are proved against them.
- **Splash-cursor utilities** (`splash.dfy`, module `SplashCursor`). These are
  the Java-style 32-bit `hashCode`, the `Material` program cache keyed by the sum
  of keyword hashes, `wrap`, `HSVtoRGB` and `getResolution`.
- **Variable-proximity text** (`proximity.dfy`, module `VariableProximity`).
  `interpolateSettings` parses two font-variation strings such as
  `'wght' 400, 'opsz' 9`, interpolates each axis and prints the result. The
  pointer-proximity falloff and the per-letter glyph split are modelled too.
- JavaScript's string operations (`split`, `join`, `trim`, `replace` of one
  character) are in `js_string.dfy`. Its `Math.round`, `Math.max`/`min` and
  truncating `%` are in `js_math.dfy`.

Numbers are exact reals or unbounded integers; where JavaScript wraps or
truncates, the model says so explicitly (`ToInt32`, `Trunc`, `TruncRem`).
`parseFloat` and the printing of numbers are parameters of the interpolation
model (`parseFloat`, `show`). The round trip is proved for any pair that reads
its own output back (`ReadsBack`).

Where the code and its own comments disagree, the model follows the code:

- The banded formatter turns an empty text into one `null` entry, because
  `"".split(" ")` is `[""]`; it does not give an empty array.
- The scroll progress is not guarded against a container shorter than the
  viewport. There it still gives a value in [0, 1], and
  `ShortContainerProgress` shows one.
- The loader's pause at 67 is never reached; see "## Findings".

## Model

| member | source | states |
|---|---|---|
| JsString.Split | FRONTEND/src/components/FeaturedWork/VariableProximity.jsx:8 | `split` gives one more piece than there are separators; no piece holds the separator; joining the pieces with it gives the string back |
| JsString.SplitJoin | FRONTEND/src/hooks/useBionic.js:13 | splitting inverts joining for any non-empty list of separator-free pieces |
| JsString.JoinWithPrefixed | FRONTEND/src/components/FeaturedWork/VariableProximity.jsx:28 | joining with ", " is joining with "," once a space is put before every later piece |
| JsString.RemoveAll | FRONTEND/src/components/FeaturedWork/VariableProximity.jsx:12 | the removed character no longer occurs, and the length drops by its number of occurrences |
| JsString.RemoveAllAppend | FRONTEND/src/components/FeaturedWork/VariableProximity.jsx:12 | removal distributes over concatenation |
| JsString.RemoveAbsent | FRONTEND/src/components/FeaturedWork/VariableProximity.jsx:12 | removing a character that does not occur changes nothing |
| JsString.Trim | FRONTEND/src/components/FeaturedWork/VariableProximity.jsx:9 | `trim` gives a middle slice of the input with non-space ends, and that slice holds every non-space character of the input |
| JsString.TrimPadded | FRONTEND/src/components/FeaturedWork/VariableProximity.jsx:9 | `trim` removes white space put in front of text with non-space ends, and removes nothing else |
| JsString.TrimAround | FRONTEND/src/components/FeaturedWork/VariableProximity.jsx:9 | for white space, then text with non-space ends, then anything: `trim` removes the front, keeps the text, and of what follows removes only the white space at the very end |
| JsMath.Round | FRONTEND/src/splashCursor/utils.js:123-124 | `Math.round` gives the integer within one half below and under one half above |
| JsMath.RoundMonotone | FRONTEND/src/components/loader/loadingScrean.jsx:240 | `Math.round` is monotone |
| JsMath.Trunc | FRONTEND/src/splashCursor/utils.js:117 | truncation towards zero is the integer part of either sign |
| JsMath.TruncRem | FRONTEND/src/splashCursor/utils.js:117 | the truncating `%` takes the sign of the dividend, is smaller in size than the divisor, and differs from the dividend by a whole multiple of the divisor |
| JsMath.Max | FRONTEND/src/components/FeaturedWork/FeaturedWork.jsx:23 | `Math.max` is an upper bound and one of its arguments |
| JsMath.Min | FRONTEND/src/components/FeaturedWork/FeaturedWork.jsx:23 | `Math.min` is a lower bound and one of its arguments |
| JsMath.LerpRealBetween | FRONTEND/src/components/FeaturedWork/VariableProximity.jsx:25 | `start + (end - start) * factor` for a factor in [0, 1] lies between start and end, whichever is larger |
| JsMath.SquareBounds | FRONTEND/src/components/FeaturedWork/VariableProximity.jsx:79-81 | squaring keeps [0, 1], never raises the value, and is 0 or 1 exactly when the value is |
| JsMath.SquareMonotone | FRONTEND/src/components/FeaturedWork/VariableProximity.jsx:79-81 | squaring is monotone on non-negative numbers |
| ScrollProgress.TotalScrollable | FRONTEND/src/components/FeaturedWork/FeaturedWork.jsx:22 | the scrollable range is positive exactly when the container is taller than the viewport |
| ScrollProgress.Progress | FRONTEND/src/components/FeaturedWork/FeaturedWork.jsx:22-23 | the progress is in [0, 1]; for a positive range it is 0 at or below the start, 1 at or past the end, and exactly the scrolled fraction in between; for a negative range the mirror statements hold |
| ScrollProgress.ShortContainerProgress | FRONTEND/src/components/FeaturedWork/FeaturedWork.jsx:22-23 | the unguarded negative range: a 500-high container in an 800-high viewport gives 0.5 when its top is 150 below the viewport's |
| ScrollProgress.ProgressBoundaries | FRONTEND/src/components/FeaturedWork/FeaturedWork.jsx:20-23 | top 0 gives 0, top −range gives 1, top −range/2 gives 0.5, and values past either end are held |
| ScrollProgress.ProgressMonotone | FRONTEND/src/components/FeaturedWork/FeaturedWork.jsx:23 | scrolling down never lowers the progress |
| ScrollProgress.ProgressInverse | FRONTEND/src/components/FeaturedWork/FeaturedWork.jsx:23 | every progress in [0, 1] is reached at top = −progress · range |
| Bionic.CeilTwoFifths | FRONTEND/src/hooks/useBionic.js:25 | `(2L + 4) / 5` is the least integer not below 0.4 L, i.e. `Math.ceil(L * 0.4)` |
| Bionic.BandedBoldLength | FRONTEND/src/hooks/useBionic.js:22-25 | the banded bold length is at least 1 and, for a non-empty word, at most its length |
| Bionic.LegacyBoldLength | src/context/BionicContext.jsx:16 | the older bold length is at least 1 and, for a non-empty piece, at most its length |
| Bionic.Head | FRONTEND/src/context/useBionic.js:18 | `slice(0, b)` is a prefix of the word of length min(b, length), so an empty piece gives "" |
| Bionic.Tail | FRONTEND/src/context/useBionic.js:20 | bold prefix followed by `slice(b)` is the word again |
| Bionic.BandedEntry | FRONTEND/src/hooks/useBionic.js:14-40 | a piece gives `null` exactly when it is empty; otherwise a segment whose bold part and remainder make up the word, whose bold part has the banded length, and which is followed by a space |
| Bionic.LegacyEntry | FRONTEND/src/context/useBionic.js:14-21 | every piece, empty or not, gives a segment whose bold part and remainder make up the piece, whose bold part has the older length clamped to the piece, and which has no space after it |
| Bionic.FormatBanded | FRONTEND/src/hooks/useBionic.js:10-42 | mode off or a non-string gives the input back; otherwise there is one entry per `split(" ")` piece, in order, `null` exactly for empty pieces, and each segment is the word cut at the banded length with a trailing space |
| Bionic.FormatLegacy | FRONTEND/src/context/useBionic.js:10-24 | mode off or a non-string gives the input back; otherwise every piece, empty ones included, is cut at the older length clamped to the piece, with no space |
| Bionic.BandedTable | FRONTEND/src/hooks/useBionic.jsx:22-25 | the bands: 1 for lengths 1–3, 2 for 4–6, 3 for 7–9, then 4, 5 and 8 for lengths 10, 11 and 20 |
| Bionic.BandedMonotone | FRONTEND/src/hooks/useBionic.js:22-25 | a longer word never gets a shorter bold prefix |
| Bionic.LegacyVersusBanded | FRONTEND/src/context/useBionic.js:14 | the older rule agrees with the banded one for lengths up to 5, for 7 and from 10 on, and bolds one more for 6, 8 and 9 |
| Bionic.BandedRecoversText | FRONTEND/src/hooks/useBionic.jsx:13-32 | joining the banded entries' words with spaces gives the input text back |
| Bionic.LegacyRecoversText | src/context/BionicContext.jsx:15-22 | joining the older entries' words with spaces gives the input text back |
| Bionic.LegacyRenderedDropsSpaces | FRONTEND/src/context/useBionic.js:13-21 | the older entries show every character of the text except its spaces |
| Bionic.BandedRenderedText | FRONTEND/src/hooks/useBionic.js:13-40 | for single-spaced text without outer spaces, the banded entries show the text followed by one space |
| Bionic.BionicMode.Atom | FRONTEND/src/hooks/useBionic.jsx:6 | the hook's mode starts at the atom's value |
| Bionic.BionicMode.Provider | src/context/BionicContext.jsx:7 | the provider's mode starts off |
| Bionic.BionicMode.ToggleBionic | FRONTEND/src/hooks/useBionic.js:8 | `toggleBionic` negates the mode |
| Loader.PauseDue | FRONTEND/src/components/loader/loadingScrean.jsx:240 | the pause is due, only before it has happened, for a previous value in [66.5, 67.5) as written and in [66.5, 99.5) under the corrected rule |
| Loader.Finishes | FRONTEND/src/components/loader/loadingScrean.jsx:251-252 | a tick finishes exactly when no asset is loading and either the asset progress has reached 100 or the display is at least 99.5 |
| Loader.Advance | FRONTEND/src/components/loader/loadingScrean.jsx:257-258 | an easing step never goes above 99.9, never lowers a value of at most 99.9, and raises one below 99.9 |
| Loader.TickStep | FRONTEND/src/components/loader/LoadingScreen.jsx:260-285 | no tick happens once loaded or stopped; `isLoaded` is untouched; `hasPaused` is never cleared and is set only by a due pause, which shows 67; a display of 100 comes only from a finishing tick, which stops the interval and schedules `isLoaded` |
| Loader.ResumeStep | FRONTEND/src/components/loader/LoadingScreen.jsx:294-303 | resume clears the pause and shows 68, and does nothing without a pause |
| Loader.LoadTimerStep | FRONTEND/src/components/loader/LoadingScreen.jsx:279 | the half-second timer sets `isLoaded` exactly when a finishing tick scheduled it |
| Loader.ForceLoadStep | FRONTEND/src/components/loader/LoadingScreen.jsx:309-317 | the twelve-second timer sets `isLoaded` whatever the progress and leaves the display alone |
| Loader.RerunStep | FRONTEND/src/components/loader/LoadingScreen.jsx:257-288 | the effect starts a new interval unless loaded, leaving the display and flags alone |
| Loader.HoldsWhilePaused | FRONTEND/src/components/loader/loadingScrean.jsx:247-249 | while paused every tick shows 67 |
| Loader.TickNeverOvershoots | FRONTEND/src/components/loader/loadingScrean.jsx:257-258 | a tick that neither pauses nor finishes stays at most 99.9 and does not go down |
| Loader.FinishingTick | FRONTEND/src/components/loader/loadingScrean.jsx:251-256 | a finishing tick shows exactly 100 and stops the interval |
| Loader.AdvanceGeometric | FRONTEND/src/components/loader/loadingScrean.jsx:257-258 | below 99 a tick maps x to 5 + 0.95 x |
| Loader.RunKeepsFlags | FRONTEND/src/components/loader/loadingScrean.jsx:164-165 | over any run of events, `hasPaused` and `isLoaded` are never reset |
| Loader.AtMostOnePause | FRONTEND/src/components/loader/loadingScrean.jsx:240-244 | from mounting, the pause starts at most once, and exactly once if `hasPaused` ends up set |
| Loader.PausedImpliesHasPaused | FRONTEND/src/components/loader/loadingScrean.jsx:240-249 | from mounting, a pause in progress implies `hasPaused` |
| Loader.PausedShowsCritical | FRONTEND/src/components/loader/loadingScrean.jsx:240-249 | from mounting, a pause in progress always shows 67 |
| Loader.RunAppend | FRONTEND/src/components/loader/loadingScrean.jsx:232-235 | running two batches of events is running the second from the state the first leaves |
| Loader.FinishedStep | FRONTEND/src/components/loader/loadingScrean.jsx:240-258 | no single event, under either rule, takes a display of at least 99.5 without a pause below 99.5 or into a pause |
| Loader.FinishedRun | FRONTEND/src/components/loader/loadingScrean.jsx:240-258 | from a display of at least 99.5 without a pause, any run of events, under either rule, keeps it so |
| Loader.FinishedBarStays | FRONTEND/src/components/loader/loadingScrean.jsx:240-258 | from mounting, under either rule, once the display is at least 99.5 no later events bring it below 99.5 |
| Loader.FinishedThenRerun | FRONTEND/src/components/loader/loadingScrean.jsx:232-256 | under the corrected rule, a bar finished at 100 whose interval restarts after an effect re-run still shows 100 after the next tick |
| Loader.EasedIncreasing | FRONTEND/src/components/loader/loadingScrean.jsx:257-258 | the eased values from 0 increase and stay below 100 |
| Loader.TickJumpsOverCritical | FRONTEND/src/components/loader/loadingScrean.jsx:240 | 21 ticks give about 65.94, which rounds to 66; the 22nd gives about 67.65, which rounds to 68 |
| Loader.PauseNeverFires | FRONTEND/src/components/loader/loadingScrean.jsx:240 | as written, no run of ticks, timers and effect re-runs from mounting pauses or shows a value that rounds to 67 |
| Loader.IntendedPauseFires | FRONTEND/src/components/loader/loadingScrean.jsx:228-244 | with the trigger `67 <= round(prev) < 100`, the 23rd tick of a load in progress pauses at 67 |
| Loader.LoadingScreen.constructor | FRONTEND/src/components/loader/loadingScrean.jsx:162-165 | the screen mounts at 0, with no pause and not loaded |
| Loader.LoadingScreen.Tick | FRONTEND/src/components/loader/loadingScrean.jsx:232-263 | the interval callback changes the state exactly as `TickStep` |
| Loader.LoadingScreen.Resume | FRONTEND/src/components/loader/loadingScrean.jsx:269-278 | the resume timer changes the state exactly as `ResumeStep` |
| Loader.LoadingScreen.LoadTimerFires | FRONTEND/src/components/loader/loadingScrean.jsx:254 | the half-second timer changes the state exactly as `LoadTimerStep` |
| Loader.LoadingScreen.ForceLoad | FRONTEND/src/components/loader/loadingScrean.jsx:284-292 | the force-load timer changes the state exactly as `ForceLoadStep` |
| Loader.LoadingScreen.Rerun | FRONTEND/src/components/loader/loadingScrean.jsx:232-235 | the re-run effect changes the state exactly as `RerunStep` |
| SplashCursor.ToInt32 | FRONTEND/src/splashCursor/utils.js:140 | `x \| 0` is the signed 32-bit value congruent to x modulo 2^32 |
| SplashCursor.ToInt32Congruent | FRONTEND/src/splashCursor/utils.js:139-140 | numbers congruent modulo 2^32 wrap to the same value |
| SplashCursor.HashOf | FRONTEND/src/splashCursor/utils.js:135-143 | the hash is a signed 32-bit integer |
| SplashCursor.HashCode | FRONTEND/src/splashCursor/utils.js:135-143 | the loop computes the hash (0 for the empty string) and stays in signed 32-bit range |
| SplashCursor.HashOfPolynomial | FRONTEND/src/splashCursor/utils.js:138-141 | the hash is the polynomial Σ 31^(n−1−i) s[i], wrapped to 32 bits once at the end |
| SplashCursor.HashOfOneUnit | FRONTEND/src/splashCursor/utils.js:139 | a one-unit string hashes to its code unit |
| SplashCursor.KeywordsKey | FRONTEND/src/splashCursor/utils.js:23-25 | the cache key is the unwrapped sum of the material's `hashCode` over the keywords; when every hash is a signed 32-bit integer it lies between −2^31 and 2^31 − 1 times the number of keywords, so it can leave the 32-bit range |
| SplashCursor.ModuleHashInRange | FRONTEND/src/splashCursor/utils.js:23-25 | with the module's own `hashCode` every keyword hash is a signed 32-bit integer, so the key bounds apply |
| SplashCursor.KeywordsKeyAppend | FRONTEND/src/splashCursor/utils.js:23-25 | the cache key of concatenated keyword lists is the sum of their keys |
| SplashCursor.KeywordsKeyPermutation | FRONTEND/src/splashCursor/utils.js:23-26 | keyword order does not change the cache key |
| SplashCursor.KeywordsKeyCollision | FRONTEND/src/splashCursor/utils.js:23-26 | different keyword sets can share a key: ["a", "b"] and ["Ã"] both give 195 |
| SplashCursor.KeywordsHash | FRONTEND/src/splashCursor/utils.js:23-25 | the loop computes the unwrapped sum of the keyword hashes under the given `hashCode` |
| SplashCursor.Material.constructor | FRONTEND/src/splashCursor/utils.js:2-21 | a material keeps the `getUniforms` and `hashCode` it is given and starts with no programs, no active program and no uniforms |
| SplashCursor.Material.SetKeywords | FRONTEND/src/splashCursor/utils.js:22-39 | the key is the sum of the material's own `hashCode` over the keywords; a cache hit leaves the cache unchanged and compiles nothing; a miss compiles exactly one program and adds only its key; the keyed program becomes active; uniforms are read only when the active program changes |
| SplashCursor.Wrap | FRONTEND/src/splashCursor/utils.js:114-118 | an empty range gives min; values in [min, max) are unchanged; values from min land in [min, min + range); values below min land in (min − range, min]; in every case with a non-empty range the result differs from the value by a whole multiple of the range |
| SplashCursor.WrapPeriodic | FRONTEND/src/splashCursor/utils.js:117 | from min on, adding the range does not change the wrapped value |
| SplashCursor.WrapBelowRange | FRONTEND/src/splashCursor/utils.js:117 | wrap(−1, 0, 10) is −1 and not 9, wrap(−10, 0, 10) is 0, and wrap(12, 0, 10) is 2 |
| SplashCursor.HsvToRgb | FRONTEND/src/splashCursor/utils.js:70-112 | zero saturation gives a grey of the value; a non-negative hue always selects a sector |
| SplashCursor.TruncRemSix | FRONTEND/src/splashCursor/utils.js:77 | `i % 6` takes the sign of i and is congruent to it |
| SplashCursor.SectorColor | FRONTEND/src/splashCursor/utils.js:77-110 | a colour is produced exactly for the six sectors 0–5 |
| SplashCursor.SectorExtremes | FRONTEND/src/splashCursor/utils.js:78-107 | in every sector the largest component is v and the smallest is p |
| SplashCursor.HsvExtremes | FRONTEND/src/splashCursor/utils.js:72-107 | for a non-negative hue and s, v in range, the largest component is v and the smallest v(1 − s) |
| SplashCursor.HsvPeriodic | FRONTEND/src/splashCursor/utils.js:72-77 | hues one apart give the same colour |
| SplashCursor.HsvNegativeHueUndefined | FRONTEND/src/splashCursor/utils.js:77-109 | a negative hue can select no sector, leaving the components undefined |
| SplashCursor.GetResolution | FRONTEND/src/splashCursor/utils.js:120-128 | the short side is round(resolution) and the long side round(resolution · aspect ≥ 1); the long side is the width exactly when the buffer is wider than tall |
| SplashCursor.AspectAtLeastOne | FRONTEND/src/splashCursor/utils.js:121-122 | the aspect ratio after inversion is at least 1 |
| SplashCursor.SquareResolution | FRONTEND/src/splashCursor/utils.js:120-128 | a square buffer gives round(resolution) on both sides |
| VariableProximity.Lookup | FRONTEND/src/components/FeaturedWork/VariableProximity.jsx:24 | a key is found exactly when it is among the settings' own keys, with a value stored for it (inherited names are not modelled) |
| VariableProximity.LookupStored | FRONTEND/src/components/FeaturedWork/VariableProximity.jsx:23 | with distinct keys, each stored key finds its own value |
| VariableProximity.Store | FRONTEND/src/components/FeaturedWork/VariableProximity.jsx:12 | storing an existing key keeps the keys and their order; a new key goes at the end (the `__proto__` setter is not modelled) |
| VariableProximity.StoreLookup | FRONTEND/src/components/FeaturedWork/VariableProximity.jsx:12 | after storing, the key finds the new value and every other key what it found before |
| VariableProximity.StoreKeepsDistinct | FRONTEND/src/components/FeaturedWork/VariableProximity.jsx:12 | storing keeps keys distinct |
| VariableProximity.StripQuotes | FRONTEND/src/components/FeaturedWork/VariableProximity.jsx:12 | the key has no quote left and no character that was not there before |
| VariableProximity.QuotesStripped | FRONTEND/src/components/FeaturedWork/VariableProximity.jsx:12 | a quoted key without quotes inside comes back unquoted |
| VariableProximity.ParseEntry | FRONTEND/src/components/FeaturedWork/VariableProximity.jsx:9-10 | an accepted part has a non-empty value without spaces and, if it has no comma, a clean key |
| VariableProximity.ParseEntryFields | FRONTEND/src/components/FeaturedWork/VariableProximity.jsx:9-12 | a part made of white space, a key and a value without spaces joined by one space, and then nothing or anything after another space, parses to the unquoted key and the value |
| VariableProximity.ParseEntryDoubledSpace | FRONTEND/src/components/FeaturedWork/VariableProximity.jsx:9-10 | two spaces between key and value leave an empty second piece, and the part is ignored |
| VariableProximity.KeyWithoutValueIgnored | FRONTEND/src/components/FeaturedWork/VariableProximity.jsx:10 | a trimmed part without a space has no value and is ignored |
| VariableProximity.ParseEntryRendered | FRONTEND/src/components/FeaturedWork/VariableProximity.jsx:9-12 | a rendered `'key' value` part, after at most one space, parses to that key and value |
| VariableProximity.ParseParts | FRONTEND/src/components/FeaturedWork/VariableProximity.jsx:8-14 | the parsed settings have distinct keys, and clean keys when no part holds a comma |
| VariableProximity.ParseSpec | FRONTEND/src/components/FeaturedWork/VariableProximity.jsx:6-16 | parsing a string gives distinct, clean keys |
| VariableProximity.Parse | FRONTEND/src/components/FeaturedWork/VariableProximity.jsx:6-16 | the `forEach` loop computes the parsed settings |
| VariableProximity.ParsePartsStep | FRONTEND/src/components/FeaturedWork/VariableProximity.jsx:8-13 | each part either stores its key and parsed value or is ignored |
| VariableProximity.LaterPartWins | FRONTEND/src/components/FeaturedWork/VariableProximity.jsx:12 | a later duplicate key overwrites the value and keeps the key order |
| VariableProximity.MalformedPartIgnored | FRONTEND/src/components/FeaturedWork/VariableProximity.jsx:10 | a part without a key and a value changes nothing |
| VariableProximity.EndValue | FRONTEND/src/components/FeaturedWork/VariableProximity.jsx:24 | `toSettings[key] \|\| start` is either the start or the value found; a found non-zero finite value is taken; the result is NaN only if the start is, and 0 only if the start is |
| VariableProximity.Lerp | FRONTEND/src/components/FeaturedWork/VariableProximity.jsx:25 | the interpolation is NaN exactly when an endpoint is |
| VariableProximity.LerpBetween | FRONTEND/src/components/FeaturedWork/VariableProximity.jsx:25 | for a factor in [0, 1] the interpolation lies between its endpoints |
| VariableProximity.InterpolateOne | FRONTEND/src/components/FeaturedWork/VariableProximity.jsx:23-26 | interpolating keeps the key |
| VariableProximity.Interpolated | FRONTEND/src/components/FeaturedWork/VariableProximity.jsx:22-27 | the result has exactly the keys of `from`, in `from`'s order, and keeps them distinct |
| VariableProximity.InterpolateReachesTarget | FRONTEND/src/components/FeaturedWork/VariableProximity.jsx:23-25 | at factor 1 a finite setting becomes the non-zero finite value found under its key in `to` |
| VariableProximity.InterpolateEndpoints | FRONTEND/src/components/FeaturedWork/VariableProximity.jsx:23-25 | factor 0 gives `from`; factor 1 gives the end value of every finite setting |
| VariableProximity.FalsyTargetKeepsStart | FRONTEND/src/components/FeaturedWork/VariableProximity.jsx:24 | a key missing from `to`, or with value 0 or NaN there, keeps its start for every factor |
| VariableProximity.InterpolatedBetween | FRONTEND/src/components/FeaturedWork/VariableProximity.jsx:25 | for a factor in [0, 1] every finite setting lies between its start and end |
| VariableProximity.InterpolateSettings | FRONTEND/src/components/FeaturedWork/VariableProximity.jsx:4-29 | the loop renders the interpolation of the two parsed settings |
| VariableProximity.RenderEntry | FRONTEND/src/components/FeaturedWork/VariableProximity.jsx:26 | an entry with a clean key and a number printed without spaces or commas parses back to that key and that printed number |
| VariableProximity.Render | FRONTEND/src/components/FeaturedWork/VariableProximity.jsx:28 | no settings give the empty string; otherwise the ", "-joined output is the entries, each after the first preceded by one space, joined by commas |
| VariableProximity.ParseRender | FRONTEND/src/components/FeaturedWork/VariableProximity.jsx:6-28 | rendered settings with distinct, clean keys and readable numbers parse back to themselves |
| VariableProximity.InterpolateThenParse | FRONTEND/src/components/FeaturedWork/VariableProximity.jsx:4-29 | when the interpolated numbers print readably, the output of `interpolateSettings` parses back to the interpolated settings |
| VariableProximity.Proximity | FRONTEND/src/components/FeaturedWork/VariableProximity.jsx:76 | proximity is in [0, 1], 0 exactly from the radius out, and falls linearly with distance inside it |
| VariableProximity.Falloff | FRONTEND/src/components/FeaturedWork/VariableProximity.jsx:79-81 | the linear falloff keeps the proximity unchanged; on [0, 1] either falloff keeps [0, 1], never raises the proximity and keeps both ends |
| VariableProximity.ProximityMonotone | FRONTEND/src/components/FeaturedWork/VariableProximity.jsx:76-81 | a nearer glyph is never less affected, under either falloff |
| VariableProximity.Glyphs | FRONTEND/src/components/FeaturedWork/VariableProximity.jsx:110-120 | one glyph per character, and no plain space is shown |
| VariableProximity.GlyphsRestoreLabel | FRONTEND/src/components/FeaturedWork/VariableProximity.jsx:110-120 | turning the no-break spaces back into spaces gives the label back |

## Left out

- Floating point: numbers are exact reals, so IEEE-754 rounding, −0, infinities and NaN are not modelled. The exceptions are the NaN that `parseFloat` may return in `VariableProximity` and the undefined colour of `HSVtoRGB`.
- Strings are sequences of characters; UTF-16 surrogate pairs are not told apart from other characters (`SplashCursor.CodeUnit` is a 16-bit number).
- `parseFloat` and number-to-string printing are parameters of the interpolation model; their actual behaviour is not modelled.
- VariableProximity.Interpolated: keys follow `from`'s insertion order. JavaScript lists integer-like keys first in `for…in`, which is not modelled, because font axes are four-letter tags.
- VariableProximity.Lookup, VariableProximity.Store: settings objects are association lists of their own properties. JavaScript's plain objects also answer inherited `Object.prototype` names (`toSettings["constructor"]` is a truthy function, so such a key would interpolate to NaN), and `settings["__proto__"] = n` stores nothing; neither is modelled, because font axes are four-letter tags.
- VariableProximity.Proximity: requires a non-negative distance and a positive radius. The distance is an input (its `Math.sqrt` from pointer coordinates is left out), and a zero radius would divide by zero.
- ScrollProgress.Progress: requires a non-zero scrollable range. The code divides by it unguarded, and a zero range gives NaN or an infinity.
- SplashCursor.GetResolution: requires positive buffer sizes. Its inputs are a WebGL context's drawing buffer, which is not part of this model.
- SplashCursor.Material: WebGL shader compilation and program linking are a fresh-id counter (`compiled`), and `getUniforms` and `hashCode` are function parameters of the constructor, as in the code; the module's own `hashCode` (`HashOf`) is one such function. `bind`, the `Program` class, `pointerPrototype` and `scaleByPixelRatio` (which reads the device pixel ratio) are not part of this model.
- Loader: clock time is not modelled. The 50 ms interval, the 2 s resume, the 0.5 s `isLoaded` timer and the 12 s force-load are events that may come in any order. The interval callback reads `isPausedAtCritical`, `progress` and `active` from the effect's latest run; the model reads the current state.
- Loader: the loader's audio, GSAP exit timeline, particle field, hover state and body scroll lock are not modelled.
- Bionic: the initial value of `bionicModeAtom` comes from a store module that is not part of this model, so `BionicMode.Atom` takes it as a parameter. React element structure, keys and styles are left out; only text and segment content are modelled.
- Bionic.BionicMode.ToggleBionic: the toggles of FRONTEND/src/hooks/useBionic.jsx, FRONTEND/src/context/useBionic.js and src/context/BionicContext.jsx are the same negation and share this member.
- DOM measurement, event listeners and the `--scroll-progress` CSS write are left out.

## Findings

| source | as written | input that shows it | evidently intended | confidence | as-written member | corrected member |
|---|---|---|---|---|---|---|
| FRONTEND/src/components/loader/loadingScrean.jsx:240 (also FRONTEND/src/components/loader/LoadingScreen.jsx:265) | the pause starts when `Math.round(prev) === 67` | ticks from 0 while assets load: after 21 ticks the display is 65.94…, after 22 it is 67.65…, so no value rounds to 67 and the 67% pause promised at line 230 never happens | start the pause once the shown percentage is from 67 to 99 (`Math.round(prev) >= 67 && Math.round(prev) < 100`), so a finished bar is never sent back to 67 (`Loader.FinishedBarStays`) | high, not executed | Loader.PauseNeverFires | Loader.IntendedPauseFires |
