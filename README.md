# YouTube downloader: format selection, file naming and duration display

This project models the pure core of a small YouTube downloader: an Express
server that asks an extraction library for a video's metadata, and a React
page that shows it. The model proves the following properties in Dafny:

- **Format selector** (`Formats`, `server/index.js`). The `/api/video-info`
  handler turns the library's raw format list into download options in four
  steps. It keeps the formats that have both video and audio. It projects
  each one to `{quality, format, size, itag}`. It drops every entry whose
  quality equals that of an earlier entry, using `findIndex`. Then it sorts
  stably by `getQualityValue`, highest resolution first. `getQualityValue` is
  a substring test against 2160, 1440, 1080, 720, 480 and 360, in that order.
- **Title sanitizer** (`Title`, `server/index.js`). `/api/download` strips
  the title down to ASCII word characters, whitespace and `-`, trims it, and
  uses "video" when nothing is left. The result is sent as
  `attachment; filename="<title>.mp4"`. A name that keeps whitespace a
  header value may not hold, such as U+3000, makes setting that header
  throw, and the handler answers 500 (see "Findings").
- **Request guards** (`Handlers`, `server/index.js`). Both handlers answer
  400 on a missing or invalid URL, and `/api/download` also answers 400 on a
  missing `itag`. They do this before anything is fetched. The library's
  `validateURL` and `getInfo` are function parameters.
- **Duration display** (`Duration`, `src/App.jsx`). `formatDuration` renders
  seconds as `H:MM:SS` from one hour on and as `M:SS` below.

Files: `js.dfy` (absent values and truthiness), `sequences.dfy`
(subsequences, slices, counts), `formats.dfy`, `title.dfy`, `handlers.dfy`
and `duration.dfy`.

Three choices of the code shape the model:

- Duplicates are dropped before the sort, in input order.
- The sort key is a substring test against six constants, not a parsed
  leading number.
- Entries without a `qualityLabel` are kept, with the library's `quality`
  field as their quality.

## Model

| member | source | states |
|---|---|---|
| `Formats.KeepMuxed` | server/index.js:42-43 | the result holds exactly the formats with both `hasVideo` and `hasAudio`, each as often as in the input, in input order |
| `Formats.Project` | server/index.js:44-49 | `quality` is `qualityLabel` when that is a non-empty string and `quality` otherwise; `format` is `container`; `itag` is `itag`; `size` is unknown exactly when `contentLength` is absent or empty, and otherwise carries that length |
| `Formats.ProjectAll` | server/index.js:44-49 | one option per format, in the same order, each the projection of its format |
| `Formats.FindIndex` | server/index.js:51 | the result is the first index whose quality equals the given one, and -1 exactly when no entry has it |
| `Formats.DedupFrom` | server/index.js:50-52 | from index `i` on, the filter keeps exactly the entries that are the first of their quality, ordered by their first indices, so no two entries share a quality |
| `Formats.Dedup` | server/index.js:50-52 | no two kept entries share a quality; each kept entry is the first input entry with its quality; every quality of the input is kept; kept entries appear in the order of their first indices in the input |
| `Formats.DedupIsKeepFirst` | server/index.js:50-52 | the `findIndex` filter equals a one-pass walk that remembers the qualities already seen |
| `Formats.DedupFromIsKeepFirst` | server/index.js:50-52 | from index `i` on, the filter equals the one-pass walk started with the qualities before `i` |
| `Formats.Includes` | server/index.js:62-67 | `includes` is true exactly when the text occurs at some position |
| `Formats.QualityValue` | server/index.js:60-69 | the key is one of 0, 360, 480, 720, 1080, 1440, 2160, and it is 0 for an absent or empty quality |
| `Formats.QualityValueIsLargestLevel` | server/index.js:60-69 | for a present quality, the key is the largest listed resolution whose digits occur in it, and 0 exactly when none occurs |
| `Formats.Compare` | server/index.js:59-70 | the comparator is positive exactly when `b` has the larger `getQualityValue`, so `b` goes first; negative exactly when `a` has the larger one; zero, which keeps the two in place, exactly when the values are equal |
| `Formats.CompareIsConsistent` | server/index.js:59-70 | swapping the arguments flips the comparator's sign, and "not after" is transitive, as a consistent comparator for `sort` must be |
| `Formats.Insert` | server/index.js:59-71 | inserting into a list sorted by the comparator keeps it sorted, and the result is a permutation of the entry plus the list |
| `Formats.SortByQuality` | server/index.js:59-71 | the result is non-increasing by `getQualityValue` under the comparator and is a permutation of the input |
| `Formats.InsertKeepsOrderOfEqualKeys` | server/index.js:59-71 | insertion keeps the inserted entry ahead of the list's entries with the same key |
| `Formats.SortKeepsOrderOfEqualKeys` | server/index.js:59-71 | the sort is stable: for every key, the entries with that key appear in the order they had before sorting |
| `Formats.SortKeepsUniqueQualities` | server/index.js:50-71 | sorting a list without repeated qualities gives a list without repeated qualities |
| `Formats.SelectFormats` | server/index.js:42-71 | every option comes from a format with video and audio; every quality of such a format is offered; no two options share a quality; options are non-increasing by `getQualityValue` |
| `Formats.SelectFormatsKeepsFirst` | server/index.js:42-71 | every option is the first projected format with video and audio of its quality, and options of one key keep the order deduplication gave them |
| `Formats.SelectedComeFromMuxed` | server/index.js:42-52 | every option of the pipeline is the projection of an input format with video and audio |
| `Formats.EveryMuxedQualitySelected` | server/index.js:42-52 | the quality of every input format with video and audio appears among the options |
| `Title.Strip` | server/index.js:95 | the replace keeps exactly the ASCII word characters, whitespace and `-` of the title, each as often as in the title, in order |
| `Title.TrimStart` | server/index.js:95 | the result is a suffix of the text, everything dropped is whitespace, and it does not start with whitespace |
| `Title.TrimEnd` | server/index.js:95 | the result is a prefix of the text, everything dropped is whitespace, and it does not end with whitespace |
| `Title.Trim` | server/index.js:95 | `trim` returns a slice of the text such that everything before and after it is whitespace and it has no whitespace at either end; it is empty exactly when the text is all whitespace; a text without surrounding whitespace is unchanged |
| `Title.TrimKeepsCount` | server/index.js:95 | `trim` removes only whitespace: every other character occurs in the result as often as in the text |
| `Title.Sanitize` | server/index.js:95 | the name is non-empty, has only ASCII word characters, whitespace and `-`, so no `"`, and has no whitespace at either end; it is "video" when the title has no letter, digit, `_` or `-`; otherwise it is a subsequence of the title that keeps every letter, digit, `_` and `-` of the title as often as it occurs, and it is exactly the stripped title with the whitespace at both ends removed: a slice of it with only whitespace before and after |
| `Title.TrimmedTitleEmpty` | server/index.js:95 | stripping and trimming leave nothing exactly when the title has no ASCII letter, digit, `_` or `-` |
| `Title.SanitizeIdempotent` | server/index.js:95 | sanitizing a sanitized name changes nothing |
| `Title.QuoteNotKept` | server/index.js:95-97 | the replace removes `"`, so the name cannot end the quoted header parameter |
| `Title.QuotedFilenameOf` | server/index.js:97 | a name without `"` is read back whole from `attachment; filename="<name>"` |
| `Title.ContentDisposition` | server/index.js:95-97 | reading the `Content-Disposition` value back gives exactly the sanitized title followed by `.mp4`, and the value is a valid header value exactly when the sanitized title is |
| `Title.DispositionNamesFile` | server/index.js:97 | the template `attachment; filename="<name>.mp4"` reads back as `<name>.mp4` for every name without `"` |
| `Title.DispositionSafe` | server/index.js:97 | the `Content-Disposition` value is a valid header value exactly when the name in it is |
| `Title.SanitizeHeaderSafe` | server/index.js:95-97 | a title made only of header characters gives a name made only of header characters |
| `Title.WideSpaceSurvives` | server/index.js:95-97 | the title "a", U+3000, "b" is its own sanitized name, and that name is not a valid header value |
| `Title.SafeSanitize` | server/index.js:95 | with every remaining whitespace character turned into a space before `trim`, the name is non-empty, a valid header value without `"` and without whitespace at either end, "video" when the title has no letter, digit, `_` or `-`, keeps every letter, digit, `_` and `-` of the title, and equals the name of the code whenever the title's only whitespace is the plain space; when the title has a letter, digit, `_` or `-`, the name is exactly the stripped and blanked title with the spaces at both ends removed |
| `Handlers.VideoInfoReply` | server/index.js:26-72 | a falsy `url` gives 400 "URL не указан" whatever the validator says; a `url` the validator rejects gives 400 "Неверный YouTube URL"; only a validated `url` succeeds, with the fetched title, duration and author and the selected formats, which have unique qualities and are sorted |
| `Handlers.VideoInfoGuardsComeFirst` | server/index.js:30-39 | without a `url` the reply does not depend on the validator, and a refused request does not depend on what would be fetched |
| `Handlers.DownloadReply` | server/index.js:82-108 | a falsy `url` or `itag` gives 400 "URL и itag обязательны"; an invalid `url` gives 400 "Неверный YouTube URL"; a sanitized title with a character a header value may not hold gives the `catch`'s 500; otherwise the header names `<sanitized title>.mp4` and is a valid header value, the type is `video/mp4`, and the stream is opened for the given `url` and `itag` |
| `Handlers.WideTitleFailsDownload` | server/index.js:94-108 | a valid request for a video titled "a", U+3000, "b" is answered with the 500 "Не удалось скачать видео. Попробуйте другое качество." |
| `Handlers.HeaderSafeTitleDownloads` | server/index.js:94-104 | a valid request for a video whose title has only header characters gets its header and stream |
| `Handlers.SafeDownloadReply` | server/index.js:82-104 | with `Title.SafeSanitize` as the sanitizer, every request that passes the guards gets a valid header naming `<name>.mp4`, the type `video/mp4` and its stream |
| `Handlers.DownloadGuardsComeFirst` | server/index.js:86-94 | without `url` or `itag` the reply does not depend on the validator, and a refused request does not depend on what would be fetched |
| `Duration.ToClock` | src/App.jsx:56-58 | hours·3600 + minutes·60 + seconds equals the input, with minutes and seconds below 60 |
| `Duration.Decimal` | src/App.jsx:61-63 | `toString` gives at least one digit and only digits, with one digit exactly below 10 and no leading zero otherwise |
| `Duration.ValueOfDecimal` | src/App.jsx:61-63 | the decimal text of `n` denotes `n` |
| `Duration.PadStart` | src/App.jsx:61-63 | `padStart` gives the longer of the text and the width, ending in the text and filled in front |
| `Duration.TwoDigits` | src/App.jsx:61-63 | `toString().padStart(2, '0')` gives at least two characters, only digits, and denotes the number |
| `Duration.TwoDigitsOf` | src/App.jsx:61-63 | below 100, the padded text has exactly two digits and denotes the number |
| `Duration.FormatDuration` | src/App.jsx:55-64 | the text is at least four characters long, starts with a digit, and ends in a colon and two digits that denote the seconds of the minute begun |
| `Duration.FieldsOfFormatDuration` | src/App.jsx:60-63 | the rendered text splits at its colons into hours, padded minutes and padded seconds from one hour on, and into minutes and padded seconds below |
| `Duration.FormatDurationFields` | src/App.jsx:60-63 | the fields spell the clock (`SpellsClock`): three with hours and two without; all digits; the leading field unpadded; every later field exactly two digits; they denote the hours or minutes, the minutes and the seconds; and the hours field is there exactly from 3600 seconds on |
| `Duration.FormatDurationColons` | src/App.jsx:60-63 | the text has exactly one colon below 3600 seconds and exactly two from 3600 on |
| `Duration.ParseFormatDuration` | src/App.jsx:55-64 | reading the rendered fields back as decimal numbers gives the input |
| `Duration.FormatDurationInjective` | src/App.jsx:55-64 | two different durations are never rendered as the same text |
| `Duration.FormatDurationExamples` | src/App.jsx:55-64 | 45 gives "0:45", 0 gives "0:00" and 3725 gives "1:02:05" |

## Left out

- Express setup, CORS, JSON body parsing, environment configuration, `/health` and `app.listen` (server/index.js:5-23, 111-113): process and HTTP plumbing.
- The extraction library: `createAgent` is not modelled, and `validateURL` and `getInfo` are function parameters. The byte stream `ytdl(url, {quality: itag}).pipe(res)` is reduced to the `url` and `itag` it is opened with. It is foreign code and network I/O.
- The other 500 replies, `console.error` logging, and failures after piping has started (server/index.js:73-78, 105-108): a failing `getInfo` or stream is an I/O error. The 500 that a title with a character a header value may not hold causes is modelled in `Handlers.DownloadReply`.
- The thumbnail (server/index.js:56): the last element of a list taken from external data.
- `Formats.Project`: the "… MB" text built from `contentLength / 1024 / 1024` with two decimals is floating point. `Size.Megabytes` keeps the raw length instead. `Size.Unknown` stands for the text `"Неизвестно"`.
- `Formats.Dedup`: JavaScript's `null` and `undefined` are both `None`. `===` would tell a `null` quality from an `undefined` one, and the model does not. Non-string quality values are not modelled either.
- `Formats.SortByQuality`: the engine's sorting algorithm is modelled by an insertion sort. `Array.prototype.sort` is stable from ECMA-262 10th edition on, and this comparator is consistent, so the result is the same.
- `Title.IsSpace`: `\s` and `trim` are modelled with the WhiteSpace and LineTerminator code points of current ECMAScript editions (U+180E is not whitespace).
- `Handlers.DownloadReply`: `itag` arrives as a string. A query string that repeats a parameter, which Express turns into an array, is not modelled.
- `Duration.ToClock`: durations are `nat`. The library sends `lengthSeconds` as a string that `/` and `%` coerce. `Math.floor` over floating-point division equals integer division for integers below 2^53. `toString`'s exponent form for numbers of 10^21 and above is not modelled.
- The rest of the React component (src/App.jsx:7-53, 66-237): state hooks, `fetch`, `window.open`, `setTimeout` and rendering are UI and asynchronous I/O.

## Findings

| source | as written | input that shows it | evidently intended | confidence | as-written member | corrected member |
|---|---|---|---|---|---|---|
| server/index.js:95-97 | `\s` keeps every Unicode whitespace character inside the name. Node's `setHeader` accepts only tab, 0x20-0x7E and 0x80-0xFF in a header value, so `res.header` throws and the request ends in the 500 | a video titled "a", U+3000 (ideographic space), "b" | the video is downloaded under a name that only holds header characters | not executed; medium: it rests on Node's header validation, which is not part of this repository | `Handlers.WideTitleFailsDownload` (with `Title.WideSpaceSurvives`) | `Title.SafeSanitize`, `Handlers.SafeDownloadReply` |

`Handlers.DownloadReply` keeps the code's behaviour, 500 included. The
corrected sanitizer agrees with the code's on every title whose only
whitespace is the plain space.
