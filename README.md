# Webshotter, modelled in Dafny

Webshotter is a command-line script. It reads a file of URLs, one per line, and
puts each URL on a work queue. A URL that does not start with `http` gets
`http://` in front of it first. A pool of worker threads takes the URLs off the
queue and saves a PNG screenshot of each page through a headless browser. Each
file is named after its URL and the time of capture.

This project models the script's deterministic core and proves properties of
it:

- **Filename sanitising** (`parse_filename`): every `:` and `/` becomes `_`.
- **The time stamp** (`get_date_hour`): spaces become `_`, colons are removed,
  and the text is cut at the first `.`. The rendered time is taken as a
  parameter.
- **The screenshot file name** (`take_screenshot`): the sanitised form of
  `url + "-screenshot-" + stamp + ".png"`.
- **URL normalisation and the enqueue loop** of `main`: one queue item per
  line, in file order, with no de-duplication.
- **The start-up configuration** of `main`: the thread count falls back to 1,
  and `height`/`width` are set only when both are given and positive. The
  window is resized only when both dimensions are positive.

Files:

- `wrappers.dfy` holds `Option`.
- `pystrings.dfy` models Python's `str.startswith`, and `str.replace` and
  `str.find` for the one-character arguments the script passes to them.
  `EndsWith` is a helper for stating contracts.
- `webshotter.dfy` holds the script itself. The module globals `height`,
  `width`, `VERBOSE` and the queue are a class, `Session`. Its method `Run` is
  the configuration and enqueue part of `main`, with the original loops.

Three details of the code are worth knowing:

- Colons in the time stamp are deleted, not replaced by `_`.
- The file name ends in `.png`.
- A blank line in the URL list is not skipped. It becomes the item `http://`.

## Model

| member | source | states |
|---|---|---|
| `Webshotter.ParseFilename` | webshotter.py:153-155 | The result has the input's length and contains no `:` and no `/`. Each position that held `:` or `/` holds `_`, and every other character is unchanged. |
| `Webshotter.ParseFilenameIdempotent` | webshotter.py:155 | Sanitising a sanitised name changes nothing. |
| `Webshotter.ParseFilenameConcat` | webshotter.py:155 | Sanitising a concatenation gives the concatenation of the sanitised parts. |
| `Webshotter.ParseFilenameExample` | webshotter.py:155 | `http://a.com/x:y` becomes `http___a.com_x_y`. |
| `PyStrings.StartsWith` | webshotter.py:106 | `startswith(p)` holds exactly when `p` is no longer than the string and matches it position by position. |
| `PyStrings.ReplaceChar` | webshotter.py:144 | `replace(c, d)` keeps the length. Each position that held `c` holds `d`, every other position is unchanged, and no `c` is left when `d` differs. |
| `PyStrings.DeleteChar` | webshotter.py:144 | `replace(":", "")` leaves no `:`. Its length drops by exactly the number of colons in the input. |
| `PyStrings.DeleteCharMembers` | webshotter.py:144 | A character survives the deletion exactly when it was in the input and is not the deleted one. |
| `PyStrings.DeleteCharConcat` | webshotter.py:144 | Deletion distributes over concatenation, so the remaining characters keep their order. |
| `PyStrings.Find` | webshotter.py:147 | `find` gives -1 exactly when the character is absent. Otherwise it gives the index of its first occurrence. |
| `PyStrings.FindAfterPrefix` | webshotter.py:147 | After a prefix free of the character, the first occurrence is at the prefix's length, whatever follows. |
| `Webshotter.Friendly` | webshotter.py:144 | `replace(" ", "_").replace(":", "")` leaves no space and no colon, and is never longer than its input. |
| `Webshotter.FriendlyChars` | webshotter.py:144 | After the two replacements there is no space and no colon. Every other input character remains, plus `_` if the input had a space. |
| `Webshotter.FriendlyEmpty` | webshotter.py:144 | The replaced text is empty exactly when the input is made only of colons. |
| `Webshotter.DateHour` | webshotter.py:141-150 | When a stamp is returned, it is non-empty and contains no space, `:` or `.`. |
| `Webshotter.DateHourBeforeFirstDot` | webshotter.py:143-150 | The result is the part of the rendered time before its first `.`, with spaces as `_` and colons removed. If there is no `.`, or that part is empty after replacement, the result is `None`. |
| `Webshotter.DateHourNone` | webshotter.py:147-150 | `None` is returned exactly when the rendered time has no `.`, or only colons precede its first `.`. This is the replaced string having no `.` above index 0. |
| `Webshotter.FriendlyRendered` | webshotter.py:143-144 | A rendered time `date hh:mm:ss` becomes `date_hhmmss`. |
| `Webshotter.DateHourWithFraction` | webshotter.py:143-150 | `date hh:mm:ss.ffffff` gives `date_hhmmss`, for any fields free of space, colon and dot. |
| `Webshotter.DateHourExample` | webshotter.py:143-150 | `2024-01-02 03:04:05.678901` gives `2024-01-02_030405`. |
| `Webshotter.WholeSecondGivesNoName` | webshotter.py:147-150 | A time rendered without a fraction gives `None`, so no file name can be built. |
| `Webshotter.DateHourCorrected` | webshotter.py:146-150 | The corrected stamp always exists and has no space, `:` or `.`. It equals the original's stamp whenever the original returns one. |
| `Webshotter.DateHourCorrectedWholeSecond` | webshotter.py:146-150 | With the correction, a whole-second time `date hh:mm:ss` gives `date_hhmmss`. |
| `Webshotter.ScreenshotName` | webshotter.py:117-119 | The saved name ends with `.png` and contains no `:` or `/`. Its length is the URL's length + 12 + the stamp's length + 4. |
| `Webshotter.ScreenshotNameParts` | webshotter.py:118-119 | The name is the sanitised URL, then `-screenshot-`, then the sanitised stamp, then `.png`. |
| `Webshotter.ScreenshotNameInjective` | webshotter.py:117-119 | For one URL, two stamps without `:` and `/` that give the same name are the same stamp. |
| `Webshotter.CaptureFileNameAsWritten` | webshotter.py:117-119 | No name results exactly when the rendered time has no `.`, or only colons precede its first `.`. In that case the concatenation with `None` fails. A name that does result ends with `.png` and has no `:` or `/`. |
| `Webshotter.CaptureFileName` | webshotter.py:117-119 | With the corrected stamp, a name always exists. It ends with `.png`, has no `:` or `/`, and agrees with the original wherever the original gives one. |
| `Webshotter.NormalizeUrl` | webshotter.py:106-107 | The result always starts with `http`. It equals the input exactly when the input starts with `http`, and is `"http://" + url` otherwise. |
| `Webshotter.NormalizeUrlIdempotent` | webshotter.py:106-107 | Normalising twice is normalising once. |
| `Webshotter.NormalizeUrlExamples` | webshotter.py:106-107 | `httpfoo` is kept unchanged, `example.com` gets `http://` in front, and a blank line becomes `http://`. |
| `Webshotter.NormalizeAll` | webshotter.py:105-108 | One item per input line, in order, each the normalised line, with none skipped or merged. |
| `Webshotter.NormalizeAllConcat` | webshotter.py:105-108 | The items for two consecutive runs of lines are those of the first run followed by those of the second. |
| `Webshotter.ThreadCount` | webshotter.py:76-80 | The thread count is at least 1. It is the given value when one is present and positive, and 1 otherwise. |
| `Webshotter.Viewport` | webshotter.py:87-89 | After `main`'s assignment, the window is resized whenever both sizes were given and positive. It is resized only then, or when the starting values already were positive. |
| `Webshotter.ResizeExactlyWhenSizeGiven` | webshotter.py:125-126 | From the initial globals, a resize happens exactly when height and width were both given and positive. Otherwise both stay 0. |
| `Webshotter.Session.constructor` | webshotter.py:28-31 | The globals start as an empty queue, `height = width = 0` and `VERBOSE` false. |
| `Webshotter.Session.Run` | webshotter.py:62-110 | The returned thread count is `ThreadCount` of the argument. `VERBOSE` becomes true if `-v` was given. `height`/`width` change only when both are given and positive. The queue grows by exactly the normalised lines, in order. |

## Findings

| source | as written | input that shows it | evidently intended | confidence | as-written member | corrected member |
|---|---|---|---|---|---|---|
| webshotter.py:147-150 | The `return` is inside `if i > 0`, so a time string without `.` yields `None`. `take_screenshot` then evaluates `url + '-screenshot-' + None`, a `TypeError` that nothing catches. | `str(datetime.datetime.now())` when the microsecond is 0, e.g. `2024-01-02 03:04:05`. Python renders such a time without a fraction. | Cut the sub-second part only when there is one, and return the stamp in every case. | high; not executed | `Webshotter.WholeSecondGivesNoName` | `Webshotter.DateHourCorrected` |

## Left out

- The PhantomJS/Selenium calls (webshotter.py:34-39, 122-138) are foreign library calls with external effects: the driver probe, navigation, timeouts, saving the screenshot and quitting the driver. Only the resize test on line 125 is modelled, as `Resizes`. The arguments given to `set_window_size` are not.
- Threads, daemon flags, `Queue.get`, `task_done` and `join`, and the worker loop (webshotter.py:42-59, 86-93, 110) are concurrency. Python's standard `Queue` module is modelled as the sequence of items put on it.
- Argument parsing with `argparse`, and the `int(...)` conversions that can raise (webshotter.py:67-73, 79, 87), are not modelled. Each option is an optional integer, and an absent or empty option is `None`.
- Opening and reading the URL file, the exit on `IOError`, and the line-splitting rules of `splitlines` (webshotter.py:95-102) are I/O. `Run` receives the lines as a sequence of strings.
- The clock read `datetime.datetime.now()` and its rendering as text (webshotter.py:143) are not modelled. The rendered text is a parameter.
- The import fallbacks and console printing (webshotter.py:14-24, 53-56, 85) are left out as environment and output concerns.
