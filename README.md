# Markdown conversion service: handler and worker, modelled in Dafny

The repository is a small Markdown-to-HTML service in two parts:

- **frontend API** (`frontend-api/index.js`). Its `POST /convert` handler refuses a missing or
  empty `markdown` field with status 400 and `{error: 'Missing markdown'}`. Otherwise it converts
  the text with two regular-expression substitutions: headings `/^# (.*)$/gm` become
  `<h1>$1</h1>`, then bold `/\*\*(.*?)\*\*/g` becomes `<strong>$1</strong>`. It answers with
  `{id: 'test-id', html, status: 'completed'}`.
- **backend worker** (`backend-worker/worker.py`). It polls a key-value store. Every stored task
  record whose `status` is `pending` is converted and updated in place: on success it gets
  `status: completed`, `html` and `completedAt`; when the conversion raises, it gets
  `status: failed` and `error`. The record is then written back under its key.

The model has three modules:

- `Markdown` (`markdown.dfy`) holds the two substitutions. Each one is a recursive function over
  characters:
  - `HeadingPass` works line by line.
  - `BoldPass` is a left-to-right scanner. `FindClose` gives the shortest match of the lazy group.
  - `Render` runs the heading pass and then the bold pass.

  The properties are stated through a line view of the text: `Lines` splits at line feeds, and
  `UnlinesLines` proves that the split loses nothing.
- `FrontendApi` (`frontend_api.dfy`) models the handler as a pure function, `Convert`. It maps the
  optional `markdown` field to a status code and a JSON body.
- `Worker` (`worker.dfy`) models the store as the class `TaskStore`. Its `entries` field is a map
  from key to stored value. Two methods change it in place:
  - `ProcessTask` models `process_task`.
  - `PollOnce` models one pass of the polling loop. Its loop is proved against the specification
    function `AfterPass`.

  The Markdown library, the clock and the key listing are parameters:
  - `convert` returns `Converted(html)` or `Raised(message)`.
  - `clock` gives the timestamp read when the task under a key is processed.
  - `keys` is the snapshot the store lists.

Only the line feed `\n` is treated as a line terminator (see "Left out").

## Model

| member | source | states |
|---|---|---|
| `Markdown.LineEnd` | frontend-api/index.js:15 | the position where `.*` must stop and `$` matches: no line feed before it, and a line feed at it unless it is the end of the text |
| `Markdown.UnlinesLines` | frontend-api/index.js:15 | cutting the text at its line feeds and joining the lines again gives back the text, so the line-by-line statements below determine the whole output |
| `Markdown.LinesUnlines` | frontend-api/index.js:15 | the round-trip partner of `UnlinesLines`: joining line-feed-free lines and cutting the result at its line feeds gives back the same lines |
| `Markdown.LineFeedCount` | frontend-api/index.js:15 | a text has one line more than it has line feeds |
| `Markdown.HeadingLine` | frontend-api/index.js:15 | one line under the heading pattern: never produces a line feed, and its result is never itself a `# ` heading line |
| `Markdown.HeadingPass` | frontend-api/index.js:15 | the heading pass over the whole text never shortens it, and keeps its length exactly when no line starts with `# ` (each heading line grows by `<h1>`/`</h1>` less `# `); its line-by-line behaviour is stated by `HeadingPassLines` |
| `Markdown.HeadingPassLines` | frontend-api/index.js:15 | the heading pass keeps the number of lines; line i of the output is `<h1>` + the rest of line i + `</h1>` when line i starts with `# ` (a bare `# ` gives `<h1></h1>`), and line i unchanged otherwise (`#x`, `#` alone) |
| `Markdown.HeadingPassLineFeeds` | frontend-api/index.js:15 | the heading pass keeps the number of line feeds |
| `Markdown.HeadingPassNoHeading` | frontend-api/index.js:15 | a text none of whose lines starts with `# ` is unchanged by the heading pass |
| `Markdown.HeadingPassIdempotent` | frontend-api/index.js:15 | applying the heading pass twice gives the same result as applying it once |
| `Markdown.NoHeadingCons` | frontend-api/index.js:15 | a list of lines has no `# ` line exactly when its first line is not one and the rest has none |
| `Markdown.FindClose` | frontend-api/index.js:16 | the lazy group `(.*?)` opened at i closes at the first `**` reachable without crossing a line feed; no earlier position can close it; None exactly when no position can |
| `Markdown.BoldPass` | frontend-api/index.js:16 | the global lazy bold replacement, scanning left to right and resuming after each closing `**`. It carries no `ensures`; it is specified by `FindClose` (where a match ends), `BoldPassLines` (each line on its own), `BoldPassNoDoubleStar`, `BoldPassNoLineFeed` and `BoldPassLineFeeds` |
| `Markdown.LazyCapture` | frontend-api/index.js:16 | the text a bold match captures contains no line feed and no `**`, and does not end in `*` |
| `Markdown.BoldPassNoDoubleStar` | frontend-api/index.js:16 | a text without `**` is unchanged by the bold pass |
| `Markdown.BoldPassPlainPrefix` | frontend-api/index.js:16 | characters other than `*` before the first match are copied, and the scan resumes after them |
| `Markdown.FindCloseAppend` | frontend-api/index.js:16 | appending text whose first line has no `*` does not move the close of a lazy group |
| `Markdown.BoldPassAppend` | frontend-api/index.js:16 | no match reaches across a boundary after which the line holds no `*`, so the pass splits there |
| `Markdown.BoldPassNoLineFeed` | frontend-api/index.js:16 | the bold pass creates no line feed |
| `Markdown.BoldPassLines` | frontend-api/index.js:16 | the bold pass keeps the number of lines and rewrites each line on its own: no match spans a line terminator |
| `Markdown.BoldPassLineFeeds` | frontend-api/index.js:16 | the bold pass keeps the number of line feeds |
| `Markdown.BoldPassFacts` | frontend-api/index.js:16 | a text without `**` is unchanged by the bold pass, and a text without a line feed gets none |
| `Markdown.FiveStars` | frontend-api/index.js:16 | matches do not overlap and the scan resumes after the closing `**`: `*****` becomes `<strong></strong>*` |
| `Markdown.ShortestMatch` | frontend-api/index.js:16 | the lazy group takes the shortest text: `**a**b**` becomes `<strong>a</strong>b**` |
| `Markdown.NoMatchAcrossLines` | frontend-api/index.js:16 | `**a` and `b**` on two lines do not form a match |
| `Markdown.Render` | frontend-api/index.js:14-16 | the heading pass followed by the bold pass; the result has as many line feeds as the request's text, so its line structure is kept (line by line in `RenderLines`) |
| `Markdown.RenderLine` | frontend-api/index.js:14-16 | the per-line reference the two passes are compared against in `RenderLines`: a line without a line feed gives one without a line feed, and a line without `**` is only transformed by the heading pattern |
| `Markdown.BoldInsideHeading` | frontend-api/index.js:14-16 | because the heading pass runs first, bold text on a heading line ends up inside the h1: `<h1>` + bold-converted rest + `</h1>` |
| `Markdown.RenderLines` | frontend-api/index.js:14-16 | the two passes together keep the lines; each heading line becomes `<h1>` + its bold-converted rest + `</h1>`, and each other line has only its bold text converted |
| `Markdown.RenderPlainText` | frontend-api/index.js:14-16 | text with no line starting with `# ` and no `**` is returned unchanged |
| `FrontendApi.Convert` | frontend-api/index.js:7-22 | status 400 with `{error: 'Missing markdown'}` if and only if the field is missing or empty; otherwise status 200 with id `test-id`, status `completed` and html equal to the heading pass followed by the bold pass |
| `FrontendApi.ConvertLines` | frontend-api/index.js:14-22 | a corollary of `RenderLines` for the reply: the html of a successful reply has the request's lines, each converted as in `RenderLines` |
| `FrontendApi.ConvertPlainText` | frontend-api/index.js:14-22 | a corollary of `RenderPlainText` for the reply: a request without headings or `**` gets its own text back as html |
| `FrontendApi.ConvertBoldHeading` | frontend-api/index.js:14-16 | `# **b**` is answered with `<h1><strong>b</strong></h1>` |
| `Worker.IsPending` | backend-worker/worker.py:36 | `task.get('status') == 'pending'`: a record is pending exactly when it has a `status` field equal to `pending`; a missing status is not pending. A predicate without `ensures`; `Step` and `NoPendingAfterPass` state what it decides |
| `Worker.RunConverter` | backend-worker/worker.py:13 | the conversion step, as a definition: the converter's outcome on the `markdown` field, or the KeyError message `'markdown'` when there is none. What this leads to for the record is stated by `Processed`, `Step`, `MissingMarkdownFails` and `ConvertedCompletes` |
| `Worker.MissingMarkdownFails` | backend-worker/worker.py:13-23 | a pending record without a `markdown` field is stored as `failed` with `error` = `'markdown'`; it gains the `error` field and nothing else, and every field other than `status` and `error` keeps its value |
| `Worker.ConvertedCompletes` | backend-worker/worker.py:13-17 | a pending record whose markdown converts to html h is stored as `completed` with `html` = h and `completedAt` = the clock reading for its key; it gains exactly `html` and `completedAt`, and keeps its `markdown` text |
| `Worker.Processed` | backend-worker/worker.py:12-23 | the processed record is no longer pending and has exactly the old fields plus the written ones. On success: status `completed`, `html` = the converter's output, `completedAt` = the clock reading. On a raised conversion: status `failed`, `error` = its message. All other fields (`markdown`, `createdAt`, ...) are unchanged |
| `Worker.Step` | backend-worker/worker.py:33-37 | a value under a listed key: a pending record is processed, and an empty value or a record with any other status stays as it is; the result is never pending |
| `Worker.StepIdempotent` | backend-worker/worker.py:33-37 | processing the value under a key a second time changes nothing |
| `Worker.AfterPass` | backend-worker/worker.py:30-37 | a pass neither adds nor removes keys, leaves unlisted keys as they are, and applies `Step` to every listed key |
| `Worker.NoPendingAfterPass` | backend-worker/worker.py:31-37 | after a pass, no listed key holds a pending record |
| `Worker.NoPendingAfterFullPass` | backend-worker/worker.py:30-37 | after a pass over every key of the store, no record in the store is pending |
| `Worker.PassIdempotent` | backend-worker/worker.py:30-37 | a second pass over the same keys leaves the store as the first pass left it |
| `Worker.AfterPassStep` | backend-worker/worker.py:31-37 | handling one more listed key is one `Step` on that key's current value, which is what the loop does in each iteration |
| `Worker.TaskStore.ProcessTask` | backend-worker/worker.py:10-23 | the store afterwards is the old store with the key's value replaced by the processed record; a record without a `markdown` field fails with the KeyError message `'markdown'` |
| `Worker.TaskStore.PollOnce` | backend-worker/worker.py:30-37 | the loop over the listed keys leaves the store equal to `AfterPass` of the old store: keys that are gone or hold an empty value are skipped, and only pending records are processed |

## Left out

- Only `\n` is a line terminator in the model. JavaScript's `^`, `$` and `.` also treat `\r`,
  U+2028 and U+2029 as line terminators, so text containing those is not modelled faithfully.
- The Express plumbing (`express.json()`, routing, `app.listen`, logging) is framework I/O. A
  truthy `markdown` value that is not a string (a number, an array, an object) is left out too:
  it passes the emptiness test and `.replace` throws inside the framework. The field is modelled
  as an optional string. A falsy value that is not a string (`null`, `false`, `0`) gets the
  same 400 reply as a missing field, which the model's `None` stands for.
- The real store is left out: the Redis connection, `keys('*')`, and `get`/`set` over the network.
  The store is an in-memory map, and the key listing is a parameter. A listed key that is missing
  from the map is skipped, as when `get` returns nothing.
- A store write that fails is left out. If the `set` at worker.py line 17 raises, the record would
  be written as `failed` and still carry `html`.
- `markdown2.markdown` is a library whose code is not part of this model. It is the parameter
  `convert`, which returns either html or the message of the exception it raised.
- The `time.strftime`/`time.gmtime` timestamps are left out. The parameter `clock` gives any
  timestamp string for each key.
- `json.dumps`/`json.loads` are left out. A stored value is either empty or a record mapping field
  names to strings.
  - Field values that are JSON numbers, nulls or objects are not modelled.
  - Stored values that are not a JSON object are not modelled either. On them, `json.loads` or
    `.get` raises outside the `try` and ends the worker.
- The endless `while True` loop, `time.sleep(5)` and the `print` logging are left out. The model
  covers a single pass.
- PollOnce/AfterPass: the key is decoded with `task_id.decode('utf-8')` at worker.py line 32,
  outside any `try`. A key that is not valid UTF-8 raises UnicodeDecodeError there and ends `main`
  in the middle of a pass, so the keys after it are not processed. Keys are strings in the model,
  and PollOnce always finishes the pass.
- Concurrent writers, such as a new task stored during a pass, are left out. A key written after
  the listing was taken is not visited by that pass, and the model keeps it untouched.
