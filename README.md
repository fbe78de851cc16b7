# Meme generator back end: a Dafny model

The service accepts an uploaded image, hands it to a background worker and returns
a job identifier. The worker asks a vision model to describe the image and a
language model to turn that description into a caption. The caption is cut to
twenty words, wrapped to the image width, and drawn centred on a translucent box.
The finished image is saved in the job's folder. Clients poll `/status/<id>` and
fetch `/result/<id>`. A periodic cleanup removes completed jobs an hour after they
finish.

The model has these modules:

- `Text` models Python's `str.split()`, `str.split('\n')`, `sep.join` and
  `str.strip()`. Whitespace is the `str.isspace` set.
- `Caption` models the twenty-word cap on the generated caption.
- `Retry` models the retry policy around every call to the model server.
- `Wrap` models `wrap_text`. `Wrap.Lines` is the line-breaking function,
  `Wrap.WrapText` is the loop proved equal to it, and the lemmas state what the
  wrapping guarantees.
- `Truncate` models `truncate_text`.
- `Overlay` models the placement of the text block and of its backing box.
- `Jobs` models the job records, the worker's final write, the status and
  result lookups, and the cleanup. `Jobs.JobRegistry` is the `jobs`
  dictionary, which its methods update in place.

Font measurement is a parameter. `width` (and `height` for truncation) maps a
string to its rendered size in pixels. The clock reading `time.time()` is a `real`
parameter `now`. Whether the saved image still exists on disk is a boolean
parameter of `Result`.

The code behaves as follows where its comments, or a reader, might expect
otherwise:

- A word wider than the line is never cut. The comment at app.py:288 speaks of
  splitting the word by half, but the halved copy is only used for the width
  check (app.py:287-293), and the whole word is placed on the line.
- Job states are `in_progress`, `completed` and `failed`. Every write replaces the
  record unconditionally (app.py:76, 81, 85, 111). Nothing guards the
  transitions.
- The cleanup removes only completed jobs. Its docstring (app.py:331) and the
  status test (app.py:338) name failed jobs too, but a failed record has no
  `completed_time`, so the test at app.py:340 never passes for it, and failed
  jobs stay in the table for ever (`Jobs.UnfinishedAndFailedKept`).
- Only raised request exceptions are retried (app.py:154-157). A response with
  any status, 5xx included, is returned on the first try, because `requests`
  does not raise on a status code.
- `get_status` returns the whole record of a job that is not completed, so the
  error message of a failed job is shown (app.py:131).

## Model

| member | source | states |
|---|---|---|
| Text.Split | app.py:281 | every token of `split()` is non-empty and free of whitespace |
| Text.SplitJoinWords | app.py:235-237 | joining tokens with single spaces and splitting again gives back exactly those tokens |
| Text.SplitOn | app.py:312 | `split('\n')` gives at least one part, and no part contains a newline |
| Text.JoinSplitOn | app.py:312-318 | joining the newline-split parts with newlines gives back the original text |
| Caption.CapWords | app.py:233-238 | the caption has at most 20 words; a caption of at most 20 words is returned unchanged; a longer one becomes its first 20 words joined by single spaces |
| Caption.CapWordsIdempotent | app.py:234-238 | capping an already capped caption changes nothing |
| Retry.TriesFrom | app.py:154-157 | tries continue while the last try raised an exception that is not given up, up to 5 tries; fewer than 5 means the last try was final |
| Retry.Send | app.py:154-159 | between 1 and 5 tries; the outcome is the last try's; every earlier try was retryable; fewer than 5 tries means the last outcome was final (a response, or an error whose response status is below 500) |
| Retry.ResponseNotRetried | app.py:154-159 | a response of any status on the first try is returned after exactly one try |
| Retry.TransientExhausts | app.py:154-157 | errors that carry no response (connection failures, timeouts) are tried 5 times and the fifth error is surfaced |
| Retry.ClientErrorStops | app.py:157 | an error carrying a response status below 500 is given up at once |
| Wrap.Halve | app.py:287-290 | the halved word fits the width, is a prefix of the word, and equals the word when the word already fits |
| Wrap.HalveFirstFit | app.py:287-290 | the checked copy is the first of the word's successive floor-halvings that fits, and every earlier halving was too wide |
| Wrap.HalveWord | app.py:285-290 | the halving loop computes `Halve` |
| Wrap.Lines | app.py:280-296 | no more lines than words, no empty line, and the lines' words in order are exactly the input words |
| Wrap.LinesUnfold | app.py:284-295 | every line takes at least one word, since the first word always passes the check against the empty line |
| Wrap.TakeSpec | app.py:284-295 | every word taken onto a line passed the width check, and the first word left over fails it |
| Wrap.LinesGreedy | app.py:282-296 | every line is filled greedily, and the first word of the next line would not have passed the check on this line |
| Wrap.GreedyLineFits | app.py:291-293 | a greedily filled line ending in a word that fits is no wider than the width |
| Wrap.LinesFitWidth | app.py:287-296 | a line whose last word is itself no wider than the width is no wider than the width; only a line ending in an oversized word can overflow |
| Wrap.StripTerminated | app.py:293-296 | a line built by appending each word and a space strips to its words joined by single spaces |
| Wrap.FillLine | app.py:283-295 | the inner loop builds exactly the line of the first `Take` words and leaves the rest |
| Wrap.WrapText | app.py:279-297 | the method's result equals `Wrapped`, the newline-joined greedy lines |
| Wrap.WrappedKeepsWords | app.py:279-297 | wrapping loses, adds and reorders no word: the wrapped text splits into the same words as the input |
| Wrap.WrappedIdempotent | app.py:279-297 | wrapping a wrapped text again changes nothing |
| Wrap.WrappedShape | app.py:279-297 | text with no words wraps to `""`; there are at most as many lines as words; each line is non-empty and has no leading or trailing whitespace |
| Truncate.TruncateText | app.py:299-322 | the result is the longest prefix of lines whose height fits, or `""` when none fits; a text that already fits is returned unchanged |
| Overlay.Half | app.py:260 | `n // 2` is the floor of half of `n`, negative `n` included |
| Overlay.TextPosition | app.py:260 | the text is centred: the left and right margins differ by 0 or 1, and so do the top and bottom margins |
| Overlay.BackingBox | app.py:261 | the box is the text rectangle grown by exactly 10 pixels on every side |
| Overlay.BlockInsideImage | app.py:260-261 | a block no larger than the image lies inside it, and so does its box when the padding fits |
| Jobs.OutputPathExclusive | app.py:68-70 | the image is saved as `meme_<filename>` in a folder of the job's own: two jobs with slash-free identifiers share an output path only when they are the same job with the same upload name |
| Jobs.WorkerRecord | app.py:58-85 | the worker always leaves a finished record; completed iff the caption is non-empty and no exception occurred, with the `meme_<filename>` path and the current time; otherwise failed with the fixed message or the exception's text |
| Jobs.Expired | app.py:338-340 | a record is expired iff it is completed and more than 3600 seconds have passed since `completed_time` |
| Jobs.Reap | app.py:336-352 | exactly the expired records are removed, and every other record keeps its value |
| Jobs.UnfinishedAndFailedKept | app.py:336-352 | in-progress and failed records survive every cleanup |
| Jobs.GraceBoundary | app.py:340 | the grace period is strict: a completed job is kept at exactly an hour and removed one second later |
| Jobs.StartRaceStuck | app.py:107-111 | if the worker finishes before the upload handler records the job, the handler's write leaves it in progress, and no cleanup ever removes it |
| Jobs.JobRegistry.constructor | app.py:43 | the job table starts empty |
| Jobs.JobRegistry.Create | app.py:104-111 | accepting an upload sets the job's record to in-progress and leaves the others |
| Jobs.JobRegistry.Finish | app.py:74-85 | the worker's final write replaces the job's record with `WorkerRecord` and leaves the others |
| Jobs.JobRegistry.Status | app.py:123-134 | 404 iff the job is unknown; a completed job shows only its status, never its image path; any other job shows its whole record |
| Jobs.JobRegistry.Result | app.py:141-152 | the image is served as `image/jpeg` iff the job is completed and its file exists; 202 iff the job is known and not completed; 404 iff it is unknown or its file is missing |
| Jobs.JobRegistry.Cleanup | app.py:329-353 | after the collect-then-delete loops the table is `Reap` of the old table at the current time |

## Left out

- HTTP layer (app.py:47-56, 87-102, 113-119, 136-138, 324-327): routing, basic authentication, `verify_password`, rate limiting, upload validation, `secure_filename`, saving the upload, `send_file` and the generic 500 handler. Only the status and result decisions are modelled.
- Concurrency (app.py:43-44, 107-111, 165): threads and locks are not modelled. Each method is one atomic step. The race where the worker starts before the in-progress record is inserted can be replayed as a `Finish` followed by a `Create`; `Jobs.StartRaceStuck` states its outcome.
- Job identifiers from `uuid4()` are a parameter. Their uniqueness is not modelled.
- Jobs.OutputPath: joins the parts with a literal `/`. This equals `os.path.join` (app.py:68, 70) for a non-empty identifier without `/`, which is what `uuid4()` produces. An empty identifier would give a doubled `/` here, where Python gives a single one.
- Calls to the model server (app.py:161-232, 239-243): file reading, base64, JSON payloads, the HTTP post and reply validation. The caption reaches the worker as an optional string (`memeText`).
- Retry.Send: the exponential backoff delays and the 180-second timeout are not modelled. Only the number of tries and which outcome is surfaced are modelled.
- Image work with PIL (app.py:245-277): opening, fonts, drawing, compositing and conversion. Text measurement is the `width`/`height` oracle. Only the geometry of app.py:260-261 is modelled.
- Filesystem effects of the worker (app.py:68-72): folder creation and saving are not modelled. An exception raised there, or by the PIL work in `overlay_meme_text` (app.py:65, 274-276), is the `fault` input of the worker. Image existence is a boolean input of `Result`.
- Folder deletion in the cleanup (app.py:342-349): the `rmtree` of an expired job's folder is not modelled. Its `OSError` is caught and logged there (app.py:348-349), so it never stops the removal of the record, which is what `Cleanup` models.
- Logging throughout, and the five-minute `schedule_cleanup` timer (app.py:356-363). Each `Cleanup` call is one run.
- Time is a `real`. Floating-point rounding of `time.time()` is not modelled.
- Wrap.WrapText: requires `width("") <= maxWidth`. The only call site (app.py:255) passes the image width, which is at least 1, and the empty string renders 0 pixels wide, so the requirement always holds there. Without it, the halving loop (app.py:287-290) never ends on a word none of whose halvings fit, and a non-terminating run cannot be stated.
- Wrap.Lines: requires `width("") <= maxWidth`, for the same reason.
- Wrap.HalveWord: requires `width("") <= maxWidth`, for the same reason.
