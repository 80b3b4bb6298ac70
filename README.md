# DecolorizeBot decision logic in Dafny

DecolorizeBot watches a stream of comments. When a comment starts with the
token `decolorizebot` (in any case), the bot takes the image URLs in the comment
body and runs each one through a pipeline: download, convert to grayscale,
upload to an image host. It then replies with the hosted links. It keeps two
lists so that it does not repeat work. `comments_done` holds the ids of comments
it has handled. `urls_done` holds the hosted links it has posted.

This project models the bot's decisions and proves them:

- `py_str.dfy`, module `PyStr`: the Python string operations the bot relies on.
  These are ASCII `lower`, and `split` on one character with `join` as its
  inverse.
- `decolorizebot.dfy`, module `Decolorizer`:
  - the trigger test (`ConditionMet`);
  - the file name taken from a URL path (`ExtractFilename`);
  - the reply text (`ReplyText`, built by the loop in `GenerateReply`);
  - the per-comment handler `func`, modelled as the class `DecolorizeBot`. Its
    fields `commentsDone` and `urlsDone` are the two lists. Its method `Func`
    runs the source's loops and is proved equal to the specification function
    `Step`. The properties of one step are lemmas about `Step`.

The handler's collaborators are parameters of `Func`:

- `find_urls` is `findUrls: string -> seq<string>`.
- `handle_image_url` is `handleImageUrl: string -> Option<string>`, where
  `None` stands for Python's `None`.
- `comment.reply(...)` is the out-parameter `reply`. It is `Some(body)` when a
  reply is posted.
- The out-parameter `tried` lists, in call order, the URLs passed to
  `handleImageUrl`. This lets the contracts say which URLs reach the pipeline.

The source tests `if reply_url:`, which is Python truthiness. The model writes
this as `Truthy`: a `Some` holding a non-empty string. The test
`if comment.submission.url:` becomes `submissionUrl != ""`.

The skip test at decolorizebot.py:131 is modelled as written. It looks up the
body's source URL in `urls_done`, but that list only ever receives hosted links
(lines 136 and 143). `SourceUrlIsRetried` shows the consequence: an image URL
that was already converted is sent through the pipeline again when a later
comment names it. Within one comment, a body URL equal to a link produced
earlier in that comment is skipped, because `urls_done` grows during the loop.

The two lists exist so that the bot does not repeat work. Three lemmas show
how far the code goes toward that:

- No comment id is added to `comments_done` twice, because a comment already
  in the list is skipped at line 124 (`CommentsDoneStaysDistinct`).
- A hosted link can be added to `urls_done` twice. Lines 136 and 143 append a
  link without checking whether the list already holds it
  (`UrlsDoneMayRepeat`).
- A body URL that is already in `urls_done` is not sent through the pipeline
  again. The submission URL fallback (lines 139-140) does not look at the list
  (`DoneUrlIsNotTried`).

## Model

| member | source | states |
|---|---|---|
| `PyStr.Split` | decolorizebot.py:51 | `str.split` on one character always gives at least one part, so `[-1]` is defined |
| `PyStr.SplitNoSeparator` | decolorizebot.py:51 | no part of a split contains the separator |
| `PyStr.SplitJoin` | decolorizebot.py:51 | joining the parts of a split with the separator gives back the string |
| `PyStr.JoinSplit` | decolorizebot.py:51 | splitting a join of separator-free parts gives back the parts, so split and join are inverse to each other |
| `PyStr.LastSegment` | decolorizebot.py:51 | the last part (`[-1]`) is a suffix of the string that holds no separator. It is either the whole string or preceded by a separator, and it is shorter than the string when there are several parts |
| `Decolorizer.ConditionMet` | decolorizebot.py:44-46 | true exactly when the text is at least as long as `decolorizebot` and its first 13 characters, lower-cased, spell that token |
| `Decolorizer.ConditionMetIgnoresCase` | decolorizebot.py:44-46 | lower-casing the text first does not change the verdict |
| `Decolorizer.ConditionMetDependsOnHead` | decolorizebot.py:44-46 | only the first 13 characters matter; any tail may replace the rest |
| `Decolorizer.ConditionMetExamples` | decolorizebot.py:44-46 | "DecolorizeBot please" triggers; "please decolorizebot" does not |
| `Decolorizer.ExtractFilename` | decolorizebot.py:48-52 | the result is the suffix of the path after its last `/`: it holds no `/`, and it is either the whole path or preceded by `/` |
| `Decolorizer.ExtractFilenameNoSlash` | decolorizebot.py:48-52 | a path without `/` is returned whole |
| `Decolorizer.ExtractFilenameAfterSlash` | decolorizebot.py:48-52 | the file name of `dir/file` is `file`, whatever `dir` holds |
| `Decolorizer.GenerateReply` | decolorizebot.py:108-114 | the accumulating loop returns `ReplyText(urls)`: the reply starts with "Who needs color?", and for an empty list it is exactly that |
| `Decolorizer.ReplyStartsWithPreamble` | decolorizebot.py:108-114 | every reply begins with "Who needs color?" |
| `Decolorizer.ReplyTextIsJoin` | decolorizebot.py:108-114 | the reply is the preamble followed by the urls in order, joined by "\n" |
| `Decolorizer.ReplyLines` | decolorizebot.py:108-114 | for urls without line breaks, splitting the reply at "\n" gives the preamble followed by exactly the urls, one per line, in order |
| `Decolorizer.ScanUrls` | decolorizebot.py:129-136 | the body loop makes at most one call per URL and keeps at most one link per call. It calls the pipeline for a URL only if the URL comes from the body and was not in `urls_done`. Every body URL that is neither in `urls_done` nor among the links kept is called. Every link it keeps is non-empty |
| `Decolorizer.Collect` | decolorizebot.py:126-143 | with the submission fallback there are no more links than pipeline calls, and every link is non-empty |
| `Decolorizer.CollectLinksAreSuccesses` | decolorizebot.py:126-143 | with the submission fallback, the links collected are exactly the truthy results of all pipeline calls, in call order |
| `Decolorizer.Step` | decolorizebot.py:123-153 | one call of `func` only appends to both lists, and a posted reply starts with the preamble |
| `Decolorizer.DecolorizeBot.constructor` | decolorizebot.py:26-30 | a new bot starts with both lists empty |
| `Decolorizer.DecolorizeBot.Func` | decolorizebot.py:123-153 | the loops give exactly `Step` on the old lists. A seen or non-triggering comment changes nothing. Otherwise the id is appended, `urlsDone` only grows, and a reply listing the new links is posted exactly when there are any |
| `Decolorizer.IgnoredCommentIsNoOp` | decolorizebot.py:123-124 | a comment whose id is in `comments_done`, or whose body does not trigger, changes neither list, posts nothing and calls the pipeline for no URL |
| `Decolorizer.StepIsIdempotent` | decolorizebot.py:123-153 | handling the same comment again after one step changes nothing and posts nothing |
| `Decolorizer.CommentMarkedDoneOnce` | decolorizebot.py:153 | an unseen, triggering comment's id is appended to `comments_done` exactly once, even when no link was produced |
| `Decolorizer.CommentsDoneStaysDistinct` | decolorizebot.py:123-153 | if `comments_done` holds no id twice before a step, it holds none twice after it |
| `Decolorizer.DoneUrlIsNotTried` | decolorizebot.py:130-132 | a URL already in `urls_done` reaches the pipeline only if it is the submission URL, which the fallback does not check |
| `Decolorizer.SubmissionFallback` | decolorizebot.py:137-143 | the submission URL is tried exactly when the body gave no link and the URL is non-empty, and then it adds at most one link. Otherwise the calls and the new links are those of the body loop |
| `Decolorizer.ScanLinksAreSuccesses` | decolorizebot.py:130-136 | the links the body loop keeps are exactly the truthy results of its pipeline calls, in call order; a failed URL adds nothing |
| `Decolorizer.StepAppendsLinksAndReplies` | decolorizebot.py:129-150 | the new `urls_done` is the old one followed by the truthy results of the pipeline calls, in order. A reply is posted exactly when there is at least one, and its body is `ReplyText` of them |
| `Decolorizer.ReplyListsNewLinks` | decolorizebot.py:145-150 | read line by line, a posted reply is the preamble followed by exactly the links this step added to `urls_done` |
| `Decolorizer.SourceUrlIsRetried` | decolorizebot.py:130-136 | a body URL whose hosted link differs from it is sent through the pipeline again for a later comment that names it |
| `Decolorizer.UrlsDoneMayRepeat` | decolorizebot.py:133-136 | when the host returns the same link for two URLs, `urls_done` holds that link twice |
| `Decolorizer.EndToEnd` | decolorizebot.py:123-153 | "decolorizebot <url>" with a working pipeline gets the reply "Who needs color?\n<link>". If both the image and the submission URL fail, nothing is posted. In both cases the comment is marked done |

## Left out

- `save_image` (decolorizebot.py:54-68): an HTTP download written to disk. This is network and file I/O.
- `decolorize_image` (decolorizebot.py:70-85): image decoding, grayscale conversion and JPEG encoding. These are done by an image library.
- `handle_image_url` (decolorizebot.py:87-106): only its result is modelled, as the oracle `handleImageUrl`. The oracle is a function of the URL, so the model assumes that the same URL gives the same result within one comment.
- Exceptions inside `func` are not modelled. None of them are caught, and several calls can raise:
  - `requests.get` on a connection error (line 56);
  - `open('images/' + filename, 'wb')` when `images/` is missing or the file name is empty (line 61). `ExtractFilename` returns `""` for a path ending in `/`, such as a self-post's submission URL reached through the fallback at line 140;
  - the grayscale `convert` (line 77);
  - the upload, when `configure` never set `self.imgur_client` (line 104);
  - `comment.reply` (line 150).

  Any of these leaves `func` before line 153. The comment is then not marked done, and links already appended at lines 136 and 143 stay in `urls_done` with no reply posted. `Step`, `Func` and every lemma about them describe runs in which no exception is raised. This includes `CommentMarkedDoneOnce` and `EndToEnd`.
- `configure` and `exit_handler` (decolorizebot.py:32-42, 116-121): loading and saving the two lists with `shelve`, and building the upload client. This is persistent storage I/O. `Func` therefore accepts any starting lists.
- `find_urls` (decolorizebot.py:10, 126): an external utility. It is the parameter `findUrls`, with no properties assumed.
- `urllib.parse.urlparse` (decolorizebot.py:50): a library URL parser. `ExtractFilename` takes the path string directly.
- Bot creation, the stream loop, environment variables and logging (decolorizebot.py:12-22, 155-162): streaming-client plumbing.
- `Decolorizer.ConditionMet`: lower-cases only the ASCII letters A-Z, whereas Python's `str.lower` applies full Unicode case mapping. For the token `decolorizebot` the verdict is still the same on every input. Only two non-ASCII characters lower-case into ASCII letters: U+212A becomes `k`, which is not in the token, and U+0130 becomes `i` followed by U+0307. That second case is two characters long, so it cannot match the token either. This argument is made here, not proved in the model.
