# Nitter tweet snapshots, modelled in Dafny

The repository collects community tweets once a day and then screenshots
them. It has two scripts, and this project models the decision-making core
of each.

- `scripts/fetch_from_nitter.py` reads `accounts.txt`. For each account it
  fetches the account's RSS feed from a Nitter instance. It keeps the newest
  entry of each feed as a tweet descriptor `{id, link, author}` and writes
  the descriptors to `public/community_feed/twitter_<YYYYMMDD>.json`.
  - It extracts the tweet id as the last `/`-separated piece of the link.
  - It skips accounts whose feed is empty, and carries on past accounts
    whose fetch raises.
- `scripts/screenshot_tweets.js` reads that file for the date
  `SNAPSHOT_DATE` (or today).
  - It sorts the descriptors with a stable sort so that the ones that might
    hold a video come first.
  - It then captures each descriptor in turn with `takeTweetScreenshot`.
    That function opens a page and branches on x.com/twitter.com against a
    Nitter mirror. It chooses the element by trying selector lists in
    order, and falls back to a full-page screenshot.
  - When the attempt throws on a page it opened, it tries to write a
    full-page debug screenshot; either way it retries, up to two times.

The browser and the network are oracles.

- **Browser.** A `Capture.PageScript` says, for one page, which awaited
  calls resolve, which selectors appear while the script waits and which
  selectors match. The `page.close()` of the try block and the one of the
  catch block answer separately. The batch hands attempt `k` of item `i` the page
  `browser(i)(k)`.
- **Network.** It is a function from feed URL to what `feedparser.parse`
  yields.

Everything the scripts decide from those answers is modelled: the order,
the branch taken, the element captured, the files written, whether an
attempt throws, whether a page is left open, the retry count, and the
records kept.

Modules:
- `Wrappers`: `Option`.
- `Text`: the semantics of these string operations:
  - JavaScript's `includes` and `replace(/-/g, '')`;
  - Python's `strip`, `split` and `[-1]`.
- `TweetOrder`: the descriptor, `mightContainVideo`, the comparator, the
  order a stable sort produces, and the in-place sort of the copied array.
- `Capture`: one attempt of `takeTweetScreenshot`, its retries, and the
  output file names.
- `Batch`: the date stamp, the input and output paths, and the batch loop.
- `NitterFetch`: `extract_tweet_id`, `fetch_latest_tweet`, the account list,
  and the loop of `main`.

`Array.prototype.sort` is stable since ECMAScript 2019. With this comparator
the sorted batch is therefore unique:
- first the video-likely descriptors, in input order;
- then the rest, in input order.

`TweetOrder.SortedStableIsVideoFirst` proves this uniqueness, and
`TweetOrder.SortVideoFirst` is an in-place method proved to produce exactly
that order.

`takeTweetScreenshot` recurses on `retryCount`. The model states the
recursion as the function `Capture.Attempts` and implements it as the loop
method `Capture.TakeTweetScreenshot`, proved equal to it.

The code can write `tweet_<id>.png` in an attempt that still throws. The
screenshot is taken first, then `page.close()` can reject. The catch block
then runs and the tweet is retried. So a tweet whose three attempts all
threw can still have its screenshot file.
`Capture.FailedAttemptsCanStillSave` exhibits such a run.

## Model

| member | source | states |
|---|---|---|
| TweetOrder.MightContainVideoIff | scripts/screenshot_tweets.js:245-253 | a descriptor might contain a video exactly when `has_video` is set or the link contains "video" at some index |
| TweetOrder.CompareVideoFirst | scripts/screenshot_tweets.js:280-284 | the comparator returns -1, 0 or 1; it is negative exactly when only the first descriptor might contain a video, and positive exactly when only the second does |
| TweetOrder.CompareIsConsistent | scripts/screenshot_tweets.js:280-284 | the comparator is antisymmetric, reflexively 0, "equal" is transitive, "before" is transitive and compatible with "equal", and it returns 0 exactly when both descriptors are of the same kind |
| TweetOrder.GroupMembers | scripts/screenshot_tweets.js:280-284 | every descriptor of a kind's group is of that kind and comes from the input |
| TweetOrder.VideoFirstIsPermutation | scripts/screenshot_tweets.js:280 | the sorted batch is a permutation of the input (same multiset, same length) |
| TweetOrder.VideoFirstIsSorted | scripts/screenshot_tweets.js:280-284 | in the sorted batch no pair is out of comparator order: every video-likely descriptor precedes every other one |
| TweetOrder.VideoFirstIsStable | scripts/screenshot_tweets.js:280-284 | the sort keeps the input order within the video-likely descriptors and within the others |
| TweetOrder.SortedStableIsVideoFirst | scripts/screenshot_tweets.js:280-284 | any order that is sorted by the comparator and stable with respect to the input is exactly `VideoFirst` of the input, so every stable sort agrees with the model |
| TweetOrder.SortVideoFirst | scripts/screenshot_tweets.js:280-284 | sorting the copied array in place leaves it holding `VideoFirst` of its old contents |
| Text.IncludesIff | scripts/screenshot_tweets.js:250 | `includes` holds exactly when the substring occurs at some index |
| Text.RemoveAll | scripts/screenshot_tweets.js:6 | removing a character leaves none of it, never lengthens the text and introduces no new character |
| Text.StripIsTrimmedSlice | scripts/fetch_from_nitter.py:34 | `strip` keeps a contiguous slice whose ends are outside the stripped set, and every character cut off is in the set |
| Text.StripEmptyIff | scripts/fetch_from_nitter.py:34 | `strip` yields the empty string exactly when every character is in the stripped set |
| Text.StripIdempotent | scripts/fetch_from_nitter.py:34 | stripping twice is the same as stripping once |
| Text.Split | scripts/fetch_from_nitter.py:11 | `split` returns at least one piece, and no piece contains the separator |
| Text.JoinSplit | scripts/fetch_from_nitter.py:11 | joining the pieces of a split with the separator gives back the string |
| Text.SplitJoin | scripts/fetch_from_nitter.py:11 | splitting the join of a non-empty list of separator-free pieces gives back the pieces |
| Text.LastSegment | scripts/fetch_from_nitter.py:11 | `split(sep)[-1]` is a separator-free suffix of the string that is either the whole string or preceded by the separator |
| Capture.PlatformOf | scripts/screenshot_tweets.js:51 | the x.com / twitter.com branch is taken exactly when the link contains "x.com" or "twitter.com" |
| Capture.TweetPathInjective | scripts/screenshot_tweets.js:37 | two ids share a screenshot file only if they are equal |
| Capture.DebugPathIsNotTweetPath | scripts/screenshot_tweets.js:223 | a debug file never has the name of any tweet file |
| Capture.FirstMatch | scripts/screenshot_tweets.js:127-134 | the selector found matches, no earlier selector matches, and none is found exactly when no selector matches |
| Capture.FindElement | scripts/screenshot_tweets.js:124-134 | the selector loop returns the first selector of the list that matches, or nothing when none does |
| Capture.WaitForAny | scripts/screenshot_tweets.js:148-160 | the Nitter wait loop sets `found` exactly when some selector of the list appears |
| Capture.CaptureOnce | scripts/screenshot_tweets.js:34-241 | one pass through the try and catch blocks yields the outcome of the decision table `Outcome` (file written, debug file, thrown, page left open) |
| Capture.Attempts | scripts/screenshot_tweets.js:233-240 | a call makes at least one attempt, and at most `MaxRetries + 1 - retryCount` of them |
| Capture.AttemptsShape | scripts/screenshot_tweets.js:216-241 | attempt `k` runs in page `retryCount + k`, every attempt but the last threw, and the last either did not throw or had no retry left |
| Capture.TakeTweetScreenshot | scripts/screenshot_tweets.js:233-240 | the retry loop makes exactly the attempts of the recursion `Attempts` starting at `retryCount = 0` |
| Capture.AttemptsBounded | scripts/screenshot_tweets.js:233-240 | one to three attempts; all but the last threw; the last succeeded or was the third |
| Capture.AttemptsStopAtFirstSuccess | scripts/screenshot_tweets.js:234-237 | when attempt `k` is the first not to throw, exactly `k + 1` attempts are made |
| Capture.RetryIgnoresDebugPath | scripts/screenshot_tweets.js:219-237 | whether the attempt throws, and which tweet file it writes, depend neither on the catch block's debug screenshot nor on its `page.close()` |
| Capture.SavedShotIsFirstMatch | scripts/screenshot_tweets.js:124-145 | a written tweet file is `tweet_<id>.png` in the output directory; when it holds an element, that is the first matching selector of the platform's list; it holds an element exactly when some selector of the list matches (on Nitter, once some selector has appeared) |
| Capture.NoMatchFallsBackToFullPage | scripts/screenshot_tweets.js:136-139 | when no selector of the platform's own list matches (or, on Nitter, none appeared) and every call made resolves, the attempt succeeds with one full-page screenshot and nothing else |
| Capture.NitterNothingAppears | scripts/screenshot_tweets.js:162-168 | on Nitter, when no selector appears, the outcome depends neither on the video check nor on which selectors match, and the tweet file holds the full page exactly when the screenshot resolves |
| Capture.FailedAttemptsCanStillSave | scripts/screenshot_tweets.js:141-216 | a page whose try-block close rejects makes all three attempts throw although each writes the tweet file; each page is left open exactly when the catch block's close rejects too |
| Capture.LeftOpenIff | scripts/screenshot_tweets.js:215-231 | a page is left open exactly when it opened, the try block's close was not reached after a written file or rejected, and the catch block's close was skipped by a rejected debug screenshot or rejected itself; an open page always means a thrown attempt |
| Batch.SnapshotDate | scripts/screenshot_tweets.js:6 | a non-empty `SNAPSHOT_DATE` is used as it is; otherwise the stamp has no dash and no `T` |
| Batch.SnapshotDateOfIso | scripts/screenshot_tweets.js:6 | with `SNAPSHOT_DATE` unset or empty, the timestamp `Y-M-DT...` gives the stamp `YMD` |
| Batch.InputIsFetchedFile | scripts/screenshot_tweets.js:7 | when the fetch script runs from the repository directory, the input file for a date is the file it writes for that date; each path is built from its own script's literal (screenshot_tweets.js line 7, fetch_from_nitter.py line 30), so the lemma checks that the two literals agree |
| Batch.DatePathsInjective | scripts/screenshot_tweets.js:7-8 | different dates read different input files and write into different output directories |
| Batch.RunBatch | scripts/screenshot_tweets.js:280-291 | every descriptor is captured exactly once, in `VideoFirst` order, each call making the attempts `Attempts` gives for its pages; the batch makes between `n` and `3n` attempts (`browser.newPage()` calls) |
| Batch.AttemptCountBounded | scripts/screenshot_tweets.js:287-291 | calls of one to three attempts each add up to between `n` and `3n` attempts |
| NitterFetch.ExtractTweetId | scripts/fetch_from_nitter.py:9-11 | the id is slash-free and is the longest slash-free tail of the url once its outer slashes are stripped |
| NitterFetch.ExtractTweetIdIgnoresOuterSlashes | scripts/fetch_from_nitter.py:11 | a slash added at either end of the url does not change the id |
| NitterFetch.ExtractTweetIdOfStatusLink | scripts/fetch_from_nitter.py:10-11 | the id of `https://nitter.net/<user>/status/<id>` is `<id>`, with or without a trailing slash |
| NitterFetch.FeedUrlInjective | scripts/fetch_from_nitter.py:14 | distinct accounts are fetched from distinct feed URLs |
| NitterFetch.FetchLatestTweet | scripts/fetch_from_nitter.py:13-26 | `None` exactly when the feed has no entries; a record exactly when the first entry has a link, and then the record holds that link, the id extracted from it and `@account` |
| NitterFetch.NonBlank | scripts/fetch_from_nitter.py:34 | the filter keeps only non-empty lines, all from the input, and never lengthens the list |
| NitterFetch.AccountsAreStripped | scripts/fetch_from_nitter.py:34 | every account is non-empty and has no whitespace at either end |
| NitterFetch.AccountsAppend | scripts/fetch_from_nitter.py:33-34 | the account list of a concatenation of lines is the concatenation of the account lists, so the file's order is kept |
| NitterFetch.AccountsOfLine | scripts/fetch_from_nitter.py:34 | an all-whitespace line contributes nothing, and any other line contributes its stripped text |
| NitterFetch.CollectedAppend | scripts/fetch_from_nitter.py:36-46 | the results of a concatenation of account lists are the concatenation of the results |
| NitterFetch.CollectedSnoc | scripts/fetch_from_nitter.py:37-44 | one more account appends its record when the fetch finds one, and nothing otherwise |
| NitterFetch.CollectedSkipsFailure | scripts/fetch_from_nitter.py:38-46 | an account whose fetch returns `None` or raises adds nothing and does not affect the results of the other accounts |
| NitterFetch.CollectedRecordsComeFromAccounts | scripts/fetch_from_nitter.py:18-25 | every result has the id extracted from its link, a slash-free id, and the author `@` followed by one of the accounts |
| NitterFetch.CollectedKeepsAllIff | scripts/fetch_from_nitter.py:36-46 | no account is dropped exactly when every fetch finds a record, and exactly when every feed's first entry exists and has a link |
| NitterFetch.CollectResults | scripts/fetch_from_nitter.py:36-46 | the loop over the accounts produces `Collected`, the records found in account order |
| NitterFetch.FetchAll | scripts/fetch_from_nitter.py:33-46 | reading the accounts and running the loop yields the records of the non-blank stripped lines, in file order |

## Left out

- Browser launch, `page.setViewport`, `setUserAgent`, timeouts and every
  `waitForTimeout` or `setTimeout` delay are left out. The model keeps only
  whether each awaited call resolves; time is not modelled.
- The DOM scripts run by `page.evaluate` are left out: overlay removal, the
  video check and the video preparation. Only whether they resolve is
  modelled (`PageScript.navigates` and `PageScript.inspects`). The video
  check's answer decides whether the video preparation script and the
  `waitForTimeout` calls around it run. Those steps are folded into
  `PageScript.inspects`: it says whether the check and every step the
  check's answer leads to resolve.
- Capture.CaptureOnce: a `page.$$` or `page.$` call that rejects is folded
  into `PageScript.inspects`, because such a call fails the attempt at the
  same point.
- The bounding box and the pixels of a screenshot are left out; a `Shot`
  records only the file and the selector or full page captured.
- `readTweetList`, `fs.existsSync`, `mkdirSync`, `JSON.parse` and the exit
  code of a failed run are left out. The batch starts from the parsed list
  of descriptors.
- Batch.SnapshotDate: the clock is a parameter (`nowIso`, the ISO string of
  `new Date()`). Likewise the fetch script's `today` is a parameter of
  `Batch.FeedFilePath`.
- `path.join` normalisation is not modelled. Paths are plain concatenation
  under a repository directory `root`, standing for `__dirname/..`.
- Capture.TweetPathInjective: holds for the concatenated path. With
  `path.join` normalisation, an id holding `/..` can name another id's file.
  The ids the fetch script writes are slash-free
  (`NitterFetch.CollectedRecordsComeFromAccounts`).
- Capture.DebugPathIsNotTweetPath: holds for the concatenated paths. With
  normalisation, an id such as `a/../debug_b` names the debug file of `b`.
- Batch.DatePathsInjective: holds for the concatenated paths. With
  normalisation, a `SNAPSHOT_DATE` holding `/..` can name another date's
  directory or file.
- Batch.InputIsFetchedFile: the fetch script writes relative to its working
  directory, and the screenshot script reads relative to `__dirname/..`. The
  lemma assumes the fetch script runs from the repository directory.
- TweetOrder.Tweet: JavaScript truthiness of `has_video` and `link` is
  collapsed to a boolean and a possibly empty string. An `id` is the text
  the template literal prints.
- NitterFetch.FetchLatestTweet: `feedparser.parse` is an oracle keyed by
  feed URL, so two fetches of one account see the same feed. The case where
  parsing raises is `Feed.ParseError`. A first entry without a link raises,
  as attribute access does in the script.
- NitterFetch.FetchAll: the file's lines are given as a sequence. Opening
  `accounts.txt`, `os.makedirs` and writing the JSON output are not
  modelled.
- Every `console.log`, `console.error` and `print` line is left out.
