/**
 * The top level of `screenshot_tweets.js`: the date stamp, the input and
 * output locations it derives, and the batch loop that sorts the day's
 * descriptors video-first and captures each of them in turn.
 */
module Batch {
  import opened Wrappers
  import opened Text
  import opened TweetOrder
  import opened Capture

  /**
   * `DATE`: `SNAPSHOT_DATE` when it is set and non-empty, otherwise the
   * date part of the ISO timestamp with its dashes removed.
   */
  function SnapshotDate(env: Option<string>, nowIso: string): (date: string)
    ensures env.Some? && env.value != [] ==> date == env.value
    ensures (env.None? || env.value == []) ==> '-' !in date && 'T' !in date
  {
    if env.Some? && env.value != [] then env.value
    else
      var day := Split(nowIso, 'T')[0];
      assert day in Split(nowIso, 'T');
      RemoveAll(day, '-')
  }

  /** Removing the dashes of `Y-M-D` gives `YMD` when the parts have none. */
  lemma RemoveDashes(y: string, m: string, d: string)
    requires '-' !in y && '-' !in m && '-' !in d
    ensures RemoveAll(y + "-" + m + "-" + d, '-') == y + m + d
  {
    assert RemoveAll("-", '-') == [];
    var a := y + "-";
    assert RemoveAll(a, '-') == y by {
      RemoveAllAppend(y, "-", '-');
      RemoveAllAbsent(y, '-');
      assert y + [] == y;
    }
    var b := a + m;
    assert RemoveAll(b, '-') == y + m by {
      RemoveAllAppend(a, m, '-');
      RemoveAllAbsent(m, '-');
    }
    var c := b + "-";
    assert RemoveAll(c, '-') == y + m by {
      RemoveAllAppend(b, "-", '-');
      assert y + m + [] == y + m;
    }
    assert RemoveAll(c + d, '-') == y + m + d by {
      RemoveAllAppend(c, d, '-');
      RemoveAllAbsent(d, '-');
    }
  }

  /** `Y-M-D` has no `T` when its parts have none. */
  lemma DateHasNoT(y: string, m: string, d: string)
    requires 'T' !in y && 'T' !in m && 'T' !in d
    ensures 'T' !in y + "-" + m + "-" + d
  {
    var day := y + "-" + m + "-" + d;
    forall k | 0 <= k < |day| ensures day[k] != 'T' {
      if k < |y| {
        assert day[k] == y[k];
      } else if k == |y| {
      } else if k < |y| + 1 + |m| {
        assert day[k] == m[k - |y| - 1];
      } else if k == |y| + 1 + |m| {
      } else {
        assert day[k] == d[k - |y| - 2 - |m|];
      }
    }
  }

  /** An ISO timestamp `Y-M-DT...` gives the stamp `YMD`. */
  lemma SnapshotDateOfIso(y: string, m: string, d: string, rest: string)
    requires '-' !in y && '-' !in m && '-' !in d
    requires 'T' !in y && 'T' !in m && 'T' !in d
    ensures SnapshotDate(None, y + "-" + m + "-" + d + "T" + rest) == y + m + d
    ensures SnapshotDate(Some([]), y + "-" + m + "-" + d + "T" + rest) == y + m + d
  {
    var day := y + "-" + m + "-" + d;
    DateHasNoT(y, m, d);
    SplitFirst(day, rest, 'T');
    assert day + "T" + rest == day + ['T'] + rest;
    RemoveDashes(y, m, d);
  }

  /** `INPUT_PATH`, with `root` the repository directory (the parent of the scripts directory). */
  function InputPath(root: string, date: string): string
  {
    root + "/public/community_feed/twitter_" + date + ".json"
  }

  /** `OUTPUT_DIR`, with `root` the repository directory. */
  function OutputDir(root: string, date: string): string
  {
    root + "/screenshots/" + date
  }

  /** `output_path` of `fetch_from_nitter.py`, relative to the repository directory. */
  function FeedFilePath(today: string): string
  {
    "public/community_feed/twitter_" + today + ".json"
  }

  /** On the same date, the screenshot script reads exactly the file the fetcher writes. */
  lemma InputIsFetchedFile(root: string, date: string)
    ensures InputPath(root, date) == root + "/" + FeedFilePath(date)
  {
    ConcatAssoc(root + "/", "public/community_feed/twitter_" + date, ".json");
    ConcatAssoc(root + "/", "public/community_feed/twitter_", date);
  }

  /** Different dates read different input files and write into different directories. */
  lemma DatePathsInjective(root: string, a: string, b: string)
    ensures InputPath(root, a) == InputPath(root, b) ==> a == b
    ensures OutputDir(root, a) == OutputDir(root, b) ==> a == b
  {
    var n := |root| + 31;
    if InputPath(root, a) == InputPath(root, b) {
      assert InputPath(root, a)[n..n + |a|] == a;
      assert InputPath(root, b)[n..n + |b|] == b;
    }
    if OutputDir(root, a) == OutputDir(root, b) {
      assert OutputDir(root, a)[|root| + 13..] == a;
      assert OutputDir(root, b)[|root| + 13..] == b;
    }
  }

  /** One `takeTweetScreenshot` call of the batch: the descriptor and the attempts it made. */
  datatype Call = Call(tweet: Tweet, attempts: seq<AttemptOutcome>)

  /**
   * The batch loop: copy the descriptors into a fresh array, sort it
   * video-first, then capture each descriptor in order. Item `i` drives its
   * attempts in the pages `browser(i)`. Every descriptor is captured exactly
   * once, in sorted order, whatever happened to the ones before it.
   */
  method RunBatch(tweets: seq<Tweet>, dir: string, browser: nat -> nat -> PageScript) returns (calls: seq<Call>)
    ensures |calls| == |tweets| == |VideoFirst(tweets)|
    ensures forall i :: 0 <= i < |calls| ==>
              calls[i] == Call(VideoFirst(tweets)[i], Attempts(VideoFirst(tweets)[i], dir, browser(i), 0))
    ensures |tweets| <= AttemptCount(calls) <= (MaxRetries + 1) * |tweets|
  {
    var sorted := new Tweet[|tweets|](i requires 0 <= i < |tweets| => tweets[i]);
    assert sorted[..] == tweets;
    SortVideoFirst(sorted);
    VideoFirstIsPermutation(tweets);
    calls := [];
    for i := 0 to sorted.Length
      invariant sorted[..] == VideoFirst(tweets)
      invariant |calls| == i
      invariant forall k :: 0 <= k < i ==>
                  calls[k] == Call(VideoFirst(tweets)[k], Attempts(VideoFirst(tweets)[k], dir, browser(k), 0))
    {
      var attempts := TakeTweetScreenshot(sorted[i], dir, browser(i));
      calls := calls + [Call(sorted[i], attempts)];
    }
    forall c | c in calls ensures 1 <= |c.attempts| <= MaxRetries + 1 {
      var k :| 0 <= k < |calls| && calls[k] == c;
    }
    AttemptCountBounded(calls);
  }

  /** The number of attempts the batch makes, that is its `browser.newPage()` calls. */
  function AttemptCount(calls: seq<Call>): nat
    decreases |calls|
  {
    if calls == [] then 0 else |calls[0].attempts| + AttemptCount(calls[1..])
  }

  /** Each call makes one to three attempts, so a batch of `n` calls makes between `n` and `3n`. */
  lemma {:induction false} AttemptCountBounded(calls: seq<Call>)
    requires forall c <- calls :: 1 <= |c.attempts| <= MaxRetries + 1
    ensures |calls| <= AttemptCount(calls) <= (MaxRetries + 1) * |calls|
    decreases |calls|
  {
    if calls != [] {
      assert calls[0] in calls;
      AttemptCountBounded(calls[1..]);
    }
  }
}
