/**
 * `takeTweetScreenshot`: one tweet, at most three attempts, each in a fresh
 * page. The browser is an oracle. A `PageScript` says, for one page, which
 * awaited calls resolve and which selectors match. Everything the script
 * decides from those answers is modelled: which branch is taken, which
 * element is captured, which files are written, whether the attempt throws,
 * whether the page is left open, and whether another attempt follows.
 */
module Capture {
  import opened Wrappers
  import opened Text
  import opened TweetOrder

  /** Retries after the first attempt (`retryCount < 2`). */
  const MaxRetries: nat := 2

  /** Element selectors tried in order on x.com / twitter.com. */
  const TwitterSelectors: seq<string> := ["[data-testid=\"tweet\"]", "article", ".css-1dbjc4n.r-18u37iz"]

  /** Element selectors tried in order on a Nitter mirror, both to wait for and to capture. */
  const NitterSelectors: seq<string> := [".main-tweet", "article", ".tweet-body", ".timeline-item"]

  /** How one page behaves when it is opened and driven by the script. */
  datatype PageScript = PageScript(
    opens: bool,          // browser.newPage() resolves
    navigates: bool,      // setViewport, setUserAgent, goto and, on x.com, the overlay removal resolve
    inspects: bool,       // the video check, the video preparation scripts, the waitForTimeout
                          // calls around them and every page.$$ / page.$ call resolve
    appears: set<string>, // selectors page.waitForSelector sees within its timeout
    present: set<string>, // selectors page.$$ and page.$ match when the target is chosen
    shoots: bool,         // the tweet screenshot (with its bounding box) is written
    closes: bool,         // the page.close() of the try block resolves
    debugShoots: bool,    // the full-page debug screenshot of the catch block resolves
    debugCloses: bool)    // the page.close() of the catch block resolves

  datatype Platform = Twitter | Nitter

  /** What ends up in `tweet_<id>.png`. */
  datatype Target = Element(selector: string) | FullPage

  datatype Shot = Shot(path: string, target: Target)

  /** The observable result of one attempt. */
  datatype AttemptOutcome = AttemptOutcome(
    saved: Option<Shot>,     // the tweet file written in this attempt
    debug: Option<string>,   // the debug file written in this attempt
    raised: bool,            // the try block threw, so the catch block ran
    leftOpen: bool)          // the page was opened and never closed

  /** The x.com / twitter.com branch is taken iff the link names one of them. */
  function PlatformOf(link: string): (p: Platform)
    ensures p == Twitter <==> (exists i: nat :: OccursAt(link, "x.com", i)) || (exists i: nat :: OccursAt(link, "twitter.com", i))
  {
    IncludesIff(link, "x.com");
    IncludesIff(link, "twitter.com");
    if Includes(link, "x.com") || Includes(link, "twitter.com") then Twitter else Nitter
  }

  /** `path.join(OUTPUT_DIR, `tweet_${id}.png`)`. */
  function TweetPath(dir: string, id: string): string
  {
    dir + "/tweet_" + id + ".png"
  }

  /** `path.join(OUTPUT_DIR, `debug_${id}.png`)`. */
  function DebugPath(dir: string, id: string): string
  {
    dir + "/debug_" + id + ".png"
  }

  /** Two distinct ids never share a screenshot file. */
  lemma TweetPathInjective(dir: string, a: string, b: string)
    requires TweetPath(dir, a) == TweetPath(dir, b)
    ensures a == b
  {
    var p := TweetPath(dir, a);
    var n := |dir| + 7;
    assert p[n..n + |a|] == a;
    assert TweetPath(dir, b)[n..n + |b|] == b;
  }

  /** A debug file never overwrites a tweet file, whatever the two ids. */
  lemma DebugPathIsNotTweetPath(dir: string, a: string, b: string)
    ensures TweetPath(dir, a) != DebugPath(dir, b)
  {
    assert TweetPath(dir, a)[|dir| + 1] == 't';
    assert DebugPath(dir, b)[|dir| + 1] == 'd';
  }

  /** Index of the first selector of `selectors` that is in `present`. */
  function FirstMatch(selectors: seq<string>, present: set<string>): (r: Option<nat>)
    ensures r.Some? ==> r.value < |selectors| && selectors[r.value] in present
    ensures r.Some? ==> forall k :: 0 <= k < r.value ==> selectors[k] !in present
    ensures r.None? <==> forall k :: 0 <= k < |selectors| ==> selectors[k] !in present
    decreases |selectors|
  {
    if selectors == [] then None
    else if selectors[0] in present then Some(0)
    else match FirstMatch(selectors[1..], present)
      case None => None
      case Some(i) => Some(i + 1)
  }

  /** The element to capture: the first selector that matches, or the full page when none does. */
  function TargetOf(selectors: seq<string>, present: set<string>): Target
  {
    match FirstMatch(selectors, present)
    case None => FullPage
    case Some(i) => Element(selectors[i])
  }

  /** Whether the Nitter wait loop finds some selector. */
  predicate AnyAppears(selectors: seq<string>, appears: set<string>)
  {
    exists k :: 0 <= k < |selectors| && selectors[k] in appears
  }

  /** Whether the attempt gets as far as the tweet screenshot, and what it captures then. */
  function Plan(link: string, page: PageScript): (bool, Target)
  {
    if !page.opens || !page.navigates then (false, FullPage)
    else if PlatformOf(link) == Twitter then (page.inspects, TargetOf(TwitterSelectors, page.present))
    else if !AnyAppears(NitterSelectors, page.appears) then (true, FullPage)
    else (page.inspects, TargetOf(NitterSelectors, page.present))
  }

  /**
   * One attempt, as a decision table over the page's answers: the tweet file
   * is written when the screenshot is reached and succeeds; the attempt throws
   * unless the screenshot and the close both succeed; the catch block writes
   * the debug file only on an opened page, and closes it only after that
   * screenshot; so a page stays open when it opened, the attempt threw, and
   * the catch block did not get it closed.
   */
  function Outcome(t: Tweet, dir: string, page: PageScript): AttemptOutcome
  {
    var (reaches, target) := Plan(t.link, page);
    var shot := reaches && page.shoots;
    var raised := !(shot && page.closes);
    AttemptOutcome(
      if shot then Some(Shot(TweetPath(dir, t.id), target)) else None,
      if raised && page.opens && page.debugShoots then Some(DebugPath(dir, t.id)) else None,
      raised,
      page.opens && raised && !(page.debugShoots && page.debugCloses))
  }

  /** The `$$` / `$` loops: try the selectors in order, keep the first that matches. */
  method FindElement(selectors: seq<string>, present: set<string>) returns (element: Option<string>)
    ensures element == match FirstMatch(selectors, present) case None => None case Some(i) => Some(selectors[i])
  {
    element := None;
    for i := 0 to |selectors|
      invariant forall k :: 0 <= k < i ==> selectors[k] !in present
    {
      if selectors[i] in present {
        element := Some(selectors[i]);
        return;
      }
    }
  }

  /** The Nitter `waitForSelector` loop: `found` becomes true at the first selector that shows up. */
  method WaitForAny(selectors: seq<string>, appears: set<string>) returns (found: bool)
    ensures found <==> AnyAppears(selectors, appears)
  {
    found := false;
    for i := 0 to |selectors|
      invariant forall k :: 0 <= k < i ==> selectors[k] !in appears
    {
      if selectors[i] in appears {
        found := true;
        break;
      }
    }
  }

  /** The target of a screenshot, from the element the selector loop found. */
  function TargetFrom(element: Option<string>): Target
  {
    match element
    case None => FullPage
    case Some(s) => Element(s)
  }

  /** One pass through the body of `takeTweetScreenshot`, its try block and its catch block. */
  method CaptureOnce(t: Tweet, dir: string, page: PageScript) returns (o: AttemptOutcome)
    ensures o == Outcome(t, dir, page)
  {
    var filePath := TweetPath(dir, t.id);
    var saved: Option<Shot> := None;
    var failed := false;
    var closed := false;
    // try
    if !page.opens || !page.navigates {
      failed := true;
    } else if Includes(t.link, "x.com") || Includes(t.link, "twitter.com") {
      // the wait for [data-testid="tweet"] has its own catch: its outcome is ignored
      if !page.inspects {
        failed := true;
      } else {
        var element := FindElement(TwitterSelectors, page.present);
        if !page.shoots {
          failed := true;
        } else {
          saved := Some(Shot(filePath, TargetFrom(element)));
          if page.closes { closed := true; } else { failed := true; }
        }
      }
    } else {
      var found := WaitForAny(NitterSelectors, page.appears);
      if !found {
        // full-page fallback, close and early return
        if !page.shoots {
          failed := true;
        } else {
          saved := Some(Shot(filePath, FullPage));
          if page.closes { closed := true; } else { failed := true; }
        }
      } else if !page.inspects {
        failed := true;
      } else {
        var element := FindElement(NitterSelectors, page.present);
        if !page.shoots {
          failed := true;
        } else {
          saved := Some(Shot(filePath, TargetFrom(element)));
          if page.closes { closed := true; } else { failed := true; }
        }
      }
    }
    // catch: a debug screenshot and a close, in one inner try, on an opened page
    var debug: Option<string> := None;
    if failed && page.opens && page.debugShoots {
      debug := Some(DebugPath(dir, t.id));
      closed := page.debugCloses;
    }
    o := AttemptOutcome(saved, debug, failed, page.opens && !closed);
  }

  /**
   * The recursion of `takeTweetScreenshot(tweet, browser, retryCount)`:
   * attempt `retryCount` runs in page `pages(retryCount)`, and a throwing
   * attempt is followed by another one while `retryCount < MaxRetries`.
   */
  function Attempts(t: Tweet, dir: string, pages: nat -> PageScript, retryCount: nat): (r: seq<AttemptOutcome>)
    ensures 1 <= |r|
    ensures retryCount <= MaxRetries ==> |r| <= MaxRetries + 1 - retryCount
    ensures retryCount > MaxRetries ==> |r| == 1
    decreases MaxRetries - retryCount
  {
    var o := Outcome(t, dir, pages(retryCount));
    if o.raised && retryCount < MaxRetries then [o] + Attempts(t, dir, pages, retryCount + 1)
    else [o]
  }

  /**
   * Attempt `k` of the sequence runs in page `retryCount + k`; every attempt
   * but the last threw; and the last one either did not throw or had no
   * retries left.
   */
  lemma {:induction false} AttemptsShape(t: Tweet, dir: string, pages: nat -> PageScript, retryCount: nat)
    ensures var r := Attempts(t, dir, pages, retryCount);
      && (forall k :: 0 <= k < |r| ==> r[k] == Outcome(t, dir, pages(retryCount + k)))
      && (forall k :: 0 <= k < |r| - 1 ==> r[k].raised)
      && (r[|r| - 1].raised ==> retryCount + |r| - 1 >= MaxRetries)
    decreases MaxRetries - retryCount
  {
    var o := Outcome(t, dir, pages(retryCount));
    var r := Attempts(t, dir, pages, retryCount);
    if o.raised && retryCount < MaxRetries {
      var rest := Attempts(t, dir, pages, retryCount + 1);
      assert r == [o] + rest;
      AttemptsShape(t, dir, pages, retryCount + 1);
      forall k | 1 <= k < |r| ensures r[k] == Outcome(t, dir, pages(retryCount + k)) {
        assert r[k] == rest[k - 1];
      }
      forall k | 1 <= k < |r| - 1 ensures r[k].raised {
        assert r[k] == rest[k - 1];
      }
      assert r[|r| - 1] == rest[|rest| - 1];
    } else {
      assert r == [o];
    }
  }

  /**
   * `takeTweetScreenshot(tweet, browser)` with the recursion turned into a
   * loop over `retryCount`. It returns normally whatever the attempts do.
   */
  method TakeTweetScreenshot(t: Tweet, dir: string, pages: nat -> PageScript) returns (attempts: seq<AttemptOutcome>)
    ensures attempts == Attempts(t, dir, pages, 0)
  {
    attempts := [];
    var retryCount: nat := 0;
    while true
      invariant retryCount <= MaxRetries
      invariant attempts + Attempts(t, dir, pages, retryCount) == Attempts(t, dir, pages, 0)
      decreases MaxRetries - retryCount
    {
      var outcome := CaptureOnce(t, dir, pages(retryCount));
      attempts := attempts + [outcome];
      if !outcome.raised || retryCount >= MaxRetries {
        break;
      }
      retryCount := retryCount + 1;
    }
  }

  /** At most three attempts; all but the last threw; the last succeeded or was the third. */
  lemma AttemptsBounded(t: Tweet, dir: string, pages: nat -> PageScript)
    ensures var r := Attempts(t, dir, pages, 0);
      && 1 <= |r| <= MaxRetries + 1
      && (forall k :: 0 <= k < |r| - 1 ==> r[k].raised)
      && (!r[|r| - 1].raised || |r| == MaxRetries + 1)
  {
    AttemptsShape(t, dir, pages, 0);
  }

  /** Attempts stop at the first attempt that does not throw. */
  lemma {:induction false} AttemptsStopAtFirstSuccess(t: Tweet, dir: string, pages: nat -> PageScript, k: nat)
    requires k <= MaxRetries
    requires !Outcome(t, dir, pages(k)).raised
    requires forall j :: 0 <= j < k ==> Outcome(t, dir, pages(j)).raised
    ensures |Attempts(t, dir, pages, 0)| == k + 1
  {
    AttemptsShape(t, dir, pages, 0);
  }

  /**
   * The retry decision does not depend on what happens in the catch block:
   * neither the debug screenshot nor the close after it changes whether the
   * attempt threw or which tweet file it wrote.
   */
  lemma RetryIgnoresDebugPath(t: Tweet, dir: string, page: PageScript, debugShoots: bool, debugCloses: bool)
    ensures var other := page.(debugShoots := debugShoots, debugCloses := debugCloses);
      && Outcome(t, dir, page).raised == Outcome(t, dir, other).raised
      && Outcome(t, dir, page).saved == Outcome(t, dir, other).saved
  {
  }

  /**
   * The tweet file of a successful attempt is `TweetPath(dir, id)` and holds
   * the first selector of the platform's list that matches, or the full page.
   * It holds an element exactly when some selector of the list matches (on
   * Nitter, once some selector has appeared).
   */
  lemma SavedShotIsFirstMatch(t: Tweet, dir: string, page: PageScript)
    requires Outcome(t, dir, page).saved.Some?
    ensures var shot := Outcome(t, dir, page).saved.value;
      && shot.path == TweetPath(dir, t.id)
      && (shot.target.Element? ==>
            var sels := if PlatformOf(t.link) == Twitter then TwitterSelectors else NitterSelectors;
            exists i :: 0 <= i < |sels| && sels[i] == shot.target.selector && sels[i] in page.present
              && forall k :: 0 <= k < i ==> sels[k] !in page.present)
    ensures PlatformOf(t.link) == Twitter ==>
      (Outcome(t, dir, page).saved.value.target.Element? <==>
         exists i :: 0 <= i < |TwitterSelectors| && TwitterSelectors[i] in page.present)
    ensures PlatformOf(t.link) == Nitter ==>
      (Outcome(t, dir, page).saved.value.target.Element? <==>
         AnyAppears(NitterSelectors, page.appears)
         && exists i :: 0 <= i < |NitterSelectors| && NitterSelectors[i] in page.present)
  {
    var shot := Outcome(t, dir, page).saved.value;
    if shot.target.Element? {
      var sels := if PlatformOf(t.link) == Twitter then TwitterSelectors else NitterSelectors;
      var i := FirstMatch(sels, page.present).value;
      assert sels[i] == shot.target.selector;
    }
  }

  /**
   * When the platform's own selectors match nothing, and every call the
   * attempt makes resolves, the attempt still succeeds and writes one
   * full-page screenshot to the tweet's file. On Nitter this is also the case
   * when no selector appeared at all, whatever the video check does.
   */
  lemma NoMatchFallsBackToFullPage(t: Tweet, dir: string, page: PageScript)
    requires page.opens && page.navigates && page.shoots && page.closes
    requires PlatformOf(t.link) == Twitter ==>
      page.inspects && forall k :: 0 <= k < |TwitterSelectors| ==> TwitterSelectors[k] !in page.present
    requires PlatformOf(t.link) == Nitter ==>
      || !AnyAppears(NitterSelectors, page.appears)
      || (page.inspects && forall k :: 0 <= k < |NitterSelectors| ==> NitterSelectors[k] !in page.present)
    ensures Outcome(t, dir, page) == AttemptOutcome(Some(Shot(TweetPath(dir, t.id), FullPage)), None, false, false)
  {
  }

  /**
   * On Nitter, when no selector appears, the early full-page return neither
   * inspects the page nor looks for an element: the outcome does not depend
   * on the video check or on which selectors match, and the tweet file holds
   * the full page exactly when the screenshot resolves.
   */
  lemma NitterNothingAppears(t: Tweet, dir: string, page: PageScript, inspects: bool, present: set<string>)
    requires PlatformOf(t.link) == Nitter && page.opens && page.navigates
    requires !AnyAppears(NitterSelectors, page.appears)
    ensures Outcome(t, dir, page) == Outcome(t, dir, page.(inspects := inspects, present := present))
    ensures Outcome(t, dir, page).saved == if page.shoots then Some(Shot(TweetPath(dir, t.id), FullPage)) else None
  {
  }

  /**
   * The tweet file can be written in an attempt that still throws: when the
   * try block's `page.close()` rejects after the screenshot, the catch block
   * runs and the tweet is retried. So "every attempt failed" does not mean
   * "no file". The page is then left open exactly when the catch block's
   * close rejects too.
   */
  lemma FailedAttemptsCanStillSave(t: Tweet, dir: string, debugCloses: bool)
    ensures var page := PageScript(true, true, true, {}, {}, true, false, true, debugCloses);
      var r := Attempts(t, dir, _ => page, 0);
      && |r| == MaxRetries + 1
      && (forall k :: 0 <= k < |r| ==> r[k].raised && r[k].saved.Some? && r[k].leftOpen == !debugCloses)
  {
    var page := PageScript(true, true, true, {}, {}, true, false, true, debugCloses);
    var r := Attempts(t, dir, _ => page, 0);
    AttemptsShape(t, dir, _ => page, 0);
    assert Outcome(t, dir, page).raised;
    assert r[0].raised && r[1].raised;
  }

  /**
   * A page is left open exactly when it opened and neither close got it
   * closed: the try block's close was not reached after a written tweet file
   * or rejected, and the catch block's close was skipped by a rejected debug
   * screenshot or rejected itself. An open page always means a thrown attempt.
   */
  lemma LeftOpenIff(t: Tweet, dir: string, page: PageScript)
    ensures Outcome(t, dir, page).leftOpen
      <==> && page.opens
           && !(Outcome(t, dir, page).saved.Some? && page.closes)
           && !(page.debugShoots && page.debugCloses)
    ensures Outcome(t, dir, page).leftOpen ==> Outcome(t, dir, page).raised
  {
  }
}
