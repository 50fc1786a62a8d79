/**
 * `fetch_from_nitter.py`: read the account list, fetch each account's RSS
 * feed from a Nitter instance, and keep the newest entry of each feed as a
 * tweet descriptor. The network is an oracle from feed URL to what
 * `feedparser.parse` yields for that URL.
 */
module NitterFetch {
  import opened Wrappers
  import opened Text

  const NitterBaseUrl: string := "https://nitter.net"

  /** The characters Python's `str.isspace` holds of. */
  predicate IsSpace(c: char)
  {
    || c == ' ' || '\t' <= c <= '\r' || '\U{1C}' <= c <= '\U{1F}'
    || c == '\U{85}' || c == '\U{A0}' || c == '\U{1680}' || '\U{2000}' <= c <= '\U{200A}'
    || c == '\U{2028}' || c == '\U{2029}' || c == '\U{202F}' || c == '\U{205F}' || c == '\U{3000}'
  }

  /** The characters the argument-less `str.strip()` removes. */
  const Whitespace: set<char> := set c: char | '\0' <= c <= '\U{3000}' && IsSpace(c)

  /**
   * `extract_tweet_id`: `url.strip("/").split("/")[-1]`, the longest
   * slash-free tail of the url once its outer slashes are stripped.
   */
  function ExtractTweetId(url: string): (id: string)
    ensures '/' !in id
    ensures var s := Strip(url, {'/'});
      && |id| <= |s| && s[|s| - |id|..] == id
      && (|id| == |s| || s[|s| - |id| - 1] == '/')
  {
    LastSegment(Strip(url, {'/'}), '/')
  }

  /** Slashes at either end of the url make no difference. */
  lemma ExtractTweetIdIgnoresOuterSlashes(url: string)
    ensures ExtractTweetId(url + "/") == ExtractTweetId(url)
    ensures ExtractTweetId("/" + url) == ExtractTweetId(url)
  {
    StripIgnoresTrailing(url, '/', {'/'});
    StripIgnoresLeading(url, '/', {'/'});
  }

  /** A Nitter status link, `https://nitter.net/<user>/status/<id>`. */
  function StatusLink(user: string, id: string): string
  {
    NitterBaseUrl + "/" + user + "/status/" + id
  }

  /** The id of a status link is the status number, with or without a trailing slash. */
  lemma ExtractTweetIdOfStatusLink(user: string, id: string)
    requires id != [] && '/' !in id
    ensures ExtractTweetId(StatusLink(user, id)) == id
    ensures ExtractTweetId(StatusLink(user, id) + "/") == id
  {
    var link := StatusLink(user, id);
    assert link[0] == 'h';
    assert link[|link| - 1] == id[|id| - 1];
    StripKeepsTrimmed(link, {'/'});
    var front := NitterBaseUrl + "/" + user + "/status";
    assert link == front + ['/'] + id;
    LastSegmentAfterSeparator(front, id, '/');
    ExtractTweetIdIgnoresOuterSlashes(link);
  }

  /** `f"{NITTER_BASE_URL}/{account}/rss"`. */
  function FeedUrl(account: string): string
  {
    NitterBaseUrl + "/" + account + "/rss"
  }

  /** Distinct accounts are fetched from distinct feeds. */
  lemma FeedUrlInjective(a: string, b: string)
    requires FeedUrl(a) == FeedUrl(b)
    ensures a == b
  {
    var n := |NitterBaseUrl| + 1;
    assert FeedUrl(a)[n..n + |a|] == a;
    assert FeedUrl(b)[n..n + |b|] == b;
  }

  /** One feed entry; an entry without a `link` makes `entry.link` raise. */
  datatype Entry = Entry(link: Option<string>)

  /** What `feedparser.parse(feed_url)` yields: entries, or an exception. */
  datatype Feed = ParseError | Feed(entries: seq<Entry>)

  /** The dictionary `fetch_latest_tweet` returns. */
  datatype Record = Record(id: string, link: string, author: string)

  /** The feed's first entry exists and has a link. */
  predicate HasFirstLink(feed: Feed)
  {
    feed.Feed? && feed.entries != [] && feed.entries[0].link.Some?
  }

  /** `fetch_latest_tweet`'s result: a record, `None`, or an exception. */
  datatype Fetched = Raised | NoTweet | Found(record: Record)

  /** `fetch_latest_tweet(account)`, with the network given as `network`. */
  function FetchLatestTweet(account: string, network: string -> Feed): (r: Fetched)
    ensures r.NoTweet? <==> network(FeedUrl(account)) == Feed([])
    ensures r.Found? <==> HasFirstLink(network(FeedUrl(account)))
    ensures r.Found? ==> && r.record.link == network(FeedUrl(account)).entries[0].link.value
                         && r.record.id == ExtractTweetId(r.record.link)
                         && r.record.author == "@" + account
  {
    match network(FeedUrl(account))
    case ParseError => Raised
    case Feed(entries) =>
      if entries == [] then NoTweet
      else match entries[0].link
        case None => Raised
        case Some(link) => Found(Record(ExtractTweetId(link), link, "@" + account))
  }

  /** The non-empty strings of `s`, in order: the `if line.strip()` filter. */
  function NonBlank(s: seq<string>): (r: seq<string>)
    ensures |r| <= |s|
    ensures forall x <- r :: x != [] && x in s
    decreases |s|
  {
    if s == [] then []
    else (if s[0] != [] then [s[0]] else []) + NonBlank(s[1..])
  }

  lemma {:induction false} NonBlankAppend(xs: seq<string>, ys: seq<string>)
    ensures NonBlank(xs + ys) == NonBlank(xs) + NonBlank(ys)
    decreases |xs|
  {
    if xs == [] {
      assert xs + ys == ys;
    } else {
      assert (xs + ys)[0] == xs[0] && (xs + ys)[1..] == xs[1..] + ys;
      NonBlankAppend(xs[1..], ys);
    }
  }

  /** Every line with its surrounding whitespace stripped. */
  function StrippedLines(lines: seq<string>): (stripped: seq<string>)
    ensures |stripped| == |lines|
  {
    seq(|lines|, i requires 0 <= i < |lines| => Strip(lines[i], Whitespace))
  }

  /** `[line.strip() for line in f if line.strip()]`. */
  function Accounts(lines: seq<string>): (accounts: seq<string>)
    ensures |accounts| <= |lines|
  {
    NonBlank(StrippedLines(lines))
  }

  /** Every account is non-empty and has no whitespace at either end. */
  lemma AccountsAreStripped(lines: seq<string>)
    ensures forall a <- Accounts(lines) :: a != [] && a[0] !in Whitespace && a[|a| - 1] !in Whitespace
  {
    var stripped := StrippedLines(lines);
    forall a | a in Accounts(lines) ensures a != [] && a[0] !in Whitespace && a[|a| - 1] !in Whitespace {
      var i :| 0 <= i < |stripped| && stripped[i] == a;
      StripIsTrimmedSlice(lines[i], Whitespace);
    }
  }

  /** The account list follows the file's line order. */
  lemma AccountsAppend(xs: seq<string>, ys: seq<string>)
    ensures Accounts(xs + ys) == Accounts(xs) + Accounts(ys)
  {
    var l, r := StrippedLines(xs + ys), StrippedLines(xs) + StrippedLines(ys);
    forall i | 0 <= i < |l| ensures l[i] == r[i] {
      if i < |xs| {
        assert (xs + ys)[i] == xs[i];
      } else {
        assert (xs + ys)[i] == ys[i - |xs|];
      }
    }
    assert l == r;
    NonBlankAppend(StrippedLines(xs), StrippedLines(ys));
  }

  /** A line contributes its stripped text, or nothing when it is all whitespace. */
  lemma AccountsOfLine(line: string)
    ensures (forall k :: 0 <= k < |line| ==> line[k] in Whitespace) ==> Accounts([line]) == []
    ensures !(forall k :: 0 <= k < |line| ==> line[k] in Whitespace) ==> Accounts([line]) == [Strip(line, Whitespace)]
  {
    StripEmptyIff(line, Whitespace);
    var stripped := StrippedLines([line]);
    assert stripped == [Strip(line, Whitespace)];
    assert stripped[1..] == [];
  }

  /** What the loop of `main` appends for a run of fetch outcomes: the records found, in order. */
  function Kept(outcomes: seq<Fetched>): (results: seq<Record>)
    ensures |results| <= |outcomes|
    decreases |outcomes|
  {
    if outcomes == [] then []
    else
      var before := Kept(outcomes[..|outcomes| - 1]);
      var last := outcomes[|outcomes| - 1];
      if last.Found? then before + [last.record] else before
  }

  /** Each outcome touches only its own place in the results. */
  lemma {:induction false} KeptAppend(xs: seq<Fetched>, ys: seq<Fetched>)
    ensures Kept(xs + ys) == Kept(xs) + Kept(ys)
    decreases |ys|
  {
    if ys == [] {
      assert xs + ys == xs;
    } else {
      var ys' := ys[..|ys| - 1];
      assert (xs + ys)[..|xs + ys| - 1] == xs + ys';
      assert (xs + ys)[|xs + ys| - 1] == ys[|ys| - 1];
      KeptAppend(xs, ys');
    }
  }

  /** Nothing is dropped exactly when every outcome is a record. */
  lemma {:induction false} KeptAllIff(outcomes: seq<Fetched>)
    ensures |Kept(outcomes)| == |outcomes| <==> forall i :: 0 <= i < |outcomes| ==> outcomes[i].Found?
    decreases |outcomes|
  {
    if outcomes != [] {
      var n := |outcomes| - 1;
      var init := outcomes[..n];
      KeptAllIff(init);
      assert forall i :: 0 <= i < n ==> init[i] == outcomes[i];
    }
  }

  /** Every kept record is the record of some outcome. */
  lemma {:induction false} KeptFromOutcomes(outcomes: seq<Fetched>)
    ensures forall r <- Kept(outcomes) :: exists i :: 0 <= i < |outcomes| && outcomes[i] == Found(r)
    decreases |outcomes|
  {
    if outcomes != [] {
      var n := |outcomes| - 1;
      var init := outcomes[..n];
      KeptFromOutcomes(init);
      forall r | r in Kept(outcomes) ensures exists i :: 0 <= i < |outcomes| && outcomes[i] == Found(r) {
        if r in Kept(init) {
          var i :| 0 <= i < n && init[i] == Found(r);
          assert outcomes[i] == Found(r);
        } else {
          assert outcomes[n] == Found(r);
        }
      }
    }
  }

  /** The outcome of fetching each account, in account order. */
  function Outcomes(accounts: seq<string>, network: string -> Feed): (outcomes: seq<Fetched>)
    ensures |outcomes| == |accounts|
  {
    seq(|accounts|, i requires 0 <= i < |accounts| => FetchLatestTweet(accounts[i], network))
  }

  /** Fetching a concatenation of account lists fetches each list in turn. */
  lemma OutcomesAppend(xs: seq<string>, ys: seq<string>, network: string -> Feed)
    ensures Outcomes(xs + ys, network) == Outcomes(xs, network) + Outcomes(ys, network)
  {
    var l, r := Outcomes(xs + ys, network), Outcomes(xs, network) + Outcomes(ys, network);
    forall i | 0 <= i < |l| ensures l[i] == r[i] {
      if i < |xs| {
        assert (xs + ys)[i] == xs[i];
      } else {
        assert (xs + ys)[i] == ys[i - |xs|];
      }
    }
  }

  /**
   * `results` after the loop of `main` has processed `accounts`: the records
   * of the accounts whose fetch found one, in account order.
   */
  function Collected(accounts: seq<string>, network: string -> Feed): seq<Record>
  {
    Kept(Outcomes(accounts, network))
  }

  /** Each account's outcome touches only its own place in the results. */
  lemma CollectedAppend(xs: seq<string>, ys: seq<string>, network: string -> Feed)
    ensures Collected(xs + ys, network) == Collected(xs, network) + Collected(ys, network)
  {
    OutcomesAppend(xs, ys, network);
    KeptAppend(Outcomes(xs, network), Outcomes(ys, network));
  }

  /** One more account adds its record when its fetch finds one, and nothing otherwise. */
  lemma CollectedSnoc(xs: seq<string>, x: string, network: string -> Feed)
    ensures var f := FetchLatestTweet(x, network);
      Collected(xs + [x], network) == Collected(xs, network) + (if f.Found? then [f.record] else [])
  {
    var o, f := Outcomes(xs, network), FetchLatestTweet(x, network);
    OutcomesAppend(xs, [x], network);
    assert Outcomes([x], network) == [f];
    assert (o + [f])[..|o|] == o;
  }

  /** An account whose fetch returns `None` or raises is skipped, and the batch goes on. */
  lemma CollectedSkipsFailure(xs: seq<string>, x: string, ys: seq<string>, network: string -> Feed)
    requires !FetchLatestTweet(x, network).Found?
    ensures Collected(xs + [x] + ys, network) == Collected(xs + ys, network)
  {
    CollectedAppend(xs + [x], ys, network);
    CollectedSnoc(xs, x, network);
    CollectedAppend(xs, ys, network);
  }

  /** Every result is a record built from one of the accounts. */
  lemma CollectedRecordsComeFromAccounts(accounts: seq<string>, network: string -> Feed)
    ensures forall r <- Collected(accounts, network) ::
              && r.id == ExtractTweetId(r.link) && '/' !in r.id
              && |r.author| >= 1 && r.author[0] == '@' && r.author[1..] in accounts
  {
    var outcomes := Outcomes(accounts, network);
    KeptFromOutcomes(outcomes);
    forall r | r in Collected(accounts, network)
      ensures && r.id == ExtractTweetId(r.link) && '/' !in r.id
              && |r.author| >= 1 && r.author[0] == '@' && r.author[1..] in accounts
    {
      var i :| 0 <= i < |outcomes| && outcomes[i] == Found(r);
      assert FetchLatestTweet(accounts[i], network) == Found(r);
      assert r.author[1..] == accounts[i];
    }
  }

  /**
   * Nothing is dropped exactly when every account's fetch finds a record,
   * that is, when every account's feed has a first entry with a link.
   */
  lemma CollectedKeepsAllIff(accounts: seq<string>, network: string -> Feed)
    ensures |Collected(accounts, network)| == |accounts|
        <==> forall i :: 0 <= i < |accounts| ==> FetchLatestTweet(accounts[i], network).Found?
    ensures |Collected(accounts, network)| == |accounts|
        <==> forall i :: 0 <= i < |accounts| ==> HasFirstLink(network(FeedUrl(accounts[i])))
  {
    var outcomes := Outcomes(accounts, network);
    KeptAllIff(outcomes);
    assert forall i :: 0 <= i < |accounts| ==> outcomes[i] == FetchLatestTweet(accounts[i], network);
  }

  /**
   * The loop of `main`: fetch each account in turn, keeping what was found
   * and carrying on past `None` and exceptions.
   */
  method CollectResults(accounts: seq<string>, network: string -> Feed) returns (results: seq<Record>)
    ensures results == Collected(accounts, network)
  {
    results := [];
    for i := 0 to |accounts|
      invariant results == Collected(accounts[..i], network)
    {
      assert accounts[..i + 1] == accounts[..i] + [accounts[i]];
      CollectedSnoc(accounts[..i], accounts[i], network);
      var tweet := FetchLatestTweet(accounts[i], network);
      match tweet {
        case Found(record) => results := results + [record];
        case NoTweet => // "No tweet found"
        case Raised => // "Failed to fetch"
      }
    }
    assert accounts[..|accounts|] == accounts;
  }

  /**
   * The body of `main` between reading `accounts.txt` and writing the JSON
   * file: the account list from the file's lines, then the loop over it.
   */
  method FetchAll(lines: seq<string>, network: string -> Feed) returns (results: seq<Record>)
    ensures results == Collected(Accounts(lines), network)
  {
    var accounts := Accounts(lines);
    results := CollectResults(accounts, network);
  }
}
