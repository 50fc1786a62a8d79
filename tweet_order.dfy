/**
 * The video-first ordering of the screenshot batch: the descriptor read from
 * the day's input file, the `mightContainVideo` heuristic, the comparator
 * handed to `Array.prototype.sort`, and the order the sort produces.
 *
 * `Array.prototype.sort` is stable (ECMAScript 2019 and later), and this
 * comparator only separates "video-likely" from "other". So the sorted
 * batch is unique: the video-likely descriptors in input order, followed by
 * the others in input order. `VideoFirst` is that order.
 * `SortedStableIsVideoFirst` proves that no other order is sorted and
 * stable.
 */
module TweetOrder {
  import opened Text

  /**
   * One entry of the input JSON array. `id` is the text the template
   * literal `tweet_${id}` prints; a missing `link` is the empty string and
   * a missing or falsy `has_video` is `false`.
   */
  datatype Tweet = Tweet(id: string, link: string, hasVideo: bool)

  /** `mightContainVideo`: an explicit flag, or a link mentioning "video". */
  predicate MightContainVideo(t: Tweet)
  {
    if t.hasVideo then true
    else if t.link != [] && Includes(t.link, "video") then true
    else false
  }

  /** The heuristic in the terms the script's comments give: the flag or the substring. */
  lemma MightContainVideoIff(t: Tweet)
    ensures MightContainVideo(t) <==> t.hasVideo || exists i: nat :: OccursAt(t.link, "video", i)
  {
    IncludesIff(t.link, "video");
  }

  /** The comparator passed to `sort`: video-likely first, otherwise equal. */
  function CompareVideoFirst(a: Tweet, b: Tweet): (r: int)
    ensures -1 <= r <= 1
    ensures r < 0 <==> MightContainVideo(a) && !MightContainVideo(b)
    ensures r > 0 <==> !MightContainVideo(a) && MightContainVideo(b)
  {
    if MightContainVideo(a) && !MightContainVideo(b) then -1
    else if !MightContainVideo(a) && MightContainVideo(b) then 1
    else 0
  }

  /**
   * The comparator is consistent, as ECMAScript requires of a sort
   * comparator: it is antisymmetric, "equal" is an equivalence, and
   * "before" is transitive and compatible with "equal".
   */
  lemma CompareIsConsistent(a: Tweet, b: Tweet, c: Tweet)
    ensures CompareVideoFirst(a, b) == -CompareVideoFirst(b, a)
    ensures CompareVideoFirst(a, a) == 0
    ensures CompareVideoFirst(a, b) == 0 && CompareVideoFirst(b, c) == 0 ==> CompareVideoFirst(a, c) == 0
    ensures CompareVideoFirst(a, b) < 0 && CompareVideoFirst(b, c) <= 0 ==> CompareVideoFirst(a, c) < 0
    ensures CompareVideoFirst(a, b) <= 0 && CompareVideoFirst(b, c) < 0 ==> CompareVideoFirst(a, c) < 0
    ensures CompareVideoFirst(a, b) == 0 <==> (MightContainVideo(a) <==> MightContainVideo(b))
  {
  }

  /** The descriptors of `s` whose `MightContainVideo` is `video`, in the order of `s`. */
  function Group(s: seq<Tweet>, video: bool): (r: seq<Tweet>)
    ensures |r| <= |s|
    decreases |s|
  {
    if s == [] then []
    else (if MightContainVideo(s[0]) == video then [s[0]] else []) + Group(s[1..], video)
  }

  /** Every member of a group is of that group's kind, and comes from `s`. */
  lemma {:induction false} GroupMembers(s: seq<Tweet>, video: bool)
    ensures forall t <- Group(s, video) :: MightContainVideo(t) == video && t in s
    decreases |s|
  {
    if s != [] {
      GroupMembers(s[1..], video);
      assert forall t <- s[1..] :: t in s;
    }
  }

  /** The order the sort leaves the batch in: video-likely first, each group in input order. */
  function VideoFirst(s: seq<Tweet>): seq<Tweet>
  {
    Group(s, true) + Group(s, false)
  }

  /** `a` precedes `b` in `s` only if the comparator does not put `b` first. */
  ghost predicate SortedByComparator(s: seq<Tweet>)
  {
    forall i, j :: 0 <= i < j < |s| ==> CompareVideoFirst(s[i], s[j]) <= 0
  }

  /**
   * Stability with this comparator: the descriptors that compare equal (the
   * two groups) keep their relative order.
   */
  ghost predicate StableWith(r: seq<Tweet>, s: seq<Tweet>)
  {
    Group(r, true) == Group(s, true) && Group(r, false) == Group(s, false)
  }

  lemma {:induction false} GroupAppend(s: seq<Tweet>, t: seq<Tweet>, video: bool)
    ensures Group(s + t, video) == Group(s, video) + Group(t, video)
    decreases |s|
  {
    if s == [] {
      assert s + t == t;
    } else {
      assert (s + t)[0] == s[0] && (s + t)[1..] == s[1..] + t;
      GroupAppend(s[1..], t, video);
    }
  }

  /** One more descriptor joins the end of its own group only. */
  lemma GroupSnoc(s: seq<Tweet>, t: Tweet, video: bool)
    ensures Group(s + [t], video) == Group(s, video) + (if MightContainVideo(t) == video then [t] else [])
  {
    GroupAppend(s, [t], video);
    assert [t][1..] == [];
  }

  /** A sequence all of one kind is its own group and has an empty other group. */
  lemma {:induction false} GroupOfUniform(s: seq<Tweet>, video: bool)
    requires forall t <- s :: MightContainVideo(t) == video
    ensures Group(s, video) == s
    ensures Group(s, !video) == []
    decreases |s|
  {
    if s != [] {
      assert s[0] in s;
      GroupOfUniform(s[1..], video);
      assert [s[0]] + s[1..] == s;
    }
  }

  /** The two groups together have the elements of `s`, each as often. */
  lemma {:induction false} GroupsPartition(s: seq<Tweet>)
    ensures multiset(Group(s, true)) + multiset(Group(s, false)) == multiset(s)
    decreases |s|
  {
    if s != [] {
      GroupsPartition(s[1..]);
      assert s == [s[0]] + s[1..];
    }
  }

  /** The sorted batch is a permutation of the input; in particular it is as long. */
  lemma VideoFirstIsPermutation(s: seq<Tweet>)
    ensures multiset(VideoFirst(s)) == multiset(s)
    ensures |VideoFirst(s)| == |s|
  {
    GroupsPartition(s);
    assert |multiset(VideoFirst(s))| == |multiset(s)|;
  }

  /** Every video-likely descriptor comes before every other one. */
  lemma VideoFirstIsSorted(s: seq<Tweet>)
    ensures SortedByComparator(VideoFirst(s))
    ensures forall i, j ::
              0 <= i < j < |VideoFirst(s)| && MightContainVideo(VideoFirst(s)[j]) ==> MightContainVideo(VideoFirst(s)[i])
  {
    var v, o := Group(s, true), Group(s, false);
    var r := v + o;
    GroupMembers(s, true);
    GroupMembers(s, false);
    forall i, j | 0 <= i < j < |r| ensures CompareVideoFirst(r[i], r[j]) <= 0 {
      if i >= |v| {
        assert r[i] == o[i - |v|] && r[j] == o[j - |v|];
        assert r[i] in o && r[j] in o;
      } else if j < |v| {
        assert r[i] == v[i] && r[j] == v[j];
        assert r[i] in v && r[j] in v;
      } else {
        assert r[i] == v[i] && r[j] == o[j - |v|];
        assert r[i] in v && r[j] in o;
      }
    }
  }

  /** The sort keeps the relative order within the video-likely group and within the rest. */
  lemma VideoFirstIsStable(s: seq<Tweet>)
    ensures StableWith(VideoFirst(s), s)
  {
    var v, o := Group(s, true), Group(s, false);
    GroupMembers(s, true);
    GroupMembers(s, false);
    GroupAppend(v, o, true);
    GroupAppend(v, o, false);
    GroupOfUniform(v, true);
    GroupOfUniform(o, false);
    assert v + [] == v && [] + o == o;
  }

  /** Dropping the first descriptor keeps a sequence sorted. */
  lemma SortedTail(r: seq<Tweet>)
    requires r != [] && SortedByComparator(r)
    ensures SortedByComparator(r[1..])
  {
    var tail := r[1..];
    forall i, j | 0 <= i < j < |tail| ensures CompareVideoFirst(tail[i], tail[j]) <= 0 {
      assert tail[i] == r[i + 1] && tail[j] == r[j + 1];
    }
  }

  /** In a sorted sequence that starts with an other descriptor, every descriptor is an other one. */
  lemma SortedFromOther(r: seq<Tweet>)
    requires r != [] && SortedByComparator(r) && !MightContainVideo(r[0])
    ensures forall t <- r :: !MightContainVideo(t)
  {
    forall t | t in r ensures !MightContainVideo(t) {
      var k :| 0 <= k < |r| && r[k] == t;
      if k > 0 {
        assert CompareVideoFirst(r[0], r[k]) <= 0;
      }
    }
  }

  /** A video-likely descriptor in front of a grouped sequence leaves it grouped. */
  lemma GroupedCons(r: seq<Tweet>)
    requires r != [] && MightContainVideo(r[0])
    requires r[1..] == Group(r[1..], true) + Group(r[1..], false)
    ensures r == Group(r, true) + Group(r, false)
  {
    var tail := r[1..];
    var v, o := Group(tail, true), Group(tail, false);
    assert Group(r, true) == [r[0]] + v;
    assert Group(r, false) == o;
    assert r == [r[0]] + tail;
    ConcatAssoc([r[0]], v, o);
  }

  /** A sorted sequence is its video-likely group followed by its other group. */
  lemma {:induction false} SortedIsGroups(r: seq<Tweet>)
    requires SortedByComparator(r)
    ensures r == Group(r, true) + Group(r, false)
    decreases |r|
  {
    if r == [] {
      assert Group(r, true) == [] && Group(r, false) == [];
    } else if MightContainVideo(r[0]) {
      SortedTail(r);
      SortedIsGroups(r[1..]);
      GroupedCons(r);
    } else {
      SortedFromOther(r);
      GroupOfUniform(r, false);
      assert [] + r == r;
    }
  }

  /**
   * Uniqueness: any order that is sorted by the comparator and stable with
   * respect to the input is `VideoFirst` of the input. So any stable sort,
   * whatever its algorithm, yields exactly `VideoFirst`.
   */
  lemma SortedStableIsVideoFirst(r: seq<Tweet>, s: seq<Tweet>)
    requires SortedByComparator(r) && StableWith(r, s)
    ensures r == VideoFirst(s)
  {
    SortedIsGroups(r);
  }

  /**
   * `[...tweets].sort(comparator)` on the copied array: afterwards the array
   * holds `VideoFirst` of what it held before.
   */
  method SortVideoFirst(a: array<Tweet>)
    modifies a
    ensures a[..] == VideoFirst(old(a[..]))
  {
    ghost var s := a[..];
    var videos: seq<Tweet> := [];
    var others: seq<Tweet> := [];
    for i := 0 to a.Length
      invariant a[..] == s
      invariant videos == Group(s[..i], true) && others == Group(s[..i], false)
    {
      assert s[..i + 1] == s[..i] + [s[i]];
      GroupSnoc(s[..i], s[i], true);
      GroupSnoc(s[..i], s[i], false);
      if MightContainVideo(a[i]) {
        videos := videos + [a[i]];
      } else {
        others := others + [a[i]];
      }
    }
    assert s[..a.Length] == s;
    var sorted := videos + others;
    VideoFirstIsPermutation(s);
    for i := 0 to a.Length
      invariant a[..i] == sorted[..i]
    {
      a[i] := sorted[i];
    }
  }
}
