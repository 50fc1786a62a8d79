/**
 * The string operations the two scripts rely on, with the semantics of the
 * languages they are written in: JavaScript's `String.prototype.includes`
 * and `replace(/c/g, '')`, Python's `str.strip(chars)` and `str.split(sep)`
 * for a one-character separator, and taking the last piece of a split.
 */
module Text {

  lemma ConcatAssoc<T>(a: seq<T>, b: seq<T>, c: seq<T>)
    ensures a + (b + c) == (a + b) + c
  {
  }

  /** `sub` occurs in `s` starting at index `i`. */
  ghost predicate OccursAt(s: string, sub: string, i: nat)
  {
    i + |sub| <= |s| && s[i..i + |sub|] == sub
  }

  /** `s.includes(sub)` in JavaScript, `sub in s` in Python. */
  function Includes(s: string, sub: string): bool
    decreases |s|
  {
    if |sub| > |s| then false
    else if s[..|sub|] == sub then true
    else Includes(s[1..], sub)
  }

  /** `Includes` holds exactly when `sub` occurs somewhere in `s`. */
  lemma {:induction false} IncludesIff(s: string, sub: string)
    ensures Includes(s, sub) <==> exists i: nat :: OccursAt(s, sub, i)
    decreases |s|
  {
    if |sub| > |s| {
    } else if s[..|sub|] == sub {
      assert OccursAt(s, sub, 0);
    } else {
      IncludesIff(s[1..], sub);
      IncludesStep(s, sub);
    }
  }

  /** An occurrence in `s` other than at 0 is an occurrence in `s[1..]`, shifted by one. */
  lemma IncludesStep(s: string, sub: string)
    requires |sub| <= |s| && s[..|sub|] != sub
    ensures (exists i: nat :: OccursAt(s, sub, i)) <==> (exists i: nat :: OccursAt(s[1..], sub, i))
  {
    if i: nat :| OccursAt(s, sub, i) {
      assert i != 0;
      assert s[1..][i - 1..i - 1 + |sub|] == s[i..i + |sub|];
      assert OccursAt(s[1..], sub, i - 1);
    }
    if i: nat :| OccursAt(s[1..], sub, i) {
      assert s[1..][i..i + |sub|] == s[i + 1..i + 1 + |sub|];
      assert OccursAt(s, sub, i + 1);
    }
  }

  /** How many characters at the start of `s` are in `cs`. */
  function LeadingCount(s: string, cs: set<char>): (n: nat)
    ensures n <= |s|
    decreases |s|
  {
    if s != [] && s[0] in cs then 1 + LeadingCount(s[1..], cs) else 0
  }

  /** The leading run is all in `cs`, and the character after it is not. */
  lemma {:induction false} LeadingCountSpec(s: string, cs: set<char>)
    ensures var n := LeadingCount(s, cs);
      && (forall k :: 0 <= k < n ==> s[k] in cs)
      && (n == |s| || s[n] !in cs)
    decreases |s|
  {
    if s != [] && s[0] in cs {
      LeadingCountSpec(s[1..], cs);
      var n := LeadingCount(s, cs);
      forall k | 0 <= k < n ensures s[k] in cs {
        if k > 0 {
          assert s[k] == s[1..][k - 1];
        }
      }
    }
  }

  /** How many characters at the end of `s` are in `cs`. */
  function TrailingCount(s: string, cs: set<char>): (n: nat)
    ensures n <= |s|
    decreases |s|
  {
    if s != [] && s[|s| - 1] in cs then 1 + TrailingCount(s[..|s| - 1], cs) else 0
  }

  /** The trailing run is all in `cs`, and the character before it is not. */
  lemma {:induction false} TrailingCountSpec(s: string, cs: set<char>)
    ensures var n := TrailingCount(s, cs);
      && (forall k :: |s| - n <= k < |s| ==> s[k] in cs)
      && (n == |s| || s[|s| - n - 1] !in cs)
    decreases |s|
  {
    if s != [] && s[|s| - 1] in cs {
      var init := s[..|s| - 1];
      TrailingCountSpec(init, cs);
      var n := TrailingCount(s, cs);
      forall k | |s| - n <= k < |s| ensures s[k] in cs {
        if k < |s| - 1 {
          assert s[k] == init[k];
        }
      }
      if n < |s| {
        assert s[|s| - n - 1] == init[|init| - (n - 1) - 1];
      }
    }
  }

  /** Python's `s.lstrip(chars)`: drop the leading characters in `cs`. */
  function TrimStart(s: string, cs: set<char>): string
  {
    s[LeadingCount(s, cs)..]
  }

  /** Python's `s.rstrip(chars)`: drop the trailing characters in `cs`. */
  function TrimEnd(s: string, cs: set<char>): string
  {
    s[..|s| - TrailingCount(s, cs)]
  }

  /** Python's `s.strip(chars)`: drop the characters in `cs` at both ends. */
  function Strip(s: string, cs: set<char>): string
  {
    TrimEnd(TrimStart(s, cs), cs)
  }

  /** Where the text kept by `strip` starts in `s`. */
  function StripStart(s: string, cs: set<char>): nat
  {
    LeadingCount(s, cs)
  }

  /** What `strip` keeps is a slice of `s` that starts and ends outside `cs`, and everything cut off is in `cs`. */
  lemma StripIsTrimmedSlice(s: string, cs: set<char>)
    ensures var r, i := Strip(s, cs), StripStart(s, cs);
      && i + |r| <= |s| && s[i..i + |r|] == r
      && (r == [] || (r[0] !in cs && r[|r| - 1] !in cs))
      && (forall k :: 0 <= k < i ==> s[k] in cs)
      && (forall k :: i + |r| <= k < |s| ==> s[k] in cs)
  {
    var i := LeadingCount(s, cs);
    var t := s[i..];
    var m := TrailingCount(t, cs);
    var r := t[..|t| - m];
    LeadingCountSpec(s, cs);
    TrailingCountSpec(t, cs);
    assert s[i..i + |r|] == r;
    assert r == [] || (r[0] !in cs && r[|r| - 1] !in cs) by {
      if r != [] {
        assert r[0] == s[i];
        assert r[|r| - 1] == t[|t| - m - 1];
      }
    }
    forall k | i + |r| <= k < |s| ensures s[k] in cs {
      assert s[k] == t[k - i];
    }
  }

  /** `strip` leaves nothing exactly when every character is to be stripped. */
  lemma StripEmptyIff(s: string, cs: set<char>)
    ensures Strip(s, cs) == [] <==> forall k :: 0 <= k < |s| ==> s[k] in cs
  {
    StripIsTrimmedSlice(s, cs);
    if forall k :: 0 <= k < |s| ==> s[k] in cs {
      AllStrippedIsEmpty(s, cs);
    }
  }

  lemma {:induction false} AllStrippedIsEmpty(s: string, cs: set<char>)
    requires forall k :: 0 <= k < |s| ==> s[k] in cs
    ensures LeadingCount(s, cs) == |s|
    decreases |s|
  {
    if s != [] {
      AllStrippedIsEmpty(s[1..], cs);
    }
  }

  /** A string that has no character of `cs` at either end is left as it is by `strip`. */
  lemma StripKeepsTrimmed(s: string, cs: set<char>)
    requires s != [] && s[0] !in cs && s[|s| - 1] !in cs
    ensures Strip(s, cs) == s
  {
    assert LeadingCount(s, cs) == 0;
    assert s[0..] == s;
    assert TrailingCount(s, cs) == 0;
  }

  /** Stripping twice strips no more than stripping once. */
  lemma StripIdempotent(s: string, cs: set<char>)
    ensures Strip(Strip(s, cs), cs) == Strip(s, cs)
  {
    var r := Strip(s, cs);
    StripIsTrimmedSlice(s, cs);
    if r != [] {
      StripKeepsTrimmed(r, cs);
    }
  }

  /** Once the leading run has ended inside `s`, what follows `s` does not change it. */
  lemma {:induction false} LeadingCountAppend(s: string, t: string, cs: set<char>)
    requires LeadingCount(s, cs) < |s|
    ensures LeadingCount(s + t, cs) == LeadingCount(s, cs)
    decreases |s|
  {
    assert (s + t)[0] == s[0];
    if s[0] in cs {
      assert (s + t)[1..] == s[1..] + t;
      LeadingCountAppend(s[1..], t, cs);
    }
  }

  /** A character of `cs` appended at the end makes no difference to `strip`. */
  lemma StripIgnoresTrailing(s: string, c: char, cs: set<char>)
    requires c in cs
    ensures Strip(s + [c], cs) == Strip(s, cs)
  {
    var i := LeadingCount(s, cs);
    if i == |s| {
      LeadingCountSpec(s, cs);
      assert forall k :: 0 <= k < |s + [c]| ==> (s + [c])[k] in cs;
      AllStrippedIsEmpty(s + [c], cs);
      assert TrimStart(s + [c], cs) == [];
    } else {
      var t := s[i..];
      assert TrimStart(s + [c], cs) == t + [c] by {
        LeadingCountAppend(s, [c], cs);
        assert (s + [c])[i..] == t + [c];
      }
      assert (t + [c])[..|t|] == t;
      assert TrailingCount(t + [c], cs) == 1 + TrailingCount(t, cs);
    }
  }

  /** A character of `cs` put in front makes no difference to `strip`. */
  lemma StripIgnoresLeading(s: string, c: char, cs: set<char>)
    requires c in cs
    ensures Strip([c] + s, cs) == Strip(s, cs)
  {
    assert ([c] + s)[1..] == s;
    assert LeadingCount([c] + s, cs) == 1 + LeadingCount(s, cs);
    assert TrimStart([c] + s, cs) == TrimStart(s, cs);
  }

  /**
   * Python's `s.split(sep)` for a one-character separator: the pieces between
   * the separators, empty pieces included, and always at least one piece.
   */
  function Split(s: string, sep: char): (parts: seq<string>)
    ensures |parts| >= 1
    ensures forall p <- parts :: sep !in p
    decreases |s|
  {
    if s == [] then [[]]
    else
      var rest := Split(s[1..], sep);
      if s[0] == sep then [[]] + rest
      else [[s[0]] + rest[0]] + rest[1..]
  }

  /** Python's `sep.join(parts)`. */
  function Join(parts: seq<string>, sep: char): string
    decreases |parts|
  {
    if parts == [] then []
    else if |parts| == 1 then parts[0]
    else parts[0] + [sep] + Join(parts[1..], sep)
  }

  /** Splitting loses nothing: joining the pieces gives back the string. */
  lemma {:induction false} JoinSplit(s: string, sep: char)
    ensures Join(Split(s, sep), sep) == s
    decreases |s|
  {
    if s != [] {
      var rest := Split(s[1..], sep);
      JoinSplit(s[1..], sep);
      if s[0] == sep {
        assert ([[]] + rest)[1..] == rest;
      } else if |rest| == 1 {
      } else {
        var parts := [[s[0]] + rest[0]] + rest[1..];
        assert parts[1..] == rest[1..];
        assert Join(rest, sep) == rest[0] + [sep] + Join(rest[1..], sep);
      }
    }
  }

  /** A separator-free prefix glues onto the first piece of what follows. */
  lemma {:induction false} SplitPrefix(p: string, t: string, sep: char)
    requires sep !in p
    ensures Split(p + t, sep) == [p + Split(t, sep)[0]] + Split(t, sep)[1..]
    decreases |p|
  {
    var x := Split(t, sep);
    if p == [] {
      assert p + t == t && p + x[0] == x[0];
      assert [x[0]] + x[1..] == x;
    } else {
      assert (p + t)[0] == p[0] && p[0] != sep;
      assert (p + t)[1..] == p[1..] + t;
      SplitPrefix(p[1..], t, sep);
      var rest := Split(p[1..] + t, sep);
      assert rest[0] == p[1..] + x[0] && rest[1..] == x[1..];
      assert [p[0]] + (p[1..] + x[0]) == p + x[0];
    }
  }

  /** The first piece is everything before the first separator. */
  lemma SplitFirst(p: string, t: string, sep: char)
    requires sep !in p
    ensures Split(p + [sep] + t, sep)[0] == p
  {
    assert p + [sep] + t == p + ([sep] + t);
    SplitPrefix(p, [sep] + t, sep);
    assert ([sep] + t)[0] == sep && ([sep] + t)[1..] == t;
    assert Split([sep] + t, sep)[0] == [];
    assert p + [] == p;
  }

  /** Joining separator-free pieces and splitting again gives back the pieces. */
  lemma {:induction false} SplitJoin(parts: seq<string>, sep: char)
    requires |parts| >= 1
    requires forall p <- parts :: sep !in p
    ensures Split(Join(parts, sep), sep) == parts
    decreases |parts|
  {
    if |parts| == 1 {
      SplitPrefix(parts[0], [], sep);
      assert parts[0] + [] == parts[0];
      assert Split([], sep) == [[]];
    } else {
      var rest := Join(parts[1..], sep);
      SplitJoin(parts[1..], sep);
      var tail := [sep] + rest;
      assert tail[1..] == rest && tail[0] == sep;
      assert Split(tail, sep) == [[]] + parts[1..];
      assert parts[0] + [sep] + rest == parts[0] + tail;
      SplitPrefix(parts[0], tail, sep);
      assert parts[0] + [] == parts[0];
      assert [parts[0]] + parts[1..] == parts;
    }
  }

  /** `s.split(sep)[-1]`: the last piece. */
  function LastSegment(s: string, sep: char): (r: string)
    ensures sep !in r
    ensures |r| <= |s| && s[|s| - |r|..] == r
    ensures |r| == |s| || s[|s| - |r| - 1] == sep
  {
    LastSegmentIsMaximalSuffix(s, sep);
    var parts := Split(s, sep);
    parts[|parts| - 1]
  }

  lemma {:induction false} LastSegmentIsMaximalSuffix(s: string, sep: char)
    ensures var parts := Split(s, sep); var r := parts[|parts| - 1];
      && |r| <= |s| && s[|s| - |r|..] == r
      && (|r| == |s| || s[|s| - |r| - 1] == sep)
      && (|parts| > 1 ==> |r| < |s|)
    decreases |s|
  {
    if s != [] {
      var rest := Split(s[1..], sep);
      var last := rest[|rest| - 1];
      LastSegmentIsMaximalSuffix(s[1..], sep);
      assert s[1..][|s| - 1 - |last|..] == s[|s| - |last|..];
      if s[0] != sep && |rest| == 1 {
        JoinSplit(s[1..], sep);
        assert rest[0] == s[1..] && rest[1..] == [];
        assert Split(s, sep) == [[s[0]] + s[1..]];
        assert [s[0]] + s[1..] == s;
      } else {
        var parts := Split(s, sep);
        assert parts[|parts| - 1] == last;
      }
    }
  }

  /** The last piece of a string whose final separator precedes `t` is `t`. */
  lemma LastSegmentAfterSeparator(p: string, t: string, sep: char)
    requires sep !in t
    ensures LastSegment(p + [sep] + t, sep) == t
  {
    var s := p + [sep] + t;
    assert s[|s| - |t| - 1] == sep;
    assert s[|s| - |t|..] == t;
  }

  /** JavaScript's `s.replace(/c/g, '')`: every occurrence of `c` removed. */
  function RemoveAll(s: string, c: char): (r: string)
    ensures c !in r
    ensures |r| <= |s|
    ensures forall x <- r :: x in s
    decreases |s|
  {
    if s == [] then []
    else if s[0] == c then RemoveAll(s[1..], c)
    else [s[0]] + RemoveAll(s[1..], c)
  }

  /** Removing characters distributes over concatenation. */
  lemma {:induction false} RemoveAllAppend(s: string, t: string, c: char)
    ensures RemoveAll(s + t, c) == RemoveAll(s, c) + RemoveAll(t, c)
    decreases |s|
  {
    if s == [] {
      assert s + t == t;
    } else {
      assert (s + t)[0] == s[0] && (s + t)[1..] == s[1..] + t;
      RemoveAllAppend(s[1..], t, c);
      if s[0] != c {
        assert RemoveAll(s + t, c) == [s[0]] + RemoveAll(s[1..] + t, c);
        assert RemoveAll(s, c) == [s[0]] + RemoveAll(s[1..], c);
      }
    }
  }

  /** A string without `c` is left as it is. */
  lemma {:induction false} RemoveAllAbsent(s: string, c: char)
    requires c !in s
    ensures RemoveAll(s, c) == s
    decreases |s|
  {
    if s != [] {
      RemoveAllAbsent(s[1..], c);
    }
  }
}
