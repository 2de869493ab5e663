/**
 * The parts of Go's `strings` package that the formatting helpers rely on:
 * counting a character, `strings.Split` and `strings.Join` with a
 * one-character separator, and `strings.Replace(s, pat, "", -1)`.
 * Sequences are built from the right, the way the helpers' loops build them.
 */
module GoStrings {

  /** Number of occurrences of `c` in `s`. */
  function CountChar(s: string, c: char): (n: nat)
    ensures n <= |s|
    decreases |s|
  {
    if s == [] then 0
    else CountChar(s[..|s| - 1], c) + (if s[|s| - 1] == c then 1 else 0)
  }

  /** A character is absent exactly when it is counted zero times. */
  lemma {:induction false} CountCharZero(s: string, c: char)
    ensures CountChar(s, c) == 0 <==> c !in s
    decreases |s|
  {
    if s != [] {
      assert s == s[..|s| - 1] + [s[|s| - 1]];
      CountCharZero(s[..|s| - 1], c);
    }
  }

  lemma {:induction false} CountCharAppend(a: string, b: string, c: char)
    ensures CountChar(a + b, c) == CountChar(a, c) + CountChar(b, c)
    decreases |b|
  {
    if b != [] {
      var b' := b[..|b| - 1];
      assert (a + b)[..|a + b| - 1] == a + b';
      CountCharAppend(a, b', c);
    } else {
      assert a + b == a;
    }
  }

  lemma CountCharZeroAll(s: string)
    ensures forall c :: c !in s ==> CountChar(s, c) == 0
  {
    forall c | c !in s ensures CountChar(s, c) == 0 {
      CountCharZero(s, c);
    }
  }

  lemma CountCharAppendAll(a: string, b: string)
    ensures forall c :: CountChar(a + b, c) == CountChar(a, c) + CountChar(b, c)
  {
    forall c ensures CountChar(a + b, c) == CountChar(a, c) + CountChar(b, c) {
      CountCharAppend(a, b, c);
    }
  }

  /**
   * `strings.Split(s, string(sep))`: the pieces of `s` between separators,
   * in order. There is always one more piece than there are separators, so
   * the empty string gives one empty piece.
   */
  function Split(s: string, sep: char): (parts: seq<string>)
    ensures |parts| >= 1
    decreases |s|
  {
    if s == [] then [""]
    else
      var init := Split(s[..|s| - 1], sep);
      var c := s[|s| - 1];
      if c == sep then init + [""] else ExtendLast(init, c)
  }

  /** The pieces with `c` added to the last one. */
  function ExtendLast(parts: seq<string>, c: char): (r: seq<string>)
    requires |parts| >= 1
    ensures |r| == |parts| && r[..|r| - 1] == parts[..|parts| - 1]
    ensures r[|r| - 1] == parts[|parts| - 1] + [c]
  {
    parts[..|parts| - 1] + [parts[|parts| - 1] + [c]]
  }

  lemma ExtendLastAppend(a: seq<string>, b: seq<string>, c: char)
    requires |b| >= 1
    ensures ExtendLast(a + b, c) == a + ExtendLast(b, c)
  {
    assert (a + b)[..|a + b| - 1] == a + b[..|b| - 1];
  }

  /** `strings.Join(parts, string(sep))`. */
  function Join(parts: seq<string>, sep: char): string
    decreases |parts|
  {
    if parts == [] then ""
    else if |parts| == 1 then parts[0]
    else Join(parts[..|parts| - 1], sep) + [sep] + parts[|parts| - 1]
  }

  /** Joining the pieces back with the separator gives the original text. */
  lemma {:induction false} JoinSplit(s: string, sep: char)
    ensures Join(Split(s, sep), sep) == s
    decreases |s|
  {
    if s != [] {
      var s' := s[..|s| - 1];
      var c := s[|s| - 1];
      JoinSplit(s', sep);
      assert s == s' + [c];
      SplitSnoc(s', c, sep);
      if c == sep {
        JoinEmptyLast(Split(s', sep), sep);
      } else {
        JoinExtendLast(Split(s', sep), c, sep);
      }
    }
  }

  /** A new empty last piece adds one separator to the joined text. */
  lemma JoinEmptyLast(parts: seq<string>, sep: char)
    requires |parts| >= 1
    ensures Join(parts + [""], sep) == Join(parts, sep) + [sep]
  {
    assert (parts + [""])[..|parts|] == parts;
  }

  /** A character added to the last piece is added to the end of the joined text. */
  lemma JoinExtendLast(parts: seq<string>, c: char, sep: char)
    requires |parts| >= 1
    ensures Join(ExtendLast(parts, c), sep) == Join(parts, sep) + [c]
  {
    var r := ExtendLast(parts, c);
    if |parts| == 1 {
      assert r == [parts[0] + [c]];
    } else {
      assert r[..|r| - 1] == parts[..|parts| - 1];
    }
  }

  /** No piece holds the separator. */
  lemma {:induction false} SplitSepFree(s: string, sep: char)
    ensures forall i :: 0 <= i < |Split(s, sep)| ==> sep !in Split(s, sep)[i]
    decreases |s|
  {
    if s != [] {
      var s' := s[..|s| - 1];
      var c := s[|s| - 1];
      SplitSepFree(s', sep);
      assert s == s' + [c];
      SplitSnoc(s', c, sep);
    }
  }

  /** A text without the separator is a single piece. */
  lemma SplitNoSep(s: string, sep: char)
    requires sep !in s
    ensures Split(s, sep) == [s]
  {
    JoinSplit(s, sep);
    SplitCount(s, sep);
    CountCharZero(s, sep);
  }

  /** One more character: a separator opens a new piece, anything else extends the last one. */
  lemma SplitSnoc(t: string, c: char, sep: char)
    ensures Split(t + [c], sep) ==
      if c == sep then Split(t, sep) + [""]
      else ExtendLast(Split(t, sep), c)
  {
    var s := t + [c];
    assert s[..|s| - 1] == t;
  }

  /** There is one more piece than there are separators. */
  lemma {:induction false} SplitCount(s: string, sep: char)
    ensures |Split(s, sep)| == CountChar(s, sep) + 1
    decreases |s|
  {
    if s != [] {
      var s' := s[..|s| - 1];
      assert s == s' + [s[|s| - 1]];
      SplitCount(s', sep);
      SplitSnoc(s', s[|s| - 1], sep);
    }
  }

  /** Splitting distributes over a separator. */
  lemma {:induction false} SplitAppendSep(a: string, b: string, sep: char)
    ensures Split(a + [sep] + b, sep) == Split(a, sep) + Split(b, sep)
    decreases |b|
  {
    if b == [] {
      assert a + [sep] + b == a + [sep];
      SplitSnoc(a, sep, sep);
    } else {
      var b' := b[..|b| - 1];
      var c := b[|b| - 1];
      assert a + [sep] + b == (a + [sep] + b') + [c];
      assert b == b' + [c];
      SplitAppendSep(a, b', sep);
      SplitAppendSnoc(a, b', c, sep);
    }
  }

  /** The inductive step of SplitAppendSep. */
  lemma SplitAppendSnoc(a: string, b: string, c: char, sep: char)
    requires Split(a + [sep] + b, sep) == Split(a, sep) + Split(b, sep)
    ensures Split((a + [sep] + b) + [c], sep) == Split(a, sep) + Split(b + [c], sep)
  {
    SplitSnoc(a + [sep] + b, c, sep);
    SplitSnoc(b, c, sep);
    if c != sep {
      ExtendLastAppend(Split(a, sep), Split(b, sep), c);
    } else {
      assert Split(a, sep) + Split(b, sep) + [""] == Split(a, sep) + (Split(b, sep) + [""]);
    }
  }

  /** Split undoes Join when no piece holds the separator. */
  lemma {:induction false} SplitJoin(parts: seq<string>, sep: char)
    requires |parts| >= 1
    requires forall i :: 0 <= i < |parts| ==> sep !in parts[i]
    ensures Split(Join(parts, sep), sep) == parts
    decreases |parts|
  {
    if |parts| == 1 {
      SplitNoSep(parts[0], sep);
    } else {
      var init := parts[..|parts| - 1];
      var last := parts[|parts| - 1];
      SplitJoin(init, sep);
      assert parts == init + [last];
      SplitJoinSnoc(init, last, sep);
    }
  }

  /** The inductive step of SplitJoin. */
  lemma SplitJoinSnoc(init: seq<string>, last: string, sep: char)
    requires |init| >= 1 && sep !in last
    requires Split(Join(init, sep), sep) == init
    ensures Split(Join(init + [last], sep), sep) == init + [last]
  {
    assert (init + [last])[..|init|] == init;
    assert Join(init + [last], sep) == Join(init, sep) + [sep] + last;
    SplitAppendSep(Join(init, sep), last, sep);
    SplitNoSep(last, sep);
  }

  /** The pieces with `x` put in front of the first one. */
  function PrependFirst(x: string, parts: seq<string>): seq<string>
    requires |parts| >= 1
  {
    [x + parts[0]] + parts[1..]
  }

  lemma PrependFirstSnoc(x: string, parts: seq<string>, c: char)
    requires |parts| >= 1
    ensures PrependFirst(x, parts) + [""] == PrependFirst(x, parts + [""])
    ensures ExtendLast(PrependFirst(x, parts), c) == PrependFirst(x, ExtendLast(parts, c))
  {
    assert (parts + [""])[1..] == parts[1..] + [""];
    if |parts| == 1 {
      assert x + (parts[0] + [c]) == (x + parts[0]) + [c];
    } else {
      assert ExtendLast(parts, c)[1..] == parts[1..|parts| - 1] + [parts[|parts| - 1] + [c]];
    }
  }

  /** Text put in front of the input lands in the first piece only. */
  lemma {:induction false} SplitPrepend(x: string, s: string, sep: char)
    requires sep !in x
    ensures Split(x + s, sep) == PrependFirst(x, Split(s, sep))
    decreases |s|
  {
    if s == [] {
      assert x + s == x;
      SplitNoSep(x, sep);
    } else {
      var s' := s[..|s| - 1];
      var c := s[|s| - 1];
      assert x + s == (x + s') + [c];
      assert s == s' + [c];
      SplitPrepend(x, s', sep);
      SplitSnoc(x + s', c, sep);
      SplitSnoc(s', c, sep);
      PrependFirstSnoc(x, Split(s', sep), c);
    }
  }

  /** Sum of the occurrences of `c` over all pieces. */
  function SumCount(parts: seq<string>, c: char): nat
    decreases |parts|
  {
    if parts == [] then 0
    else SumCount(parts[..|parts| - 1], c) + CountChar(parts[|parts| - 1], c)
  }

  lemma {:induction false} SumCountAppend(a: seq<string>, b: seq<string>, c: char)
    ensures SumCount(a + b, c) == SumCount(a, c) + SumCount(b, c)
    decreases |b|
  {
    if b == [] {
      assert a + b == a;
    } else {
      assert (a + b)[..|a + b| - 1] == a + b[..|b| - 1];
      SumCountAppend(a, b[..|b| - 1], c);
    }
  }

  lemma SumCountFirst(parts: seq<string>, c: char)
    requires |parts| >= 1
    ensures SumCount(parts, c) == CountChar(parts[0], c) + SumCount(parts[1..], c)
  {
    assert [parts[0]][..0] == [];
    assert parts == [parts[0]] + parts[1..];
    SumCountAppend([parts[0]], parts[1..], c);
  }

  lemma {:induction false} SumCountAbsent(parts: seq<string>, c: char)
    requires forall i :: 0 <= i < |parts| ==> c !in parts[i]
    ensures SumCount(parts, c) == 0
    decreases |parts|
  {
    if parts != [] {
      SumCountAbsent(parts[..|parts| - 1], c);
      CountCharZero(parts[|parts| - 1], c);
    }
  }

  /** Splitting loses exactly the separators: every other character survives in some piece. */
  lemma {:induction false} SplitSumCount(s: string, sep: char, c: char)
    requires c != sep
    ensures SumCount(Split(s, sep), c) == CountChar(s, c)
    decreases |s|
  {
    if s != [] {
      var s' := s[..|s| - 1];
      var last := s[|s| - 1];
      SplitSumCount(s', sep, c);
      var init := Split(s', sep);
      var ps := Split(s, sep);
      if last == sep {
        assert ps[..|ps| - 1] == init;
      } else {
        var k := |init|;
        assert ps[..|ps| - 1] == init[..k - 1];
        assert init == init[..k - 1] + [init[k - 1]];
        SumCountAppend(init[..k - 1], [init[k - 1]], c);
        assert [init[k - 1]][..0] == [];
        assert (init[k - 1] + [last])[..|init[k - 1]|] == init[k - 1];
      }
    }
  }

  predicate HasPrefix(s: string, p: string) {
    |p| <= |s| && s[..|p|] == p
  }

  /** `strings.Contains(s, p)`. */
  predicate Contains(s: string, p: string)
    ensures Contains(s, p) ==> |p| <= |s|
    decreases |s|
  {
    HasPrefix(s, p) || (s != [] && Contains(s[1..], p))
  }

  /**
   * `strings.Replace(s, pat, "", -1)`: scanning from the left, delete each
   * occurrence of `pat` that does not overlap one already deleted. One pass
   * only: the text around a deleted occurrence is not scanned again.
   * The text shrinks exactly when it holds the pattern, and every character
   * that is not part of the pattern survives.
   */
  function RemoveAll(s: string, pat: string): (r: string)
    requires pat != []
    ensures |r| <= |s|
    ensures |r| < |s| <==> Contains(s, pat)
    ensures !Contains(s, pat) ==> r == s
    ensures forall c :: c !in pat ==> CountChar(r, c) == CountChar(s, c)
    decreases |s|
  {
    if |s| < |pat| then s
    else if s[..|pat|] == pat then
      CountCharAppendAll(pat, s[|pat|..]);
      CountCharZeroAll(pat);
      assert s == pat + s[|pat|..];
      RemoveAll(s[|pat|..], pat)
    else
      CountCharAppendAll([s[0]], s[1..]);
      CountCharAppendAll([s[0]], RemoveAll(s[1..], pat));
      assert s == [s[0]] + s[1..];
      [s[0]] + RemoveAll(s[1..], pat)
  }

  /** `p` occurs in `s` at position `i`. */
  predicate MatchAt(s: string, p: string, i: nat) {
    i + |p| <= |s| && s[i..i + |p|] == p
  }

  /**
   * The search `strings.Index` does on the text from position `from` on:
   * the first position at or after `from` where `p` occurs, or -1.
   */
  function IndexFrom(s: string, p: string, from: nat): (i: int)
    ensures i == -1 || (from <= i && MatchAt(s, p, i))
    decreases |s| - from
  {
    if from + |p| > |s| then -1
    else if MatchAt(s, p, from) then from
    else IndexFrom(s, p, from + 1)
  }

  /**
   * `strings.Count(s[from..], p)` for a non-empty `p`: the occurrences a
   * left-to-right search finds, each search resuming just after the
   * previous occurrence, so that no two overlap.
   */
  function CountFrom(s: string, p: string, from: nat): nat
    requires p != []
    decreases |s| - from
  {
    var i := IndexFrom(s, p, from);
    if i < 0 then 0 else 1 + CountFrom(s, p, i + |p|)
  }

  /** The search finds an occurrence exactly when the rest of the text contains one. */
  lemma {:induction false} IndexFromFound(s: string, p: string, from: nat)
    requires from <= |s|
    ensures IndexFrom(s, p, from) >= 0 <==> Contains(s[from..], p)
    decreases |s| - from
  {
    var t := s[from..];
    assert HasPrefix(t, p) <==> MatchAt(s, p, from) by {
      if from + |p| <= |s| {
        assert t[..|p|] == s[from..from + |p|];
      }
    }
    if from + |p| <= |s| && !MatchAt(s, p, from) {
      IndexFromFound(s, p, from + 1);
      assert t[1..] == s[from + 1..];
    } else if from + |p| > |s| {
      assert !Contains(t, p);
    }
  }

  /** There is an occurrence to count exactly when the text contains the pattern. */
  lemma CountPositive(s: string, p: string)
    requires p != []
    ensures CountFrom(s, p, 0) > 0 <==> Contains(s, p)
  {
    IndexFromFound(s, p, 0);
    assert s[0..] == s;
  }

  /**
   * Go's own loop for `strings.Replace(s[from..], p, "", -1)`: copy the text
   * up to the next occurrence found by the search, skip the occurrence, and
   * resume after it; copy the rest once the search finds none.
   */
  function ReplaceFrom(s: string, p: string, from: nat): string
    requires p != [] && from <= |s|
    decreases |s| - from
  {
    var i := IndexFrom(s, p, from);
    if i < 0 then s[from..] else s[from..i] + ReplaceFrom(s, p, i + |p|)
  }

  /** RemoveAll is Go's replacement loop: the same characters, in the same order. */
  lemma RemoveAllIsReplace(s: string, pat: string)
    requires pat != []
    ensures RemoveAll(s, pat) == ReplaceFrom(s, pat, 0)
  {
    RemoveAllIsReplaceFrom(s, pat, 0);
    assert s[0..] == s;
  }

  lemma {:induction false} RemoveAllIsReplaceFrom(s: string, pat: string, from: nat)
    requires pat != [] && from <= |s|
    ensures RemoveAll(s[from..], pat) == ReplaceFrom(s, pat, from)
    decreases |s| - from
  {
    if from + |pat| > |s| {
      ReplaceNoRoom(s, pat, from);
    } else if MatchAt(s, pat, from) {
      RemoveAllIsReplaceFrom(s, pat, from + |pat|);
      ReplaceHitCase(s, pat, from);
    } else {
      RemoveAllIsReplaceFrom(s, pat, from + 1);
      ReplaceSkipCase(s, pat, from);
    }
  }

  /** Too little text is left for an occurrence: both copy the rest. */
  lemma ReplaceNoRoom(s: string, pat: string, from: nat)
    requires pat != [] && from <= |s| && from + |pat| > |s|
    ensures RemoveAll(s[from..], pat) == ReplaceFrom(s, pat, from)
  {
    assert IndexFrom(s, pat, from) == -1;
  }

  /** An occurrence at `from` is dropped by both, which then agree on the rest. */
  lemma ReplaceHitCase(s: string, pat: string, from: nat)
    requires pat != [] && from <= |s| && MatchAt(s, pat, from)
    requires RemoveAll(s[from + |pat|..], pat) == ReplaceFrom(s, pat, from + |pat|)
    ensures RemoveAll(s[from..], pat) == ReplaceFrom(s, pat, from)
  {
    RemoveFromHit(s, pat, from);
    ReplaceHit(s, pat, from);
  }

  /** A character where no occurrence starts is kept by both. */
  lemma ReplaceSkipCase(s: string, pat: string, from: nat)
    requires pat != [] && from + |pat| <= |s| && !MatchAt(s, pat, from)
    requires RemoveAll(s[from + 1..], pat) == ReplaceFrom(s, pat, from + 1)
    ensures RemoveAll(s[from..], pat) == ReplaceFrom(s, pat, from)
  {
    RemoveFromSkip(s, pat, from);
    ReplaceSkip(s, pat, from);
  }

  /** RemoveAll drops an occurrence at `from` and resumes after it. */
  lemma RemoveFromHit(s: string, pat: string, from: nat)
    requires pat != [] && from <= |s| && MatchAt(s, pat, from)
    ensures RemoveAll(s[from..], pat) == RemoveAll(s[from + |pat|..], pat)
  {
    var t := s[from..];
    assert t[..|pat|] == pat;
    assert t[|pat|..] == s[from + |pat|..];
    RemoveAllHit(t, pat);
  }

  /** RemoveAll keeps a character where no occurrence starts. */
  lemma RemoveFromSkip(s: string, pat: string, from: nat)
    requires pat != [] && from + |pat| <= |s| && !MatchAt(s, pat, from)
    ensures RemoveAll(s[from..], pat) == [s[from]] + RemoveAll(s[from + 1..], pat)
  {
    var t := s[from..];
    assert t[..|pat|] == s[from..from + |pat|];
    assert t[1..] == s[from + 1..];
    RemoveAllSkip(t, pat);
  }

  /** The loop skips an occurrence at `from`. */
  lemma ReplaceHit(s: string, pat: string, from: nat)
    requires pat != [] && from <= |s| && MatchAt(s, pat, from)
    ensures ReplaceFrom(s, pat, from) == ReplaceFrom(s, pat, from + |pat|)
  {
    assert s[from..from] == [];
  }

  /** The loop copies a character where no occurrence starts. */
  lemma ReplaceSkip(s: string, pat: string, from: nat)
    requires pat != [] && from + |pat| <= |s| && !MatchAt(s, pat, from)
    ensures ReplaceFrom(s, pat, from) == [s[from]] + ReplaceFrom(s, pat, from + 1)
  {
    IndexSkip(s, pat, from);
    if IndexFrom(s, pat, from) < 0 {
      ReplaceSkipToEnd(s, pat, from);
    } else {
      ReplaceSkipToMatch(s, pat, from);
    }
  }

  lemma ReplaceSkipToEnd(s: string, pat: string, from: nat)
    requires pat != [] && from < |s|
    requires IndexFrom(s, pat, from) < 0 && IndexFrom(s, pat, from + 1) < 0
    ensures ReplaceFrom(s, pat, from) == [s[from]] + ReplaceFrom(s, pat, from + 1)
  {
    SliceCons(s, from, |s|);
    assert s[from..] == s[from..|s|] && s[from + 1..] == s[from + 1..|s|];
  }

  lemma ReplaceSkipToMatch(s: string, pat: string, from: nat)
    requires pat != [] && from < |s|
    requires IndexFrom(s, pat, from) == IndexFrom(s, pat, from + 1) >= 0
    ensures ReplaceFrom(s, pat, from) == [s[from]] + ReplaceFrom(s, pat, from + 1)
  {
    var i := IndexFrom(s, pat, from + 1);
    var rest := ReplaceFrom(s, pat, i + |pat|);
    SliceCons(s, from, i);
    ReplaceFound(s, pat, from);
    ReplaceFound(s, pat, from + 1);
    ConsConcat(s[from], s[from..i], s[from + 1..i], rest);
  }

  /** Where the search finds an occurrence, the loop copies up to it and resumes after it. */
  lemma ReplaceFound(s: string, pat: string, from: nat)
    requires pat != [] && from <= |s| && IndexFrom(s, pat, from) >= 0
    ensures var i := IndexFrom(s, pat, from);
      ReplaceFrom(s, pat, from) == s[from..i] + ReplaceFrom(s, pat, i + |pat|)
  {
  }

  lemma ConsConcat(c: char, a: string, b: string, rest: string)
    requires a == [c] + b
    ensures a + rest == [c] + (b + rest)
  {
  }

  lemma SliceCons(s: string, a: nat, b: nat)
    requires a < b <= |s|
    ensures s[a..b] == [s[a]] + s[a + 1..b]
  {
  }

  /** The search moves past a position where no occurrence starts. */
  lemma IndexSkip(s: string, pat: string, from: nat)
    requires pat != [] && from + |pat| <= |s| && !MatchAt(s, pat, from)
    ensures IndexFrom(s, pat, from) == IndexFrom(s, pat, from + 1)
    ensures IndexFrom(s, pat, from) != from
  {
  }

  lemma MulSucc(n: nat, k: nat)
    ensures (n + 1) * k == n * k + k
  {
  }

  /**
   * RemoveAll deletes every occurrence that Go's `strings.Count` counts:
   * the text loses exactly `|pat|` characters per occurrence.
   */
  lemma RemoveAllLength(s: string, pat: string)
    requires pat != []
    ensures |s| - |RemoveAll(s, pat)| == |pat| * CountFrom(s, pat, 0)
  {
    RemoveAllLengthFrom(s, pat, 0);
    assert s[0..] == s;
    assert LostChars(s, pat, 0) == |s| - |RemoveAll(s, pat)|;
  }

  lemma {:induction false} RemoveAllLengthFrom(s: string, pat: string, from: nat)
    requires pat != [] && from <= |s|
    ensures LostChars(s, pat, from) == |pat| * CountFrom(s, pat, from)
    decreases |s| - from
  {
    if from + |pat| > |s| {
      LostNoRoom(s, pat, from);
    } else if MatchAt(s, pat, from) {
      RemoveAllLengthFrom(s, pat, from + |pat|);
      LostHit(s, pat, from);
    } else {
      RemoveAllLengthFrom(s, pat, from + 1);
      LostSkip(s, pat, from);
    }
  }

  /** How many characters RemoveAll drops from the text after `from`. */
  function LostChars(s: string, pat: string, from: nat): int
    requires pat != [] && from <= |s|
  {
    |s[from..]| - |RemoveAll(s[from..], pat)|
  }

  lemma LostNoRoom(s: string, pat: string, from: nat)
    requires pat != [] && from <= |s| && from + |pat| > |s|
    ensures LostChars(s, pat, from) == |pat| * CountFrom(s, pat, from)
  {
    var n := CountFrom(s, pat, from);
    assert n == 0;
    assert |pat| * n == 0;
  }

  lemma LostHit(s: string, pat: string, from: nat)
    requires pat != [] && from <= |s| && MatchAt(s, pat, from)
    requires LostChars(s, pat, from + |pat|) == |pat| * CountFrom(s, pat, from + |pat|)
    ensures LostChars(s, pat, from) == |pat| * CountFrom(s, pat, from)
  {
    HitRemove(s, pat, from);
    CountHit(s, pat, from);
    OneMoreOccurrence(LostChars(s, pat, from), LostChars(s, pat, from + |pat|),
                      CountFrom(s, pat, from), CountFrom(s, pat, from + |pat|), |pat|);
  }

  /** An occurrence at `from` is dropped whole. */
  lemma HitRemove(s: string, pat: string, from: nat)
    requires pat != [] && from <= |s| && MatchAt(s, pat, from)
    ensures LostChars(s, pat, from) == |pat| + LostChars(s, pat, from + |pat|)
  {
    var t := s[from..];
    var u := s[from + |pat|..];
    assert t[..|pat|] == pat;
    assert t[|pat|..] == u;
    RemoveAllHit(t, pat);
  }

  lemma LostSkip(s: string, pat: string, from: nat)
    requires pat != [] && from + |pat| <= |s| && !MatchAt(s, pat, from)
    requires LostChars(s, pat, from + 1) == |pat| * CountFrom(s, pat, from + 1)
    ensures LostChars(s, pat, from) == |pat| * CountFrom(s, pat, from)
  {
    SkipRemove(s, pat, from);
    CountSkip(s, pat, from);
  }

  /** The search passes over a position where no occurrence starts. */
  lemma CountSkip(s: string, pat: string, from: nat)
    requires pat != [] && from + |pat| <= |s| && !MatchAt(s, pat, from)
    ensures CountFrom(s, pat, from) == CountFrom(s, pat, from + 1)
  {
  }

  /** The search counts an occurrence at `from` and resumes after it. */
  lemma CountHit(s: string, pat: string, from: nat)
    requires pat != [] && from <= |s| && MatchAt(s, pat, from)
    ensures CountFrom(s, pat, from) == CountFrom(s, pat, from + |pat|) + 1
  {
  }

  /** A character where no occurrence starts is kept. */
  lemma SkipRemove(s: string, pat: string, from: nat)
    requires pat != [] && from + |pat| <= |s| && !MatchAt(s, pat, from)
    ensures LostChars(s, pat, from) == LostChars(s, pat, from + 1)
  {
    var t := s[from..];
    var u := s[from + 1..];
    assert t[..|pat|] == s[from..from + |pat|];
    assert t[1..] == u;
    RemoveAllSkip(t, pat);
  }

  /** One more occurrence costs `k` more characters. */
  lemma OneMoreOccurrence(lost: int, lostRest: int, n: nat, nRest: nat, k: nat)
    requires lostRest == k * nRest && lost == k + lostRest && n == nRest + 1
    ensures lost == k * n
  {
  }

  /** Where `pat` does not start `s`, the first character is kept. */
  lemma RemoveAllSkip(s: string, pat: string)
    requires pat != [] && s != [] && !HasPrefix(s, pat)
    ensures RemoveAll(s, pat) == [s[0]] + RemoveAll(s[1..], pat)
  {
  }

  /** Where `pat` starts `s`, it is dropped and the scan resumes after it. */
  lemma RemoveAllHit(s: string, pat: string)
    requires pat != [] && HasPrefix(s, pat)
    ensures RemoveAll(s, pat) == RemoveAll(s[|pat|..], pat)
  {
  }
}
