/** String operations of Python's `str` that the output normalizer relies on:
    substring search (`in`, `index`), `endswith`, `replace(old, "")`, `strip()`,
    and the subsequence relation used to say that cleaning text never reorders
    or invents characters. */
module Text {
  import opened Wrappers

  /** `pat` occurs in `s` starting at index `i`. */
  predicate OccursAt(s: string, pat: string, i: nat) {
    i + |pat| <= |s| && s[i..i + |pat|] == pat
  }

  /** `s.endswith(suffix)`. */
  predicate EndsWith(s: string, suffix: string) {
    |suffix| <= |s| && s[|s| - |suffix|..] == suffix
  }

  /** First occurrence of `pat` in `s` at or after `from` (`s.find(pat, from)`). */
  function IndexOf(s: string, pat: string, from: nat): (r: Option<nat>)
    decreases |s| - from
    ensures r.Some? ==> from <= r.value && OccursAt(s, pat, r.value)
  {
    if from + |pat| > |s| then None
    else if OccursAt(s, pat, from) then Some(from)
    else IndexOf(s, pat, from + 1)
  }

  /** The occurrence found is the first one at or after `from`, and none is
      found only when there is none. */
  lemma {:induction false} IndexOfSpec(s: string, pat: string, from: nat)
    decreases |s| - from
    ensures var r := IndexOf(s, pat, from);
      && (r.Some? ==> forall j: nat :: from <= j < r.value ==> !OccursAt(s, pat, j))
      && (r.None? ==> forall j: nat :: from <= j ==> !OccursAt(s, pat, j))
  {
    if from + |pat| <= |s| && !OccursAt(s, pat, from) {
      IndexOfSpec(s, pat, from + 1);
    }
  }

  /** An occurrence with none before it is the one `find` returns. */
  lemma IndexOfFirst(s: string, pat: string, q: nat)
    requires OccursAt(s, pat, q)
    requires forall j: nat :: j < q ==> !OccursAt(s, pat, j)
    ensures IndexOf(s, pat, 0) == Some(q)
  {
    IndexOfSpec(s, pat, 0);
  }

  /** An occurrence in a suffix of `s` is an occurrence in `s`, shifted. */
  lemma OccursInSuffix(s: string, pat: string, a: nat, j: nat)
    requires a <= |s| && OccursAt(s[a..], pat, j)
    ensures OccursAt(s, pat, a + j)
  {
    assert s[a + j..a + j + |pat|] == s[a..][j..j + |pat|];
  }

  /** `pat in s`. */
  predicate Contains(s: string, pat: string) {
    IndexOf(s, pat, 0).Some?
  }

  /** Last occurrence of `pat` in `s` that starts at or after `from`. */
  function LastIndexOf(s: string, pat: string, from: nat): (r: Option<nat>)
    ensures r.Some? ==> from <= r.value && OccursAt(s, pat, r.value)
  {
    if |pat| > |s| then None else LastIndexDown(s, pat, from, |s| - |pat|)
  }

  /** The occurrence found is the last one, and none is found only when none
      starts at or after `from`. */
  lemma LastIndexOfSpec(s: string, pat: string, from: nat)
    ensures var r := LastIndexOf(s, pat, from);
      && (r.Some? ==> forall j: nat :: r.value < j ==> !OccursAt(s, pat, j))
      && (r.None? ==> forall j: nat :: from <= j ==> !OccursAt(s, pat, j))
  {
    if |pat| <= |s| {
      LastIndexDownSpec(s, pat, from, |s| - |pat|);
    }
  }

  /** The last occurrence starting in `from..k`, scanning down from `k`. */
  function LastIndexDown(s: string, pat: string, from: nat, k: int): (r: Option<nat>)
    decreases k + 1
    ensures r.Some? ==> from <= r.value <= k && OccursAt(s, pat, r.value)
  {
    if k < from then None
    else if OccursAt(s, pat, k) then Some(k)
    else LastIndexDown(s, pat, from, k - 1)
  }

  lemma {:induction false} LastIndexDownSpec(s: string, pat: string, from: nat, k: int)
    requires forall j: nat :: k < j ==> !OccursAt(s, pat, j)
    decreases k + 1
    ensures var r := LastIndexDown(s, pat, from, k);
      && (r.Some? ==> forall j: nat :: r.value < j ==> !OccursAt(s, pat, j))
      && (r.None? ==> forall j: nat :: from <= j ==> !OccursAt(s, pat, j))
  {
    if k >= from && !OccursAt(s, pat, k) {
      LastIndexDownSpec(s, pat, from, k - 1);
    }
  }

  /** One differing character rules out an occurrence. */
  lemma MismatchAt(s: string, pat: string, i: nat, j: nat)
    requires j < |pat| && i + j < |s| && s[i + j] != pat[j]
    ensures !OccursAt(s, pat, i)
  {
    if i + |pat| <= |s| {
      assert s[i..i + |pat|][j] == s[i + j];
    }
  }

  /** Occurrences in `s[1..]` are those in `s` one place further on. */
  lemma OccursShift(s: string, pat: string, j: nat)
    requires |s| > 0
    ensures OccursAt(s[1..], pat, j) <==> OccursAt(s, pat, j + 1)
  {
    if j + 1 + |pat| <= |s| {
      assert s[1..][j..j + |pat|] == s[j + 1..j + 1 + |pat|];
    }
  }

  /** `a` can be obtained from `b` by deleting characters: order and content of
      what remains are those of `b`. */
  predicate IsSubseq<T(==)>(a: seq<T>, b: seq<T>)
    decreases |b|
  {
    if |a| == 0 then true
    else if |b| == 0 then false
    else if a[0] == b[0] then IsSubseq(a[1..], b[1..])
    else IsSubseq(a, b[1..])
  }

  lemma {:induction false} SubseqRefl<T>(a: seq<T>)
    ensures IsSubseq(a, a)
  {
    if |a| > 0 { SubseqRefl(a[1..]); }
  }

  lemma {:induction false} SubseqEmpty<T>(b: seq<T>)
    ensures IsSubseq([], b)
  {
  }

  /** Dropping the first kept element keeps a subsequence. */
  lemma {:induction false} SubseqDropHead<T>(a: seq<T>, b: seq<T>)
    requires |a| > 0 && IsSubseq(a, b)
    ensures IsSubseq(a[1..], b)
    decreases |b|, 0
  {
    if a[0] == b[0] {
      SubseqSkip(a[1..], b[1..], b[0]);
      assert [b[0]] + b[1..] == b;
    } else {
      SubseqDropHead(a, b[1..]);
      SubseqSkip(a[1..], b[1..], b[0]);
      assert [b[0]] + b[1..] == b;
    }
  }

  /** Inserting a character in front of the longer sequence keeps a subsequence. */
  lemma {:induction false} SubseqSkip<T>(a: seq<T>, b: seq<T>, c: T)
    requires IsSubseq(a, b)
    ensures IsSubseq(a, [c] + b)
    decreases |b|, 1
  {
    var cb := [c] + b;
    assert cb[1..] == b;
    if |a| > 0 && a[0] == c {
      SubseqDropHead(a, b);
    }
  }

  lemma {:induction false} SubseqCons<T>(a: seq<T>, b: seq<T>, c: T)
    requires IsSubseq(a, b)
    ensures IsSubseq([c] + a, [c] + b)
  {
    var ca, cb := [c] + a, [c] + b;
    assert ca[1..] == a && cb[1..] == b;
  }

  lemma {:induction false} SubseqTrans<T>(a: seq<T>, b: seq<T>, c: seq<T>)
    requires IsSubseq(a, b) && IsSubseq(b, c)
    ensures IsSubseq(a, c)
    decreases |c|
  {
    if |a| == 0 {
    } else if |b| == 0 {
    } else if |c| == 0 {
    } else if b[0] == c[0] {
      if a[0] == b[0] {
        SubseqTrans(a[1..], b[1..], c[1..]);
      } else {
        SubseqTrans(a, b[1..], c[1..]);
      }
    } else {
      SubseqTrans(a, b, c[1..]);
      if a[0] == c[0] {
        SubseqDropHead(a, c[1..]);
      }
    }
  }

  /** Prefixes and suffixes glued back together form a subsequence. */
  lemma {:induction false} SubseqCut<T>(s: seq<T>, i: nat, j: nat)
    requires i <= j <= |s|
    ensures IsSubseq(s[..i] + s[j..], s)
    decreases i
  {
    if i == 0 {
      assert s[..i] + s[j..] == s[j..];
      SubseqSuffix(s, j);
    } else {
      SubseqCut(s[1..], i - 1, j - 1);
      assert s[1..][..i - 1] + s[1..][j - 1..] == (s[..i] + s[j..])[1..];
      SubseqCons(s[1..][..i - 1] + s[1..][j - 1..], s[1..], s[0]);
      assert [s[0]] + (s[..i] + s[j..])[1..] == s[..i] + s[j..];
      assert [s[0]] + s[1..] == s;
    }
  }

  lemma {:induction false} SubseqSuffix<T>(s: seq<T>, j: nat)
    requires j <= |s|
    ensures IsSubseq(s[j..], s)
    decreases j
  {
    if j == 0 {
      SubseqRefl(s);
    } else {
      SubseqSuffix(s[1..], j - 1);
      assert s[1..][j - 1..] == s[j..];
      SubseqSkip(s[j..], s[1..], s[0]);
      assert [s[0]] + s[1..] == s;
    }
  }

  /** `s.replace(pat, "")`: deletes the non-overlapping occurrences of `pat`
      found scanning from the left. An empty `pat` leaves `s` as it is. */
  function RemoveAll(s: string, pat: string): (r: string)
    decreases |s|
    ensures IsSubseq(r, s)
  {
    if |pat| == 0 || |s| < |pat| then
      SubseqRefl(s);
      s
    else if s[..|pat|] == pat then
      var rest := RemoveAll(s[|pat|..], pat);
      SubseqSuffix(s, |pat|);
      SubseqTrans(rest, s[|pat|..], s);
      rest
    else
      var rest := RemoveAll(s[1..], pat);
      SubseqCons(rest, s[1..], s[0]);
      assert [s[0]] + s[1..] == s;
      [s[0]] + rest
  }

  /** `s.replace(pat, repl)` for a non-empty `pat`: replaces the
      non-overlapping occurrences of `pat` found scanning from the left. */
  function ReplaceAll(s: string, pat: string, repl: string): (r: string)
    requires |pat| > 0
    decreases |s|
  {
    if |s| < |pat| then s
    else if s[..|pat|] == pat then
      repl + ReplaceAll(s[|pat|..], pat, repl)
    else
      [s[0]] + ReplaceAll(s[1..], pat, repl)
  }

  /** Where `pat` does not occur, `replace(pat, "")` changes nothing. */
  lemma {:induction false} RemoveAllAbsent(s: string, pat: string)
    requires |pat| > 0 && forall i: nat :: !OccursAt(s, pat, i)
    ensures RemoveAll(s, pat) == s
    decreases |s|
  {
    if |s| >= |pat| {
      assert s[..|pat|] != pat by { assert !OccursAt(s, pat, 0); }
      forall i: nat
        ensures !OccursAt(s[1..], pat, i)
      {
        OccursShift(s, pat, i);
      }
      RemoveAllAbsent(s[1..], pat);
      assert [s[0]] + s[1..] == s;
    }
  }

  /** Where `pat` does not occur, `replace(pat, repl)` changes nothing. */
  lemma {:induction false} ReplaceAllAbsent(s: string, pat: string, repl: string)
    requires |pat| > 0 && forall i: nat :: !OccursAt(s, pat, i)
    ensures ReplaceAll(s, pat, repl) == s
    decreases |s|
  {
    if |s| >= |pat| {
      assert s[..|pat|] != pat by { assert !OccursAt(s, pat, 0); }
      forall i: nat
        ensures !OccursAt(s[1..], pat, i)
      {
        OccursShift(s, pat, i);
      }
      ReplaceAllAbsent(s[1..], pat, repl);
      assert [s[0]] + s[1..] == s;
    }
  }


  /** The first element glued back on. */
  lemma ConsConcat<T>(p: seq<T>, r: seq<T>)
    requires |p| > 0
    ensures [p[0]] + (p[1..] + r) == p + r
  {
    assert [p[0]] + p[1..] == p;
  }

  /** Regrouping after the first element. */
  lemma ConsAssoc<T>(p: seq<T>, m: seq<T>, r: seq<T>)
    requires |p| > 0
    ensures [p[0]] + (p[1..] + m + r) == p + m + r
  {
    assert [p[0]] + p[1..] == p;
  }

  /** With no occurrence of `pat` in `p + pat + u` before `|p|`, there is none
      before `|p| - 1` in `p[1..] + pat + u` either, and none at 0. */
  lemma NoEarlierOccurrence(p: string, pat: string, u: string)
    requires |p| > 0
    requires forall j: nat :: j < |p| ==> !OccursAt(p + pat + u, pat, j)
    ensures (p + pat + u)[1..] == p[1..] + pat + u
    ensures !OccursAt(p + pat + u, pat, 0)
    ensures forall j: nat :: j < |p| - 1 ==> !OccursAt(p[1..] + pat + u, pat, j)
  {
    var s := p + pat + u;
    assert s[1..] == p[1..] + pat + u;
    forall j: nat | j < |p| - 1
      ensures !OccursAt(p[1..] + pat + u, pat, j)
    {
      OccursShift(s, pat, j);
    }
  }

  /** `replace(pat, "")` deletes the first occurrence of `pat`, keeps what
      precedes it, and carries on after it. */
  lemma {:induction false} RemoveAllSplit(p: string, pat: string, u: string)
    requires |pat| > 0
    requires forall j: nat :: j < |p| ==> !OccursAt(p + pat + u, pat, j)
    ensures RemoveAll(p + pat + u, pat) == p + RemoveAll(u, pat)
    decreases |p|
  {
    var s := p + pat + u;
    if |p| == 0 {
      assert s[..|pat|] == pat && s[|pat|..] == u;
    } else {
      NoEarlierOccurrence(p, pat, u);
      assert RemoveAll(s, pat) == [p[0]] + RemoveAll(p[1..] + pat + u, pat) by {
        assert s[..|pat|] != pat;
      }
      RemoveAllSplit(p[1..], pat, u);
      ConsConcat(p, RemoveAll(u, pat));
    }
  }

  /** `replace(pat, repl)` puts `repl` in place of the first occurrence of
      `pat`, keeps what precedes it, and carries on after it. */
  lemma {:induction false} ReplaceAllSplit(p: string, pat: string, repl: string, u: string)
    requires |pat| > 0
    requires forall j: nat :: j < |p| ==> !OccursAt(p + pat + u, pat, j)
    ensures ReplaceAll(p + pat + u, pat, repl) == p + repl + ReplaceAll(u, pat, repl)
    decreases |p|
  {
    var s := p + pat + u;
    if |p| == 0 {
      assert s[..|pat|] == pat && s[|pat|..] == u;
    } else {
      NoEarlierOccurrence(p, pat, u);
      assert ReplaceAll(s, pat, repl) == [p[0]] + ReplaceAll(p[1..] + pat + u, pat, repl) by {
        assert s[..|pat|] != pat;
      }
      ReplaceAllSplit(p[1..], pat, repl, u);
      ConsAssoc(p, repl, ReplaceAll(u, pat, repl));
    }
  }

  /** Replacing by the empty string is deleting. */
  lemma {:induction false} ReplaceByEmptyRemoves(s: string, pat: string)
    requires |pat| > 0
    ensures ReplaceAll(s, pat, "") == RemoveAll(s, pat)
    decreases |s|
  {
    if |s| >= |pat| {
      if s[..|pat|] == pat {
        ReplaceByEmptyRemoves(s[|pat|..], pat);
      } else {
        ReplaceByEmptyRemoves(s[1..], pat);
      }
    }
  }

  /** Replacing a pattern by itself changes nothing. */
  lemma {:induction false} ReplaceBySelf(s: string, pat: string)
    requires |pat| > 0
    ensures ReplaceAll(s, pat, pat) == s
    decreases |s|
  {
    if |s| >= |pat| {
      if s[..|pat|] == pat {
        ReplaceBySelf(s[|pat|..], pat);
        assert s[..|pat|] + s[|pat|..] == s;
      } else {
        ReplaceBySelf(s[1..], pat);
        assert [s[0]] + s[1..] == s;
      }
    }
  }

  /** The characters `str.isspace()` accepts, which are also those `\s` matches
      in a Python regular expression over text. */
  predicate IsSpace(c: char) {
    c == ' ' || c == '\t' || c == '\n' || c == '\r' || c == '\U{0b}' || c == '\U{0c}'
    || ('\U{1c}' <= c <= '\U{1f}') || c == '\U{85}' || c == '\U{a0}' || c == '\U{1680}'
    || ('\U{2000}' <= c <= '\U{200a}') || c == '\U{2028}' || c == '\U{2029}'
    || c == '\U{202f}' || c == '\U{205f}' || c == '\U{3000}'
  }

  /** The first index at or after `i` whose character is not white space. */
  function SkipSpaces(s: string, i: nat): (j: nat)
    requires i <= |s|
    decreases |s| - i
    ensures i <= j <= |s|
    ensures forall k :: i <= k < j ==> IsSpace(s[k])
    ensures j < |s| ==> !IsSpace(s[j])
  {
    if i < |s| && IsSpace(s[i]) then SkipSpaces(s, i + 1) else i
  }

  /** The index just past the last character of `s[lo..j]` that is not white
      space, or `lo` when there is none. */
  function TrimEnd(s: string, lo: nat, j: nat): (e: nat)
    requires lo <= j <= |s|
    decreases j
    ensures lo <= e <= j
    ensures forall k :: e <= k < j ==> IsSpace(s[k])
    ensures e > lo ==> !IsSpace(s[e - 1])
  {
    if j > lo && IsSpace(s[j - 1]) then TrimEnd(s, lo, j - 1) else j
  }

  /** Neither the first nor the last character of `s` is white space. */
  predicate Trimmed(s: string) {
    |s| > 0 ==> !IsSpace(s[0]) && !IsSpace(s[|s| - 1])
  }

  /** `s.strip()`: `s` without its leading and trailing white space. */
  function Strip(s: string): (r: string)
    ensures |r| <= |s|
    ensures Trimmed(r)
  {
    var i := SkipSpaces(s, 0);
    s[i..TrimEnd(s, i, |s|)]
  }

  /** What `strip` keeps is the longest slice of `s` that neither starts nor
      ends with white space: everything cut off is white space, and only an
      all-blank string strips to nothing. */
  lemma StripSpec(s: string)
    ensures var r, i := Strip(s), SkipSpaces(s, 0);
      && i + |r| <= |s| && r == s[i..i + |r|]
      && (forall k :: 0 <= k < i ==> IsSpace(s[k]))
      && (forall k :: i + |r| <= k < |s| ==> IsSpace(s[k]))
      && (r == [] <==> forall k :: 0 <= k < |s| ==> IsSpace(s[k]))
  {
  }

  /** The start of the run of white space that ends at `q`. */
  function SpaceRunStart(s: string, q: nat): (p: nat)
    requires q <= |s|
    decreases q
    ensures p <= q
    ensures forall k :: p <= k < q ==> IsSpace(s[k])
    ensures p > 0 ==> !IsSpace(s[p - 1])
  {
    if q > 0 && IsSpace(s[q - 1]) then SpaceRunStart(s, q - 1) else q
  }

  /** A common prefix keeps a subsequence a subsequence. */
  lemma {:induction false} SubseqPrefix<T>(c: seq<T>, a: seq<T>, b: seq<T>)
    requires IsSubseq(a, b)
    ensures IsSubseq(c + a, c + b)
    decreases |c|
  {
    if |c| > 0 {
      SubseqPrefix(c[1..], a, b);
      SubseqCons(c[1..] + a, c[1..] + b, c[0]);
      assert [c[0]] + (c[1..] + a) == c + a;
      assert [c[0]] + (c[1..] + b) == c + b;
    } else {
      assert c + a == a && c + b == b;
    }
  }

  /** Every character of `w` is white space. */
  predicate AllSpace(w: string) {
    forall k :: 0 <= k < |w| ==> IsSpace(w[k])
  }

  /** The run of white space ending at `q` starts at the `p` that is preceded
      by a character other than white space (or by nothing). */
  lemma SpaceRunStartAt(s: string, q: nat, p: nat)
    requires p <= q <= |s|
    requires forall k :: p <= k < q ==> IsSpace(s[k])
    requires p > 0 ==> !IsSpace(s[p - 1])
    ensures SpaceRunStart(s, q) == p
  {
    var r := SpaceRunStart(s, q);
    assert r > 0 ==> !IsSpace(s[r - 1]);
  }

  /** The run of white space starting at `i` ends at the `j` that is followed
      by a character other than white space (or by nothing). */
  lemma SkipSpacesAt(s: string, i: nat, j: nat)
    requires i <= j <= |s|
    requires forall k :: i <= k < j ==> IsSpace(s[k])
    requires j < |s| ==> !IsSpace(s[j])
    ensures SkipSpaces(s, i) == j
  {
    var r := SkipSpaces(s, i);
    assert r < |s| ==> !IsSpace(s[r]);
  }

  /** `re.sub(r"\s*" + re.escape(x) + r"\s*", "", s)` for an `x` that starts
      with a character other than white space. Scanning from the left, the
      first match starts where the run of white space before the first
      occurrence of `x` starts, and ends after the run of white space that
      follows that occurrence; scanning resumes there. */
  function RemoveSurrounded(s: string, x: string): (r: string)
    requires |x| > 0 && !IsSpace(x[0])
    decreases |s|
  {
    var found := IndexOf(s, x, 0);
    if found.None? then s
    else s[..SpaceRunStart(s, found.value)] + RemoveSurrounded(s[SkipSpaces(s, found.value + |x|)..], x)
  }

  /** Where `x` does not occur, nothing is removed. */
  lemma RemoveSurroundedAbsent(s: string, x: string)
    requires |x| > 0 && !IsSpace(x[0]) && !Contains(s, x)
    ensures RemoveSurrounded(s, x) == s
  {
  }

  /** The removal only deletes characters. */
  lemma {:induction false} RemoveSurroundedSubseq(s: string, x: string)
    requires |x| > 0 && !IsSpace(x[0])
    decreases |s|
    ensures IsSubseq(RemoveSurrounded(s, x), s)
  {
    var found := IndexOf(s, x, 0);
    if found.None? {
      assert RemoveSurrounded(s, x) == s;
      SubseqRefl(s);
    } else {
      var p := SpaceRunStart(s, found.value);
      var e := SkipSpaces(s, found.value + |x|);
      var rest := RemoveSurrounded(s[e..], x);
      RemoveSurroundedSubseq(s[e..], x);
      RemoveSurroundedUnfold(s, x, found.value, s[..p], s[e..]);
      SubseqAfterCut(s, p, e, rest, RemoveSurrounded(s, x));
    }
  }

  /** Keeping `s[..p]` and a subsequence of `s[e..]` gives a subsequence of `s`. */
  lemma SubseqAfterCut<T>(s: seq<T>, p: nat, e: nat, rest: seq<T>, r: seq<T>)
    requires p <= e <= |s| && IsSubseq(rest, s[e..]) && r == s[..p] + rest
    ensures IsSubseq(r, s)
  {
    SubseqPrefix(s[..p], rest, s[e..]);
    SubseqCut(s, p, e);
    SubseqTrans(s[..p] + rest, s[..p] + s[e..], s);
  }

  /** The first occurrence of `x` goes together with the white space on both
      sides of it; what precedes that white space is kept, and the removal
      carries on after it. */
  lemma RemoveSurroundedSplit(a: string, w1: string, x: string, w2: string, b: string)
    requires |x| > 0 && !IsSpace(x[0])
    requires AllSpace(w1) && AllSpace(w2)
    requires |a| > 0 ==> !IsSpace(a[|a| - 1])
    requires |b| > 0 ==> !IsSpace(b[0])
    requires forall j: nat :: j < |a| + |w1| ==> !OccursAt(a + w1 + x + w2 + b, x, j)
    ensures RemoveSurrounded(a + w1 + x + w2 + b, x) == a + RemoveSurrounded(b, x)
  {
    var s := a + w1 + x + w2 + b;
    var q := |a| + |w1|;
    var e := q + |x| + |w2|;
    assert IndexOf(s, x, 0) == Some(q) by {
      SpacedPieces(a, w1, x, w2, b);
      IndexOfFirst(s, x, q);
    }
    assert s[..SpaceRunStart(s, q)] == a by {
      SpacedPieces(a, w1, x, w2, b);
      SpaceRunStartAt(s, q, |a|);
    }
    assert s[SkipSpaces(s, q + |x|)..] == b by {
      SpacedPieces(a, w1, x, w2, b);
      SkipSpacesAt(s, q + |x|, e);
    }
    RemoveSurroundedUnfold(s, x, q, a, b);
  }

  /** Where the pieces of `a + w1 + x + w2 + b` lie. */
  lemma SpacedPieces(a: string, w1: string, x: string, w2: string, b: string)
    requires AllSpace(w1) && AllSpace(w2)
    requires |a| > 0 ==> !IsSpace(a[|a| - 1])
    requires |b| > 0 ==> !IsSpace(b[0])
    ensures var s, q := a + w1 + x + w2 + b, |a| + |w1|;
      && OccursAt(s, x, q)
      && s[..|a|] == a && s[q + |x| + |w2|..] == b
      && (forall k :: |a| <= k < q ==> IsSpace(s[k]))
      && (forall k :: q + |x| <= k < q + |x| + |w2| ==> IsSpace(s[k]))
      && (|a| > 0 ==> !IsSpace(s[|a| - 1]))
      && (q + |x| + |w2| < |s| ==> !IsSpace(s[q + |x| + |w2|]))
  {
    var s, q := a + w1 + x + w2 + b, |a| + |w1|;
    assert s[q..q + |x|] == x;
    assert s[..|a|] == a;
    assert s[q + |x| + |w2|..] == b;
    forall k | |a| <= k < q
      ensures IsSpace(s[k])
    {
      assert s[k] == w1[k - |a|];
    }
    forall k | q + |x| <= k < q + |x| + |w2|
      ensures IsSpace(s[k])
    {
      assert s[k] == w2[k - q - |x|];
    }
  }

  /** One step of the removal, for a known first occurrence at `q`. */
  lemma RemoveSurroundedUnfold(s: string, x: string, q: nat, pre: string, post: string)
    requires |x| > 0 && !IsSpace(x[0])
    requires IndexOf(s, x, 0) == Some(q)
    requires s[..SpaceRunStart(s, q)] == pre
    requires q + |x| <= |s| && s[SkipSpaces(s, q + |x|)..] == post
    ensures RemoveSurrounded(s, x) == pre + RemoveSurrounded(post, x)
  {
  }

  /** Stripping a string and a final newline after it gives the string back. */
  lemma StripNewline(s: string)
    requires |s| > 0 && Trimmed(s)
    ensures Strip(s + "\n") == s
  {
    var t := s + "\n";
    assert SkipSpaces(t, 0) == 0 by { assert t[0] == s[0]; }
    assert TrimEnd(t, 0, |t|) == |s| by {
      assert t[|t| - 1] == '\n';
      assert t[|s| - 1] == s[|s| - 1];
      assert TrimEnd(t, 0, |s|) == |s|;
    }
    assert t[0..|s|] == s;
  }

  /** Stripping a string that neither starts nor ends with white space changes nothing. */
  lemma StripTrimmed(s: string)
    requires Trimmed(s)
    ensures Strip(s) == s
  {
    if |s| > 0 {
      assert SkipSpaces(s, 0) == 0;
      assert TrimEnd(s, 0, |s|) == |s|;
    }
  }

  lemma StripIdempotent(s: string)
    ensures Strip(Strip(s)) == Strip(s)
  {
    StripTrimmed(Strip(s));
  }
}
