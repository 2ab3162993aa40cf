/** The Python `str` builtins that run.py relies on, over `seq<char>`:
    `find`, `in` (substring test), `replace` and `split` on one separator,
    with `join` as the inverse of `split`. */
module Texts {

  datatype Option<T> = None | Some(value: T)

  /** `pat` occurs in `s` at index `i`. */
  predicate OccursAt(s: string, pat: string, i: int)
  {
    0 <= i && i + |pat| <= |s| && s[i..i + |pat|] == pat
  }

  /** Python's `pat in s` for two strings. */
  predicate Contains(s: string, pat: string)
  {
    exists i | 0 <= i <= |s| :: OccursAt(s, pat, i)
  }

  /** Python's `s.find(pat, from)`: the least index at or after `from` where
      `pat` occurs, `None` standing for Python's `-1`. */
  function Find(s: string, pat: string, from: nat): (r: Option<nat>)
    decreases |s| - from, 1
    ensures r.Some? ==> from <= r.value && OccursAt(s, pat, r.value)
  {
    if from + |pat| > |s| then None
    else FindAt(s, pat, from)
  }

  /** `Find` at a position where `pat` still fits: a hit here, or the search
      from the next position. */
  function FindAt(s: string, pat: string, from: nat): (r: Option<nat>)
    requires from + |pat| <= |s|
    decreases |s| - from, 0
    ensures r.Some? ==> from <= r.value && OccursAt(s, pat, r.value)
  {
    if s[from..from + |pat|] == pat then Some(from)
    else Find(s, pat, from + 1)
  }

  /** `Find` returns the first occurrence: none lies between `from` and the
      index it returns, and none at all at or after `from` when it returns
      `None`. */
  lemma {:induction false} FindIsFirst(s: string, pat: string, from: nat)
    ensures Find(s, pat, from).Some? ==>
              forall k :: from <= k < Find(s, pat, from).value ==> !OccursAt(s, pat, k)
    ensures Find(s, pat, from).None? ==> forall k :: from <= k ==> !OccursAt(s, pat, k)
    decreases |s| - from
  {
    if from + |pat| <= |s| && s[from..from + |pat|] != pat {
      FindIsFirst(s, pat, from + 1);
    }
  }

  /** Searching `s` from `d + from` is searching the suffix `s[d..]` from `from`. */
  lemma {:induction false} FindDrop(s: string, pat: string, d: nat, from: nat)
    requires d <= |s|
    ensures Find(s[d..], pat, from).None? ==> Find(s, pat, d + from).None?
    ensures Find(s[d..], pat, from).Some? ==>
              Find(s, pat, d + from) == Some(d + Find(s[d..], pat, from).value)
    decreases |s| - d - from
  {
    if d + from + |pat| <= |s| {
      assert s[d..][from..from + |pat|] == s[d + from..d + from + |pat|];
      if s[d + from..d + from + |pat|] != pat {
        FindDrop(s, pat, d, from + 1);
        assert Find(s, pat, d + from) == Find(s, pat, d + from + 1);
        assert Find(s[d..], pat, from) == FindAt(s[d..], pat, from) == Find(s[d..], pat, from + 1);
      }
    }
  }

  /** A hit found from `d + from` is the hit found in the suffix `s[d..]`
      from `from`, shifted by `d`. */
  lemma FindInSuffix(s: string, pat: string, d: nat, from: nat, i: nat)
    requires d <= |s|
    requires Find(s, pat, d + from) == Some(i)
    ensures d + from <= i && Find(s[d..], pat, from) == Some(i - d)
  {
    FindDrop(s, pat, d, from);
  }

  /** Slicing a suffix is slicing the whole text at shifted positions. */
  lemma SliceOfSuffix(s: string, d: nat, x: nat, y: nat)
    requires d <= x <= y <= |s|
    ensures s[d..][x - d..y - d] == s[x..y]
    ensures s[d..][x - d..] == s[x..]
    ensures s[d..][..x - d] == s[d..x]
  {
  }

  /** A search that starts before a stretch without occurrences finds what a
      search starting after it finds. */
  lemma {:induction false} FindSkip(s: string, pat: string, from: nat, upto: nat)
    requires from <= upto
    requires forall k :: from <= k < upto ==> !OccursAt(s, pat, k)
    ensures Find(s, pat, from) == Find(s, pat, upto)
    decreases upto - from
  {
    if from < upto {
      if from + |pat| <= |s| {
        assert !OccursAt(s, pat, from);
      }
      FindSkip(s, pat, from + 1, upto);
    }
  }

  /** Python's `s.replace("", rep)`: `rep` before every character and at the end. */
  function InterleaveAll(s: string, rep: string): (r: string)
    ensures |r| == |s| + (|s| + 1) * |rep|
  {
    if |s| == 0 then rep else rep + [s[0]] + InterleaveAll(s[1..], rep)
  }

  /** Python's `s.replace(pat, rep)`: every non-overlapping occurrence of `pat`,
      scanning left to right, is replaced by `rep`. */
  function ReplaceAll(s: string, pat: string, rep: string): string
    decreases |s|
  {
    if |pat| == 0 then InterleaveAll(s, rep)
    else
      match Find(s, pat, 0)
      case None => s
      case Some(i) => s[..i] + rep + ReplaceAll(s[i + |pat|..], pat, rep)
  }

  /** Replacing a pattern the text does not contain leaves the text as it is;
      this makes the `key in content` guard in front of a `replace` redundant. */
  lemma ReplaceAllAbsent(s: string, pat: string, rep: string)
    requires !Contains(s, pat)
    ensures ReplaceAll(s, pat, rep) == s
  {
    if |pat| == 0 {
      assert OccursAt(s, pat, 0);
    }
  }

  /** A replacement no longer than the pattern never lengthens the text. */
  lemma {:induction false} ReplaceAllNotLonger(s: string, pat: string, rep: string)
    requires 0 < |pat| && |rep| <= |pat|
    ensures |ReplaceAll(s, pat, rep)| <= |s|
    decreases |s|
  {
    var f := Find(s, pat, 0);
    if f.Some? {
      var i := f.value;
      var t := s[i + |pat|..];
      var rt := ReplaceAll(t, pat, rep);
      ReplaceAllNotLonger(t, pat, rep);
      assert ReplaceAll(s, pat, rep) == s[..i] + rep + rt;
      assert |s[..i] + rep + rt| == i + |rep| + |rt|;
    }
  }

  /** Replacing a pattern that occurs exactly once splices `rep` into its place
      and leaves both sides of it untouched. */
  lemma ReplaceAllSingle(a: string, pat: string, b: string, rep: string)
    requires 0 < |pat|
    requires forall k :: OccursAt(a + pat + b, pat, k) ==> k == |a|
    ensures ReplaceAll(a + pat + b, pat, rep) == a + rep + b
  {
    var s := a + pat + b;
    assert OccursAt(s, pat, |a|) by {
      assert s[|a|..|a| + |pat|] == pat;
    }
    FindIsFirst(s, pat, 0);
    var f := Find(s, pat, 0);
    assert f == Some(|a|);
    assert s[..|a|] == a;
    assert s[|a| + |pat|..] == b;
    forall k | 0 <= k <= |b|
      ensures !OccursAt(b, pat, k)
    {
      OccursShift(a + pat, b, pat, k);
      assert a + pat + b == s;
    }
    ReplaceAllAbsent(b, pat, rep);
  }

  /** An occurrence in `b` is an occurrence in `p + b`, shifted by `|p|`. */
  lemma OccursShift(p: string, b: string, pat: string, k: nat)
    ensures OccursAt(b, pat, k) ==> OccursAt(p + b, pat, |p| + k)
  {
    if OccursAt(b, pat, k) {
      assert (p + b)[|p| + k..|p| + k + |pat|] == b[k..k + |pat|];
    }
  }

  /** Python's `s.split(sep)` for a one-character separator. */
  function Split(s: string, sep: char): (r: seq<string>)
    ensures |r| >= 1
    ensures forall seg :: seg in r ==> sep !in seg
    decreases |s|
  {
    if |s| == 0 then [""]
    else
      var rest := Split(s[1..], sep);
      if s[0] == sep then [""] + rest
      else [[s[0]] + rest[0]] + rest[1..]
  }

  /** Python's `sep.join(segs)` for a one-character separator. */
  function Join(segs: seq<string>, sep: char): string
  {
    if |segs| == 0 then ""
    else if |segs| == 1 then segs[0]
    else segs[0] + [sep] + Join(segs[1..], sep)
  }

  /** Splitting and joining back gives the original text. */
  lemma {:induction false} SplitJoin(s: string, sep: char)
    ensures Join(Split(s, sep), sep) == s
    decreases |s|
  {
    if |s| > 0 {
      var rest := Split(s[1..], sep);
      SplitJoin(s[1..], sep);
      if s[0] != sep && |rest| > 1 {
        assert Join(rest, sep) == rest[0] + [sep] + Join(rest[1..], sep);
        assert rest[1..][1..] == rest[2..];
      }
    }
  }

  /** Text without a separator splits into itself. */
  lemma {:induction false} SplitNoSep(s: string, sep: char)
    requires sep !in s
    ensures Split(s, sep) == [s]
    decreases |s|
  {
    if |s| > 0 {
      SplitNoSep(s[1..], sep);
      assert [s[0]] + s[1..] == s;
    }
  }

  /** A separator-free head followed by a separator is split off as one segment. */
  lemma {:induction false} SplitAfterSep(a: string, sep: char, b: string)
    requires sep !in a
    ensures Split(a + [sep] + b, sep) == [a] + Split(b, sep)
    decreases |a|
  {
    var s := a + [sep] + b;
    if |a| == 0 {
      assert s[1..] == b;
    } else {
      assert s[1..] == a[1..] + [sep] + b;
      SplitAfterSep(a[1..], sep, b);
      assert [a[0]] + a[1..] == a;
    }
  }

  /** Joining separator-free segments and splitting back gives the segments. */
  lemma {:induction false} JoinSplit(segs: seq<string>, sep: char)
    requires |segs| >= 1
    requires forall seg :: seg in segs ==> sep !in seg
    ensures Split(Join(segs, sep), sep) == segs
    decreases |segs|
  {
    if |segs| == 1 {
      SplitNoSep(segs[0], sep);
    } else {
      assert segs[0] in segs;
      JoinSplit(segs[1..], sep);
      SplitAfterSep(segs[0], sep, Join(segs[1..], sep));
    }
  }
}
