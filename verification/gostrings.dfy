/**
 The three pieces of Go's `strings` package that the DN indexer relies on:
 `strings.Index`, `strings.Split` (for a non-empty separator) and
 `strings.HasPrefix`, together with `strings.Join` as the inverse of `Split`.
 Strings are sequences of characters; Go works on bytes, but the separator
 `"/CN="` and the prefix `"/"` are ASCII, so splitting by characters and
 splitting by bytes cut a DN at the same places.
 */
module GoStrings {

  /** `sep` occurs in `s` starting at position `i`. */
  predicate OccursAt(s: string, sep: string, i: int)
  {
    0 <= i && i + |sep| <= |s| && s[i..i + |sep|] == sep
  }

  /** `strings.Contains(s, sep)` */
  predicate Contains(s: string, sep: string)
  {
    exists i :: 0 <= i <= |s| && OccursAt(s, sep, i)
  }

  /** `strings.HasPrefix(s, prefix)` */
  predicate HasPrefix(s: string, prefix: string)
  {
    |prefix| <= |s| && s[..|prefix|] == prefix
  }

  /** The first occurrence of `sep` in `s` at or after `from`, or -1 when there is none. */
  function IndexFrom(s: string, sep: string, from: nat): (r: int)
    requires from <= |s|
    ensures r == -1 || (from <= r && OccursAt(s, sep, r))
    ensures forall j :: from <= j && (r == -1 || j < r) ==> !OccursAt(s, sep, j)
    decreases |s| - from
  {
    if from + |sep| > |s| then -1
    else if s[from..from + |sep|] == sep then from
    else IndexFrom(s, sep, from + 1)
  }

  /** `strings.Index(s, sep)`: the first occurrence of `sep` in `s`, or -1. */
  function Index(s: string, sep: string): (r: int)
    ensures r == -1 <==> !Contains(s, sep)
    ensures r != -1 ==> OccursAt(s, sep, r) && forall j :: 0 <= j < r ==> !OccursAt(s, sep, j)
  {
    IndexFrom(s, sep, 0)
  }

  /** A prefix of `s` that ends before the first occurrence of `sep` does not contain `sep`. */
  lemma PrefixBeforeFirstOccurrence(s: string, sep: string, m: int)
    requires |sep| > 0 && 0 <= m <= |s|
    requires forall j :: 0 <= j < m ==> !OccursAt(s, sep, j)
    ensures !Contains(s[..m], sep)
  {
    forall j | 0 <= j <= m
      ensures !OccursAt(s[..m], sep, j)
    {
      if j + |sep| <= m {
        assert s[..m][j..j + |sep|] == s[j..j + |sep|];
        assert !OccursAt(s, sep, j);
      }
    }
  }

  /**
   `strings.Split(s, sep)` for a non-empty separator: the pieces of `s`
   between successive non-overlapping occurrences of `sep`, found left to
   right. There is always at least one piece (`Split("", sep)` is `[""]`),
   and no piece contains the separator.
   */
  function Split(s: string, sep: string): (parts: seq<string>)
    requires |sep| > 0
    ensures |parts| >= 1
    ensures forall i :: 0 <= i < |parts| ==> !Contains(parts[i], sep)
    decreases |s|
  {
    var m := Index(s, sep);
    if m < 0 then [s]
    else
      PrefixBeforeFirstOccurrence(s, sep, m);
      [s[..m]] + Split(s[m + |sep|..], sep)
  }

  /** `strings.Join(parts, sep)` */
  function Join(parts: seq<string>, sep: string): string
  {
    if |parts| == 0 then ""
    else if |parts| == 1 then parts[0]
    else parts[0] + sep + Join(parts[1..], sep)
  }

  /** Splitting loses nothing: joining the pieces with the separator gives back the input. */
  lemma {:induction false} JoinSplit(s: string, sep: string)
    requires |sep| > 0
    ensures Join(Split(s, sep), sep) == s
    decreases |s|
  {
    var m := Index(s, sep);
    if m >= 0 {
      var rest := s[m + |sep|..];
      var tail := Split(rest, sep);
      assert Split(s, sep) == [s[..m]] + tail;
      assert ([s[..m]] + tail)[1..] == tail;
      JoinSplit(rest, sep);
      assert s[m..m + |sep|] == sep;
      assert s == s[..m] + s[m..m + |sep|] + rest;
    }
  }

  /** No proper prefix of `sep` is also a suffix of it, so two occurrences of `sep` never overlap. */
  predicate Borderless(sep: string)
  {
    forall n :: 0 < n < |sep| ==> !IsBorder(sep, n)
  }

  /** The prefix of `sep` of length `n` is also its suffix. */
  predicate IsBorder(sep: string, n: int)
    requires 0 <= n <= |sep|
  {
    sep[..n] == sep[|sep| - n..]
  }

  /** An occurrence of a borderless `sep` that starts before `a + sep + b` places its own `sep` lies inside `a`. */
  lemma NoStraddle(a: string, sep: string, b: string, j: int)
    requires |sep| > 0 && Borderless(sep)
    requires 0 <= j < |a| && OccursAt(a + sep + b, sep, j)
    ensures OccursAt(a, sep, j)
  {
    var s := a + sep + b;
    if j + |sep| > |a| {
      assert OccursAt(s, sep, |a|) by {
        assert s[|a|..|a| + |sep|] == sep;
      }
      OverlapIsBorder(s, sep, j, |a|);
      assert false;
    }
    assert s[j..j + |sep|] == a[j..j + |sep|];
  }

  /**
   Splitting inverts joining: when the separator cannot overlap itself and
   no piece contains it, `Split` recovers exactly the joined pieces.
   */
  lemma {:induction false} SplitJoin(parts: seq<string>, sep: string)
    requires |sep| > 0 && Borderless(sep)
    requires |parts| >= 1
    requires forall i :: 0 <= i < |parts| ==> !Contains(parts[i], sep)
    ensures Split(Join(parts, sep), sep) == parts
    decreases |parts|
  {
    var s := Join(parts, sep);
    if |parts| == 1 {
      assert Index(s, sep) == -1;
    } else {
      var a := parts[0];
      var b := Join(parts[1..], sep);
      assert s == a + sep + b;
      FirstOccurrenceAfterPiece(a, sep, b);
      assert s[..|a|] == a;
      assert s[|a| + |sep|..] == b;
      SplitJoin(parts[1..], sep);
    }
  }

  /** In `a + sep + b` with `a` free of a borderless `sep`, the first `sep` is the one after `a`. */
  lemma FirstOccurrenceAfterPiece(a: string, sep: string, b: string)
    requires |sep| > 0 && Borderless(sep)
    requires !Contains(a, sep)
    ensures Index(a + sep + b, sep) == |a|
  {
    var s := a + sep + b;
    assert OccursAt(s, sep, |a|) by {
      assert s[|a|..|a| + |sep|] == sep;
    }
    forall j | 0 <= j < |a|
      ensures !OccursAt(s, sep, j)
    {
      if OccursAt(s, sep, j) {
        NoStraddle(a, sep, b, j);
        assert Contains(a, sep);
      }
    }
  }

  /** Two occurrences of a borderless separator never overlap. */
  lemma OccurrencesApart(s: string, sep: string, i: int, j: int)
    requires |sep| > 0 && Borderless(sep)
    requires OccursAt(s, sep, i) && OccursAt(s, sep, j) && i < j
    ensures i + |sep| <= j
  {
    if j < i + |sep| {
      OverlapIsBorder(s, sep, i, j);
      assert false;
    }
  }

  /** Two overlapping occurrences of `sep` exhibit a prefix of `sep` that is also a suffix of it. */
  lemma OverlapIsBorder(s: string, sep: string, i: int, j: int)
    requires OccursAt(s, sep, i) && OccursAt(s, sep, j) && i < j < i + |sep|
    ensures 0 < i + |sep| - j < |sep| && IsBorder(sep, i + |sep| - j)
  {
  }

  /** When `s` contains `sep`, its first piece ends at the first occurrence and the rest is split again. */
  lemma SplitAtFirst(s: string, sep: string)
    requires |sep| > 0 && Contains(s, sep)
    ensures 0 <= Index(s, sep) && Index(s, sep) + |sep| <= |s|
    ensures Split(s, sep) == [s[..Index(s, sep)]] + Split(s[Index(s, sep) + |sep|..], sep)
  {
  }

  /**
   A string that ends in a borderless separator splits into pieces the last
   of which is empty (`strings.Split("a/CN=", "/CN=")` is `["a", ""]`).
   */
  lemma {:induction false} TrailingSeparatorGivesEmptyPiece(s: string, sep: string)
    requires |sep| > 0 && Borderless(sep)
    requires |sep| <= |s| && s[|s| - |sep|..] == sep
    ensures Split(s, sep)[|Split(s, sep)| - 1] == ""
    decreases |s|
  {
    var end := |s| - |sep|;
    assert OccursAt(s, sep, end);
    SplitAtFirst(s, sep);
    var m := Index(s, sep);
    var rest := s[m + |sep|..];
    var tail := Split(rest, sep);
    assert Split(s, sep) == [s[..m]] + tail;
    if m < end {
      OccurrencesApart(s, sep, m, end);
      assert rest[|rest| - |sep|..] == s[end..];
      TrailingSeparatorGivesEmptyPiece(rest, sep);
    } else {
      assert rest == "";
      assert tail == [""];
    }
  }
}
