/**
 * `normalizeURLs`: the list of redirect targets the worker reads from its
 * `URL` setting. Line breaks and `|` both separate entries; empty entries
 * are dropped and only the first copy of a repeated entry is kept.
 *
 * The model follows the source's three steps (collapse line-break runs to
 * `|`, collapse `|` runs, split on `|` and filter with `indexOf`) and proves
 * them equal to a reference definition: the non-empty fields between
 * separators, with repeats removed.
 */
module Redirect {
  import opened Strings

  predicate IsNewline(c: char) {
    c == '\r' || c == '\n'
  }

  predicate IsPipe(c: char) {
    c == '|'
  }

  /** Any character that separates two entries. */
  predicate IsEntrySep(c: char) {
    c == '\r' || c == '\n' || c == '|'
  }

  /** What is left of `s` after its leading run of `p` characters. */
  function DropRun(s: string, p: char -> bool): (r: string)
    ensures |r| <= |s| && r == s[|s| - |r|..]
    ensures forall i :: 0 <= i < |s| - |r| ==> p(s[i])
    ensures |r| > 0 ==> !p(r[0])
  {
    if |s| > 0 && p(s[0]) then DropRun(s[1..], p) else s
  }

  /** `s.replace(/[...]+/g, c)`: each maximal run of `p` characters becomes one `c`. */
  function ReplaceRuns(s: string, p: char -> bool, c: char): string
    decreases |s|
  {
    if |s| == 0 then ""
    else if p(s[0]) then [c] + ReplaceRuns(DropRun(s, p), p, c)
    else [s[0]] + ReplaceRuns(s[1..], p, c)
  }

  /** `xs.indexOf(x)` for an `x` that occurs in `xs`: its first index. */
  function IndexIn(xs: seq<string>, x: string): (i: nat)
    requires x in xs
    ensures i < |xs| && xs[i] == x
    ensures forall j :: 0 <= j < i ==> xs[j] != x
  {
    if xs[0] == x then 0 else 1 + IndexIn(xs[1..], x)
  }

  /**
   * The `filter` callback over the first `n` items of `arr`: keep an item
   * when it is non-empty and `indexOf` finds it at its own position.
   */
  function KeepFirstNonEmpty(arr: seq<string>, n: nat): seq<string>
    requires n <= |arr|
  {
    if n == 0 then []
    else
      var item := arr[n - 1];
      KeepFirstNonEmpty(arr, n - 1) + (if item != "" && IndexIn(arr, item) == n - 1 then [item] else [])
  }

  /** `normalizeURLs(content)` as the source computes it. */
  function NormalizeUrls(content: string): seq<string> {
    var replaced := ReplaceRuns(ReplaceRuns(content, IsNewline, '|'), IsPipe, '|');
    var arr := SplitOn(replaced, '|');
    KeepFirstNonEmpty(arr, |arr|)
  }

  // ---------------------------------------------------------------------------
  // The reference definition

  /** The fields of `s` between entry separators, empty ones included. */
  function Fields(s: string): (r: seq<string>)
    ensures |r| >= 1
  {
    SplitAny(s, IsEntrySep)
  }

  /** The non-empty strings of `xs`, in order. */
  function NonEmpty(xs: seq<string>): (r: seq<string>)
    ensures forall x :: x in r <==> x in xs && x != ""
  {
    if |xs| == 0 then []
    else (if xs[0] == "" then [] else [xs[0]]) + NonEmpty(xs[1..])
  }

  /** `xs` without repeats: each string stays where it first occurs. */
  function Dedup(xs: seq<string>): seq<string> {
    if |xs| == 0 then []
    else
      var init := xs[..|xs| - 1];
      var last := xs[|xs| - 1];
      Dedup(init) + (if last in init then [] else [last])
  }

  /** The entries of the setting: its non-empty fields. */
  function Entries(content: string): seq<string> {
    NonEmpty(Fields(content))
  }

  // ---------------------------------------------------------------------------
  // Properties of the reference

  lemma {:induction false} NonEmptyConcat(a: seq<string>, b: seq<string>)
    ensures NonEmpty(a + b) == NonEmpty(a) + NonEmpty(b)
  {
    if |a| > 0 {
      assert (a + b)[0] == a[0];
      assert (a + b)[1..] == a[1..] + b;
      NonEmptyConcat(a[1..], b);
    } else {
      assert a + b == b;
    }
  }

  /**
   * Removing repeats keeps every string, keeps each once, and keeps them in
   * the order of their first occurrences.
   */
  lemma {:induction false} DedupSpec(xs: seq<string>)
    ensures forall x :: x in Dedup(xs) <==> x in xs
    ensures forall i, j :: 0 <= i < j < |Dedup(xs)| ==> Dedup(xs)[i] != Dedup(xs)[j]
    ensures forall i, j :: 0 <= i < j < |Dedup(xs)| ==>
      IndexIn(xs, Dedup(xs)[i]) < IndexIn(xs, Dedup(xs)[j])
  {
    if |xs| > 0 {
      var init := xs[..|xs| - 1];
      var last := xs[|xs| - 1];
      assert xs == init + [last];
      DedupSpec(init);
      var d := Dedup(xs);
      var d0 := Dedup(init);
      forall y | y in init
        ensures IndexIn(xs, y) == IndexIn(init, y)
      {
        IndexInSnoc(init, last, y);
      }
      if last !in init {
        assert d == d0 + [last];
        assert IndexIn(xs, last) == |init| by {
          IndexInLast(init, last);
        }
        forall i, j | 0 <= i < j < |d|
          ensures d[i] != d[j]
          ensures IndexIn(xs, d[i]) < IndexIn(xs, d[j])
        {
          assert d[i] == d0[i];
          assert d[i] in init;
          if j == |d| - 1 {
            assert d[j] == last;
          } else {
            assert d[j] == d0[j];
          }
        }
      } else {
        assert d == d0;
      }
    }
  }

  lemma {:induction false} IndexInSnoc(xs: seq<string>, z: string, y: string)
    requires y in xs
    ensures IndexIn(xs + [z], y) == IndexIn(xs, y)
  {
    if xs[0] != y {
      assert (xs + [z])[1..] == xs[1..] + [z];
      IndexInSnoc(xs[1..], z, y);
    }
  }

  lemma {:induction false} IndexInLast(xs: seq<string>, z: string)
    requires z !in xs
    ensures IndexIn(xs + [z], z) == |xs|
  {
  }

  // ---------------------------------------------------------------------------
  // The source's steps agree with the reference

  /** Every character of the replacement is `c` or a non-`p` character of `s`. */
  lemma {:induction false} ReplaceRunsChars(s: string, p: char -> bool, c: char)
    ensures forall x :: x in ReplaceRuns(s, p, c) ==> x == c || (x in s && !p(x))
    decreases |s|
  {
    if |s| > 0 {
      if p(s[0]) {
        var d := DropRun(s, p);
        ReplaceRunsChars(d, p, c);
        SuffixMembers(s, d);
      } else {
        ReplaceRunsChars(s[1..], p, c);
        SuffixMembers(s, s[1..]);
      }
    }
  }

  lemma {:induction false} SuffixMembers(s: string, d: string)
    requires |d| <= |s| && d == s[|s| - |d|..]
    ensures forall x :: x in d ==> x in s
  {
    forall x | x in d
      ensures x in s
    {
      var k :| 0 <= k < |d| && d[k] == x;
      assert s[|s| - |d| + k] == x;
    }
  }

  /** Leading separators only add empty fields. */
  lemma {:induction false} SkipSeparators(q: string, d: string)
    requires forall i :: 0 <= i < |q| ==> IsEntrySep(q[i])
    ensures NonEmpty(Fields(q + d)) == NonEmpty(Fields(d))
  {
    if |q| > 0 {
      assert (q + d)[1..] == q[1..] + d;
      SkipSeparators(q[1..], d);
    } else {
      assert q + d == d;
    }
  }

  lemma {:induction false} SplitBeforeSuffix(t: string, d: string)
    requires |d| <= |t| && d == t[|t| - |d|..]
    ensures t == t[..|t| - |d|] + d
  {
  }

  /** The non-empty fields are the first one, if non-empty, then the rest. */
  lemma {:induction false} NonEmptyFields(s: string)
    ensures NonEmpty(Fields(s)) == NonEmpty([Fields(s)[0]]) + NonEmpty(Fields(s)[1..])
  {
    assert Fields(s) == [Fields(s)[0]] + Fields(s)[1..];
    NonEmptyConcat([Fields(s)[0]], Fields(s)[1..]);
  }

  /**
   * Collapsing each run of `p` characters, all of them separators, into one
   * separator `c` keeps the first field and the non-empty later fields.
   */
  lemma {:induction false} ReplaceRunsFields(s: string, p: char -> bool, c: char)
    requires forall x :: p(x) ==> IsEntrySep(x)
    requires IsEntrySep(c)
    ensures Fields(ReplaceRuns(s, p, c))[0] == Fields(s)[0]
    ensures NonEmpty(Fields(ReplaceRuns(s, p, c))[1..]) == NonEmpty(Fields(s)[1..])
    decreases |s|
  {
    if |s| > 0 {
      var r := ReplaceRuns(s, p, c);
      assert r[1..] == ReplaceRuns(if p(s[0]) then DropRun(s, p) else s[1..], p, c);
      if p(s[0]) {
        var d := DropRun(s, p);
        var rd := ReplaceRuns(d, p, c);
        ReplaceRunsFields(d, p, c);
        assert Fields(r) == [""] + Fields(rd);
        assert Fields(s) == [""] + Fields(s[1..]);
        NonEmptyFields(rd);
        NonEmptyFields(d);
        var q := s[1..][..|s| - 1 - |d|];
        SplitBeforeSuffix(s[1..], d);
        SkipSeparators(q, d);
      } else if IsEntrySep(s[0]) {
        ReplaceRunsFields(s[1..], p, c);
        assert Fields(r) == [""] + Fields(ReplaceRuns(s[1..], p, c));
        assert Fields(s) == [""] + Fields(s[1..]);
        NonEmptyFields(ReplaceRuns(s[1..], p, c));
        NonEmptyFields(s[1..]);
      } else {
        ReplaceRunsFields(s[1..], p, c);
      }
    }
  }

  /** Collapsing separator runs keeps the entries. */
  lemma {:induction false} ReplaceRunsEntries(s: string, p: char -> bool, c: char)
    requires forall x :: p(x) ==> IsEntrySep(x)
    requires IsEntrySep(c)
    ensures Entries(ReplaceRuns(s, p, c)) == Entries(s)
  {
    ReplaceRunsFields(s, p, c);
    NonEmptyFields(s);
    NonEmptyFields(ReplaceRuns(s, p, c));
  }

  /** The last item of a prefix is at its first index iff it does not occur before. */
  lemma {:induction false} FirstAt(arr: seq<string>, n: nat)
    requires 0 < n <= |arr|
    ensures IndexIn(arr, arr[n - 1]) == n - 1 <==> arr[n - 1] !in arr[..n - 1]
  {
    var item := arr[n - 1];
    var i := IndexIn(arr, item);
    if item in arr[..n - 1] {
      var k :| 0 <= k < n - 1 && arr[..n - 1][k] == item;
      assert arr[k] == item;
    }
  }

  /** A non-empty string occurs among the non-empty strings iff it occurs at all. */
  lemma {:induction false} KeepStep(arr: seq<string>, n: nat)
    requires 0 < n <= |arr|
    ensures arr[n - 1] != "" ==>
      (IndexIn(arr, arr[n - 1]) == n - 1 <==> arr[n - 1] !in NonEmpty(arr[..n - 1]))
  {
    FirstAt(arr, n);
    var item := arr[n - 1];
    assert item in NonEmpty(arr[..n - 1]) <==> item in arr[..n - 1] && item != "";
  }

  lemma {:induction false} PrefixSnoc(arr: seq<string>, n: nat)
    requires 0 < n <= |arr|
    ensures arr[..n] == arr[..n - 1] + [arr[n - 1]]
  {
  }

  /** The `indexOf` filter removes empties and repeats of a prefix. */
  lemma {:induction false} KeepFirstNonEmptyIsDedup(arr: seq<string>, n: nat)
    requires n <= |arr|
    ensures KeepFirstNonEmpty(arr, n) == Dedup(NonEmpty(arr[..n]))
  {
    if n > 0 {
      KeepFirstNonEmptyIsDedup(arr, n - 1);
      KeepStep(arr, n);
      PrefixSnoc(arr, n);
      var item := arr[n - 1];
      var ys := NonEmpty(arr[..n - 1]);
      NonEmptyConcat(arr[..n - 1], [item]);
      assert NonEmpty([item]) == (if item == "" then [] else [item]);
      if item != "" {
        var zs := ys + [item];
        assert zs[..|zs| - 1] == ys;
      } else {
        assert NonEmpty(arr[..n]) == ys;
      }
    }
  }

  /**
   * `normalizeURLs` computes the reference: the non-empty fields of the
   * setting between line breaks and `|`, each kept once, at its first
   * occurrence.
   */
  lemma {:induction false} NormalizeUrlsIsDedupEntries(content: string)
    ensures NormalizeUrls(content) == Dedup(Entries(content))
  {
    var t1 := ReplaceRuns(content, IsNewline, '|');
    var t2 := ReplaceRuns(t1, IsPipe, '|');
    ReplaceRunsEntries(content, IsNewline, '|');
    ReplaceRunsEntries(t1, IsPipe, '|');
    ReplaceRunsChars(content, IsNewline, '|');
    ReplaceRunsChars(t1, IsPipe, '|');
    forall i | 0 <= i < |t2|
      ensures IsEntrySep(t2[i]) <==> t2[i] == '|'
    {
      if t2[i] != '|' {
        assert t2[i] in t1;
      }
    }
    SplitOnAgrees(t2, '|', IsEntrySep);
    var arr := SplitOn(t2, '|');
    KeepFirstNonEmptyIsDedup(arr, |arr|);
    assert arr[..|arr|] == arr;
  }

  /**
   * The list of redirect targets holds no empty entry and no repeat; a
   * string is in it iff it is a non-empty field of the setting; and the
   * targets appear in the order of their first occurrence there.
   */
  lemma {:induction false} NormalizeUrlsSpec(content: string)
    ensures forall i :: 0 <= i < |NormalizeUrls(content)| ==> NormalizeUrls(content)[i] != ""
    ensures forall i, j :: 0 <= i < j < |NormalizeUrls(content)| ==>
      NormalizeUrls(content)[i] != NormalizeUrls(content)[j]
    ensures forall x :: x in NormalizeUrls(content) <==> x in Fields(content) && x != ""
    ensures forall i, j :: 0 <= i < j < |NormalizeUrls(content)| ==>
      IndexIn(Entries(content), NormalizeUrls(content)[i]) < IndexIn(Entries(content), NormalizeUrls(content)[j])
  {
    NormalizeUrlsIsDedupEntries(content);
    DedupSpec(Entries(content));
    var r := NormalizeUrls(content);
    forall i | 0 <= i < |r|
      ensures r[i] != ""
    {
      assert r[i] in Entries(content);
    }
  }
}
