/** Option and Result values, and the handful of Python string operations the
    reconciliation engine relies on (`in` on strings, `endswith`, `split(':')[-1]`,
    `replace`, `lower` on the missing-value sentinels, `str` of a counter). */
module Base {

  datatype Option<+T> = None | Some(value: T)

  datatype Result<+T, +E> = Ok(value: T) | Err(error: E)

  /** `pat` occurs in `s` starting at position `i`. */
  predicate MatchAt(s: string, i: nat, pat: string)
  {
    i + |pat| <= |s| && s[i..i + |pat|] == pat
  }

  /** Python's `sub in s` for strings. */
  predicate Contains(s: string, sub: string)
  {
    exists i: nat | i <= |s| :: MatchAt(s, i, sub)
  }

  /** Python's `s.endswith(suffix)`. */
  predicate EndsWith(s: string, suffix: string)
  {
    |suffix| <= |s| && s[|s| - |suffix|..] == suffix
  }

  /** Python's `str.lower()` on one character; only ASCII letters are folded. */
  function LowerChar(c: char): char
  {
    if 'A' <= c <= 'Z' then (c as int + 32) as char else c
  }

  /** Python's `str.lower()`, ASCII letters only. */
  function Lower(s: string): (r: string)
    ensures |r| == |s|
  {
    if s == [] then [] else [LowerChar(s[0])] + Lower(s[1..])
  }

  /** Python's `s.split(sep)[-1]` (and `s.rsplit(sep)[-1]`): the text after the
      last `sep`, or all of `s` when `sep` does not occur. */
  function LastSegment(s: string, sep: char): (r: string)
    ensures sep !in r
    ensures |r| <= |s| && r == s[|s| - |r|..]
    ensures sep !in s ==> r == s
    ensures |r| < |s| ==> s[|s| - |r| - 1] == sep
  {
    if s == [] then []
    else if s[|s| - 1] == sep then []
    else LastSegment(s[..|s| - 1], sep) + [s[|s| - 1]]
  }

  /** Python's `s.replace(pat, rep)` for a non-empty `pat`: every occurrence,
      scanning left to right without overlaps, is replaced by `rep`. */
  function Replace(s: string, pat: string, rep: string): string
    requires |pat| > 0
    decreases |s|
  {
    if |s| < |pat| then s
    else if s[..|pat|] == pat then rep + Replace(s[|pat|..], pat, rep)
    else [s[0]] + Replace(s[1..], pat, rep)
  }

  /** Decimal digits of `n`, as Python's `str(n)`. */
  function NatToString(n: nat): (r: string)
    ensures |r| > 0
    ensures forall i :: 0 <= i < |r| ==> '0' <= r[i] <= '9'
  {
    if n < 10 then [DigitChar(n)] else NatToString(n / 10) + [DigitChar(n % 10)]
  }

  function DigitChar(d: nat): (c: char)
    requires d < 10
    ensures '0' <= c <= '9'
  {
    ['0', '1', '2', '3', '4', '5', '6', '7', '8', '9'][d]
  }

  /** `"/".join(parts)`. */
  function JoinSlash(parts: seq<string>): string
  {
    if parts == [] then ""
    else if |parts| == 1 then parts[0]
    else parts[0] + "/" + JoinSlash(parts[1..])
  }

  /** Text that carries no occurrence of `pat` at any of its own positions is
      copied unchanged by `Replace`, and the scan resumes after it. */
  lemma {:induction false} ReplaceSkip(x: string, y: string, pat: string, rep: string)
    requires |pat| > 0
    requires forall i: nat :: i < |x| ==> !MatchAt(x + y, i, pat)
    ensures Replace(x + y, pat, rep) == x + Replace(y, pat, rep)
    decreases |x|
  {
    if x == [] {
      assert x + y == y;
    } else {
      var s := x + y;
      assert !MatchAt(s, 0, pat);
      if |s| < |pat| {
        ReplaceShort(y, pat, rep);
        ReplaceShort(s, pat, rep);
      } else {
        assert s[..|pat|] != pat;
        assert s[1..] == x[1..] + y;
        forall i: nat | i < |x[1..]|
          ensures !MatchAt(x[1..] + y, i, pat)
        {
          assert !MatchAt(s, i + 1, pat);
          MatchShift(s, i, pat);
        }
        ReplaceSkip(x[1..], y, pat, rep);
        assert Replace(s, pat, rep) == [s[0]] + Replace(s[1..], pat, rep);
        assert [s[0]] + x[1..] == x;
        assert [s[0]] + (x[1..] + Replace(y, pat, rep)) == x + Replace(y, pat, rep);
      }
    }
  }

  /** Matching in the tail of a string is matching one position further on. */
  lemma MatchShift(s: string, i: nat, pat: string)
    requires |s| > 0
    ensures MatchAt(s[1..], i, pat) <==> MatchAt(s, i + 1, pat)
  {
    if i + 1 + |pat| <= |s| {
      assert s[1..][i..i + |pat|] == s[i + 1..i + 1 + |pat|];
    }
  }

  /** A string shorter than the pattern is left as it is. */
  lemma ReplaceShort(s: string, pat: string, rep: string)
    requires 0 < |pat| && |s| < |pat|
    ensures Replace(s, pat, rep) == s
  {
  }

  /** An occurrence of the pattern at the front is replaced and the scan resumes
      after it. */
  lemma ReplaceHead(y: string, pat: string, rep: string)
    requires |pat| > 0
    ensures Replace(pat + y, pat, rep) == rep + Replace(y, pat, rep)
  {
    assert (pat + y)[..|pat|] == pat;
    assert (pat + y)[|pat|..] == y;
  }

  /** Each part preceded by `pre`. */
  function Prefixed(pre: string, parts: seq<string>): (r: seq<string>)
    ensures |r| == |parts|
    ensures forall k :: 0 <= k < |r| ==> r[k] == pre + parts[k]
  {
    seq(|parts|, k requires 0 <= k < |parts| => pre + parts[k])
  }

  /** A marker character of `pat` (its first occurrence in `pat`, at position `d`)
      that `x` lacks, and that the next `d` characters of `tail` lack, rules out
      any occurrence of `pat` starting inside `x`. */
  lemma MarkerBlocks(x: string, tail: string, pat: string, d: nat)
    requires d < |pat| && pat[d] !in pat[..d] && pat[d] !in x
    requires forall j :: 0 <= j < d && j < |tail| ==> tail[j] != pat[d]
    ensures forall i: nat :: i < |x| ==> !MatchAt(x + tail, i, pat)
  {
    var s := x + tail;
    forall i: nat | i < |x| ensures !MatchAt(s, i, pat) {
      if i + |pat| <= |s| {
        if i + d < |x| {
          assert s[i + d] == x[i + d];
        } else {
          assert s[i + d] == tail[i + d - |x|];
        }
        assert s[i..i + |pat|][d] == s[i + d] != pat[d];
      }
    }
  }

  /** Replacing a pattern that heads every `/`-separated step, and that cannot
      occur elsewhere (a marker character of it is absent from the rest of each
      step and is not `/`), swaps the head of every step and nothing else. */
  lemma {:induction false} ReplaceStepHeads(parts: seq<string>, pat: string, rep: string, d: nat)
    requires d < |pat| && pat[d] !in pat[..d] && pat[d] != '/'
    requires forall k :: 0 <= k < |parts| ==> pat[d] !in parts[k]
    ensures Replace(JoinSlash(Prefixed(pat, parts)), pat, rep) == JoinSlash(Prefixed(rep, parts))
    decreases |parts|
  {
    if |parts| == 1 {
      ReplaceHead(parts[0], pat, rep);
      MarkerBlocks(parts[0], [], pat, d);
      ReplaceSkip(parts[0], [], pat, rep);
      assert parts[0] + [] == parts[0];
      ReplaceShort([], pat, rep);
    } else if |parts| > 1 {
      var w := parts[0];
      var tail := JoinSlash(Prefixed(pat, parts[1..]));
      assert Prefixed(pat, parts)[1..] == Prefixed(pat, parts[1..]);
      assert Prefixed(rep, parts)[1..] == Prefixed(rep, parts[1..]);
      assert JoinSlash(Prefixed(pat, parts)) == pat + ((w + "/") + tail);
      JoinSlashHead(Prefixed(pat, parts[1..]), pat);
      ReplaceHead((w + "/") + tail, pat, rep);
      assert tail[..|pat|] == pat;
      MarkerBlocks(w + "/", tail, pat, d);
      ReplaceSkip(w + "/", tail, pat, rep);
      ReplaceStepHeads(parts[1..], pat, rep, d);
    }
  }

  /** A join of non-empty parts that all start with `pat` starts with `pat`. */
  lemma JoinSlashHead(parts: seq<string>, pat: string)
    requires |parts| > 0
    requires forall k :: 0 <= k < |parts| ==> |pat| <= |parts[k]| && parts[k][..|pat|] == pat
    ensures |pat| <= |JoinSlash(parts)| && JoinSlash(parts)[..|pat|] == pat
  {
    if |parts| > 1 {
      assert JoinSlash(parts)[..|pat|] == parts[0][..|pat|];
    }
  }

  /** The text after a separator that does not occur again is the last segment. */
  lemma {:induction false} LastSegmentAfter(x: string, y: string, sep: char)
    requires sep !in y
    ensures LastSegment(x + [sep] + y, sep) == y
    decreases |y|
  {
    var s := x + [sep] + y;
    if y != [] {
      assert s[..|s| - 1] == x + [sep] + y[..|y| - 1];
      LastSegmentAfter(x, y[..|y| - 1], sep);
      assert y[..|y| - 1] + [y[|y| - 1]] == y;
    }
  }

  /** A pattern with a character the string lacks does not occur in it. */
  lemma MissingChar(s: string, pat: string, c: char)
    requires c in pat && c !in s
    ensures !Contains(s, pat)
  {
    var k :| 0 <= k < |pat| && pat[k] == c;
    forall i: nat | i <= |s| ensures !MatchAt(s, i, pat) {
      if i + |pat| <= |s| {
        assert s[i..i + |pat|][k] == s[i + k];
      }
    }
  }

  /** A sequence is empty or holds its first element. */
  lemma EmptyOrHead<T>(a: seq<T>)
    ensures a == [] || a[0] in a
  {
  }

  /** Appending an optional element regroups: `acc + (opt + rest) == (acc + opt) + rest`. */
  lemma AppendRegroup<T>(acc: seq<T>, opt: seq<T>, rest: seq<T>)
    ensures acc + (opt + rest) == (acc + opt) + rest
  {
  }
}
