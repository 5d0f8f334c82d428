/**
 The Python string operations the tracker relies on, over `string` (= `seq<char>`):
 `str.strip()` with no argument, `str.find`, `str.split(sep)` and `str.join`.
 */
module Text {
  import opened Wrappers

  /**
   The characters Python's `str.strip()` removes, those for which `str.isspace()` holds: the
   controls 0x09-0x0d and 0x1c-0x1f, the space, 0x85, 0xa0, 0x1680, 0x2000-0x200a, 0x2028,
   0x2029, 0x202f, 0x205f and 0x3000.
   */
  predicate IsSpace(c: char) {
    || '\t' <= c <= '\r'
    || '\U{1c}' <= c <= ' '
    || c == '\U{85}' || c == '\U{a0}' || c == '\U{1680}'
    || '\U{2000}' <= c <= '\U{200a}'
    || c == '\U{2028}' || c == '\U{2029}' || c == '\U{202f}' || c == '\U{205f}' || c == '\U{3000}'
  }

  predicate AllSpace(s: string) {
    forall k | 0 <= k < |s| :: IsSpace(s[k])
  }

  /** The first index at or after `i` that does not hold whitespace, or `|s|`. */
  function SkipSpace(s: string, i: nat): (r: nat)
    requires i <= |s|
    ensures i <= r <= |s|
    ensures forall k | i <= k < r :: IsSpace(s[k])
    ensures r == |s| || !IsSpace(s[r])
    decreases |s| - i
  {
    if i < |s| && IsSpace(s[i]) then SkipSpace(s, i + 1) else i
  }

  /** The least `r` with `lo <= r <= j` such that `s[r..j]` is all whitespace. */
  function SkipSpaceBack(s: string, lo: nat, j: nat): (r: nat)
    requires lo <= j <= |s|
    ensures lo <= r <= j
    ensures forall k | r <= k < j :: IsSpace(s[k])
    ensures r == lo || !IsSpace(s[r - 1])
    decreases j
  {
    if lo < j && IsSpace(s[j - 1]) then SkipSpaceBack(s, lo, j - 1) else j
  }

  /** `r` is what remains of `s` once whitespace is removed from both ends. */
  ghost predicate StrippedFrom(s: string, r: string) {
    exists i :: StrippedAt(s, r, i)
  }

  /** `r` is the slice of `s` starting at `i`, with nothing but whitespace around it. */
  ghost predicate StrippedAt(s: string, r: string, i: int) {
    0 <= i <= |s| - |r| && r == s[i..i + |r|] && AllSpace(s[..i]) && AllSpace(s[i + |r|..])
  }

  /**
   Python's `s.strip()`: the slice of `s` left after removing whitespace at both ends.
   The result is empty exactly when `s` is all whitespace.
   */
  function Strip(s: string): (r: string)
    ensures StrippedFrom(s, r)
    ensures r == [] || (!IsSpace(r[0]) && !IsSpace(r[|r| - 1]))
    ensures r == [] <==> AllSpace(s)
  {
    var a := SkipSpace(s, 0);
    var b := SkipSpaceBack(s, a, |s|);
    StripAt(s, a, b);
    StripEmpty(s, a, b);
    s[a..b]
  }

  lemma StripAt(s: string, a: nat, b: nat)
    requires a <= |s| && a == SkipSpace(s, 0) && b == SkipSpaceBack(s, a, |s|)
    ensures StrippedAt(s, s[a..b], a)
  {
    assert s[a..b] == s[a..a + |s[a..b]|];
    forall k | 0 <= k < a
      ensures IsSpace(s[..a][k])
    {
      assert s[..a][k] == s[k];
    }
    forall k | 0 <= k < |s| - b
      ensures IsSpace(s[b..][k])
    {
      assert s[b..][k] == s[b + k];
    }
  }

  lemma StripEmpty(s: string, a: nat, b: nat)
    requires a <= |s| && a == SkipSpace(s, 0) && b == SkipSpaceBack(s, a, |s|)
    ensures a == b <==> AllSpace(s)
  {
    if a == b {
      forall k | 0 <= k < |s|
        ensures IsSpace(s[k])
      {
        if k < a {
          assert IsSpace(s[k]);
        }
      }
    } else {
      assert !IsSpace(s[a]);
    }
  }

  /** Stripping twice changes nothing more than stripping once. */
  lemma StripIdempotent(s: string)
    ensures Strip(Strip(s)) == Strip(s)
  {
    var r := Strip(s);
    assert SkipSpace(r, 0) == 0;
    assert SkipSpaceBack(r, 0, |r|) == |r|;
    assert r[0..|r|] == r;
  }

  predicate StartsWith(s: string, prefix: string) {
    |prefix| <= |s| && s[..|prefix|] == prefix
  }

  /** `sep` occurs in `s` starting at index `i`. */
  predicate Occurs(s: string, sep: string, i: int) {
    0 <= i && i + |sep| <= |s| && s[i..i + |sep|] == sep
  }

  ghost predicate Contains(s: string, sep: string) {
    exists i :: Occurs(s, sep, i)
  }

  /** Python's `s.find(sep, start)`: the first index at or after `start` where `sep` occurs. */
  function FindFrom(s: string, sep: string, start: nat): (r: Option<nat>)
    ensures r.Some? ==> start <= r.value && r.value + |sep| <= |s|
    decreases |s| - start
  {
    if start + |sep| > |s| then None
    else if s[start..start + |sep|] == sep then Some(start)
    else FindFrom(s, sep, start + 1)
  }

  /** What `find` reports is an occurrence. */
  lemma {:induction false} FindFromFound(s: string, sep: string, start: nat)
    ensures FindFrom(s, sep, start).Some? ==> Occurs(s, sep, FindFrom(s, sep, start).value)
    decreases |s| - start
  {
    if start + |sep| <= |s| && s[start..start + |sep|] != sep {
      FindFromFound(s, sep, start + 1);
    }
  }

  /** `find` reports the first occurrence at or after `start`, and reports none only when there is none. */
  lemma {:induction false} FindFromFirst(s: string, sep: string, start: nat)
    ensures FindFrom(s, sep, start).Some? ==> Occurs(s, sep, FindFrom(s, sep, start).value)
    ensures FindFrom(s, sep, start).Some? ==>
      forall j :: start <= j < FindFrom(s, sep, start).value ==> !Occurs(s, sep, j)
    ensures FindFrom(s, sep, start).None? ==> forall j :: start <= j ==> !Occurs(s, sep, j)
    decreases |s| - start
  {
    if start + |sep| > |s| {
    } else if s[start..start + |sep|] == sep {
    } else {
      FindFromFirst(s, sep, start + 1);
    }
  }

  /** Python's `sep.join(pieces)`. */
  function Join(pieces: seq<string>, sep: string): string
    decreases |pieces|
  {
    if |pieces| == 0 then []
    else if |pieces| == 1 then pieces[0]
    else pieces[0] + sep + Join(pieces[1..], sep)
  }

  /** An occurrence inside the slice `s[a..b]` is an occurrence in `s` that ends by `b`. */
  lemma OccursInSlice(s: string, sep: string, a: nat, b: nat, j: int)
    requires a <= b <= |s| && Occurs(s[a..b], sep, j)
    ensures Occurs(s, sep, a + j) && a + j + |sep| <= b
  {
    forall k | 0 <= k < |sep|
      ensures s[a + j..a + j + |sep|][k] == sep[k]
    {
      assert s[a..b][j..j + |sep|][k] == sep[k];
    }
  }

  /** An occurrence inside the suffix `s[a..]` is an occurrence in `s`. */
  lemma OccursInSuffix(s: string, sep: string, a: nat, j: int)
    requires a <= |s| && Occurs(s[a..], sep, j)
    ensures Occurs(s, sep, a + j)
  {
    assert s[a..] == s[a..|s|];
    OccursInSlice(s, sep, a, |s|, j);
  }

  /** An occurrence in `s` at or after `a` is an occurrence in the suffix `s[a..]`. */
  lemma OccursShifted(s: string, sep: string, a: nat, i: int)
    requires a <= i && Occurs(s, sep, i)
    ensures Occurs(s[a..], sep, i - a)
  {
    assert s[a..][i - a..i - a + |sep|] == s[i..i + |sep|];
  }

  /** The pieces of `s[start..]` cut at the separators found scanning left to right from `start`. */
  function SplitFrom(s: string, sep: string, start: nat): (r: seq<string>)
    requires |sep| > 0 && start <= |s|
    ensures |r| >= 1
    decreases |s| - start
  {
    match FindFrom(s, sep, start)
    case None => [s[start..]]
    case Some(i) => [s[start..i]] + SplitFrom(s, sep, i + |sep|)
  }

  /** Python's `s.split(sep)`: never empty, and a single piece, `s` itself, when `sep` does not occur. */
  function Split(s: string, sep: string): (r: seq<string>)
    requires |sep| > 0
    ensures |r| >= 1
    ensures !Contains(s, sep) ==> r == [s]
  {
    FindFromFirst(s, sep, 0);
    assert s[0..] == s;
    SplitFrom(s, sep, 0)
  }

  lemma {:induction false} SplitFromJoin(s: string, sep: string, start: nat)
    requires |sep| > 0 && start <= |s|
    ensures Join(SplitFrom(s, sep, start), sep) == s[start..]
    decreases |s| - start
  {
    match FindFrom(s, sep, start)
    case None =>
      assert SplitFrom(s, sep, start) == [s[start..]];
    case Some(i) =>
      var j := i + |sep|;
      var rest := SplitFrom(s, sep, j);
      assert SplitFrom(s, sep, start) == [s[start..i]] + rest;
      FindFromFound(s, sep, start);
      SplitFromJoin(s, sep, j);
      JoinCons(s[start..i], rest, sep);
      SliceAround(s, start, i, j);
  }

  /** Cutting `s[a..]` at `i` and `j` and gluing the three parts back gives it again. */
  lemma SliceAround(s: string, a: nat, i: nat, j: nat)
    requires a <= i <= j <= |s|
    ensures s[a..] == s[a..i] + s[i..j] + s[j..]
  {
  }

  lemma JoinCons(first: string, rest: seq<string>, sep: string)
    requires |rest| >= 1
    ensures Join([first] + rest, sep) == first + sep + Join(rest, sep)
  {
    assert ([first] + rest)[1..] == rest;
  }

  /** Joining the pieces of a split with the separator gives back the original text. */
  lemma SplitJoin(s: string, sep: string)
    requires |sep| > 0
    ensures Join(Split(s, sep), sep) == s
  {
    SplitFromJoin(s, sep, 0);
  }

  lemma {:induction false} SplitFromPiecesFree(s: string, sep: string, start: nat)
    requires |sep| > 0 && start <= |s|
    ensures forall k | 0 <= k < |SplitFrom(s, sep, start)| :: !Contains(SplitFrom(s, sep, start)[k], sep)
    decreases |s| - start
  {
    var r := SplitFrom(s, sep, start);
    FindFromFirst(s, sep, start);
    match FindFrom(s, sep, start)
    case None =>
      assert r == [s[start..]];
      forall j | Occurs(s[start..], sep, j)
        ensures false
      {
        OccursInSuffix(s, sep, start, j);
      }
    case Some(i) =>
      var rest := SplitFrom(s, sep, i + |sep|);
      assert r == [s[start..i]] + rest;
      SplitFromPiecesFree(s, sep, i + |sep|);
      forall j | Occurs(s[start..i], sep, j)
        ensures false
      {
        OccursInSlice(s, sep, start, i, j);
      }
      forall k | 0 <= k < |r|
        ensures !Contains(r[k], sep)
      {
        if k > 0 {
          assert r[k] == rest[k - 1];
        }
      }
  }

  /** No piece of a split contains the separator. */
  lemma SplitPiecesFree(s: string, sep: string)
    requires |sep| > 0
    ensures forall k | 0 <= k < |Split(s, sep)| :: !Contains(Split(s, sep)[k], sep)
  {
    SplitFromPiecesFree(s, sep, 0);
  }

  /**
   Where the last piece of `s[start..]` begins: right after the last separator the left-to-right
   scan finds, or `start` when it finds none.
   */
  function LastStart(s: string, sep: string, start: nat): (r: nat)
    requires |sep| > 0 && start <= |s|
    ensures start <= r <= |s|
    decreases |s| - start
  {
    match FindFrom(s, sep, start)
    case None => start
    case Some(i) => LastStart(s, sep, i + |sep|)
  }

  /** No separator starts at or after the start of the last piece. */
  lemma {:induction false} LastStartAfterLast(s: string, sep: string, start: nat)
    requires |sep| > 0 && start <= |s|
    ensures forall j :: LastStart(s, sep, start) <= j ==> !Occurs(s, sep, j)
    decreases |s| - start
  {
    FindFromFirst(s, sep, start);
    match FindFrom(s, sep, start)
    case None =>
      assert LastStart(s, sep, start) == start;
    case Some(i) =>
      assert LastStart(s, sep, start) == LastStart(s, sep, i + |sep|);
      LastStartAfterLast(s, sep, i + |sep|);
  }

  /** The last piece starts at `start` exactly when no separator starts at or after `start`. */
  lemma LastStartStays(s: string, sep: string, start: nat)
    requires |sep| > 0 && start <= |s|
    ensures LastStart(s, sep, start) == start <==> forall j :: start <= j ==> !Occurs(s, sep, j)
  {
    FindFromFirst(s, sep, start);
    match FindFrom(s, sep, start)
    case None =>
    case Some(i) =>
      assert LastStart(s, sep, start) == LastStart(s, sep, i + |sep|) >= i + |sep|;
      assert Occurs(s, sep, i);
  }

  /** When the last piece starts later than `start`, a separator ends right where it starts. */
  lemma {:induction false} LastStartPreceded(s: string, sep: string, start: nat)
    requires |sep| > 0 && start <= |s|
    ensures LastStart(s, sep, start) > start ==>
      LastStart(s, sep, start) >= |sep| && Occurs(s, sep, LastStart(s, sep, start) - |sep|)
    decreases |s| - start
  {
    FindFromFound(s, sep, start);
    match FindFrom(s, sep, start)
    case None =>
    case Some(i) =>
      var k := LastStart(s, sep, i + |sep|);
      assert LastStart(s, sep, start) == k;
      if k > i + |sep| {
        LastStartPreceded(s, sep, i + |sep|);
      } else {
        assert k - |sep| == i;
      }
  }

  lemma {:induction false} LastStartOfSplit(s: string, sep: string, start: nat)
    requires |sep| > 0 && start <= |s|
    ensures SplitFrom(s, sep, start)[|SplitFrom(s, sep, start)| - 1] == s[LastStart(s, sep, start)..]
    decreases |s| - start
  {
    match FindFrom(s, sep, start)
    case None =>
      assert SplitFrom(s, sep, start) == [s[start..]];
    case Some(i) =>
      var rest := SplitFrom(s, sep, i + |sep|);
      assert SplitFrom(s, sep, start) == [s[start..i]] + rest;
      assert LastStart(s, sep, start) == LastStart(s, sep, i + |sep|);
      LastStartOfSplit(s, sep, i + |sep|);
  }

  /**
   Python's `s.split(sep)[-1]`: the last piece of the split. It is a suffix of `s` holding no
   separator, and it is all of `s` exactly when `sep` does not occur.
   */
  function LastPiece(s: string, sep: string): (r: string)
    requires |sep| > 0
    ensures r == Split(s, sep)[|Split(s, sep)| - 1]
    ensures |r| <= |s| && r == s[|s| - |r|..]
    ensures !Contains(r, sep)
    ensures |r| == |s| <==> !Contains(s, sep)
  {
    LastStartOfSplit(s, sep, 0);
    LastStartSuffix(s, sep);
    LastStartFree(s, sep);
    LastStartWhole(s, sep);
    s[LastStart(s, sep, 0)..]
  }

  lemma LastStartSuffix(s: string, sep: string)
    requires |sep| > 0
    ensures var r := s[LastStart(s, sep, 0)..]; |r| <= |s| && r == s[|s| - |r|..]
  {
  }

  lemma LastStartFree(s: string, sep: string)
    requires |sep| > 0
    ensures !Contains(s[LastStart(s, sep, 0)..], sep)
  {
    var k := LastStart(s, sep, 0);
    LastStartAfterLast(s, sep, 0);
    forall j | Occurs(s[k..], sep, j)
      ensures false
    {
      OccursInSuffix(s, sep, k, j);
    }
  }

  lemma LastStartWhole(s: string, sep: string)
    requires |sep| > 0
    ensures |s[LastStart(s, sep, 0)..]| == |s| <==> !Contains(s, sep)
  {
    LastStartStays(s, sep, 0);
  }

  /** Without a separator the last piece is the whole text. */
  lemma LastPieceWhole(s: string, sep: string)
    requires |sep| > 0
    ensures !Contains(s, sep) ==> LastPiece(s, sep) == s
  {
    var r := LastPiece(s, sep);
    assert |r| == |s| ==> r == s[0..];
  }

  /** Unless the last piece is all of `s`, a separator ends exactly where the last piece begins. */
  lemma LastPiecePreceded(s: string, sep: string)
    requires |sep| > 0 && |LastPiece(s, sep)| < |s|
    ensures Occurs(s, sep, |s| - |LastPiece(s, sep)| - |sep|)
  {
    LastStartPreceded(s, sep, 0);
  }

  /** `k` is the length of a border of `sep`: its first `k` characters equal its last `k`. */
  predicate BorderAt(sep: string, k: nat)
    requires k <= |sep|
  {
    sep[..k] == sep[|sep| - k..]
  }

  /** No non-empty proper prefix of `sep` is also a suffix of it, so two occurrences never overlap. */
  predicate Unbordered(sep: string) {
    forall k: nat | 0 < k < |sep| :: !BorderAt(sep, k)
  }

  /** Where two occurrences of `sep` overlap, the overlap is a border of `sep`. */
  lemma OverlapIsBorder(s: string, sep: string, i: int, q: int)
    requires Occurs(s, sep, i) && Occurs(s, sep, q) && i < q < i + |sep|
    ensures BorderAt(sep, i + |sep| - q)
  {
    var n := i + |sep| - q;
    forall k | 0 <= k < n
      ensures sep[..n][k] == sep[q - i..][k]
    {
      assert s[q..q + |sep|][k] == s[q + k];
      assert s[i..i + |sep|][q - i + k] == s[q + k];
    }
    assert sep[..n] == sep[q - i..];
  }

  /** Two occurrences of an unbordered separator never overlap. */
  lemma NoOverlap(s: string, sep: string, i: int, q: int)
    requires |sep| > 0 && Unbordered(sep)
    requires Occurs(s, sep, i) && Occurs(s, sep, q) && i < q
    ensures i + |sep| <= q
  {
    if i + |sep| > q {
      OverlapIsBorder(s, sep, i, q);
      assert false;
    }
  }

  /**
   For a separator whose occurrences cannot overlap, the last piece of a split is exactly the
   text after the rightmost occurrence.
   */
  lemma LastPieceAfter(p: string, sep: string, t: string)
    requires |sep| > 0 && Unbordered(sep)
    requires !Contains(t, sep)
    ensures LastPiece(p + sep + t, sep) == t
  {
    var s := p + sep + t;
    var q := |p| + |sep|;
    assert s[|p|..q] == sep;
    assert Occurs(s, sep, |p|);
    assert s[q..] == t;
    var k := LastStart(s, sep, 0);
    LastStartAfterLast(s, sep, 0);
    LastStartPreceded(s, sep, 0);
    var o := k - |sep|;
    if o < |p| {
      NoOverlap(s, sep, o, |p|);
      assert false;
    } else if o > |p| {
      NoOverlap(s, sep, |p|, o);
      OccursShifted(s, sep, q, o);
      assert false;
    }
  }
}
