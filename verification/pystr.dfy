/** The handful of Python `str` operations the report pipeline is built from,
    written out on `seq<char>`: `find`, `rfind`, `in`, `split`, `join`,
    `strip`, `lower`, and slicing with Python's clamping rules. */
module PyStr {

  /** `p` occurs in `s` starting at index `i`. */
  predicate OccursAt(s: string, p: string, i: nat) {
    i + |p| <= |s| && s[i..i + |p|] == p
  }

  /** Lowest index at or after `from` where `p` occurs, or -1. */
  function FindFrom(s: string, p: string, from: nat): (r: int)
    ensures r == -1 || (r >= 0 && from <= r && OccursAt(s, p, r))
    ensures r == -1 ==> forall i: nat :: from <= i ==> !OccursAt(s, p, i)
    ensures r >= 0 ==> forall i: nat :: from <= i < r ==> !OccursAt(s, p, i)
    decreases |s| - from
  {
    if from + |p| > |s| then -1
    else if s[from..from + |p|] == p then from
    else FindFrom(s, p, from + 1)
  }

  /** Python's `s.find(p)`: the first occurrence, or -1 when there is none. */
  function Find(s: string, p: string): (r: int)
    ensures r == -1 || (r >= 0 && OccursAt(s, p, r))
    ensures r == -1 <==> forall i: nat :: !OccursAt(s, p, i)
    ensures r >= 0 ==> forall i: nat :: i < r ==> !OccursAt(s, p, i)
  {
    FindFrom(s, p, 0)
  }

  /** Highest index below `n` where `p` occurs, or -1. */
  function RFindBelow(s: string, p: string, n: nat): (r: int)
    ensures r == -1 || (0 <= r < n && OccursAt(s, p, r))
    ensures r == -1 ==> forall i: nat :: i < n ==> !OccursAt(s, p, i)
    ensures r >= 0 ==> forall i: nat :: r < i < n ==> !OccursAt(s, p, i)
  {
    if n == 0 then -1
    else if OccursAt(s, p, n - 1) then n - 1
    else RFindBelow(s, p, n - 1)
  }

  /** Python's `s.rfind(p)`: the last occurrence, or -1 when there is none. */
  function RFind(s: string, p: string): (r: int)
    ensures r == -1 || (r >= 0 && OccursAt(s, p, r))
    ensures r == -1 <==> forall i: nat :: !OccursAt(s, p, i)
    ensures r >= 0 ==> forall i: nat :: r < i ==> !OccursAt(s, p, i)
  {
    assert forall i: nat :: i > |s| ==> !OccursAt(s, p, i);
    RFindBelow(s, p, |s| + 1)
  }

  /** Python's `p in s`. */
  predicate Contains(s: string, p: string) {
    Find(s, p) >= 0
  }

  /** An occurrence of `p` inside a prefix of `s` is an occurrence in `s`. */
  lemma OccursInPrefix(s: string, p: string, n: nat, i: nat)
    requires n <= |s|
    ensures OccursAt(s[..n], p, i) ==> OccursAt(s, p, i)
  {
    if OccursAt(s[..n], p, i) {
      assert s[..n][i..i + |p|] == s[i..i + |p|];
    }
  }

  /** Python's `s.split(sep)` for a non-empty separator: cut at the first
      occurrence, then split the rest the same way. There are at least two
      pieces exactly when the separator occurs. */
  function Split(s: string, sep: string): (r: seq<string>)
    requires |sep| > 0
    ensures |r| >= 1
    ensures |r| >= 2 <==> Contains(s, sep)
    decreases |s|
  {
    var i := Find(s, sep);
    if i < 0 then [s] else [s[..i]] + Split(s[i + |sep|..], sep)
  }

  /** Joining the pieces of a split with its separator gives the text back. */
  lemma {:induction false} SplitJoinsBack(s: string, sep: string)
    requires |sep| > 0
    ensures Join(Split(s, sep), sep) == s
    decreases |s|
  {
    var i := Find(s, sep);
    if i >= 0 {
      var rest := s[i + |sep|..];
      SplitJoinsBack(rest, sep);
      SplitStep(s, sep);
      JoinCons(s[..i], Split(rest, sep), sep);
      CutAround(s, sep, i);
    }
  }

  /** One step of a split: the piece before the first occurrence, then the
      split of what follows it. */
  lemma SplitStep(s: string, sep: string)
    requires |sep| > 0 && Find(s, sep) >= 0
    ensures var i := Find(s, sep);
            Split(s, sep) == [s[..i]] + Split(s[i + |sep|..], sep)
  {
  }

  /** Joining a piece in front of at least one more puts the separator
      between them. */
  lemma JoinCons(x: string, g: seq<string>, sep: string)
    requires |g| >= 1
    ensures Join([x] + g, sep) == x + sep + Join(g, sep)
  {
    assert ([x] + g)[1..] == g;
  }

  /** A text is the part before an occurrence, the occurrence, and the
      part after it. */
  lemma CutAround(s: string, p: string, i: nat)
    requires OccursAt(s, p, i)
    ensures s == s[..i] + p + s[i + |p|..]
  {
  }

  /** No piece of a split contains the separator. */
  lemma {:induction false} SplitPiecesFree(s: string, sep: string)
    requires |sep| > 0
    ensures forall k :: 0 <= k < |Split(s, sep)| ==> !Contains(Split(s, sep)[k], sep)
    decreases |s|
  {
    var i := Find(s, sep);
    if i >= 0 {
      var rest := s[i + |sep|..];
      SplitPiecesFree(rest, sep);
      forall j: nat ensures !OccursAt(s[..i], sep, j) {
        OccursInPrefix(s, sep, i, j);
      }
      assert Split(s, sep) == [s[..i]] + Split(rest, sep);
    }
  }

  /** Joining several pieces ends with the separator and the last piece. */
  lemma {:induction false} JoinLast(xs: seq<string>, sep: string)
    requires |xs| >= 2
    ensures Join(xs, sep) == Join(xs[..|xs| - 1], sep) + sep + xs[|xs| - 1]
    decreases |xs|
  {
    var n := |xs|;
    if n > 2 {
      JoinLast(xs[1..], sep);
      assert xs[..n - 1][1..] == xs[1..][..n - 2];
    }
  }

  /** The first two pieces of a split on a character, joined by it, start
      the text, which then ends or goes on with the character. */
  lemma FirstTwoPieces(s: string, c: char)
    requires |Split(s, [c])| >= 2
    ensures var f := Split(s, [c]);
            && f[0] + [c] + f[1] <= s
            && (s == f[0] + [c] + f[1] || s[|f[0]| + 1 + |f[1]|] == c)
  {
    SplitJoinsBack(s, [c]);
    JoinFirstTwo(Split(s, [c]), c);
  }

  /** `a` and `b` are the first two `c`-separated fields of `s`: neither
      holds `c`, and `a`, `c`, `b` start `s`, which then ends or goes on
      with `c`. */
  predicate LeadingFields(s: string, c: char, a: string, b: string) {
    && !Contains(a, [c]) && !Contains(b, [c])
    && a + [c] + b <= s
    && (s == a + [c] + b || s[|a| + 1 + |b|] == c)
  }

  /** The first two pieces of a split on a character the text contains
      are its leading fields. */
  lemma FirstTwoFields(s: string, c: char)
    requires Contains(s, [c])
    ensures |Split(s, [c])| >= 2
    ensures LeadingFields(s, c, Split(s, [c])[0], Split(s, [c])[1])
  {
    SplitPiecesFree(s, [c]);
    FirstTwoPieces(s, c);
  }

  /** A join of at least two pieces starts with the first two, joined,
      and then ends or goes on with the separator. */
  lemma JoinFirstTwo(f: seq<string>, c: char)
    requires |f| >= 2
    ensures var s := Join(f, [c]);
            && f[0] + [c] + f[1] <= s
            && (s == f[0] + [c] + f[1] || s[|f[0]| + 1 + |f[1]|] == c)
  {
    var head := f[0] + [c] + f[1];
    if |f| == 2 {
      assert Join(f[1..], [c]) == f[1];
    } else {
      assert Join(f[1..], [c]) == f[1] + [c] + Join(f[2..], [c]);
      assert Join(f, [c]) == head + [c] + Join(f[2..], [c]);
    }
  }

  /** `s.split(c)[-1]`: the text after the last `c`, or all of `s`. */
  function LastPiece(s: string, c: char): (r: string)
    ensures !Contains(r, [c])
    ensures |r| <= |s| && s[|s| - |r|..] == r
    ensures r == s || (|r| < |s| && s[|s| - |r| - 1] == c)
  {
    var parts := Split(s, [c]);
    SplitPiecesFree(s, [c]);
    SplitJoinsBack(s, [c]);
    if |parts| == 1 then parts[0]
    else
      var r := parts[|parts| - 1];
      var pre := Join(parts[..|parts| - 1], [c]);
      JoinLast(parts, [c]);
      assert s == pre + [c] + r;
      assert s[|s| - |r|..] == r;
      r
  }

  /** Python's `sep.join(xs)`. */
  function Join(xs: seq<string>, sep: string): string
  {
    if |xs| == 0 then ""
    else if |xs| == 1 then xs[0]
    else xs[0] + sep + Join(xs[1..], sep)
  }

  /** The first occurrence of a one-character separator in `a + [c] + b`
      is right after `a` when `a` does not contain it. */
  lemma FindAfterPiece(a: string, c: char, b: string)
    requires !Contains(a, [c])
    ensures Find(a + [c] + b, [c]) == |a|
  {
    var s := a + [c] + b;
    assert OccursAt(s, [c], |a|) by { assert s[|a|..|a| + 1] == [c]; }
    forall i: nat | i < |a| ensures !OccursAt(s, [c], i) {
      assert !OccursAt(a, [c], i);
      assert a[i..i + 1] == [a[i]];
      assert s[i..i + 1] == [s[i]];
    }
  }

  /** Joining pieces that do not contain a one-character separator and
      splitting the result gives the pieces back, in order. */
  lemma {:induction false} SplitJoin(xs: seq<string>, c: char)
    requires |xs| >= 1
    requires forall k :: 0 <= k < |xs| ==> !Contains(xs[k], [c])
    ensures Split(Join(xs, [c]), [c]) == xs
    decreases |xs|
  {
    if |xs| == 1 {
      assert Split(xs[0], [c]) == [xs[0]];
    } else {
      var rest := Join(xs[1..], [c]);
      assert xs == [xs[0]] + xs[1..];
      JoinCons(xs[0], xs[1..], [c]);
      FindAfterPiece(xs[0], c, rest);
      SplitStep(xs[0] + [c] + rest, [c]);
      PiecesAround(xs[0], [c], rest);
      SplitJoin(xs[1..], c);
    }
  }

  /** The parts of `a + p + b` before and after `p`. */
  lemma PiecesAround(a: string, p: string, b: string)
    ensures (a + p + b)[..|a|] == a
    ensures (a + p + b)[|a| + |p|..] == b
  {
  }

  /** A character that does not appear in `s` does not occur in it. */
  lemma NoCharNoOccurrence(s: string, c: char)
    requires c !in s
    ensures !Contains(s, [c])
  {
    forall i: nat ensures !OccursAt(s, [c], i) {
      if i + 1 <= |s| { assert s[i..i + 1][0] == s[i]; }
    }
  }

  /** A pattern with a character that `s` lacks does not occur in `s`. */
  lemma MissingCharNoOccurrence(s: string, p: string, k: nat)
    requires k < |p| && p[k] !in s
    ensures !Contains(s, p)
  {
    forall i: nat ensures !OccursAt(s, p, i) {
      if i + |p| <= |s| { assert s[i..i + |p|][k] == s[i + k]; }
    }
  }

  /** `p` occurs in any text that has it in the middle. */
  lemma ContainsInside(a: string, p: string, b: string)
    ensures Contains(a + p + b, p)
  {
    var s := a + p + b;
    assert s[|a|..|a| + |p|] == p;
    assert OccursAt(s, p, |a|);
  }

  /** Splitting on a character cuts first right after a piece that lacks it. */
  lemma SplitAtChar(a: string, c: char, b: string)
    requires c !in a
    ensures Split(a + [c] + b, [c]) == [a] + Split(b, [c])
  {
    NoCharNoOccurrence(a, c);
    FindAfterPiece(a, c, b);
    var s := a + [c] + b;
    assert s[..|a|] == a;
    assert s[|a| + 1..] == b;
  }

  /** A one-character pattern occurs exactly where its character is. */
  lemma OccursChar(s: string, c: char, k: nat)
    ensures OccursAt(s, [c], k) <==> k < |s| && s[k] == c
  {
    if k + 1 <= |s| {
      assert s[k..k + 1] == [s[k]];
    }
  }

  /** The first occurrence of a character in `a` is its first occurrence
      in anything `a` starts. */
  lemma FindCharInPrefix(a: string, t: string, c: char)
    requires Find(a, [c]) >= 0
    ensures Find(a + t, [c]) == Find(a, [c])
  {
    var i := Find(a, [c]);
    var s := a + t;
    OccursChar(a, c, i);
    OccursChar(s, c, i);
    forall k: nat | k < i ensures !OccursAt(s, [c], k) {
      OccursChar(a, c, k);
      OccursChar(s, c, k);
    }
  }

  /** A character of `s` gives an occurrence of it. */
  lemma CharFound(s: string, c: char)
    requires c in s
    ensures Find(s, [c]) >= 0
  {
    var k :| 0 <= k < |s| && s[k] == c;
    OccursChar(s, c, k);
  }

  /** Splitting on a character around one occurrence of it gives the
      split of the text before it followed by the split of the text
      after it. */
  lemma {:induction false} SplitAroundChar(a: string, c: char, b: string)
    ensures Split(a + [c] + b, [c]) == Split(a, [c]) + Split(b, [c])
    decreases |a|
  {
    if c !in a {
      SplitAtChar(a, c, b);
      SplitNoChar(a, c);
    } else {
      CharFound(a, c);
      var i := Find(a, [c]);
      assert a + [c] + b == a + ([c] + b);
      FindCharInPrefix(a, [c] + b, c);
      SplitAroundChar(a[i + 1..], c, b);
      SplitAroundStep(a, c, b, i);
    }
  }

  /** The inductive step of `SplitAroundChar`: when `a` has its first `c`
      at `i`, the law for the text after it gives the law for `a`. */
  lemma SplitAroundStep(a: string, c: char, b: string, i: nat)
    requires i < |a| && Find(a, [c]) == i && Find(a + [c] + b, [c]) == i
    requires Split(a[i + 1..] + [c] + b, [c]) == Split(a[i + 1..], [c]) + Split(b, [c])
    ensures Split(a + [c] + b, [c]) == Split(a, [c]) + Split(b, [c])
  {
    var s := a + [c] + b;
    var u := a[i + 1..];
    SlicesAroundChar(a, c, b, i);
    SplitStep(s, [c]);
    SplitStep(a, [c]);
    ConsConcat(Split(s, [c]), Split(a, [c]), Split(b, [c]), Split(u + [c] + b, [c]), Split(u, [c]), a[..i]);
  }

  /** `x` in front of `t`, when `t` is `l` followed by `r`, is `x` in front
      of `l`, followed by `r`. */
  lemma ConsConcat<T>(whole: seq<T>, left: seq<T>, right: seq<T>, tail: seq<T>, leftTail: seq<T>, x: T)
    requires whole == [x] + tail && left == [x] + leftTail && tail == leftTail + right
    ensures whole == left + right
  {
  }

  /** Slicing `a + [c] + b` around an index inside `a`. */
  lemma SlicesAroundChar(a: string, c: char, b: string, i: nat)
    requires i < |a|
    ensures (a + [c] + b)[..i] == a[..i]
    ensures (a + [c] + b)[i + 1..] == a[i + 1..] + [c] + b
  {
  }

  /** The splits of every text of `xs` on `c`, one after the other. */
  function SplitEach(xs: seq<string>, c: char): seq<string> {
    if |xs| == 0 then [] else Split(xs[0], [c]) + SplitEach(xs[1..], c)
  }

  /** Splitting a join on its one-character separator gives the splits
      of the joined texts, in order. */
  lemma {:induction false} SplitJoinEach(xs: seq<string>, c: char)
    requires |xs| >= 1
    ensures Split(Join(xs, [c]), [c]) == SplitEach(xs, c)
    decreases |xs|
  {
    if |xs| == 1 {
      assert SplitEach(xs[1..], c) == [];
    } else {
      SplitJoinEach(xs[1..], c);
      assert xs == [xs[0]] + xs[1..];
      JoinCons(xs[0], xs[1..], [c]);
      SplitAroundChar(xs[0], c, Join(xs[1..], [c]));
    }
  }

  /** Splitting on a character a text lacks gives the text alone. */
  lemma SplitNoChar(s: string, c: char)
    requires c !in s
    ensures Split(s, [c]) == [s]
  {
    NoCharNoOccurrence(s, c);
  }

  /** Python's `str.isspace` on one character: the ASCII controls 9-13 and
      28-31, the space, and the Unicode space separators and line breaks. */
  predicate IsSpace(c: char) {
    var n := c as int;
    (9 <= n <= 13) || (28 <= n <= 32) || n == 0x85 || n == 0xA0 || n == 0x1680
    || (0x2000 <= n <= 0x200A) || n == 0x2028 || n == 0x2029 || n == 0x202F
    || n == 0x205F || n == 0x3000
  }

  /** `s` with its leading white space removed. */
  function TrimStart(s: string): (r: string)
    ensures |r| <= |s| && r == s[|s| - |r|..]
    ensures r == [] || !IsSpace(r[0])
    ensures forall k :: 0 <= k < |s| - |r| ==> IsSpace(s[k])
  {
    if |s| > 0 && IsSpace(s[0]) then TrimStart(s[1..]) else s
  }

  /** `s` with its trailing white space removed. */
  function TrimEnd(s: string): (r: string)
    ensures |r| <= |s| && r == s[..|r|]
    ensures r == [] || !IsSpace(r[|r| - 1])
    ensures forall k :: |r| <= k < |s| ==> IsSpace(s[k])
  {
    if |s| > 0 && IsSpace(s[|s| - 1]) then TrimEnd(s[..|s| - 1]) else s
  }

  /** `r` is `s[i..j]`, everything outside it is white space, and `r`
      neither starts nor ends with white space. */
  ghost predicate StrippedAt(s: string, r: string, i: nat, j: nat) {
    && i <= j <= |s|
    && r == s[i..j]
    && (forall k :: 0 <= k < i ==> IsSpace(s[k]))
    && (forall k :: j <= k < |s| ==> IsSpace(s[k]))
    && (r == [] || (!IsSpace(r[0]) && !IsSpace(r[|r| - 1])))
  }

  /** `r` is `s` with all leading and trailing white space cut off. */
  ghost predicate StrippedOf(s: string, r: string) {
    exists i: nat, j: nat :: StrippedAt(s, r, i, j)
  }

  /** Python's `s.strip()`. */
  function Strip(s: string): string {
    TrimEnd(TrimStart(s))
  }

  /** `strip` cuts off exactly the white space at both ends. */
  lemma StripIsStripped(s: string)
    ensures StrippedOf(s, Strip(s))
  {
    var i, j := StripAt(s);
    StrippedWitness(s, Strip(s), i, j);
  }

  /** A witness pair of indices shows a text is stripped. */
  lemma StrippedWitness(s: string, r: string, i: nat, j: nat)
    requires StrippedAt(s, r, i, j)
    ensures StrippedOf(s, r)
  {
  }

  /** Where `strip` cuts: after the leading white space and after the
      kept text. */
  lemma StripAt(s: string) returns (i: nat, j: nat)
    ensures StrippedAt(s, Strip(s), i, j)
  {
    var t := TrimStart(s);
    var r := TrimEnd(t);
    i, j := TrimmedBothEnds(s, t, r);
  }

  /** Cutting white space off the front of `s` to give `t`, then off the
      back of `t` to give `r`, strips `s` to `r`. */
  lemma TrimmedBothEnds(s: string, t: string, r: string) returns (i: nat, j: nat)
    requires |t| <= |s| && t == s[|s| - |t|..]
    requires t == [] || !IsSpace(t[0])
    requires forall k :: 0 <= k < |s| - |t| ==> IsSpace(s[k])
    requires |r| <= |t| && r == t[..|r|]
    requires r == [] || !IsSpace(r[|r| - 1])
    requires forall k :: |r| <= k < |t| ==> IsSpace(t[k])
    ensures StrippedAt(s, r, i, j)
  {
    i := |s| - |t|;
    j := i + |r|;
    assert r == s[i..j];
    forall k | j <= k < |s| ensures IsSpace(s[k]) {
      assert s[k] == t[k - i];
    }
    if r != [] {
      assert r[0] == t[0];
    }
  }

  /** Leading white space in front of a text that starts with a non-space
      is exactly what `TrimStart` removes. */
  lemma TrimStartSpaces(ws: string, x: string)
    requires forall i :: 0 <= i < |ws| ==> IsSpace(ws[i])
    requires x != [] && !IsSpace(x[0])
    ensures TrimStart(ws + x) == x
  {
    if ws != [] {
      assert (ws + x)[1..] == ws[1..] + x;
      TrimStartSpaces(ws[1..], x);
    } else {
      assert ws + x == x;
    }
  }

  /** ASCII lower-casing of one character. */
  function LowerChar(c: char): char {
    if 'A' <= c <= 'Z' then (c as int + 32) as char else c
  }

  /** Python's `s.lower()` restricted to ASCII letters: no upper-case ASCII
      letter is left, and every other character stays where it was. */
  function Lower(s: string): (r: string)
    ensures |r| == |s|
    ensures forall i :: 0 <= i < |r| ==> !('A' <= r[i] <= 'Z')
    ensures forall i :: 0 <= i < |s| && !('A' <= s[i] <= 'Z') ==> r[i] == s[i]
    ensures forall i :: 0 <= i < |s| && 'A' <= s[i] <= 'Z' ==> r[i] as int == s[i] as int + 32
  {
    seq(|s|, i requires 0 <= i < |s| => LowerChar(s[i]))
  }

  /** Lower-casing twice is lower-casing once. */
  lemma LowerIdempotent(s: string)
    ensures Lower(Lower(s)) == Lower(s)
  {
  }

  /** Python's `s[:n]`. */
  function Take(s: string, n: nat): (r: string)
    ensures |r| <= n && r <= s
    ensures |s| <= n ==> r == s
    ensures |s| > n ==> |r| == n
  {
    if |s| <= n then s else s[..n]
  }

  /** Python's `s[a:b]` for non-negative bounds: both are clamped to the
      length, and an empty slice results when `b <= a`. */
  function Slice(s: string, a: nat, b: nat): (r: string)
    ensures b <= a ==> r == []
    ensures a < b <= |s| ==> r == s[a..b]
  {
    var lo := if a <= |s| then a else |s|;
    var hi := if b <= |s| then b else |s|;
    if lo < hi then s[lo..hi] else []
  }

  /** Python's `s.split(sep, 1)[1]`: everything after the first separator,
      later separators included. */
  function AfterFirst(s: string, sep: string): (r: string)
    requires |sep| > 0 && Contains(s, sep)
    ensures s == Split(s, sep)[0] + sep + r
  {
    var i := Find(s, sep);
    assert s == s[..i] + sep + s[i + |sep|..];
    s[i + |sep|..]
  }
}
