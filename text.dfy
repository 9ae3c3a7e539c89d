/**
 * The string primitives the reports rely on: Python's character classes as the
 * `re` module sees them, substring search, `str.find`, `str.split`, slicing
 * with Python's index rules, and ASCII lower-casing.
 */
module Text {
  import opened Seqs

  /** `\s` for str patterns (Python's str.isspace); `\S` is its complement. */
  predicate IsSpace(c: char) {
    ('\t' <= c <= '\r') || ('\U{1C}' <= c <= '\U{1F}') || c == ' '
    || c == '\U{85}' || c == '\U{A0}' || c == '\U{1680}'
    || ('\U{2000}' <= c <= '\U{200A}') || c == '\U{2028}' || c == '\U{2029}'
    || c == '\U{202F}' || c == '\U{205F}' || c == '\U{3000}'
  }

  /** `\d`, restricted to the ASCII digits. */
  predicate IsDigit(c: char) {
    '0' <= c <= '9'
  }

  predicate NoSpace(s: string) {
    forall i :: 0 <= i < |s| ==> !IsSpace(s[i])
  }

  predicate AllDigits(s: string) {
    forall i :: 0 <= i < |s| ==> IsDigit(s[i])
  }

  /** The value of a string of ASCII digits, read in base 10. */
  function DecimalValue(s: string): nat
    requires AllDigits(s)
  {
    if |s| == 0 then 0
    else 10 * DecimalValue(s[..|s| - 1]) + (s[|s| - 1] as int - '0' as int)
  }

  /** Length of the longest prefix of `s` without white space (a greedy `\S*`). */
  function SpanNonSpace(s: string): (n: nat)
    ensures n <= |s| && NoSpace(s[..n])
    ensures n == |s| || IsSpace(s[n])
  {
    if |s| == 0 || IsSpace(s[0]) then 0 else 1 + SpanNonSpace(s[1..])
  }

  /** Length of the longest prefix of `s` made of digits (a greedy `\d*`). */
  function SpanDigits(s: string): (n: nat)
    ensures n <= |s| && AllDigits(s[..n])
    ensures n == |s| || !IsDigit(s[n])
  {
    if |s| == 0 || !IsDigit(s[0]) then 0 else 1 + SpanDigits(s[1..])
  }

  /** The longest non-space prefix is determined by where the first space sits. */
  lemma SpanNonSpaceOf(w: string, tail: string)
    requires NoSpace(w)
    requires tail == [] || IsSpace(tail[0])
    ensures SpanNonSpace(w + tail) == |w|
  {
    if |w| == 0 {
      assert w + tail == tail;
    } else {
      ConsConcat(w, tail);
      SpanNonSpaceOf(w[1..], tail);
    }
  }

  lemma SpanDigitsOf(w: string, tail: string)
    requires AllDigits(w)
    requires tail == [] || !IsDigit(tail[0])
    ensures SpanDigits(w + tail) == |w|
  {
    if |w| == 0 {
      assert w + tail == tail;
    } else {
      ConsConcat(w, tail);
      SpanDigitsOf(w[1..], tail);
    }
  }

  /** `w` occurs in `s` starting at index `i`. */
  predicate Occurs(s: string, w: string, i: int) {
    0 <= i && i + |w| <= |s| && s[i..i + |w|] == w
  }

  /** A regex made of the literal `w` has a `search` match in `s`. */
  predicate Contains(s: string, w: string) {
    exists i | 0 <= i <= |s| :: Occurs(s, w, i)
  }

  lemma OccursInside(s: string, u: string, w: string, i: int, j: int)
    requires Occurs(s, u, i) && Occurs(u, w, j)
    ensures Occurs(s, w, i + j)
  {
    forall k | 0 <= k < |w|
      ensures s[i + j + k] == w[k]
    {
      assert u[j + k] == w[k];
      assert s[i..i + |u|][j + k] == u[j + k];
    }
  }

  /** Containment is transitive: a string containing `u` contains everything `u` contains. */
  lemma ContainsTransitive(s: string, u: string, w: string)
    requires Contains(s, u) && Contains(u, w)
    ensures Contains(s, w)
  {
    var i :| 0 <= i <= |s| && Occurs(s, u, i);
    var j :| 0 <= j <= |u| && Occurs(u, w, j);
    OccursInside(s, u, w, i, j);
  }

  /** A word with a character that is absent from `s` does not occur in `s`. */
  lemma AbsentChar(s: string, w: string, k: int)
    requires 0 <= k < |w| && w[k] !in s
    ensures !Contains(s, w)
  {
    forall i | 0 <= i <= |s|
      ensures !Occurs(s, w, i)
    {
      if i + |w| <= |s| {
        assert s[i..i + |w|][k] == s[i + k];
      }
    }
  }

  /** `w` occurs in `pre + w + post` right after `pre`, and `post` follows it. */
  lemma OccursAt(pre: string, w: string, post: string)
    ensures Occurs(pre + w + post, w, |pre|)
    ensures (pre + w + post)[|pre| + |w|..] == post
  {
    var s := pre + w + post;
    assert s[|pre|..|pre| + |w|] == w;
  }

  /** A word occurs only once in `pre + w + post` when its first character appears nowhere else. */
  lemma OnlyOccurrence(pre: string, w: string, post: string, i: int)
    requires w != [] && w[0] !in pre && w[0] !in w[1..] && w[0] !in post
    requires Occurs(pre + w + post, w, i)
    ensures i == |pre|
  {
    var s := pre + w + post;
    assert s[i..i + |w|][0] == s[i];
    assert s == pre + ([w[0]] + w[1..] + post);
  }

  /** Python's `str.find` for one character: the first index of `c`, or -1. */
  function Find(s: string, c: char): (r: int)
    ensures -1 <= r < |s|
    ensures r == -1 <==> c !in s
    ensures r >= 0 ==> s[r] == c && c !in s[..r]
  {
    if |s| == 0 then -1
    else if s[0] == c then 0
    else
      var r := Find(s[1..], c);
      assert s[1..][..(if r < 0 then 0 else r)] == s[..(if r < 0 then 1 else r + 1)][1..];
      if r < 0 then -1 else r + 1
  }

  /** `s.split(c)[0]`: everything before the first `c`, or all of `s`. */
  function BeforeFirst(s: string, c: char): (r: string)
    ensures r <= s && c !in r
    ensures |r| == |s| || s[|r|] == c
  {
    var i := Find(s, c);
    if i < 0 then s else s[..i]
  }

  /** The text of a line up to its first newline: what `.*` can run over. */
  function TakeLine(s: string): string {
    BeforeFirst(s, '\n')
  }

  lemma TakeLineWhole(s: string)
    requires '\n' !in s
    ensures TakeLine(s) == s
  {
  }

  lemma PresentOnLine(s: string, w: string, i: int)
    requires '\n' !in s && Occurs(s, w, i)
    ensures Contains(TakeLine(s), w)
  {
    TakeLineWhole(s);
  }

  /** A word with a character absent from a one-line text does not occur on that line. */
  lemma AbsentFromLine(s: string, w: string, k: int)
    requires '\n' !in s && 0 <= k < |w| && w[k] !in s
    ensures !Contains(TakeLine(s), w)
  {
    TakeLineWhole(s);
    AbsentChar(s, w, k);
  }

  /** Python's `s.split(c)` with an explicit one-character separator. */
  function Split(s: string, c: char): (parts: seq<string>)
    ensures |parts| >= 1
    ensures forall p :: p in parts ==> c !in p
    decreases |s|
  {
    var i := Find(s, c);
    if i < 0 then [s] else [s[..i]] + Split(s[i + 1..], c)
  }

  /** Joining the pieces of `Split` with the separator gives the string back. */
  function Join(parts: seq<string>, c: char): string
    requires |parts| >= 1
  {
    if |parts| == 1 then parts[0] else parts[0] + [c] + Join(parts[1..], c)
  }

  lemma {:induction false} SplitJoin(s: string, c: char)
    ensures Join(Split(s, c), c) == s
    decreases |s|
  {
    var i := Find(s, c);
    if i >= 0 {
      SplitJoin(s[i + 1..], c);
      Around(s, i);
      SplitJoinCons(s[..i], c, s[i + 1..]);
    }
  }

  lemma SplitJoinCons(a: string, c: char, rest: string)
    requires c !in a && Join(Split(rest, c), c) == rest
    ensures Join(Split(a + [c] + rest, c), c) == a + [c] + rest
  {
    SplitCons(a, c, rest);
    JoinCons(a, Split(rest, c), c);
  }

  lemma JoinCons(a: string, ps: seq<string>, c: char)
    requires |ps| >= 1
    ensures Join([a] + ps, c) == a + [c] + Join(ps, c)
  {
    assert ([a] + ps)[1..] == ps;
  }

  /** Splitting a string that begins with a separator-free piece and a separator. */
  lemma SplitCons(a: string, c: char, rest: string)
    requires c !in a
    ensures Split(a + [c] + rest, c) == [a] + Split(rest, c)
  {
    var s := a + [c] + rest;
    assert s[..|a|] == a;
    assert s[|a| + 1..] == rest;
  }

  /** `s.split(c)[0]` is the text before the first `c`. */
  lemma SplitFirst(s: string, c: char)
    ensures Split(s, c)[0] == BeforeFirst(s, c)
  {
  }

  lemma SplitNone(s: string, c: char)
    requires c !in s
    ensures Split(s, c) == [s]
  {
  }

  /** `s.split(c)` has a second piece exactly when `c` occurs in `s`. */
  lemma SplitHasSecond(s: string, c: char)
    ensures |Split(s, c)| >= 2 <==> c in s
  {
  }

  /** Python normalises a slice bound: negative counts from the end, then it is clamped. */
  function SliceBound(x: int, n: nat): (b: nat)
    ensures b <= n
    ensures 0 <= x <= n ==> b == x
    ensures x > n ==> b == n
    ensures x < 0 && x + n >= 0 ==> b == x + n
    ensures x + n < 0 ==> b == 0
  {
    if x < 0 then (if x + n < 0 then 0 else x + n) else if x > n then n else x
  }

  /** `s[a:b]` with Python's slice semantics (step 1). */
  function PySlice(s: string, a: int, b: int): string {
    var lo, hi := SliceBound(a, |s|), SliceBound(b, |s|);
    if lo < hi then s[lo..hi] else []
  }

  /** An end index of -1 stands for the last position of a non-empty string. */
  lemma SliceEndMinusOne(s: string, a: int)
    requires s != []
    ensures PySlice(s, a, -1) == PySlice(s, a, |s| - 1)
  {
    assert SliceBound(-1, |s|) == SliceBound(|s| - 1, |s|);
  }

  function LowerChar(c: char): char {
    if 'A' <= c <= 'Z' then (c as int - 'A' as int + 'a' as int) as char else c
  }

  /** ASCII lower-casing, the model of `re.I` case folding. */
  function Lower(s: string): string {
    seq(|s|, i requires 0 <= i < |s| => LowerChar(s[i]))
  }

  /** A character that no folded character of `s` equals is absent from `Lower(s)`. */
  lemma LowerLacks(s: string, cs: string)
    requires forall i | 0 <= i < |s| :: LowerChar(s[i]) !in cs
    ensures forall c | c in cs :: c !in Lower(s)
  {
    var r := Lower(s);
    forall c, i | c in cs && 0 <= i < |r|
      ensures r[i] != c
    {
      assert r[i] == LowerChar(s[i]);
    }
  }

  /** A word without upper-case letters that occurs in `s` occurs in `Lower(s)`. */
  lemma LowerKeeps(s: string, w: string, i: int)
    requires Occurs(s, w, i)
    requires forall k | 0 <= k < |w| :: !('A' <= w[k] <= 'Z')
    ensures Occurs(Lower(s), w, i)
  {
    var r := Lower(s);
    forall k | 0 <= k < |w|
      ensures r[i..i + |w|][k] == w[k]
    {
      assert s[i..i + |w|][k] == s[i + k];
    }
  }

  lemma LowerFixed(s: string)
    requires forall k | 0 <= k < |s| :: !('A' <= s[k] <= 'Z')
    ensures Lower(s) == s
  {
  }
}
