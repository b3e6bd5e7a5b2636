/**
 * String helpers with Python's meaning: whitespace as `str.isspace()` and the
 * regular-expression class `\s` see it, `str.strip()`, `str.startswith()`,
 * and the code-point order that `sorted()` uses on strings.
 */
module Text {

  /**
   * Python's whitespace set for `str` (Py_UNICODE_ISSPACE). `str.strip()`
   * with no argument and the `\s` class of `re` both use it.
   */
  predicate IsSpace(c: char) {
    || ('\U{0009}' <= c <= '\U{000D}')
    || ('\U{001C}' <= c <= '\U{0020}')
    || c == '\U{0085}' || c == '\U{00A0}' || c == '\U{1680}'
    || ('\U{2000}' <= c <= '\U{200A}')
    || c == '\U{2028}' || c == '\U{2029}' || c == '\U{202F}' || c == '\U{205F}' || c == '\U{3000}'
  }

  predicate AllSpace(s: string) {
    forall i :: 0 <= i < |s| ==> IsSpace(s[i])
  }

  predicate StartsWith(s: string, prefix: string) {
    |prefix| <= |s| && s[..|prefix|] == prefix
  }

  /** `needle in s` for strings. */
  predicate Contains(s: string, needle: string) {
    StartsWith(s, needle) || (s != [] && Contains(s[1..], needle))
  }

  /** Neither end of `s` is whitespace: what `strip()` leaves behind. */
  predicate Trimmed(s: string) {
    s == [] || (!IsSpace(s[0]) && !IsSpace(s[|s| - 1]))
  }

  /** The number of whitespace characters starting at index `i`. */
  function SpaceRun(s: string, i: nat): (n: nat)
    requires i <= |s|
    ensures i + n <= |s|
    ensures AllSpace(s[i..i + n])
    ensures i + n == |s| || !IsSpace(s[i + n])
    decreases |s| - i
  {
    if i < |s| && IsSpace(s[i]) then
      var n := 1 + SpaceRun(s, i + 1);
      assert s[i..i + n] == [s[i]] + s[i + 1..i + n];
      n
    else 0
  }

  /** The whitespace run at `i` is exactly `w` when a non-space (or the end) follows it. */
  lemma {:induction false} SpaceRunExact(s: string, i: nat, w: string)
    requires i + |w| <= |s| && s[i..i + |w|] == w && AllSpace(w)
    requires i + |w| == |s| || !IsSpace(s[i + |w|])
    ensures SpaceRun(s, i) == |w|
    decreases |w|
  {
    if w != [] {
      assert s[i] == w[0];
      assert s[i + 1..i + 1 + |w[1..]|] == w[1..];
      SpaceRunExact(s, i + 1, w[1..]);
    }
  }

  /** A whitespace run never passes a non-space character. */
  lemma {:induction false} SpaceRunStops(s: string, i: nat, j: nat)
    requires i <= j < |s| && !IsSpace(s[j])
    ensures i + SpaceRun(s, i) <= j
    decreases j - i
  {
    if i < j && IsSpace(s[i]) {
      SpaceRunStops(s, i + 1, j);
    }
  }

  /** The number of whitespace characters ending just before index `j`. */
  function TrailRun(s: string, j: nat): (n: nat)
    requires j <= |s|
    ensures n <= j
    ensures AllSpace(s[j - n..j])
    ensures j - n == 0 || !IsSpace(s[j - n - 1])
  {
    if j > 0 && IsSpace(s[j - 1]) then
      var n := 1 + TrailRun(s, j - 1);
      assert s[j - n..j] == s[j - n..j - 1] + [s[j - 1]];
      n
    else 0
  }

  /** `s.lstrip()`: what follows the leading whitespace. */
  function StripLeft(s: string): (r: string)
    ensures |r| <= |s| && r == s[|s| - |r|..]
    ensures AllSpace(s[..|s| - |r|])
    ensures r == [] || !IsSpace(r[0])
  {
    s[SpaceRun(s, 0)..]
  }

  /** `s.rstrip()`: what precedes the trailing whitespace. */
  function StripRight(s: string): (r: string)
    ensures |r| <= |s| && r == s[..|r|]
    ensures AllSpace(s[|r|..])
    ensures r == [] || !IsSpace(r[|r| - 1])
  {
    s[..|s| - TrailRun(s, |s|)]
  }

  /** Where `strip()` starts: the length of the leading whitespace. */
  function StripStart(s: string): (i: nat)
    ensures i <= |s| && AllSpace(s[..i])
  {
    SpaceRun(s, 0)
  }

  /**
   * `s.strip()`: `s` is some whitespace, then the result, then some
   * whitespace, and the result has no whitespace at either end.
   */
  function Strip(s: string): (r: string)
    ensures Trimmed(r)
    ensures StripStart(s) + |r| <= |s| && s[StripStart(s)..StripStart(s) + |r|] == r
    ensures AllSpace(s[StripStart(s) + |r|..])
  {
    var i := SpaceRun(s, 0);
    var l := s[i..];
    var r := StripRight(l);
    assert r != [] ==> r[0] == l[0];
    assert s[i..i + |r|] == r;
    assert s[i + |r|..] == l[|r|..];
    r
  }

  /** Whitespace after a trimmed, non-empty string is what `strip()` removes. */
  lemma StripPadded(t: string, w: string)
    requires Trimmed(t) && t != [] && AllSpace(w)
    ensures Strip(t + w) == t
  {
    var s := t + w;
    var r := Strip(s);
    assert s[0] == t[0];
    assert StripStart(s) == 0;
    assert r == s[..|t|] == t;
  }

  /** A string whose ends are not whitespace is its own `strip()`. */
  lemma StripTrimmed(s: string)
    requires Trimmed(s)
    ensures Strip(s) == s
  {
  }

  /** Python's `<` on strings: code-point lexicographic order. */
  predicate LexLess(a: string, b: string) {
    if a == [] then b != []
    else if b == [] then false
    else a[0] < b[0] || (a[0] == b[0] && LexLess(a[1..], b[1..]))
  }

  lemma {:induction false} LexIrreflexive(a: string)
    ensures !LexLess(a, a)
  {
    if a != [] {
      LexIrreflexive(a[1..]);
    }
  }

  lemma {:induction false} LexTransitive(a: string, b: string, c: string)
    requires LexLess(a, b) && LexLess(b, c)
    ensures LexLess(a, c)
  {
    if a != [] && b != [] && c != [] && a[0] == b[0] && b[0] == c[0] {
      LexTransitive(a[1..], b[1..], c[1..]);
    }
  }

  lemma {:induction false} LexTotal(a: string, b: string)
    requires a != b
    ensures LexLess(a, b) || LexLess(b, a)
  {
    if a != [] && b != [] && a[0] == b[0] {
      assert a == [a[0]] + a[1..] && b == [b[0]] + b[1..];
      LexTotal(a[1..], b[1..]);
    }
  }

  lemma {:induction false} LexAsymmetric(a: string, b: string)
    requires LexLess(a, b)
    ensures !LexLess(b, a)
  {
    if a != [] && b != [] && a[0] == b[0] {
      LexAsymmetric(a[1..], b[1..]);
    }
  }

  /** Strictly increasing in Python's string order, hence free of duplicates. */
  predicate StrictlySorted(s: seq<string>) {
    forall i, j :: 0 <= i < j < |s| ==> LexLess(s[i], s[j])
  }

  /** How often `x` occurs in `s`. */
  function Occurrences<T(==)>(s: seq<T>, x: T): nat {
    if s == [] then 0 else (if s[0] == x then 1 else 0) + Occurrences(s[1..], x)
  }

  lemma {:induction false} OccurrencesAppend<T>(a: seq<T>, b: seq<T>, x: T)
    ensures Occurrences(a + b, x) == Occurrences(a, x) + Occurrences(b, x)
  {
    if a != [] {
      assert (a + b)[0] == a[0] && (a + b)[1..] == a[1..] + b;
      OccurrencesAppend(a[1..], b, x);
    } else {
      assert a + b == b;
    }
  }

  /** `a` is obtained from `b` by deleting elements, keeping order. */
  predicate IsSubsequence<T(==)>(a: seq<T>, b: seq<T>) {
    if a == [] then true
    else if b == [] then false
    else if a[0] == b[0] then IsSubsequence(a[1..], b[1..])
    else IsSubsequence(a, b[1..])
  }

  lemma {:induction false} SubsequenceCons<T>(x: T, a: seq<T>, b: seq<T>)
    requires IsSubsequence(a, b)
    ensures IsSubsequence([x] + a, [x] + b)
  {
    assert ([x] + a)[1..] == a && ([x] + b)[1..] == b;
  }

  lemma {:induction false} SubsequenceSkip<T>(x: T, a: seq<T>, b: seq<T>)
    requires IsSubsequence(a, b)
    ensures IsSubsequence(a, [x] + b)
    decreases |b|, 1
  {
    assert ([x] + b)[1..] == b;
    if a != [] && a[0] == x {
      SubsequenceDropHead(a, b);
    }
  }

  lemma {:induction false} SubsequenceDropHead<T>(a: seq<T>, b: seq<T>)
    requires a != [] && IsSubsequence(a, b)
    ensures IsSubsequence(a[1..], b)
    decreases |b|, 0
  {
    if b != [] {
      if a[0] == b[0] {
        SubsequenceSkip(b[0], a[1..], b[1..]);
        assert b == [b[0]] + b[1..];
      } else {
        SubsequenceDropHead(a, b[1..]);
        SubsequenceSkip(b[0], a[1..], b[1..]);
        assert b == [b[0]] + b[1..];
      }
    }
  }

  lemma {:induction false} SubsequenceRefl<T>(a: seq<T>)
    ensures IsSubsequence(a, a)
  {
    if a != [] {
      SubsequenceRefl(a[1..]);
    }
  }
}
