/**
 * The repair pipeline applied to the language model's output before it is
 * decoded as JSON (`parse_gemini_json_output`), and the decode-then-repair
 * order its callers use.
 *
 * Every regular-expression pass is written out as a string function with the
 * semantics of Python's `re` module for that one pattern. `json.loads` is the
 * parameter `loads`: `Some(v)` when the text decodes to `v`, `None` when it
 * raises `JSONDecodeError`.
 */
module JsonRepair {
  import opened Values
  import opened Text

  // ---------------------------------------------------------------------
  // Payload selection, part 1: re.search(r"```json\s*(.*?)\s*```", text,
  // re.DOTALL | re.IGNORECASE)
  // ---------------------------------------------------------------------

  predicate IsTick(c: char) { c == '`' }
  predicate IsJ(c: char) { c == 'j' || c == 'J' }
  /** Under IGNORECASE, Python also folds U+017F LATIN SMALL LETTER LONG S to `s`. */
  predicate IsS(c: char) { c == 's' || c == 'S' || c == '\U{017F}' }
  predicate IsO(c: char) { c == 'o' || c == 'O' }
  predicate IsN(c: char) { c == 'n' || c == 'N' }

  /** The opening fence "```json" (letters in any case) starts at `p`. */
  predicate OpensAt(s: string, p: nat) {
    p + 7 <= |s|
    && IsTick(s[p]) && IsTick(s[p + 1]) && IsTick(s[p + 2])
    && IsJ(s[p + 3]) && IsS(s[p + 4]) && IsO(s[p + 5]) && IsN(s[p + 6])
  }

  /** A closing fence "```" starts at `q`. */
  predicate ClosesAt(s: string, q: nat) {
    q + 3 <= |s| && IsTick(s[q]) && IsTick(s[q + 1]) && IsTick(s[q + 2])
  }

  /** Where the captured body begins: the greedy `\s*` after the opener. */
  function BodyStart(s: string, p: nat): nat
    requires p + 7 <= |s|
  {
    p + 7 + SpaceRun(s, p + 7)
  }

  /** The body may end at `e`: whitespace from `e` runs into a closing fence. */
  predicate CloserFrom(s: string, e: nat) {
    e <= |s| && ClosesAt(s, e + SpaceRun(s, e))
  }

  /**
   * The regular expression matches with the opener at `p` and the lazy
   * body `s[BodyStart(s, p)..e]`.
   */
  predicate FenceMatch(s: string, p: nat, e: nat) {
    OpensAt(s, p) && BodyStart(s, p) <= e && CloserFrom(s, e)
  }

  function FirstOpen(s: string, from: nat): (r: Option<nat>)
    ensures r.Some? ==> from <= r.value && OpensAt(s, r.value)
    ensures r.Some? ==> forall k :: from <= k < r.value ==> !OpensAt(s, k)
    ensures r.None? ==> forall k :: from <= k ==> !OpensAt(s, k)
    decreases |s| - from
  {
    if from + 7 > |s| then None
    else if OpensAt(s, from) then Some(from)
    else FirstOpen(s, from + 1)
  }

  function FirstCloser(s: string, from: nat): (r: Option<nat>)
    requires from <= |s|
    ensures r.Some? ==> from <= r.value && CloserFrom(s, r.value)
    ensures r.Some? ==> forall k :: from <= k < r.value ==> !CloserFrom(s, k)
    ensures r.None? ==> forall k :: from <= k ==> !CloserFrom(s, k)
    decreases |s| - from
  {
    if CloserFrom(s, from) then Some(from)
    else if from == |s| then None
    else FirstCloser(s, from + 1)
  }

  /** Backticks are not whitespace and not letters of "json". */
  lemma LaterOpenerPastBody(s: string, p: nat, q: nat)
    requires OpensAt(s, p) && OpensAt(s, q) && p < q
    ensures BodyStart(s, p) <= q
  {
    var n := SpaceRun(s, p + 7);
    forall k | p + 7 <= k < p + 7 + n ensures IsSpace(s[k]) {
      assert s[p + 7..p + 7 + n][k - (p + 7)] == s[k];
    }
  }

  /** The first opener has no closer after it: then nothing matches. */
  lemma NoCloserNoMatch(s: string, p: nat)
    requires OpensAt(s, p) && forall k :: 0 <= k < p ==> !OpensAt(s, k)
    requires forall k :: BodyStart(s, p) <= k ==> !CloserFrom(s, k)
    ensures forall q: nat, e: nat :: !FenceMatch(s, q, e)
  {
    forall q: nat, e: nat | FenceMatch(s, q, e) ensures false {
      if p < q {
        LaterOpenerPastBody(s, p, q);
      }
    }
  }

  /**
   * Python's search: the leftmost opener at which the pattern matches, and
   * for it the shortest body. When the first opener has no closer after it,
   * no later opener has one either, so the search fails.
   */
  function FindFence(s: string): (r: Option<(nat, nat)>)
    ensures r.Some? ==> FenceMatch(s, r.value.0, r.value.1)
    ensures r.Some? ==> forall p: nat, e: nat :: p < r.value.0 ==> !FenceMatch(s, p, e)
    ensures r.Some? ==> forall e: nat :: e < r.value.1 ==> !FenceMatch(s, r.value.0, e)
    ensures r.None? ==> forall p: nat, e: nat :: !FenceMatch(s, p, e)
  {
    match FirstOpen(s, 0)
    case None => None
    case Some(p) =>
      match FirstCloser(s, BodyStart(s, p))
      case Some(e) => Some((p, e))
      case None => NoCloserNoMatch(s, p); None
  }

  /** The captured body has no whitespace at either end. */
  lemma FenceBodyTrimmed(s: string, p: nat, e: nat)
    requires FenceMatch(s, p, e)
    requires forall e': nat :: e' < e ==> !FenceMatch(s, p, e')
    ensures Trimmed(s[BodyStart(s, p)..e])
  {
    var a := BodyStart(s, p);
    if a < e {
      assert !FenceMatch(s, p, e - 1);
    }
  }

  // ---------------------------------------------------------------------
  // Payload selection, part 2: re.search(r"({[\s\S]*})", text)
  // ---------------------------------------------------------------------

  function FirstIndex(s: string, c: char, from: nat): (r: Option<nat>)
    ensures r.Some? ==> from <= r.value < |s| && s[r.value] == c
    ensures r.Some? ==> forall k :: from <= k < r.value ==> s[k] != c
    ensures r.None? ==> forall k :: from <= k < |s| ==> s[k] != c
    decreases |s| - from
  {
    if from >= |s| then None
    else if s[from] == c then Some(from)
    else FirstIndex(s, c, from + 1)
  }

  function LastIndex(s: string, c: char, upto: nat): (r: Option<nat>)
    requires upto <= |s|
    ensures r.Some? ==> r.value < upto && s[r.value] == c
    ensures r.Some? ==> forall k :: r.value < k < upto ==> s[k] != c
    ensures r.None? ==> forall k :: 0 <= k < upto ==> s[k] != c
  {
    if upto == 0 then None
    else if s[upto - 1] == c then Some(upto - 1)
    else LastIndex(s, c, upto - 1)
  }

  /**
   * The leftmost `{` that has a `}` after it, and (greedy) the last `}`.
   * Only the first `{` can qualify: a later one has no `}` after it when
   * the first has none.
   */
  function FindBraces(s: string): (r: Option<(nat, nat)>)
    ensures r.Some? ==> r.value.0 < r.value.1 < |s|
    ensures r.Some? ==> s[r.value.0] == '{' && s[r.value.1] == '}'
    ensures r.Some? ==> forall k :: 0 <= k < r.value.0 ==> s[k] != '{'
    ensures r.Some? ==> forall k :: r.value.1 < k < |s| ==> s[k] != '}'
    ensures r.None? ==> forall i, j :: 0 <= i < j < |s| && s[i] == '{' ==> s[j] != '}'
  {
    match (FirstIndex(s, '{', 0), LastIndex(s, '}', |s|))
    case (Some(i), Some(j)) => if i < j then Some((i, j)) else None
    case _ => None
  }

  /** The text the repairs work on, before `strip()`. */
  function SelectPayload(s: string): string {
    match FindFence(s)
    case Some((p, e)) => s[BodyStart(s, p)..e]
    case None =>
      match FindBraces(s)
      case Some((i, j)) => s[i..j + 1]
      case None => s
  }

  /** `json_str.strip()` after selection. */
  function Payload(s: string): string {
    Strip(SelectPayload(s))
  }

  /** A fenced ```json block wins: the payload is its body, already trimmed. */
  lemma FencedBlockIsPayload(s: string, p: nat, e: nat)
    requires FenceMatch(s, p, e)
    requires forall p': nat, e': nat :: p' < p ==> !FenceMatch(s, p', e')
    requires forall e': nat :: e' < e ==> !FenceMatch(s, p, e')
    ensures Payload(s) == s[BodyStart(s, p)..e]
  {
    assert FindFence(s) == Some((p, e));
    FenceBodyTrimmed(s, p, e);
    StripTrimmed(s[BodyStart(s, p)..e]);
  }

  /** Without a fenced block, the first `{` through the last `}` is the payload. */
  lemma BracedSpanIsPayload(s: string, i: nat, j: nat)
    requires forall p: nat, e: nat :: !FenceMatch(s, p, e)
    requires i < j < |s| && s[i] == '{' && s[j] == '}'
    requires forall k :: 0 <= k < i ==> s[k] != '{'
    requires forall k :: j < k < |s| ==> s[k] != '}'
    ensures Payload(s) == s[i..j + 1]
  {
    assert FindFence(s) == None;
    assert FindBraces(s) == Some((i, j));
    StripTrimmed(s[i..j + 1]);
  }

  /** With neither, the whole text, stripped, is the payload. */
  lemma WholeTextIsPayload(s: string)
    requires forall p: nat, e: nat :: !FenceMatch(s, p, e)
    requires forall i, j :: 0 <= i < j < |s| && s[i] == '{' ==> s[j] != '}'
    ensures Payload(s) == Strip(s)
  {
    assert FindFence(s) == None;
    assert FindBraces(s) == None;
  }

  // ---------------------------------------------------------------------
  // re.sub(r"//.*", "", json_str): `.` stops at "\n", so every line loses
  // everything from its first "//" on.
  // ---------------------------------------------------------------------

  /** Index of the first "\n" at or after `from`, or |s|. */
  function LineEnd(s: string, from: nat): (k: nat)
    requires from <= |s|
    ensures from <= k <= |s|
    ensures k < |s| ==> s[k] == '\n'
    ensures forall i :: from <= i < k ==> s[i] != '\n'
    decreases |s| - from
  {
    if from == |s| || s[from] == '\n' then from else LineEnd(s, from + 1)
  }

  function StripComments(s: string): string
    decreases |s|
  {
    if |s| == 0 then ""
    else if |s| >= 2 && s[0] == '/' && s[1] == '/' then StripComments(s[LineEnd(s, 0)..])
    else [s[0]] + StripComments(s[1..])
  }

  predicate NoNewline(s: string) {
    forall i :: 0 <= i < |s| ==> s[i] != '\n'
  }

  /** Index of the first "//" in `line`, or |line|. */
  function CommentStart(line: string): (k: nat)
    ensures k <= |line|
    ensures k < |line| ==> k + 2 <= |line| && line[k] == '/' && line[k + 1] == '/'
    ensures forall i :: 0 <= i < k && i + 1 < |line| ==> !(line[i] == '/' && line[i + 1] == '/')
  {
    if |line| < 2 then |line|
    else if line[0] == '/' && line[1] == '/' then 0
    else 1 + CommentStart(line[1..])
  }

  /** What one line keeps: its prefix before the first "//". */
  function BeforeComment(line: string): string {
    line[..CommentStart(line)]
  }

  /** `s.split("\n")`. */
  function Lines(s: string): (ls: seq<string>)
    ensures |ls| >= 1
    ensures forall i :: 0 <= i < |ls| ==> NoNewline(ls[i])
    decreases |s|
  {
    var k := LineEnd(s, 0);
    if k == |s| then [s] else [s[..k]] + Lines(s[k + 1..])
  }

  /** `"\n".join(ls)`. */
  function JoinLines(ls: seq<string>): string
    requires |ls| >= 1
  {
    if |ls| == 1 then ls[0] else ls[0] + "\n" + JoinLines(ls[1..])
  }

  function CutLines(ls: seq<string>): (r: seq<string>)
    ensures |r| == |ls|
    ensures forall i :: 0 <= i < |ls| ==> r[i] == BeforeComment(ls[i])
  {
    if ls == [] then [] else [BeforeComment(ls[0])] + CutLines(ls[1..])
  }

  lemma {:induction false} StripCommentsLastLine(line: string)
    requires NoNewline(line)
    ensures StripComments(line) == BeforeComment(line)
    decreases |line|
  {
    if |line| >= 2 && line[0] == '/' && line[1] == '/' {
      assert line[LineEnd(line, 0)..] == "";
    } else if |line| > 0 {
      StripCommentsLastLine(line[1..]);
      BeforeCommentCons(line);
    }
  }

  lemma {:induction false} StripCommentsLine(line: string, rest: string)
    requires NoNewline(line)
    ensures StripComments(line + "\n" + rest) == BeforeComment(line) + "\n" + StripComments(rest)
    decreases |line|
  {
    var t := line + "\n" + rest;
    if |line| >= 2 && line[0] == '/' && line[1] == '/' {
      CommentLineEnd(line, rest);
      assert t[|line|..] == "\n" + rest;
      assert ("\n" + rest)[1..] == rest;
    } else if |line| == 0 {
      assert t == "\n" + rest;
      assert t[1..] == rest;
    } else {
      assert t[1..] == line[1..] + "\n" + rest;
      StripCommentsLine(line[1..], rest);
      BeforeCommentCons(line);
    }
  }

  lemma BeforeCommentCons(line: string)
    requires |line| > 0 && !(|line| >= 2 && line[0] == '/' && line[1] == '/')
    ensures BeforeComment(line) == [line[0]] + BeforeComment(line[1..])
  {
    assert line[..CommentStart(line)] == [line[0]] + line[1..][..CommentStart(line[1..])];
  }

  /** The newline after a line that has none is where that line ends. */
  lemma CommentLineEnd(line: string, rest: string)
    requires NoNewline(line)
    ensures LineEnd(line + "\n" + rest, 0) == |line|
  {
    var t := line + "\n" + rest;
    var k := LineEnd(t, 0);
    assert t[|line|] == '\n';
    assert forall i :: 0 <= i < |line| ==> t[i] == line[i];
  }

  /** Comment removal works line by line. */
  lemma {:induction false} StripCommentsJoin(s: string)
    ensures StripComments(s) == JoinLines(CutLines(Lines(s)))
    decreases |s|
  {
    var k := LineEnd(s, 0);
    if k == |s| {
      StripCommentsLastLine(s);
    } else {
      assert s == s[..k] + "\n" + s[k + 1..];
      StripCommentsLine(s[..k], s[k + 1..]);
      StripCommentsJoin(s[k + 1..]);
      assert CutLines(Lines(s))[1..] == CutLines(Lines(s[k + 1..]));
    }
  }

  /** Splitting a join of newline-free lines gives the lines back. */
  lemma {:induction false} LinesOfJoin(ls: seq<string>)
    requires |ls| >= 1
    requires forall i :: 0 <= i < |ls| ==> NoNewline(ls[i])
    ensures Lines(JoinLines(ls)) == ls
  {
    var s := JoinLines(ls);
    if |ls| == 1 {
      assert LineEnd(s, 0) == |s|;
    } else {
      var tail := JoinLines(ls[1..]);
      assert s == ls[0] + "\n" + tail;
      assert s[|ls[0]|] == '\n';
      assert LineEnd(s, 0) == |ls[0]|;
      assert s[..|ls[0]|] == ls[0];
      assert s[|ls[0]| + 1..] == tail;
      LinesOfJoin(ls[1..]);
    }
  }

  /**
   * Comment stripping keeps the number of lines, and line i of the result
   * is line i of the input cut before its first "//".
   */
  lemma StripCommentsByLine(s: string)
    ensures |Lines(StripComments(s))| == |Lines(s)|
    ensures forall i :: 0 <= i < |Lines(s)| ==> Lines(StripComments(s))[i] == BeforeComment(Lines(s)[i])
  {
    StripCommentsJoin(s);
    var cut := CutLines(Lines(s));
    forall i | 0 <= i < |cut| ensures NoNewline(cut[i]) {
      assert cut[i] == Lines(s)[i][..CommentStart(Lines(s)[i])];
    }
    LinesOfJoin(cut);
  }

  /** A line without "//" goes through unchanged. */
  lemma NoCommentLineUnchanged(line: string)
    requires NoNewline(line)
    requires forall i :: 0 <= i < |line| - 1 ==> !(line[i] == '/' && line[i + 1] == '/')
    ensures StripComments(line) == line
  {
    StripCommentsLastLine(line);
  }

  /**
   * The pass does not know about JSON strings: a "//" anywhere on a line,
   * also inside a string such as "https://...", removes the rest of the line.
   */
  lemma CommentCutsRestOfLine(a: string, b: string)
    requires NoNewline(a) && NoNewline(b)
    requires forall i :: 0 <= i < |a| - 1 ==> !(a[i] == '/' && a[i + 1] == '/')
    requires a == [] || a[|a| - 1] != '/'
    ensures StripComments(a + "//" + b) == a
  {
    var line := a + "//" + b;
    assert line[|a|] == '/' && line[|a| + 1] == '/';
    assert CommentStart(line) == |a|;
    assert line[..|a|] == a;
    StripCommentsLastLine(line);
  }

  /** For instance, an image URL in the reply loses everything after "https:". */
  lemma CommentPassCutsUrls()
    ensures StripComments("{\"image_url\": \"https://x.com/a.jpg\"}") == "{\"image_url\": \"https:"
  {
    var a := "{\"image_url\": \"https:";
    assert "{\"image_url\": \"https://x.com/a.jpg\"}" == a + "//" + "x.com/a.jpg\"}";
    CommentCutsRestOfLine(a, "x.com/a.jpg\"}");
  }

  // ---------------------------------------------------------------------
  // re.sub(r",\s*([\]}])", r"\1", json_str): one left-to-right pass of
  // non-overlapping matches.
  // ---------------------------------------------------------------------

  predicate IsCloser(c: char) { c == ']' || c == '}' }

  /** `t` starts with a comma, optional whitespace and a closing bracket. */
  predicate CommaBeforeClose(t: string) {
    |t| > 0 && t[0] == ',' && 1 + SpaceRun(t, 1) < |t| && IsCloser(t[1 + SpaceRun(t, 1)])
  }

  function StripTrailingCommas(s: string): (r: string)
    ensures |r| <= |s|
    decreases |s|
  {
    if s == [] then []
    else if CommaBeforeClose(s) then
      var k := 1 + SpaceRun(s, 1);
      [s[k]] + StripTrailingCommas(s[k + 1..])
    else [s[0]] + StripTrailingCommas(s[1..])
  }

  /** The result is the input with some characters deleted, in order. */
  lemma {:induction false} TrailingCommasSubsequence(s: string)
    ensures IsSubsequence(StripTrailingCommas(s), s)
    decreases |s|
  {
    if s != [] {
      if CommaBeforeClose(s) {
        var k := 1 + SpaceRun(s, 1);
        var rest := StripTrailingCommas(s[k + 1..]);
        assert StripTrailingCommas(s) == [s[k]] + rest;
        TrailingCommasSubsequence(s[k + 1..]);
        SubsequenceAfterCut(s, k, rest);
      } else {
        var rest := StripTrailingCommas(s[1..]);
        assert StripTrailingCommas(s) == [s[0]] + rest;
        TrailingCommasSubsequence(s[1..]);
        SubsequenceAfterCut(s, 0, rest);
      }
    }
  }

  /** Dropping `s[..k]` and keeping `s[k]` in front of a subsequence of what follows. */
  lemma SubsequenceAfterCut(s: string, k: nat, rest: string)
    requires k < |s| && IsSubsequence(rest, s[k + 1..])
    ensures IsSubsequence([s[k]] + rest, s)
  {
    var tail := s[k + 1..];
    SubsequenceCons(s[k], rest, tail);
    SubsequenceSkipPrefix(s[..k], [s[k]] + rest, [s[k]] + tail);
    assert s == s[..k] + s[k..];
    assert s[k..] == [s[k]] + tail;
  }

  /**
   * Only commas and whitespace are deleted: every other character, closing
   * brackets included, occurs in the result as often as in the input.
   */
  lemma {:induction false} TrailingCommasKeepOthers(s: string, c: char)
    requires c != ',' && !IsSpace(c)
    ensures Occurrences(StripTrailingCommas(s), c) == Occurrences(s, c)
    decreases |s|
  {
    if s != [] {
      if CommaBeforeClose(s) {
        var k := 1 + SpaceRun(s, 1);
        CutAtRun(s);
        OccurrencesCons(s[k], StripTrailingCommas(s[k + 1..]), c);
        TrailingCommasKeepOthers(s[k + 1..], c);
        RunUncounted(s, c);
      } else {
        assert StripTrailingCommas(s) == [s[0]] + StripTrailingCommas(s[1..]);
        OccurrencesCons(s[0], StripTrailingCommas(s[1..]), c);
        TrailingCommasKeepOthers(s[1..], c);
      }
    }
  }

  lemma OccurrencesCons(x: char, rest: string, c: char)
    ensures Occurrences([x] + rest, c) == (if x == c then 1 else 0) + Occurrences(rest, c)
  {
    assert ([x] + rest)[1..] == rest;
  }

  /** A run's comma and whitespace do not count `c`: only its closer and what follows can. */
  lemma RunUncounted(s: string, c: char)
    requires CommaBeforeClose(s) && c != ',' && !IsSpace(c)
    ensures var k := 1 + SpaceRun(s, 1);
      Occurrences(s, c) == (if s[k] == c then 1 else 0) + Occurrences(s[k + 1..], c)
  {
    var k := 1 + SpaceRun(s, 1);
    var w, tail := s[1..k], s[k + 1..];
    SpacesUncounted(w, c);
    assert s[1..] == w + ([s[k]] + tail);
    OccurrencesAppend(w, [s[k]] + tail, c);
    OccurrencesAppend([s[k]], tail, c);
  }

  lemma {:induction false} SpacesUncounted(w: string, c: char)
    requires AllSpace(w) && !IsSpace(c)
    ensures Occurrences(w, c) == 0
  {
    if w != [] {
      assert AllSpace(w[1..]) by {
        forall i | 0 <= i < |w[1..]| ensures IsSpace(w[1..][i]) {
          assert w[1..][i] == w[i + 1];
        }
      }
      SpacesUncounted(w[1..], c);
    }
  }

  lemma {:induction false} SubsequenceSkipPrefix<T>(p: seq<T>, a: seq<T>, b: seq<T>)
    requires IsSubsequence(a, b)
    ensures IsSubsequence(a, p + b)
    decreases |p|
  {
    if p != [] {
      var q := p[1..] + b;
      assert p + b == [p[0]] + q;
      SubsequenceSkipPrefix(p[1..], a, b);
      SubsequenceSkip(p[0], a, q);
    } else {
      assert p + b == b;
    }
  }

  /** A text with no comma-whitespace-bracket run passes through unchanged. */
  lemma {:induction false} NoTrailingCommaUnchanged(s: string)
    requires forall i :: 0 <= i < |s| ==> !CommaBeforeClose(s[i..])
    ensures StripTrailingCommas(s) == s
    decreases |s|
  {
    if s != [] {
      assert s[0..] == s;
      forall i | 0 <= i < |s[1..]| ensures !CommaBeforeClose(s[1..][i..]) {
        assert s[1..][i..] == s[i + 1..];
      }
      NoTrailingCommaUnchanged(s[1..]);
    }
  }

  /** The pass is not repeated: ",,]" loses only the comma next to "]" (likewise for "}"). */
  lemma TrailingCommaSinglePass(c: char)
    requires IsCloser(c)
    ensures StripTrailingCommas([',', ',', c]) == [',', c]
    ensures StripTrailingCommas([',', c]) == [c]
  {
    var t, u := [',', ',', c], [',', c];
    assert SpaceRun(t, 1) == 0;
    assert !CommaBeforeClose(t);
    assert t[1..] == u;
    assert SpaceRun(u, 1) == 0;
    assert CommaBeforeClose(u);
    assert u[2..] == [];
  }

  /**
   * Position `j` of `s` is deleted by the pass: it lies in a run made of
   * a comma and the whitespace after it, which a closing bracket ends.
   */
  ghost predicate Removed(s: string, j: nat) {
    exists i: nat :: i <= j < |s| && RunAt(s, i) && j < RunEnd(s, i)
  }

  /** A removable run starts at position `i`. */
  predicate RunAt(s: string, i: nat) {
    i < |s| && CommaBeforeClose(s[i..])
  }

  /** The position of the closer that ends the run at `i`. */
  function RunEnd(s: string, i: nat): nat
    requires RunAt(s, i)
  {
    i + 1 + SpaceRun(s[i..], 1)
  }

  /** The characters of `s` from position `j` on that no removed run covers, in order. */
  ghost function Kept(s: string, j: nat): string
    requires j <= |s|
    decreases |s| - j
  {
    if j == |s| then [] else (if Removed(s, j) then [] else [s[j]]) + Kept(s, j + 1)
  }

  /** No run that starts before `j` reaches `j`. */
  ghost predicate RunsEndBy(s: string, j: nat) {
    forall i: nat :: i < j && RunAt(s, i) ==> RunEnd(s, i) <= j
  }

  /**
   * The pass deletes exactly the removed runs: the result is the input's
   * characters at every other position, commas and whitespace included,
   * in order.
   */
  lemma TrailingCommasKeepExactly(s: string)
    ensures StripTrailingCommas(s) == Kept(s, 0)
  {
    assert s[0..] == s;
    KeptFrom(s, 0);
  }

  lemma {:induction false} KeptFrom(s: string, j: nat)
    requires j <= |s| && RunsEndBy(s, j)
    ensures StripTrailingCommas(s[j..]) == Kept(s, j)
    decreases |s| - j
  {
    if j < |s| {
      if RunAt(s, j) {
        RunStep(s, j);
        KeptFrom(s, RunEnd(s, j) + 1);
      } else {
        PlainStep(s, j);
        KeptFrom(s, j + 1);
      }
    }
  }

  /** A removed run at `j` ends at its closer, which is kept. */
  lemma RunStep(s: string, j: nat)
    requires RunsEndBy(s, j) && RunAt(s, j)
    ensures RunEnd(s, j) < |s|
    ensures StripTrailingCommas(s[j..]) == [s[RunEnd(s, j)]] + StripTrailingCommas(s[RunEnd(s, j) + 1..])
    ensures Kept(s, j) == [s[RunEnd(s, j)]] + Kept(s, RunEnd(s, j) + 1)
    ensures RunsEndBy(s, RunEnd(s, j) + 1)
  {
    var e := RunEnd(s, j);
    RunCut(s, j, e);
    KeptSkip(s, j, e, j);
    NoRunInside(s, j);
    assert !Removed(s, e);
  }

  /** The pass replaces the run at `j`, which ends at `e`, by its closer and goes on after it. */
  lemma RunCut(s: string, j: nat, e: nat)
    requires RunAt(s, j) && e == RunEnd(s, j)
    ensures e < |s|
    ensures StripTrailingCommas(s[j..]) == [s[e]] + StripTrailingCommas(s[e + 1..])
  {
    var t := s[j..];
    var k := 1 + SpaceRun(t, 1);
    assert e == j + k;
    CutSuffix(s, j, t, k, e);
  }

  lemma CutSuffix(s: string, j: nat, t: string, k: nat, e: nat)
    requires j <= |s| && t == s[j..] && CommaBeforeClose(t) && k == 1 + SpaceRun(t, 1) && e == j + k
    ensures e < |s|
    ensures StripTrailingCommas(t) == [s[e]] + StripTrailingCommas(s[e + 1..])
  {
    assert t[k] == s[e];
    SuffixOfSuffix(s, j, k + 1);
    CutAtRun(t);
  }

  /** At a run the pass emits the closer and goes on after it. */
  lemma CutAtRun(t: string)
    requires CommaBeforeClose(t)
    ensures var k := 1 + SpaceRun(t, 1);
      StripTrailingCommas(t) == [t[k]] + StripTrailingCommas(t[k + 1..])
  {
  }

  lemma SuffixOfSuffix(s: string, j: nat, m: nat)
    requires j + m <= |s|
    ensures s[j..][m..] == s[j + m..]
  {
  }

  /** Without a run at `j`, position `j` is kept and nothing reaches past it. */
  lemma PlainStep(s: string, j: nat)
    requires j < |s| && RunsEndBy(s, j) && !RunAt(s, j)
    ensures StripTrailingCommas(s[j..]) == [s[j]] + StripTrailingCommas(s[j + 1..])
    ensures Kept(s, j) == [s[j]] + Kept(s, j + 1)
    ensures RunsEndBy(s, j + 1)
  {
    assert s[j..][0] == s[j] && s[j..][1..] == s[j + 1..];
    assert !Removed(s, j);
  }

  /**
   * A separating comma and the whitespace after it stay; only the comma
   * before the closer goes: `x, y,]` becomes `x, y]`.
   */
  lemma TrailingCommaKeepsSeparators(x: string, w: string, y: string, c: char)
    requires forall i :: 0 <= i < |x| ==> x[i] != ','
    requires forall i :: 0 <= i < |y| ==> y[i] != ','
    requires AllSpace(w) && y != [] && !IsSpace(y[0]) && !IsCloser(y[0]) && IsCloser(c)
    ensures StripTrailingCommas(x + ([','] + (w + y + [',', c]))) == x + ([','] + (w + y + [c]))
  {
    var wy := w + y;
    TrailingCommasCommaFreePrefix(x, [','] + (wy + [',', c]));
    SeparatorStep(w, y, [',', c]);
    CommaFreeJoin(w, y);
    TrailingCommasCommaFreePrefix(wy, [',', c]);
    TrailingCommaSinglePass(c);
  }

  /** A comma followed by white space and a character that is not a closer is copied. */
  lemma SeparatorStep(w: string, y: string, rest: string)
    requires AllSpace(w) && y != [] && !IsSpace(y[0]) && !IsCloser(y[0])
    ensures StripTrailingCommas([','] + (w + y + rest)) == [','] + StripTrailingCommas(w + y + rest)
  {
    var t := [','] + (w + y + rest);
    assert t[1..1 + |w|] == w && t[1 + |w|] == y[0];
    SpaceRunExact(t, 1, w);
    assert !CommaBeforeClose(t);
    assert t[1..] == w + y + rest;
  }

  lemma CommaFreeJoin(w: string, y: string)
    requires AllSpace(w) && forall i :: 0 <= i < |y| ==> y[i] != ','
    ensures forall i :: 0 <= i < |w + y| ==> (w + y)[i] != ','
  {
    assert !IsSpace(',');
    forall i | 0 <= i < |w + y| ensures (w + y)[i] != ',' {
      if i < |w| { assert IsSpace(w[i]); } else { assert (w + y)[i] == y[i - |w|]; }
    }
  }

  /** Inside the run that starts at `j`, and at its closer, no other run starts. */
  lemma NoRunInside(s: string, j: nat)
    requires RunAt(s, j)
    ensures forall i: nat :: j < i <= RunEnd(s, j) ==> !RunAt(s, i)
  {
    var t, e := s[j..], RunEnd(s, j);
    var k := e - j;
    forall i: nat | j < i <= e ensures !RunAt(s, i) {
      if i < e {
        assert t[1..k][i - j - 1] == s[i];
      } else {
        assert t[k] == s[i];
      }
      assert s[i..][0] == s[i];
    }
  }

  /** The positions of the run at `i` from `j` up to its closer `e` are removed, so they contribute nothing. */
  lemma {:induction false} KeptSkip(s: string, i: nat, e: nat, j: nat)
    requires RunAt(s, i) && e == RunEnd(s, i) && e < |s| && i <= j <= e
    ensures Kept(s, j) == Kept(s, e)
    decreases e - j
  {
    if j < e {
      RemovedInRun(s, i, e, j);
      KeptDrop(s, j);
      KeptSkip(s, i, e, j + 1);
    }
  }

  lemma RemovedInRun(s: string, i: nat, e: nat, j: nat)
    requires RunAt(s, i) && e == RunEnd(s, i) && e < |s| && i <= j < e
    ensures Removed(s, j)
  {
    assert i <= j < |s| && RunAt(s, i) && j < RunEnd(s, i);
  }

  lemma KeptDrop(s: string, j: nat)
    requires j < |s| && Removed(s, j)
    ensures Kept(s, j) == Kept(s, j + 1)
  {
  }

  // ---------------------------------------------------------------------
  // re.sub(r"[\n\r\t]", "", json_str) for the second attempt
  // ---------------------------------------------------------------------

  predicate IsLineControl(c: char) { c == '\n' || c == '\r' || c == '\t' }

  function RemoveLineControls(s: string): (r: string)
    ensures forall i :: 0 <= i < |r| ==> !IsLineControl(r[i])
    ensures IsSubsequence(r, s)
    ensures forall c :: !IsLineControl(c) ==> multiset(r)[c] == multiset(s)[c]
  {
    if s == [] then []
    else
      var rest := RemoveLineControls(s[1..]);
      assert s == [s[0]] + s[1..];
      if IsLineControl(s[0]) then
        SubsequenceSkip(s[0], rest, s[1..]);
        rest
      else
        SubsequenceCons(s[0], rest, s[1..]);
        [s[0]] + rest
  }

  // ---------------------------------------------------------------------
  // The pipeline
  // ---------------------------------------------------------------------

  /** The text of the first `json.loads` attempt. */
  function Repaired(text: string): string {
    StripTrailingCommas(StripComments(Payload(text)))
  }

  const ParseFailureMessage := "Failed to parse JSON from LLM response"

  /**
   * `parse_gemini_json_output`: decode the repaired text; failing that, the
   * repaired text without newlines, carriage returns and tabs; failing that,
   * report an error (the `ValueError`).
   */
  function ParseGeminiJsonOutput(text: string, loads: string -> Option<Value>): (r: Result<Value, string>)
    ensures r.Ok? <==> loads(Repaired(text)).Some? || loads(RemoveLineControls(Repaired(text))).Some?
    ensures loads(Repaired(text)).Some? ==> r == Ok(loads(Repaired(text)).value)
    ensures r.Ok? && loads(Repaired(text)).None? ==> r == Ok(loads(RemoveLineControls(Repaired(text))).value)
    ensures r.Err? ==> r.error == ParseFailureMessage
  {
    var json := Repaired(text);
    match loads(json)
    case Some(v) => Ok(v)
    case None =>
      match loads(RemoveLineControls(json))
      case Some(v) => Ok(v)
      case None => Err(ParseFailureMessage)
  }

  /**
   * Both extraction paths first decode the raw response and fall back to the
   * repair pipeline only when that fails; a pipeline error yields no record.
   */
  function DecodeModelResponse(text: string, loads: string -> Option<Value>): (r: Option<Value>)
    ensures loads(text).Some? ==> r == loads(text)
    ensures loads(text).None? ==> (r.Some? <==> ParseGeminiJsonOutput(text, loads).Ok?)
    ensures loads(text).None? && r.Some? ==> r.value == ParseGeminiJsonOutput(text, loads).value
  {
    if loads(text).Some? then loads(text)
    else
      match ParseGeminiJsonOutput(text, loads)
      case Ok(v) => Some(v)
      case Err(_) => None
  }

  predicate NoTick(s: string) {
    forall i :: 0 <= i < |s| ==> s[i] != '`'
  }

  /**
   * A reply that opens with a fenced ```json block: the payload is the
   * block's text between the whitespace after the opener and the whitespace
   * before the closer.
   */
  lemma FencedReplyPayload(w1: string, body: string, w2: string, rest: string)
    requires AllSpace(w1) && AllSpace(w2)
    requires body != [] && Trimmed(body) && NoTick(body)
    ensures Payload("```json" + w1 + body + w2 + "```" + rest) == body
  {
    var text := "```json" + w1 + body + w2 + "```" + rest;
    var a := 7 + |w1|;
    var e := a + |body|;
    assert text[..7] == "```json";
    assert text[7..a] == w1;
    assert text[a..e] == body;
    assert text[e..e + |w2|] == w2;
    assert text[e + |w2|..e + |w2| + 3] == "```";
    FenceLayout(text, w1, body, w2);
  }

  /** The same, for any text laid out as opener, whitespace, body, whitespace, closer. */
  lemma FenceLayout(text: string, w1: string, body: string, w2: string)
    requires AllSpace(w1) && AllSpace(w2)
    requires body != [] && Trimmed(body) && NoTick(body)
    requires 7 + |w1| + |body| + |w2| + 3 <= |text|
    requires text[..7] == "```json"
    requires text[7..7 + |w1|] == w1
    requires text[7 + |w1|..7 + |w1| + |body|] == body
    requires text[7 + |w1| + |body|..7 + |w1| + |body| + |w2|] == w2
    requires text[7 + |w1| + |body| + |w2|..7 + |w1| + |body| + |w2| + 3] == "```"
    ensures Payload(text) == body
  {
    var a := 7 + |w1|;
    var e := a + |body|;
    var c := e + |w2|;
    assert text[a] == body[0] && text[e - 1] == body[|body| - 1];
    var closer := text[c..c + 3];
    assert closer[0] == '`' && closer[1] == '`' && closer[2] == '`';
    assert text[c] == closer[0] && text[c + 1] == closer[1] && text[c + 2] == closer[2];
    assert OpensAt(text, 0);
    SpaceRunExact(text, 7, w1);
    SpaceRunExact(text, e, w2);
    assert FenceMatch(text, 0, e);
    NoEarlierCloser(text, a, e);
    FencedBlockIsPayload(text, 0, e);
  }

  /** No closing fence can be reached from inside a tick-free, trimmed body. */
  lemma NoEarlierCloser(text: string, a: nat, e: nat)
    requires a < e <= |text| && OpensAt(text, 0) && BodyStart(text, 0) == a
    requires NoTick(text[a..e]) && !IsSpace(text[e - 1])
    ensures forall e': nat | e' < e :: !FenceMatch(text, 0, e')
  {
    forall e': nat | a <= e' < e ensures !CloserFrom(text, e') {
      SpaceRunStops(text, e', e - 1);
      var q := e' + SpaceRun(text, e');
      assert text[q] == text[a..e][q - a];
    }
  }

  /** The trailing-comma pass copies a comma-free prefix unchanged. */
  lemma {:induction false} TrailingCommasCommaFreePrefix(x: string, y: string)
    requires forall i :: 0 <= i < |x| ==> x[i] != ','
    ensures StripTrailingCommas(x + y) == x + StripTrailingCommas(y)
    decreases |x|
  {
    if x == [] {
      assert x + y == y;
    } else {
      assert (x + y)[0] == x[0] && (x + y)[1..] == x[1..] + y;
      TrailingCommasCommaFreePrefix(x[1..], y);
      assert x == [x[0]] + x[1..];
    }
  }

  /**
   * A fenced reply with a trailing comma inside a list is repaired to the
   * JSON without it.
   */
  lemma RepairFencedTrailingComma()
    ensures Repaired("```json\n{\"a\":[1,]}\n```") == "{\"a\":[1]}"
  {
    var body := "{\"a\":[1,]}";
    assert "```json\n{\"a\":[1,]}\n```" == "```json" + "\n" + body + "\n" + "```" + "";
    ExampleBody();
    FencedReplyPayload("\n", body, "\n", "");
    NoCommentLineUnchanged(body);
    ExampleCommas();
  }

  lemma ExampleBody()
    ensures Trimmed("{\"a\":[1,]}") && NoTick("{\"a\":[1,]}") && NoNewline("{\"a\":[1,]}")
    ensures forall i :: 0 <= i < 9 ==> !("{\"a\":[1,]}"[i] == '/' && "{\"a\":[1,]}"[i + 1] == '/')
  {
  }

  lemma ExampleCommas()
    ensures StripTrailingCommas("{\"a\":[1,]}") == "{\"a\":[1]}"
  {
    assert "{\"a\":[1,]}" == "{\"a\":[1" + ",]}";
    TrailingCommasCommaFreePrefix("{\"a\":[1", ",]}");
    assert CommaBeforeClose(",]}");
    assert ",]}"[2..] == "}";
    TrailingCommasCommaFreePrefix("}", "");
  }
}
