/**
 * Company-name normalisation and slugs: `normalizeCompanyName` and
 * `createSlug` of the compiler. Each regular expression of the source is a
 * character-level function here:
 *   - the global character class of punctuation deletes the characters of `Stripped`;
 *   - `\s+` replaces every maximal run of `IsSpace` characters (`ReplaceRuns`);
 *   - the global, case-insensitive `\b(inc|corp|...)\b` deletes whole words
 *     (`RemoveStopwords`, a left-to-right scan in the regex engine's order);
 *   - `-+` replaces every maximal run of hyphens.
 * `toLowerCase` is modelled on ASCII letters only.
 */
module Names {

  /** The characters deleted by the punctuation class, in the order the class lists them. */
  const Stripped: string := ".,/#!$%^&*;:{}=-_`~()"

  /** The alternatives of the corporate-suffix regex, in the order the engine tries them. */
  const Stopwords: seq<string> := [
    "inc", "corp", "corporation", "ltd", "llc", "co", "company", "technologies",
    "technology", "software", "systems", "holdings", "group", "plc", "nv", "sa"
  ]

  /** JavaScript's `\s`, which is also the set `trim()` removes. */
  predicate IsSpace(c: char) {
    var n := c as int;
    || 9 <= n <= 13
    || n == 32 || n == 0xA0 || n == 0x1680
    || 0x2000 <= n <= 0x200A
    || n == 0x2028 || n == 0x2029 || n == 0x202F || n == 0x205F
    || n == 0x3000 || n == 0xFEFF
  }

  /** The word characters that decide `\b` (no unicode flag): `[A-Za-z0-9_]`. */
  predicate IsWordChar(c: char) {
    ('a' <= c <= 'z') || ('A' <= c <= 'Z') || ('0' <= c <= '9') || c == '_'
  }

  predicate IsStripped(c: char)
    ensures IsStripped(c) <==> c in Stripped
  {
    || c == '.' || c == ',' || c == '/' || c == '#' || c == '!' || c == '$' || c == '%'
    || c == '^' || c == '&' || c == '*' || c == ';' || c == ':' || c == '{' || c == '}'
    || c == '=' || c == '-' || c == '_' || c == '`' || c == '~' || c == '(' || c == ')'
  }

  predicate IsHyphen(c: char) {
    c == '-'
  }

  /** Every character of `t` satisfies `p`. */
  ghost predicate All(t: string, p: char -> bool) {
    forall i :: 0 <= i < |t| ==> p(t[i])
  }

  predicate IsUpper(c: char) {
    'A' <= c <= 'Z'
  }

  /** ASCII `toLowerCase` of one character: a capital becomes its small letter, anything else is kept. */
  function LowerChar(c: char): (d: char)
    ensures !IsUpper(d)
    ensures !IsUpper(c) ==> d == c
    ensures IsUpper(c) ==> 'a' <= d <= 'z' && d as int - 'a' as int == c as int - 'A' as int
    ensures IsWordChar(d) <==> IsWordChar(c)
    ensures 'a' <= d <= 'z' ==> ('a' <= c <= 'z' || 'A' <= c <= 'Z')
  {
    if 'A' <= c <= 'Z' then (c as int + 32) as char else c
  }

  /** `toLowerCase()`: no capital is left, and every other character stays in place. */
  function Lower(s: string): (r: string)
    ensures |r| == |s|
    ensures forall i :: 0 <= i < |s| ==> !IsUpper(r[i])
    ensures forall i :: 0 <= i < |s| && !IsUpper(s[i]) ==> r[i] == s[i]
    ensures forall i :: 0 <= i < |s| && IsUpper(s[i]) ==> r[i] as int - s[i] as int == 'a' as int - 'A' as int
    ensures forall i :: 0 <= i < |s| ==> r[i] == LowerChar(s[i])
  {
    seq(|s|, i requires 0 <= i < |s| => LowerChar(s[i]))
  }

  /** Lower-casing twice is lower-casing once. */
  lemma LowerIdempotent(s: string)
    ensures Lower(Lower(s)) == Lower(s)
  {
  }

  /** `replace(/[.,\/#!$%\^&\*;:{}=\-_`~()]/g, '')`: keeps exactly the characters not in `Stripped`. */
  function StripPunctuation(s: string): (t: string)
    ensures forall c :: c in t <==> c in s && !IsStripped(c)
    ensures |t| <= |s|
  {
    if s == [] then []
    else (if IsStripped(s[0]) then [] else [s[0]]) + StripPunctuation(s[1..])
  }

  /** Every character outside the class is kept as often as it occurs; the class's characters are all removed. */
  lemma {:induction false} StripCounts(s: string)
    ensures forall c :: multiset(StripPunctuation(s))[c] == if IsStripped(c) then 0 else multiset(s)[c]
    decreases |s|
  {
    if s != [] {
      StripCounts(s[1..]);
      assert s == [s[0]] + s[1..];
    }
  }

  /** Stripping works piece by piece, so the kept characters stay in their order. */
  lemma {:induction false} StripAppend(a: string, b: string)
    ensures StripPunctuation(a + b) == StripPunctuation(a) + StripPunctuation(b)
    decreases |a|
  {
    if a == [] {
      assert a + b == b;
    } else {
      var h := if IsStripped(a[0]) then [] else [a[0]];
      assert (a + b)[0] == a[0] && (a + b)[1..] == a[1..] + b;
      assert StripPunctuation(a + b) == h + StripPunctuation(a[1..] + b);
      StripAppend(a[1..], b);
      ConcatAssoc(StripPunctuation(a + b), h, StripPunctuation(a[1..]), StripPunctuation(b));
    }
  }

  lemma ConcatAssoc<T>(s: seq<T>, h: seq<T>, x: seq<T>, y: seq<T>)
    requires s == h + (x + y)
    ensures s == (h + x) + y
  {
  }

  /** Drops the maximal prefix of `s` whose characters satisfy `p`. */
  function SkipRun(s: string, p: char -> bool): (r: string)
    ensures |r| <= |s| && r == s[|s| - |r|..]
    ensures All(s[..|s| - |r|], p)
    ensures r != [] ==> !p(r[0])
  {
    if s != [] && p(s[0]) then
      var r := SkipRun(s[1..], p);
      SkipRunStep(s, r, p);
      r
    else s
  }

  lemma SkipRunStep(s: string, r: string, p: char -> bool)
    requires s != [] && p(s[0])
    requires |r| <= |s| - 1 && r == s[1..][|s| - 1 - |r|..] && All(s[1..][..|s| - 1 - |r|], p)
    ensures r == s[|s| - |r|..] && All(s[..|s| - |r|], p)
  {
    var k := |s| - |r|;
    assert s[1..][k - 1..] == s[k..];
    forall i | 0 <= i < k ensures p(s[..k][i]) {
      if i > 0 {
        assert s[..k][i] == s[1..][..k - 1][i - 1];
      }
    }
  }

  /**
   * A global `replace(/P+/g, r)`: each maximal run of `p`-characters becomes the
   * single character `r`, and every other character is kept.
   */
  function ReplaceRuns(s: string, p: char -> bool, r: char): (t: string)
    ensures (t == []) == (s == [])
    ensures s != [] ==> t[0] == (if p(s[0]) then r else s[0])
    decreases |s|
  {
    if s == [] then []
    else if p(s[0]) then [r] + ReplaceRuns(SkipRun(s[1..], p), p, r)
    else [s[0]] + ReplaceRuns(s[1..], p, r)
  }

  /** Skipping a run keeps only characters of `s`, and every non-`p` one. */
  lemma {:induction false} SkipRunChars(s: string, p: char -> bool)
    ensures forall c :: c in SkipRun(s, p) ==> c in s
    ensures forall c :: c in s && !p(c) ==> c in SkipRun(s, p)
    decreases |s|
  {
    if s != [] && p(s[0]) {
      SkipRunChars(s[1..], p);
      assert forall c :: c in s ==> c == s[0] || c in s[1..];
    }
  }

  /** The result holds `r` and the input's non-`p` characters, and nothing else. */
  lemma {:induction false} ReplaceRunsChars(s: string, p: char -> bool, r: char)
    ensures forall c :: c in ReplaceRuns(s, p, r) ==> c == r || (c in s && !p(c))
    ensures forall c :: c in s && !p(c) ==> c in ReplaceRuns(s, p, r)
    decreases |s|
  {
    if s != [] {
      assert forall c :: c in s ==> c == s[0] || c in s[1..];
      if p(s[0]) {
        var rest := SkipRun(s[1..], p);
        ReplaceRunsChars(rest, p, r);
        SkipRunChars(s[1..], p);
      } else {
        ReplaceRunsChars(s[1..], p, r);
      }
    }
  }

  /** Skipping a run stops at the first character outside it, whatever follows. */
  lemma {:induction false} SkipRunAppend(x: string, y: string, p: char -> bool)
    requires y != [] && !p(y[0])
    ensures SkipRun(x + y, p) == SkipRun(x, p) + y
    decreases |x|
  {
    if x == [] {
      assert x + y == y;
    } else if p(x[0]) {
      assert (x + y)[0] == x[0] && (x + y)[1..] == x[1..] + y;
      SkipRunAppend(x[1..], y, p);
    } else {
      assert (x + y)[0] == x[0];
    }
  }

  /** A string made only of `p`-characters is skipped whole. */
  lemma {:induction false} SkipRunAll(s: string, p: char -> bool)
    requires All(s, p)
    ensures SkipRun(s, p) == []
    decreases |s|
  {
    if s != [] {
      assert All(s[1..], p) by {
        forall i | 0 <= i < |s[1..]| ensures p(s[1..][i]) {
          assert s[1..][i] == s[i + 1];
        }
      }
      SkipRunAll(s[1..], p);
    }
  }

  /** A whole run becomes the one replacement character. */
  lemma ReplaceRunsOfRun(s: string, p: char -> bool, r: char)
    requires s != [] && All(s, p)
    ensures ReplaceRuns(s, p, r) == [r]
  {
    assert All(s[1..], p) by {
      forall i | 0 <= i < |s[1..]| ensures p(s[1..][i]) {
        assert s[1..][i] == s[i + 1];
      }
    }
    SkipRunAll(s[1..], p);
  }

  /** Characters outside every run are kept as they are. */
  lemma {:induction false} ReplaceRunsPlain(s: string, p: char -> bool, r: char)
    requires forall i :: 0 <= i < |s| ==> !p(s[i])
    ensures ReplaceRuns(s, p, r) == s
    decreases |s|
  {
    if s != [] {
      assert forall i :: 0 <= i < |s[1..]| ==> s[1..][i] == s[i + 1];
      ReplaceRunsPlain(s[1..], p, r);
      assert s == [s[0]] + s[1..];
    }
  }

  /**
   * Replacement splits in front of a character outside the runs: the parts on
   * either side are replaced on their own. With `ReplaceRunsOfRun` and
   * `ReplaceRunsPlain` this says each maximal run becomes one `r`, in place.
   */
  lemma {:induction false} ReplaceRunsSplit(a: string, y: string, p: char -> bool, r: char)
    requires y != [] && !p(y[0])
    ensures ReplaceRuns(a + y, p, r) == ReplaceRuns(a, p, r) + ReplaceRuns(y, p, r)
    decreases |a|
  {
    if a == [] {
      assert a + y == y;
    } else {
      ReplaceRunsSplit(AfterHead(a, p), y, p, r);
      SplitStep(a, y, p, r);
    }
  }

  /** What `ReplaceRuns` writes for the first character, or the first run, of `a`. */
  function HeadOut(a: string, p: char -> bool, r: char): string
    requires a != []
  {
    if p(a[0]) then [r] else [a[0]]
  }

  /** What `ReplaceRuns` still has to read after the first character, or the first run, of `a`. */
  function AfterHead(a: string, p: char -> bool): (x: string)
    requires a != []
    ensures |x| < |a|
  {
    if p(a[0]) then SkipRun(a[1..], p) else a[1..]
  }

  lemma ReplaceRunsHead(a: string, p: char -> bool, r: char)
    requires a != []
    ensures ReplaceRuns(a, p, r) == HeadOut(a, p, r) + ReplaceRuns(AfterHead(a, p), p, r)
  {
  }

  /** Appending after a character outside the runs does not change how `a` begins. */
  lemma AfterHeadAppend(a: string, y: string, p: char -> bool, r: char)
    requires a != [] && y != [] && !p(y[0])
    ensures a + y != [] && HeadOut(a + y, p, r) == HeadOut(a, p, r) && AfterHead(a + y, p) == AfterHead(a, p) + y
  {
    assert (a + y)[0] == a[0] && (a + y)[1..] == a[1..] + y;
    if p(a[0]) {
      SkipRunAppend(a[1..], y, p);
    }
  }

  lemma SplitStep(a: string, y: string, p: char -> bool, r: char)
    requires a != [] && y != [] && !p(y[0])
    requires ReplaceRuns(AfterHead(a, p) + y, p, r) == ReplaceRuns(AfterHead(a, p), p, r) + ReplaceRuns(y, p, r)
    ensures ReplaceRuns(a + y, p, r) == ReplaceRuns(a, p, r) + ReplaceRuns(y, p, r)
  {
    HeadAppend(a, y, p, r);
    ReplaceRunsHead(a, p, r);
    ConcatAssoc(ReplaceRuns(a + y, p, r), HeadOut(a, p, r), ReplaceRuns(AfterHead(a, p), p, r), ReplaceRuns(y, p, r));
  }

  lemma HeadAppend(a: string, y: string, p: char -> bool, r: char)
    requires a != [] && y != [] && !p(y[0])
    ensures ReplaceRuns(a + y, p, r) == HeadOut(a, p, r) + ReplaceRuns(AfterHead(a, p) + y, p, r)
  {
    AfterHeadAppend(a, y, p, r);
    ReplaceRunsHead(a + y, p, r);
  }

  /** No two neighbouring characters of `t` both satisfy `p`. */
  ghost predicate Separated(t: string, p: char -> bool) {
    forall i :: 0 <= i < |t| - 1 && p(t[i]) ==> !p(t[i + 1])
  }

  /** A `p`-character of the result is never followed by another one. */
  lemma {:induction false} ReplaceRunsSeparated(s: string, p: char -> bool, r: char)
    ensures Separated(ReplaceRuns(s, p, r), p)
    decreases |s|
  {
    if s == [] {
    } else if p(s[0]) {
      var rest := SkipRun(s[1..], p);
      ReplaceRunsSeparated(rest, p, r);
      var u := ReplaceRuns(rest, p, r);
      var t := ReplaceRuns(s, p, r);
      assert t == [r] + u;
      assert u != [] ==> !p(u[0]);
      forall i | 1 <= i < |t| - 1 && p(t[i]) ensures !p(t[i + 1]) {
        assert t[i] == u[i - 1] && t[i + 1] == u[i];
      }
    } else {
      ReplaceRunsSeparated(s[1..], p, r);
      var u := ReplaceRuns(s[1..], p, r);
      var t := ReplaceRuns(s, p, r);
      assert t == [s[0]] + u;
      forall i | 1 <= i < |t| - 1 && p(t[i]) ensures !p(t[i + 1]) {
        assert t[i] == u[i - 1] && t[i + 1] == u[i];
      }
    }
  }

  /** The result ends with the input's last character, or with `r` when that one is a `p`-character. */
  lemma {:induction false} ReplaceRunsLast(s: string, p: char -> bool, r: char)
    requires s != []
    ensures EndsAsReplaced(s, p, r)
    decreases |s|
  {
    if p(s[0]) {
      var rest := SkipRun(s[1..], p);
      if rest != [] {
        ReplaceRunsLast(rest, p, r);
      }
      RunHeadLast(s, p, r);
    } else if |s| > 1 {
      ReplaceRunsLast(s[1..], p, r);
      PlainHeadLast(s, p, r);
    }
  }

  /** The replacement ends with the last character of `s`, or with `r` when that one is a `p`-character. */
  ghost predicate EndsAsReplaced(s: string, p: char -> bool, r: char)
    requires s != []
  {
    var t := ReplaceRuns(s, p, r);
    t[|t| - 1] == (if p(s[|s| - 1]) then r else s[|s| - 1])
  }

  lemma RunHeadLast(s: string, p: char -> bool, r: char)
    requires s != [] && p(s[0])
    requires SkipRun(s[1..], p) != [] ==> EndsAsReplaced(SkipRun(s[1..], p), p, r)
    ensures EndsAsReplaced(s, p, r)
  {
    var rest := SkipRun(s[1..], p);
    ConsLast(r, ReplaceRuns(rest, p, r));
    if |s| > 1 {
      SkipRunLast(s[1..], p);
      assert s[1..][|s| - 2] == s[|s| - 1];
    }
  }

  lemma PlainHeadLast(s: string, p: char -> bool, r: char)
    requires |s| > 1 && !p(s[0])
    requires EndsAsReplaced(s[1..], p, r)
    ensures EndsAsReplaced(s, p, r)
  {
    ConsLast(s[0], ReplaceRuns(s[1..], p, r));
    assert s[1..][|s| - 2] == s[|s| - 1];
  }

  lemma ConsLast(c: char, u: string)
    ensures ([c] + u)[|u|] == if u == [] then c else u[|u| - 1]
  {
  }

  /** Skipping a run keeps the last character, unless the whole input is the run. */
  lemma SkipRunLast(s: string, p: char -> bool)
    requires s != []
    ensures var rest := SkipRun(s, p);
      if rest == [] then p(s[|s| - 1]) else rest[|rest| - 1] == s[|s| - 1]
  {
    var rest := SkipRun(s, p);
    if rest == [] {
      assert s[..|s|] == s;
    }
  }

  function CollapseSpaces(s: string): string {
    ReplaceRuns(s, IsSpace, ' ')
  }

  /** `trimStart()`: the suffix left after dropping the leading whitespace. */
  function TrimStart(s: string): (r: string)
    ensures |r| <= |s| && r == s[|s| - |r|..]
    ensures All(s[..|s| - |r|], IsSpace)
    ensures r != [] ==> !IsSpace(r[0])
  {
    SkipRun(s, IsSpace)
  }

  /** `trimEnd()`: the prefix left after dropping the trailing whitespace. */
  function TrimEnd(s: string): (r: string)
    ensures |r| <= |s| && r == s[..|r|]
    ensures All(s[|r|..], IsSpace)
    ensures r != [] ==> !IsSpace(r[|r| - 1])
  {
    if s != [] && IsSpace(s[|s| - 1]) then
      var r := TrimEnd(s[..|s| - 1]);
      TrimEndStep(s, r);
      r
    else s
  }

  lemma TrimEndStep(s: string, r: string)
    requires s != [] && IsSpace(s[|s| - 1])
    requires |r| <= |s| - 1 && r == s[..|s| - 1][..|r|] && All(s[..|s| - 1][|r|..], IsSpace)
    ensures r == s[..|r|] && All(s[|r|..], IsSpace)
  {
    var k := |r|;
    assert s[..|s| - 1][..k] == s[..k];
    forall i | 0 <= i < |s| - k ensures IsSpace(s[k..][i]) {
      if i < |s| - 1 - k {
        assert s[k..][i] == s[..|s| - 1][k..][i];
      }
    }
  }

  /** `trim()`. */
  function Trim(s: string): string {
    TrimEnd(TrimStart(s))
  }

  /**
   * `trim()` keeps the contiguous piece of `s` between its leading and its
   * trailing whitespace; that piece neither starts nor ends with whitespace.
   */
  lemma TrimShape(s: string)
    ensures var r := Trim(s); var k := |s| - |TrimStart(s)|;
      && (r == [] || (!IsSpace(r[0]) && !IsSpace(r[|r| - 1])))
      && (forall c :: c in r ==> c in s)
      && k + |r| <= |s| && r == s[k..k + |r|]
      && All(s[..k], IsSpace) && All(s[k + |r|..], IsSpace)
  {
    TrimEnds(s);
    TrimSlice(s);
    TrimPiece(s);
  }

  /** `trim()` cuts only whitespace, from the front and from the back. */
  lemma TrimPiece(s: string)
    ensures var r := Trim(s); var k := |s| - |TrimStart(s)|;
      && k + |r| <= |s| && r == s[k..k + |r|]
      && All(s[..k], IsSpace) && All(s[k + |r|..], IsSpace)
  {
    var t := TrimStart(s);
    var r := TrimEnd(t);
    var k := |s| - |t|;
    SuffixSlices(s, k, |r|);
  }

  /** Slicing a suffix is slicing the whole sequence further along. */
  lemma SuffixSlices<T>(s: seq<T>, k: nat, n: nat)
    requires k + n <= |s|
    ensures s[k..][..n] == s[k..k + n] && s[k..][n..] == s[k + n..]
  {
  }

  /** `trim()` leaves no whitespace at either end. */
  lemma TrimEnds(s: string)
    ensures var r := Trim(s); r == [] || (!IsSpace(r[0]) && !IsSpace(r[|r| - 1]))
  {
    var t := TrimStart(s);
    var r := TrimEnd(t);
    if r != [] {
      assert r[0] == t[0];
    }
  }

  /** `trim()` keeps only characters of its input. */
  lemma TrimSlice(s: string)
    ensures forall c :: c in Trim(s) ==> c in s
  {
    SkipRunChars(s, IsSpace);
    TrimEndChars(TrimStart(s));
  }

  lemma {:induction false} TrimEndChars(s: string)
    ensures forall c :: c in TrimEnd(s) ==> c in s
    decreases |s|
  {
    if s != [] && IsSpace(s[|s| - 1]) {
      TrimEndChars(s[..|s| - 1]);
      assert forall c :: c in s[..|s| - 1] ==> c in s;
    }
  }

  /** Length of the maximal run of word characters at the start of `s`. */
  function WordRun(s: string): (n: nat)
    ensures n <= |s|
    ensures All(s[..n], IsWordChar)
    ensures n < |s| ==> !IsWordChar(s[n])
  {
    if s != [] && IsWordChar(s[0]) then 1 + WordRun(s[1..]) else 0
  }

  /**
   * Whether alternative `w` of the suffix regex matches at the start of `s`:
   * `w` case-insensitively, then a word boundary (the end, or a non-word character).
   */
  predicate MatchesAt(s: string, w: string) {
    |w| <= |s| && Lower(s[..|w|]) == w && (|w| == |s| || !IsWordChar(s[|w|]))
  }

  /** Length of the first alternative in `ws` that matches at the start of `s`; 0 when none does. */
  function FirstMatch(s: string, ws: seq<string>): (n: nat)
    ensures n <= |s|
  {
    if ws == [] then 0
    else if MatchesAt(s, ws[0]) then |ws[0]|
    else FirstMatch(s, ws[1..])
  }

  /**
   * The regex engine's scan for `\b(w1|w2|...)\b` with the global and
   * case-insensitive flags: wherever a word boundary precedes (`afterWord` is
   * false) it tries the alternatives `ws` in order; a match is deleted and the
   * scan resumes after it.
   */
  function ScanWords(s: string, afterWord: bool, ws: seq<string>): (t: string)
    ensures forall c :: c in t ==> c in s
    decreases |s|
  {
    if s == [] then []
    else if !afterWord && FirstMatch(s, ws) > 0 then
      ScanWords(s[FirstMatch(s, ws)..], true, ws)
    else [s[0]] + ScanWords(s[1..], IsWordChar(s[0]), ws)
  }

  /** `replace(/\b(inc|corp|...)\b/gi, '')`. */
  function RemoveStopwords(s: string): (t: string)
    ensures forall c :: c in t ==> c in s
  {
    ScanWords(s, false, Stopwords)
  }

  /** Whether `w` is one of `ws`, compared case-insensitively. */
  predicate IsListed(w: string, ws: seq<string>) {
    Lower(w) in ws
  }

  /**
   * Reference definition of whole-word removal, token by token: every maximal
   * run of word characters listed in `ws` is deleted; everything else is kept
   * in order.
   */
  function DropWords(s: string, ws: seq<string>): string
    decreases |s|
  {
    if s == [] then []
    else if !IsWordChar(s[0]) then [s[0]] + DropWords(s[1..], ws)
    else
      var n := WordRun(s);
      (if IsListed(s[..n], ws) then [] else s[..n]) + DropWords(s[n..], ws)
  }

  /** A non-empty run of lower-case ASCII letters. */
  ghost predicate LowerWord(w: string) {
    |w| > 0 && forall i :: 0 <= i < |w| ==> 'a' <= w[i] <= 'z'
  }

  ghost predicate LowerWords(ws: seq<string>) {
    forall w :: w in ws ==> LowerWord(w)
  }

  /** Each suffix is a lower-case word; one lemma per word keeps each proof small. */
  lemma IncIsLowerWord() ensures LowerWord("inc") {}
  lemma CorpIsLowerWord() ensures LowerWord("corp") {}
  lemma CorporationIsLowerWord() ensures LowerWord("corporation") {}
  lemma LtdIsLowerWord() ensures LowerWord("ltd") {}
  lemma LlcIsLowerWord() ensures LowerWord("llc") {}
  lemma CoIsLowerWord() ensures LowerWord("co") {}
  lemma CompanyIsLowerWord() ensures LowerWord("company") {}
  lemma TechnologiesIsLowerWord() ensures LowerWord("technologies") {}
  lemma TechnologyIsLowerWord() ensures LowerWord("technology") {}
  lemma SoftwareIsLowerWord() ensures LowerWord("software") {}
  lemma SystemsIsLowerWord() ensures LowerWord("systems") {}
  lemma HoldingsIsLowerWord() ensures LowerWord("holdings") {}
  lemma GroupIsLowerWord() ensures LowerWord("group") {}
  lemma PlcIsLowerWord() ensures LowerWord("plc") {}
  lemma NvIsLowerWord() ensures LowerWord("nv") {}
  lemma SaIsLowerWord() ensures LowerWord("sa") {}

  lemma StopwordsAreLowerWords()
    ensures LowerWords(Stopwords)
  {
    IncIsLowerWord(); CorpIsLowerWord(); CorporationIsLowerWord(); LtdIsLowerWord();
    LlcIsLowerWord(); CoIsLowerWord(); CompanyIsLowerWord(); TechnologiesIsLowerWord();
    TechnologyIsLowerWord(); SoftwareIsLowerWord(); SystemsIsLowerWord(); HoldingsIsLowerWord();
    GroupIsLowerWord(); PlcIsLowerWord(); NvIsLowerWord(); SaIsLowerWord();
  }

  /** An alternative matches at the start of `s` exactly when it is the leading word of `s`. */
  lemma MatchesAtIff(s: string, w: string)
    requires LowerWord(w)
    ensures MatchesAt(s, w) <==> Lower(s[..WordRun(s)]) == w
  {
    if MatchesAt(s, w) {
      forall i | 0 <= i < |w| ensures IsWordChar(s[i]) {
        assert Lower(s[..|w|])[i] == LowerChar(s[i]);
      }
    }
  }

  /**
   * The engine's first matching alternative is the leading word of `s` when that
   * word is listed, and nothing otherwise.
   */
  lemma {:induction false} FirstMatchSpec(s: string, ws: seq<string>)
    requires LowerWords(ws)
    ensures FirstMatch(s, ws) > 0 <==> IsListed(s[..WordRun(s)], ws)
    ensures FirstMatch(s, ws) > 0 ==> FirstMatch(s, ws) == WordRun(s)
    decreases |ws|
  {
    if ws != [] {
      MatchesAtIff(s, ws[0]);
      FirstMatchSpec(s, ws[1..]);
      assert forall w :: w in ws ==> w == ws[0] || w in ws[1..];
    }
  }

  /** Where no alternative matches, the scan copies one character. */
  lemma ScanCopies(s: string, afterWord: bool, ws: seq<string>)
    requires s != [] && (afterWord || FirstMatch(s, ws) == 0)
    ensures ScanWords(s, afterWord, ws) == [s[0]] + ScanWords(s[1..], IsWordChar(s[0]), ws)
  {
  }

  /** A word run read after its first character. */
  lemma WordRunTail(s: string)
    requires s != [] && IsWordChar(s[0])
    ensures WordRun(s) == 1 + WordRun(s[1..])
    ensures s[..WordRun(s)] == [s[0]] + s[1..][..WordRun(s) - 1]
    ensures s[1..][WordRun(s) - 1..] == s[WordRun(s)..]
  {
  }

  /** A separator cannot start a listed word. */
  lemma NoMatchAtSeparator(s: string, ws: seq<string>)
    requires LowerWords(ws)
    requires s != [] && !IsWordChar(s[0])
    ensures FirstMatch(s, ws) == 0 && WordRun(s) == 0
  {
    FirstMatchSpec(s, ws);
    assert Lower(s[..0]) == [];
  }

  /** Right after a word character the scan copies the rest of the word unchanged. */
  lemma {:induction false} ScanAfterWord(s: string, ws: seq<string>)
    requires LowerWords(ws)
    ensures ScanWords(s, true, ws) == s[..WordRun(s)] + ScanWords(s[WordRun(s)..], false, ws)
    decreases |s|
  {
    if s == [] {
    } else if IsWordChar(s[0]) {
      ScanCopies(s, true, ws);
      ScanAfterWord(s[1..], ws);
      WordRunTail(s);
    } else {
      NoMatchAtSeparator(s, ws);
      ScanCopies(s, true, ws);
      ScanCopies(s, false, ws);
    }
  }

  /** At a separator the scan copies it and goes on with a boundary behind it. */
  lemma ScanAtSeparator(s: string, ws: seq<string>)
    requires LowerWords(ws)
    requires s != [] && !IsWordChar(s[0])
    ensures ScanWords(s, false, ws) == [s[0]] + ScanWords(s[1..], false, ws)
  {
    NoMatchAtSeparator(s, ws);
    ScanCopies(s, false, ws);
  }

  /** At the start of a listed word the scan deletes the word. */
  lemma ScanAtListed(s: string, ws: seq<string>)
    requires LowerWords(ws)
    requires s != [] && IsWordChar(s[0]) && IsListed(s[..WordRun(s)], ws)
    ensures ScanWords(s, false, ws) == ScanWords(s[WordRun(s)..], false, ws)
  {
    FirstMatchSpec(s, ws);
    var n := WordRun(s);
    assert ScanWords(s, false, ws) == ScanWords(s[n..], true, ws);
    ScanAfterWord(s[n..], ws);
    assert WordRun(s[n..]) == 0;
    assert s[n..][0..] == s[n..];
  }

  /** At the start of any other word the scan copies the word. */
  lemma ScanAtKeptWord(s: string, ws: seq<string>)
    requires LowerWords(ws)
    requires s != [] && IsWordChar(s[0]) && !IsListed(s[..WordRun(s)], ws)
    ensures ScanWords(s, false, ws) == s[..WordRun(s)] + ScanWords(s[WordRun(s)..], false, ws)
  {
    NoMatchAtKeptWord(s, ws);
    ScanCopies(s, false, ws);
    var k := WordRun(s[1..]);
    ScanAfterWord(s[1..], ws);
    WordRunTail(s);
    Regroup(ScanWords(s, false, ws), ScanWords(s[1..], true, ws), s[0], s[1..][..k], ScanWords(s[1..][k..], false, ws), s[..WordRun(s)]);
  }

  lemma Regroup(x: string, y: string, c: char, a: string, b: string, w: string)
    requires x == [c] + y && y == a + b && w == [c] + a
    ensures x == w + b
  {
  }

  lemma NoMatchAtKeptWord(s: string, ws: seq<string>)
    requires LowerWords(ws)
    requires !IsListed(s[..WordRun(s)], ws)
    ensures FirstMatch(s, ws) == 0
  {
    FirstMatchSpec(s, ws);
  }

  /** The regex engine's scan deletes exactly the listed words of the token-level definition. */
  lemma {:induction false} ScanWordsIsDropWords(s: string, ws: seq<string>)
    requires LowerWords(ws)
    ensures ScanWords(s, false, ws) == DropWords(s, ws)
    decreases |s|
  {
    if s != [] {
      if !IsWordChar(s[0]) {
        ScanAtSeparator(s, ws);
        ScanWordsIsDropWords(s[1..], ws);
      } else {
        if IsListed(s[..WordRun(s)], ws) {
          ScanAtListed(s, ws);
        } else {
          ScanAtKeptWord(s, ws);
        }
        ScanWordsIsDropWords(s[WordRun(s)..], ws);
      }
    }
  }

  /** The suffix regex deletes exactly the maximal words that are suffix words. */
  lemma RemoveStopwordsIsDrop(s: string)
    ensures RemoveStopwords(s) == DropWords(s, Stopwords)
  {
    StopwordsAreLowerWords();
    ScanWordsIsDropWords(s, Stopwords);
  }

  /** Read token by token, no word of `t` is listed in `ws`. */
  ghost predicate NoListedWord(t: string, ws: seq<string>)
    decreases |t|
  {
    if t == [] then true
    else if !IsWordChar(t[0]) then NoListedWord(t[1..], ws)
    else !IsListed(t[..WordRun(t)], ws) && NoListedWord(t[WordRun(t)..], ws)
  }

  /** The non-word characters of `s`, in order. */
  function Separators(s: string): string {
    if s == [] then []
    else (if IsWordChar(s[0]) then [] else [s[0]]) + Separators(s[1..])
  }

  lemma {:induction false} SeparatorsAppend(a: string, b: string)
    ensures Separators(a + b) == Separators(a) + Separators(b)
    decreases |a|
  {
    if a != [] {
      SeparatorsAppend(a[1..], b);
      assert (a + b)[0] == a[0];
      assert (a + b)[1..] == a[1..] + b;
      var x := if IsWordChar(a[0]) then [] else [a[0]];
      assert Separators(a + b) == x + Separators(a[1..] + b);
      assert Separators(a) == x + Separators(a[1..]);
    } else {
      assert a + b == b;
    }
  }

  lemma {:induction false} SeparatorsOfWord(w: string)
    requires forall i :: 0 <= i < |w| ==> IsWordChar(w[i])
    ensures Separators(w) == []
    decreases |w|
  {
    if w != [] {
      SeparatorsOfWord(w[1..]);
    }
  }

  lemma {:induction false} WordRunOfJoin(a: string, b: string)
    requires forall i :: 0 <= i < |a| ==> IsWordChar(a[i])
    requires b == [] || !IsWordChar(b[0])
    ensures WordRun(a + b) == |a|
    decreases |a|
  {
    if a == [] {
      assert a + b == b;
    } else {
      WordRunOfJoin(a[1..], b);
      assert (a + b)[1..] == a[1..] + b;
    }
  }

  lemma DropAtKeptWord(s: string, ws: seq<string>)
    requires s != [] && IsWordChar(s[0]) && !IsListed(s[..WordRun(s)], ws)
    requires NoListedWord(DropWords(s[WordRun(s)..], ws), ws)
    ensures NoListedWord(DropWords(s, ws), ws)
  {
    var n := WordRun(s);
    var rest := DropWords(s[n..], ws);
    var t := DropWords(s, ws);
    assert t == s[..n] + rest;
    assert rest == [] || !IsWordChar(rest[0]);
    WordRunOfJoin(s[..n], rest);
    assert t[..n] == s[..n] && t[n..] == rest;
  }

  lemma SeparatorsAtWord(s: string, ws: seq<string>)
    requires s != [] && IsWordChar(s[0])
    requires Separators(DropWords(s[WordRun(s)..], ws)) == Separators(s[WordRun(s)..])
    ensures Separators(DropWords(s, ws)) == Separators(s)
  {
    var n := WordRun(s);
    var rest := DropWords(s[n..], ws);
    assert s == s[..n] + s[n..];
    SeparatorsAppend(s[..n], s[n..]);
    SeparatorsOfWord(s[..n]);
    if !IsListed(s[..n], ws) {
      SeparatorsAppend(s[..n], rest);
    } else {
      assert DropWords(s, ws) == rest;
    }
  }

  lemma SeparatorsAtSeparator(s: string, ws: seq<string>)
    requires s != [] && !IsWordChar(s[0])
    requires Separators(DropWords(s[1..], ws)) == Separators(s[1..])
    ensures Separators(DropWords(s, ws)) == Separators(s)
  {
    SeparatorsAppend([s[0]], s[1..]);
    assert s == [s[0]] + s[1..];
    SeparatorsAppend([s[0]], DropWords(s[1..], ws));
  }

  /**
   * Whole-word removal leaves no listed word behind and keeps every separator
   * (non-word character) in its order.
   */
  lemma {:induction false} DropWordsSpec(s: string, ws: seq<string>)
    ensures NoListedWord(DropWords(s, ws), ws)
    ensures Separators(DropWords(s, ws)) == Separators(s)
    decreases |s|
  {
    if s == [] {
    } else if !IsWordChar(s[0]) {
      DropWordsSpec(s[1..], ws);
      assert DropWords(s, ws)[1..] == DropWords(s[1..], ws);
      SeparatorsAtSeparator(s, ws);
    } else {
      DropWordsSpec(s[WordRun(s)..], ws);
      if !IsListed(s[..WordRun(s)], ws) {
        DropAtKeptWord(s, ws);
      } else {
        assert DropWords(s, ws) == DropWords(s[WordRun(s)..], ws);
      }
      SeparatorsAtWord(s, ws);
    }
  }

  lemma {:induction false} NoListedWordTrimStart(t: string, ws: seq<string>)
    requires NoListedWord(t, ws)
    ensures NoListedWord(TrimStart(t), ws)
    decreases |t|
  {
    if t != [] && IsSpace(t[0]) {
      assert !IsWordChar(t[0]);
      assert TrimStart(t) == TrimStart(t[1..]);
      NoListedWordTrimStart(t[1..], ws);
    }
  }

  lemma {:induction false} NoListedWordDropLast(t: string, ws: seq<string>)
    requires NoListedWord(t, ws) && t != [] && !IsWordChar(t[|t| - 1])
    ensures NoListedWord(t[..|t| - 1], ws)
    decreases |t|
  {
    var u := t[..|t| - 1];
    if |t| == 1 {
    } else if !IsWordChar(t[0]) {
      NoListedWordDropLast(t[1..], ws);
      assert u[1..] == t[1..][..|t| - 2];
    } else {
      var n := WordRun(t);
      assert n < |t|;
      WordRunOfJoin(t[..n], t[n..|t| - 1]);
      assert u == t[..n] + t[n..|t| - 1];
      assert u[..n] == t[..n];
      if n < |t| - 1 {
        NoListedWordDropLast(t[n..], ws);
        assert u[n..] == t[n..][..|t| - n - 1];
      } else {
        assert u[n..] == [];
      }
    }
  }

  lemma {:induction false} NoListedWordTrimEnd(t: string, ws: seq<string>)
    requires NoListedWord(t, ws)
    ensures NoListedWord(TrimEnd(t), ws)
    decreases |t|
  {
    if t != [] && IsSpace(t[|t| - 1]) {
      NoListedWordDropLast(t, ws);
      NoListedWordTrimEnd(t[..|t| - 1], ws);
    }
  }

  /** `normalizeCompanyName`. */
  function Normalize(name: string): string {
    Trim(RemoveStopwords(CollapseSpaces(StripPunctuation(Lower(name)))))
  }

  /** `replace(/\s+/g, '-')`. */
  function Hyphenate(s: string): string {
    ReplaceRuns(s, IsSpace, '-')
  }

  /** `replace(/-+/g, '-')`. */
  function CollapseHyphens(s: string): string {
    ReplaceRuns(s, IsHyphen, '-')
  }

  /** `createSlug` of the compiler. */
  function Slug(name: string): string {
    CollapseHyphens(Hyphenate(Normalize(name)))
  }

  lemma CollapsedShape(a: string)
    requires forall c :: c in a ==> !IsStripped(c)
    ensures Clean(CollapseSpaces(a))
  {
    ReplaceRunsChars(a, IsSpace, ' ');
  }

  /**
   * A normalised name holds none of the stripped punctuation, no whitespace but
   * plain spaces, no leading or trailing whitespace, and no suffix word.
   */
  lemma NormalizeShape(name: string)
    ensures var r := Normalize(name);
      && (forall c :: c in r ==> !IsStripped(c))
      && (forall c :: c in r && IsSpace(c) ==> c == ' ')
      && (r == [] || (!IsSpace(r[0]) && !IsSpace(r[|r| - 1])))
      && NoListedWord(r, Stopwords)
  {
    NormalizeChars(name);
    NormalizeNoStopword(name);
  }

  lemma NormalizeChars(name: string)
    ensures var r := Normalize(name);
      && (forall c :: c in r ==> !IsStripped(c))
      && (forall c :: c in r && IsSpace(c) ==> c == ' ')
      && (r == [] || (!IsSpace(r[0]) && !IsSpace(r[|r| - 1])))
  {
    var a := StripPunctuation(Lower(name));
    var b := CollapseSpaces(a);
    var d := RemoveStopwords(b);
    var r := Trim(d);
    CollapsedShape(a);
    CleanFrom(b, d);
    TrimShape(d);
    CleanFrom(d, r);
  }

  /** No stripped punctuation, and the only whitespace is the plain space. */
  ghost predicate Clean(s: string) {
    forall c :: c in s ==> !IsStripped(c) && (IsSpace(c) ==> c == ' ')
  }

  /** A string built from the characters of a clean string is clean. */
  lemma CleanFrom(s: string, t: string)
    requires Clean(s) && forall c :: c in t ==> c in s
    ensures Clean(t)
  {
  }

  lemma NormalizeNoStopword(name: string)
    ensures NoListedWord(Normalize(name), Stopwords)
  {
    var b := CollapseSpaces(StripPunctuation(Lower(name)));
    var d := RemoveStopwords(b);
    RemoveStopwordsIsDrop(b);
    DropWordsSpec(b, Stopwords);
    NoListedWordTrimStart(d, Stopwords);
    NoListedWordTrimEnd(TrimStart(d), Stopwords);
  }

  /**
   * A slug holds no whitespace, no stripped punctuation but `-`, no two
   * consecutive hyphens and no leading or trailing hyphen; it is empty exactly
   * when the normalised name is.
   */
  lemma SlugShape(name: string)
    ensures var r := Slug(name);
      && (forall c :: c in r ==> !IsSpace(c))
      && (forall c :: c in r && IsStripped(c) ==> c == '-')
      && (forall i :: 0 <= i < |r| - 1 ==> !(r[i] == '-' && r[i + 1] == '-'))
      && (r == [] || (r[0] != '-' && r[|r| - 1] != '-'))
      && ((r == []) == (Normalize(name) == []))
  {
    var n := Normalize(name);
    NormalizeShape(name);
    assert IsStripped('-');
    var h := Hyphenate(n);
    ReplaceRunsChars(n, IsSpace, '-');
    var r := CollapseHyphens(h);
    ReplaceRunsChars(h, IsHyphen, '-');
    ReplaceRunsSeparated(h, IsHyphen, '-');
    if n != [] {
      ReplaceRunsLast(n, IsSpace, '-');
      ReplaceRunsLast(h, IsHyphen, '-');
    }
  }

  /** Only lower-case ASCII letters. */
  predicate Letters(w: string) {
    forall i :: 0 <= i < |w| ==> 'a' <= w[i] <= 'z'
  }

  lemma {:induction false} StripLetters(w: string)
    requires Letters(w)
    ensures StripPunctuation(w) == w
    decreases |w|
  {
    if w != [] {
      StripLetters(w[1..]);
      assert [w[0]] + w[1..] == w;
    }
  }

  lemma {:induction false} ReplaceRunsLetters(w: string, p: char -> bool, r: char)
    requires Letters(w) && forall c :: 'a' <= c <= 'z' ==> !p(c)
    ensures ReplaceRuns(w, p, r) == w
    decreases |w|
  {
    if w != [] {
      ReplaceRunsLetters(w[1..], p, r);
      assert [w[0]] + w[1..] == w;
    }
  }

  lemma {:induction false} WordRunLetters(w: string)
    requires Letters(w)
    ensures WordRun(w) == |w|
    decreases |w|
  {
    if w != [] {
      WordRunLetters(w[1..]);
    }
  }

  /** A single word that is not a suffix word survives suffix removal. */
  lemma RemoveStopwordsWord(w: string)
    requires w != [] && Letters(w) && w !in Stopwords
    ensures RemoveStopwords(w) == w
  {
    RemoveStopwordsIsDrop(w);
    WordRunLetters(w);
    assert Lower(w) == w;
    assert w[..|w|] == w && w[|w|..] == [];
  }

  lemma TrimWord(w: string)
    requires w != [] && Letters(w)
    ensures Trim(w) == w
  {
    assert !IsSpace(w[0]) && !IsSpace(w[|w| - 1]);
  }

  /**
   * A name whose lower-case form is a single word of ASCII letters, not a
   * suffix word, normalises and slugs to that word.
   */
  lemma SlugOfWord(name: string)
    requires Lower(name) != [] && Letters(Lower(name)) && Lower(name) !in Stopwords
    ensures Normalize(name) == Lower(name) && Slug(name) == Lower(name)
  {
    var w := Lower(name);
    NormalizeWord(name);
    SpaceRunsLetters(w, '-');
    HyphenRunsLetters(w);
  }

  lemma NormalizeWord(name: string)
    requires Lower(name) != [] && Letters(Lower(name)) && Lower(name) !in Stopwords
    ensures Normalize(name) == Lower(name)
  {
    var w := Lower(name);
    StripLetters(w);
    SpaceRunsLetters(w, ' ');
    RemoveStopwordsWord(w);
    TrimWord(w);
  }

  /** A word of letters has no whitespace run to replace. */
  lemma SpaceRunsLetters(w: string, r: char)
    requires Letters(w)
    ensures ReplaceRuns(w, IsSpace, r) == w
  {
    assert forall c :: 'a' <= c <= 'z' ==> !IsSpace(c);
    ReplaceRunsLetters(w, IsSpace, r);
  }

  /** A word of letters has no hyphen run to collapse. */
  lemma HyphenRunsLetters(w: string)
    requires Letters(w)
    ensures ReplaceRuns(w, IsHyphen, '-') == w
  {
    assert forall c :: 'a' <= c <= 'z' ==> !IsHyphen(c);
    ReplaceRunsLetters(w, IsHyphen, '-');
  }
}
