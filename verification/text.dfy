/**
 String operations of the Python and JavaScript runtimes that the scripts rely on,
 stated over `seq<char>` (one `char` per Unicode scalar value, as in Python's `str`).
 */
module Text {

  /** Python's notion of whitespace: `str.isspace()`, which is also what the
      regex class `\s` matches on a `str` and what `str.strip()` removes. */
  predicate IsSpace(c: char) {
    || c == ' '
    || ('\t' <= c <= '\r')
    || ('\U{1C}' <= c <= '\U{1F}')
    || c == '\U{85}'
    || c == '\U{A0}'
    || c == '\U{1680}'
    || ('\U{2000}' <= c <= '\U{200A}')
    || c == '\U{2028}'
    || c == '\U{2029}'
    || c == '\U{202F}'
    || c == '\U{205F}'
    || c == '\U{3000}'
  }

  /** JavaScript's whitespace, as matched by `\s` and removed by `String.prototype.trim`
      (WhiteSpace and LineTerminator of ECMA-262). */
  predicate IsJsSpace(c: char) {
    || c == ' '
    || ('\t' <= c <= '\r')
    || c == '\U{A0}'
    || c == '\U{1680}'
    || ('\U{2000}' <= c <= '\U{200A}')
    || c == '\U{2028}'
    || c == '\U{2029}'
    || c == '\U{202F}'
    || c == '\U{205F}'
    || c == '\U{3000}'
    || c == '\U{FEFF}'
  }

  /** Line boundaries recognised by Python's `str.splitlines()`. */
  predicate IsLineBreak(c: char) {
    || c == '\n'
    || c == '\r'
    || c == '\U{0B}'
    || c == '\U{0C}'
    || ('\U{1C}' <= c <= '\U{1E}')
    || c == '\U{85}'
    || c == '\U{2028}'
    || c == '\U{2029}'
  }

  /** The character classes that leading/trailing runs are dropped by. */
  datatype CharClass = PySpace | JsSpace | Hash

  predicate In(cls: CharClass, c: char) {
    match cls
    case PySpace => IsSpace(c)
    case JsSpace => IsJsSpace(c)
    case Hash => c == '#'
  }

  /** ASCII decimal digit. */
  predicate IsDigit(c: char) {
    '0' <= c <= '9'
  }

  /** Lower-casing of one character (ASCII letters only). */
  function LowerChar(c: char): (r: char)
    ensures 'A' <= c <= 'Z' ==> 'a' <= r <= 'z'
    ensures !('A' <= c <= 'Z') ==> r == c
  {
    if 'A' <= c <= 'Z' then (c as int + 32) as char else c
  }

  /** `str.lower()`, character by character. */
  function Lower(s: string): (r: string)
    ensures |r| == |s|
    ensures forall i | 0 <= i < |s| :: r[i] == LowerChar(s[i])
  {
    if |s| == 0 then [] else [LowerChar(s[0])] + Lower(s[1..])
  }

  lemma {:induction false} LowerAppend(a: string, b: string)
    ensures Lower(a + b) == Lower(a) + Lower(b)
  {
  }

  // ---------------------------------------------------------------------------
  // Prefixes, suffixes, occurrences

  predicate StartsWith(s: string, p: string) {
    |p| <= |s| && s[..|p|] == p
  }

  predicate EndsWith(s: string, p: string) {
    |p| <= |s| && s[|s| - |p|..] == p
  }

  /** `w` occurs in `s` starting at index `i`. */
  predicate OccursAt(s: string, i: int, w: string) {
    0 <= i && i + |w| <= |s| && s[i..i + |w|] == w
  }

  /** Python's `w in s` for strings (the empty string occurs in every string). */
  predicate Contains(s: string, w: string) {
    exists i | 0 <= i <= |s| :: OccursAt(s, i, w)
  }

  /** An occurrence at `i` is a prefix of the suffix from `i`. */
  lemma {:induction false} OccursAtSuffix(s: string, i: nat, w: string)
    requires i <= |s|
    ensures OccursAt(s, i, w) <==> StartsWith(s[i..], w)
  {
    if i + |w| <= |s| {
      assert s[i..][..|w|] == s[i..i + |w|];
    }
  }

  lemma {:induction false} ContainsEmpty(s: string)
    ensures Contains(s, "")
  {
    assert OccursAt(s, 0, "");
  }

  /** Drops the longest prefix whose characters all satisfy `p`. */
  function DropWhile(s: string, cls: CharClass): (r: string)
    ensures |r| <= |s| && r == s[|s| - |r|..]
    ensures |r| == 0 || !In(cls, r[0])
  {
    if |s| > 0 && In(cls, s[0]) then DropWhile(s[1..], cls) else s
  }

  /** Everything `DropWhile` drops is in the class. */
  lemma {:induction false} DropWhileDropped(s: string, cls: CharClass)
    ensures forall i | 0 <= i < |s| - |DropWhile(s, cls)| :: In(cls, s[i])
  {
    if |s| > 0 && In(cls, s[0]) {
      DropWhileDropped(s[1..], cls);
      assert forall i | 1 <= i < |s| :: s[i] == s[1..][i - 1];
    }
  }

  /** Drops the longest suffix whose characters all satisfy `p`. */
  function DropWhileEnd(s: string, cls: CharClass): (r: string)
    ensures |r| <= |s| && r == s[..|r|]
    ensures |r| == 0 || !In(cls, r[|r| - 1])
  {
    if |s| > 0 && In(cls, s[|s| - 1]) then DropWhileEnd(s[..|s| - 1], cls) else s
  }

  /** Everything `DropWhileEnd` drops is in the class. */
  lemma {:induction false} DropWhileEndDropped(s: string, cls: CharClass)
    ensures forall i | |DropWhileEnd(s, cls)| <= i < |s| :: In(cls, s[i])
  {
    if |s| > 0 && In(cls, s[|s| - 1]) {
      DropWhileEndDropped(s[..|s| - 1], cls);
    }
  }

  /** Python's `str.strip()`. */
  function Strip(s: string): string {
    DropWhileEnd(DropWhile(s, PySpace), PySpace)
  }

  /** A text that neither starts nor ends with whitespace is its own `strip()`. */
  lemma {:induction false} StripNoEdges(s: string)
    requires |s| == 0 || (!IsSpace(s[0]) && !IsSpace(s[|s| - 1]))
    ensures Strip(s) == s
  {
  }

  /** JavaScript's `String.prototype.trim()`. */
  function JsTrim(s: string): string {
    DropWhileEnd(DropWhile(s, JsSpace), JsSpace)
  }

  /** A text that neither starts nor ends with JavaScript whitespace is its own `trim()`. */
  lemma {:induction false} JsTrimNoEdges(s: string)
    requires |s| == 0 || (!IsJsSpace(s[0]) && !IsJsSpace(s[|s| - 1]))
    ensures JsTrim(s) == s
  {
  }

  /** Stripping ignores one more trailing newline. */
  lemma {:induction false} StripTrailingNewline(s: string)
    ensures Strip(s + "\n") == Strip(s)
  {
    var t := DropWhile(s, PySpace);
    if |t| == 0 {
      DropWhileAllThenMore(s, "\n", PySpace);
      var nl := "\n";
      assert In(PySpace, nl[0]) && nl[1..] == [];
      assert DropWhile(nl, PySpace) == [];
    } else {
      DropWhileAppend(s, "\n", PySpace);
      assert DropWhile(s + "\n", PySpace) == t + ['\n'];
      DropWhileEndLast(t, '\n', PySpace);
    }
  }

  lemma {:induction false} DropWhileEndLast(t: string, c: char, cls: CharClass)
    requires In(cls, c)
    ensures DropWhileEnd(t + [c], cls) == DropWhileEnd(t, cls)
  {
    assert (t + [c])[..|t|] == t;
  }

  lemma {:induction false} DropWhileAppend(s: string, u: string, cls: CharClass)
    requires |DropWhile(s, cls)| > 0
    ensures DropWhile(s + u, cls) == DropWhile(s, cls) + u
  {
    if |s| > 0 && In(cls, s[0]) {
      assert (s + u)[1..] == s[1..] + u;
      DropWhileAppend(s[1..], u, cls);
    }
  }

  lemma {:induction false} DropWhileAllThenMore(s: string, u: string, cls: CharClass)
    requires |DropWhile(s, cls)| == 0
    ensures DropWhile(s + u, cls) == DropWhile(u, cls)
  {
    if |s| > 0 {
      assert (s + u)[1..] == s[1..] + u;
      DropWhileAllThenMore(s[1..], u, cls);
    } else {
      assert s + u == u;
    }
  }

  /** `re.sub(r'^#+\s*', '', s)` where `\s` is the runtime's whitespace `ws`:
      a leading run of `#` and the whitespace after it are removed; text that does
      not start with `#` is returned as it is. */
  function StripHeadingMarker(s: string, ws: CharClass): (r: string)
    ensures |r| <= |s| && r == s[|s| - |r|..]
    ensures !StartsWith(s, "#") ==> r == s
    ensures StartsWith(s, "#") ==> |r| == 0 || !In(ws, r[0])
  {
    if StartsWith(s, "#") then DropWhile(DropWhile(s, Hash), ws) else s
  }

  /** A run of `n` copies of `c`. */
  function Repeat(c: char, n: nat): (r: string)
    ensures |r| == n
    ensures forall i | 0 <= i < n :: r[i] == c
  {
    if n == 0 then [] else [c] + Repeat(c, n - 1)
  }

  /** `#`s followed by whitespace in front of a text that starts with neither are
      exactly what the heading marker removal drops. */
  lemma {:induction false} StripHeadingMarkerOf(n: nat, w: string, x: string, ws: CharClass)
    requires n >= 1
    requires forall i | 0 <= i < |w| :: In(ws, w[i])
    requires |x| == 0 || (!In(ws, x[0]) && (|w| > 0 || x[0] != '#'))
    requires ws != Hash
    ensures StripHeadingMarker(Repeat('#', n) + w + x, ws) == x
  {
    var h := Repeat('#', n);
    var t := w + x;
    var s := h + w + x;
    assert s == h + t;
    assert s[..1] == "#" by { assert s[0] == h[0]; }
    assert |t| == 0 || t[0] != '#' by {
      if |w| > 0 {
        assert t[0] == w[0];
        assert In(ws, w[0]);
        assert ws == PySpace || ws == JsSpace;
      }
    }
    DropRun(h, t, Hash);
    DropRun(w, x, ws);
  }

  /** Dropping a run of `cls` characters from the front of `u + v` gives `v` when
      `v` does not start with one. */
  lemma {:induction false} DropRun(u: string, v: string, cls: CharClass)
    requires forall i | 0 <= i < |u| :: In(cls, u[i])
    requires |v| == 0 || !In(cls, v[0])
    ensures DropWhile(u + v, cls) == v
  {
    if |u| > 0 {
      assert (u + v)[1..] == u[1..] + v;
      DropRun(u[1..], v, cls);
    } else {
      assert u + v == v;
    }
  }

  /** Dropping a run of `cls` characters from the end of `u + v` gives `u` when
      `u` does not end with one. */
  lemma {:induction false} DropRunEnd(u: string, v: string, cls: CharClass)
    requires |u| == 0 || !In(cls, u[|u| - 1])
    requires forall i | 0 <= i < |v| :: In(cls, v[i])
    ensures DropWhileEnd(u + v, cls) == u
    decreases |v|
  {
    if |v| > 0 {
      var s := u + v;
      assert s[|s| - 1] == v[|v| - 1];
      assert s[..|s| - 1] == u + v[..|v| - 1];
      DropRunEnd(u, v[..|v| - 1], cls);
    } else {
      assert u + v == u;
    }
  }

  /** Stripping whitespace `a` and `b` from around a text `c` that neither starts
      nor ends with whitespace gives `c`. */
  lemma {:induction false} StripAround(a: string, c: string, b: string)
    requires forall i | 0 <= i < |a| :: IsSpace(a[i])
    requires forall i | 0 <= i < |b| :: IsSpace(b[i])
    requires |c| > 0 && !IsSpace(c[0]) && !IsSpace(c[|c| - 1])
    ensures Strip(a + c + b) == c
  {
    assert a + c + b == a + (c + b);
    assert (c + b)[0] == c[0];
    DropRun(a, c + b, PySpace);
    DropRunEnd(c, b, PySpace);
  }

  /** Every character of `u + v` is whitespace when every character of `u` and of
      `v` is. */
  lemma {:induction false} SpacesConcat(u: string, v: string)
    requires forall i | 0 <= i < |u| :: IsSpace(u[i])
    requires forall i | 0 <= i < |v| :: IsSpace(v[i])
    ensures forall i | 0 <= i < |u + v| :: IsSpace((u + v)[i])
  {
    forall i | 0 <= i < |u + v| ensures IsSpace((u + v)[i]) {
      if i < |u| { assert (u + v)[i] == u[i]; } else { assert (u + v)[i] == v[i - |u|]; }
    }
  }

  /** A heading line with a text after its markers, stripped, starts with `#`
      and loses exactly its markers and the whitespace after them. */
  lemma {:induction false} HeadingLineWithText(a: string, n: nat, w: string, x: string, b: string)
    requires n >= 1
    requires forall i | 0 <= i < |a| :: IsSpace(a[i])
    requires forall i | 0 <= i < |w| :: IsSpace(w[i])
    requires forall i | 0 <= i < |b| :: IsSpace(b[i])
    requires |x| > 0 && !IsSpace(x[0]) && !IsSpace(x[|x| - 1]) && (|w| > 0 || x[0] != '#')
    ensures Strip(a + Repeat('#', n) + w + x + b) == Repeat('#', n) + w + x
    ensures StripHeadingMarker(Repeat('#', n) + w + x, PySpace) == x
  {
    var h := Repeat('#', n);
    var c := h + w + x;
    assert a + h + w + x + b == a + c + b;
    assert c[0] == h[0] && c[|c| - 1] == x[|x| - 1];
    StripAround(a, c, b);
    StripHeadingMarkerOf(n, w, x, PySpace);
  }

  /** A heading line with nothing after its markers strips to the markers, and
      removing them leaves nothing. */
  lemma {:induction false} HeadingLineBare(a: string, n: nat, w: string, b: string)
    requires n >= 1
    requires forall i | 0 <= i < |a| :: IsSpace(a[i])
    requires forall i | 0 <= i < |w| :: IsSpace(w[i])
    requires forall i | 0 <= i < |b| :: IsSpace(b[i])
    ensures Strip(a + Repeat('#', n) + w + b) == Repeat('#', n)
    ensures StripHeadingMarker(Repeat('#', n), PySpace) == ""
  {
    var h := Repeat('#', n);
    assert a + h + w + b == a + h + (w + b);
    SpacesConcat(w, b);
    StripAround(a, h, w + b);
    assert h + "" + "" == h;
    StripHeadingMarkerOf(n, "", "", PySpace);
  }

  /** A heading line in general: whitespace `a`, `n >= 1` markers, a whitespace
      run `w`, a text `x` without surrounding whitespace that does not start
      with `#` when nothing separates it from the markers, and whitespace `b`.
      Stripped, it starts with `#`, and removing its markers and the whitespace
      after them leaves exactly `x`. */
  lemma {:induction false} HeadingLineText(a: string, n: nat, w: string, x: string, b: string)
    requires n >= 1
    requires forall i | 0 <= i < |a| :: IsSpace(a[i])
    requires forall i | 0 <= i < |w| :: IsSpace(w[i])
    requires forall i | 0 <= i < |b| :: IsSpace(b[i])
    requires |x| == 0 || (!IsSpace(x[0]) && !IsSpace(x[|x| - 1]) && (|w| > 0 || x[0] != '#'))
    ensures StartsWith(Strip(a + Repeat('#', n) + w + x + b), "#")
    ensures StripHeadingMarker(Strip(a + Repeat('#', n) + w + x + b), PySpace) == x
  {
    var h := Repeat('#', n);
    if |x| > 0 {
      HeadingLineWithText(a, n, w, x, b);
      assert (h + w + x)[..1] == "#" by { assert (h + w + x)[0] == h[0]; }
    } else {
      assert a + h + w + x + b == a + h + w + b;
      HeadingLineBare(a, n, w, b);
      assert h[..1] == "#";
    }
  }

  /** Every line whose stripped form starts with `#` has the shape
      `HeadingLineText` describes: surrounding whitespace, the markers, the
      whitespace after them and the text. */
  lemma {:induction false} HeadingShape(line: string) returns (a: string, n: nat, w: string, x: string, b: string)
    requires StartsWith(Strip(line), "#")
    ensures line == a + Repeat('#', n) + w + x + b
    ensures n >= 1
    ensures forall i | 0 <= i < |a| :: IsSpace(a[i])
    ensures forall i | 0 <= i < |w| :: IsSpace(w[i])
    ensures forall i | 0 <= i < |b| :: IsSpace(b[i])
    ensures |x| == 0 || (!IsSpace(x[0]) && !IsSpace(x[|x| - 1]) && (|w| > 0 || x[0] != '#'))
  {
    a, b := StripShape(line);
    var h;
    h, w, x := MarkerShape(Strip(line));
    n := |h|;
    Enclose(line, a, Strip(line), b, h, w, x);
  }

  /** Concatenation regrouped around a middle part. */
  lemma {:induction false} Enclose(line: string, a: string, l: string, b: string, h: string, w: string, x: string)
    requires line == a + l + b && l == h + w + x
    ensures line == a + h + w + x + b
  {
  }

  /** `Strip` removes a whitespace run from each end and leaves a text whose
      last character is not whitespace. */
  lemma {:induction false} StripShape(line: string) returns (a: string, b: string)
    ensures line == a + Strip(line) + b
    ensures forall i | 0 <= i < |a| :: IsSpace(a[i])
    ensures forall i | 0 <= i < |b| :: IsSpace(b[i])
    ensures |Strip(line)| == 0 || !IsSpace(Strip(line)[|Strip(line)| - 1])
  {
    var d := DropWhile(line, PySpace);
    a := LeadingRun(line, PySpace);
    b := TrailingRun(d, PySpace);
    Regroup(line, a, d, Strip(line), b);
  }

  /** A stripped heading line is its markers, a whitespace run and the text,
      and the text has the edges `HeadingLineText` asks for. */
  lemma {:induction false} MarkerShape(l: string) returns (h: string, w: string, x: string)
    requires StartsWith(l, "#")
    requires !IsSpace(l[|l| - 1])
    ensures l == h + w + x && h == Repeat('#', |h|) && |h| >= 1
    ensures forall i | 0 <= i < |w| :: IsSpace(w[i])
    ensures |x| == 0 || (!IsSpace(x[0]) && !IsSpace(x[|x| - 1]) && (|w| > 0 || x[0] != '#'))
  {
    var m := DropWhile(l, Hash);
    h := LeadingRun(l, Hash);
    x := DropWhile(m, PySpace);
    w := LeadingRun(m, PySpace);
    HashRun(h);
    LeadingHash(l);
    TextEdges(l, m, x);
    Regroup(l, h, m, w, x);
  }

  /** Concatenation regrouped. */
  lemma {:induction false} Regroup(l: string, h: string, m: string, w: string, x: string)
    requires l == h + m && m == w + x
    ensures l == h + w + x
  {
  }

  /** The text after the markers and whitespace ends where the stripped line
      ends, starts with neither whitespace nor, when no whitespace precedes
      it, `#`. */
  lemma {:induction false} TextEdges(l: string, m: string, x: string)
    requires |l| > 0 && !IsSpace(l[|l| - 1])
    requires m == DropWhile(l, Hash) && x == DropWhile(m, PySpace)
    ensures |x| == 0 || (!IsSpace(x[0]) && !IsSpace(x[|x| - 1]) && (|m| > |x| || x[0] != '#'))
  {
    if |x| > 0 {
      assert x[|x| - 1] == m[|m| - 1] == l[|l| - 1];
    }
  }

  /** What `DropWhile` drops, as a run of the class in front of its result. */
  lemma {:induction false} LeadingRun(s: string, cls: CharClass) returns (p: string)
    ensures s == p + DropWhile(s, cls)
    ensures forall i | 0 <= i < |p| :: In(cls, p[i])
  {
    var k := |s| - |DropWhile(s, cls)|;
    DropWhileDropped(s, cls);
    p := s[..k];
    forall i | 0 <= i < |p|
      ensures In(cls, p[i])
    {
      assert p[i] == s[i];
    }
    assert s == s[..k] + s[k..];
  }

  /** What `DropWhileEnd` drops, as a run of the class after its result. */
  lemma {:induction false} TrailingRun(s: string, cls: CharClass) returns (q: string)
    ensures s == DropWhileEnd(s, cls) + q
    ensures forall i | 0 <= i < |q| :: In(cls, q[i])
  {
    DropWhileEndDropped(s, cls);
    var k := |DropWhileEnd(s, cls)|;
    q := s[k..];
    assert forall i | 0 <= i < |q| :: q[i] == s[k + i];
  }

  /** A text starting with `#` loses at least one character to `DropWhile(_, Hash)`. */
  lemma {:induction false} LeadingHash(l: string)
    requires StartsWith(l, "#")
    ensures |DropWhile(l, Hash)| < |l|
  {
    assert l[0] == l[..1][0];
  }

  /** A run of `#` is a repetition of `#`. */
  lemma {:induction false} HashRun(h: string)
    requires forall i | 0 <= i < |h| :: In(Hash, h[i])
    ensures h == Repeat('#', |h|)
  {
    if |h| > 0 {
      HashRun(h[1..]);
      assert h == [h[0]] + h[1..];
    }
  }

  // ---------------------------------------------------------------------------
  // Replacement

  /** Python's `s.replace(pat, rep)`: every non-overlapping occurrence, left to right. */
  function ReplaceAll(s: string, pat: string, rep: string): (r: string)
    requires |pat| > 0
    ensures !Contains(s, pat) ==> r == s
    decreases |s|
  {
    if |s| == 0 then []
    else if StartsWith(s, pat) then
      assert OccursAt(s, 0, pat);
      rep + ReplaceAll(s[|pat|..], pat, rep)
    else
      var rest := ReplaceAll(s[1..], pat, rep);
      assert !Contains(s, pat) ==> !Contains(s[1..], pat) by {
        if Contains(s[1..], pat) {
          var i :| 0 <= i <= |s[1..]| && OccursAt(s[1..], i, pat);
          assert OccursAt(s, i + 1, pat);
        }
      }
      [s[0]] + rest
  }

  /** Replacing in `pat + d`, where `d` holds no `pat`, replaces the leading
      occurrence and keeps `d`. */
  lemma {:induction false} ReplaceAllLeading(pat: string, d: string, rep: string)
    requires |pat| > 0 && !Contains(d, pat)
    ensures ReplaceAll(pat + d, pat, rep) == rep + d
  {
    var s := pat + d;
    assert s[..|pat|] == pat;
    assert s[|pat|..] == d;
  }

  /** A text without `c` holds no occurrence of `[c]`, so replacing `c` keeps it. */
  lemma {:induction false} ReplaceAbsentChar(s: string, c: char, rep: string)
    requires c !in s
    ensures ReplaceAll(s, [c], rep) == s
  {
  }

  /** Replacing every `c` by a text without `c` leaves no `c` behind. */
  lemma {:induction false} ReplaceCharGone(s: string, c: char, rep: string)
    requires c !in rep
    ensures c !in ReplaceAll(s, [c], rep)
    decreases |s|
  {
    if |s| > 0 {
      ReplaceCharGone(s[1..], c, rep);
      if !StartsWith(s, [c]) {
        assert s[..1] == [s[0]];
      }
    }
  }

  /** Removing `pat` from `x + pat`, when `x` has no character that starts `pat`,
      gives back `x`. */
  lemma {:induction false} ReplaceAllSuffix(x: string, pat: string)
    requires |pat| > 0
    requires pat[0] !in x
    ensures ReplaceAll(x + pat, pat, "") == x
    decreases |x|
  {
    var s := x + pat;
    if |x| == 0 {
      assert s == pat && StartsWith(s, pat);
      assert s[|pat|..] == [];
    } else {
      assert s[0] == x[0] && s[..|pat|][0] == x[0];
      assert !StartsWith(s, pat);
      assert s[1..] == x[1..] + pat;
      ReplaceAllSuffix(x[1..], pat);
    }
  }

  /** JavaScript's `s.replace(pat, rep)` with a string pattern: the first occurrence only. */
  function ReplaceFirst(s: string, pat: string, rep: string): (r: string)
    requires |pat| > 0
    ensures !Contains(s, pat) ==> r == s
    ensures StartsWith(s, pat) ==> r == rep + s[|pat|..]
    decreases |s|
  {
    if |s| == 0 then []
    else if StartsWith(s, pat) then
      assert OccursAt(s, 0, pat);
      rep + s[|pat|..]
    else
      assert !Contains(s, pat) ==> !Contains(s[1..], pat) by {
        if Contains(s[1..], pat) {
          var i :| 0 <= i <= |s[1..]| && OccursAt(s[1..], i, pat);
          assert OccursAt(s, i + 1, pat);
        }
      }
      [s[0]] + ReplaceFirst(s[1..], pat, rep)
  }

  /** Every character of `s` other than `c`, in order (`s.replace(c, '')`). */
  function RemoveChar(s: string, c: char): (r: string)
    ensures c !in r
    ensures |r| <= |s|
    ensures c !in s ==> r == s
  {
    if |s| == 0 then [] else (if s[0] == c then [] else [s[0]]) + RemoveChar(s[1..], c)
  }

  // ---------------------------------------------------------------------------
  // Lines

  predicate NoLineBreak(s: string) {
    forall i | 0 <= i < |s| :: !IsLineBreak(s[i])
  }

  /** The only line boundary in `s`, if any, is `\n`. */
  predicate OnlyNewlineBreaks(s: string) {
    forall i | 0 <= i < |s| :: IsLineBreak(s[i]) ==> s[i] == '\n'
  }

  /** Index of the first line boundary in `s`, or `|s|` when there is none. */
  function LineEnd(s: string): (r: nat)
    ensures r <= |s|
    ensures r < |s| ==> IsLineBreak(s[r])
    ensures NoLineBreak(s[..r])
  {
    if |s| == 0 || IsLineBreak(s[0]) then 0
    else
      var k := LineEnd(s[1..]);
      assert s[..k + 1] == [s[0]] + s[1..][..k];
      k + 1
  }

  /** Python's `str.splitlines()` (without `keepends`): `\r\n` counts as one
      boundary, and a trailing boundary does not start an extra empty line. */
  function SplitLines(s: string): (r: seq<string>)
    ensures |s| == 0 <==> |r| == 0
    decreases |s|
  {
    if |s| == 0 then []
    else
      var k := LineEnd(s);
      if k == |s| then [s]
      else
        var skip := if s[k] == '\r' && k + 1 < |s| && s[k + 1] == '\n' then 2 else 1;
        [s[..k]] + SplitLines(s[k + skip..])
  }

  /** Python's `sep.join(xs)`. */
  function Join(sep: string, xs: seq<string>): (r: string)
  {
    if |xs| == 0 then ""
    else if |xs| == 1 then xs[0]
    else xs[0] + sep + Join(sep, xs[1..])
  }

  /** Index of the first `c` in `s`, or `|s|`. */
  function IndexOf(s: string, c: char): (r: nat)
    ensures r <= |s|
    ensures r < |s| ==> s[r] == c
    ensures c !in s[..r]
  {
    if |s| == 0 || s[0] == c then 0
    else
      var k := IndexOf(s[1..], c);
      assert s[..k + 1] == [s[0]] + s[1..][..k];
      k + 1
  }

  /** Python's `s.split(sep)` for a one-character separator: never empty, and
      no piece contains the separator. */
  function SplitOn(s: string, sep: char): (r: seq<string>)
    ensures |r| >= 1
    ensures forall i | 0 <= i < |r| :: sep !in r[i]
    decreases |s|
  {
    var k := IndexOf(s, sep);
    if k == |s| then [s] else [s[..k]] + SplitOn(s[k + 1..], sep)
  }

  /** Splitting on a separator and joining with it gives back the text. */
  lemma {:induction false} JoinSplitOn(s: string, sep: char)
    ensures Join([sep], SplitOn(s, sep)) == s
    decreases |s|
  {
    var k := IndexOf(s, sep);
    if k < |s| {
      var rest := s[k + 1..];
      var tail := SplitOn(rest, sep);
      JoinSplitOn(rest, sep);
      var xs := SplitOn(s, sep);
      assert xs == [s[..k]] + tail;
      assert xs[1..] == tail;
      assert Join([sep], xs) == s[..k] + [sep] + Join([sep], tail);
      assert s == s[..k] + [sep] + rest;
    }
  }

  /** No line that `splitlines()` returns contains a line boundary. */
  lemma {:induction false} SplitLinesNoBreaks(s: string)
    ensures forall i | 0 <= i < |SplitLines(s)| :: NoLineBreak(SplitLines(s)[i])
    decreases |s|
  {
    if |s| > 0 {
      var k := LineEnd(s);
      if k < |s| {
        var skip := if s[k] == '\r' && k + 1 < |s| && s[k + 1] == '\n' then 2 else 1;
        SplitLinesNoBreaks(s[k + skip..]);
      }
    }
  }

  /** When the first line of `s` ends in `\n`, `splitlines` continues after it. */
  lemma {:induction false} SplitLinesNewline(s: string)
    requires LineEnd(s) < |s| && s[LineEnd(s)] == '\n'
    ensures SplitLines(s) == [s[..LineEnd(s)]] + SplitLines(s[LineEnd(s) + 1..])
  {
  }

  lemma {:induction false} OnlyNewlineBreaksSuffix(s: string, j: nat)
    requires OnlyNewlineBreaks(s)
    requires j <= |s|
    ensures OnlyNewlineBreaks(s[j..])
  {
    var t := s[j..];
    forall i | 0 <= i < |t| ensures IsLineBreak(t[i]) ==> t[i] == '\n' {
      assert t[i] == s[j + i];
    }
  }

  /** `s` without its last character when that is `\n`. */
  function ChompNewline(s: string): string {
    if |s| > 0 && s[|s| - 1] == '\n' then s[..|s| - 1] else s
  }

  lemma {:induction false} EndsWithNewline(s: string)
    ensures EndsWith(s, "\n") <==> |s| > 0 && s[|s| - 1] == '\n'
  {
    if |s| > 0 {
      assert s[|s| - 1..] == [s[|s| - 1]];
    }
  }

  /** Lines joined with `\n` and split again by `splitlines()` give back the text,
      less one trailing newline, when `\n` is its only kind of line boundary. */
  lemma {:induction false} JoinSplitLines(s: string)
    requires OnlyNewlineBreaks(s)
    ensures Join("\n", SplitLines(s)) == ChompNewline(s)
    decreases |s|
  {
    if |s| > 0 {
      var k := LineEnd(s);
      if k < |s| {
        var line := s[..k];
        var rest := s[k + 1..];
        assert s == line + "\n" + rest;
        OnlyNewlineBreaksSuffix(s, k + 1);
        JoinSplitLines(rest);
        SplitLinesCons(line, rest);
        ChompCons(line, rest);
        if |rest| > 0 {
          JoinCons("\n", line, SplitLines(rest));
        }
      } else {
        assert !IsLineBreak(s[..k][|s| - 1]);
      }
    }
  }

  lemma {:induction false} SplitLinesCons(line: string, rest: string)
    requires NoLineBreak(line)
    ensures SplitLines(line + "\n" + rest) == [line] + SplitLines(rest)
  {
    var s := line + "\n" + rest;
    LineEndOf(line, rest);
    assert s[..|line|] == line;
    assert s[|line| + 1..] == rest;
  }

  lemma {:induction false} LineEndOf(line: string, rest: string)
    requires NoLineBreak(line)
    ensures LineEnd(line + "\n" + rest) == |line|
  {
    var s := line + "\n" + rest;
    var k := LineEnd(s);
    assert s[|line|] == '\n';
  }

  lemma {:induction false} ChompCons(line: string, rest: string)
    ensures ChompNewline(line + "\n" + rest) ==
              if |rest| == 0 then line else line + "\n" + ChompNewline(rest)
  {
    var s := line + "\n" + rest;
    if |rest| == 0 {
      assert s[..|s| - 1] == line;
    } else {
      assert s[|s| - 1] == rest[|rest| - 1];
      if rest[|rest| - 1] == '\n' {
        assert s[..|s| - 1] == line + "\n" + rest[..|rest| - 1];
      }
    }
  }

  lemma {:induction false} JoinCons(sep: string, x: string, ys: seq<string>)
    requires |ys| > 0
    ensures Join(sep, [x] + ys) == x + sep + Join(sep, ys)
  {
    assert ([x] + ys)[1..] == ys;
  }

  /** Joining break-free lines with `\n` leaves `\n` as the only line boundary. */
  lemma {:induction false} JoinOnlyNewlineBreaks(xs: seq<string>)
    requires forall i | 0 <= i < |xs| :: NoLineBreak(xs[i])
    ensures OnlyNewlineBreaks(Join("\n", xs))
  {
    if |xs| > 1 {
      JoinOnlyNewlineBreaks(xs[1..]);
      var t := Join("\n", xs[1..]);
      var j := xs[0] + "\n" + t;
      forall i | 0 <= i < |j| ensures IsLineBreak(j[i]) ==> j[i] == '\n' {
        if i < |xs[0]| {
          assert j[i] == xs[0][i];
        } else if i > |xs[0]| {
          assert j[i] == t[i - |xs[0]| - 1];
        }
      }
    }
  }

  /** Splitting at the first separator: the text before it is the first piece. */
  lemma {:induction false} SplitOnFirst(x: string, c: char, rest: string)
    requires c !in x
    ensures SplitOn(x + [c] + rest, c) == [x] + SplitOn(rest, c)
  {
    var s := x + [c] + rest;
    var k := IndexOf(s, c);
    assert s[|x|] == c;
    assert k == |x| by {
      assert forall j | 0 <= j < |x| :: s[j] == x[j];
    }
    assert s[..k] == x;
    assert s[k + 1..] == rest;
  }

  /** A text without the separator is one piece. */
  lemma {:induction false} SplitOnNone(z: string, c: char)
    requires c !in z
    ensures SplitOn(z, c) == [z]
  {
  }

  /** A character that does not occur is not contained as a one-character text. */
  lemma {:induction false} ContainsChar(s: string, c: char)
    ensures Contains(s, [c]) ==> c in s
  {
    if Contains(s, [c]) {
      var i :| 0 <= i <= |s| && OccursAt(s, i, [c]);
      assert s[i..i + 1][0] == s[i];
    }
  }

  /** Replacing a character: the text before its first occurrence is copied. */
  lemma {:induction false} ReplaceCharFirst(x: string, c: char, d: char, rest: string)
    requires c !in x
    ensures ReplaceAll(x + [c] + rest, [c], [d]) == x + [d] + ReplaceAll(rest, [c], [d])
  {
    var u := [c] + rest;
    ReplaceCharPrefix(x, c, [d], u);
    assert StartsWith(u, [c]) by {
      assert u[..1] == [c];
    }
    assert u[1..] == rest;
    assert x + [c] + rest == x + u;
  }

  /** A prefix without `c` is copied by the replacement of `c`. */
  lemma {:induction false} ReplaceCharPrefix(x: string, c: char, rep: string, rest: string)
    requires c !in x
    ensures ReplaceAll(x + rest, [c], rep) == x + ReplaceAll(rest, [c], rep)
    decreases |x|
  {
    var u := x + rest;
    if |x| == 0 {
      assert u == rest;
    } else {
      assert u[1..] == x[1..] + rest;
      assert u[..1][0] == x[0];
      ReplaceAllSkip(u, [c], rep);
      ReplaceCharPrefix(x[1..], c, rep, rest);
      ConsRegroup(x, ReplaceAll(rest, [c], rep));
    }
  }

  /** Where the pattern does not start, the first character is copied. */
  lemma {:induction false} ReplaceAllSkip(s: string, pat: string, rep: string)
    requires |pat| > 0 && |s| > 0 && !StartsWith(s, pat)
    ensures ReplaceAll(s, pat, rep) == [s[0]] + ReplaceAll(s[1..], pat, rep)
  {
  }

  lemma {:induction false} ConsRegroup(x: string, t: string)
    requires |x| > 0
    ensures [x[0]] + (x[1..] + t) == x + t
  {
    assert x == [x[0]] + x[1..];
  }

  // ---------------------------------------------------------------------------
  // Runs of characters

  /** Length of the longest run of characters satisfying `p` that starts at `i`
      (a greedy `[...]*`). */
  function Span(s: string, i: nat, p: char -> bool): (n: nat)
    requires i <= |s|
    ensures i + n <= |s|
    decreases |s| - i
  {
    if i == |s| || !p(s[i]) then 0 else 1 + Span(s, i + 1, p)
  }

  /** A run is found exactly as long as it is. */
  lemma {:induction false} SpanExact(s: string, i: nat, n: nat, p: char -> bool)
    requires i + n <= |s|
    requires forall k | i <= k < i + n :: p(s[k])
    requires i + n == |s| || !p(s[i + n])
    ensures Span(s, i, p) == n
    decreases n
  {
    if n > 0 {
      SpanExact(s, i + 1, n - 1, p);
    }
  }
}
