/**
 `sanitize_for_mdx` of `scripts/split_and_update.py`: three regular-expression
 substitutions applied in turn. Each is modelled as the left-to-right scan that
 `re.sub` performs: at each position either the pattern matches, the match is
 replaced and the scan resumes after it, or one character is copied.
 */
module Sanitize {
  import opened Text

  // ---------------------------------------------------------------------------
  // ` style="[^"]*"` is removed

  const StyleOpen: string := " style=\""

  /** The pattern ` style="[^"]*"` matches at the start of `s`: the opening is
      followed, somewhere, by a closing quote. */
  predicate StyleAt(s: string) {
    StartsWith(s, StyleOpen) && IndexOf(s[8..], '"') < |s| - 8
  }

  /** Length of the match of ` style="[^"]*"` at the start of `s`. */
  function StyleLen(s: string): (n: nat)
    requires StyleAt(s)
    ensures 9 <= n <= |s|
  {
    8 + IndexOf(s[8..], '"') + 1
  }

  /** `re.sub(r' style="[^"]*"', '', s)`. */
  function RemoveStyle(s: string): (r: string)
    ensures |r| <= |s|
    decreases |s|
  {
    if |s| == 0 then []
    else if StyleAt(s) then RemoveStyle(s[StyleLen(s)..])
    else [s[0]] + RemoveStyle(s[1..])
  }

  // ---------------------------------------------------------------------------
  // `(</p>|</blockquote>)</td>` becomes `\1\n</td>`

  const CloseP: string := "</p></td>"
  const CloseQuote: string := "</blockquote></td>"

  /** The group `(</p>|</blockquote>)` when `(</p>|</blockquote>)</td>` matches
      at the start of `s`. */
  function CloseGroup(s: string): (t: string)
    ensures |t| == 0 || t == "</p>" || t == "</blockquote>"
    ensures |t| > 0 ==> StartsWith(s, t + "</td>")
  {
    if StartsWith(s, CloseP) then "</p>"
    else if StartsWith(s, CloseQuote) then "</blockquote>"
    else ""
  }

  function BreakCellClose(s: string): (r: string)
    ensures |r| >= |s|
    decreases |s|
  {
    if |s| == 0 then []
    else
      var t := CloseGroup(s);
      if |t| > 0 then t + "\n</td>" + BreakCellClose(s[|t| + 5..])
      else [s[0]] + BreakCellClose(s[1..])
  }

  // ---------------------------------------------------------------------------
  // `(<td[^>]*>)(<p>|<blockquote>)` becomes `\1\n\2`

  /** When `(<td[^>]*>)(<p>|<blockquote>)` matches at the start of `s`, the
      length of the first group. `[^>]*` cannot stop short of the first `>`, so
      the group ends there. */
  function OpenCell(s: string): (n: nat)
    ensures n == 0 || 4 <= n < |s|
    ensures n > 0 ==> StartsWith(s, "<td") && s[n - 1] == '>'
  {
    if !StartsWith(s, "<td") then 0
    else
      var n := 3 + IndexOf(s[3..], '>') + 1;
      if n <= |s| && (StartsWith(s[n..], "<p>") || StartsWith(s[n..], "<blockquote>")) then n
      else 0
  }

  /** The second group, following the cell tag of length `n`. */
  function OpenTag(s: string, n: nat): (t: string)
    requires n <= |s|
    ensures t == "<p>" || t == "<blockquote>"
  {
    if StartsWith(s[n..], "<p>") then "<p>" else "<blockquote>"
  }

  function BreakCellOpen(s: string): (r: string)
    ensures |r| >= |s|
    decreases |s|
  {
    if |s| == 0 then []
    else
      var n := OpenCell(s);
      if n > 0 then
        var t := OpenTag(s, n);
        assert StartsWith(s[n..], t);
        s[..n] + ("\n" + t + BreakCellOpen(s[n + |t|..]))
      else [s[0]] + BreakCellOpen(s[1..])
  }

  /** `sanitize_for_mdx`: afterwards no `</p></td>` or `</blockquote></td>`
      remains. */
  function SanitizeForMdx(s: string): (r: string)
    ensures !Contains(r, CloseP)
    ensures !Contains(r, CloseQuote)
  {
    var c := BreakCellClose(RemoveStyle(s));
    BreakCellCloseClean(RemoveStyle(s), CloseP);
    BreakCellCloseClean(RemoveStyle(s), CloseQuote);
    BreakCellOpenClean(c, CloseP);
    BreakCellOpenClean(c, CloseQuote);
    BreakCellOpen(c)
  }

  // ---------------------------------------------------------------------------
  // Each rewrite changes its input exactly when its pattern matches somewhere

  /** Somewhere in `s` a ` style="…"` attribute starts. */
  predicate HasStyle(s: string) {
    exists i | 0 <= i < |s| :: StyleAt(s[i..])
  }

  lemma {:induction false} RemoveStyleShorter(s: string, i: nat)
    requires i < |s| && StyleAt(s[i..])
    ensures |RemoveStyle(s)| < |s|
    decreases |s|
  {
    if !StyleAt(s) {
      assert s[1..][i - 1..] == s[i..];
      RemoveStyleShorter(s[1..], i - 1);
    }
  }

  lemma {:induction false} RemoveStyleKeeps(s: string)
    requires !HasStyle(s)
    ensures RemoveStyle(s) == s
    decreases |s|
  {
    if |s| > 0 {
      assert s[0..] == s;
      assert !HasStyle(s[1..]) by {
        forall i | 0 <= i < |s[1..]| ensures !StyleAt(s[1..][i..]) {
          assert s[1..][i..] == s[i + 1..];
        }
      }
      RemoveStyleKeeps(s[1..]);
    }
  }

  /** Removing style attributes changes the text exactly when it carries one. */
  lemma RemoveStyleUnchanged(s: string)
    ensures RemoveStyle(s) == s <==> !HasStyle(s)
  {
    if HasStyle(s) {
      var i :| 0 <= i < |s| && StyleAt(s[i..]);
      RemoveStyleShorter(s, i);
    } else {
      RemoveStyleKeeps(s);
    }
  }

  /** Somewhere in `s` a paragraph or block quote is closed right before `</td>`. */
  predicate HasClose(s: string) {
    Contains(s, CloseP) || Contains(s, CloseQuote)
  }

  lemma {:induction false} BreakCellCloseLonger(s: string, i: nat)
    requires i < |s| && |CloseGroup(s[i..])| > 0
    ensures |BreakCellClose(s)| > |s|
    decreases |s|
  {
    if |CloseGroup(s)| == 0 {
      assert s[1..][i - 1..] == s[i..];
      BreakCellCloseLonger(s[1..], i - 1);
    }
  }

  lemma {:induction false} BreakCellCloseKeeps(s: string)
    requires forall i | 0 <= i < |s| :: |CloseGroup(s[i..])| == 0
    ensures BreakCellClose(s) == s
    decreases |s|
  {
    if |s| > 0 {
      assert s[0..] == s;
      forall i | 0 <= i < |s[1..]| ensures |CloseGroup(s[1..][i..])| == 0 {
        assert s[1..][i..] == s[i + 1..];
      }
      BreakCellCloseKeeps(s[1..]);
    }
  }

  lemma {:induction false} CloseGroupAt(s: string, i: nat)
    requires i < |s|
    ensures |CloseGroup(s[i..])| > 0 <==> OccursAt(s, i, CloseP) || OccursAt(s, i, CloseQuote)
  {
    OccursAtSuffix(s, i, CloseP);
    OccursAtSuffix(s, i, CloseQuote);
  }

  /** Breaking closing cell tags changes the text exactly when some paragraph or
      block quote is closed right before `</td>`. */
  lemma BreakCellCloseUnchanged(s: string)
    ensures BreakCellClose(s) == s <==> !HasClose(s)
  {
    if Contains(s, CloseP) {
      var i :| 0 <= i <= |s| && OccursAt(s, i, CloseP);
      assert |CloseP| == 9;
      CloseGroupAt(s, i);
      BreakCellCloseLonger(s, i);
    } else if Contains(s, CloseQuote) {
      var i :| 0 <= i <= |s| && OccursAt(s, i, CloseQuote);
      assert |CloseQuote| == 18;
      CloseGroupAt(s, i);
      BreakCellCloseLonger(s, i);
    } else {
      forall i | 0 <= i < |s| ensures |CloseGroup(s[i..])| == 0 {
        CloseGroupAt(s, i);
      }
      BreakCellCloseKeeps(s);
    }
  }

  /** Somewhere in `s` a cell is opened right before a paragraph or block quote. */
  predicate HasOpen(s: string) {
    exists i | 0 <= i < |s| :: OpenCell(s[i..]) > 0
  }

  lemma {:induction false} BreakCellOpenLonger(s: string, i: nat)
    requires i < |s| && OpenCell(s[i..]) > 0
    ensures |BreakCellOpen(s)| > |s|
    decreases |s|
  {
    if OpenCell(s) == 0 {
      assert s[1..][i - 1..] == s[i..];
      BreakCellOpenLonger(s[1..], i - 1);
    }
  }

  lemma {:induction false} BreakCellOpenKeeps(s: string)
    requires !HasOpen(s)
    ensures BreakCellOpen(s) == s
    decreases |s|
  {
    if |s| > 0 {
      assert s[0..] == s;
      assert !HasOpen(s[1..]) by {
        forall i | 0 <= i < |s[1..]| ensures OpenCell(s[1..][i..]) == 0 {
          assert s[1..][i..] == s[i + 1..];
        }
      }
      BreakCellOpenKeeps(s[1..]);
    }
  }

  /** Breaking opening cell tags changes the text exactly when some cell is
      opened right before a paragraph or block quote. */
  lemma BreakCellOpenUnchanged(s: string)
    ensures BreakCellOpen(s) == s <==> !HasOpen(s)
  {
    if HasOpen(s) {
      var i :| 0 <= i < |s| && OpenCell(s[i..]) > 0;
      BreakCellOpenLonger(s, i);
    } else {
      BreakCellOpenKeeps(s);
    }
  }

  /** Text with nothing for any of the three rewrites to act on comes back as
      it was. */
  lemma SanitizeUnchanged(s: string)
    requires !HasStyle(s) && !HasClose(s) && !HasOpen(s)
    ensures SanitizeForMdx(s) == s
  {
    RemoveStyleUnchanged(s);
    BreakCellCloseUnchanged(s);
    BreakCellOpenUnchanged(s);
  }

  // ---------------------------------------------------------------------------
  // No paragraph or block quote stays glued to a closing `</td>`

  /** Neither rewrite of cell tags produces a newline-free prefix that was not
      already there: each inserts a newline right after a prefix it copies. */
  lemma {:induction false} BreakCellClosePrefix(x: string, q: string)
    requires '\n' !in q && StartsWith(BreakCellClose(x), q)
    ensures StartsWith(x, q)
    decreases |x|
  {
    if |q| > 0 && |x| > 0 {
      var r := BreakCellClose(x);
      var t := CloseGroup(x);
      if |t| > 0 {
        assert r[|t|] == '\n';
        assert |q| <= |t|;
        assert x[..|q|] == t[..|q|] == r[..|q|];
      } else {
        assert r[1..][..|q| - 1] == q[1..];
        BreakCellClosePrefix(x[1..], q[1..]);
        assert x[..|q|] == [x[0]] + x[1..][..|q| - 1];
      }
    }
  }

  lemma {:induction false} BreakCellOpenPrefix(x: string, q: string)
    requires '\n' !in q && StartsWith(BreakCellOpen(x), q)
    ensures StartsWith(x, q)
    decreases |x|
  {
    if |q| > 0 && |x| > 0 {
      var r := BreakCellOpen(x);
      var n := OpenCell(x);
      if n > 0 {
        assert r[n] == '\n';
        assert |q| <= n;
        assert x[..|q|] == r[..|q|];
      } else {
        assert r[1..][..|q| - 1] == q[1..];
        BreakCellOpenPrefix(x[1..], q[1..]);
        assert x[..|q|] == [x[0]] + x[1..][..|q| - 1];
      }
    }
  }

  /** A closing pattern: `(</p>|</blockquote>)</td>`. */
  predicate IsClose(w: string) {
    w == CloseP || w == CloseQuote
  }

  /** A mismatch at offset `k` rules out an occurrence at `i`. */
  lemma MismatchAt(x: string, i: nat, w: string, k: nat)
    requires k < |w| && i + k < |x| && x[i + k] != w[k]
    ensures !OccursAt(x, i, w)
  {
    if i + |w| <= |x| {
      assert x[i..i + |w|][k] == x[i + k];
    }
  }

  /** Occurrences in `a + b` that start in `b` are those of `b`. */
  lemma OccursShift(a: string, b: string, i: nat, w: string)
    requires i >= |a|
    ensures OccursAt(a + b, i, w) <==> OccursAt(b, i - |a|, w)
  {
    if i + |w| <= |a + b| {
      assert (a + b)[i..i + |w|] == b[i - |a|..i - |a| + |w|];
    }
  }

  /** An occurrence at the start of `[c] + b`. */
  lemma OccursFirst(c: char, b: string, w: string)
    requires |w| > 0
    ensures OccursAt([c] + b, 0, w) <==> c == w[0] && StartsWith(b, w[1..])
  {
    if |w| <= |b| + 1 {
      assert ([c] + b)[0..|w|] == [c] + b[..|w| - 1];
      assert w == [w[0]] + w[1..];
    }
  }

  lemma StartsWithCons(s: string, w: string)
    requires |s| > 0 && |w| > 0
    ensures StartsWith(s, w) <==> s[0] == w[0] && StartsWith(s[1..], w[1..])
  {
    if |w| <= |s| {
      assert s[..|w|] == [s[0]] + s[1..][..|w| - 1];
      assert w == [w[0]] + w[1..];
    }
  }

  lemma ClosePatterns(w: string)
    requires IsClose(w)
    ensures |w| > 1 && '\n' !in w
  {
  }

  /** A closing pattern never starts inside the replacement `</p>\n</td>`. */
  lemma WindowCloseP(b: string, w: string, i: nat)
    requires IsClose(w) && i < 10
    ensures !OccursAt("</p>\n</td>" + b, i, w)
  {
    var x := "</p>\n</td>" + b;
    if i == 0 {
      if w == CloseP { MismatchAt(x, 0, w, 4); } else { MismatchAt(x, 0, w, 2); }
    } else if i == 1 {
      MismatchAt(x, 1, w, 0);
    } else if i == 2 {
      MismatchAt(x, 2, w, 0);
    } else if i == 3 {
      MismatchAt(x, 3, w, 0);
    } else if i == 4 {
      MismatchAt(x, 4, w, 0);
    } else if i == 5 {
      MismatchAt(x, 5, w, 2);
    } else if i == 6 {
      MismatchAt(x, 6, w, 0);
    } else if i == 7 {
      MismatchAt(x, 7, w, 0);
    } else if i == 8 {
      MismatchAt(x, 8, w, 0);
    } else {
      MismatchAt(x, 9, w, 0);
    }
  }

  /** A closing pattern never starts inside the replacement `</blockquote>\n</td>`. */
  lemma {:induction false} WindowCloseQuote(b: string, w: string, i: nat)
    requires IsClose(w) && i < 19
    ensures !OccursAt("</blockquote>\n</td>" + b, i, w)
  {
    if i < 10 {
      WindowCloseQuoteHead(b, w, i);
    } else {
      WindowCloseQuoteTail(b, w, i);
    }
  }

  lemma {:induction false} WindowCloseQuoteHead(b: string, w: string, i: nat)
    requires IsClose(w) && i < 10
    ensures !OccursAt("</blockquote>\n</td>" + b, i, w)
  {
    var x := "</blockquote>\n</td>" + b;
    if i == 0 {
      if w == CloseP { MismatchAt(x, 0, w, 2); } else { MismatchAt(x, 0, w, 13); }
    } else if i == 1 {
      MismatchAt(x, 1, w, 0);
    } else if i == 2 {
      MismatchAt(x, 2, w, 0);
    } else if i == 3 {
      MismatchAt(x, 3, w, 0);
    } else if i == 4 {
      MismatchAt(x, 4, w, 0);
    } else if i == 5 {
      MismatchAt(x, 5, w, 0);
    } else if i == 6 {
      MismatchAt(x, 6, w, 0);
    } else if i == 7 {
      MismatchAt(x, 7, w, 0);
    } else if i == 8 {
      MismatchAt(x, 8, w, 0);
    } else {
      MismatchAt(x, 9, w, 0);
    }
  }

  lemma {:induction false} WindowCloseQuoteTail(b: string, w: string, i: nat)
    requires IsClose(w) && 10 <= i < 19
    ensures !OccursAt("</blockquote>\n</td>" + b, i, w)
  {
    var x := "</blockquote>\n</td>" + b;
    if i == 14 {
      MismatchAt(x, 14, w, 2);
    } else if i == 10 {
      MismatchAt(x, 10, w, 0);
    } else if i == 11 {
      MismatchAt(x, 11, w, 0);
    } else if i == 12 {
      MismatchAt(x, 12, w, 0);
    } else if i == 13 {
      MismatchAt(x, 13, w, 0);
    } else if i == 15 {
      MismatchAt(x, 15, w, 0);
    } else if i == 16 {
      MismatchAt(x, 16, w, 0);
    } else if i == 17 {
      MismatchAt(x, 17, w, 0);
    } else {
      MismatchAt(x, 18, w, 0);
    }
  }

  /** A closing pattern never starts inside the inserted newline and `<p>`. */
  lemma WindowOpenP(b: string, w: string, i: nat)
    requires IsClose(w) && i < 4
    ensures !OccursAt("\n<p>" + b, i, w)
  {
    var x := "\n<p>" + b;
    if i == 0 {
      MismatchAt(x, 0, w, 0);
    } else if i == 1 {
      MismatchAt(x, 1, w, 1);
    } else if i == 2 {
      MismatchAt(x, 2, w, 0);
    } else {
      MismatchAt(x, 3, w, 0);
    }
  }

  /** A closing pattern never starts inside the inserted newline and `<blockquote>`. */
  lemma WindowOpenQuote(b: string, w: string, i: nat)
    requires IsClose(w) && i < 13
    ensures !OccursAt("\n<blockquote>" + b, i, w)
  {
    var x := "\n<blockquote>" + b;
    if i == 0 {
      MismatchAt(x, 0, w, 0);
    } else if i == 1 {
      MismatchAt(x, 1, w, 1);
    } else if i == 2 {
      MismatchAt(x, 2, w, 0);
    } else if i == 3 {
      MismatchAt(x, 3, w, 0);
    } else if i == 4 {
      MismatchAt(x, 4, w, 0);
    } else if i == 5 {
      MismatchAt(x, 5, w, 0);
    } else if i == 6 {
      MismatchAt(x, 6, w, 0);
    } else if i == 7 {
      MismatchAt(x, 7, w, 0);
    } else if i == 8 {
      MismatchAt(x, 8, w, 0);
    } else if i == 9 {
      MismatchAt(x, 9, w, 0);
    } else if i == 10 {
      MismatchAt(x, 10, w, 0);
    } else if i == 11 {
      MismatchAt(x, 11, w, 0);
    } else {
      MismatchAt(x, 12, w, 0);
    }
  }

  /** A copied character starts no occurrence unless the rest continues it. */
  lemma CopiedCharClean(c: char, b: string, w: string)
    requires |w| > 0 && !Contains(b, w)
    requires !(c == w[0] && StartsWith(b, w[1..]))
    ensures !Contains([c] + b, w)
  {
    var x := [c] + b;
    forall i | 0 <= i <= |x| ensures !OccursAt(x, i, w) {
      if i >= 1 {
        OccursShift([c], b, i, w);
      } else {
        OccursFirst(c, b, w);
      }
    }
  }

  /** The replacement `\1\n</td>` starts no occurrence of a closing pattern. */
  lemma CloseChunkClean(t: string, b: string, w: string)
    requires t == "</p>" || t == "</blockquote>"
    requires IsClose(w) && !Contains(b, w)
    ensures !Contains(t + "\n</td>" + b, w)
  {
    var a := t + "\n</td>";
    forall i | 0 <= i <= |a + b| ensures !OccursAt(a + b, i, w) {
      if i >= |a| {
        OccursShift(a, b, i, w);
      } else if t == "</p>" {
        assert a == "</p>\n</td>";
        WindowCloseP(b, w, i);
      } else {
        assert a == "</blockquote>\n</td>";
        WindowCloseQuote(b, w, i);
      }
    }
  }

  /** The copied cell tag, the newline and the tag `\2` start no occurrence of
      a closing pattern that the input did not have. */
  lemma OpenChunkClean(s: string, n: nat, t: string, b: string, w: string)
    requires 0 < n <= |s| && (t == "<p>" || t == "<blockquote>")
    requires IsClose(w) && !Contains(s, w) && !Contains(b, w)
    ensures !Contains(s[..n] + ("\n" + t + b), w)
  {
    ClosePatterns(w);
    var a := "\n" + t;
    var x := s[..n] + (a + b);
    forall i | 0 <= i <= |x| ensures !OccursAt(x, i, w) {
      if i >= n + |a| {
        OccursShift(s[..n], a + b, i, w);
        OccursShift(a, b, i - n, w);
      } else if i >= n {
        OccursShift(s[..n], a + b, i, w);
        if t == "<p>" {
          assert a == "\n<p>";
          WindowOpenP(b, w, i - n);
        } else {
          assert a == "\n<blockquote>";
          WindowOpenQuote(b, w, i - n);
        }
      } else {
        CopiedWindow(s, n, a + b, i, w);
      }
    }
  }

  /** After breaking closing cell tags no paragraph or block quote is closed
      right before `</td>`. */
  lemma {:induction false} BreakCellCloseClean(s: string, w: string)
    requires IsClose(w)
    ensures !Contains(BreakCellClose(s), w)
    decreases |s|
  {
    if |s| > 0 {
      var t := CloseGroup(s);
      if |t| > 0 {
        BreakCellCloseClean(s[|t| + 5..], w);
        CloseChunkClean(t, BreakCellClose(s[|t| + 5..]), w);
      } else {
        var b := BreakCellClose(s[1..]);
        BreakCellCloseClean(s[1..], w);
        ClosePatterns(w);
        assert !(s[0] == w[0] && StartsWith(b, w[1..])) by {
          if StartsWith(b, w[1..]) {
            BreakCellClosePrefix(s[1..], w[1..]);
            StartsWithCons(s, w);
          }
        }
        CopiedCharClean(s[0], b, w);
      }
    }
  }

  /** Breaking opening cell tags does not glue a paragraph or block quote to a
      closing `</td>`. */
  lemma {:induction false} BreakCellOpenClean(s: string, w: string)
    requires IsClose(w) && !Contains(s, w)
    ensures !Contains(BreakCellOpen(s), w)
    decreases |s|, 1
  {
    if |s| > 0 {
      if OpenCell(s) > 0 {
        OpenRestClean(s, w);
      } else {
        CopyRestClean(s, w);
      }
    }
  }

  lemma {:induction false} OpenRestClean(s: string, w: string)
    requires OpenCell(s) > 0
    requires IsClose(w) && !Contains(s, w)
    ensures !Contains(BreakCellOpen(s), w)
    decreases |s|, 0
  {
    var k := OpenSkip(s);
    NotContainsSuffix(s, k, w);
    BreakCellOpenClean(s[k..], w);
    OpenStepClean(s, w);
  }

  lemma {:induction false} CopyRestClean(s: string, w: string)
    requires |s| > 0 && OpenCell(s) == 0
    requires IsClose(w) && !Contains(s, w)
    ensures !Contains(BreakCellOpen(s), w)
    decreases |s|, 0
  {
    NotContainsSuffix(s, 1, w);
    BreakCellOpenClean(s[1..], w);
    CopyStepClean(s, w);
  }

  /** The step of the above where the first character is copied. */
  lemma {:induction false} CopyStepClean(s: string, w: string)
    requires |s| > 0 && OpenCell(s) == 0
    requires IsClose(w) && !Contains(s, w)
    requires !Contains(BreakCellOpen(s[1..]), w)
    ensures !Contains(BreakCellOpen(s), w)
  {
    var b := BreakCellOpen(s[1..]);
    ClosePatterns(w);
    assert !(s[0] == w[0] && StartsWith(b, w[1..])) by {
      if StartsWith(b, w[1..]) {
        BreakCellOpenPrefix(s[1..], w[1..]);
        StartsWithCons(s, w);
        assert StartsWith(s, w) ==> OccursAt(s, 0, w);
      }
    }
    CopiedCharClean(s[0], b, w);
  }

  /** The step of the above where a cell tag is broken before its paragraph. */
  lemma {:induction false} OpenStepClean(s: string, w: string)
    requires OpenCell(s) > 0
    requires IsClose(w) && !Contains(s, w)
    requires !Contains(BreakCellOpen(s[OpenSkip(s)..]), w)
    ensures !Contains(BreakCellOpen(s), w)
  {
    var n := OpenCell(s);
    var t := OpenTag(s, n);
    var b := BreakCellOpen(s[n + |t|..]);
    assert BreakCellOpen(s) == s[..n] + ("\n" + t + b) by { OpenUnfold(s); }
    OpenChunkClean(s, n, t, b, w);
  }

  /** Where the copying resumes after a broken cell tag and its paragraph tag. */
  function OpenSkip(s: string): (k: nat)
    requires OpenCell(s) > 0
    ensures 0 < k <= |s|
  {
    var n := OpenCell(s);
    var t := OpenTag(s, n);
    assert StartsWith(s[n..], t);
    n + |t|
  }

  lemma {:induction false} OpenUnfold(s: string)
    requires OpenCell(s) > 0
    ensures var n := OpenCell(s);
            var t := OpenTag(s, n);
            n + |t| <= |s| &&
            BreakCellOpen(s) == s[..n] + ("\n" + t + BreakCellOpen(s[n + |t|..]))
  {
    var n := OpenCell(s);
    var t := OpenTag(s, n);
    assert StartsWith(s[n..], t);
  }

  lemma NotContainsSuffix(s: string, k: nat, w: string)
    requires k <= |s| && !Contains(s, w)
    ensures !Contains(s[k..], w)
  {
    forall i | 0 <= i <= |s[k..]| ensures !OccursAt(s[k..], i, w) {
      if i + |w| <= |s[k..]| {
        assert s[k..][i..i + |w|] == s[k + i..k + i + |w|];
      }
      assert !OccursAt(s, k + i, w);
    }
  }

  /** An occurrence starting in the copied part `s[..n]`, followed by a newline,
      lies inside `s`. */
  lemma CopiedWindow(s: string, n: nat, b: string, i: nat, w: string)
    requires n <= |s| && |b| > 0 && b[0] == '\n' && i < n
    requires '\n' !in w && !Contains(s, w)
    ensures !OccursAt(s[..n] + b, i, w)
  {
    var x := s[..n] + b;
    assert !OccursAt(s, i, w);
    if i + |w| <= n {
      assert x[i..i + |w|] == s[i..i + |w|];
    } else if i + |w| <= |x| {
      assert x[i..i + |w|][n - i] == x[n] == '\n';
    }
  }

  // ---------------------------------------------------------------------------
  // A single pass is not idempotent

  /** Text without a `<` has no cell tag for either rewrite to break. */
  lemma {:induction false} TagFreeKept(s: string)
    requires '<' !in s
    ensures BreakCellClose(s) == s && BreakCellOpen(s) == s
    decreases |s|
  {
    if |s| > 0 {
      assert s[0] != '<';
      assert !StartsWith(s, CloseP) && !StartsWith(s, CloseQuote) && !StartsWith(s, "<td");
      assert '<' !in s[1..] by {
        forall i | 0 <= i < |s[1..]| ensures s[1..][i] != '<' {
          assert s[1..][i] == s[i + 1];
        }
      }
      TagFreeKept(s[1..]);
      assert s == [s[0]] + s[1..];
    }
  }

  /** Text without a space has no ` style="` for the first rewrite to remove. */
  lemma SpaceFreeKept(s: string)
    requires ' ' !in s
    ensures RemoveStyle(s) == s
  {
    assert !HasStyle(s) by {
      forall i | 0 <= i < |s| ensures !StyleAt(s[i..]) {
        assert s[i..][0] == s[i];
      }
    }
    RemoveStyleKeeps(s);
  }

  /** The first occurrence of `c` follows a prefix without one. */
  lemma {:induction false} IndexOfAfter(v: string, c: char, rest: string)
    requires c !in v
    ensures IndexOf(v + [c] + rest, c) == |v|
  {
    var s := v + [c] + rest;
    assert s[..|v|] == v;
    assert s[|v|] == c;
  }

  /** A whole ` style="v"` attribute at the front is dropped. */
  lemma StyleDropped(v: string, rest: string)
    requires '"' !in v
    ensures RemoveStyle(StyleOpen + v + "\"" + rest) == RemoveStyle(rest)
  {
    var s := StyleOpen + v + "\"" + rest;
    assert s[8..] == v + ['"'] + rest;
    IndexOfAfter(v, '"', rest);
    assert StartsWith(s, StyleOpen);
    assert s[StyleLen(s)..] == rest;
  }

  /** A character where no style attribute starts is copied. */
  lemma Copied(c: char, t: string, j: nat)
    requires j < |StyleOpen| <= |t| && ([c] + t)[j] != StyleOpen[j]
    ensures RemoveStyle([c] + t) == [c] + RemoveStyle(t)
  {
    var s := [c] + t;
    assert s[..8][j] == s[j];
    assert s[1..] == t;
  }

  /** The rest of ` style="` around a space-free value has no space. */
  lemma TailSpaceFree(w: string)
    requires ' ' !in w
    ensures ' ' !in StyleOpen[1..] + w + "\""
  {
    var tail := StyleOpen[1..] + w + "\"";
    forall i | 0 <= i < |tail| ensures tail[i] != ' ' {
      if 7 <= i < 7 + |w| {
        assert tail[i] == w[i - 7];
      }
    }
  }

  /** A space followed by the rest of ` style="` spells ` style="` again. */
  lemma SpaceThenRest(w: string)
    ensures [' '] + (StyleOpen[1..] + w + "\"") == StyleOpen + w + "\""
  {
    assert [' '] + StyleOpen[1..] == StyleOpen;
  }

  /** `  style="v"style="w"`: the attribute ` style="v"` sits between a space
      and `style="w"`, which together spell a second one. */
  function Glued(v: string, w: string): string {
    [' '] + (StyleOpen + v + "\"" + (StyleOpen[1..] + w + "\""))
  }

  /** Removing the inner attribute joins the text around it into
      ` style="w"`. */
  lemma JoinedStyle(v: string, w: string)
    requires '"' !in v && '"' !in w && ' ' !in w
    ensures RemoveStyle(Glued(v, w)) == StyleOpen + w + "\""
  {
    var tail := StyleOpen[1..] + w + "\"";
    var m := StyleOpen + v + "\"" + tail;
    assert RemoveStyle([' '] + m) == [' '] + RemoveStyle(m) by {
      assert ([' '] + m)[1] == ' ';
      Copied(' ', m, 1);
    }
    StyleDropped(v, tail);
    TailSpaceFree(w);
    SpaceFreeKept(tail);
    SpaceThenRest(w);
  }

  /** `sanitize_for_mdx` applied twice differs from applied once: removing
      ` style="v"` from `  style="v"style="w"` joins the text around it into a
      new ` style="w"`, which only the second pass removes. */
  lemma NotIdempotent(v: string, w: string)
    requires '"' !in v && '"' !in w && ' ' !in w && '<' !in w
    ensures SanitizeForMdx(Glued(v, w)) == StyleOpen + w + "\""
    ensures SanitizeForMdx(SanitizeForMdx(Glued(v, w))) == []
  {
    var y := StyleOpen + w + "\"";
    JoinedStyle(v, w);
    assert '<' !in y by {
      forall i | 0 <= i < |y| ensures y[i] != '<' {
        if 8 <= i < 8 + |w| {
          assert y[i] == w[i - 8];
        }
      }
    }
    TagFreeKept(y);
    StyleDropped(w, []);
    assert y + [] == y;
    TagFreeKept([]);
  }
}
