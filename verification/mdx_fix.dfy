/**
 `scripts/fix-mdx-issues.py`: the clean-up that makes converted Markdown
 compile as MDX. Each clean-up is one or more `re.sub` calls; every pattern is
 modelled as a rule that, at a position, either matches (giving the length of
 the match and its replacement, exactly as Python's backtracking matcher would
 at that position) or does not, and `Sub` applies a rule left to right the way
 `re.sub` does.
 */
module MdxFix {
  import opened Wrappers
  import opened Text

  // ---------------------------------------------------------------------------
  // `re.sub` with a rule

  /** A pattern and its replacement, tried at the start of a text: the length
      of the match and what it becomes, or `None`. */
  type Rule = string -> Option<(nat, string)>

  /** The rule matches a non-empty prefix of `t`. None of the patterns of the
      script can match the empty string. */
  predicate Fires(rule: Rule, t: string) {
    rule(t).Some? && 0 < rule(t).value.0 <= |t|
  }

  /** `re.sub(pattern, repl, s)`: scanning left to right, each match is replaced
      and scanning resumes after it; where nothing matches the character is
      copied. */
  function Sub(s: string, rule: Rule): string
    decreases |s|
  {
    if |s| == 0 then ""
    else if Fires(rule, s) then rule(s).value.1 + Sub(s[rule(s).value.0..], rule)
    else [s[0]] + Sub(s[1..], rule)
  }

  /** Text in front of which the rule never fires is copied unchanged. */
  lemma {:induction false} SubSkip(pre: string, rest: string, rule: Rule)
    requires forall k | 0 <= k < |pre| :: !Fires(rule, (pre + rest)[k..])
    ensures Sub(pre + rest, rule) == pre + Sub(rest, rule)
    decreases |pre|
  {
    var s := pre + rest;
    if |pre| == 0 {
      assert s == rest;
    } else {
      assert s[0..] == s;
      assert s[1..] == pre[1..] + rest;
      forall k | 0 <= k < |pre[1..]|
        ensures !Fires(rule, (pre[1..] + rest)[k..])
      {
        assert (pre[1..] + rest)[k..] == s[k + 1..];
      }
      SubSkip(pre[1..], rest, rule);
      assert Sub(s, rule) == [pre[0]] + Sub(pre[1..] + rest, rule);
      assert [pre[0]] + pre[1..] == pre;
    }
  }

  /** A rule whose matches all begin with `c` leaves a text without `c` in
      front of it alone. */
  lemma {:induction false} SubLead(pre: string, rest: string, rule: Rule, c: char)
    requires forall t | Fires(rule, t) :: t[0] == c
    requires c !in pre
    ensures Sub(pre + rest, rule) == pre + Sub(rest, rule)
  {
    forall k | 0 <= k < |pre|
      ensures !Fires(rule, (pre + rest)[k..])
    {
      assert (pre + rest)[k..][0] == pre[k];
    }
    SubSkip(pre, rest, rule);
  }

  /** ...and a whole text without `c` is returned as it is. */
  lemma {:induction false} SubUntouched(s: string, rule: Rule, c: char)
    requires forall t | Fires(rule, t) :: t[0] == c
    ensures c !in s ==> Sub(s, rule) == s
  {
    if c !in s {
      SubLead(s, "", rule, c);
      assert s + "" == s;
    }
  }

  /** A rule whose replacements are never longer than their matches never
      lengthens the text. */
  lemma {:induction false} SubShorter(s: string, rule: Rule)
    requires forall t | Fires(rule, t) :: |rule(t).value.1| <= rule(t).value.0
    ensures |Sub(s, rule)| <= |s|
    decreases |s|
  {
    if |s| > 0 {
      if Fires(rule, s) {
        SubShorter(s[rule(s).value.0..], rule);
      } else {
        SubShorter(s[1..], rule);
      }
    }
  }

  // ---------------------------------------------------------------------------
  // Character classes

  /** Python's `\w` on a `str`, restricted to the scripts the regulations are
      written in: ASCII letters, digits and `_`, Hangul and CJK ideographs. */
  predicate IsWordChar(c: char) {
    || ('a' <= c <= 'z')
    || ('A' <= c <= 'Z')
    || ('0' <= c <= '9')
    || c == '_'
    || ('\U{1100}' <= c <= '\U{11FF}')
    || ('\U{3130}' <= c <= '\U{318F}')
    || ('\U{AC00}' <= c <= '\U{D7A3}')
    || ('\U{4E00}' <= c <= '\U{9FFF}')
  }

  /** `[\w-]` */
  predicate ClassChar(c: char) {
    IsWordChar(c) || c == '-'
  }

  /** `[\w\s="'-]` */
  predicate AttrChar(c: char) {
    IsWordChar(c) || IsSpace(c) || c == '=' || c == '"' || c == '\'' || c == '-'
  }

  /** `[\w\s=".\-:]` */
  predicate SizeChar(c: char) {
    IsWordChar(c) || IsSpace(c) || c == '=' || c == '"' || c == '.' || c == '-' || c == ':'
  }

  /** `[\w\.]` */
  predicate FileChar(c: char) {
    IsWordChar(c) || c == '.'
  }

  // ---------------------------------------------------------------------------
  // fix_pandoc_attributes

  /** `\{\.[\w-]+\}`, deleted. */
  function PandocClass(t: string): Option<(nat, string)> {
    if StartsWith(t, "{.") then
      var n := Span(t, 2, ClassChar);
      if n > 0 && 2 + n < |t| && t[2 + n] == '}' then Some((3 + n, "")) else None
    else None
  }

  /** `\{[#\.][\w\s="'-]*\}`, deleted. */
  function PandocAttr(t: string): Option<(nat, string)> {
    if |t| >= 2 && t[0] == '{' && (t[1] == '#' || t[1] == '.') then
      var n := Span(t, 2, AttrChar);
      if 2 + n < |t| && t[2 + n] == '}' then Some((3 + n, "")) else None
    else None
  }

  /** `\{[\w\s=".\-:]+\}`, deleted. */
  function PandocSize(t: string): Option<(nat, string)> {
    if |t| >= 1 && t[0] == '{' then
      var n := Span(t, 1, SizeChar);
      if n > 0 && 1 + n < |t| && t[1 + n] == '}' then Some((2 + n, "")) else None
    else None
  }

  /** `fix_pandoc_attributes`: attribute removal only ever deletes, and a text
      without `{` has no attributes to remove. */
  function FixPandocAttributes(content: string): (r: string)
    ensures |r| <= |content|
    ensures '{' !in content ==> r == content
  {
    var a := Sub(content, PandocClass);
    var b := Sub(a, PandocAttr);
    PandocLead();
    SubShorter(content, PandocClass);
    SubShorter(a, PandocAttr);
    SubShorter(b, PandocSize);
    SubUntouched(content, PandocClass, '{');
    SubUntouched(a, PandocAttr, '{');
    SubUntouched(b, PandocSize, '{');
    Sub(b, PandocSize)
  }

  /** The three deletions each start at a `{`. */
  lemma {:induction false} PandocLead()
    ensures forall t | Fires(PandocClass, t) :: t[0] == '{'
    ensures forall t | Fires(PandocAttr, t) :: t[0] == '{'
    ensures forall t | Fires(PandocSize, t) :: t[0] == '{'
  {
    forall t | Fires(PandocClass, t)
      ensures t[0] == '{'
    {
      assert t[..2] == "{.";
    }
  }

  /** `{.underline}` and its kind vanish from the text: a class span made of
      `\w` and `-` is deleted and scanning resumes after it. */
  lemma {:induction false} PandocClassRemoved(name: string, rest: string)
    requires |name| > 0
    requires forall k | 0 <= k < |name| :: ClassChar(name[k])
    ensures Sub("{." + name + "}" + rest, PandocClass) == Sub(rest, PandocClass)
  {
    var t := "{." + name + "}" + rest;
    assert forall k | 2 <= k < 2 + |name| :: t[k] == name[k - 2];
    assert t[2 + |name|] == '}';
    SpanExact(t, 2, |name|, ClassChar);
    assert t[..2] == "{.";
    assert PandocClass(t) == Some((3 + |name|, ""));
    assert t[3 + |name|..] == rest;
  }

  // ---------------------------------------------------------------------------
  // Exact runs

  /** A run `u` of characters satisfying `p`, followed by one that does not, is
      found exactly. */
  lemma {:induction false} SpanOver(pre: string, u: string, post: string, p: char -> bool)
    requires forall k | 0 <= k < |u| :: p(u[k])
    requires |post| > 0 && !p(post[0])
    ensures Span(pre + u + post, |pre|, p) == |u|
  {
    var s := pre + u + post;
    forall k | |pre| <= k < |pre| + |u|
      ensures p(s[k])
    {
      assert s[k] == u[k - |pre|];
    }
    assert s[|pre| + |u|] == post[0];
    SpanExact(s, |pre|, |u|, p);
  }

  /** Length of the run of characters other than `c` that starts at `i` (a
      greedy `[^c]*`). */
  function UpTo(s: string, i: nat, c: char): (n: nat)
    requires i <= |s|
    ensures i + n <= |s|
    decreases |s| - i
  {
    if i == |s| || s[i] == c then 0 else 1 + UpTo(s, i + 1, c)
  }

  /** A run `u` without `c`, followed by `c`, is found exactly. */
  lemma {:induction false} UpToOver(pre: string, u: string, c: char, post: string)
    requires c !in u
    ensures UpTo(pre + u + [c] + post, |pre|, c) == |u|
    decreases |u|
  {
    var s := pre + u + [c] + post;
    if |u| == 0 {
      assert s[|pre|] == c;
    } else {
      assert s[|pre|] == u[0];
      assert s == (pre + [u[0]]) + u[1..] + [c] + post;
      UpToOver(pre + [u[0]], u[1..], c, post);
    }
  }

  // ---------------------------------------------------------------------------
  // fix_html_markdown_mix

  /** A closing text starts at index `i` of `t`. */
  predicate ClosesAt(t: string, i: nat, closeAt: string -> bool)
    requires i <= |t|
  {
    closeAt(t[i..])
  }

  /** The shortest `k >= k0` for which a closing text starts at `from + k`, as a
      lazy `.*?` (`k0 == 0`) or `.+?` (`k0 == 1`) followed by the closing pattern
      finds it; without `dotAll` the lazily matched text may not contain a
      newline. */
  function Lazy(t: string, from: nat, k: nat, closeAt: string -> bool, dotAll: bool): (r: Option<nat>)
    requires from <= |t|
    ensures r.Some? ==> k <= r.value && from + r.value <= |t| && ClosesAt(t, from + r.value, closeAt)
    decreases |t| - from - k
  {
    if from + k > |t| then None
    else if !dotAll && k > 0 && t[from + k - 1] == '\n' then None
    else if ClosesAt(t, from + k, closeAt) then Some(k)
    else Lazy(t, from, k + 1, closeAt, dotAll)
  }

  /** The lazy match stops at the first closing position. */
  lemma {:induction false} LazyFinds(t: string, from: nat, k: nat, j: nat, closeAt: string -> bool, dotAll: bool)
    requires k <= j && from + j <= |t|
    requires ClosesAt(t, from + j, closeAt)
    requires forall i | from + k <= i < from + j :: !ClosesAt(t, i, closeAt)
    requires !dotAll ==> forall i | from <= i < from + j :: t[i] != '\n'
    ensures Lazy(t, from, k, closeAt, dotAll) == Some(j)
    decreases j - k
  {
    if k < j {
      assert !ClosesAt(t, from + k, closeAt);
      LazyFinds(t, from, k + 1, j, closeAt, dotAll);
    }
  }

  /** Without `dotAll` the lazy match does not cross a newline: a `\n` before
      the first closing position gives no match. */
  lemma {:induction false} LazyStopsAtNewline(t: string, from: nat, k: nat, m: nat, closeAt: string -> bool)
    requires k <= m + 1 && from + m < |t| && t[from + m] == '\n'
    requires forall i | from + k <= i <= from + m :: !ClosesAt(t, i, closeAt)
    ensures Lazy(t, from, k, closeAt, false).None?
    decreases m + 1 - k
  {
    if k <= m && !(k > 0 && t[from + k - 1] == '\n') {
      assert !ClosesAt(t, from + k, closeAt);
      LazyStopsAtNewline(t, from, k + 1, m, closeAt);
    }
  }

  predicate StartsWithClose(close: string, r: string) {
    StartsWith(r, close)
  }

  /** The closing test for a literal closing text. */
  function CloseWith(close: string): string -> bool {
    r => StartsWithClose(close, r)
  }

  /** A lazy match over `x` between `pre` and a closing `post` ends at the end
      of `x` when no closing text starts earlier. */
  lemma {:induction false} LazyOver(pre: string, x: string, post: string, k0: nat, closeAt: string -> bool, dotAll: bool)
    requires k0 <= |x|
    requires closeAt(post)
    requires forall i | k0 <= i < |x| :: !closeAt(x[i..] + post)
    requires !dotAll ==> '\n' !in x
    ensures Lazy(pre + x + post, |pre|, k0, closeAt, dotAll) == Some(|x|)
  {
    var t := pre + x + post;
    var f := |pre|;
    assert t[f + |x|..] == post;
    forall i | f + k0 <= i < f + |x|
      ensures !ClosesAt(t, i, closeAt)
    {
      assert t[i..] == x[i - f..] + post;
    }
    forall i | f <= i < f + |x|
      ensures !dotAll ==> t[i] != '\n'
    {
      assert t[i] == x[i - f];
    }
    LazyFinds(t, f, k0, |x|, closeAt, dotAll);
  }

  /** `<td>M(.+?)M</td>` replaced by `<td>\1</td>`, for the emphasis marker `M`. */
  function CellMark(mark: string, t: string): Option<(nat, string)> {
    var open := "<td>" + mark;
    var close := mark + "</td>";
    if StartsWith(t, open) then
      match Lazy(t, |open|, 1, CloseWith(close), false)
      case Some(k) =>
        assert StartsWithClose(close, t[|open| + k..]);
        Some((|open| + k + |close|, "<td>" + t[|open|..|open| + k] + "</td>"))
      case None => None
    else None
  }

  function Strike(t: string): Option<(nat, string)> { CellMark("~~", t) }
  function Bold(t: string): Option<(nat, string)> { CellMark("**", t) }
  function Italic(t: string): Option<(nat, string)> { CellMark("*", t) }

  /** `<td>~~x~~</td>` becomes `<td>x</td>` when `x` is a non-empty piece of one
      line in which the marker does not start; the same holds for `**` and
      `*`. */
  lemma {:induction false} CellMarkDropped(mark: string, x: string, rest: string)
    requires |mark| > 0 && |x| > 0
    requires '\n' !in x && mark[0] !in x
    ensures CellMark(mark, "<td>" + mark + x + mark + "</td>" + rest)
            == Some((4 + |mark| + |x| + |mark| + 5, "<td>" + x + "</td>"))
  {
    CellParts(mark, x, rest);
    CellMarkByParts(mark, "<td>" + mark + x + mark + "</td>" + rest, x);
  }

  /** The opening, the lazy match and the spanned text of such a cell. */
  lemma {:induction false} CellParts(mark: string, x: string, rest: string)
    requires |mark| > 0 && |x| > 0
    requires '\n' !in x && mark[0] !in x
    ensures var t := "<td>" + mark + x + mark + "</td>" + rest;
            var f := |"<td>" + mark|;
            && StartsWith(t, "<td>" + mark)
            && Lazy(t, f, 1, CloseWith(mark + "</td>"), false) == Some(|x|)
            && f + |x| <= |t| && t[f..f + |x|] == x
  {
    var open := "<td>" + mark;
    var close := mark + "</td>";
    var t := "<td>" + mark + x + mark + "</td>" + rest;
    assert t == open + x + (close + rest);
    assert close[0] == mark[0];
    LazyCell(open, x, close, rest);
  }

  /** The same for any opening and any closing text whose first character `x`
      does not contain. */
  lemma {:induction false} LazyCell(open: string, x: string, close: string, rest: string)
    requires |x| > 0 && |close| > 0 && close[0] !in x && '\n' !in x
    ensures var t := open + x + (close + rest);
            && StartsWith(t, open)
            && Lazy(t, |open|, 1, CloseWith(close), false) == Some(|x|)
            && |open| + |x| <= |t| && t[|open|..|open| + |x|] == x
  {
    var post := close + rest;
    var t := open + x + post;
    assert StartsWith(t, open) by {
      assert t[..|open|] == open;
    }
    assert CloseWith(close)(post) by {
      assert post[..|close|] == close;
    }
    forall i | 1 <= i < |x|
      ensures !CloseWith(close)(x[i..] + post)
    {
      assert (x[i..] + post)[0] == x[i];
    }
    LazyOver(open, x, post, 1, CloseWith(close), false);
    assert t[|open|..|open| + |x|] == x;
  }

  /** `CellMark` from the opening and the text the lazy match spans. */
  lemma {:induction false} CellMarkByParts(mark: string, t: string, x: string)
    requires StartsWith(t, "<td>" + mark)
    requires Lazy(t, |"<td>" + mark|, 1, CloseWith(mark + "</td>"), false) == Some(|x|)
    requires |"<td>" + mark| + |x| <= |t| && t[|"<td>" + mark|..|"<td>" + mark| + |x|] == x
    ensures CellMark(mark, t) == Some((|"<td>" + mark| + |x| + |mark + "</td>"|, "<td>" + x + "</td>"))
  {
    CellMarkAt(mark, t, |x|);
  }

  /** `CellMark` once the lazy match is known to span `n` characters. */
  lemma {:induction false} CellMarkAt(mark: string, t: string, n: nat)
    requires StartsWith(t, "<td>" + mark)
    requires Lazy(t, |"<td>" + mark|, 1, CloseWith(mark + "</td>"), false) == Some(n)
    ensures |"<td>" + mark| + n <= |t|
    ensures CellMark(mark, t)
            == Some((|"<td>" + mark| + n + |mark + "</td>"|, "<td>" + t[|"<td>" + mark|..|"<td>" + mark| + n] + "</td>"))
  {
  }

  /** `<(\w+)\s+style=Q[^Q]*Q` at the start of `t`, for the quote `Q`: the tag
      name and the position just after the closing quote. Backtracking cannot
      find another split, because the character after each greedy run cannot
      belong to the run. */
  function StyleHead(t: string, q: char): (r: Option<(string, nat)>)
    ensures r.Some? ==> r.value.1 <= |t|
  {
    if |t| > 0 && t[0] == '<' then
      var a := Span(t, 1, IsWordChar);
      var b := Span(t, 1 + a, IsSpace);
      var p := 1 + a + b;
      if a > 0 && b > 0 && StartsWith(t[p..], "style=" + [q]) then
        var v := UpTo(t, p + 7, q);
        if p + 7 + v < |t| then Some((t[1..1 + a], p + 8 + v)) else None
      else None
    else None
  }

  /** `<(\w+)\s+style=Q[^Q]*Q([^>]*)>` replaced by `<\1\2>`. */
  function Style(q: char, t: string): Option<(nat, string)> {
    match StyleHead(t, q)
    case Some((name, e)) =>
      var r := UpTo(t, e, '>');
      if e + r < |t| then Some((e + r + 1, "<" + name + t[e..e + r] + ">")) else None
    case None => None
  }

  // `<(\w+)\s+style=Q[^Q]*Q\s*/>` replaced by `<\1 />`.
  function SelfClosing(q: char, t: string): Option<(nat, string)> {
    match StyleHead(t, q)
    case Some((name, e)) =>
      var w := Span(t, e, IsSpace);
      if StartsWith(t[e + w..], "/>") then Some((e + w + 2, "<" + name + " />")) else None
    case None => None
  }

  function StyleDouble(t: string): Option<(nat, string)> { Style('"', t) }
  function StyleSingle(t: string): Option<(nat, string)> { Style('\'', t) }
  function SelfClosingDouble(t: string): Option<(nat, string)> { SelfClosing('"', t) }
  function SelfClosingSingle(t: string): Option<(nat, string)> { SelfClosing('\'', t) }

  /** The head of a tag with a `style` attribute is recognised, whatever
      follows the closing quote. */
  lemma {:induction false} StyleHeadOf(q: char, name: string, ws: string, v: string, tail: string)
    requires |name| > 0 && forall k | 0 <= k < |name| :: IsWordChar(name[k])
    requires |ws| > 0 && forall k | 0 <= k < |ws| :: IsSpace(ws[k])
    requires q !in v
    ensures StyleHead("<" + name + ws + "style=" + [q] + v + [q] + tail, q)
            == Some((name, 9 + |name| + |ws| + |v|))
  {
    var t := "<" + name + ws + "style=" + [q] + v + [q] + tail;
    StyleTagName(q, name, ws, v, tail);
    StyleSpace(q, name, ws, v, tail);
    StyleValue(q, name, ws, v, tail);
    StyleHeadByParts(t, q, |name|, |ws|, |v|);
  }

  /** `StyleHead` from the extents of the name, the whitespace and the value. */
  lemma {:induction false} StyleHeadByParts(t: string, q: char, a: nat, b: nat, v: nat)
    requires |t| > 0 && t[0] == '<' && 1 + a <= |t|
    requires Span(t, 1, IsWordChar) == a && a > 0
    requires Span(t, 1 + a, IsSpace) == b && b > 0
    requires StartsWith(t[1 + a + b..], "style=" + [q])
    requires UpTo(t, 1 + a + b + 7, q) == v && 1 + a + b + 7 + v < |t|
    ensures StyleHead(t, q) == Some((t[1..1 + a], 1 + a + b + 8 + v))
  {
  }

  /** The pieces of a tag head, one fact each. */
  lemma {:induction false} StyleTagName(q: char, name: string, ws: string, v: string, tail: string)
    requires forall k | 0 <= k < |name| :: IsWordChar(name[k])
    requires |ws| > 0 && IsSpace(ws[0])
    ensures var t := "<" + name + ws + "style=" + [q] + v + [q] + tail;
            t[0] == '<' && Span(t, 1, IsWordChar) == |name| && t[1..1 + |name|] == name
  {
    var t := "<" + name + ws + "style=" + [q] + v + [q] + tail;
    var post := ws + "style=" + [q] + v + [q] + tail;
    assert t == "<" + name + post;
    SpanOver("<", name, post, IsWordChar);
    assert t[1..1 + |name|] == name;
  }

  lemma {:induction false} StyleSpace(q: char, name: string, ws: string, v: string, tail: string)
    requires forall k | 0 <= k < |ws| :: IsSpace(ws[k])
    ensures var t := "<" + name + ws + "style=" + [q] + v + [q] + tail;
            var p := 1 + |name| + |ws|;
            Span(t, 1 + |name|, IsSpace) == |ws| && StartsWith(t[p..], "style=" + [q])
  {
    var t := "<" + name + ws + "style=" + [q] + v + [q] + tail;
    var post := "style=" + [q] + v + [q] + tail;
    assert t == ("<" + name) + ws + post;
    SpanOver("<" + name, ws, post, IsSpace);
    assert t[1 + |name| + |ws|..] == post;
    assert post[..7] == "style=" + [q];
  }

  lemma {:induction false} StyleValue(q: char, name: string, ws: string, v: string, tail: string)
    requires q !in v
    ensures var t := "<" + name + ws + "style=" + [q] + v + [q] + tail;
            var p := 1 + |name| + |ws|;
            UpTo(t, p + 7, q) == |v| && p + 7 + |v| < |t|
  {
    var pre := "<" + name + ws + "style=" + [q];
    var t := "<" + name + ws + "style=" + [q] + v + [q] + tail;
    assert t == pre + v + [q] + tail;
    UpToOver(pre, v, q, tail);
  }

  /** A `style` attribute between a tag name and the rest of the tag is
      removed, together with the whitespace before it. */
  lemma {:induction false} StyleRemoved(q: char, name: string, ws: string, v: string, attrs: string, rest: string)
    requires |name| > 0 && forall k | 0 <= k < |name| :: IsWordChar(name[k])
    requires |ws| > 0 && forall k | 0 <= k < |ws| :: IsSpace(ws[k])
    requires q !in v && '>' !in attrs
    ensures var t := "<" + name + ws + "style=" + [q] + v + [q] + attrs + ">" + rest;
            Style(q, t) == Some((|t| - |rest|, "<" + name + attrs + ">"))
  {
    var front := "<" + name + ws + "style=" + [q] + v + [q];
    var t := front + attrs + ">" + rest;
    var e := |front|;
    assert e == 9 + |name| + |ws| + |v|;
    assert StyleHead(t, q) == Some((name, e)) by {
      assert t == front + (attrs + ">" + rest);
      StyleHeadOf(q, name, ws, v, attrs + ">" + rest);
    }
    TagRestOf(front, attrs, rest);
    StyleByParts(t, q, name, e, |attrs|);
  }

  /** `Style` from the head of the tag and the extent of its rest. */
  lemma {:induction false} StyleByParts(t: string, q: char, name: string, e: nat, r: nat)
    requires StyleHead(t, q) == Some((name, e))
    requires e + r < |t| && UpTo(t, e, '>') == r
    ensures Style(q, t) == Some((e + r + 1, "<" + name + t[e..e + r] + ">"))
  {
  }

  /** The rest of a tag up to its `>`. */
  lemma {:induction false} TagRestOf(front: string, attrs: string, rest: string)
    requires '>' !in attrs
    ensures var t := front + attrs + ">" + rest;
            UpTo(t, |front|, '>') == |attrs| && t[|front|..|front| + |attrs|] == attrs
  {
    var t := front + attrs + ">" + rest;
    assert t == front + attrs + ['>'] + rest;
    UpToOver(front, attrs, '>', rest);
    assert t[|front|..|front| + |attrs|] == attrs;
  }

  /** `<t[dh][^>]*>.*?</t[dh]>` (with `.` matching newlines): the whole cell,
      with every `~` in it written as `&#126;`. */
  predicate CellClose(r: string) {
    StartsWith(r, "</td>") || StartsWith(r, "</th>")
  }

  /** Every `~` written as the entity `&#126;`, character by character. */
  function EscapeTildes(u: string): string
    decreases |u|
  {
    if |u| == 0 then "" else (if u[0] == '~' then "&#126;" else [u[0]]) + EscapeTildes(u[1..])
  }

  /** ...which is what `str.replace('~', '&#126;')` does. */
  lemma {:induction false} EscapeTildesIsReplace(u: string)
    ensures EscapeTildes(u) == ReplaceAll(u, "~", "&#126;")
    decreases |u|
  {
    if |u| > 0 {
      EscapeTildesIsReplace(u[1..]);
      assert StartsWith(u, "~") <==> u[0] == '~' by {
        assert |u[..1]| == 1 && u[..1][0] == u[0];
      }
      assert "~" == ['~'] && |"~"| == 1;
    }
  }

  /** No `~` survives the escaping. */
  lemma {:induction false} EscapeTildesClean(u: string)
    ensures '~' !in EscapeTildes(u)
    decreases |u|
  {
    if |u| > 0 {
      EscapeTildesClean(u[1..]);
      assert '~' !in "&#126;";
    }
  }

  /** `<t[dh][^>]*>` at the start of `t`: the position after its `>`. */
  function CellOpen(t: string): (r: Option<nat>)
    ensures r.Some? ==> 4 <= r.value <= |t| && t[0] == '<'
  {
    if |t| >= 3 && t[0] == '<' && t[1] == 't' && (t[2] == 'd' || t[2] == 'h') then
      var a := UpTo(t, 3, '>');
      if 3 + a < |t| then Some(4 + a) else None
    else None
  }

  function TildeCell(t: string): Option<(nat, string)> {
    match CellOpen(t)
    case Some(f) =>
      (match Lazy(t, f, 0, CellClose, true)
       case Some(k) =>
         if f + k + 5 <= |t| then Some((f + k + 5, EscapeTildes(t[..f + k + 5]))) else None
       case None => None)
    case None => None
  }

  /** The cell replacement keeps no `~`. */
  lemma {:induction false} TildeCellClean(t: string)
    requires TildeCell(t).Some?
    ensures '~' !in TildeCell(t).value.1
  {
    var n := TildeCell(t).value.0;
    assert TildeCell(t).value.1 == EscapeTildes(t[..n]);
    EscapeTildesClean(t[..n]);
  }

  /** A text that starts with a `<td ...>x</td>` cell whose text holds no tag
      is matched up to the end of that cell. */
  lemma {:induction false} TildeCellSpan(t: string, attrs: string, x: string)
    requires '>' !in attrs && '<' !in x
    requires StartsWith(t, "<td" + attrs + ">" + x + "</td>")
    ensures var n := 4 + |attrs| + |x| + 5;
            TildeCell(t) == Some((n, EscapeTildes(t[..n])))
  {
    TildeParts(t, attrs, x);
    TildeByParts(t, 4 + |attrs|, |x|);
  }

  /** The opening tag and the lazy match of such a cell. */
  lemma {:induction false} TildeParts(t: string, attrs: string, x: string)
    requires '>' !in attrs && '<' !in x
    requires StartsWith(t, "<td" + attrs + ">" + x + "</td>")
    ensures var f := 4 + |attrs|;
            && CellOpen(t) == Some(f)
            && Lazy(t, f, 0, CellClose, true) == Some(|x|)
            && f + |x| + 5 <= |t|
  {
    var cell := "<td" + attrs + ">" + x + "</td>";
    var pre := "<td" + attrs + ">";
    var post := "</td>" + t[|cell|..];
    assert t == cell + t[|cell|..];
    assert t == pre + x + post;
    assert CellOpen(t) == Some(|pre|) by {
      assert t[0] == '<' && t[1] == 't' && t[2] == 'd';
      assert t == "<td" + attrs + ['>'] + (x + post);
      UpToOver("<td", attrs, '>', x + post);
    }
    assert CellClose(post) by {
      assert post[..5] == "</td>";
    }
    forall i | 0 <= i < |x|
      ensures !CellClose(x[i..] + post)
    {
      assert (x[i..] + post)[0] == x[i];
    }
    LazyOver(pre, x, post, 0, CellClose, true);
  }

  /** `TildeCell` from the opening tag and the extent of the lazy match. */
  lemma {:induction false} TildeByParts(t: string, f: nat, k: nat)
    requires CellOpen(t) == Some(f)
    requires Lazy(t, f, 0, CellClose, true) == Some(k)
    requires f + k + 5 <= |t|
    ensures TildeCell(t) == Some((f + k + 5, EscapeTildes(t[..f + k + 5])))
  {
  }

  /** `fix_html_markdown_mix`: text without `<` passes through unchanged. */
  function FixHtmlMarkdownMix(content: string): (r: string)
    ensures '<' !in content ==> r == content
  {
    HtmlUntouched(content);
    var c1 := Sub(Sub(Sub(content, Strike), Bold), Italic);
    var c2 := Sub(Sub(Sub(Sub(c1, StyleDouble), StyleSingle), SelfClosingDouble), SelfClosingSingle);
    Sub(c2, TildeCell)
  }

  /** Every rule of this step starts at a `<`. */
  lemma {:induction false} HtmlLead()
    ensures forall t | Fires(Strike, t) :: t[0] == '<'
    ensures forall t | Fires(Bold, t) :: t[0] == '<'
    ensures forall t | Fires(Italic, t) :: t[0] == '<'
    ensures forall t | Fires(StyleDouble, t) :: t[0] == '<'
    ensures forall t | Fires(StyleSingle, t) :: t[0] == '<'
    ensures forall t | Fires(SelfClosingDouble, t) :: t[0] == '<'
    ensures forall t | Fires(SelfClosingSingle, t) :: t[0] == '<'
    ensures forall t | Fires(TildeCell, t) :: t[0] == '<'
  {
    forall mark: string, t | CellMark(mark, t).Some?
      ensures t[0] == '<'
    {
      assert t[..|"<td>" + mark|] == "<td>" + mark;
      assert t[0] == ("<td>" + mark)[0];
    }
  }

  /** The eight rules in a row leave text without `<` alone. */
  lemma {:induction false} HtmlUntouched(content: string)
    ensures '<' !in content ==>
              Sub(Sub(Sub(Sub(Sub(Sub(Sub(Sub(content, Strike), Bold), Italic), StyleDouble), StyleSingle),
                  SelfClosingDouble), SelfClosingSingle), TildeCell) == content
  {
    HtmlLead();
    SubUntouched(content, Strike, '<');
    SubUntouched(content, Bold, '<');
    SubUntouched(content, Italic, '<');
    SubUntouched(content, StyleDouble, '<');
    SubUntouched(content, StyleSingle, '<');
    SubUntouched(content, SelfClosingDouble, '<');
    SubUntouched(content, SelfClosingSingle, '<');
    SubUntouched(content, TildeCell, '<');
  }

  // ---------------------------------------------------------------------------
  // fix_broken_images

  /** The comment that replaces an image whose file was not carried over. */
  function ImageComment(alt: string): string {
    "<!-- 이미지: " + alt + " (원본 파일 누락) -->"
  }

  /** `!\[([^\]]*)\]\(media/[\w\.]+\)` at the start of `t`: where the alt
      text ends and where the closing parenthesis is. */
  function MediaLink(t: string): (r: Option<(nat, nat)>)
    ensures r.Some? ==> 2 <= r.value.0 <= r.value.1 < |t|
  {
    if StartsWith(t, "![") then
      var p := 2 + UpTo(t, 2, ']');
      if StartsWith(t[p..], "](media/") then
        var b := Span(t, p + 8, FileChar);
        var q := p + 8 + b;
        if b > 0 && q < |t| && t[q] == ')' then Some((p, q)) else None
      else None
    else None
  }

  /** The link followed, when `withAttrs`, by `\{[^}]*\}`; replaced by the
      comment carrying the alt text. */
  function Image(withAttrs: bool, t: string): Option<(nat, string)> {
    match MediaLink(t)
    case Some((p, q)) =>
      if !withAttrs then Some((q + 1, ImageComment(t[2..p])))
      else if q + 1 < |t| && t[q + 1] == '{' then
        var c := UpTo(t, q + 2, '}');
        if q + 2 + c < |t| then Some((q + 3 + c, ImageComment(t[2..p]))) else None
      else None
    case None => None
  }

  function ImageWithAttrs(t: string): Option<(nat, string)> { Image(true, t) }
  function ImagePlain(t: string): Option<(nat, string)> { Image(false, t) }

  /** `fix_broken_images`: text without `!` has no image to comment out. */
  function FixBrokenImages(content: string): (r: string)
    ensures '!' !in content ==> r == content
  {
    ImageLead();
    SubUntouched(content, ImageWithAttrs, '!');
    SubUntouched(content, ImagePlain, '!');
    Sub(Sub(content, ImageWithAttrs), ImagePlain)
  }

  /** Both image rules start at a `!`. */
  lemma {:induction false} ImageLead()
    ensures forall t | Fires(ImageWithAttrs, t) :: t[0] == '!'
    ensures forall t | Fires(ImagePlain, t) :: t[0] == '!'
  {
    forall w: bool, t | Image(w, t).Some?
      ensures t[0] == '!'
    {
      assert t[..2] == "![";
    }
  }

  /** The front of a `media` image link: `![alt](media/file)` is recognised
      with its alt text and the position after the closing parenthesis. */
  lemma {:induction false} MediaLinkOf(alt: string, file: string, tail: string)
    requires ']' !in alt
    requires |file| > 0 && forall k | 0 <= k < |file| :: FileChar(file[k])
    ensures var t := "![" + alt + "](media/" + file + ")" + tail;
            MediaLink(t) == Some((2 + |alt|, 2 + |alt| + 8 + |file|)) && t[2..2 + |alt|] == alt
  {
    var t := "![" + alt + "](media/" + file + ")" + tail;
    var p := 2 + |alt|;
    assert t[..2] == "![";
    assert UpTo(t, 2, ']') == |alt| by {
      assert t == "![" + alt + [']'] + ("(media/" + file + ")" + tail);
      UpToOver("![", alt, ']', "(media/" + file + ")" + tail);
    }
    assert t[p..][..8] == "](media/";
    assert Span(t, p + 8, FileChar) == |file| by {
      assert t == ("![" + alt + "](media/") + file + (")" + tail);
      SpanOver("![" + alt + "](media/", file, ")" + tail, FileChar);
    }
    assert t[p + 8 + |file|] == ')';
    assert t[2..p] == alt;
  }

  /** An image of the `media` folder becomes a comment keeping its alt text. */
  lemma {:induction false} MediaImageCommented(alt: string, file: string, rest: string)
    requires ']' !in alt
    requires |file| > 0 && forall k | 0 <= k < |file| :: FileChar(file[k])
    ensures var t := "![" + alt + "](media/" + file + ")" + rest;
            Image(false, t) == Some((|t| - |rest|, ImageComment(alt)))
  {
    MediaLinkOf(alt, file, rest);
  }

  /** ...and with a `{...}` attribute block after it, the block goes too. */
  lemma {:induction false} MediaImageAttrsCommented(alt: string, file: string, attrs: string, rest: string)
    requires ']' !in alt && '}' !in attrs
    requires |file| > 0 && forall k | 0 <= k < |file| :: FileChar(file[k])
    ensures var t := "![" + alt + "](media/" + file + ")" + ("{" + attrs + "}" + rest);
            Image(true, t) == Some((|t| - |rest|, ImageComment(alt)))
  {
    var link := "![" + alt + "](media/" + file + ")";
    var t := link + ("{" + attrs + "}" + rest);
    MediaLinkOf(alt, file, "{" + attrs + "}" + rest);
    AttrBlockOf(link, attrs, rest);
    ImageAttrsByParts(t, 2 + |alt|, |link| - 1, |attrs|);
  }

  /** `Image` with attributes from the link and the extent of the block. */
  lemma {:induction false} ImageAttrsByParts(t: string, p: nat, q: nat, c: nat)
    requires MediaLink(t) == Some((p, q))
    requires q + 2 + c < |t| && t[q + 1] == '{' && UpTo(t, q + 2, '}') == c
    ensures Image(true, t) == Some((q + 3 + c, ImageComment(t[2..p])))
  {
  }

  /** A `{...}` block after a link: its brace and its extent. */
  lemma {:induction false} AttrBlockOf(link: string, attrs: string, rest: string)
    requires '}' !in attrs
    ensures var t := link + ("{" + attrs + "}" + rest);
            t[|link|] == '{' && UpTo(t, |link| + 1, '}') == |attrs|
  {
    var t := link + ("{" + attrs + "}" + rest);
    assert t == (link + "{") + attrs + ['}'] + rest;
    UpToOver(link + "{", attrs, '}', rest);
  }

  // ---------------------------------------------------------------------------
  // fix_acorn_expression_errors

  /** The line loop: a line whose stripped form opens with three backticks
      toggles the code-block flag; every line, in a code block or not, is kept
      as it is (the out-of-block branch does nothing). */
  function AcornLines(lines: seq<string>, inCode: bool): (r: seq<string>)
    ensures |r| == |lines|
    decreases |lines|
  {
    if |lines| == 0 then []
    else
      var inCode' := if StartsWith(Strip(lines[0]), "```") then !inCode else inCode;
      [lines[0]] + AcornLines(lines[1..], inCode')
  }

  /** `fix_acorn_expression_errors`: the step returns its input, since splitting
      on newlines, keeping every line and joining with newlines gives back the
      text. */
  function FixAcornExpressionErrors(content: string): (r: string)
    ensures r == content
  {
    AcornLinesKept(SplitOn(content, '\n'), false);
    JoinSplitOn(content, '\n');
    assert "\n" == ['\n'];
    Join("\n", AcornLines(SplitOn(content, '\n'), false))
  }

  lemma {:induction false} AcornLinesKept(lines: seq<string>, inCode: bool)
    ensures AcornLines(lines, inCode) == lines
    decreases |lines|
  {
    if |lines| > 0 {
      var inCode' := if StartsWith(Strip(lines[0]), "```") then !inCode else inCode;
      assert AcornLines(lines, inCode) == [lines[0]] + AcornLines(lines[1..], inCode');
      AcornLinesKept(lines[1..], inCode');
      assert [lines[0]] + lines[1..] == lines;
    }
  }

  // ---------------------------------------------------------------------------
  // fix_markdown_file

  /** The four clean-ups in the order the script applies them. */
  function FixMarkdown(content: string): string {
    FixAcornExpressionErrors(FixBrokenImages(FixHtmlMarkdownMix(FixPandocAttributes(content))))
  }

  /** `fix_markdown_file`: the file is written, and the call returns `True`,
      exactly when one of the three `re.sub` stages changes the text (the acorn
      stage never does), and what is written is the repaired text; a file with
      no `{`, `<` or `!` is never written. */
  function FixMarkdownFile(content: string): (written: Option<string>)
    ensures written.Some? <==> FixBrokenImages(FixHtmlMarkdownMix(FixPandocAttributes(content))) != content
    ensures written.Some? ==> written.value == FixMarkdown(content)
    ensures '{' !in content && '<' !in content && '!' !in content ==> written.None?
  {
    var fixed := FixMarkdown(content);
    if fixed != content then Some(fixed) else None
  }
}
