/**
 How `scripts/smart_update.py` finds the catalogue entry a converted document
 belongs to: by a code in the file name when the catalogue has it, otherwise by
 the document's title, exactly, then by containment with the best similarity
 ratio, then by similarity alone above 0.6. A match with confidence below 0.8
 is only used after the user confirms it.

 `difflib.SequenceMatcher(...).ratio()` is a parameter `ratio`; nothing here
 depends on how it is computed.
 */
module SmartUpdate {
  import opened Wrappers
  import opened Text
  import Normalize
  import Catalog

  type Entry = Catalog.Entry

  // ---------------------------------------------------------------------------
  // A code in the file name

  /** Length of the run of digits that starts at `i`. */
  function DigitRun(s: string, i: nat): (n: nat)
    requires i <= |s|
    ensures i + n <= |s|
    decreases |s| - i
  {
    if i == |s| || !IsDigit(s[i]) then 0 else 1 + DigitRun(s, i + 1)
  }

  /** The run is all digits, and the character after it, if any, is not one. */
  lemma {:induction false} DigitRunDigits(s: string, i: nat)
    requires i <= |s|
    ensures var n := DigitRun(s, i);
            AllDigits(s[i..i + n]) && (i + n == |s| || !IsDigit(s[i + n]))
    decreases |s| - i
  {
    var n := DigitRun(s, i);
    if n > 0 {
      DigitRunDigits(s, i + 1);
      assert s[i..i + n] == [s[i]] + s[i + 1..i + n];
    }
  }

  /** The length of the match of `\d+<sep>\d+<sep>\d+` that starts at `i`, if
      there is one. Each `\d+` takes the whole run of digits: giving a digit
      back would put a digit, not `sep`, after it. */
  function TripleAt(s: string, i: nat, sep: char): (r: Option<nat>)
    requires i <= |s|
    ensures r.Some? ==> i + r.value <= |s|
  {
    var a := DigitRun(s, i);
    if a == 0 || i + a == |s| || s[i + a] != sep then None
    else
      var b := DigitRun(s, i + a + 1);
      if b == 0 || i + a + 1 + b == |s| || s[i + a + 1 + b] != sep then None
      else
        var c := DigitRun(s, i + a + b + 2);
        if c == 0 then None else Some(a + b + c + 2)
  }

  /** `re.search`: the leftmost match at or after `i`, as (start, length). */
  function SearchFrom(s: string, sep: char, i: nat): (r: Option<(nat, nat)>)
    requires i <= |s|
    ensures r.Some? ==> i <= r.value.0 <= |s| && TripleAt(s, r.value.0, sep) == Some(r.value.1)
    decreases |s| - i
  {
    var t := TripleAt(s, i, sep);
    if t.Some? then Some((i, t.value))
    else if i == |s| then None
    else SearchFrom(s, sep, i + 1)
  }

  /** `extract_code_from_filename`: the first `\d+-\d+-\d+` in the name, or else
      the first `\d+_\d+_\d+` with `_` turned into `-`, or else nothing. */
  function ExtractCodeFromFilename(name: string): (r: Option<string>)
    ensures r.Some? ==> IsCode(r.value)
  {
    var dashed := DashedCode(name);
    if dashed.Some? then dashed else UnderscoredCodeOf(name)
  }

  /** The first `\d+-\d+-\d+` in the name. */
  function DashedCode(name: string): (r: Option<string>)
    ensures r.Some? ==> IsCode(r.value)
  {
    var m := SearchFrom(name, '-', 0);
    if m.Some? then
      DashedIsCode(name, m.value.0);
      Some(name[m.value.0..m.value.0 + m.value.1])
    else None
  }

  /** The first `\d+_\d+_\d+` in the name, with `_` turned into `-`. */
  function UnderscoredCodeOf(name: string): (r: Option<string>)
    ensures r.Some? ==> IsCode(r.value)
  {
    var m := SearchFrom(name, '_', 0);
    if m.Some? then
      UnderscoredIsCode(name, m.value.0);
      Some(ReplaceAll(name[m.value.0..m.value.0 + m.value.1], "_", "-"))
    else None
  }

  /** A regulation code: three non-empty runs of digits joined by `-`. */
  predicate IsCode(c: string) {
    var parts := SplitOn(c, '-');
    |parts| == 3 && forall k | 0 <= k < 3 :: |parts[k]| > 0 && AllDigits(parts[k])
  }

  predicate AllDigits(s: string) {
    forall k | 0 <= k < |s| :: IsDigit(s[k])
  }

  /** The search finds the leftmost position where a match starts... */
  lemma {:induction false} SearchFromLeftmost(s: string, sep: char, i: nat)
    requires i <= |s|
    ensures var r := SearchFrom(s, sep, i);
            r.Some? ==> forall j | i <= j < r.value.0 :: TripleAt(s, j, sep).None?
    decreases |s| - i
  {
    var r := SearchFrom(s, sep, i);
    if r.Some? && r.value.0 != i {
      SearchFromLeftmost(s, sep, i + 1);
    }
  }

  /** ...and finds nothing exactly when no position has one. */
  lemma {:induction false} SearchFromNone(s: string, sep: char, i: nat)
    requires i <= |s|
    ensures SearchFrom(s, sep, i).None? <==> forall j | i <= j <= |s| :: TripleAt(s, j, sep).None?
    decreases |s| - i
  {
    if TripleAt(s, i, sep).None? && i < |s| {
      SearchFromNone(s, sep, i + 1);
    }
  }

  /** The three runs of digits of a match. */
  function Pieces(s: string, i: nat, sep: char): (r: (string, string, string))
    requires i <= |s| && TripleAt(s, i, sep).Some?
    ensures s[i..i + TripleAt(s, i, sep).value] == r.0 + [sep] + r.1 + [sep] + r.2
    ensures |r.0| > 0 && |r.1| > 0 && |r.2| > 0
    ensures AllDigits(r.0) && AllDigits(r.1) && AllDigits(r.2)
  {
    var a := DigitRun(s, i);
    var b := DigitRun(s, i + a + 1);
    var c := DigitRun(s, i + a + b + 2);
    assert TripleAt(s, i, sep) == Some(a + b + c + 2);
    DigitRunDigits(s, i);
    DigitRunDigits(s, i + a + 1);
    DigitRunDigits(s, i + a + b + 2);
    SliceThree(s, i, a, b, c, sep);
    (s[i..i + a], s[i + a + 1..i + a + 1 + b], s[i + a + b + 2..i + a + b + 2 + c])
  }

  /** A slice made of three runs and the two separators between them. */
  lemma {:induction false} SliceThree(s: string, i: nat, a: nat, b: nat, c: nat, sep: char)
    requires i + a + b + c + 2 <= |s| && s[i + a] == sep && s[i + a + 1 + b] == sep
    ensures s[i..i + a + b + c + 2]
            == s[i..i + a] + [sep] + s[i + a + 1..i + a + 1 + b] + [sep] + s[i + a + b + 2..i + a + b + 2 + c]
  {
    var x, y, z := s[i..i + a], s[i + a + 1..i + a + 1 + b], s[i + a + b + 2..i + a + b + 2 + c];
    var lhs := s[i..i + a + b + c + 2];
    var rhs := x + [sep] + y + [sep] + z;
    assert |lhs| == |rhs|;
    forall k | 0 <= k < |lhs| ensures lhs[k] == rhs[k] {
      if k < a {
        assert rhs[k] == x[k];
      } else if k == a {
      } else if k < a + 1 + b {
        assert rhs[k] == y[k - a - 1];
      } else if k == a + 1 + b {
      } else {
        assert rhs[k] == z[k - a - b - 2];
      }
    }
  }

  /** Three non-empty runs of digits joined by `-` make a code. */
  lemma {:induction false} JoinedIsCode(x: string, y: string, z: string)
    requires |x| > 0 && |y| > 0 && |z| > 0
    requires AllDigits(x) && AllDigits(y) && AllDigits(z)
    ensures IsCode(x + "-" + y + "-" + z)
  {
    assert '-' !in x && '-' !in y && '-' !in z;
    var tail := y + "-" + z;
    assert x + "-" + y + "-" + z == x + ['-'] + tail;
    SplitOnFirst(x, '-', tail);
    SplitOnFirst(y, '-', z);
    SplitOnNone(z, '-');
  }

  /** Turning `_` into `-` in runs of digits joined by `_`. */
  lemma {:induction false} UnderscoresDashed(x: string, y: string, z: string)
    requires AllDigits(x) && AllDigits(y) && AllDigits(z)
    ensures ReplaceAll(x + "_" + y + "_" + z, "_", "-") == x + "-" + y + "-" + z
  {
    assert '_' !in x && '_' !in y && '_' !in z;
    assert x + "_" + y + "_" + z == x + ['_'] + (y + "_" + z);
    ReplaceCharFirst(x, '_', '-', y + "_" + z);
    ReplaceCharFirst(y, '_', '-', z);
    ContainsChar(z, '_');
  }

  /** A match of the `-` form is a code as it stands. */
  lemma {:induction false} DashedIsCode(name: string, i: nat)
    requires i <= |name| && TripleAt(name, i, '-').Some?
    ensures IsCode(name[i..i + TripleAt(name, i, '-').value])
  {
    var p := Pieces(name, i, '-');
    JoinedIsCode(p.0, p.1, p.2);
  }

  /** A match of the `_` form is a code once its `_` are turned into `-`. */
  lemma {:induction false} UnderscoredIsCode(name: string, i: nat)
    requires i <= |name| && TripleAt(name, i, '_').Some?
    ensures IsCode(ReplaceAll(name[i..i + TripleAt(name, i, '_').value], "_", "-"))
  {
    var p := Pieces(name, i, '_');
    JoinedIsCode(p.0, p.1, p.2);
    UnderscoresDashed(p.0, p.1, p.2);
  }

  /** The `_` form, dashed. */
  lemma {:induction false} UnderscoredCode(name: string)
    requires SearchFrom(name, '-', 0).None? && SearchFrom(name, '_', 0).Some?
    ensures var p := Pieces(name, SearchFrom(name, '_', 0).value.0, '_');
            ExtractCodeFromFilename(name) == Some(p.0 + "-" + p.1 + "-" + p.2)
  {
    var m := SearchFrom(name, '_', 0).value;
    var p := Pieces(name, m.0, '_');
    var w := name[m.0..m.0 + m.1];
    assert w == p.0 + "_" + p.1 + "_" + p.2;
    ExtractUnderscored(name, m);
    UnderscoresDashed(p.0, p.1, p.2);
  }

  /** The value when the search for the `-` form finds `m`. */
  lemma {:induction false} ExtractDashed(name: string, m: (nat, nat))
    requires SearchFrom(name, '-', 0) == Some(m)
    ensures ExtractCodeFromFilename(name) == Some(name[m.0..m.0 + m.1])
  {
  }

  /** The value when only the search for the `_` form finds `m`. */
  lemma {:induction false} ExtractUnderscored(name: string, m: (nat, nat))
    requires SearchFrom(name, '-', 0).None? && SearchFrom(name, '_', 0) == Some(m)
    ensures ExtractCodeFromFilename(name) == Some(ReplaceAll(name[m.0..m.0 + m.1], "_", "-"))
  {
  }

  /** The search from `j` stops at the first match at or after `j`. */
  lemma {:induction false} SearchFromFinds(s: string, sep: char, j: nat, i: nat)
    requires j <= i <= |s| && TripleAt(s, i, sep).Some?
    requires forall k | j <= k < i :: TripleAt(s, k, sep).None?
    ensures SearchFrom(s, sep, j) == Some((i, TripleAt(s, i, sep).value))
    decreases i - j
  {
    if j < i {
      SearchFromFinds(s, sep, j + 1, i);
    }
  }

  /** The `-` form wins whenever it occurs, and its leftmost occurrence is taken
      verbatim, whatever `_` forms the name also has. */
  lemma {:induction false} ExtractCodeDashFirst(name: string, i: nat)
    requires i <= |name| && TripleAt(name, i, '-').Some?
    requires forall k | 0 <= k < i :: TripleAt(name, k, '-').None?
    ensures ExtractCodeFromFilename(name) == Some(name[i..i + TripleAt(name, i, '-').value])
  {
    SearchFromFinds(name, '-', 0, i);
    ExtractDashed(name, (i, TripleAt(name, i, '-').value));
  }

  /** Without a `-` form, the leftmost `_` form is taken with its `_` turned into
      `-`. */
  lemma {:induction false} ExtractCodeUnderscore(name: string, i: nat)
    requires forall k | 0 <= k <= |name| :: TripleAt(name, k, '-').None?
    requires i <= |name| && TripleAt(name, i, '_').Some?
    requires forall k | 0 <= k < i :: TripleAt(name, k, '_').None?
    ensures var p := Pieces(name, i, '_');
            ExtractCodeFromFilename(name) == Some(p.0 + "-" + p.1 + "-" + p.2)
  {
    SearchFromNone(name, '-', 0);
    SearchFromFinds(name, '_', 0, i);
    UnderscoredCode(name);
  }

  /** There is no code exactly when neither form occurs anywhere in the name. */
  lemma {:induction false} ExtractCodeNone(name: string)
    ensures ExtractCodeFromFilename(name).None? <==>
              forall k | 0 <= k <= |name| :: TripleAt(name, k, '-').None? && TripleAt(name, k, '_').None?
  {
    SearchFromNone(name, '-', 0);
    SearchFromNone(name, '_', 0);
  }

  // ---------------------------------------------------------------------------
  // Looking an entry up

  /** Index of the first entry with code `code`, or `|regs|`. */
  function FirstWithCode(regs: seq<Entry>, code: string): (r: nat)
    ensures r <= |regs|
    ensures r < |regs| ==> regs[r].code == code
    ensures forall j | 0 <= j < r :: regs[j].code != code
  {
    if |regs| == 0 || regs[0].code == code then 0 else 1 + FirstWithCode(regs[1..], code)
  }

  /** `find_regulation_by_code`: the first entry with that code. */
  function FindByCode(regs: seq<Entry>, code: string): (r: Option<Entry>)
    ensures r.None? <==> forall j | 0 <= j < |regs| :: regs[j].code != code
    ensures r.Some? ==> r.value.code == code
  {
    var i := FirstWithCode(regs, code);
    if i < |regs| then Some(regs[i]) else None
  }

  /** The entry found by code is the earliest one with that code. */
  lemma {:induction false} FindByCodeFirst(regs: seq<Entry>, code: string, i: nat)
    requires i < |regs| && regs[i].code == code
    requires forall j | 0 <= j < i :: regs[j].code != code
    ensures FindByCode(regs, code) == Some(regs[i])
  {
    var k := FirstWithCode(regs, code);
    assert k == i by {
      assert k <= i;
      assert !(k < i);
    }
  }

  /** Index of the first entry whose `title_normalized` is `q`, or `|regs|`. */
  function FirstWithTitle(regs: seq<Entry>, q: string): (r: nat)
    ensures r <= |regs|
    ensures r < |regs| ==> regs[r].titleNormalized == q
    ensures forall j | 0 <= j < r :: regs[j].titleNormalized != q
  {
    if |regs| == 0 || regs[0].titleNormalized == q then 0 else 1 + FirstWithTitle(regs[1..], q)
  }

  // ---------------------------------------------------------------------------
  // Matching by title

  /** The two scoring passes of `find_regulation_by_title`. */
  datatype Tier = Containment | Similarity

  /** Whether an entry with normalized title `t` takes part in `tier` for the
      normalized query `q`: in the containment pass when either title contains
      the other, in the similarity pass when the ratio exceeds 0.6. */
  predicate Eligible(tier: Tier, q: string, t: string, ratio: (string, string) -> real) {
    match tier
    case Containment => Contains(t, q) || Contains(q, t)
    case Similarity => ratio(q, t) > 0.6
  }

  /** The best candidate so far, as an index into the catalogue, and its ratio. */
  datatype Pick = Pick(index: Option<nat>, ratio: real)

  /** One scoring pass over the first `k` entries: an eligible entry replaces the
      best so far only with a strictly greater ratio. */
  function Scan(regs: seq<Entry>, q: string, ratio: (string, string) -> real, tier: Tier, k: nat): (p: Pick)
    requires k <= |regs|
    ensures p.index.Some? ==> p.index.value < k
  {
    if k == 0 then Pick(None, 0.0)
    else
      var p := Scan(regs, q, ratio, tier, k - 1);
      var r := ratio(q, regs[k - 1].titleNormalized);
      if Eligible(tier, q, regs[k - 1].titleNormalized, ratio) && r > p.ratio then Pick(Some(k - 1), r) else p
  }

  /** A pass picks the earliest entry with the greatest ratio among the eligible
      ones, provided that ratio is above 0, and picks nothing (ratio 0) when no
      eligible entry scores above 0. */
  lemma {:induction false} ScanBest(regs: seq<Entry>, q: string, ratio: (string, string) -> real, tier: Tier, k: nat)
    requires k <= |regs|
    ensures var p := Scan(regs, q, ratio, tier, k);
            && p.ratio >= 0.0
            && (p.index.None? ==> p.ratio == 0.0)
            && (p.index.Some? ==>
                  && p.ratio > 0.0
                  && Eligible(tier, q, regs[p.index.value].titleNormalized, ratio)
                  && ratio(q, regs[p.index.value].titleNormalized) == p.ratio
                  && forall j | 0 <= j < p.index.value && Eligible(tier, q, regs[j].titleNormalized, ratio) ::
                       ratio(q, regs[j].titleNormalized) < p.ratio)
            && (forall j | 0 <= j < k && Eligible(tier, q, regs[j].titleNormalized, ratio) ::
                  ratio(q, regs[j].titleNormalized) <= p.ratio)
  {
    if k > 0 {
      ScanBest(regs, q, ratio, tier, k - 1);
    }
  }

  /** A pass picks nothing exactly when no eligible entry scores above 0. */
  lemma {:induction false} ScanNone(regs: seq<Entry>, q: string, ratio: (string, string) -> real, tier: Tier)
    ensures Scan(regs, q, ratio, tier, |regs|).index.None? <==>
              forall j | 0 <= j < |regs| && Eligible(tier, q, regs[j].titleNormalized, ratio) ::
                ratio(q, regs[j].titleNormalized) <= 0.0
  {
    ScanBest(regs, q, ratio, tier, |regs|);
  }

  /** `find_regulation_by_title`, with the entry given by its index: an exact
      normalized match first, with confidence 1.0; then the containment pass;
      then, only if that picked nothing, the similarity pass. */
  function FindIndexByTitle(regs: seq<Entry>, title: string, ratio: (string, string) -> real): (p: Pick)
    ensures p.index.Some? ==> p.index.value < |regs|
  {
    var q := Normalize.Basic(title);
    var exact := FirstWithTitle(regs, q);
    if exact < |regs| then Pick(Some(exact), 1.0)
    else
      var best := Scan(regs, q, ratio, Containment, |regs|);
      if best.index.Some? then best else Scan(regs, q, ratio, Similarity, |regs|)
  }

  /** `find_regulation_by_title`: the entry and the confidence. */
  function FindByTitle(regs: seq<Entry>, title: string, ratio: (string, string) -> real): (r: (Option<Entry>, real))
    ensures r.0.None? ==> r.1 == 0.0
    ensures r.0.Some? ==> r.0.value in regs && r.1 > 0.0
    ensures r.0.Some? && r.1 != 1.0 ==> ratio(Normalize.Basic(title), r.0.value.titleNormalized) == r.1
  {
    FindByTitleResult(regs, title, ratio);
    var p := FindIndexByTitle(regs, title, ratio);
    (if p.index.Some? then Some(regs[p.index.value]) else None, p.ratio)
  }

  /** An exact normalized match returns the first such entry with 1.0, whatever
      the ratios. */
  lemma {:induction false} ExactTitleWins(regs: seq<Entry>, title: string, ratio: (string, string) -> real, i: nat)
    requires i < |regs| && regs[i].titleNormalized == Normalize.Basic(title)
    requires forall j | 0 <= j < i :: regs[j].titleNormalized != Normalize.Basic(title)
    ensures FindIndexByTitle(regs, title, ratio) == Pick(Some(i), 1.0)
  {
    var k := FirstWithTitle(regs, Normalize.Basic(title));
    assert k == i by {
      assert k <= i;
      assert !(k < i);
    }
  }

  /** Without an exact match, the containment pass decides whenever some entry
      that contains or is contained in the query scores above 0. */
  lemma {:induction false} ContainmentDecides(regs: seq<Entry>, title: string, ratio: (string, string) -> real, i: nat)
    requires forall j | 0 <= j < |regs| :: regs[j].titleNormalized != Normalize.Basic(title)
    requires i < |regs| && Eligible(Containment, Normalize.Basic(title), regs[i].titleNormalized, ratio)
    requires ratio(Normalize.Basic(title), regs[i].titleNormalized) > 0.0
    ensures FindIndexByTitle(regs, title, ratio) == Scan(regs, Normalize.Basic(title), ratio, Containment, |regs|)
    ensures FindIndexByTitle(regs, title, ratio).index.Some?
  {
    ScanNone(regs, Normalize.Basic(title), ratio, Containment);
    var k := FirstWithTitle(regs, Normalize.Basic(title));
    assert k == |regs|;
  }

  /** What `find_regulation_by_title` guarantees about its answer: nothing with
      confidence 0 exactly when no entry matches exactly, none passes containment
      with a ratio above 0 and none scores above 0.6; otherwise an entry whose
      confidence is above 0 and equals its ratio unless the match was exact. */
  lemma {:induction false} FindByTitleResult(regs: seq<Entry>, title: string, ratio: (string, string) -> real)
    ensures var q := Normalize.Basic(title);
            var p := FindIndexByTitle(regs, title, ratio);
            && (p.index.None? ==> p.ratio == 0.0)
            && (p.index.Some? ==> p.ratio > 0.0)
            && (p.index.Some? && p.ratio != 1.0 ==> ratio(q, regs[p.index.value].titleNormalized) == p.ratio)
            && (p.index.None? <==>
                  && (forall j | 0 <= j < |regs| :: regs[j].titleNormalized != q)
                  && (forall j | 0 <= j < |regs| && Eligible(Containment, q, regs[j].titleNormalized, ratio) ::
                        ratio(q, regs[j].titleNormalized) <= 0.0)
                  && (forall j | 0 <= j < |regs| :: ratio(q, regs[j].titleNormalized) <= 0.6))
  {
    var q := Normalize.Basic(title);
    ScanBest(regs, q, ratio, Containment, |regs|);
    ScanBest(regs, q, ratio, Similarity, |regs|);
    ScanNone(regs, q, ratio, Containment);
    ScanNone(regs, q, ratio, Similarity);
    assert forall j | 0 <= j < |regs| :: Eligible(Similarity, q, regs[j].titleNormalized, ratio) <==> ratio(q, regs[j].titleNormalized) > 0.6;
  }

  // ---------------------------------------------------------------------------
  // The title of a converted document

  /** A line of pandoc's plain-text output offers itself, stripped, when it has
      more than two characters. */
  function PlainLineTitle(line: string): (r: Option<string>)
    ensures r.Some? ==> |r.value| > 2
  {
    var l := Strip(line);
    if |l| > 2 then Some(l) else None
  }

  /** `extract_title_from_docx` over pandoc's output: the first meaningful line
      of the stripped text. */
  function TitleFromPlain(out: string): (r: Option<string>)
    ensures r.Some? ==> |r.value| > 2
  {
    Catalog.FirstOfferedOffered(SplitOn(Strip(out), '\n'), PlainLineTitle);
    Catalog.FirstOffered(SplitOn(Strip(out), '\n'), PlainLineTitle)
  }

  // ---------------------------------------------------------------------------
  // The decision in main

  datatype How = ByCode | ByTitle

  datatype Resolution = NoMatch | Match(entry: Entry, how: How, confidence: real)

  /** How `main` settles on an entry for the file `filename`, given the title
      pandoc reported (if any): a code in the name that the catalogue has wins
      with confidence 1.0; otherwise the title is matched. */
  function Resolve(regs: seq<Entry>, filename: string, title: Option<string>, ratio: (string, string) -> real): Resolution {
    var code := ExtractCodeFromFilename(filename);
    var byCode := if code.Some? then FindByCode(regs, code.value) else None;
    if byCode.Some? then Match(byCode.value, ByCode, 1.0)
    else if title.Some? && |title.value| > 0 then
      var (e, c) := FindByTitle(regs, title.value, ratio);
      if e.Some? then Match(e.value, ByTitle, c) else NoMatch
    else NoMatch
  }

  /** Whether the user is asked before the match is used. */
  predicate AsksToConfirm(m: Resolution) {
    m.Match? && m.confidence < 0.8
  }

  /** A code from the file name that the catalogue knows decides the match, with
      no question asked, whatever the title says. */
  lemma {:induction false} CodeTakesPriority(regs: seq<Entry>, filename: string, title: Option<string>,
                                             ratio: (string, string) -> real)
    requires ExtractCodeFromFilename(filename).Some?
    requires exists j | 0 <= j < |regs| :: regs[j].code == ExtractCodeFromFilename(filename).value
    ensures var m := Resolve(regs, filename, title, ratio);
            && m.Match? && m.how == ByCode && m.confidence == 1.0
            && m.entry.code == ExtractCodeFromFilename(filename).value
            && !AsksToConfirm(m)
  {
  }

  /** Title matching is used only when the name has no code the catalogue knows;
      the user is asked exactly when the match came from a ratio below 0.8. */
  lemma {:induction false} TitleFallback(regs: seq<Entry>, filename: string, title: string, ratio: (string, string) -> real)
    requires |title| > 0
    requires var code := ExtractCodeFromFilename(filename);
             code.None? || forall j | 0 <= j < |regs| :: regs[j].code != code.value
    ensures var m := Resolve(regs, filename, Some(title), ratio);
            var p := FindIndexByTitle(regs, title, ratio);
            && (m.NoMatch? <==> p.index.None?)
            && (m.Match? ==> m.how == ByTitle && m.entry == regs[p.index.value] && m.confidence == p.ratio)
            && (AsksToConfirm(m) <==> p.index.Some? && p.ratio < 0.8)
  {
  }
}
