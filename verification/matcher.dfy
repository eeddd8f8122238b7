/**
 How the splitter of `scripts/split_and_update.py` decides that a line of the
 combined document starts a regulation: two lookup tables built from the
 catalogue, and four tiers tried in order on the line's heading text.
 */
module Matcher {
  import opened Wrappers
  import opened Text
  import Normalize
  import Dict
  import Catalog

  type Entry = Catalog.Entry
  type Table = Dict.Dict<string, Entry>

  // ---------------------------------------------------------------------------
  // Lookup tables

  /** The two keys `exact_map` files an entry under: its stripped title and its
      title with every space removed. */
  predicate HasExactKey(r: Entry, k: string) {
    Strip(r.title) == k || RemoveChar(r.title, ' ') == k
  }

  /** `exact_map`, built entry by entry; a later entry overwrites an earlier one
      under the same key. */
  function ExactMap(regs: seq<Entry>): Table {
    if |regs| == 0 then []
    else
      var r := regs[|regs| - 1];
      Dict.Put(Dict.Put(ExactMap(regs[..|regs| - 1]), Strip(r.title), r), RemoveChar(r.title, ' '), r)
  }

  /** `normalized_map`: entries under the splitter's normal form of their title. */
  function NormMap(regs: seq<Entry>): Table {
    if |regs| == 0 then []
    else
      var r := regs[|regs| - 1];
      Dict.Put(NormMap(regs[..|regs| - 1]), Normalize.Rich(r.title), r)
  }

  /** The last entry of `regs` filed under `k` in `exact_map`. */
  function LastExact(regs: seq<Entry>, k: string): Option<Entry> {
    if |regs| == 0 then None
    else if HasExactKey(regs[|regs| - 1], k) then Some(regs[|regs| - 1])
    else LastExact(regs[..|regs| - 1], k)
  }

  /** The last entry of `regs` whose normal form is `k`. */
  function LastNorm(regs: seq<Entry>, k: string): Option<Entry> {
    if |regs| == 0 then None
    else if Normalize.Rich(regs[|regs| - 1].title) == k then Some(regs[|regs| - 1])
    else LastNorm(regs[..|regs| - 1], k)
  }

  /** Looking a key up in `exact_map` finds the last entry filed under it. */
  lemma {:induction false} ExactMapGet(regs: seq<Entry>, k: string)
    ensures Dict.Get(ExactMap(regs), k) == LastExact(regs, k)
  {
    if |regs| > 0 {
      var p := regs[..|regs| - 1];
      var r := regs[|regs| - 1];
      var d1 := Dict.Put(ExactMap(p), Strip(r.title), r);
      ExactMapGet(p, k);
      Dict.PutGet(ExactMap(p), Strip(r.title), r, k);
      Dict.PutGet(d1, RemoveChar(r.title, ' '), r, k);
    }
  }

  /** Looking a key up in `normalized_map` finds the last entry with that normal form. */
  lemma {:induction false} NormMapGet(regs: seq<Entry>, k: string)
    ensures Dict.Get(NormMap(regs), k) == LastNorm(regs, k)
  {
    if |regs| > 0 {
      var p := regs[..|regs| - 1];
      var r := regs[|regs| - 1];
      NormMapGet(p, k);
      Dict.PutGet(NormMap(p), Normalize.Rich(r.title), r, k);
    }
  }

  /** When one entry alone is filed under `k`, it is the one found. */
  lemma {:induction false} LastExactOnly(regs: seq<Entry>, r: Entry, k: string)
    requires r in regs && HasExactKey(r, k)
    requires forall i | 0 <= i < |regs| :: HasExactKey(regs[i], k) ==> regs[i] == r
    ensures LastExact(regs, k) == Some(r)
  {
    var p := regs[..|regs| - 1];
    if !HasExactKey(regs[|regs| - 1], k) {
      assert r != regs[|regs| - 1];
      assert r in p;
      assert forall i | 0 <= i < |p| :: p[i] == regs[i];
      LastExactOnly(p, r, k);
    }
  }

  // ---------------------------------------------------------------------------
  // Matching

  /** The text a line is matched on: the stripped line, less a leading run of
      `#` and the whitespace after it. */
  function HeadingText(line: string): (r: string)
    ensures |r| <= |line|
  {
    StripHeadingMarker(Strip(line), PySpace)
  }

  /** The suffix tier: the first table entry, in insertion order, whose key is the
      line's normal form or is a suffix of it longer than four characters. */
  function SuffixScan(norm: Table, n: string): Option<Entry> {
    if |norm| == 0 then None
    else if norm[0].0 == n then Some(norm[0].1)
    else if EndsWith(n, norm[0].0) && |norm[0].0| > 4 then Some(norm[0].1)
    else SuffixScan(norm[1..], n)
  }

  predicate SuffixHit(n: string, k: string) {
    k == n || (EndsWith(n, k) && |k| > 4)
  }

  lemma {:induction false} SuffixScanFirst(norm: Table, n: string, i: nat)
    requires i < |norm| && SuffixHit(n, norm[i].0)
    requires forall j | 0 <= j < i :: !SuffixHit(n, norm[j].0)
    ensures SuffixScan(norm, n) == Some(norm[i].1)
  {
    if i > 0 {
      assert !SuffixHit(n, norm[0].0);
      assert forall j | 0 <= j < i - 1 :: norm[1..][j] == norm[j + 1];
      SuffixScanFirst(norm[1..], n, i - 1);
    }
  }

  lemma {:induction false} SuffixScanFound(norm: Table, n: string)
    ensures SuffixScan(norm, n).Some? ==>
              exists i | 0 <= i < |norm| ::
                SuffixHit(n, norm[i].0) && norm[i].1 == SuffixScan(norm, n).value
  {
    if |norm| > 0 && !SuffixHit(n, norm[0].0) {
      SuffixScanFound(norm[1..], n);
      assert forall j | 0 <= j < |norm| - 1 :: norm[1..][j] == norm[j + 1];
    }
  }

  /** `find_matching_regulation` once the heading text `s` is known. */
  function MatchHeading(s: string, exact: Table, norm: Table): Option<Entry> {
    if Dict.Get(exact, s).Some? then Dict.Get(exact, s)
    else if Dict.Get(exact, RemoveChar(s, ' ')).Some? then Dict.Get(exact, RemoveChar(s, ' '))
    else
      var n := Normalize.Rich(s);
      if Dict.Get(norm, n).Some? then Dict.Get(norm, n)
      else if |s| < 80 then SuffixScan(norm, n)
      else None
  }

  /** `find_matching_regulation`: an exact title wins over every other tier, and
      a heading text of 80 characters or more is matched by the three lookups
      or not at all. */
  function FindMatching(line: string, exact: Table, norm: Table): (r: Option<Entry>)
    ensures var s := HeadingText(line);
            Dict.Get(exact, s).Some? ==> r == Dict.Get(exact, s)
    ensures var s := HeadingText(line);
            r.Some? && |s| >= 80 ==>
              r == Dict.Get(exact, s) || r == Dict.Get(exact, RemoveChar(s, ' ')) || r == Dict.Get(norm, Normalize.Rich(s))
  {
    MatchHeading(HeadingText(line), exact, norm)
  }

  // ---------------------------------------------------------------------------
  // Properties

  /** A heading line `#…# x` is matched exactly as its text `x` is, when `x` has
      no surrounding whitespace and does not itself start with `#`. */
  lemma {:induction false} HeadingIgnored(n: nat, w: string, x: string, exact: Table, norm: Table)
    requires n >= 1
    requires forall i | 0 <= i < |w| :: IsSpace(w[i])
    requires |x| > 0 && !IsSpace(x[0]) && !IsSpace(x[|x| - 1]) && x[0] != '#'
    ensures FindMatching(Repeat('#', n) + w + x, exact, norm) == FindMatching(x, exact, norm)
  {
    HeadingTextOfHeading(n, w, x);
    HeadingTextPlain(x);
  }

  lemma {:induction false} HeadingTextOfHeading(n: nat, w: string, x: string)
    requires n >= 1
    requires forall i | 0 <= i < |w| :: IsSpace(w[i])
    requires |x| > 0 && !IsSpace(x[0]) && !IsSpace(x[|x| - 1]) && x[0] != '#'
    ensures HeadingText(Repeat('#', n) + w + x) == x
  {
    StripHeadingMarkerOf(n, w, x, PySpace);
    HeadingLineStripped(Repeat('#', n) + w + x, x);
  }

  lemma {:induction false} HeadingLineStripped(line: string, x: string)
    requires |line| >= |x| > 0 && line[0] == '#' && line[|line| - |x|..] == x && !IsSpace(x[|x| - 1])
    ensures Strip(line) == line
  {
    assert line[|line| - 1] == x[|x| - 1];
    StripNoEdges(line);
  }

  lemma {:induction false} HeadingTextPlain(x: string)
    requires |x| > 0 && !IsSpace(x[0]) && !IsSpace(x[|x| - 1]) && x[0] != '#'
    ensures HeadingText(x) == x
  {
    NotMarked(x);
    StripNoEdges(x);
  }

  lemma {:induction false} NotMarked(x: string)
    requires |x| > 0 && x[0] != '#'
    ensures StripHeadingMarker(x, PySpace) == x
  {
    assert x[..1] != "#" by {
      assert x[..1][0] == x[0];
    }
  }

  /** A line whose heading text is exactly the stripped title of a catalogue entry
      matches that entry, when no other entry is filed under the same key. */
  lemma {:induction false} ExactTitleMatches(line: string, regs: seq<Entry>, r: Entry)
    requires r in regs
    requires HeadingText(line) == Strip(r.title)
    requires forall i | 0 <= i < |regs| :: HasExactKey(regs[i], Strip(r.title)) ==> regs[i] == r
    ensures FindMatching(line, ExactMap(regs), NormMap(regs)) == Some(r)
  {
    LastExactOnly(regs, r, Strip(r.title));
    ExactMapGet(regs, Strip(r.title));
  }

  /** The suffix tier is reached only by a line whose heading text is shorter than
      80 characters, and what it returns is filed under a key longer than four
      characters that ends the line's normal form. */
  lemma {:induction false} SuffixTier(s: string, exact: Table, norm: Table)
    requires Dict.Get(exact, s).None? && Dict.Get(exact, RemoveChar(s, ' ')).None?
    requires Dict.Get(norm, Normalize.Rich(s)).None?
    ensures MatchHeading(s, exact, norm).Some? ==> |s| < 80
    ensures MatchHeading(s, exact, norm).Some? ==>
              exists i | 0 <= i < |norm| ::
                norm[i].1 == MatchHeading(s, exact, norm).value
                && |norm[i].0| > 4 && EndsWith(Normalize.Rich(s), norm[i].0)
  {
    var n := Normalize.Rich(s);
    if |s| < 80 {
      SuffixScanFound(norm, n);
      Dict.GetFirst(norm, n);
      assert forall i | 0 <= i < |norm| :: norm[i].0 != n by {
        forall i | 0 <= i < |norm| ensures norm[i].0 != n {
          assert Dict.Keys(norm)[i] == norm[i].0;
        }
      }
    }
  }

  /** Among the suffix candidates the earliest in the table wins. */
  lemma {:induction false} SuffixTierFirst(s: string, exact: Table, norm: Table, i: nat)
    requires Dict.Get(exact, s).None? && Dict.Get(exact, RemoveChar(s, ' ')).None?
    requires Dict.Get(norm, Normalize.Rich(s)).None?
    requires |s| < 80
    requires i < |norm| && |norm[i].0| > 4 && EndsWith(Normalize.Rich(s), norm[i].0)
    requires forall j | 0 <= j < i :: !(|norm[j].0| > 4 && EndsWith(Normalize.Rich(s), norm[j].0))
    ensures MatchHeading(s, exact, norm) == Some(norm[i].1)
  {
    var n := Normalize.Rich(s);
    Dict.GetFirst(norm, n);
    forall j | 0 <= j < i ensures !SuffixHit(n, norm[j].0) {
      assert Dict.Keys(norm)[j] == norm[j].0;
    }
    SuffixScanFirst(norm, n, i);
  }

  /** Everything the matcher returns is a catalogue entry. */
  lemma {:induction false} MatchIsCatalogued(line: string, regs: seq<Entry>)
    ensures FindMatching(line, ExactMap(regs), NormMap(regs)).Some? ==>
              FindMatching(line, ExactMap(regs), NormMap(regs)).value in regs
  {
    var s := HeadingText(line);
    var n := Normalize.Rich(s);
    ExactMapGet(regs, s);
    ExactMapGet(regs, RemoveChar(s, ' '));
    LastExactIn(regs, s);
    LastExactIn(regs, RemoveChar(s, ' '));
    NormMapGet(regs, n);
    LastNormIn(regs, n);
    SuffixScanFound(NormMap(regs), n);
    NormMapValues(regs);
  }

  lemma {:induction false} LastExactIn(regs: seq<Entry>, k: string)
    ensures LastExact(regs, k).Some? ==> LastExact(regs, k).value in regs
  {
    if |regs| > 0 && !HasExactKey(regs[|regs| - 1], k) {
      LastExactIn(regs[..|regs| - 1], k);
    }
  }

  lemma {:induction false} LastNormIn(regs: seq<Entry>, k: string)
    ensures LastNorm(regs, k).Some? ==> LastNorm(regs, k).value in regs
  {
    if |regs| > 0 && Normalize.Rich(regs[|regs| - 1].title) != k {
      LastNormIn(regs[..|regs| - 1], k);
    }
  }

  /** Every value of `normalized_map` is a catalogue entry. */
  lemma {:induction false} NormMapValues(regs: seq<Entry>)
    ensures forall i | 0 <= i < |NormMap(regs)| :: NormMap(regs)[i].1 in regs
  {
    if |regs| > 0 {
      var p := regs[..|regs| - 1];
      var r := regs[|regs| - 1];
      NormMapValues(p);
      PutValues(NormMap(p), Normalize.Rich(r.title), r, regs);
    }
  }

  lemma {:induction false} PutValues(d: Table, k: string, v: Entry, regs: seq<Entry>)
    requires forall i | 0 <= i < |d| :: d[i].1 in regs
    requires v in regs
    ensures forall i | 0 <= i < |Dict.Put(d, k, v)| :: Dict.Put(d, k, v)[i].1 in regs
  {
    if |d| > 0 && d[0].0 != k {
      PutValues(d[1..], k, v, regs);
      assert Dict.Put(d, k, v) == [d[0]] + Dict.Put(d[1..], k, v);
    }
  }
}
