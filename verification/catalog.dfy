/**
 The regulation catalogue (`regulations.json`) and how it is rebuilt from the
 Markdown files under `regulations/`: every `.md` file that is not a backup and
 whose text has a non-empty heading becomes one entry, and the entries are
 saved sorted by code.
 */
module Catalog {
  import opened Wrappers
  import opened Text
  import Normalize
  import Sorting
  import Dict

  /** One catalogue record. */
  datatype Entry = Entry(
    code: string,
    title: string,
    titleNormalized: string,
    category: string,
    path: string,
    filename: string)

  /** A file as the directory walk sees it: its name and its lines as read. */
  datatype FileItem = FileItem(name: string, lines: seq<string>)

  /** One step of the walk: a directory (as a path) and the files directly in it. */
  datatype Listing = Listing(root: string, files: seq<FileItem>)

  /** The saved catalogue. */
  datatype CatalogFile = CatalogFile(
    version: string,
    lastUpdated: string,
    total: nat,
    regulations: seq<Entry>)

  // ---------------------------------------------------------------------------
  // Titles

  /** The title one line offers: a stripped line that starts with `#`, less the
      run of `#` and the whitespace after it, stripped again; `None` when that
      leaves nothing. */
  function LineTitle(line: string): (r: Option<string>)
    ensures r.Some? ==> |r.value| > 0
    ensures r.Some? ==> StartsWith(Strip(line), "#")
  {
    var l := Strip(line);
    if StartsWith(l, "#") then
      var t := Strip(StripHeadingMarker(l, PySpace));
      if |t| > 0 then Some(t) else None
    else None
  }

  /** `extract_title_from_md`: the title of the first line that offers one. */
  function ExtractTitleFromMd(lines: seq<string>): (r: Option<string>)
    ensures r.Some? ==> |r.value| > 0
  {
    FirstOfferedOffered(lines, LineTitle);
    FirstOffered(lines, LineTitle)
  }

  /** What `offer` gives for the first line it gives something for. */
  function FirstOffered(lines: seq<string>, offer: string -> Option<string>): (r: Option<string>)
  {
    if |lines| == 0 then None
    else if offer(lines[0]).Some? then offer(lines[0])
    else FirstOffered(lines[1..], offer)
  }

  /** Whatever is found was offered by some line. */
  lemma {:induction false} FirstOfferedOffered(lines: seq<string>, offer: string -> Option<string>)
    ensures FirstOffered(lines, offer).Some? ==>
              exists i | 0 <= i < |lines| :: offer(lines[i]) == FirstOffered(lines, offer)
  {
    if |lines| > 0 && offer(lines[0]).None? {
      FirstOfferedOffered(lines[1..], offer);
      assert forall i | 0 <= i < |lines| - 1 :: lines[1..][i] == lines[i + 1];
    }
  }

  lemma {:induction false} FirstOfferedAt(lines: seq<string>, offer: string -> Option<string>, i: nat)
    requires i < |lines| && offer(lines[i]).Some?
    requires forall j | 0 <= j < i :: offer(lines[j]).None?
    ensures FirstOffered(lines, offer) == offer(lines[i])
  {
    if i > 0 {
      var tail := lines[1..];
      assert offer(lines[0]).None?;
      assert tail[i - 1] == lines[i];
      assert forall j | 0 <= j < i - 1 :: tail[j] == lines[j + 1];
      FirstOfferedAt(tail, offer, i - 1);
    }
  }

  lemma {:induction false} FirstOfferedNone(lines: seq<string>, offer: string -> Option<string>)
    requires forall j | 0 <= j < |lines| :: offer(lines[j]).None?
    ensures FirstOffered(lines, offer) == None
  {
    if |lines| > 0 {
      assert forall j | 0 <= j < |lines| - 1 :: lines[1..][j] == lines[j + 1];
      FirstOfferedNone(lines[1..], offer);
    }
  }

  /** The title comes from the first line that offers one... */
  lemma ExtractTitleFirst(lines: seq<string>, i: nat)
    requires i < |lines| && LineTitle(lines[i]).Some?
    requires forall j | 0 <= j < i :: LineTitle(lines[j]).None?
    ensures ExtractTitleFromMd(lines) == LineTitle(lines[i])
  {
    FirstOfferedAt(lines, LineTitle, i);
  }

  /** ...and there is none when no line offers one. */
  lemma ExtractTitleNone(lines: seq<string>)
    requires forall j | 0 <= j < |lines| :: LineTitle(lines[j]).None?
    ensures ExtractTitleFromMd(lines) == None
  {
    FirstOfferedNone(lines, LineTitle);
  }

  lemma {:induction false} HeadingLineStrip(t: string)
    requires |t| > 0 && !IsSpace(t[|t| - 1])
    ensures Strip("# " + t) == "# " + t
  {
    var line := "# " + t;
    assert line[0] == '#' && line[|line| - 1] == t[|t| - 1];
    StripNoEdges(line);
  }

  lemma {:induction false} HeadingLineMarker(t: string)
    requires |t| > 0 && !IsSpace(t[0])
    ensures StartsWith("# " + t, "#")
    ensures StripHeadingMarker("# " + t, PySpace) == t
  {
    var line := "# " + t;
    assert line[..1] == "#";
    assert Repeat('#', 1) + " " + t == line;
    StripHeadingMarkerOf(1, " ", t, PySpace);
  }

  /** The line `# t` offers the title `t` when `t` is non-empty and has no
      surrounding whitespace. */
  lemma {:induction false} HeadingLineTitle(t: string)
    requires |t| > 0 && !IsSpace(t[0]) && !IsSpace(t[|t| - 1])
    ensures LineTitle("# " + t) == Some(t)
  {
    HeadingLineStrip(t);
    HeadingLineMarker(t);
    StripNoEdges(t);
  }

  /** A file that opens with the heading `# t` is catalogued under the title `t`,
      whatever follows, provided `t` is non-empty and has no surrounding
      whitespace. */
  lemma {:induction false} HeadingTitleRoundTrip(t: string, rest: seq<string>)
    requires |t| > 0 && !IsSpace(t[0]) && !IsSpace(t[|t| - 1])
    ensures ExtractTitleFromMd(["# " + t] + rest) == Some(t)
  {
    HeadingLineTitle(t);
    var lines := ["# " + t] + rest;
    assert lines[0] == "# " + t;
    ExtractTitleFirst(lines, 0);
  }

  /** Every heading line offers the text after its markers and the whitespace
      after them, whatever surrounds the line; a heading with nothing after its
      markers offers nothing. */
  lemma {:induction false} LineTitleOfHeading(a: string, n: nat, w: string, x: string, b: string)
    requires n >= 1
    requires forall i | 0 <= i < |a| :: IsSpace(a[i])
    requires forall i | 0 <= i < |w| :: IsSpace(w[i])
    requires forall i | 0 <= i < |b| :: IsSpace(b[i])
    requires |x| == 0 || (!IsSpace(x[0]) && !IsSpace(x[|x| - 1]) && (|w| > 0 || x[0] != '#'))
    ensures LineTitle(a + Repeat('#', n) + w + x + b) == if |x| > 0 then Some(x) else None
  {
    HeadingLineText(a, n, w, x, b);
    StripNoEdges(x);
  }

  /** Every heading line has the shape `LineTitleOfHeading` describes, so the
      title it offers is the text after its markers, when there is any. */
  lemma {:induction false} HeadingTitleDecided(line: string)
    returns (a: string, n: nat, w: string, x: string, b: string)
    requires StartsWith(Strip(line), "#")
    ensures line == a + Repeat('#', n) + w + x + b && n >= 1
    ensures forall i | 0 <= i < |a| :: IsSpace(a[i])
    ensures forall i | 0 <= i < |w| :: IsSpace(w[i])
    ensures forall i | 0 <= i < |b| :: IsSpace(b[i])
    ensures |x| == 0 || (!IsSpace(x[0]) && !IsSpace(x[|x| - 1]) && (|w| > 0 || x[0] != '#'))
    ensures LineTitle(line) == if |x| > 0 then Some(x) else None
  {
    a, n, w, x, b := HeadingShape(line);
    LineTitleOfHeading(a, n, w, x, b);
  }

  /** `normalize_title` of the catalogue: empty for a missing or empty title,
      the basic normal form otherwise. */
  function NormalizeTitle(title: Option<string>): (r: string)
    ensures title.None? ==> r == ""
    ensures title.Some? ==> r == Normalize.Basic(title.value)
  {
    match title
    case None => ""
    case Some(t) => if |t| == 0 then "" else Normalize.Basic(t)
  }

  // ---------------------------------------------------------------------------
  // Scanning

  /** The file filter of the walk: Markdown files that are not backups. */
  predicate IsRegulationFile(name: string) {
    EndsWith(name, ".md") && !Contains(name, ".backup.")
  }

  /** The code of a file: its name with every `.md` removed. */
  function CodeOf(name: string): string {
    ReplaceAll(name, ".md", "")
  }

  /** The category of a directory: its path with `regulations/` and
      `regulations\` removed. */
  function CategoryOf(root: string): string {
    ReplaceAll(ReplaceAll(root, "regulations/", ""), "regulations\\", "")
  }

  /** The entry a file in directory `root` contributes, if any. */
  function Kept(root: string, f: FileItem): (r: Option<Entry>)
    ensures r.Some? <==> IsRegulationFile(f.name) && ExtractTitleFromMd(f.lines).Some?
    ensures r.Some? ==> IsRegulationFile(r.value.filename) && |r.value.title| > 0
    ensures r.Some? ==> r.value.filename == f.name && r.value.code == CodeOf(f.name)
    ensures r.Some? ==> r.value.title == ExtractTitleFromMd(f.lines).value
    ensures r.Some? ==> r.value.category == CategoryOf(root)
    ensures r.Some? ==> r.value.path == ReplaceAll(root + "/" + f.name, "\\", "/")
    ensures r.Some? ==> r.value.titleNormalized == Normalize.Basic(r.value.title)
    ensures r.Some? ==> '\\' !in r.value.path
  {
    if !IsRegulationFile(f.name) then None
    else
      var title := ExtractTitleFromMd(f.lines);
      if title.None? then None
      else
        var path := ReplaceAll(root + "/" + f.name, "\\", "/");
        ReplaceCharGone(root + "/" + f.name, '\\', "/");
        Some(Entry(CodeOf(f.name), title.value, NormalizeTitle(title), CategoryOf(root), path, f.name))
  }

  /** The entries of the files of one directory, in listing order. */
  function ScanFiles(root: string, files: seq<FileItem>): (r: seq<Entry>)
    ensures |r| <= |files|
    ensures forall e | e in r :: exists f | f in files :: Kept(root, f) == Some(e)
    ensures forall f | f in files && Kept(root, f).Some? :: Kept(root, f).value in r
  {
    if |files| == 0 then []
    else
      var rest := ScanFiles(root, files[1..]);
      assert forall f | f in files[1..] :: f in files;
      var k := Kept(root, files[0]);
      if k.Some? then [k.value] + rest else rest
  }

  /** `scan_regulations`: the entries of every directory of the walk, in walk order. */
  function ScanRegulations(walk: seq<Listing>): (r: seq<Entry>)
    ensures forall e | e in r ::
              exists l, f | l in walk && f in l.files :: Kept(l.root, f) == Some(e)
    ensures forall l, f | l in walk && f in l.files && Kept(l.root, f).Some? ::
              Kept(l.root, f).value in r
  {
    if |walk| == 0 then []
    else
      var here := ScanFiles(walk[0].root, walk[0].files);
      var rest := ScanRegulations(walk[1..]);
      assert forall l | l in walk[1..] :: l in walk;
      here + rest
  }

  /** A directory with no catalogued file contributes nothing. */
  lemma {:induction false} ScanFilesNone(root: string, files: seq<FileItem>)
    requires forall i | 0 <= i < |files| :: !IsRegulationFile(files[i].name)
    ensures ScanFiles(root, files) == []
  {
    if |files| > 0 {
      ScanFilesNone(root, files[1..]);
    }
  }

  /** The entries of a run of files are those of its parts in turn, and a single
      file contributes its entry, if it has one: one entry per kept file, in
      listing order. */
  lemma {:induction false} ScanFilesByFile(root: string, a: seq<FileItem>, b: seq<FileItem>, f: FileItem)
    ensures ScanFiles(root, a + b) == ScanFiles(root, a) + ScanFiles(root, b)
    ensures ScanFiles(root, [f]) == if Kept(root, f).Some? then [Kept(root, f).value] else []
    decreases |a|
  {
    assert [f][1..] == [];
    if |a| == 0 {
      assert a + b == b;
    } else {
      assert (a + b)[0] == a[0];
      assert (a + b)[1..] == a[1..] + b;
      ScanFilesByFile(root, a[1..], b, f);
    }
  }

  /** The entries of a walk are those of its parts in turn, and a single
      directory contributes the entries of its files. */
  lemma {:induction false} ScanRegulationsByListing(v: seq<Listing>, u: seq<Listing>, l: Listing)
    ensures ScanRegulations(v + u) == ScanRegulations(v) + ScanRegulations(u)
    ensures ScanRegulations([l]) == ScanFiles(l.root, l.files)
    decreases |v|
  {
    assert [l][1..] == [];
    if |v| == 0 {
      assert v + u == u;
    } else {
      assert (v + u)[0] == v[0];
      assert (v + u)[1..] == v[1..] + u;
      ScanRegulationsByListing(v[1..], u, l);
    }
  }

  /** A directory `regulations/d` has category `d` when `d` does not itself
      contain `regulations/` or `regulations\`. */
  lemma {:induction false} CategoryOfSubdirectory(d: string)
    requires !Contains(d, "regulations/") && !Contains(d, "regulations\\")
    ensures CategoryOf("regulations/" + d) == d
  {
    ReplaceAllLeading("regulations/", d, "");
    assert "" + d == d;
  }

  /** Files directly in `regulations` get the category `regulations`: the
      directory name has no trailing separator to remove. */
  lemma {:induction false} CategoryOfTop()
    ensures CategoryOf("regulations") == "regulations"
  {
    assert !Contains("regulations", "regulations/");
    assert !Contains("regulations", "regulations\\");
  }

  /** A path without backslashes is recorded as it is. */
  lemma {:induction false} PathOfUnixName(root: string, name: string)
    requires '\\' !in root && '\\' !in name
    ensures ReplaceAll(root + "/" + name, "\\", "/") == root + "/" + name
  {
    assert '\\' !in root + "/" + name;
    ReplaceAbsentChar(root + "/" + name, '\\', "/");
  }

  /** A file named `<code>.md` is catalogued under `<code>` when the code has no dot. */
  lemma CodeOfFileName(code: string)
    requires '.' !in code
    ensures CodeOf(code + ".md") == code
  {
    ReplaceAllSuffix(code, ".md");
  }

  // ---------------------------------------------------------------------------
  // Saving

  function CodeKey(e: Entry): string {
    e.code
  }

  /** `save_regulations_db`: the entries sorted by code, their number, the format
      version and the date of the run (passed in). */
  function SaveRegulationsDb(regs: seq<Entry>, today: string): (r: CatalogFile)
    ensures r.version == "1.0" && r.lastUpdated == today
    ensures r.total == |regs| == |r.regulations|
    ensures multiset(r.regulations) == multiset(regs)
    ensures forall i, j | 0 <= i < j < |r.regulations| ::
              Sorting.LexLe(r.regulations[i].code, r.regulations[j].code)
  {
    var sorted := Sorting.SortBy(regs, CodeKey);
    assert Sorting.SortedBy(sorted, CodeKey);
    CatalogFile("1.0", today, |sorted|, sorted)
  }

  // ---------------------------------------------------------------------------
  // Category statistics

  /** How many entries of `regs` are in category `c`. */
  function CountIn(regs: seq<Entry>, c: string): nat {
    if |regs| == 0 then 0
    else CountIn(regs[..|regs| - 1], c) + (if regs[|regs| - 1].category == c then 1 else 0)
  }

  /** The per-category tally of `main`, keyed in order of first appearance. */
  function CategoryCounts(regs: seq<Entry>): Dict.Dict<string, nat> {
    if |regs| == 0 then []
    else
      var d := CategoryCounts(regs[..|regs| - 1]);
      var c := regs[|regs| - 1].category;
      Dict.Put(d, c, Dict.Get(d, c).GetOr(0) + 1)
  }

  /** The tally holds, for each category, exactly the number of its entries;
      a category with no entries has no key. */
  lemma {:induction false} CategoryCountsCorrect(regs: seq<Entry>, c: string)
    ensures Dict.Get(CategoryCounts(regs), c) ==
              if CountIn(regs, c) == 0 then None else Some(CountIn(regs, c))
  {
    if |regs| > 0 {
      var p := regs[..|regs| - 1];
      var d := CategoryCounts(p);
      var last := regs[|regs| - 1].category;
      CategoryCountsCorrect(p, c);
      CategoryCountsCorrect(p, last);
      var n := Dict.Get(d, last).GetOr(0) + 1;
      assert CategoryCounts(regs) == Dict.Put(d, last, n);
      Dict.PutGet(d, last, n, c);
      assert CountIn(regs, c) == CountIn(p, c) + (if last == c then 1 else 0);
    }
  }

  /** The sum of the values of a tally. */
  function Total(d: Dict.Dict<string, nat>): nat {
    if |d| == 0 then 0 else d[0].1 + Total(d[1..])
  }

  lemma {:induction false} TotalIncrement(d: Dict.Dict<string, nat>, k: string)
    ensures Total(Dict.Put(d, k, Dict.Get(d, k).GetOr(0) + 1)) == Total(d) + 1
  {
    if |d| > 0 && d[0].0 != k {
      TotalIncrement(d[1..], k);
    }
  }

  /** The per-category counts add up to the number of entries. */
  lemma {:induction false} CategoryCountsTotal(regs: seq<Entry>)
    ensures Total(CategoryCounts(regs)) == |regs|
  {
    if |regs| > 0 {
      CategoryCountsTotal(regs[..|regs| - 1]);
      TotalIncrement(CategoryCounts(regs[..|regs| - 1]), regs[|regs| - 1].category);
    }
  }

  // ---------------------------------------------------------------------------
  // The whole run

  datatype Outcome = NoRegulationsDir | NothingFound | Saved(catalog: CatalogFile)

  /** `main`: fails when `regulations/` is missing or holds no catalogued file;
      otherwise saves every catalogued file. */
  function Regenerate(dirExists: bool, walk: seq<Listing>, today: string): (r: Outcome)
    ensures !dirExists <==> r == NoRegulationsDir
    ensures r == NothingFound <==> dirExists && ScanRegulations(walk) == []
    ensures r.Saved? ==> r.catalog.total > 0
    ensures r.Saved? ==> multiset(r.catalog.regulations) == multiset(ScanRegulations(walk))
  {
    if !dirExists then NoRegulationsDir
    else
      var regs := ScanRegulations(walk);
      if |regs| == 0 then NothingFound else Saved(SaveRegulationsDb(regs, today))
  }
}
