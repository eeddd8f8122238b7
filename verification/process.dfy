/**
 The routing step of `scripts/process_regulation.py`: which converter a file
 goes through, going by its extension, and whether the converted document is
 treated as one regulation or as a compilation of several, going by how many of
 its headings name a catalogued regulation.
 */
module Process {
  import opened Wrappers
  import opened Text
  import Normalize
  import Catalog

  type Entry = Catalog.Entry

  // ---------------------------------------------------------------------------
  // Counting catalogue headings

  /** The values `offer` gives for `lines`, in order. */
  function Collect(lines: seq<string>, offer: string -> Option<string>): (r: seq<string>)
    ensures |r| <= |lines|
  {
    if |lines| == 0 then []
    else (if offer(lines[0]).Some? then [offer(lines[0]).value] else []) + Collect(lines[1..], offer)
  }

  /** How many of `lines` satisfy `p`. */
  function CountIf(lines: seq<string>, p: string -> bool): (n: nat)
    ensures n <= |lines|
  {
    if |lines| == 0 then 0 else (if p(lines[0]) then 1 else 0) + CountIf(lines[1..], p)
  }

  /** The set of normalized catalogue titles. */
  function TitleSet(regs: seq<Entry>): set<string> {
    set i | 0 <= i < |regs| :: Normalize.Basic(regs[i].title)
  }

  /** A line whose stripped form starts with `#`. */
  predicate IsHeadingLine(line: string) {
    StartsWith(Strip(line), "#")
  }

  /** The heading text a line offers when it is a heading whose normalized text
      is a catalogue title: the stripped line without its leading `#`s and the
      whitespace after them. */
  function CatalogHeading(titles: set<string>, line: string): (r: Option<string>)
    ensures r.Some? ==> IsHeadingLine(line) && Normalize.Basic(r.value) in titles
  {
    var l := Strip(line);
    if StartsWith(l, "#") then
      var t := StripHeadingMarker(l, PySpace);
      if Normalize.Basic(t) in titles then Some(t) else None
    else None
  }

  /** `analyze_md_content`: the number of catalogue headings in `content`. */
  function AnalyzeMdContent(content: string, regs: seq<Entry>): (n: nat)
    ensures n == CountIf(SplitLines(content), line => CatalogHeading(TitleSet(regs), line).Some?)
  {
    var titles := TitleSet(regs);
    CollectCounts(SplitLines(content), line => CatalogHeading(titles, line), line => CatalogHeading(TitleSet(regs), line).Some?);
    |Collect(SplitLines(content), line => CatalogHeading(titles, line))|
  }

  /** One value is collected for every line `offer` gives something for. */
  lemma {:induction false} CollectCounts(lines: seq<string>, offer: string -> Option<string>, p: string -> bool)
    requires forall l :: p(l) == offer(l).Some?
    ensures |Collect(lines, offer)| == CountIf(lines, p)
    decreases |lines|
  {
    if |lines| > 0 {
      CollectCounts(lines[1..], offer, p);
    }
  }

  /** Collecting over two runs of lines collects over each in turn, so a heading
      that occurs twice is counted twice. */
  lemma {:induction false} CollectAppend(a: seq<string>, b: seq<string>, offer: string -> Option<string>)
    ensures Collect(a + b, offer) == Collect(a, offer) + Collect(b, offer)
    decreases |a|
  {
    if |a| > 0 {
      assert (a + b)[0] == a[0];
      assert (a + b)[1..] == a[1..] + b;
      CollectAppend(a[1..], b, offer);
    } else {
      assert a + b == b;
    }
  }

  /** Nothing is collected from a line that `p` rejects when `offer` only gives
      for lines `p` accepts. */
  lemma {:induction false} CollectBound(lines: seq<string>, offer: string -> Option<string>, p: string -> bool)
    requires forall l :: offer(l).Some? ==> p(l)
    ensures |Collect(lines, offer)| <= CountIf(lines, p)
    decreases |lines|
  {
    if |lines| > 0 {
      CollectBound(lines[1..], offer, p);
    }
  }

  /** The count never exceeds the number of heading lines. */
  lemma {:induction false} AnalyzeBound(content: string, regs: seq<Entry>)
    ensures AnalyzeMdContent(content, regs) <= CountIf(SplitLines(content), IsHeadingLine)
  {
    var titles := TitleSet(regs);
    CollectBound(SplitLines(content), line => CatalogHeading(titles, line), IsHeadingLine);
  }

  /** A heading line counts exactly when the normalized text after its markers
      and the whitespace after them is a catalogue title, whatever surrounds the
      line; a heading with nothing after its markers counts when the empty
      normal form is a catalogue title. */
  lemma {:induction false} CatalogHeadingOf(titles: set<string>, a: string, n: nat, w: string, x: string, b: string)
    requires n >= 1
    requires forall i | 0 <= i < |a| :: IsSpace(a[i])
    requires forall i | 0 <= i < |w| :: IsSpace(w[i])
    requires forall i | 0 <= i < |b| :: IsSpace(b[i])
    requires |x| == 0 || (!IsSpace(x[0]) && !IsSpace(x[|x| - 1]) && (|w| > 0 || x[0] != '#'))
    ensures CatalogHeading(titles, a + Repeat('#', n) + w + x + b) == if Normalize.Basic(x) in titles then Some(x) else None
  {
    HeadingLineText(a, n, w, x, b);
  }

  /** Every heading line has the shape `CatalogHeadingOf` describes, so the
      decision on it is taken on the text after its markers alone. */
  lemma {:induction false} HeadingLineDecided(titles: set<string>, line: string)
    returns (a: string, n: nat, w: string, x: string, b: string)
    requires IsHeadingLine(line)
    ensures line == a + Repeat('#', n) + w + x + b && n >= 1
    ensures forall i | 0 <= i < |a| :: IsSpace(a[i])
    ensures forall i | 0 <= i < |w| :: IsSpace(w[i])
    ensures forall i | 0 <= i < |b| :: IsSpace(b[i])
    ensures |x| == 0 || (!IsSpace(x[0]) && !IsSpace(x[|x| - 1]) && (|w| > 0 || x[0] != '#'))
    ensures CatalogHeading(titles, line) == if Normalize.Basic(x) in titles then Some(x) else None
  {
    a, n, w, x, b := HeadingShape(line);
    CatalogHeadingOf(titles, a, n, w, x, b);
  }

  /** A line `# t` is a catalogue heading when `t` is the title of a catalogue
      entry with no surrounding whitespace. */
  lemma {:induction false} CatalogTitleCounted(regs: seq<Entry>, i: nat)
    requires i < |regs|
    requires var t := regs[i].title; |t| > 0 && !IsSpace(t[0]) && !IsSpace(t[|t| - 1])
    ensures CatalogHeading(TitleSet(regs), "# " + regs[i].title) == Some(regs[i].title)
  {
    var t := regs[i].title;
    assert Normalize.Basic(t) in TitleSet(regs);
    assert "" + Repeat('#', 1) + " " + t + "" == "# " + t;
    CatalogHeadingOf(TitleSet(regs), "", 1, " ", t, "");
  }

  /** A line that is not a heading is never counted, whatever the catalogue. */
  lemma {:induction false} PlainLineIgnored(titles: set<string>, line: string)
    requires !StartsWith(Strip(line), "#")
    ensures CatalogHeading(titles, line).None?
  {
  }

  // ---------------------------------------------------------------------------
  // Routing

  /** `os.path.splitext(path)[1]`: from the last `.` of the last path component,
      provided that component has something other than dots before it;
      otherwise empty. */
  function Extension(path: string): (r: string)
    ensures |r| <= |path| && r == path[|path| - |r|..]
    ensures |r| == 0 || r[0] == '.'
  {
    var sep := LastIndex(path, '/');
    var dot := LastIndex(path, '.');
    if sep < dot && HasNonDot(path, sep + 1, dot) then path[dot..] else ""
  }

  /** Index of the last `c` in `s`, or -1. */
  function LastIndex(s: string, c: char): (r: int)
    ensures -1 <= r < |s|
    ensures r >= 0 ==> s[r] == c
    ensures forall k | r < k < |s| :: s[k] != c
  {
    if |s| == 0 then -1
    else if s[|s| - 1] == c then |s| - 1
    else LastIndex(s[..|s| - 1], c)
  }

  /** Whether `s[lo..hi]` has a character other than `.`. */
  predicate HasNonDot(s: string, lo: int, hi: int)
    requires 0 <= lo <= hi <= |s|
  {
    exists k | lo <= k < hi :: s[k] != '.'
  }

  /** The converter a file goes through. */
  datatype Conversion = ViaDocx | Direct | Unsupported

  /** `convert_to_md` and the check in `main`, by the lower-cased extension:
      `.pdf` through an intermediate DOCX, `.docx` directly, anything else
      rejected. */
  function ConversionFor(path: string): Conversion {
    var ext := Lower(Extension(path));
    if ext == ".pdf" then ViaDocx else if ext == ".docx" then Direct else Unsupported
  }

  /** A file name whose last component has a non-dot stem: its extension is
      everything from the last dot. */
  lemma {:induction false} ExtensionOf(dir: string, stem: string, ext: string)
    requires '/' !in stem && '/' !in ext
    requires |stem| > 0 && stem[0] != '.'
    requires |ext| > 0 && ext[0] == '.' && '.' !in ext[1..]
    ensures Extension(dir + "/" + stem + ext) == ext
  {
    var path := dir + "/" + stem + ext;
    var sep := LastIndex(path, '/');
    var dot := LastIndex(path, '.');
    var d := |dir| + 1 + |stem|;
    assert path[d] == '.';
    assert path[|dir|] == '/';
    assert forall k | d < k < |path| :: path[k] == ext[1..][k - d - 1];
    assert dot == d;
    assert forall k | |dir| < k < d :: path[k] == stem[k - |dir| - 1];
    assert sep == |dir|;
    assert path[|dir| + 1] == stem[0];
    assert HasNonDot(path, sep + 1, dot);
    assert path[d..] == ext;
  }

  /** The converter depends on the extension only. */
  lemma {:induction false} ConversionByExtension(path: string, ext: string, c: Conversion)
    requires Extension(path) == ext
    requires c == (if Lower(ext) == ".pdf" then ViaDocx else if Lower(ext) == ".docx" then Direct else Unsupported)
    ensures ConversionFor(path) == c
  {
  }

  /** Upper-case extensions are accepted as well: `X.PDF` goes through DOCX... */
  lemma {:induction false} UpperPdfAccepted(dir: string, stem: string)
    requires '/' !in stem && |stem| > 0 && stem[0] != '.'
    ensures ConversionFor(dir + "/" + stem + ".PDF") == ViaDocx
  {
    assert '.' !in ".PDF"[1..] && '/' !in ".PDF";
    ExtensionOf(dir, stem, ".PDF");
    LowerPdf();
    ConversionByExtension(dir + "/" + stem + ".PDF", ".PDF", ViaDocx);
  }

  /** ...and `X.DocX` is converted directly. */
  lemma {:induction false} MixedDocxAccepted(dir: string, stem: string)
    requires '/' !in stem && |stem| > 0 && stem[0] != '.'
    ensures ConversionFor(dir + "/" + stem + ".DocX") == Direct
  {
    assert '.' !in ".DocX"[1..] && '/' !in ".DocX";
    ExtensionOf(dir, stem, ".DocX");
    LowerDocx();
    ConversionByExtension(dir + "/" + stem + ".DocX", ".DocX", Direct);
  }

  lemma {:induction false} LowerPdf()
    ensures Lower(".PDF") == ".pdf"
  {
    var r := Lower(".PDF");
    assert LowerChar('P') == 'p' && LowerChar('D') == 'd' && LowerChar('F') == 'f';
    assert r[0] == '.' && r[1] == 'p' && r[2] == 'd' && r[3] == 'f';
  }

  lemma {:induction false} LowerDocx()
    ensures Lower(".DocX") == ".docx" != ".pdf"
  {
    var r := Lower(".DocX");
    assert LowerChar('D') == 'd' && LowerChar('X') == 'x';
    assert r[0] == '.' && r[1] == 'd' && r[2] == 'o' && r[3] == 'c' && r[4] == 'x';
  }

  /** A file without an extension is rejected. */
  lemma {:induction false} NoExtensionRejected(path: string)
    requires '.' !in path
    ensures ConversionFor(path) == Unsupported
  {
    assert LastIndex(path, '.') == -1;
    assert Lower("") == "";
  }

  /** The two ways on. */
  datatype Route = Single | Multiple

  /** What `main` does with a file: reject it, or convert it and route it by the
      number of catalogue headings in the converted text `converted`. */
  datatype Outcome = Rejected | Routed(conversion: Conversion, route: Route, count: nat)

  /** `main`: unsupported files stop; two or more catalogue headings send the
      file down the split path, one or none down the single-regulation path. */
  function ProcessFile(path: string, converted: string, regs: seq<Entry>): (o: Outcome)
    ensures o.Rejected? <==> ConversionFor(path) == Unsupported
    ensures o.Routed? ==> o.conversion == ConversionFor(path) && o.count == AnalyzeMdContent(converted, regs)
  {
    var conv := ConversionFor(path);
    if conv == Unsupported then Rejected
    else
      var n := AnalyzeMdContent(converted, regs);
      Routed(conv, if n >= 2 then Multiple else Single, n)
  }

  /** The split path is taken exactly when at least two headings name catalogued
      regulations, and never for a document with fewer than two heading lines. */
  lemma {:induction false} RouteRule(path: string, converted: string, regs: seq<Entry>)
    requires ConversionFor(path) != Unsupported
    ensures var o := ProcessFile(path, converted, regs);
            && (o.route == Multiple <==> AnalyzeMdContent(converted, regs) >= 2)
            && (CountIf(SplitLines(converted), IsHeadingLine) < 2 ==> o.route == Single)
  {
    AnalyzeBound(converted, regs);
  }
}
