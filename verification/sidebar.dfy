/**
 `scripts/generate-sidebar.js`: the Docusaurus sidebar built from the tree of
 regulation documents under `website/docs`.

 The directory tree is a value. A file carries its content, or nothing when it
 cannot be read; a directory whose listing fails is an empty directory; an
 entry whose `stat` fails is `Dangling`. Directory listings are sorted by name
 before they are walked.
 */
module Sidebar {
  import opened Wrappers
  import opened Text
  import Sorting

  datatype Node =
    | File(name: string, content: Option<string>)
    | Dir(name: string, children: seq<Node>)
    | Dangling(name: string)

  /** A sidebar entry: a document, or a category holding further entries. */
  datatype Item =
    | Doc(id: string, caption: string)
    | Category(caption: string, collapsed: bool, items: seq<Item>)

  function NameOf(n: Node): string {
    n.name
  }

  // ---------------------------------------------------------------------------
  // Titles and labels

  /** The first line of a text: everything before its first `\n`. */
  function FirstLine(content: string): (line: string)
    ensures '\n' !in line
  {
    SplitOn(content, '\n')[0]
  }

  /** `getTitleFromMd`: the first line without its leading `#`s and the
      whitespace after them, trimmed; nothing when the file cannot be read. */
  function GetTitleFromMd(content: Option<string>): (title: Option<string>)
    ensures title.None? <==> content.None?
    ensures title.Some? ==> '\n' !in title.value
    ensures title.Some? ==> |title.value| == 0 || (!IsJsSpace(title.value[0]) && !IsJsSpace(title.value[|title.value| - 1]))
  {
    match content
    case None => None
    case Some(c) =>
      var line := StripHeadingMarker(FirstLine(c), JsSpace);
      JsTrimSlice(line, '\n');
      Some(JsTrim(line))
  }

  /** A title is used when it is a non-empty string (JavaScript truthiness). */
  predicate HasTitle(title: Option<string>) {
    title.Some? && |title.value| > 0
  }

  /** The label of a document: its code, followed by a space and its title when
      it has one. */
  function DocLabel(code: string, title: Option<string>): (caption: string)
    ensures StartsWith(caption, code)
    ensures caption == code <==> !HasTitle(title)
  {
    if HasTitle(title) then code + " " + title.value else code
  }

  /** The code of a document file: its name without the trailing `.md`. */
  function FileCode(name: string): (code: string)
    requires EndsWith(name, ".md")
    ensures code + ".md" == name
  {
    name[..|name| - 3]
  }

  /** `file.replace('.md', '')` as the source writes it: a string pattern, so the
      first `.md` in the name goes, wherever it is. */
  function FileCodeAsWritten(name: string): string {
    ReplaceFirst(name, ".md", "")
  }

  /** `path.join(basePath, file)` for a name that is a single path component. */
  function JoinPath(base: string, name: string): string {
    if |base| == 0 then name else base + "/" + name
  }

  /** The id of a document: its path below the docs directory without the
      trailing `.md`, with every `\` turned into `/`. */
  function DocId(base: string, name: string): (id: string)
    requires EndsWith(name, ".md")
    ensures '\\' !in id
  {
    var p := JoinPath(base, name);
    ReplaceCharGone(p[..|p| - 3], '\\', "/");
    ReplaceAll(p[..|p| - 3], "\\", "/")
  }

  /** The item for a document file: the id drops the trailing `.md`, the label
      the first `.md` of the name, as the source writes each. */
  function DocItem(base: string, name: string, content: Option<string>): (item: Item)
    requires EndsWith(name, ".md")
    ensures item.Doc? && '\\' !in item.id
    ensures StartsWith(item.caption, FileCodeAsWritten(name))
    ensures item.caption == FileCodeAsWritten(name) <==> !HasTitle(GetTitleFromMd(content))
  {
    Doc(DocId(base, name), DocLabel(FileCodeAsWritten(name), GetTitleFromMd(content)))
  }

  /** `folderNameMap`: display names of the directories of the regulation book. */
  const FolderNameMap: map<string, string> := map[
    "학교법인" := "제1편 학교법인",
    "학칙" := "제2편 학칙",
    "학사행정" := "제3편 학사행정",
    "일반행정" := "제1장 일반행정",
    "인사보수행정" := "제2장 인사보수행정",
    "교무행정" := "제3장 교무행정",
    "학생행정" := "제4장 학생행정",
    "대학원" := "제5장 대학원",
    "부속기관" := "제4편 부속기관",
    "부설연구소" := "제2장 부설연구소",
    "부설기관" := "제3장 부설기관",
    "위원회" := "제5편 위원회",
    "기타" := "제6편 기타"
  ]

  /** The label of a category: its display name, or the directory name itself
      when it has none. Every display name differs from its directory name. */
  function FolderLabel(name: string): (caption: string)
    ensures caption == name <==> name !in FolderNameMap
    ensures name in FolderNameMap ==> caption == FolderNameMap[name]
  {
    if name in FolderNameMap then FolderNameMap[name] else name
  }

  /** `trim()` keeps a slice of the text, so a character the text lacks, and
      whitespace at either end, are not in it. */
  lemma {:induction false} JsTrimSlice(s: string, c: char)
    ensures c !in s ==> c !in JsTrim(s)
    ensures var t := JsTrim(s); |t| == 0 || (!IsJsSpace(t[0]) && !IsJsSpace(t[|t| - 1]))
  {
    var d := DropWhile(s, JsSpace);
    var t := JsTrim(s);
    assert t == d[..|t|];
    assert t == s[|s| - |d|..|s| - |d| + |t|];
    if c !in s {
      SliceWithout(s, |s| - |d|, |s| - |d| + |t|, c);
    }
    if |t| > 0 {
      assert t[0] == d[0];
    }
  }

  /** A slice of a text without `c` has no `c`. */
  lemma {:induction false} SliceWithout(s: string, i: nat, j: nat, c: char)
    requires i <= j <= |s| && c !in s
    ensures c !in s[i..j]
  {
  }

  // ---------------------------------------------------------------------------
  // The walk

  function Size(n: Node): (size: nat)
    ensures size >= 1
    decreases n
  {
    match n
    case Dir(_, cs) => 1 + SumSize(cs)
    case _ => 1
  }

  function SumSize(ns: seq<Node>): nat
    decreases ns
  {
    if |ns| == 0 then 0 else Size(ns[0]) + SumSize(ns[1..])
  }

  /** `fs.readdirSync(dir).sort()`: the entries in name order. */
  function Listing(cs: seq<Node>): (r: seq<Node>)
    ensures Sorting.SortedBy(r, NameOf)
    ensures multiset(r) == multiset(cs)
  {
    Sorting.SortBy(cs, NameOf)
  }

  /** `generateSidebarItems` over a sorted listing `ns` whose entries lie under
      `base`. A directory becomes a category when it yields items and is dropped
      otherwise; a `.md` file becomes a document; other files are skipped; an
      entry whose `stat` fails ends the walk of its directory, keeping the items
      found before it. */
  function Scan(ns: seq<Node>, base: string): (items: seq<Item>)
    ensures |items| <= |ns|
    decreases SumSize(ns)
  {
    if |ns| == 0 then []
    else
      match ns[0]
      case Dangling(_) => []
      case File(name, content) =>
        (if EndsWith(name, ".md") then [DocItem(base, name, content)] else []) + Scan(ns[1..], base)
      case Dir(name, cs) =>
        ListingSize(cs);
        var sub := Scan(Listing(cs), JoinPath(base, name));
        (if |sub| > 0 then [Category(FolderLabel(name), false, sub)] else []) + Scan(ns[1..], base)
  }

  /** The items of the docs directory; a docs path that is not a directory
      yields none. */
  function GenerateSidebarItems(docs: Node): (items: seq<Item>)
    ensures !docs.Dir? ==> items == []
    ensures docs.Dir? ==> |items| <= |docs.children|
  {
    match docs
    case Dir(_, cs) =>
      assert |Listing(cs)| == |multiset(Listing(cs))| == |multiset(cs)| == |cs|;
      Scan(Listing(cs), "")
    case _ => []
  }

  const Home: Item := Doc("intro", "\U{1F3E0} 홈")

  /** `sidebarConfig.regulationsSidebar`: the home page first, then the
      generated items. */
  function SidebarConfig(docs: Node): (r: seq<Item>)
    ensures |r| == 1 + |GenerateSidebarItems(docs)|
    ensures r[0] == Home && r[1..] == GenerateSidebarItems(docs)
  {
    [Home] + GenerateSidebarItems(docs)
  }

  // ---------------------------------------------------------------------------
  // Sums over listings do not depend on their order

  function Sum<T>(xs: seq<T>, f: T -> nat): nat {
    if |xs| == 0 then 0 else f(xs[0]) + Sum(xs[1..], f)
  }

  lemma {:induction false} SumRemove<T>(xs: seq<T>, j: nat, f: T -> nat)
    requires j < |xs|
    ensures Sum(xs, f) == f(xs[j]) + Sum(xs[..j] + xs[j + 1..], f)
    decreases j
  {
    if j > 0 {
      var ys := xs[..j] + xs[j + 1..];
      assert ys[0] == xs[0];
      assert ys[1..] == xs[1..][..j - 1] + xs[1..][j..];
      SumRemove(xs[1..], j - 1, f);
    } else {
      assert xs[..0] + xs[1..] == xs[1..];
    }
  }

  lemma {:induction false} SumPerm<T>(a: seq<T>, b: seq<T>, f: T -> nat)
    requires multiset(a) == multiset(b)
    ensures Sum(a, f) == Sum(b, f)
    decreases |a|
  {
    assert |a| == |multiset(a)| == |multiset(b)| == |b|;
    if |a| > 0 {
      var x := a[0];
      assert x in multiset(b);
      var j :| 0 <= j < |b| && b[j] == x;
      var rest := b[..j] + b[j + 1..];
      SumRemove(b, j, f);
      assert multiset(a[1..]) == multiset(rest) by {
        assert b == b[..j] + ([x] + b[j + 1..]);
        assert multiset(b) == multiset(b[..j]) + (multiset{x} + multiset(b[j + 1..]));
        assert multiset(rest) == multiset(b[..j]) + multiset(b[j + 1..]);
        assert multiset(b) == multiset(rest) + multiset{x};
        assert a == [x] + a[1..];
        assert multiset(a) == multiset(a[1..]) + multiset{x};
        assert multiset(a[1..]) == multiset(a) - multiset{x};
        assert multiset(rest) == multiset(b) - multiset{x};
      }
      SumPerm(a[1..], rest, f);
    }
  }

  lemma {:induction false} SumSizeIsSum(ns: seq<Node>)
    ensures SumSize(ns) == Sum(ns, Size)
    decreases |ns|
  {
    if |ns| > 0 {
      SumSizeIsSum(ns[1..]);
    }
  }

  /** Sorting a listing keeps its size, so the walk terminates. */
  lemma {:induction false} ListingSize(cs: seq<Node>)
    ensures SumSize(Listing(cs)) == SumSize(cs)
  {
    SumSizeIsSum(cs);
    SumSizeIsSum(Listing(cs));
    SumPerm(Listing(cs), cs, Size);
  }

  // ---------------------------------------------------------------------------
  // Titles

  /** Only the first line counts toward the title. */
  lemma {:induction false} TitleFromFirstLine(line: string, rest: string)
    requires '\n' !in line
    ensures GetTitleFromMd(Some(line + "\n" + rest)) == GetTitleFromMd(Some(line))
  {
    SplitOnFirst(line, '\n', rest);
    SplitOnNone(line, '\n');
  }

  /** A heading `#…# x` on the first line has title `x`, whatever follows, when
      `x` has no surrounding whitespace (and does not itself start with `#` when
      no whitespace separates it from the markers). */
  lemma {:induction false} HeadingTitle(n: nat, w: string, x: string, rest: string)
    requires n >= 1 && '\n' !in w && '\n' !in x
    requires forall i | 0 <= i < |w| :: IsJsSpace(w[i])
    requires |x| == 0 || (!IsJsSpace(x[0]) && !IsJsSpace(x[|x| - 1]) && (|w| > 0 || x[0] != '#'))
    ensures GetTitleFromMd(Some(Repeat('#', n) + w + x + "\n" + rest)) == Some(x)
  {
    var line := Repeat('#', n) + w + x;
    assert '\n' !in line by {
      assert forall i | 0 <= i < n :: line[i] == '#';
      assert forall i | n <= i < n + |w| :: line[i] == w[i - n];
      assert forall i | n + |w| <= i < |line| :: line[i] == x[i - n - |w|];
    }
    TitleFromFirstLine(line, rest);
    SplitOnNone(line, '\n');
    StripHeadingMarkerOf(n, w, x, JsSpace);
    JsTrimNoEdges(x);
  }

  /** A first line that is not a heading is the title once trimmed. */
  lemma {:induction false} PlainTitle(line: string, rest: string)
    requires '\n' !in line && !StartsWith(line, "#")
    ensures GetTitleFromMd(Some(line + "\n" + rest)) == Some(JsTrim(line))
  {
    TitleFromFirstLine(line, rest);
    SplitOnNone(line, '\n');
  }

  /** An unreadable file, or one whose first line is blank after the markers,
      is labelled by its code alone; for a code without dots, the label of an
      untitled `code.md` is `code`. */
  lemma {:induction false} UntitledLabel(base: string, code: string, content: Option<string>)
    requires '.' !in code
    requires !HasTitle(GetTitleFromMd(content))
    ensures EndsWith(code + ".md", ".md")
    ensures DocItem(base, code + ".md", content).caption == code
  {
    FileCodeAgrees(code);
  }

  // ---------------------------------------------------------------------------
  // Ids

  /** Without backslashes in the path, appending `.md` to the id gives the path
      of the file again. */
  lemma {:induction false} DocIdRoundTrip(base: string, name: string)
    requires EndsWith(name, ".md")
    requires '\\' !in base && '\\' !in name
    ensures DocId(base, name) + ".md" == JoinPath(base, name)
  {
    var p := JoinPath(base, name);
    assert EndsWith(p, ".md") by {
      if |base| > 0 {
        assert p[|p| - 3..] == name[|name| - 3..];
      }
    }
    assert '\\' !in p[..|p| - 3] by {
      if |base| > 0 {
        forall i | 0 <= i < |p| ensures p[i] != '\\' {
          if i < |base| {
            assert p[i] == base[i];
          } else if i > |base| {
            assert p[i] == name[i - |base| - 1];
          }
        }
      }
    }
    assert !Contains(p[..|p| - 3], "\\") by {
      ContainsChar(p[..|p| - 3], '\\');
    }
    assert p[..|p| - 3] + ".md" == p;
  }

  // ---------------------------------------------------------------------------
  // The file code

  /** For a code without dots both readings of the code agree. */
  lemma {:induction false} FileCodeAgrees(code: string)
    requires '.' !in code
    ensures EndsWith(code + ".md", ".md")
    ensures FileCodeAsWritten(code + ".md") == code == FileCode(code + ".md")
    decreases |code|
  {
    var s := code + ".md";
    assert s[|code|..] == ".md";
    if |code| == 0 {
      assert s == ".md" && StartsWith(s, ".md");
      assert s[3..] == [];
    } else {
      assert s[0] == code[0] != '.';
      assert !StartsWith(s, ".md");
      assert s[1..] == code[1..] + ".md";
      FileCodeAgrees(code[1..]);
      assert code == [code[0]] + code[1..];
    }
  }

  /** The name `a.mdx.md`: the source drops the `.md` of `.mdx` and keeps the
      extension, labelling the document `ax.md` instead of `a.mdx`. */
  lemma {:induction false} FileCodeFirstMatch()
    ensures EndsWith("a.mdx.md", ".md")
    ensures FileCodeAsWritten("a.mdx.md") == "ax.md"
    ensures FileCode("a.mdx.md") == "a.mdx"
  {
    var s := "a.mdx.md";
    assert s[5..] == ".md";
    assert s[..3][0] == 'a';
    assert !StartsWith(s, ".md");
    assert s[1..] == ".mdx.md" && StartsWith(s[1..], ".md");
    assert s[1..][3..] == "x.md";
    assert ReplaceFirst(s[1..], ".md", "") == "x.md";
    assert ReplaceFirst(s, ".md", "") == [s[0]] + "x.md";
  }

  // ---------------------------------------------------------------------------
  // What the walk produces

  /** Every category is expanded and holds at least one item. */
  predicate WellFormed(items: seq<Item>)
    decreases items
  {
    forall k | 0 <= k < |items| ::
      match items[k]
      case Doc(_, _) => true
      case Category(_, collapsed, sub) => !collapsed && |sub| > 0 && WellFormed(sub)
  }

  lemma {:induction false} WellFormedAppend(a: seq<Item>, b: seq<Item>)
    requires WellFormed(a) && WellFormed(b)
    ensures WellFormed(a + b)
  {
    forall k | 0 <= k < |a + b| ensures (a + b)[k] == (if k < |a| then a[k] else b[k - |a|]) {
    }
  }

  /** No category the walk produces is empty, at any depth. */
  lemma {:induction false} ScanWellFormed(ns: seq<Node>, base: string)
    ensures WellFormed(Scan(ns, base))
    decreases SumSize(ns)
  {
    if |ns| > 0 {
      match ns[0]
      case Dangling(_) =>
      case File(name, content) =>
        ScanWellFormed(ns[1..], base);
        WellFormedAppend(if EndsWith(name, ".md") then [DocItem(base, name, content)] else [], Scan(ns[1..], base));
      case Dir(name, cs) =>
        ListingSize(cs);
        var sub := Scan(Listing(cs), JoinPath(base, name));
        ScanWellFormed(Listing(cs), JoinPath(base, name));
        ScanWellFormed(ns[1..], base);
        WellFormedAppend(if |sub| > 0 then [Category(FolderLabel(name), false, sub)] else [], Scan(ns[1..], base));
    }
  }

  /** The number of documents in a list of items, at any depth. */
  function DocCount(items: seq<Item>): nat
    decreases items
  {
    if |items| == 0 then 0
    else
      (match items[0]
       case Doc(_, _) => 1
       case Category(_, _, sub) => DocCount(sub))
      + DocCount(items[1..])
  }

  lemma {:induction false} DocCountAppend(a: seq<Item>, b: seq<Item>)
    ensures DocCount(a + b) == DocCount(a) + DocCount(b)
    decreases |a|
  {
    if |a| > 0 {
      assert (a + b)[0] == a[0];
      assert (a + b)[1..] == a[1..] + b;
      DocCountAppend(a[1..], b);
    } else {
      assert a + b == b;
    }
  }

  /** The number of `.md` files in a tree, counted in listing order. */
  function MdCount(n: Node): nat
    decreases n
  {
    match n
    case File(name, _) => if EndsWith(name, ".md") then 1 else 0
    case Dir(_, cs) => MdCountAll(cs)
    case Dangling(_) => 0
  }

  function MdCountAll(ns: seq<Node>): nat
    decreases ns
  {
    if |ns| == 0 then 0 else MdCount(ns[0]) + MdCountAll(ns[1..])
  }

  /** Every entry of the tree can be stat'ed. */
  predicate NoDangling(n: Node)
    decreases n
  {
    match n
    case Dangling(_) => false
    case File(_, _) => true
    case Dir(_, cs) => forall k | 0 <= k < |cs| :: NoDangling(cs[k])
  }

  lemma {:induction false} MdCountAllIsSum(ns: seq<Node>)
    ensures MdCountAll(ns) == Sum(ns, MdCount)
    decreases |ns|
  {
    if |ns| > 0 {
      MdCountAllIsSum(ns[1..]);
    }
  }

  lemma {:induction false} ListingCount(cs: seq<Node>)
    ensures MdCountAll(Listing(cs)) == MdCountAll(cs)
    ensures (forall k | 0 <= k < |cs| :: NoDangling(cs[k])) ==>
              forall k | 0 <= k < |Listing(cs)| :: NoDangling(Listing(cs)[k])
  {
    MdCountAllIsSum(cs);
    MdCountAllIsSum(Listing(cs));
    SumPerm(Listing(cs), cs, MdCount);
    forall k | 0 <= k < |Listing(cs)| ensures Listing(cs)[k] in cs {
      assert Listing(cs)[k] in multiset(Listing(cs));
    }
  }

  /** When every entry can be stat'ed, the sidebar has exactly one document
      per `.md` file of the tree, at any depth: no file is lost in an empty or
      dropped category and none is listed twice. */
  lemma {:induction false} ScanCountsFiles(ns: seq<Node>, base: string)
    requires forall k | 0 <= k < |ns| :: NoDangling(ns[k])
    ensures DocCount(Scan(ns, base)) == MdCountAll(ns)
    decreases SumSize(ns)
  {
    if |ns| > 0 {
      assert NoDangling(ns[0]);
      assert forall k | 0 <= k < |ns[1..]| :: NoDangling(ns[1..][k]) by {
        forall k | 0 <= k < |ns[1..]| ensures ns[1..][k] == ns[k + 1] {
        }
      }
      ScanCountsFiles(ns[1..], base);
      match ns[0]
      case File(name, content) =>
        DocCountAppend(if EndsWith(name, ".md") then [DocItem(base, name, content)] else [], Scan(ns[1..], base));
      case Dir(name, cs) =>
        ListingSize(cs);
        ListingCount(cs);
        var sub := Scan(Listing(cs), JoinPath(base, name));
        ScanCountsFiles(Listing(cs), JoinPath(base, name));
        DocCountAppend(if |sub| > 0 then [Category(FolderLabel(name), false, sub)] else [], Scan(ns[1..], base));
    }
  }

  /** The count for the whole docs directory. */
  lemma {:induction false} SidebarCountsFiles(docs: Node)
    requires docs.Dir? && NoDangling(docs)
    ensures DocCount(SidebarConfig(docs)) == 1 + MdCount(docs)
  {
    ListingCount(docs.children);
    ScanCountsFiles(Listing(docs.children), "");
    DocCountAppend([Home], GenerateSidebarItems(docs));
  }

  /** An entry whose `stat` fails hides every entry listed after it. */
  lemma {:induction false} DanglingStops(name: string, rest: seq<Node>, base: string)
    ensures Scan([Dangling(name)] + rest, base) == []
  {
    assert ([Dangling(name)] + rest)[0] == Dangling(name);
  }

  /** A file that is not a `.md` file yields nothing. */
  lemma {:induction false} OtherFileSkipped(name: string, content: Option<string>, rest: seq<Node>, base: string)
    requires !EndsWith(name, ".md")
    ensures Scan([File(name, content)] + rest, base) == Scan(rest, base)
  {
    var ns := [File(name, content)] + rest;
    assert ns[0] == File(name, content) && ns[1..] == rest;
  }

  /** The order in which the file system lists a directory does not matter:
      any two listings of the same entries, no two sharing a name, give the
      same sidebar. */
  lemma {:induction false} ListingOrderIrrelevant(name: string, a: seq<Node>, b: seq<Node>)
    requires multiset(a) == multiset(b)
    requires forall x, y | x in a && y in a && x.name == y.name :: x == y
    ensures GenerateSidebarItems(Dir(name, a)) == GenerateSidebarItems(Dir(name, b))
  {
    var la, lb := Listing(a), Listing(b);
    assert forall x | x in la :: x in a by {
      forall x | x in la ensures x in a {
        assert x in multiset(la);
      }
    }
    Sorting.SortedUnique(la, lb, NameOf);
  }
}
