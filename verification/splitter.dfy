/**
 `split_markdown_content` of `scripts/split_and_update.py`: one pass over the
 lines of the combined document with a cursor on the regulation being
 collected. A line the matcher recognises closes the open block and opens a new
 one; any other line is added to the open block, if there is one.

 The walk only depends on which lines match and to which code, so it is stated
 over `ms`, the code matched at each line (`None` for no match). A code of `""`
 is falsy in Python: after such a match no block is open.
 */
module Splitter {
  import opened Wrappers
  import opened Text
  import Dict
  import Matcher
  import Catalog

  type Blocks = Dict.Dict<string, seq<string>>

  // ---------------------------------------------------------------------------
  // What the walk produces, stated per code

  /** The first matched index in `[i, k)`, or `k`. */
  function NextBoundary(ms: seq<Option<string>>, i: nat, k: nat): (r: nat)
    requires i <= k <= |ms|
    ensures i <= r <= k
    ensures r < k ==> ms[r].Some?
    ensures forall j | i <= j < r :: ms[j].None?
    decreases k - i
  {
    if i == k then k else if ms[i].Some? then i else NextBoundary(ms, i + 1, k)
  }

  /** The last index before `k` matched to code `c`. */
  function LastStart(ms: seq<Option<string>>, c: string, k: nat): (r: Option<nat>)
    requires k <= |ms|
    ensures r.Some? ==> r.value < k && ms[r.value] == Some(c)
    ensures r.Some? ==> forall j | r.value < j < k :: ms[j] != Some(c)
    ensures r.None? ==> forall j | 0 <= j < k :: ms[j] != Some(c)
  {
    if k == 0 then None
    else if ms[k - 1] == Some(c) then Some(k - 1)
    else LastStart(ms, c, k - 1)
  }

  /** The last matched index before `k`. */
  function LastBoundary(ms: seq<Option<string>>, k: nat): (r: Option<nat>)
    requires k <= |ms|
    ensures r.Some? ==> r.value < k && ms[r.value].Some?
    ensures r.Some? ==> forall j | r.value < j < k :: ms[j].None?
    ensures r.None? ==> forall j | 0 <= j < k :: ms[j].None?
  {
    if k == 0 then None
    else if ms[k - 1].Some? then Some(k - 1)
    else LastBoundary(ms, k - 1)
  }

  /** The code of the open block after the first `k` lines, `""` when none is open. */
  function Cursor(ms: seq<Option<string>>, k: nat): string
    requires k <= |ms|
  {
    var b := LastBoundary(ms, k);
    if b.Some? then ms[b.value].value else ""
  }

  /** The codes that own a block after the first `k` lines. */
  function Codes(ms: seq<Option<string>>, k: nat): set<string>
    requires k <= |ms|
  {
    set i | 0 <= i < k && ms[i].Some? && ms[i].value != "" :: ms[i].value
  }

  /** The block of code `c`: its last matched line and the unmatched lines after
      it, up to the next matched line or line `k`. */
  function Block(lines: seq<string>, ms: seq<Option<string>>, c: string, k: nat): seq<string>
    requires |lines| == |ms| && k <= |ms|
    requires LastStart(ms, c, k).Some?
  {
    var s := LastStart(ms, c, k).value;
    lines[s..NextBoundary(ms, s + 1, k)]
  }

  /** The blocks of every code, after the first `k` lines. */
  function BlocksOf(lines: seq<string>, ms: seq<Option<string>>, k: nat): map<string, seq<string>>
    requires |lines| == |ms| && k <= |ms|
  {
    map c | c in Codes(ms, k) :: Block(lines, ms, c, k)
  }

  // ---------------------------------------------------------------------------
  // The walk

  /** The state of the walk: the blocks stored so far, the code of the open
      block (`""` when none is open) and the lines collected for it. */
  datatype Walk = Walk(result: Blocks, cur: string, content: seq<string>)

  /** Stores the open block, if any. */
  function Seal(result: Blocks, cur: string, content: seq<string>): Blocks {
    if cur != "" then Dict.Put(result, cur, content) else result
  }

  /** The loop body: `m` is what the matcher gives for `line`. */
  function Step(w: Walk, line: string, m: Option<string>): Walk {
    if m.Some? then Walk(Seal(w.result, w.cur, w.content), m.value, [line])
    else if w.cur != "" then w.(content := w.content + [line])
    else w
  }

  /** After the first `k` lines the walk has the open code and the lines of the
      open block right, and storing the open block gives the blocks so far. */
  predicate Inv(lines: seq<string>, ms: seq<Option<string>>, k: nat, w: Walk)
    requires |lines| == |ms| && k <= |ms|
  {
    && w.cur == Cursor(ms, k)
    && (w.cur != "" ==> LastBoundary(ms, k).Some? && w.content == lines[LastBoundary(ms, k).value..k])
    && Dict.ToMap(Seal(w.result, w.cur, w.content)) == BlocksOf(lines, ms, k)
    && Dict.UniqueKeys(w.result)
  }

  /** The walk over lines whose matches are `ms`. */
  method SplitBlocks(lines: seq<string>, ms: seq<Option<string>>) returns (result: Blocks)
    requires |lines| == |ms|
    ensures Dict.ToMap(result) == BlocksOf(lines, ms, |ms|)
    ensures Dict.UniqueKeys(result)
  {
    var w := Walk([], "", []);
    InvStart(lines, ms);
    var k := 0;
    while k < |lines|
      invariant 0 <= k <= |lines|
      invariant Inv(lines, ms, k, w)
    {
      StepKeepsInv(lines, ms, k, w);
      w := Step(w, lines[k], ms[k]);
      k := k + 1;
    }
    InvDone(lines, ms, w);
    result := Seal(w.result, w.cur, w.content);
  }

  lemma InvStart(lines: seq<string>, ms: seq<Option<string>>)
    requires |lines| == |ms|
    ensures Inv(lines, ms, 0, Walk([], "", []))
  {
    assert Codes(ms, 0) == {};
  }

  lemma InvDone(lines: seq<string>, ms: seq<Option<string>>, w: Walk)
    requires |lines| == |ms| && Inv(lines, ms, |ms|, w)
    ensures Dict.ToMap(Seal(w.result, w.cur, w.content)) == BlocksOf(lines, ms, |ms|)
    ensures Dict.UniqueKeys(Seal(w.result, w.cur, w.content))
  {
    SealUnique(w.result, w.cur, w.content);
  }

  lemma SealPut(result: Blocks, cur: string, content: seq<string>)
    ensures Dict.ToMap(Seal(result, cur, content)) ==
              if cur != "" then Dict.ToMap(result)[cur := content] else Dict.ToMap(result)
  {
    if cur != "" {
      Dict.ToMapPut(result, cur, content);
    }
  }

  lemma SealUnique(result: Blocks, cur: string, content: seq<string>)
    requires Dict.UniqueKeys(result)
    ensures Dict.UniqueKeys(Seal(result, cur, content))
  {
    if cur != "" {
      Dict.PutUnique(result, cur, content);
    }
  }

  /** One pass of the loop body keeps the invariant. */
  lemma StepKeepsInv(lines: seq<string>, ms: seq<Option<string>>, k: nat, w: Walk)
    requires |lines| == |ms| && k < |ms|
    requires Inv(lines, ms, k, w)
    ensures Inv(lines, ms, k + 1, Step(w, lines[k], ms[k]))
  {
    if ms[k].Some? {
      BoundaryKeepsInv(lines, ms, k, w);
    } else {
      NonBoundaryKeepsInv(lines, ms, k, w);
    }
  }

  lemma BoundaryKeepsInv(lines: seq<string>, ms: seq<Option<string>>, k: nat, w: Walk)
    requires |lines| == |ms| && k < |ms| && ms[k].Some?
    requires Inv(lines, ms, k, w)
    ensures Inv(lines, ms, k + 1, Step(w, lines[k], ms[k]))
  {
    var c := ms[k].value;
    var r := Seal(w.result, w.cur, w.content);
    SealUnique(w.result, w.cur, w.content);
    SealPut(r, c, [lines[k]]);
    BoundaryStep(lines, ms, k);
    assert LastBoundary(ms, k + 1) == Some(k);
    assert lines[k..k + 1] == [lines[k]];
  }

  lemma NonBoundaryKeepsInv(lines: seq<string>, ms: seq<Option<string>>, k: nat, w: Walk)
    requires |lines| == |ms| && k < |ms| && ms[k].None?
    requires Inv(lines, ms, k, w)
    ensures Inv(lines, ms, k + 1, Step(w, lines[k], ms[k]))
  {
    CursorKept(ms, k);
    if w.cur != "" {
      var lb := LastBoundary(ms, k).value;
      OpenBlockStep(lines, ms, k);
      SealPut(w.result, w.cur, w.content);
      SealPut(w.result, w.cur, w.content + [lines[k]]);
      assert lines[lb..k + 1] == w.content + [lines[k]];
    } else {
      NoOpenBlockStep(lines, ms, k);
    }
  }

  // ---------------------------------------------------------------------------
  // One step of the walk, on the specification side

  lemma {:induction false} NextBoundaryExtend(ms: seq<Option<string>>, i: nat, k: nat)
    requires i <= k < |ms|
    ensures NextBoundary(ms, i, k + 1) ==
              if NextBoundary(ms, i, k) < k then NextBoundary(ms, i, k)
              else if ms[k].Some? then k else k + 1
    decreases k - i
  {
    if i < k && ms[i].None? {
      NextBoundaryExtend(ms, i + 1, k);
    }
  }

  /** A matched line opens a block of its own and leaves the other blocks as
      they were. */
  lemma {:induction false} BoundaryStep(lines: seq<string>, ms: seq<Option<string>>, k: nat)
    requires |lines| == |ms| && k < |ms| && ms[k].Some?
    ensures BlocksOf(lines, ms, k + 1) ==
              if ms[k].value != "" then BlocksOf(lines, ms, k)[ms[k].value := [lines[k]]]
              else BlocksOf(lines, ms, k)
  {
    var c' := ms[k].value;
    var a := BlocksOf(lines, ms, k + 1);
    var b := BlocksOf(lines, ms, k);
    var e := if c' != "" then b[c' := [lines[k]]] else b;
    assert a.Keys == e.Keys by {
      CodesStep(ms, k);
      BlocksKeys(lines, ms, k);
      BlocksKeys(lines, ms, k + 1);
    }
    forall c | c in a ensures a[c] == e[c] {
      if c == c' {
        NewBlockAt(lines, ms, k);
      } else {
        BlockKeptPast(lines, ms, k, c);
      }
    }
    SameMap(a, e);
  }

  /** A matched line starts the block of its code, one line long so far. */
  lemma {:induction false} NewBlockAt(lines: seq<string>, ms: seq<Option<string>>, k: nat)
    requires |lines| == |ms| && k < |ms| && ms[k].Some?
    ensures LastStart(ms, ms[k].value, k + 1) == Some(k)
    ensures Block(lines, ms, ms[k].value, k + 1) == [lines[k]]
  {
    assert NextBoundary(ms, k + 1, k + 1) == k + 1;
    assert lines[k..k + 1] == [lines[k]];
  }

  /** A matched line leaves the block of every other code as it was. */
  lemma {:induction false} BlockKeptPast(lines: seq<string>, ms: seq<Option<string>>, k: nat, c: string)
    requires |lines| == |ms| && k < |ms| && ms[k].Some?
    requires c != ms[k].value && c in Codes(ms, k)
    ensures LastStart(ms, c, k).Some? && LastStart(ms, c, k + 1) == LastStart(ms, c, k)
    ensures Block(lines, ms, c, k + 1) == Block(lines, ms, c, k)
  {
    CodeOwnsBlock(ms, c, k);
    var s := LastStart(ms, c, k).value;
    assert LastStart(ms, c, k + 1) == LastStart(ms, c, k);
    NextBoundaryExtend(ms, s + 1, k);
  }

  /** An unmatched line leaves the open code where it was. */
  lemma CursorKept(ms: seq<Option<string>>, k: nat)
    requires k < |ms| && ms[k].None?
    ensures LastBoundary(ms, k + 1) == LastBoundary(ms, k)
    ensures Cursor(ms, k + 1) == Cursor(ms, k)
  {
  }

  /** An unmatched line joins the open block and changes no other block. */
  lemma {:induction false} OpenBlockStep(lines: seq<string>, ms: seq<Option<string>>, k: nat)
    requires |lines| == |ms| && k < |ms| && ms[k].None?
    requires Cursor(ms, k) != ""
    ensures LastBoundary(ms, k).Some?
    ensures BlocksOf(lines, ms, k + 1) ==
              BlocksOf(lines, ms, k)[Cursor(ms, k) := lines[LastBoundary(ms, k).value..k + 1]]
  {
    var cur := Cursor(ms, k);
    var lb := LastBoundary(ms, k).value;
    var a := BlocksOf(lines, ms, k + 1);
    var e := BlocksOf(lines, ms, k)[cur := lines[lb..k + 1]];
    assert a.Keys == e.Keys by {
      OpenCodeListed(ms, k);
      CodesKept(ms, k);
      BlocksKeys(lines, ms, k);
      BlocksKeys(lines, ms, k + 1);
    }
    forall c | c in a ensures a[c] == e[c] {
      if c == cur {
        OpenBlockGrows(lines, ms, k);
      } else {
        BlockKeptAt(lines, ms, k, c);
      }
    }
    SameMap(a, e);
  }

  /** The open code owns a block. */
  lemma OpenCodeListed(ms: seq<Option<string>>, k: nat)
    requires k <= |ms| && Cursor(ms, k) != ""
    ensures LastBoundary(ms, k).Some? && Cursor(ms, k) in Codes(ms, k)
  {
    var lb := LastBoundary(ms, k).value;
    assert ms[lb].Some? && ms[lb].value == Cursor(ms, k);
  }

  lemma SameMap<K, V>(a: map<K, V>, b: map<K, V>)
    requires a.Keys == b.Keys
    requires forall x | x in a :: a[x] == b[x]
    ensures a == b
  {
  }

  lemma BlocksKeys(lines: seq<string>, ms: seq<Option<string>>, k: nat)
    requires |lines| == |ms| && k <= |ms|
    ensures BlocksOf(lines, ms, k).Keys == Codes(ms, k)
  {
  }

  /** An unmatched line with no block open changes no block. */
  lemma {:induction false} NoOpenBlockStep(lines: seq<string>, ms: seq<Option<string>>, k: nat)
    requires |lines| == |ms| && k < |ms| && ms[k].None?
    requires Cursor(ms, k) == ""
    ensures BlocksOf(lines, ms, k + 1) == BlocksOf(lines, ms, k)
  {
    var a := BlocksOf(lines, ms, k + 1);
    var b := BlocksOf(lines, ms, k);
    CodesKept(ms, k);
    BlocksKeys(lines, ms, k);
    BlocksKeys(lines, ms, k + 1);
    forall c | c in a ensures a[c] == b[c] {
      BlockKeptAt(lines, ms, k, c);
    }
    SameMap(a, b);
  }

  /** An unmatched line leaves the block of every code but the open one as it was. */
  lemma BlockKeptAt(lines: seq<string>, ms: seq<Option<string>>, k: nat, c: string)
    requires |lines| == |ms| && k < |ms| && ms[k].None?
    requires c != Cursor(ms, k) && c in Codes(ms, k)
    ensures c in BlocksOf(lines, ms, k + 1) && c in BlocksOf(lines, ms, k)
    ensures BlocksOf(lines, ms, k + 1)[c] == BlocksOf(lines, ms, k)[c]
  {
    CodesKept(ms, k);
    CodeOwnsBlock(ms, c, k);
    OtherBlockKept(lines, ms, k, c);
  }

  /** An unmatched line is added to the block of the open code. */
  lemma {:induction false} OpenBlockGrows(lines: seq<string>, ms: seq<Option<string>>, k: nat)
    requires |lines| == |ms| && k < |ms| && ms[k].None?
    requires Cursor(ms, k) != ""
    ensures LastStart(ms, Cursor(ms, k), k + 1).Some?
    ensures Block(lines, ms, Cursor(ms, k), k + 1) == lines[LastBoundary(ms, k).value..k + 1]
  {
    var cur := Cursor(ms, k);
    var lb := LastBoundary(ms, k).value;
    assert LastStart(ms, cur, k + 1) == LastStart(ms, cur, k);
    var s := LastStart(ms, cur, k).value;
    assert s == lb;
    NextBoundaryExtend(ms, s + 1, k);
  }

  /** An unmatched line leaves the blocks of the other codes as they were. */
  lemma {:induction false} OtherBlockKept(lines: seq<string>, ms: seq<Option<string>>, k: nat, c: string)
    requires |lines| == |ms| && k < |ms| && ms[k].None?
    requires c != Cursor(ms, k) && LastStart(ms, c, k).Some?
    ensures LastStart(ms, c, k + 1).Some?
    ensures Block(lines, ms, c, k + 1) == Block(lines, ms, c, k)
  {
    assert LastStart(ms, c, k + 1) == LastStart(ms, c, k);
    var s := LastStart(ms, c, k).value;
    var lb := LastBoundary(ms, k).value;
    assert s < lb;
    NextBoundaryExtend(ms, s + 1, k);
  }

  /** A code owns a block once it has been matched. */
  lemma CodeOwnsBlock(ms: seq<Option<string>>, c: string, k: nat)
    requires k <= |ms| && c in Codes(ms, k)
    ensures c != "" && LastStart(ms, c, k).Some?
  {
    var i :| 0 <= i < k && ms[i].Some? && ms[i].value != "" && ms[i].value == c;
    assert ms[i] == Some(c);
  }

  lemma CodesKept(ms: seq<Option<string>>, k: nat)
    requires k < |ms| && ms[k].None?
    ensures Codes(ms, k + 1) == Codes(ms, k)
  {
    CodesStep(ms, k);
  }

  lemma {:induction false} CodesStep(ms: seq<Option<string>>, k: nat)
    requires k < |ms|
    ensures Codes(ms, k + 1) ==
              Codes(ms, k) + (if ms[k].Some? && ms[k].value != "" then {ms[k].value} else {})
  {
    var extra := if ms[k].Some? && ms[k].value != "" then {ms[k].value} else {};
    forall c | c in Codes(ms, k + 1) ensures c in Codes(ms, k) + extra {
      var i :| 0 <= i < k + 1 && ms[i].Some? && ms[i].value != "" && ms[i].value == c;
      if i < k {
        assert c in Codes(ms, k);
      }
    }
    forall c | c in Codes(ms, k) + extra ensures c in Codes(ms, k + 1) {
      if c in Codes(ms, k) {
        var i :| 0 <= i < k && ms[i].Some? && ms[i].value != "" && ms[i].value == c;
        assert ms[i].value in Codes(ms, k + 1);
      } else {
        assert ms[k].value in Codes(ms, k + 1);
      }
    }
  }

  // ---------------------------------------------------------------------------
  // The splitter proper

  /** The code the matcher gives each line. */
  function MatchCodes(lines: seq<string>, exact: Matcher.Table, norm: Matcher.Table): (r: seq<Option<string>>)
    ensures |r| == |lines|
  {
    if |lines| == 0 then []
    else
      var m := Matcher.FindMatching(lines[0], exact, norm);
      [if m.Some? then Some(m.value.code) else None] + MatchCodes(lines[1..], exact, norm)
  }

  /** `split_markdown_content`: the document's lines as `splitlines()` gives them,
      cut into blocks per matched code. */
  method SplitMarkdownContent(content: string, regs: seq<Catalog.Entry>) returns (result: Blocks)
    ensures Dict.UniqueKeys(result)
    ensures Dict.ToMap(result) ==
              BlocksOf(SplitLines(content), MatchCodes(SplitLines(content), Matcher.ExactMap(regs), Matcher.NormMap(regs)),
                       |SplitLines(content)|)
  {
    var lines := SplitLines(content);
    var ms := MatchCodes(lines, Matcher.ExactMap(regs), Matcher.NormMap(regs));
    result := SplitBlocks(lines, ms);
  }

  // ---------------------------------------------------------------------------
  // Properties of the blocks

  /** A document in which no line matches yields no block. */
  lemma {:induction false} NoMatchNoBlocks(lines: seq<string>, ms: seq<Option<string>>)
    requires |lines| == |ms|
    requires forall i | 0 <= i < |ms| :: ms[i].None?
    ensures BlocksOf(lines, ms, |ms|) == map[]
  {
    assert Codes(ms, |ms|) == {};
  }

  /** Each block starts with a line matched to its code, verbatim, and goes on with
      exactly the unmatched lines after it, in order, up to the next matched line
      or the end of the document. */
  lemma {:induction false} BlockShape(lines: seq<string>, ms: seq<Option<string>>, c: string)
    requires |lines| == |ms|
    requires c in BlocksOf(lines, ms, |ms|)
    ensures exists s, e | 0 <= s < e <= |ms| ::
              ms[s] == Some(c) && c != ""
              && BlocksOf(lines, ms, |ms|)[c] == lines[s..e]
              && (forall j | s < j < e :: ms[j].None?)
              && (e == |ms| || ms[e].Some?)
  {
    var s := LastStart(ms, c, |ms|).value;
    var e := NextBoundary(ms, s + 1, |ms|);
    assert c in Codes(ms, |ms|);
    assert BlocksOf(lines, ms, |ms|)[c] == lines[s..e];
  }

  /** When a code is matched more than once, its block is the one that follows
      its last match. */
  lemma {:induction false} LastMatchWins(lines: seq<string>, ms: seq<Option<string>>, c: string, i: nat)
    requires |lines| == |ms| && i < |ms|
    requires ms[i] == Some(c) && c != ""
    requires forall j | i < j < |ms| :: ms[j] != Some(c)
    ensures c in BlocksOf(lines, ms, |ms|)
    ensures BlocksOf(lines, ms, |ms|)[c] == lines[i..NextBoundary(ms, i + 1, |ms|)]
  {
    assert c in Codes(ms, |ms|);
    assert LastStart(ms, c, |ms|) == Some(i);
  }

  /** Lines before the first matched line belong to no block. */
  lemma {:induction false} PreambleDropped(lines: seq<string>, ms: seq<Option<string>>, f: nat, c: string)
    requires |lines| == |ms| && f <= |ms|
    requires forall j | 0 <= j < f :: ms[j].None?
    requires c in BlocksOf(lines, ms, |ms|)
    ensures LastStart(ms, c, |ms|).Some? && LastStart(ms, c, |ms|).value >= f
  {
    assert c in Codes(ms, |ms|);
  }
}
