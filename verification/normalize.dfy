/**
 Title normalization: the comparison key every title match is made on.

 Two character sets are in use. `scripts/smart_update.py`, `scripts/process_regulation.py`
 and `scripts/regenerate_regulations_db.py` remove `[\s\.\·\-]`; the splitter in
 `scripts/split_and_update.py` also removes `()[]:` and the full-width colon.
 Both then lower-case what is left.
 */
module Normalize {
  import opened Text

  datatype Charset = BasicSet | RichSet

  /** A character the normalizer with charset `cs` removes. */
  predicate Dropped(cs: Charset, c: char) {
    || IsSpace(c) || c == '.' || c == '\U{B7}' || c == '-'
    || (cs == RichSet && (c == '(' || c == ')' || c == '[' || c == ']' || c == ':' || c == '\U{FF1A}'))
  }

  /** `re.sub(charset, '', s)`: the characters of `s` that `cs` keeps, in order. */
  function Keep(cs: Charset, s: string): (r: string)
    ensures |r| <= |s|
    ensures forall i | 0 <= i < |r| :: !Dropped(cs, r[i])
  {
    if |s| == 0 then []
    else (if Dropped(cs, s[0]) then [] else [s[0]]) + Keep(cs, s[1..])
  }

  /** Removing and then lower-casing. */
  function NormalizeWith(cs: Charset, s: string): (r: string)
    ensures |r| <= |s|
    ensures forall i | 0 <= i < |r| :: !Dropped(cs, r[i])
  {
    var k := Keep(cs, s);
    var r := Lower(k);
    assert forall i | 0 <= i < |r| :: !Dropped(cs, r[i]) by {
      forall i | 0 <= i < |r| ensures !Dropped(cs, r[i]) {
        assert r[i] == LowerChar(k[i]);
      }
    }
    r
  }

  /** `normalize_title` of smart_update.py, process_regulation.py and
      regenerate_regulations_db.py: removes `[\s\.\·\-]`, then lower-cases. */
  function Basic(s: string): string {
    NormalizeWith(BasicSet, s)
  }

  /** `normalize_title` of split_and_update.py: also removes `()[]:：`. */
  function Rich(s: string): string {
    NormalizeWith(RichSet, s)
  }

  lemma {:induction false} KeepNothingDropped(cs: Charset, s: string)
    requires forall i | 0 <= i < |s| :: !Dropped(cs, s[i])
    ensures Keep(cs, s) == s
  {
    if |s| > 0 {
      KeepNothingDropped(cs, s[1..]);
      assert s == [s[0]] + s[1..];
    }
  }

  lemma {:induction false} LowerIdempotent(s: string)
    ensures Lower(Lower(s)) == Lower(s)
  {
    var l := Lower(s);
    assert forall i | 0 <= i < |l| :: LowerChar(l[i]) == l[i];
  }

  /** Normalizing an already normalized title changes nothing. */
  lemma {:induction false} NormalizeIdempotent(cs: Charset, s: string)
    ensures NormalizeWith(cs, NormalizeWith(cs, s)) == NormalizeWith(cs, s)
  {
    var n := NormalizeWith(cs, s);
    KeepNothingDropped(cs, n);
    LowerIdempotent(Keep(cs, s));
  }

  lemma {:induction false} KeepAppend(cs: Charset, a: string, b: string)
    ensures Keep(cs, a + b) == Keep(cs, a) + Keep(cs, b)
  {
    if |a| > 0 {
      KeepAppend(cs, a[1..], b);
      assert (a + b)[1..] == a[1..] + b;
    } else {
      assert a + b == b;
    }
  }

  /** Normalization works piece by piece: a title is normalized by normalizing
      its parts. */
  lemma {:induction false} NormalizeAppend(cs: Charset, a: string, b: string)
    ensures NormalizeWith(cs, a + b) == NormalizeWith(cs, a) + NormalizeWith(cs, b)
  {
    KeepAppend(cs, a, b);
    LowerAppend(Keep(cs, a), Keep(cs, b));
  }

  /** Lower-casing neither creates nor removes a character of either set. */
  lemma LowerCharDropped(cs: Charset, c: char)
    ensures Dropped(cs, LowerChar(c)) <==> Dropped(cs, c)
  {
  }

  lemma {:induction false} KeepLower(cs: Charset, s: string)
    ensures Keep(cs, Lower(s)) == Lower(Keep(cs, s))
  {
    if |s| > 0 {
      LowerCharDropped(cs, s[0]);
      KeepLower(cs, s[1..]);
      assert Lower(s)[1..] == Lower(s[1..]);
    }
  }

  lemma {:induction false} KeepBasicThenRich(s: string)
    ensures Keep(RichSet, Keep(BasicSet, s)) == Keep(RichSet, s)
  {
    if |s| > 0 {
      KeepBasicThenRich(s[1..]);
      var h := if Dropped(BasicSet, s[0]) then [] else [s[0]];
      assert Keep(BasicSet, s) == h + Keep(BasicSet, s[1..]);
      KeepAppend(RichSet, h, Keep(BasicSet, s[1..]));
      assert Keep(RichSet, h) == if Dropped(RichSet, s[0]) then [] else [s[0]];
    }
  }

  /** The splitter's key refines the basic key: normalizing a basic key with the
      richer set gives the richer key of the original title. So titles with equal
      basic keys also have equal splitter keys. */
  lemma {:induction false} RichOfBasic(s: string)
    ensures Rich(Basic(s)) == Rich(s)
  {
    KeepLower(RichSet, Keep(BasicSet, s));
    KeepBasicThenRich(s);
    LowerIdempotent(Keep(RichSet, s));
  }

  /** A character of a removed class never survives, wherever it stands. */
  lemma {:induction false} DroppedNotKept(cs: Charset, s: string, c: char)
    requires Dropped(cs, c)
    ensures c !in NormalizeWith(cs, s)
  {
  }
}
