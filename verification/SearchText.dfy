/** The text operations of the search page: white-space removal, character filter, splitting. */
module SearchText {
  import opened JsString

  const PERIOD: CodeUnit := 46

  /** The class `\s` of ECMAScript regular expressions. */
  predicate IsSpace(c: CodeUnit) {
    9 <= c <= 13 || c == 32 || c == 160 || c == 5760 || 8192 <= c <= 8202
    || c == 8232 || c == 8233 || c == 8239 || c == 8287 || c == 12288 || c == 65279
  }

  lemma SpacesAre(c: CodeUnit)
    ensures IsSpace(c) <==>
              c in {9, 10, 11, 12, 13, 32, 160, 5760, 8232, 8233, 8239, 8287, 12288, 65279} || 8192 <= c <= 8202
  {
  }

  // ---------- White-space removal ----------

  function TrimLeft(s: Str): Str {
    if s != [] && IsSpace(s[0]) then TrimLeft(s[1..]) else s
  }

  function TrimRight(s: Str): Str {
    if s != [] && IsSpace(s[|s| - 1]) then TrimRight(s[..|s| - 1]) else s
  }

  /** Rewrites the leftmost pair of white-space units to one blank until none is left. */
  function Collapse(s: Str): Str
    decreases |s|
  {
    if |s| < 2 then s
    else if IsSpace(s[0]) && IsSpace(s[1]) then Collapse([BLANK] + s[2..])
    else [s[0]] + Collapse(s[1..])
  }

  function Squeeze(s: Str): Str {
    Collapse(TrimRight(TrimLeft(s)))
  }

  predicate HasPairAt(s: Str, k: int) {
    0 <= k && k + 1 < |s| && IsSpace(s[k]) && IsSpace(s[k + 1])
  }

  /** `s.search(/\s\s/)`: the first pair of white-space units, or -1. */
  function FirstPair(s: Str, from: nat): (k: int)
    ensures k == -1 ==> forall j :: from <= j ==> !HasPairAt(s, j)
    ensures k != -1 ==> from <= k && HasPairAt(s, k) && forall j :: from <= j < k ==> !HasPairAt(s, j)
    decreases |s| - from
  {
    if from + 1 >= |s| then -1 else if HasPairAt(s, from) then from else FirstPair(s, from + 1)
  }

  lemma {:induction false} CollapseFirstPair(s: Str, k: nat)
    requires HasPairAt(s, k) && forall j :: 0 <= j < k ==> !HasPairAt(s, j)
    ensures Collapse(s[..k] + [BLANK] + s[k + 2..]) == Collapse(s)
  {
    var t := s[..k] + [BLANK] + s[k + 2..];
    if k == 0 {
      assert t == [BLANK] + s[2..];
    } else {
      assert !HasPairAt(s, 0);
      assert forall j :: HasPairAt(s[1..], j) ==> HasPairAt(s, j + 1);
      CollapseFirstPair(s[1..], k - 1);
      assert t[1..] == s[1..][..k - 1] + [BLANK] + s[1..][k - 1 + 2..];
      assert IsSpace(t[1]) == IsSpace(s[1]);
    }
  }

  lemma {:induction false} CollapseNoPair(s: Str)
    requires forall j :: 0 <= j ==> !HasPairAt(s, j)
    ensures Collapse(s) == s
  {
    if |s| >= 2 {
      assert !HasPairAt(s, 0);
      assert forall j :: HasPairAt(s[1..], j) ==> HasPairAt(s, j + 1);
      CollapseNoPair(s[1..]);
    }
  }

  /** No white space at either end and none next to another. */
  ghost predicate Tidy(s: Str) {
    && (s != [] ==> !IsSpace(s[0]) && !IsSpace(s[|s| - 1]))
    && forall j :: 0 <= j ==> !HasPairAt(s, j)
  }

  lemma {:induction false} CollapseShape(s: Str)
    ensures s != [] ==> Collapse(s) != [] && IsSpace(Collapse(s)[0]) == IsSpace(s[0])
    ensures s != [] ==> IsSpace(Collapse(s)[|Collapse(s)| - 1]) == IsSpace(s[|s| - 1])
    ensures forall j :: 0 <= j ==> !HasPairAt(Collapse(s), j)
    decreases |s|
  {
    if |s| >= 2 {
      if IsSpace(s[0]) && IsSpace(s[1]) {
        CollapseShape([BLANK] + s[2..]);
      } else {
        CollapseShape(s[1..]);
        var r := Collapse(s[1..]);
        var c := [s[0]] + r;
        assert Collapse(s) == c && c[|c| - 1] == r[|r| - 1];
        assert forall j :: 1 <= j && HasPairAt(c, j) ==> HasPairAt(r, j - 1);
      }
    }
  }

  lemma {:induction false} TrimRightShape(s: Str)
    ensures TrimRight(s) != [] ==> !IsSpace(TrimRight(s)[|TrimRight(s)| - 1]) && s != [] && TrimRight(s)[0] == s[0]
    decreases |s|
  {
    if s != [] && IsSpace(s[|s| - 1]) { TrimRightShape(s[..|s| - 1]); }
  }

  lemma {:induction false} TrimLeftShape(s: Str)
    ensures TrimLeft(s) != [] ==> !IsSpace(TrimLeft(s)[0])
  {
    if s != [] && IsSpace(s[0]) { TrimLeftShape(s[1..]); }
  }

  lemma SqueezeIsTidy(s: Str)
    ensures Tidy(Squeeze(s))
  {
    TrimLeftShape(s);
    TrimRightShape(TrimLeft(s));
    CollapseShape(TrimRight(TrimLeft(s)));
  }

  lemma TidyIsSqueezed(s: Str)
    requires Tidy(s)
    ensures Squeeze(s) == s
  {
    CollapseNoPair(s);
  }

  lemma SqueezeIdempotent(s: Str)
    ensures Squeeze(Squeeze(s)) == Squeeze(s)
  {
    SqueezeIsTidy(s);
    TidyIsSqueezed(Squeeze(s));
  }

  // ---------- Words ----------

  datatype Separator = AnySpace | BlankOnly

  predicate Separates(sep: Separator, c: CodeUnit) {
    match sep
    case AnySpace => IsSpace(c)
    case BlankOnly => c == BLANK
  }

  predicate StartsWord(sep: Separator, s: Str) {
    s != [] && !Separates(sep, s[0])
  }

  /** The maximal runs of units that do not separate words, in order. */
  function Words(sep: Separator, s: Str): (ws: seq<Str>)
    ensures StartsWord(sep, s) ==> ws != []
  {
    if s == [] then []
    else
      var rest := Words(sep, s[1..]);
      if Separates(sep, s[0]) then rest
      else if StartsWord(sep, s[1..]) then [[s[0]] + rest[0]] + rest[1..]
      else [[s[0]]] + rest
  }

  lemma {:induction false} WordsTrimLeft(s: Str)
    ensures Words(AnySpace, TrimLeft(s)) == Words(AnySpace, s)
  {
    if s != [] && IsSpace(s[0]) { WordsTrimLeft(s[1..]); }
  }

  lemma {:induction false} WordsDropSpace(sep: Separator, s: Str, c: CodeUnit)
    requires Separates(sep, c)
    ensures Words(sep, s + [c]) == Words(sep, s)
  {
    if s == [] {
      assert (s + [c])[1..] == [];
    } else {
      WordsDropSpace(sep, s[1..], c);
      assert (s + [c])[1..] == s[1..] + [c];
    }
  }

  lemma {:induction false} WordsTrimRight(s: Str)
    ensures Words(AnySpace, TrimRight(s)) == Words(AnySpace, s)
    decreases |s|
  {
    if s != [] && IsSpace(s[|s| - 1]) {
      WordsTrimRight(s[..|s| - 1]);
      WordsDropSpace(AnySpace, s[..|s| - 1], s[|s| - 1]);
      assert s == s[..|s| - 1] + [s[|s| - 1]];
    }
  }

  lemma {:induction false} WordsCollapse(s: Str)
    ensures Words(AnySpace, Collapse(s)) == Words(AnySpace, s)
    decreases |s|
  {
    CollapseShape(s);
    if |s| >= 2 {
      if IsSpace(s[0]) && IsSpace(s[1]) {
        var t := [BLANK] + s[2..];
        WordsCollapse(t);
        assert t[1..] == s[2..] == s[1..][1..];
      } else {
        CollapseShape(s[1..]);
        WordsCollapse(s[1..]);
        assert ([s[0]] + Collapse(s[1..]))[1..] == Collapse(s[1..]);
      }
    }
  }

  /** White-space removal keeps the words. */
  lemma SqueezeKeepsWords(s: Str)
    ensures Words(AnySpace, Squeeze(s)) == Words(AnySpace, s)
  {
    WordsTrimLeft(s);
    WordsTrimRight(TrimLeft(s));
    WordsCollapse(TrimRight(TrimLeft(s)));
  }

  /** No word is empty, and a word's units are units of the text that do not separate. */
  lemma {:induction false} WordUnits(sep: Separator, s: Str)
    ensures forall w :: w in Words(sep, s) ==> w != [] && forall c :: c in w ==> c in s && !Separates(sep, c)
  {
    if s != [] {
      WordUnits(sep, s[1..]);
      var rest := Words(sep, s[1..]);
      if rest != [] { assert rest[0] in rest; }
      forall w | w in Words(sep, s) ensures w != [] && forall c :: c in w ==> c in s && !Separates(sep, c) {
        if w !in rest {
          if StartsWord(sep, s[1..]) { assert w == [s[0]] + rest[0]; } else { assert w == [s[0]]; }
        }
      }
    }
  }

  lemma {:induction false} WordsAcrossBlank(a: Str, b: Str)
    ensures Words(AnySpace, a + [32] + b) == Words(AnySpace, a) + Words(AnySpace, b)
  {
    var s := a + [32] + b;
    if |a| == 0 {
      assert s[0] == 32 && s[1..] == b;
    } else {
      WordsAcrossBlank(a[1..], b);
      assert s[0] == a[0] && s[1..] == a[1..] + [32] + b;
      assert |a| > 1 ==> s[1..][0] == a[1];
    }
  }

  /** Text whose only white space is the blank has the same words either way. */
  ghost predicate BlanksOnly(s: Str) {
    forall c :: c in s && IsSpace(c) ==> c == BLANK
  }

  lemma {:induction false} WordsAgree(s: Str)
    requires BlanksOnly(s)
    ensures Words(AnySpace, s) == Words(BlankOnly, s)
  {
    if s != [] {
      WordsAgree(s[1..]);
      assert s[0] in s;
      if |s| > 1 { assert s[1] in s; }
    }
  }

  lemma {:induction false} CollapseUnits(s: Str)
    ensures forall c :: c in Collapse(s) ==> c in s || c == BLANK
    decreases |s|
  {
    if |s| >= 2 {
      if IsSpace(s[0]) && IsSpace(s[1]) { CollapseUnits([BLANK] + s[2..]); } else { CollapseUnits(s[1..]); }
    }
  }

  lemma {:induction false} TrimLeftUnits(s: Str)
    ensures forall c :: c in TrimLeft(s) ==> c in s
  {
    if s != [] && IsSpace(s[0]) { TrimLeftUnits(s[1..]); }
  }

  lemma {:induction false} TrimRightUnits(s: Str)
    ensures forall c :: c in TrimRight(s) ==> c in s
    decreases |s|
  {
    if s != [] && IsSpace(s[|s| - 1]) { TrimRightUnits(s[..|s| - 1]); }
  }

  lemma SqueezeUnits(s: Str)
    ensures forall c :: c in Squeeze(s) ==> c in s || c == BLANK
  {
    TrimLeftUnits(s);
    TrimRightUnits(TrimLeft(s));
    CollapseUnits(TrimRight(TrimLeft(s)));
  }

  // ---------- split(" ") ----------

  function Split(s: Str): (pieces: seq<Str>)
    ensures pieces != []
  {
    if s == [] then [[]]
    else if s[0] == BLANK then [[]] + Split(s[1..])
    else var rest := Split(s[1..]); [[s[0]] + rest[0]] + rest[1..]
  }

  function NonEmpty(pieces: seq<Str>): seq<Str> {
    if pieces == [] then [] else (if pieces[0] == [] then [] else [pieces[0]]) + NonEmpty(pieces[1..])
  }

  lemma {:induction false} NonEmptyAppend(pieces: seq<Str>, p: Str)
    ensures NonEmpty(pieces + [p]) == NonEmpty(pieces) + (if p == [] then [] else [p])
  {
    var more := pieces + [p];
    if |pieces| == 0 {
      assert more[0] == p && more[1..] == pieces;
    } else {
      NonEmptyAppend(pieces[1..], p);
      assert more[0] == pieces[0] && more[1..] == pieces[1..] + [p];
    }
  }

  /** The non-empty pieces of a split are the words between blanks. */
  lemma {:induction false} SplitWords(s: Str)
    ensures NonEmpty(Split(s)) == Words(BlankOnly, s)
    ensures Split(s)[0] != [] <==> StartsWord(BlankOnly, s)
  {
    if s != [] {
      SplitWords(s[1..]);
      var rest := Split(s[1..]);
      assert Split(s)[1..] == if s[0] == BLANK then rest else rest[1..];
      if s[0] != BLANK {
        var more := NonEmpty(rest[1..]);
        assert NonEmpty(Split(s)) == [[s[0]] + rest[0]] + more;
        if rest[0] == [] {
          assert [s[0]] + rest[0] == [s[0]] && Words(BlankOnly, s[1..]) == more;
        } else {
          assert Words(BlankOnly, s[1..]) == [rest[0]] + more;
        }
      }
    }
  }

  lemma {:induction false} NonEmptyAll(pieces: seq<Str>)
    requires forall k :: 0 <= k < |pieces| ==> pieces[k] != []
    ensures NonEmpty(pieces) == pieces
  {
    if pieces != [] { NonEmptyAll(pieces[1..]); }
  }

  /** A tidy, non-empty text between whose words only blanks lie splits into exactly its words. */
  lemma {:induction false} SplitTidy(s: Str)
    requires s != [] && s[|s| - 1] != BLANK && forall j :: 0 <= j < |s| - 1 ==> s[j] != BLANK || s[j + 1] != BLANK
    ensures forall k :: 1 <= k < |Split(s)| ==> Split(s)[k] != []
    ensures s[0] != BLANK ==> Split(s)[0] != []
  {
    if |s| > 1 {
      SplitTidy(s[1..]);
    } else {
      assert Split(s[1..]) == [[]];
    }
  }

  // ---------- The character filter ----------

  predicate InAcceptableRanges(c: CodeUnit) {
    48 <= c <= 57 || 65 <= c <= 90 || 97 <= c <= 122 || 224 <= c <= 229 || 231 <= c <= 239
    || 241 <= c <= 246 || 248 <= c <= 253 || c == 255
  }

  predicate IsAcceptableChar(c: CodeUnit) {
    c == 32 || c == 46 || c == 95
  }

  predicate IsLigatureChar(c: CodeUnit) {
    c == 223 || c == 230 || c == 198 || c == 156 || c == 140 || c == 240 || c == 208 || c == 141 || c == 159
  }

  function FilterUnit(c: CodeUnit): CodeUnit {
    if 192 <= c <= 221 then c + 32
    else if InAcceptableRanges(c) || IsAcceptableChar(c) then c
    else if IsLigatureChar(c) then c
    else BLANK
  }

  /** What the filter can leave behind: no white space but the blank, and no character that is
      special in a regular expression but the period. */
  predicate IsSearchable(c: CodeUnit) {
    !(IsSpace(c) && c != BLANK)
    && c !in {36, 40, 41, 42, 43, 47, 63, 91, 92, 93, 94, 123, 124, 125}
  }

  /** Digits, ASCII letters, blanks, periods and underscores pass; capital Latin-1 letters become small. */
  lemma FilterUnitIs(c: CodeUnit)
    ensures 48 <= c <= 57 || 65 <= c <= 90 || 97 <= c <= 122 || c in Ascii(" ._") ==> FilterUnit(c) == c
    ensures 192 <= c <= 221 ==> FilterUnit(c) == c + 32
    ensures 224 <= c <= 255 ==> FilterUnit(c) == if c in {247, 254} then 32 else c
    ensures c in {140, 141, 156, 159, 223} ==> FilterUnit(c) == c
    ensures c == 222 || 123 <= c <= 139 || c > 255 ==> FilterUnit(c) == 32
  {
    assert Ascii(" ._") == [32, 46, 95];
  }

  /** No searchable unit is special in a regular expression but the period. */
  lemma SearchableIsPlain(c: CodeUnit)
    ensures IsSearchable(c) ==> c !in Ascii("$()*+?[\\]^{|}")
  {
    assert Ascii("$()*+?[\\]^{|}") == [36, 40, 41, 42, 43, 63, 91, 92, 93, 94, 123, 124, 125];
  }

  /** Neither is what the filter leaves. */
  lemma FilterLeavesNoSpecial(c: CodeUnit)
    ensures FilterUnit(c) !in Ascii("$()*+?[\\]^{|}")
  {
    assert IsSearchable(FilterUnit(c));
    SearchableIsPlain(FilterUnit(c));
  }
}
