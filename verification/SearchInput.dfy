/** checkTheInputString: from what the user typed to the words that are searched. */
module SearchInput {
  import opened JsString
  import opened SearchText

  datatype Message = Valid | StopAndShortWords | NoSearchTermEntered

  // ---------- The steps ----------

  /** "%20" */
  predicate StartsEncodedBlank(s: Str) {
    |s| >= 3 && s[0] == 37 && s[1] == 50 && s[2] == 48
  }

  /** `replace(/(%20)+/g, " ")`; `inRun` says that a run of %20 is being consumed. */
  function DecodeBlanks(s: Str, inRun: bool): Str {
    if s == [] then []
    else if StartsEncodedBlank(s) then (if inRun then [] else [BLANK]) + DecodeBlanks(s[3..], true)
    else [s[0]] + DecodeBlanks(s[1..], false)
  }

  /** A run of n encoded blanks. */
  function EncodedBlanks(n: nat): Str {
    if n == 0 then [] else [37, 50, 48] + EncodedBlanks(n - 1)
  }

  predicate EncodedBlankAt(s: Str, k: int) {
    0 <= k < |s| - 2 && s[k] == 37 && s[k + 1] == 50 && s[k + 2] == 48
  }

  /** Text without an encoded blank is left as it is. */
  lemma {:induction false} NothingToDecode(s: Str, inRun: bool)
    requires forall k :: 0 <= k < |s| ==> !EncodedBlankAt(s, k)
    ensures DecodeBlanks(s, inRun) == s
  {
    if |s| > 0 {
      assert !EncodedBlankAt(s, 0);
      forall k | 0 <= k < |s| - 1 ensures !EncodedBlankAt(s[1..], k) {
        assert !EncodedBlankAt(s, k + 1);
      }
      NothingToDecode(s[1..], false);
    }
  }

  lemma {:induction false} RunIsOver(n: nat, v: Str)
    requires !EncodedBlankAt(v, 0)
    ensures DecodeBlanks(EncodedBlanks(n) + v, true) == DecodeBlanks(v, false)
  {
    var s := EncodedBlanks(n) + v;
    if n == 0 {
      assert s == v;
    } else {
      RunIsOver(n - 1, v);
      assert s[0] == 37 && s[1] == 50 && s[2] == 48 && s[3..] == EncodedBlanks(n - 1) + v;
    }
  }

  lemma PlainStart(u: Str, n: nat, v: Str)
    requires n > 0 && u != [] && !StartsEncodedBlank(u)
    ensures !StartsEncodedBlank(u + EncodedBlanks(n) + v)
  {
    var s := u + EncodedBlanks(n) + v;
    assert EncodedBlanks(n)[0] == 37;
    assert s[|u|] == 37;
    assert forall k :: 0 <= k < |u| ==> s[k] == u[k];
  }

  /** A run of encoded blanks becomes one blank, and the text on both sides is decoded by itself. */
  lemma {:induction false} RunBecomesBlank(u: Str, n: nat, v: Str, inRun: bool)
    requires n > 0 && !EncodedBlankAt(u, |u| - 3) && !EncodedBlankAt(v, 0) && (u != [] || !inRun)
    ensures DecodeBlanks(u + EncodedBlanks(n) + v, inRun) == DecodeBlanks(u, inRun) + [32] + DecodeBlanks(v, false)
    decreases |u|
  {
    var r, d := EncodedBlanks(n), DecodeBlanks(v, false);
    var s := u + r + v;
    if |u| == 0 {
      assert s == EncodedBlanks(n) + v;
      assert s[0] == 37 && s[1] == 50 && s[2] == 48 && s[3..] == EncodedBlanks(n - 1) + v;
      RunIsOver(n - 1, v);
    } else if StartsEncodedBlank(u) {
      assert |u| == 3 ==> EncodedBlankAt(u, |u| - 3);
      assert EncodedBlankAt(u[3..], |u| - 6) ==> EncodedBlankAt(u, |u| - 3);
      RunBecomesBlank(u[3..], n, v, true);
      CutFront(u, r, v, 3);
      assert s[0] == u[0] && s[1] == u[1] && s[2] == u[2];
      AtTheFront(if inRun then [] else [BLANK], DecodeBlanks(u[3..], true), [32], d);
    } else {
      PlainStart(u, n, v);
      assert EncodedBlankAt(u[1..], |u| - 4) ==> EncodedBlankAt(u, |u| - 3);
      RunBecomesBlank(u[1..], n, v, false);
      CutFront(u, r, v, 1);
      assert s[0] == u[0];
      AtTheFront([u[0]], DecodeBlanks(u[1..], false), [32], d);
    }
  }

  function FilterTheChars(s: Str): (r: Str)
    ensures |r| == |s| && forall k :: 0 <= k < |s| ==> r[k] == FilterUnit(s[k]) && IsSearchable(r[k])
  {
    if s == [] then [] else [FilterUnit(s[0])] + FilterTheChars(s[1..])
  }

  const ACCEPTABLE_CHARS: seq<nat> := [32, 46, 95]
  const ACCEPTABLE_RANGES: seq<(nat, nat)> :=
    [(48, 57), (65, 90), (97, 122), (224, 229), (231, 239), (241, 246), (248, 253), (255, 255)]
  /** The codes of upperAsciiXlatTbl; no entry is translated to nothing. */
  const XLAT_CODES: seq<nat> := [223, 230, 198, 156, 140, 240, 208, 141, 159]

  /** Is the code one of the first n acceptable ones? */
  predicate AmongChars(c: CodeUnit, codes: seq<nat>, n: nat)
    requires n <= |codes|
  {
    exists k :: 0 <= k < n && codes[k] == c
  }

  predicate AmongRanges(c: CodeUnit, n: nat)
    requires n <= |ACCEPTABLE_RANGES|
  {
    exists k :: 0 <= k < n && ACCEPTABLE_RANGES[k].0 <= c <= ACCEPTABLE_RANGES[k].1
  }

  /** isAcceptableChar and isLigatureChar: the search of a table. */
  method FindCode(c: CodeUnit, codes: seq<nat>) returns (found: bool)
    ensures found == AmongChars(c, codes, |codes|)
  {
    for ndx := 0 to |codes|
      invariant !AmongChars(c, codes, ndx)
    {
      if c == codes[ndx] { return true; }
    }
    found := false;
  }

  method WithinAcceptableRanges(c: CodeUnit) returns (within: bool)
    ensures within == AmongRanges(c, |ACCEPTABLE_RANGES|)
  {
    for ndx := 0 to |ACCEPTABLE_RANGES|
      invariant !AmongRanges(c, ndx)
    {
      if ACCEPTABLE_RANGES[ndx].0 <= c <= ACCEPTABLE_RANGES[ndx].1 { return true; }
    }
    within := false;
  }

  lemma TablesSay(c: CodeUnit)
    ensures AmongChars(c, ACCEPTABLE_CHARS, |ACCEPTABLE_CHARS|) == IsAcceptableChar(c)
    ensures AmongChars(c, XLAT_CODES, |XLAT_CODES|) == IsLigatureChar(c)
  {
    var t := ACCEPTABLE_CHARS;
    assert t[0] == 32 && t[1] == 46 && t[2] == 95;
    var x := XLAT_CODES;
    assert x[0] == 223 && x[1] == 230 && x[2] == 198 && x[3] == 156 && x[4] == 140;
    assert x[5] == 240 && x[6] == 208 && x[7] == 141 && x[8] == 159;
  }

  lemma RangesSay(c: CodeUnit)
    ensures AmongRanges(c, |ACCEPTABLE_RANGES|) == InAcceptableRanges(c)
  {
    var t := ACCEPTABLE_RANGES;
    assert t[0] == (48, 57) && t[1] == (65, 90) && t[2] == (97, 122) && t[3] == (224, 229);
    assert t[4] == (231, 239) && t[5] == (241, 246) && t[6] == (248, 253) && t[7] == (255, 255);
  }

  lemma MappedParts<T, U>(f: T -> U, a: seq<T>, b: seq<T>, all: seq<U>, fa: seq<U>, fb: seq<U>)
    requires |all| == |a + b| && |fa| == |a| && |fb| == |b|
    requires forall k :: 0 <= k < |all| ==> all[k] == f((a + b)[k])
    requires forall k :: 0 <= k < |fa| ==> fa[k] == f(a[k])
    requires forall k :: 0 <= k < |fb| ==> fb[k] == f(b[k])
    ensures all == fa + fb
  {
  }

  lemma FilterOfBoth(a: Str, b: Str)
    ensures FilterTheChars(a + b) == FilterTheChars(a) + FilterTheChars(b)
  {
    MappedParts(FilterUnit, a, b, FilterTheChars(a + b), FilterTheChars(a), FilterTheChars(b));
  }

  lemma FilterOneMore(line: Str, n: nat)
    requires n < |line|
    ensures FilterTheChars(line[..n + 1]) == FilterTheChars(line[..n]) + [FilterUnit(line[n])]
  {
    FilterOfBoth(line[..n], [line[n]]);
    assert line[..n + 1] == line[..n] + [line[n]];
  }

  method FilterChar(chCode: CodeUnit) returns (retChr: CodeUnit)
    ensures retChr == FilterUnit(chCode)
  {
    TablesSay(chCode);
    RangesSay(chCode);
    if 192 <= chCode <= 221 {
      retChr := chCode + 32;
    } else {
      var within := WithinAcceptableRanges(chCode);
      var acceptable := FindCode(chCode, ACCEPTABLE_CHARS);
      var ligature := FindCode(chCode, XLAT_CODES);
      if within || acceptable {
        retChr := chCode;
      } else if ligature {
        retChr := chCode;
      } else {
        retChr := 32;
      }
    }
  }

  /** filterTheChars of help.js. */
  method FilterLine(line: Str) returns (retStr: Str)
    ensures retStr == FilterTheChars(line)
  {
    retStr := [];
    for ndx := 0 to |line|
      invariant retStr == FilterTheChars(line[..ndx])
    {
      FilterOneMore(line, ndx);
      var retChr := FilterChar(line[ndx]);
      retStr := retStr + [retChr];
    }
    assert line[..|line|] == line;
  }

  /** One final period is dropped from a word. */
  function StripPeriod(w: Str): Str {
    if w != [] && w[|w| - 1] == PERIOD then w[..|w| - 1] else w
  }

  lemma StripPeriodIs(w: Str)
    ensures StripPeriod(w + [46]) == w
    ensures w == [] || w[|w| - 1] != 46 ==> StripPeriod(w) == w
  {
    assert (w + [46])[..|w|] == w;
  }

  predicate IsDigit(c: CodeUnit) {
    48 <= c <= 57
  }

  /** `/\d\D/` matches. */
  predicate DigitThenOther(w: Str) {
    exists k :: 0 <= k < |w| - 1 && IsDigit(w[k]) && !IsDigit(w[k + 1])
  }

  /** `/\D\d/` matches. */
  predicate OtherThenDigit(w: Str) {
    exists k :: 0 <= k < |w| - 1 && !IsDigit(w[k]) && IsDigit(w[k + 1])
  }

  predicate HoldsDigit(w: Str) {
    exists k :: 0 <= k < |w| && 48 <= w[k] <= 57
  }

  predicate HoldsOther(w: Str) {
    exists k :: 0 <= k < |w| && !(48 <= w[k] <= 57)
  }

  lemma {:induction false} AllAlike(w: Str, k: nat, l: nat)
    requires k <= l < |w| && !DigitThenOther(w) && !OtherThenDigit(w)
    ensures IsDigit(w[k]) == IsDigit(w[l])
    decreases l - k
  {
    if k < l {
      AllAlike(w, k + 1, l);
      assert IsDigit(w[k]) && !IsDigit(w[k + 1]) ==> DigitThenOther(w);
      assert !IsDigit(w[k]) && IsDigit(w[k + 1]) ==> OtherThenDigit(w);
    }
  }

  /** One of the two patterns matches exactly when the word holds a digit and something else. */
  lemma PatternsMatchMixed(w: Str)
    ensures DigitThenOther(w) || OtherThenDigit(w) <==> HoldsDigit(w) && HoldsOther(w)
  {
    if HoldsDigit(w) && HoldsOther(w) && !DigitThenOther(w) && !OtherThenDigit(w) {
      var k :| 0 <= k < |w| && 48 <= w[k] <= 57;
      var l :| 0 <= l < |w| && !(48 <= w[l] <= 57);
      if k <= l { AllAlike(w, k, l); } else { AllAlike(w, l, k); }
    }
  }

  /** No stop word, and three units long or two of which one is a digit and one is not. */
  predicate Survives(isStop: Str -> bool, w: Str) {
    !isStop(w) && |w| >= 2 && (|w| > 2 || (HoldsDigit(w) && HoldsOther(w)))
  }

  /** What is kept of one word: itself without a final period, or nothing. */
  function Kept(isStop: Str -> bool, word: Str): seq<Str> {
    var w := StripPeriod(word);
    if Survives(isStop, w) then [w] else []
  }

  function Survivors(isStop: Str -> bool, ws: seq<Str>): seq<Str> {
    if ws == [] then [] else Kept(isStop, ws[0]) + Survivors(isStop, ws[1..])
  }

  /** By length: nothing shorter than two survives; of two units one must be a digit and one not. */
  lemma SurvivesIff(isStop: Str -> bool, w: Str)
    ensures |w| < 2 ==> !Survives(isStop, w)
    ensures |w| == 2 ==> (Survives(isStop, w) <==> !isStop(w) && ((48 <= w[0] <= 57) != (48 <= w[1] <= 57)))
    ensures |w| >= 3 ==> (Survives(isStop, w) <==> !isStop(w))
  {
  }

  /** The words of the input: blanks decoded, lower case, unsearchable characters blanked out. */
  function CandidateWords(lower: Str -> Str, input: Str): seq<Str> {
    Words(AnySpace, FilterTheChars(lower(DecodeBlanks(Squeeze(input), false))))
  }

  function FirstHundred(pieces: seq<Str>): seq<Str> {
    if |pieces| > 100 then pieces[..100] else pieces
  }

  /** The words of the input that are searched for: of the first hundred, those that survive. */
  function SearchWords(lower: Str -> Str, isStop: Str -> bool, input: Str): seq<Str> {
    Survivors(isStop, FirstHundred(CandidateWords(lower, input)))
  }

  // ---------- Joining the surviving words back into one text ----------

  function JoinWords(ws: seq<Str>): Str {
    if ws == [] then [] else ws[0] + [BLANK] + JoinWords(ws[1..])
  }

  lemma {:induction false} JoinOneMore(ws: seq<Str>, w: Str)
    ensures JoinWords(ws + [w]) == JoinWords(ws) + w + [BLANK]
  {
    var more := ws + [w];
    if |ws| == 0 {
      assert more[0] == w && more[1..] == ws;
    } else {
      JoinOneMore(ws[1..], w);
      assert more[0] == ws[0] && more[1..] == ws[1..] + [w];
    }
  }

  ghost predicate SolidWord(w: Str) {
    w != [] && forall c :: c in w ==> IsSearchable(c) && !IsSpace(c)
  }

  ghost predicate SolidWords(ws: seq<Str>) {
    forall w :: w in ws ==> SolidWord(w)
  }

  /** A word as splitting at the given separator can leave it. */
  ghost predicate Unseparated(sep: Separator, w: Str) {
    w != [] && forall c :: c in w ==> !Separates(sep, c)
  }

  lemma {:induction false} WordThenRest(sep: Separator, w: Str, rest: Str)
    requires Unseparated(sep, w)
    ensures Words(sep, w + [BLANK] + rest) == [w] + Words(sep, rest)
  {
    var s := w + [BLANK] + rest;
    var tail := w[1..] + [BLANK] + rest;
    assert w[0] in w && s[1..] == tail;
    if |w| == 1 {
      assert tail[1..] == rest && w == [w[0]];
    } else {
      assert forall c :: c in w[1..] ==> c in w;
      WordThenRest(sep, w[1..], rest);
      assert w[1] in w && tail[0] == w[1];
      assert [w[0]] + w[1..] == w;
    }
  }

  lemma {:induction false} WordsOfJoin(sep: Separator, ws: seq<Str>)
    requires forall w :: w in ws ==> Unseparated(sep, w)
    ensures Words(sep, JoinWords(ws)) == ws
  {
    if ws != [] {
      assert ws[0] in ws;
      WordsOfJoin(sep, ws[1..]);
      WordThenRest(sep, ws[0], JoinWords(ws[1..]));
    }
  }

  lemma {:induction false} JoinUnits(ws: seq<Str>)
    requires SolidWords(ws)
    ensures forall c :: c in JoinWords(ws) ==> IsSearchable(c)
  {
    if ws != [] {
      assert ws[0] in ws;
      JoinUnits(ws[1..]);
    }
  }

  /** The words that checkForHits will split out of the squeezed join are the joined words. */
  lemma RejoinedWords(ws: seq<Str>)
    requires SolidWords(ws)
    ensures NonEmpty(Split(Squeeze(JoinWords(ws)))) == ws
    ensures Squeeze(JoinWords(ws)) == [] <==> ws == []
  {
    var s := JoinWords(ws);
    WordsOfJoin(AnySpace, ws);
    JoinUnits(ws);
    SqueezeKeepsWords(s);
    SqueezeUnits(s);
    WordsAgree(Squeeze(s));
    SplitWords(Squeeze(s));
    SqueezeIsTidy(s);
  }

  lemma {:induction false} SurvivorsAreSolid(isStop: Str -> bool, ws: seq<Str>)
    requires SolidWords(ws)
    ensures SolidWords(Survivors(isStop, ws))
    ensures forall w :: w in Survivors(isStop, ws) ==> Survives(isStop, w)
  {
    if ws != [] {
      assert ws[0] in ws;
      SurvivorsAreSolid(isStop, ws[1..]);
    }
  }

  lemma CandidatesAreSolid(lower: Str -> Str, input: Str)
    ensures SolidWords(CandidateWords(lower, input))
  {
    WordUnits(AnySpace, FilterTheChars(lower(DecodeBlanks(Squeeze(input), false))));
  }

  /** Every searched word is no stop word, is at least two units long, and is solid text. */
  lemma SearchWordsSurvive(lower: Str -> Str, isStop: Str -> bool, input: Str)
    ensures SolidWords(SearchWords(lower, isStop, input))
    ensures forall w :: w in SearchWords(lower, isStop, input) ==> !isStop(w) && |w| >= 2
  {
    CandidatesAreSolid(lower, input);
    SurvivorsAreSolid(isStop, FirstHundred(CandidateWords(lower, input)));
  }

  lemma SplitOfTidy(t: Str)
    requires Tidy(t) && t != []
    ensures Split(t) == Words(BlankOnly, t)
  {
    forall j | 0 <= j < |t| - 1 ensures t[j] != BLANK || t[j + 1] != BLANK {
      assert !HasPairAt(t, j);
    }
    SplitWords(t);
    SplitTidy(t);
    NonEmptyAll(Split(t));
  }

  lemma FilteredHasBlanksOnly(s: Str)
    requires forall k :: 0 <= k < |s| ==> IsSearchable(s[k])
    ensures BlanksOnly(Squeeze(s))
  {
    SqueezeUnits(s);
  }

  /** Lower-casing as toLowerCase does it, on both sides of a blank by itself. */
  ghost predicate RespectsBlanks(lower: Str -> Str) {
    forall a, b :: lower(a + [32] + b) == lower(a) + [32] + lower(b)
  }

  lemma FilterAcrossBlank(a: Str, b: Str)
    ensures FilterTheChars(a + [32] + b) == FilterTheChars(a) + [32] + FilterTheChars(b)
  {
    FilterOfBoth(a + [32], b);
    FilterOfBoth(a, [32]);
    assert FilterTheChars([32]) == [32];
  }

  lemma {:induction false} EncodedUnits(n: nat)
    ensures |EncodedBlanks(n)| == 3 * n && forall k :: 0 <= k < 3 * n ==> !IsSpace(EncodedBlanks(n)[k])
  {
    if n > 0 { EncodedUnits(n - 1); }
  }

  lemma TidyAround(u: Str, n: nat, v: Str)
    requires Tidy(u) && Tidy(v) && n > 0
    ensures Tidy(u + EncodedBlanks(n) + v)
  {
    var r := EncodedBlanks(n);
    EncodedUnits(n);
    var s := u + r + v;
    forall j | 0 <= j < |s| - 1 ensures !HasPairAt(s, j) {
      if j < |u| - 1 { assert !HasPairAt(u, j); }
      if j >= |u| + |r| { assert !HasPairAt(v, j - |u| - |r|); }
    }
  }

  /** A run of encoded blanks in the input parts its words like a blank. */
  lemma EncodedBlanksPartWords(lower: Str -> Str, u: Str, n: nat, v: Str)
    requires RespectsBlanks(lower) && Tidy(u) && Tidy(v)
    requires n > 0 && !EncodedBlankAt(u, |u| - 3) && !EncodedBlankAt(v, 0)
    ensures CandidateWords(lower, u + EncodedBlanks(n) + v) == CandidateWords(lower, u) + CandidateWords(lower, v)
  {
    TidyAround(u, n, v);
    TidyIsSqueezed(u);
    TidyIsSqueezed(v);
    TidyIsSqueezed(u + EncodedBlanks(n) + v);
    RunBecomesBlank(u, n, v, false);
    var a, b := lower(DecodeBlanks(u, false)), lower(DecodeBlanks(v, false));
    FilterAcrossBlank(a, b);
    WordsAcrossBlank(FilterTheChars(a), FilterTheChars(b));
  }

  /** So what is searched for is what survives of the first hundred words of both sides. */
  lemma EncodedBlanksPartSearch(lower: Str -> Str, isStop: Str -> bool, u: Str, n: nat, v: Str)
    requires RespectsBlanks(lower) && Tidy(u) && Tidy(v)
    requires n > 0 && !EncodedBlankAt(u, |u| - 3) && !EncodedBlankAt(v, 0)
    ensures SearchWords(lower, isStop, u + EncodedBlanks(n) + v)
            == Survivors(isStop, FirstHundred(CandidateWords(lower, u) + CandidateWords(lower, v)))
  {
    EncodedBlanksPartWords(lower, u, n, v);
  }

  /** The second white-space removal leaves text that splits into exactly its words. */
  lemma SplitOfFiltered(s: Str)
    requires forall k :: 0 <= k < |s| ==> IsSearchable(s[k])
    requires Squeeze(s) != []
    ensures Split(Squeeze(s)) == Words(AnySpace, s)
  {
    SqueezeIsTidy(s);
    SplitOfTidy(Squeeze(s));
    FilteredHasBlanksOnly(s);
    WordsAgree(Squeeze(s));
    SqueezeKeepsWords(s);
  }

  /** Filtered text squeezes to nothing exactly when it holds no word. */
  lemma FilteredIsEmpty(s: Str)
    ensures Squeeze(s) == [] <==> Words(AnySpace, s) == []
    ensures Squeeze(s) == [] ==> NonEmpty(Split(Squeeze(s))) == []
  {
    SqueezeIsTidy(s);
    SqueezeKeepsWords(s);
    if Squeeze(s) != [] { assert StartsWord(AnySpace, Squeeze(s)); }
  }

  lemma {:induction false} SurvivorsAppend(isStop: Str -> bool, ws: seq<Str>, w: Str)
    ensures Survivors(isStop, ws + [w]) == Survivors(isStop, ws) + Kept(isStop, w)
  {
    var more := ws + [w];
    if |ws| == 0 {
      assert more[0] == w && more[1..] == ws;
    } else {
      SurvivorsAppend(isStop, ws[1..], w);
      assert more[0] == ws[0] && more[1..] == ws[1..] + [w];
      ConcatAssociates(Kept(isStop, ws[0]), Survivors(isStop, ws[1..]), Kept(isStop, w));
    }
  }

  /** Each word is judged on its own and the order stays; a final period is dropped before the test. */
  lemma SurvivorsGrow(isStop: Str -> bool, ws: seq<Str>, w: Str)
    requires w != [] ==> w[|w| - 1] != 46
    ensures Survivors(isStop, ws + [w]) == Survivors(isStop, ws + [w + [46]])
            == Survivors(isStop, ws) + (if Survives(isStop, w) then [w] else [])
  {
    StripPeriodIs(w);
    SurvivorsAppend(isStop, ws, w);
    SurvivorsAppend(isStop, ws, w + [46]);
  }

  lemma SurvivorsOneMore(isStop: Str -> bool, ws: seq<Str>, n: nat)
    requires n < |ws|
    ensures Survivors(isStop, ws[..n + 1]) == Survivors(isStop, ws[..n]) + Kept(isStop, ws[n])
  {
    SurvivorsAppend(isStop, ws[..n], ws[n]);
    assert ws[..n + 1] == ws[..n] + [ws[n]];
  }

  // ---------- The double-byte version ----------

  /** The words that a double-byte page searches for. */
  function SearchWords2(lower: Str -> Str, input: Str): seq<Str> {
    NonEmpty(Split(Squeeze(JoinWords(FirstHundred(Split(lower(Squeeze(input))))))))
  }

  lemma {:induction false} JoinOfSplit(s: Str)
    ensures JoinWords(Split(s)) == s + [BLANK]
  {
    if s != [] {
      JoinOfSplit(s[1..]);
      var rest := Split(s[1..]);
      assert Split(s)[1..] == if s[0] == BLANK then rest else rest[1..];
      assert JoinWords(Split(s)) == [s[0]] + JoinWords(rest);
    }
  }

  lemma {:induction false} NoBlankInPieces(s: Str)
    ensures forall w :: w in Split(s) ==> 32 !in w
  {
    if s != [] {
      NoBlankInPieces(s[1..]);
      var rest := Split(s[1..]);
      forall w | w in Split(s) ensures 32 !in w {
        if s[0] != BLANK && w == Split(s)[0] { assert rest[0] in rest; }
      }
    }
  }

  /** The pieces of a split hold no blank, and with a blank behind each they give the text and a blank. */
  lemma SplitIs(s: Str)
    ensures JoinWords(Split(s)) == s + [32] && forall w :: w in Split(s) ==> 32 !in w
  {
    JoinOfSplit(s);
    NoBlankInPieces(s);
  }

  lemma {:induction false} JoinConcat(a: seq<Str>, b: seq<Str>)
    ensures JoinWords(a + b) == JoinWords(a) + JoinWords(b)
  {
    var c := a + b;
    if a == [] {
      assert c == b;
    } else {
      JoinConcat(a[1..], b);
      assert c[0] == a[0] && c[1..] == a[1..] + b;
      ConcatAssociates(a[0] + [BLANK], JoinWords(a[1..]), JoinWords(b));
    }
  }

  lemma {:induction false} JoinEndsInBlank(ws: seq<Str>)
    requires ws != []
    ensures JoinWords(ws) != [] && JoinWords(ws)[|JoinWords(ws)| - 1] == BLANK && (ws[0] != [] ==> |JoinWords(ws)| >= 2)
  {
    if |ws| > 1 { JoinEndsInBlank(ws[1..]); }
  }

  lemma SqueezeDropsBlank(u: Str)
    requires Tidy(u) && u != []
    ensures Squeeze(u + [BLANK]) == u
  {
    var s := u + [BLANK];
    assert TrimLeft(s) == s;
    assert s[..|s| - 1] == u;
    assert TrimRight(u) == u;
    CollapseNoPair(u);
  }

  lemma TidyPrefix(t: Str, n: nat)
    requires Tidy(t) && 0 < n <= |t| && (n < |t| ==> t[n] == BLANK)
    ensures Tidy(t[..n])
  {
    assert forall j :: HasPairAt(t[..n], j) ==> HasPairAt(t, j);
    if n < |t| { assert !HasPairAt(t, n - 1); }
  }

  /** The first pieces of a text, joined, are a beginning of the text and a blank. */
  lemma PiecesArePrefix(t: Str, k: nat) returns (n: nat)
    requires 0 < k <= |Split(t)|
    ensures n <= |t| && JoinWords(Split(t)[..k]) == t[..n] + [BLANK] && (n < |t| ==> t[n] == BLANK)
  {
    var ps := Split(t);
    JoinOfSplit(t);
    JoinConcat(ps[..k], ps[k..]);
    assert ps == ps[..k] + ps[k..];
    JoinEndsInBlank(ps[..k]);
    var u := JoinWords(ps[..k]);
    n := |u| - 1;
    assert (t + [BLANK])[..n + 1] == u;
    assert u[..n] == t[..n] && u[n] == (t + [BLANK])[n];
  }

  lemma PiecesAreLong(t: Str, k: nat)
    requires Tidy(t) && t != [] && 0 < k <= |Split(t)|
    ensures |JoinWords(Split(t)[..k])| >= 2
  {
    var first := Split(t)[..k];
    SplitOfTidy(t);
    WordUnits(BlankOnly, t);
    assert first[0] == Split(t)[0] && Split(t)[0] in Split(t);
    JoinEndsInBlank(first);
  }

  /** The first pieces of a tidy text, joined, squeeze to a tidy beginning of it. */
  lemma SqueezeOfPieces(t: Str, k: nat) returns (n: nat)
    requires Tidy(t) && t != [] && 0 < k <= |Split(t)|
    ensures n <= |t| && Tidy(t[..n])
    ensures JoinWords(Split(t)[..k]) == t[..n] + [BLANK] && Squeeze(JoinWords(Split(t)[..k])) == t[..n]
  {
    PiecesAreLong(t, k);
    n := PiecesArePrefix(t, k);
    TidyPrefix(t, n);
    SqueezeDropsBlank(t[..n]);
  }

  /** Where lower-casing leaves the text tidy, as it does when it touches no white space, they are
      the first hundred words, and there are some exactly when there is text. */
  lemma SearchWords2Are(lower: Str -> Str, input: Str)
    requires Tidy(lower(Squeeze(input)))
    ensures SearchWords2(lower, input) == FirstHundred(Words(BlankOnly, lower(Squeeze(input))))
    ensures SearchWords2(lower, input) == [] <==> lower(Squeeze(input)) == []
  {
    var t := lower(Squeeze(input));
    if t != [] {
      SplitOfTidy(t);
      WordUnits(BlankOnly, t);
      var ws := FirstHundred(Split(t));
      var k := |ws|;
      assert ws == Split(t)[..k];
      assert forall w :: w in ws ==> w in Split(t);
      var n := SqueezeOfPieces(t, k);
      WordsOfJoin(BlankOnly, ws);
      SplitWords(t[..n]);
      WordsDropSpace(BlankOnly, t[..n], BLANK);
    } else {
      assert JoinWords([[]]) == [BLANK] && [BLANK][1..] == [];
      assert TrimLeft([BLANK]) == [];
    }
  }

  // ---------- The page's search term ----------

  class SearchTerm {
    /** The host's toLowerCase, and whether the stop-word table holds a word. */
    const lower: Str -> Str
    const isStop: Str -> bool
    var searchTerm: Str

    constructor (input: Str, lower: Str -> Str, isStop: Str -> bool)
      ensures searchTerm == input && this.lower == lower && this.isStop == isStop
    {
      searchTerm, this.lower, this.isStop := input, lower, isStop;
    }

    method HandleWhitespaceRemoval()
      modifies `searchTerm
      ensures searchTerm == Squeeze(old(searchTerm))
    {
      while true
        invariant TrimLeft(searchTerm) == TrimLeft(old(searchTerm))
        invariant searchTerm == [] || !IsSpace(searchTerm[0]) ==> searchTerm == TrimLeft(old(searchTerm))
        decreases |searchTerm|
      {
        var temp := if searchTerm != [] && IsSpace(searchTerm[0]) then searchTerm[1..] else searchTerm;
        if temp == searchTerm { break; }
        searchTerm := temp;
      }
      ghost var left := searchTerm;
      while true
        invariant TrimRight(searchTerm) == TrimRight(left)
        decreases |searchTerm|
      {
        var n := |searchTerm|;
        var temp := if n > 0 && IsSpace(searchTerm[n - 1]) then searchTerm[..n - 1] else searchTerm;
        if temp == searchTerm { break; }
        searchTerm := temp;
      }
      ghost var right := searchTerm;
      var k := FirstPair(searchTerm, 0);
      while k != -1
        invariant k == FirstPair(searchTerm, 0)
        invariant Collapse(searchTerm) == Collapse(right)
        decreases |searchTerm|
      {
        CollapseFirstPair(searchTerm, k);
        searchTerm := searchTerm[..k] + [BLANK] + searchTerm[k + 2..];
        k := FirstPair(searchTerm, 0);
      }
      CollapseNoPair(searchTerm);
    }

    method StripPeriods(pieces: seq<Str>) returns (tempArr: seq<Str>)
      ensures |tempArr| == |pieces| && forall k :: 0 <= k < |pieces| ==> tempArr[k] == StripPeriod(pieces[k])
    {
      tempArr := pieces;
      for ndx := 0 to |tempArr|
        invariant |tempArr| == |pieces|
        invariant forall k :: 0 <= k < ndx ==> tempArr[k] == StripPeriod(pieces[k])
        invariant forall k :: ndx <= k < |pieces| ==> tempArr[k] == pieces[k]
      {
        var word := tempArr[ndx];
        if word != [] && word[|word| - 1] == PERIOD {
          tempArr := tempArr[ndx := word[..|word| - 1]];
        }
      }
    }

    method RemoveStopAndShortWords(tempArr: seq<Str>, ghost ws: seq<Str>)
      returns (myArr: seq<Str>, foundStopOrShortWord: bool)
      requires |tempArr| == |ws| && forall k :: 0 <= k < |ws| ==> tempArr[k] == StripPeriod(ws[k])
      ensures myArr == Survivors(isStop, ws)
      ensures ws != [] ==> foundStopOrShortWord || myArr != []
    {
      myArr, foundStopOrShortWord := [], false;
      for ndx := 0 to |tempArr|
        invariant myArr == Survivors(isStop, ws[..ndx])
        invariant ndx > 0 ==> foundStopOrShortWord || myArr != []
      {
        var word := tempArr[ndx];
        SurvivorsOneMore(isStop, ws, ndx);
        PatternsMatchMixed(word);
        if !isStop(word) {
          if |word| < 2 {
            foundStopOrShortWord := true;
          } else if |word| > 2 || DigitThenOther(word) || OtherThenDigit(word) {
            myArr := myArr + [tempArr[ndx]];
          } else {
            foundStopOrShortWord := true;
          }
        } else {
          foundStopOrShortWord := true;
        }
      }
      assert ws[..|ws|] == ws;
    }

    method Reconstruct(myArr: seq<Str>)
      modifies `searchTerm
      ensures searchTerm == JoinWords(myArr)
    {
      searchTerm := [];
      for ndx := 0 to |myArr|
        invariant searchTerm == JoinWords(myArr[..ndx])
      {
        JoinOneMore(myArr[..ndx], myArr[ndx]);
        assert myArr[..ndx + 1] == myArr[..ndx] + [myArr[ndx]];
        searchTerm := searchTerm + myArr[ndx] + [BLANK];
      }
      assert myArr[..|myArr|] == myArr;
    }

    /** Cleans the search term; the message is empty (Valid) exactly when a word survives. */
    method CheckTheInputString() returns (message: Message)
      modifies `searchTerm
      ensures NonEmpty(Split(searchTerm)) == SearchWords(lower, isStop, old(searchTerm))
      ensures message == Valid <==> SearchWords(lower, isStop, old(searchTerm)) != []
      ensures message == NoSearchTermEntered <==> CandidateWords(lower, old(searchTerm)) == []
    {
      ghost var input := searchTerm;
      HandleWhitespaceRemoval();
      searchTerm := DecodeBlanks(searchTerm, false);
      searchTerm := lower(searchTerm);
      searchTerm := FilterLine(searchTerm);
      ghost var filtered := searchTerm;
      HandleWhitespaceRemoval();
      FilteredIsEmpty(filtered);
      if |searchTerm| == 0 {
        return NoSearchTermEntered;
      }
      SplitOfFiltered(filtered);
      CandidatesAreSolid(lower, input);
      var pieces := Split(searchTerm);
      if |pieces| > 100 { pieces := pieces[..100]; }
      var tempArr := StripPeriods(pieces);
      var myArr, foundStopOrShortWord := RemoveStopAndShortWords(tempArr, pieces);
      Reconstruct(myArr);
      SurvivorsAreSolid(isStop, pieces);
      RejoinedWords(myArr);
      HandleWhitespaceRemoval();
      if foundStopOrShortWord && |searchTerm| == 0 {
        return StopAndShortWords;
      }
      message := Valid;
    }

    /** The double-byte version keeps every word; the message is empty (Valid) exactly when there is text. */
    method CheckTheInputString2() returns (message: Message)
      modifies `searchTerm
      ensures message == Valid <==> lower(Squeeze(old(searchTerm))) != []
      ensures message == Valid ==> NonEmpty(Split(searchTerm)) == SearchWords2(lower, old(searchTerm))
      ensures message != Valid ==> message == NoSearchTermEntered
    {
      HandleWhitespaceRemoval();
      searchTerm := lower(searchTerm);
      if |searchTerm| == 0 {
        return NoSearchTermEntered;
      }
      var tempArr := Split(searchTerm);
      if |tempArr| > 100 { tempArr := tempArr[..100]; }
      Reconstruct(tempArr);
      HandleWhitespaceRemoval();
      message := Valid;
    }
  }
}
