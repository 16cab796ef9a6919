/** checkForHits: scoring the pages, masking them word by word, sorting and cutting the result. */
module SearchHits {
  import opened Wrappers
  import opened JsString
  import opened SearchInput
  import opened SearchText

  /** One indexed page: its cached title and line, and the digits that count each word of the line. */
  datatype Page = Page(title: Option<Str>, line: Option<Str>, instances: Str)

  /** A JavaScript number as the scores use it. */
  datatype Num = NaN | Count(n: nat)

  predicate Truthy(x: Num) {
    x.Count? && x.n != 0
  }

  predicate IsZero(x: Num) {
    x.Count? && x.n == 0
  }

  function Sum(x: Num, y: Num): Num {
    if x.NaN? || y.NaN? then NaN else Count(x.n + y.n)
  }

  /** "null", the text that a regular expression is tested against in place of a missing line. */
  const NULL_TEXT: Str := [110, 117, 108, 108]

  // ---------- What a page scores on a word ----------

  predicate IsLineTerminator(c: CodeUnit) {
    c == 10 || c == 13 || c == 8232 || c == 8233
  }

  /** A pattern unit against a subject unit under the flag `i`; `fold` is the host's case folding. */
  predicate PatternUnitMatches(fold: CodeUnit -> CodeUnit, p: CodeUnit, c: CodeUnit) {
    if p == PERIOD then !IsLineTerminator(c) else fold(p) == fold(c)
  }

  predicate PatternMatchesAt(fold: CodeUnit -> CodeUnit, w: Str, s: Str, k: nat) {
    k + |w| <= |s| && forall i :: 0 <= i < |w| ==> PatternUnitMatches(fold, w[i], s[k + i])
  }

  /** `new RegExp(w, "i").test(s)` for a pattern whose only special character is the period. */
  predicate RegexTest(fold: CodeUnit -> CodeUnit, w: Str, s: Str) {
    exists k :: 0 <= k <= |s| && PatternMatchesAt(fold, w, s, k)
  }

  /** A pattern without a period is sought literally, where case folding tells all units apart. */
  lemma LiteralPattern(fold: CodeUnit -> CodeUnit, w: Str, s: Str)
    requires 46 !in w && forall c, d :: fold(c) == fold(d) ==> c == d
    ensures RegexTest(fold, w, s) <==> exists k :: 0 <= k <= |s| && OccursAt(s, w, k)
  {
    forall k: nat | k <= |s| ensures PatternMatchesAt(fold, w, s, k) <==> OccursAt(s, w, k) {
      assert forall i :: 0 <= i < |w| ==> w[i] in w;
    }
  }

  /** A period matches any unit but a line terminator. */
  lemma PeriodPattern(fold: CodeUnit -> CodeUnit, s: Str)
    ensures RegexTest(fold, [46], s) <==> exists k :: 0 <= k < |s| && s[k] !in {10, 13, 8232, 8233}
  {
    forall k: nat | k < |s| ensures PatternMatchesAt(fold, [46], s, k) <==> s[k] !in {10, 13, 8232, 8233} {
      assert PatternUnitMatches(fold, [46][0], s[k + 0]) <==> s[k] !in {10, 13, 8232, 8233};
    }
  }

  /** The first index of a word in a list; the length of the list if it is absent. */
  function FirstIndex(ws: seq<Str>, w: Str): (n: nat)
    ensures n <= |ws|
    ensures n < |ws| <==> w in ws
    ensures n < |ws| ==> ws[n] == w
    ensures forall k :: 0 <= k < n ==> ws[k] != w
  {
    if ws == [] || ws[0] == w then 0 else 1 + FirstIndex(ws[1..], w)
  }

  predicate Lists(text: Option<Str>, w: Str) {
    text.Some? && w in Split(text.value)
  }

  /** getInstanceCount: the recorded digit of a word, not a number where there is none. */
  function InstanceCount(instances: Str, wordIndex: nat): Num {
    if wordIndex < |instances| && IsDigit(instances[wordIndex]) then Count(instances[wordIndex] - 48) else NaN
  }

  /** The recorded number of instances of a content word. */
  function ContentScore(page: Page, w: Str): Num {
    if Lists(page.line, w) then InstanceCount(page.instances, FirstIndex(Split(page.line.value), w)) else Count(0)
  }

  /** A hundred for a title word, plus its content score. */
  function WordScore(page: Page, w: Str): Num {
    var titleScore := if Lists(page.title, w) then 100 else 0;
    match ContentScore(page, w)
    case NaN => NaN
    case Count(n) => Count(titleScore + n)
  }

  /** Every position at which `p` occurs in `s`, overlaps included. */
  function Occurrences(s: Str, p: Str): set<nat> {
    set k: nat | k <= |s| && OccursAt(s, p, k)
  }

  /** The double-byte score: a hundred if the title contains the word, plus its occurrences. */
  function TextScore(page: Page, w: Str): nat
    requires page.title.Some? && page.line.Some?
  {
    (if exists k :: 0 <= k <= |page.title.value| && OccursAt(page.title.value, w, k) then 100 else 0)
    + |Occurrences(page.line.value, w)|
  }

  /** The text occurs at k exactly when it stands between k units and the rest. */
  lemma OccurrencesAre(s: Str, w: Str, k: nat)
    ensures k in Occurrences(s, w) <==> exists u: Str, v: Str :: |u| == k && s == u + w + v
  {
    if k in Occurrences(s, w) {
      assert s == s[..k] + w + s[k + |w|..];
    }
  }

  lemma OccursWithHead(s: Str, w: Str)
    requires s != [] && OccursAt(s[1..], w, 0)
    ensures OccursAt(s, [s[0]] + w, 0)
  {
    var v := [s[0]] + w;
    forall i | 0 <= i < |v| ensures s[0 + i] == v[i] {
      if i > 0 { assert s[1..][0 + (i - 1)] == w[i - 1]; }
    }
  }

  lemma OccursLater(s: Str, w: Str, k: nat)
    requires s != [] && OccursAt(s[1..], w, k)
    ensures OccursAt(s, w, k + 1)
  {
    forall i | 0 <= i < |w| ensures s[k + 1 + i] == w[i] {
      assert s[1..][k + i] == w[i];
    }
  }

  lemma {:induction false} PieceOccurs(s: Str, w: Str)
    requires w in Split(s)
    ensures exists k :: 0 <= k <= |s| && OccursAt(s, w, k)
    ensures w == Split(s)[0] ==> OccursAt(s, w, 0)
  {
    if s == [] {
      assert OccursAt(s, w, 0);
    } else {
      var rest := Split(s[1..]);
      if w == Split(s)[0] {
        if s[0] != BLANK {
          PieceOccurs(s[1..], rest[0]);
          assert w == [s[0]] + rest[0];
          OccursWithHead(s, rest[0]);
        }
        assert OccursAt(s, w, 0);
      } else {
        assert w in rest by { if s[0] != BLANK { assert w in rest[1..]; } }
        PieceOccurs(s[1..], w);
        var k :| 0 <= k <= |s[1..]| && OccursAt(s[1..], w, k);
        OccursLater(s, w, k);
      }
    }
  }

  /** The pre-check never drops a line that lists the word, whatever the case folding is. */
  lemma RegexKeepsListed(fold: CodeUnit -> CodeUnit, w: Str, s: Str)
    requires w in Split(s)
    ensures RegexTest(fold, w, s)
  {
    PieceOccurs(s, w);
    var k :| 0 <= k <= |s| && OccursAt(s, w, k);
    forall i | 0 <= i < |w| ensures PatternUnitMatches(fold, w[i], s[k + i]) {
      assert s[k + i] == w[i];
    }
    assert PatternMatchesAt(fold, w, s, k);
  }

  /** Where the loop of indexesOf stands after n rounds: the position it found last, at first -1. */
  function PositionAfter(str: Str, ptn: Str, n: nat): (start: int)
    ensures -1 <= start <= |str|
  {
    if n == 0 then -1 else IndexOf(str, ptn, PositionAfter(str, ptn, n - 1) + 1)
  }

  /** Round n is the loop's last, if it gets that far. */
  predicate EndsIn(str: Str, ptn: Str, n: nat) {
    n >= 1 && PositionAfter(str, ptn, n) == -1
  }

  /** `indexesOf`: counts every occurrence of a non-empty pattern, in one round more than there are. */
  method IndexesOf(str: Str, ptn: Str) returns (hits: int)
    requires ptn != []
    ensures hits == |Occurrences(str, ptn)|
    ensures hits >= 0 && EndsIn(str, ptn, hits + 1) && forall k: nat :: k <= hits ==> !EndsIn(str, ptn, k)
  {
    var position := 0;
    hits := -1;
    var start := -1;
    ghost var seen: set<nat> := {};
    while position != -1
      invariant -1 <= start <= |str| && hits >= -1 && (position == -1 ==> hits >= 0)
      invariant start == PositionAfter(str, ptn, hits + 1) && (position == -1 ==> start == -1)
      invariant forall k: nat :: k <= hits ==> !EndsIn(str, ptn, k)
      invariant position != -1 ==> !EndsIn(str, ptn, hits + 1)
      invariant position != -1 ==> hits + 1 == |seen| && seen == set k: nat | k <= start && OccursAt(str, ptn, k)
      invariant position == -1 ==> hits == |Occurrences(str, ptn)|
      invariant start != -1 ==> OccursAt(str, ptn, start)
      decreases position != -1, |str| - start
    {
      IndexOfIsFirst(str, ptn, start + 1);
      position := IndexOf(str, ptn, start + 1);
      hits := hits + 1;
      ghost var before := start;
      start := position;
      if position == -1 {
        assert seen == Occurrences(str, ptn);
      } else {
        assert (set k: nat | k <= start && OccursAt(str, ptn, k)) == seen + {start};
        seen := seen + {start};
      }
    }
  }

  lemma {:induction false} PositionsAdvance(str: Str, ptn: Str, n: nat)
    requires ptn != [] && forall k: nat :: k <= n ==> !EndsIn(str, ptn, k)
    ensures PositionAfter(str, ptn, n) >= n - 1
  {
    if n > 0 {
      PositionsAdvance(str, ptn, n - 1);
      assert !EndsIn(str, ptn, n);
      IndexOfIsFirst(str, ptn, PositionAfter(str, ptn, n - 1) + 1);
    }
  }

  lemma PositionOfEmpty(str: Str, from: nat)
    ensures IndexOf(str, [], from) != -1
  {
    IndexOfIsFirst(str, [], from);
    if from <= |str| { assert OccursAt(str, [], from); }
  }

  /** The loop comes to a round that ends it exactly when the pattern is not empty. */
  lemma SearchEndsIff(str: Str, ptn: Str)
    ensures (exists n: nat :: EndsIn(str, ptn, n)) <==> ptn != []
  {
    if ptn == [] {
      forall n: nat ensures !EndsIn(str, ptn, n) {
        if n >= 1 { PositionOfEmpty(str, PositionAfter(str, ptn, n - 1) + 1); }
      }
    } else {
      var bound := |str| + 2;
      if forall k: nat :: k <= bound ==> !EndsIn(str, ptn, k) {
        assert forall k: nat :: 1 <= k <= bound ==> !EndsIn(str, ptn, k);
        PositionsAdvance(str, ptn, bound);
      }
    }
  }

  // ---------- bubbleSortWithShadow ----------

  function Zip(a: seq<nat>, b: seq<nat>): (r: seq<(nat, nat)>)
    requires |a| == |b|
    ensures |r| == |a| && forall k :: 0 <= k < |a| ==> r[k] == (a[k], b[k])
  {
    seq(|a|, k requires 0 <= k < |a| => (a[k], b[k]))
  }

  lemma ZipAppend(a: seq<nat>, b: seq<nat>, x: nat, y: nat)
    requires |a| == |b|
    ensures Zip(a + [x], b + [y]) == Zip(a, b) + [(x, y)]
  {
  }

  ghost predicate NonIncreasing(a: seq<nat>) {
    forall i, j :: 0 <= i < j < |a| ==> a[i] >= a[j]
  }

  lemma ExchangeKeepsPairs(a: seq<nat>, b: seq<nat>, i: nat, j: nat, a': seq<nat>, b': seq<nat>)
    requires i < j < |a| == |b|
    requires a' == a[j := a[i]][i := a[j]] && b' == b[j := b[i]][i := b[j]]
    ensures multiset(Zip(a', b')) == multiset(Zip(a, b))
  {
    var z := Zip(a, b);
    assert Zip(a', b') == z[j := z[i]][i := z[j]];
  }

  ghost predicate SamePairs(a: seq<nat>, b: seq<nat>, a': seq<nat>, b': seq<nat>) {
    |a| == |b| && |a'| == |b'| && multiset(Zip(a, b)) == multiset(Zip(a', b'))
  }

  /** The exchange of two cells, and of their shadows. */
  method Exchange(a: array<nat>, b: array<nat>, i: nat, j: nat)
    requires a != b && i < j < a.Length == b.Length
    modifies a, b
    ensures a[i] == old(a[j]) && a[j] == old(a[i])
    ensures forall k :: 0 <= k < a.Length && k != i && k != j ==> a[k] == old(a[k])
    ensures SamePairs(a[..], b[..], old(a[..]), old(b[..]))
  {
    var temp := a[j];
    a[j] := a[i];
    a[i] := temp;
    temp := b[j];
    b[j] := b[i];
    b[i] := temp;
    ExchangeKeepsPairs(old(a[..]), old(b[..]), i, j, a[..], b[..]);
  }

  /** Sorts the counts downward and carries the pages along; not stable. */
  method BubbleSortWithShadow(a: array<nat>, b: array<nat>)
    requires a != b && a.Length == b.Length
    modifies a, b
    ensures NonIncreasing(a[..])
    ensures SamePairs(a[..], b[..], old(a[..]), old(b[..]))
  {
    var j := 1;
    while j < a.Length
      invariant 1 <= j
      invariant forall k, l :: 0 <= k < l < j && l < a.Length ==> a[k] >= a[l]
      invariant SamePairs(a[..], b[..], old(a[..]), old(b[..]))
    {
      var i := 0;
      while i < j
        invariant 0 <= i <= j < a.Length
        invariant forall k, l :: 0 <= k < l < j ==> a[k] >= a[l]
        invariant forall k :: 0 <= k < i ==> a[k] >= a[j]
        invariant SamePairs(a[..], b[..], old(a[..]), old(b[..]))
      {
        if a[i] < a[j] {
          Exchange(a, b, i, j);
        }
        i := i + 1;
      }
      j := j + 1;
    }
  }

  // ---------- What a search should return ----------

  /** In double-byte mode the scoring dereferences the title and the line. */
  predicate Usable(pages: seq<Page>, isDblByte: bool) {
    isDblByte ==> forall p :: 0 <= p < |pages| ==> pages[p].title.Some? && pages[p].line.Some?
  }

  /** Words the page can be asked about: non-empty, and legal as a pattern in single-byte mode. */
  predicate Askable(isDblByte: bool, ws: seq<Str>) {
    forall w :: w in ws ==> w != [] && (!isDblByte ==> forall c :: c in w ==> IsSearchable(c))
  }

  function Score(pages: seq<Page>, isDblByte: bool, w: Str, p: nat): Num
    requires Usable(pages, isDblByte)
  {
    if p >= |pages| then Count(0) else if isDblByte then Count(TextScore(pages[p], w)) else WordScore(pages[p], w)
  }

  /** The sum of the scores that are numbers. */
  function TotalScore(pages: seq<Page>, isDblByte: bool, ws: seq<Str>, p: nat): nat
    requires Usable(pages, isDblByte)
  {
    if ws == [] then 0
    else
      var score := Score(pages, isDblByte, ws[|ws| - 1], p);
      TotalScore(pages, isDblByte, ws[..|ws| - 1], p) + (if score.NaN? then 0 else score.n)
  }

  /** A word scores a positive number. */
  predicate ScoresOn(pages: seq<Page>, isDblByte: bool, w: Str, p: nat)
    requires Usable(pages, isDblByte)
  {
    Truthy(Score(pages, isDblByte, w, p))
  }

  predicate ScoresOnAll(pages: seq<Page>, isDblByte: bool, ws: seq<Str>, p: nat)
    requires Usable(pages, isDblByte)
  {
    forall k :: 0 <= k < |ws| ==> ScoresOn(pages, isDblByte, ws[k], p)
  }

  /** In single-byte mode a word scores on a page exactly when the title lists it or the line does,
      with a digit recorded for it if the line does, and not with a digit 0 alone. */
  lemma ScoresOnIff(pages: seq<Page>, w: Str, p: nat)
    ensures ScoresOn(pages, false, w, p) <==>
              && p < |pages|
              && var page := pages[p];
                 if Lists(page.line, w) then
                   var k := FirstIndex(Split(page.line.value), w);
                   k < |page.instances| && IsDigit(page.instances[k])
                     && (Lists(page.title, w) || page.instances[k] > 48)
                 else Lists(page.title, w)
  {
  }

  lemma FirstIndexIs(ws: seq<Str>, w: Str, k: nat)
    requires k < |ws| && ws[k] == w && forall j :: 0 <= j < k ==> ws[j] != w
    ensures FirstIndex(ws, w) == k
  {
  }

  /** The first piece of the page's line that is the word is piece k. */
  ghost predicate FirstListedAt(pages: seq<Page>, p: nat, w: Str, k: nat) {
    && p < |pages| && pages[p].line.Some? && k < |Split(pages[p].line.value)|
    && Split(pages[p].line.value)[k] == w && forall j :: 0 <= j < k ==> Split(pages[p].line.value)[j] != w
  }

  /** There, and the digit recorded at k is d. */
  ghost predicate RecordsDigit(pages: seq<Page>, p: nat, w: Str, k: nat, d: nat) {
    FirstListedAt(pages, p, w, k) && k < |pages[p].instances| && d <= 9 && pages[p].instances[k] == 48 + d
  }

  ghost predicate TitleLists(pages: seq<Page>, p: nat, w: Str) {
    p < |pages| && pages[p].title.Some? && w in Split(pages[p].title.value)
  }

  /** The score is the recorded digit, and a hundred more if the title lists the word. */
  lemma ScoreIsDigit(pages: seq<Page>, w: Str, p: nat, k: nat, d: nat)
    requires RecordsDigit(pages, p, w, k, d)
    ensures Score(pages, false, w, p) == Count(d + (if TitleLists(pages, p, w) then 100 else 0))
  {
    FirstIndexIs(Split(pages[p].line.value), w, k);
  }

  /** The double-byte score: the occurrences in the line, and 100 if the title has any. */
  lemma ScoreByText(pages: seq<Page>, w: Str, p: nat)
    requires Usable(pages, true) && p < |pages|
    ensures Score(pages, true, w, p)
            == Count(|Occurrences(pages[p].line.value, w)|
                     + if Occurrences(pages[p].title.value, w) == {} then 0 else 100)
  {
    var title := pages[p].title.value;
    assert forall k :: 0 <= k <= |title| && OccursAt(title, w, k) ==> k in Occurrences(title, w);
    assert Occurrences(title, w) != {} ==> exists k :: k in Occurrences(title, w);
  }

  /** Without a digit there the score is not a number. */
  lemma ScoreWithoutDigit(pages: seq<Page>, w: Str, p: nat, k: nat)
    requires FirstListedAt(pages, p, w, k)
    requires k < |pages[p].instances| ==> !(48 <= pages[p].instances[k] <= 57)
    ensures Score(pages, false, w, p) == NaN
  {
    FirstIndexIs(Split(pages[p].line.value), w, k);
  }

  /** A word the line does not list scores by the title alone. */
  lemma ScoreByTitle(pages: seq<Page>, w: Str, p: nat)
    requires p < |pages| && (pages[p].line.Some? ==> w !in Split(pages[p].line.value))
    ensures Score(pages, false, w, p) == Count(if TitleLists(pages, p, w) then 100 else 0)
  {
  }

  lemma {:induction false} SplitOfWord(w: Str)
    requires BLANK !in w
    ensures Split(w) == [w]
  {
    if |w| > 0 {
      SplitOfWord(w[1..]);
      assert [w[0]] + w[1..] == w;
    }
  }

  /** A page with the word for its title and its line, and no digit recorded, drops out. */
  lemma TitleDoesNotSave(w: Str)
    requires BLANK !in w
    ensures var page := Page(Some(w), Some(w), []);
            Lists(page.title, w) && !ScoresOn([page], false, w, 0)
  {
    SplitOfWord(w);
    ScoresOnIff([Page(Some(w), Some(w), [])], w, 0);
  }

  /** The pages that every word scores on, each with one plus the sum of its scores. */
  function Matches(pages: seq<Page>, isDblByte: bool, ws: seq<Str>, n: nat): seq<(nat, nat)>
    requires Usable(pages, isDblByte)
  {
    if n == 0 then []
    else
      Matches(pages, isDblByte, ws, n - 1)
      + (if ScoresOnAll(pages, isDblByte, ws, n - 1) then [(1 + TotalScore(pages, isDblByte, ws, n - 1), n - 1)]
        else [])
  }

  lemma {:induction false} MatchesAre(pages: seq<Page>, isDblByte: bool, ws: seq<Str>, n: nat, m: (nat, nat))
    requires Usable(pages, isDblByte)
    ensures m in Matches(pages, isDblByte, ws, n) <==>
              m.1 < n && ScoresOnAll(pages, isDblByte, ws, m.1) && m.0 == 1 + TotalScore(pages, isDblByte, ws, m.1)
  {
    if n > 0 { MatchesAre(pages, isDblByte, ws, n - 1, m); }
  }

  lemma StaysIn(sorted: seq<(nat, nat)>, all: seq<(nat, nat)>, i: nat)
    requires multiset(sorted) == multiset(all) && i < |sorted|
    ensures sorted[i] in all
  {
    assert sorted[i] in multiset(sorted);
  }

  lemma HitsAreTotal(pages: seq<Page>, isDblByte: bool, ws: seq<Str>, n: nat, sorted: seq<(nat, nat)>, i: nat)
    requires Usable(pages, isDblByte) && multiset(sorted) == multiset(Matches(pages, isDblByte, ws, n))
    requires i < |sorted|
    ensures sorted[i].0 == 1 + TotalScore(pages, isDblByte, ws, sorted[i].1)
  {
    StaysIn(sorted, Matches(pages, isDblByte, ws, n), i);
    MatchesAre(pages, isDblByte, ws, n, sorted[i]);
  }

  /** In any arrangement of the matches with the hits falling, a page with the higher total comes first. */
  lemma HigherTotalComesFirst(pages: seq<Page>, isDblByte: bool, ws: seq<Str>, n: nat, sorted: seq<(nat, nat)>,
          i: nat, j: nat)
    requires Usable(pages, isDblByte) && multiset(sorted) == multiset(Matches(pages, isDblByte, ws, n))
    requires forall k, l :: 0 <= k < l < |sorted| ==> sorted[k].0 >= sorted[l].0
    requires i < |sorted| && j < |sorted|
    requires TotalScore(pages, isDblByte, ws, sorted[i].1) > TotalScore(pages, isDblByte, ws, sorted[j].1)
    ensures i < j
  {
    HitsAreTotal(pages, isDblByte, ws, n, sorted, i);
    HitsAreTotal(pages, isDblByte, ws, n, sorted, j);
  }

  lemma TotalOfOne(pages: seq<Page>, w: Str, p: nat, n: nat)
    requires Score(pages, false, w, p) == Count(n)
    ensures TotalScore(pages, false, [w], p) == n
  {
    assert [w][..0] == [];
  }

  /** Among pages whose titles both list the word or both do not, the one with more recorded instances
      of it comes first. */
  lemma MoreInstancesComeFirst(pages: seq<Page>, w: Str, n: nat, sorted: seq<(nat, nat)>, i: nat, j: nat,
          k: nat, l: nat, d: nat, e: nat)
    requires multiset(sorted) == multiset(Matches(pages, false, [w], n))
    requires forall a, b :: 0 <= a < b < |sorted| ==> sorted[a].0 >= sorted[b].0
    requires i < |sorted| && j < |sorted|
    requires RecordsDigit(pages, sorted[i].1, w, k, d) && RecordsDigit(pages, sorted[j].1, w, l, e) && d > e
    requires TitleLists(pages, sorted[i].1, w) == TitleLists(pages, sorted[j].1, w)
    ensures i < j
  {
    var p, q := sorted[i].1, sorted[j].1;
    var title := if TitleLists(pages, p, w) then 100 else 0;
    ScoreIsDigit(pages, w, p, k, d);
    ScoreIsDigit(pages, w, q, l, e);
    TotalOfOne(pages, w, p, d + title);
    TotalOfOne(pages, w, q, e + title);
    HigherTotalComesFirst(pages, false, [w], n, sorted, i, j);
  }

  lemma {:induction false} NoMatches(pages: seq<Page>, isDblByte: bool, ws: seq<Str>, n: nat)
    requires Usable(pages, isDblByte)
    requires forall p :: 0 <= p < n ==> !ScoresOnAll(pages, isDblByte, ws, p)
    ensures Matches(pages, isDblByte, ws, n) == []
  {
    if n > 0 { NoMatches(pages, isDblByte, ws, n - 1); }
  }

  /** What the mask cell of a page holds after the given words: one plus the sum of its scores if
      they all score on it, else 0 or not a number. */
  predicate MaskMeans(pages: seq<Page>, isDblByte: bool, ws: seq<Str>, p: nat, mask: Num)
    requires Usable(pages, isDblByte)
  {
    if ScoresOnAll(pages, isDblByte, ws, p) then mask == Count(1 + TotalScore(pages, isDblByte, ws, p))
    else !Truthy(mask)
  }

  predicate MasksMean(pages: seq<Page>, isDblByte: bool, ws: seq<Str>, masks: seq<Num>)
    requires Usable(pages, isDblByte)
  {
    forall p :: 0 <= p < |masks| ==> MaskMeans(pages, isDblByte, ws, p, masks[p])
  }

  /** A mask after one more word, from the mask and the hit cell. */
  function MaskAfter(mask: Num, hits: Num): Num {
    if IsZero(hits) then Count(0) else if IsZero(mask) then mask else Sum(mask, hits)
  }

  /** The hit cell of a page that is still unmasked is its score; that of a masked-out page may be stale. */
  lemma MaskOneMore(pages: seq<Page>, isDblByte: bool, ws: seq<Str>, n: nat, p: nat, mask: Num, hits: Num)
    requires Usable(pages, isDblByte) && n < |ws| && MaskMeans(pages, isDblByte, ws[..n], p, mask)
    requires Truthy(mask) ==> hits == Score(pages, isDblByte, ws[n], p)
    ensures MaskMeans(pages, isDblByte, ws[..n + 1], p, MaskAfter(mask, hits))
  {
    var more := ws[..n + 1];
    assert more[..n] == ws[..n] && more[n] == ws[n];
    assert forall k :: 0 <= k < n ==> more[k] == ws[..n][k];
    if ScoresOnAll(pages, isDblByte, more, p) {
      assert forall k :: 0 <= k < n ==> ScoresOn(pages, isDblByte, more[k], p);
    }
  }

  lemma ScoresOnPrefix(pages: seq<Page>, isDblByte: bool, ws: seq<Str>, n: nat, p: nat)
    requires Usable(pages, isDblByte) && n < |ws|
    ensures ScoresOnAll(pages, isDblByte, ws, p) ==>
              ScoresOnAll(pages, isDblByte, ws[..n], p) && ScoresOn(pages, isDblByte, ws[n], p)
  {
  }

  /** The scores of the first n pages on one word. */
  function Row(pages: seq<Page>, isDblByte: bool, w: Str, n: nat): (row: seq<Num>)
    requires Usable(pages, isDblByte)
    ensures |row| == n
  {
    if n == 0 then [] else Row(pages, isDblByte, w, n - 1) + [Score(pages, isDblByte, w, n - 1)]
  }

  lemma {:induction false} RowAt(pages: seq<Page>, isDblByte: bool, w: Str, n: nat, p: nat)
    requires Usable(pages, isDblByte) && p < n
    ensures Row(pages, isDblByte, w, n)[p] == Score(pages, isDblByte, w, p)
  {
    if p < n - 1 { RowAt(pages, isDblByte, w, n - 1, p); }
  }

  /** Does an unmasked page among the first n have a positive score? */
  predicate AnyHit(masks: seq<Num>, row: seq<Num>, n: nat)
    requires n <= |row|
  {
    n > 0 && (AnyHit(masks, row, n - 1) || (n - 1 < |masks| && Truthy(masks[n - 1]) && Truthy(row[n - 1])))
  }

  lemma {:induction false} AnyHitIs(masks: seq<Num>, row: seq<Num>, n: nat)
    requires n <= |row|
    ensures AnyHit(masks, row, n) <==> exists p :: 0 <= p < n && p < |masks| && Truthy(masks[p]) && Truthy(row[p])
  {
    if n > 0 { AnyHitIs(masks, row, n - 1); }
  }

  /** If a word scores on no page still unmasked, no page is scored on by every word. */
  lemma NoHitNoMatch(pages: seq<Page>, isDblByte: bool, ws: seq<Str>, n: nat, masks: seq<Num>)
    requires Usable(pages, isDblByte) && n < |ws| && MasksMean(pages, isDblByte, ws[..n], masks)
    requires !AnyHit(masks, Row(pages, isDblByte, ws[n], |pages|), |pages|)
    ensures Matches(pages, isDblByte, ws, |masks|) == []
  {
    forall p | 0 <= p < |masks| ensures !ScoresOnAll(pages, isDblByte, ws, p) {
      ScoresOnPrefix(pages, isDblByte, ws, n, p);
      assert MaskMeans(pages, isDblByte, ws[..n], p, masks[p]);
      AnyHitIs(masks, Row(pages, isDblByte, ws[n], |pages|), |pages|);
      if p < |pages| { RowAt(pages, isDblByte, ws[n], |pages|, p); }
    }
    NoMatches(pages, isDblByte, ws, |masks|);
  }

  /** The page numbers with a truthy mask, each with its mask. */
  function Collected(masks: seq<Num>, n: nat): seq<(nat, nat)>
    requires n <= |masks|
  {
    if n == 0 then [] else Collected(masks, n - 1) + (if Truthy(masks[n - 1]) then [(masks[n - 1].n, n - 1)] else [])
  }

  lemma {:induction false} CollectedAreMatches(pages: seq<Page>, isDblByte: bool, ws: seq<Str>, masks: seq<Num>, n: nat)
    requires Usable(pages, isDblByte) && n <= |masks| && MasksMean(pages, isDblByte, ws, masks)
    ensures Collected(masks, n) == Matches(pages, isDblByte, ws, n)
  {
    if n > 0 {
      CollectedAreMatches(pages, isDblByte, ws, masks, n - 1);
      assert MaskMeans(pages, isDblByte, ws, n - 1, masks[n - 1]);
    }
  }

  // ---------- The search page ----------

  class SearchPage {
    /** sc1, sc2 and instances; fileArr.length; document.isDblByte; the host's case folding. */
    const pages: seq<Page>
    const fileCount: nat
    const isDblByte: bool
    const fold: CodeUnit -> CodeUnit
    var maskArr: seq<Num>
    var hitsArr: seq<Num>
    var matchesArrHits: seq<nat>
    var matchesArrIndices: seq<nat>

    constructor (pages: seq<Page>, fileCount: nat, isDblByte: bool, fold: CodeUnit -> CodeUnit)
      ensures this.pages == pages && this.fileCount == fileCount && this.isDblByte == isDblByte
      ensures matchesArrHits == matchesArrIndices == []
    {
      this.pages, this.fileCount, this.isDblByte, this.fold := pages, fileCount, isDblByte, fold;
      maskArr, hitsArr, matchesArrHits, matchesArrIndices := [], [], [], [];
    }

    /** The scan that both halves of the scoring make over their words. */
    method FindWord(words: seq<Str>, w: Str) returns (ndx: nat)
      ensures ndx == FirstIndex(words, w)
    {
      ndx := 0;
      while ndx < |words|
        invariant ndx <= FirstIndex(words, w)
      {
        if w == words[ndx] {
          break;
        }
        ndx := ndx + 1;
      }
    }

    method ContentHits(w: Str, page: Page) returns (contentHitCnt: Num)
      requires forall c :: c in w ==> IsSearchable(c)
      ensures contentHitCnt == ContentScore(page, w)
    {
      contentHitCnt := Count(0);
      var words: seq<Str> := if page.line.Some? then Split(page.line.value) else [];
      var phrase := if page.line.Some? then page.line.value else NULL_TEXT;
      if Lists(page.line, w) { RegexKeepsListed(fold, w, phrase); }
      if RegexTest(fold, w, phrase) {
        var ndx := FindWord(words, w);
        if ndx < |words| {
          contentHitCnt := InstanceCount(page.instances, ndx);
        }
      }
    }

    method CheckForHitsWordAgainstTitleAndLine(w: Str, page: Page) returns (hits: Num)
      requires w != [] && forall c :: c in w ==> IsSearchable(c)
      ensures hits == WordScore(page, w)
    {
      var titleHitCnt := 0;
      var words: seq<Str> := if page.title.Some? then Split(page.title.value) else [];
      var ndx := FindWord(words, w);
      if ndx < |words| {
        titleHitCnt := titleHitCnt + 100;
      }
      var contentHitCnt := ContentHits(w, page);
      hits := if contentHitCnt.NaN? then NaN else Count(titleHitCnt + contentHitCnt.n);
    }

    method CheckForHitsWordAgainstTitleAndLine2(w: Str, page: Page) returns (hits: nat)
      requires page.title.Some? && page.line.Some? && w != []
      ensures hits == TextScore(page, w)
    {
      var titleHitCnt := 0;
      IndexOfIsFirst(page.title.value, w, 0);
      if IndexOf(page.title.value, w, 0) != -1 {
        titleHitCnt := 100;
      }
      var contentHitCnt := IndexesOf(page.line.value, w);
      hits := titleHitCnt + contentHitCnt;
    }

    /** One page's score on one word, by the page's mode. */
    method HitsOn(w: Str, ndx: nat) returns (hits: Num)
      requires Usable(pages, isDblByte) && Askable(isDblByte, [w]) && ndx < |pages|
      ensures hits == Score(pages, isDblByte, w, ndx)
    {
      assert w in [w];
      if isDblByte {
        var count := CheckForHitsWordAgainstTitleAndLine2(w, pages[ndx]);
        hits := Count(count);
      } else {
        hits := CheckForHitsWordAgainstTitleAndLine(w, pages[ndx]);
      }
    }

    /** Scores the pages still unmasked; the hit cells of the others keep their old values. */
    method CheckForHitsWordAgainstPages(w: Str) returns (hitAnywhere: bool)
      requires Usable(pages, isDblByte) && Askable(isDblByte, [w])
      requires |maskArr| == |hitsArr| == fileCount
      modifies `hitsArr
      ensures var row := Row(pages, isDblByte, w, |pages|);
              && |hitsArr| == fileCount
              && (forall p :: 0 <= p < fileCount ==>
                    hitsArr[p] == if Truthy(maskArr[p]) && p < |pages| then row[p] else old(hitsArr)[p])
              && hitAnywhere == AnyHit(maskArr, row, |pages|)
    {
      ghost var row := Row(pages, isDblByte, w, |pages|);
      hitAnywhere := false;
      for ndx := 0 to |pages|
        invariant |hitsArr| == fileCount
        invariant forall p :: 0 <= p < fileCount ==>
                    hitsArr[p] == if Truthy(maskArr[p]) && p < ndx then row[p] else old(hitsArr)[p]
        invariant hitAnywhere == AnyHit(maskArr, row, ndx)
      {
        if ndx < |maskArr| && Truthy(maskArr[ndx]) {
          var hits := HitsOn(w, ndx);
          RowAt(pages, isDblByte, w, |pages|, ndx);
          hitsArr := hitsArr[ndx := hits];
          if Truthy(hitsArr[ndx]) {
            hitAnywhere := true;
          }
        }
      }
    }

    /** The masks say which pages every word so far scores on, and a masked-out page's hit cell is
        0 or not a number. */
    ghost predicate MasksAfter(ws: seq<Str>)
      requires Usable(pages, isDblByte)
      reads this
    {
      && |maskArr| == |hitsArr| == fileCount
      && MasksMean(pages, isDblByte, ws, maskArr)
      && (forall p :: 0 <= p < fileCount && !Truthy(maskArr[p]) ==> !Truthy(hitsArr[p]))
      && (forall p :: |pages| <= p < fileCount ==> IsZero(hitsArr[p]))
    }

    /** Folds one word's hit cells into the masks. */
    method UpdateMasks(ghost ws: seq<Str>, ghost n: nat)
      requires Usable(pages, isDblByte) && n < |ws|
      requires |maskArr| == |hitsArr| == fileCount
      requires MasksMean(pages, isDblByte, ws[..n], maskArr)
      requires var row := Row(pages, isDblByte, ws[n], |pages|);
               forall p :: 0 <= p < fileCount ==>
                 if p >= |pages| then IsZero(hitsArr[p])
                 else if Truthy(maskArr[p]) then hitsArr[p] == row[p]
                 else !Truthy(hitsArr[p])
      modifies `maskArr
      ensures MasksAfter(ws[..n + 1])
    {
      ghost var before := maskArr;
      for ndx2 := 0 to |hitsArr|
        invariant |maskArr| == fileCount
        invariant forall p :: 0 <= p < ndx2 ==> maskArr[p] == MaskAfter(before[p], hitsArr[p])
        invariant forall p :: ndx2 <= p < fileCount ==> maskArr[p] == before[p]
      {
        if IsZero(hitsArr[ndx2]) {
          maskArr := maskArr[ndx2 := Count(0)];
        } else {
          if !IsZero(maskArr[ndx2]) {
            maskArr := maskArr[ndx2 := Sum(maskArr[ndx2], hitsArr[ndx2])];
          }
        }
      }
      forall p | 0 <= p < fileCount ensures MaskMeans(pages, isDblByte, ws[..n + 1], p, maskArr[p]) {
        if p < |pages| { RowAt(pages, isDblByte, ws[n], |pages|, p); }
        MaskOneMore(pages, isDblByte, ws, n, p, before[p], hitsArr[p]);
      }
    }

    /** The loop over the input words; it gives up at the first word no unmasked page scores on. */
    method ScoreWords(inputWords: seq<Str>) returns (scored: bool)
      requires Usable(pages, isDblByte) && Askable(isDblByte, inputWords) && MasksAfter([])
      modifies `maskArr, `hitsArr
      ensures scored ==> MasksAfter(inputWords)
      ensures !scored ==> Matches(pages, isDblByte, inputWords, fileCount) == []
    {
      assert inputWords[..0] == [];
      for ndx := 0 to |inputWords|
        invariant MasksAfter(inputWords[..ndx])
      {
        assert inputWords[ndx] in inputWords;
        var hitAnywhere := CheckForHitsWordAgainstPages(inputWords[ndx]);
        if !hitAnywhere {
          NoHitNoMatch(pages, isDblByte, inputWords, ndx, maskArr);
          return false;
        }
        UpdateMasks(inputWords, ndx);
      }
      assert inputWords[..|inputWords|] == inputWords;
      scored := true;
    }

    method SortMatches()
      requires |matchesArrHits| == |matchesArrIndices|
      modifies `matchesArrHits, `matchesArrIndices
      ensures |matchesArrHits| == |matchesArrIndices| == old(|matchesArrHits|)
      ensures NonIncreasing(matchesArrHits)
      ensures multiset(Zip(matchesArrHits, matchesArrIndices))
              == multiset(Zip(old(matchesArrHits), old(matchesArrIndices)))
    {
      var hits, indices := matchesArrHits, matchesArrIndices;
      var a := new nat[|hits|](k requires 0 <= k < |hits| => hits[k]);
      var b := new nat[|indices|](k requires 0 <= k < |indices| => indices[k]);
      assert a[..] == hits && b[..] == indices;
      BubbleSortWithShadow(a, b);
      matchesArrHits, matchesArrIndices := a[..], b[..];
    }

    method CollectMatches(ghost ws: seq<Str>)
      requires Usable(pages, isDblByte) && |maskArr| == fileCount && MasksMean(pages, isDblByte, ws, maskArr)
      requires matchesArrHits == [] && matchesArrIndices == []
      modifies `matchesArrHits, `matchesArrIndices
      ensures |matchesArrHits| == |matchesArrIndices|
      ensures Zip(matchesArrHits, matchesArrIndices) == Matches(pages, isDblByte, ws, fileCount)
    {
      for ndx := 0 to |maskArr|
        invariant |matchesArrHits| == |matchesArrIndices|
        invariant Zip(matchesArrHits, matchesArrIndices) == Collected(maskArr, ndx)
      {
        if Truthy(maskArr[ndx]) {
          ZipAppend(matchesArrHits, matchesArrIndices, maskArr[ndx].n, ndx);
          matchesArrHits := matchesArrHits + [maskArr[ndx].n];
          matchesArrIndices := matchesArrIndices + [ndx];
        }
      }
      CollectedAreMatches(pages, isDblByte, ws, maskArr, fileCount);
    }

    /** The pieces of the search term that are not empty. */
    method InputWords(tempArr: seq<Str>) returns (inputWords: seq<Str>)
      ensures inputWords == NonEmpty(tempArr)
    {
      inputWords := [];
      for ndx := 0 to |tempArr|
        invariant inputWords == NonEmpty(tempArr[..ndx])
      {
        NonEmptyAppend(tempArr[..ndx], tempArr[ndx]);
        assert tempArr[..ndx + 1] == tempArr[..ndx] + [tempArr[ndx]];
        if |tempArr[ndx]| > 0 {
          inputWords := inputWords + [tempArr[ndx]];
        }
      }
      assert tempArr[..|tempArr|] == tempArr;
    }

    /** Sets matchesArrHits and matchesArrIndices to exactly the pages that every word scores on,
        best first. */
    method CheckForHits(searchTerm: Str)
      requires Usable(pages, isDblByte) && Askable(isDblByte, NonEmpty(Split(searchTerm)))
      modifies this
      ensures |matchesArrHits| == |matchesArrIndices| && NonIncreasing(matchesArrHits)
      ensures multiset(Zip(matchesArrHits, matchesArrIndices))
              == multiset(Matches(pages, isDblByte, NonEmpty(Split(searchTerm)), fileCount))
    {
      var inputWords := InputWords(Split(searchTerm));
      matchesArrHits, matchesArrIndices := [], [];
      maskArr, hitsArr := seq(fileCount, _ => Count(1)), seq(fileCount, _ => Count(0));
      var scored := ScoreWords(inputWords);
      if !scored {
        assert Zip(matchesArrHits, matchesArrIndices) == [];
        return;
      }
      CollectMatches(inputWords);
      if |matchesArrIndices| > 0 {
        SortMatches();
      }
    }
  }

  const MAX_NUMBER_OF_SHOWN_SEARCH_HITS := 30

  /** The cut of buildHtmlResultsStr: the pages shown, none with fewer hits than a page left out. */
  method ShownResults(hits: seq<nat>, indices: seq<nat>) returns (shown: seq<(nat, nat)>)
    requires |hits| == |indices| && NonIncreasing(hits)
    ensures shown <= Zip(hits, indices)
    ensures |shown| <= 30 && (|shown| < 30 ==> shown == Zip(hits, indices))
    ensures forall i, j :: 0 <= i < |shown| <= j < |hits| ==> shown[i].0 >= hits[j]
  {
    var ndxEnd := if |indices| > MAX_NUMBER_OF_SHOWN_SEARCH_HITS then MAX_NUMBER_OF_SHOWN_SEARCH_HITS else |indices|;
    shown := [];
    for ndx := 0 to ndxEnd
      invariant |shown| == ndx && shown <= Zip(hits, indices)
    {
      shown := shown + [(hits[ndx], indices[ndx])];
    }
  }

  /** The best of the given matches, best first: at most the maximum number, and nothing with fewer
      hits than a match that is left out. */
  ghost predicate BestOf(results: seq<(nat, nat)>, all: seq<(nat, nat)>) {
    && |results| == (if |all| > 30 then 30 else |all|)
    && multiset(results) <= multiset(all)
    && (forall i, j :: 0 <= i < j < |results| ==> results[i].0 >= results[j].0)
    && forall r, m :: r in results && m in multiset(all) - multiset(results) ==> r.0 >= m.0
  }

  lemma CutIsBest(sorted: seq<(nat, nat)>, cut: seq<(nat, nat)>, all: seq<(nat, nat)>)
    requires cut <= sorted && multiset(sorted) == multiset(all)
    requires forall i, j :: 0 <= i < j < |sorted| ==> sorted[i].0 >= sorted[j].0
    ensures |sorted| == |all| && multiset(cut) <= multiset(all)
    ensures forall r, m :: r in cut && m in multiset(all) - multiset(cut) ==> r.0 >= m.0
  {
    var rest := sorted[|cut|..];
    assert sorted == cut + rest;
    assert multiset(sorted) == multiset(cut) + multiset(rest);
    assert |multiset(sorted)| == |multiset(all)|;
    forall r, m | r in cut && m in multiset(all) - multiset(cut) ensures r.0 >= m.0 {
      assert m in multiset(rest);
      var i :| 0 <= i < |cut| && cut[i] == r;
      var j :| 0 <= j < |rest| && rest[j] == m;
      assert sorted[i] == r && sorted[|cut| + j] == m;
    }
  }

  /** The words that a page in either mode searches for. */
  function WordsSought(term: SearchTerm, isDblByte: bool): seq<Str>
    reads term
  {
    if isDblByte then SearchWords2(term.lower, term.searchTerm)
    else SearchWords(term.lower, term.isStop, term.searchTerm)
  }

  lemma {:induction false} NonEmptyPieces(pieces: seq<Str>)
    ensures forall w :: w in NonEmpty(pieces) ==> w != []
  {
    if pieces != [] { NonEmptyPieces(pieces[1..]); }
  }

  /** The whole path from the search box to the result list. */
  method RespondToSearchButton(term: SearchTerm, page: SearchPage) returns (message: Message, results: seq<(nat, nat)>)
    requires Usable(page.pages, page.isDblByte)
    modifies term, page
    ensures message == Valid <==>
              if page.isDblByte then term.lower(Squeeze(old(term.searchTerm))) != []
              else old(WordsSought(term, false)) != []
    ensures message != Valid ==> results == []
    ensures message == Valid ==>
              BestOf(results,
                     Matches(page.pages, page.isDblByte, old(WordsSought(term, page.isDblByte)), page.fileCount))
  {
    ghost var ws := WordsSought(term, page.isDblByte);
    results := [];
    if page.isDblByte {
      message := term.CheckTheInputString2();
    } else {
      SearchWordsSurvive(term.lower, term.isStop, term.searchTerm);
      message := term.CheckTheInputString();
    }
    if message == Valid {
      NonEmptyPieces(Split(term.searchTerm));
      assert Askable(page.isDblByte, ws);
      page.CheckForHits(term.searchTerm);
      results := ShownResults(page.matchesArrHits, page.matchesArrIndices);
      CutIsBest(Zip(page.matchesArrHits, page.matchesArrIndices), results,
        Matches(page.pages, page.isDblByte, ws, page.fileCount));
    }
  }
}
