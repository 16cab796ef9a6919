/** setCookie and getCookie of cookies.js, GetTopCookie of help.js, and the jar they share. */
module Cookies {
  import opened Wrappers
  import opened JsString
  import opened Escape

  const SEMICOLON: CodeUnit := 59
  const EQUALS: CodeUnit := 61
  const TAB: CodeUnit := 9

  datatype Cookie = Cookie(name: Str, value: Str)

  type Jar = seq<Cookie>

  // ---------- The cookie string ----------

  function Pair(c: Cookie): Str {
    c.name + [EQUALS] + c.value
  }

  /** The cookie-string of section 5.4 of RFC 6265. */
  function Serialize(jar: Jar): Str {
    if jar == [] then []
    else if |jar| == 1 then Pair(jar[0])
    else Pair(jar[0]) + [SEMICOLON, BLANK] + Serialize(jar[1..])
  }

  lemma SerializeSpells(jar: Jar, c: Cookie)
    ensures Serialize([c]) == c.name + Ascii("=") + c.value
    ensures jar != [] ==> Serialize([c] + jar) == c.name + Ascii("=") + c.value + Ascii("; ") + Serialize(jar)
  {
    assert ([c] + jar)[1..] == jar;
  }

  predicate Unbroken(s: Str) {
    forall k :: 0 <= k < |s| ==> s[k] != SEMICOLON && s[k] != BLANK && s[k] != TAB
  }

  predicate OneField(s: Str) {
    forall k :: 0 <= k < |s| ==> s[k] != SEMICOLON
  }

  predicate ValidName(name: Str) {
    name != [] && Unbroken(name) && forall k :: 0 <= k < |name| ==> name[k] != EQUALS
  }

  predicate ValidCookie(c: Cookie) {
    ValidName(c.name) && OneField(c.value)
  }

  predicate Distinct(jar: Jar) {
    forall i, j :: 0 <= i < j < |jar| ==> jar[i].name != jar[j].name
  }

  predicate ValidJar(jar: Jar) {
    (forall i :: 0 <= i < |jar| ==> ValidCookie(jar[i])) && Distinct(jar)
  }

  /** What the jar holds under each name, as stored. */
  function Values(jar: Jar): map<Str, Str> {
    if jar == [] then map[] else Values(jar[1..])[jar[0].name := jar[0].value]
  }

  function Lookup(jar: Jar, name: Str): Option<Str> {
    if name in Values(jar) then Some(Values(jar)[name]) else None
  }

  function UnescapedOption(raw: Option<Str>): Option<Str> {
    if raw.Some? then Some(Unescaped(raw.value)) else None
  }

  /** What the jar holds under a name, as its writer gave it. */
  function Read(jar: Jar, name: Str): Option<Str> {
    UnescapedOption(Lookup(jar, name))
  }

  // ---------- Where cookies lie in the string ----------

  function Offset(jar: Jar, i: nat): nat
    requires i < |jar|
  {
    if i == 0 then 0 else |Pair(jar[0])| + 2 + Offset(jar[1..], i - 1)
  }

  lemma {:induction false} CookieAt(jar: Jar, i: nat)
    requires i < |jar|
    ensures Offset(jar, i) < |Serialize(jar)| && Serialize(jar)[Offset(jar, i)..] == Serialize(jar[i..])
  {
    if i > 0 {
      CookieAt(jar[1..], i - 1);
      var head := Pair(jar[0]) + [SEMICOLON, BLANK];
      assert Serialize(jar) == head + Serialize(jar[1..]);
      assert Serialize(jar)[Offset(jar, i)..] == Serialize(jar[1..])[Offset(jar[1..], i - 1)..];
      assert jar[1..][i - 1..] == jar[i..];
    } else {
      assert jar[0..] == jar;
    }
  }

  lemma PairHolds(c: Cookie)
    requires ValidCookie(c)
    ensures OneField(Pair(c)) && Pair(c)[|c.name|] == EQUALS && Pair(c)[|c.name| + 1..] == c.value
  {
  }

  lemma ValidTail(jar: Jar, i: nat)
    requires ValidJar(jar) && i <= |jar|
    ensures ValidJar(jar[i..])
  {
    assert forall k :: 0 <= k < |jar| - i ==> jar[i..][k] == jar[i + k];
  }

  /** The string starts with `name=` exactly when its first cookie has that name. */
  lemma FirstCookieNamed(jar: Jar, name: Str)
    requires ValidJar(jar) && jar != [] && ValidName(name)
    ensures OccursAt(Serialize(jar), name + [EQUALS], 0) <==> jar[0].name == name
  {
    var s, first := Serialize(jar), jar[0].name;
    assert |first| < |s| && s[..|first|] == first && s[|first|] == EQUALS;
    var prefix := name + [EQUALS];
    assert forall k :: 0 <= k < |first| ==> s[k] == first[k];
    if first == name { assert s[0..|prefix|] == prefix; }
    if OccursAt(s, prefix, 0) {
      assert s[0..|prefix|] == prefix;
      assert forall k :: 0 <= k < |name| ==> s[k] == name[k];
      assert s[|name|] == prefix[|name|] == EQUALS;
      assert |name| == |first|;
      assert name == s[..|first|];
    }
  }

  lemma OccursInTail(s: Str, p: Str, at: nat)
    requires at <= |s|
    ensures OccursAt(s, p, at) <==> OccursAt(s[at..], p, 0)
  {
    var t := s[at..];
    assert forall k :: 0 <= k < |t| ==> t[k] == s[at + k];
  }

  /** `name=` occurs at the start of a cookie exactly when that is its name. */
  lemma CookieNamed(jar: Jar, name: Str, i: nat)
    requires ValidJar(jar) && ValidName(name) && i < |jar|
    ensures OccursAt(Serialize(jar), name + [EQUALS], Offset(jar, i)) <==> jar[i].name == name
  {
    var s, at := Serialize(jar), Offset(jar, i);
    CookieAt(jar, i);
    ValidTail(jar, i);
    FirstCookieNamed(jar[i..], name);
    OccursInTail(s, name + [EQUALS], at);
  }

  /** A semicolon in the string is the one before some later cookie. */
  lemma {:induction false} SemicolonAt(jar: Jar, p: nat) returns (i: nat)
    requires ValidJar(jar) && p < |Serialize(jar)| && Serialize(jar)[p] == SEMICOLON
    ensures 1 <= i < |jar| && p == Offset(jar, i) - 2
  {
    var n := |Pair(jar[0])|;
    PairHolds(jar[0]);
    assert forall k :: 0 <= k < n ==> Serialize(jar)[k] == Pair(jar[0])[k];
    var tail := jar[1..];
    assert Serialize(jar) == Pair(jar[0]) + [SEMICOLON, BLANK] + Serialize(tail);
    if p == n {
      i := 1;
    } else {
      ValidTail(jar, 1);
      var k := SemicolonAt(tail, p - n - 2);
      i := k + 1;
    }
  }

  lemma OccursAfterBreak(s: Str, prefix: Str, at: nat)
    requires 2 <= at <= |s| && s[at - 2] == SEMICOLON && s[at - 1] == BLANK
    ensures OccursAt(s, [SEMICOLON, BLANK] + prefix, at - 2) <==> OccursAt(s, prefix, at)
  {
    var sought := [SEMICOLON, BLANK] + prefix;
    assert forall k :: 0 <= k < |prefix| ==> sought[k + 2] == prefix[k];
    if OccursAt(s, sought, at - 2) {
      forall k | 0 <= k < |prefix| ensures s[at + k] == prefix[k] {
        assert s[(at - 2) + (k + 2)] == sought[k + 2];
      }
    }
  }

  lemma {:induction false} BreakBefore(jar: Jar, i: nat)
    requires 1 <= i < |jar|
    ensures Offset(jar, i) >= 2 && Offset(jar, i) <= |Serialize(jar)|
    ensures Serialize(jar)[Offset(jar, i) - 2] == SEMICOLON && Serialize(jar)[Offset(jar, i) - 1] == BLANK
  {
    var head, tail := Pair(jar[0]) + [SEMICOLON, BLANK], Serialize(jar[1..]);
    assert Serialize(jar) == head + tail;
    if i > 1 { BreakBefore(jar[1..], i - 1); }
  }

  /** `; name=` occurs just before a later cookie exactly when it has that name. */
  lemma NamedAfterBreak(jar: Jar, name: Str, i: nat)
    requires ValidJar(jar) && ValidName(name) && 1 <= i < |jar|
    ensures Offset(jar, i) >= 2
    ensures OccursAt(Serialize(jar), [SEMICOLON, BLANK] + (name + [EQUALS]), Offset(jar, i) - 2)
            <==> jar[i].name == name
  {
    CookieNamed(jar, name, i);
    BreakBefore(jar, i);
    OccursAfterBreak(Serialize(jar), name + [EQUALS], Offset(jar, i));
  }

  /** Every occurrence of `; name=` introduces a later cookie of that name. */
  lemma OccurrenceIsCookie(jar: Jar, name: Str, p: nat) returns (i: nat)
    requires ValidJar(jar) && ValidName(name)
    requires OccursAt(Serialize(jar), [SEMICOLON, BLANK] + (name + [EQUALS]), p)
    ensures 1 <= i < |jar| && jar[i].name == name && p == Offset(jar, i) - 2
  {
    var sought := [SEMICOLON, BLANK] + (name + [EQUALS]);
    assert Serialize(jar)[p + 0] == sought[0] == SEMICOLON;
    i := SemicolonAt(jar, p);
    NamedAfterBreak(jar, name, i);
  }

  /** The string around a cookie's pair. */
  lemma {:induction false} Around(jar: Jar, i: nat) returns (before: Str, after: Str)
    requires i < |jar|
    ensures Serialize(jar) == before + Pair(jar[i]) + after && |before| == Offset(jar, i)
    ensures i + 1 == |jar| ==> after == []
    ensures i + 1 < |jar| ==>
              && |after| >= 2 && after[0] == SEMICOLON && after[1] == BLANK
              && Offset(jar, i + 1) == |before| + |Pair(jar[i])| + 2
  {
    if i > 0 {
      before, after := Around(jar[1..], i - 1);
      before := Pair(jar[0]) + [SEMICOLON, BLANK] + before;
    } else if |jar| == 1 {
      before, after := [], [];
    } else {
      before, after := [], [SEMICOLON, BLANK] + Serialize(jar[1..]);
    }
  }

  lemma Middle(a: Str, w: Str, b: Str)
    ensures (a + w + b)[|a|..|a| + |w|] == w
    ensures forall k :: |a| <= k < |a| + |w| ==> (a + w + b)[k] == w[k - |a|]
    ensures (a + w + b)[|a| + |w|..] == b
  {
  }

  /** The text from a position to the next semicolon, or to the end. */
  function UpToSemicolon(s: Str, from: nat): Str
    requires from <= |s|
  {
    s[from..Find(s, SEMICOLON, from)]
  }

  /** Skipping text that holds no semicolon does not change where the next one is. */
  lemma SkipUnbroken(s: Str, start: nat, n: nat, end: nat)
    requires start <= n <= end <= |s| && (end < |s| ==> s[end] == SEMICOLON)
    requires forall k :: start <= k < end ==> s[k] != SEMICOLON
    ensures UpToSemicolon(s, n) == s[n..end] && Find(s, SEMICOLON, n) == Find(s, SEMICOLON, start)
  {
    FindIs(s, SEMICOLON, start, end);
    FindIs(s, SEMICOLON, n, end);
  }

  lemma SliceTail(s: Str, w: Str, start: nat, m: nat)
    requires start + |w| <= |s| && m <= |w| && forall k :: start <= k < start + |w| ==> s[k] == w[k - start]
    ensures s[start + m..start + |w|] == w[m..]
  {
  }

  /** A cookie whose value starts at `from` starts at `begin`: the value reaches to the next
      semicolon, counted from either, or to the end. */
  ghost predicate ReadsAt(s: Str, begin: nat, from: nat, value: Str) {
    begin <= from <= |s| && UpToSemicolon(s, from) == value && Find(s, SEMICOLON, from) == Find(s, SEMICOLON, begin)
  }

  lemma ValueIn(s: Str, before: Str, c: Cookie, after: Str, start: nat, from: nat)
    requires s == before + Pair(c) + after && |before| == start && from == start + |c.name| + 1
    requires ValidCookie(c) && (after == [] || after[0] == SEMICOLON)
    ensures ReadsAt(s, start, from, c.value)
  {
    var pair := Pair(c);
    PairHolds(c);
    Middle(before, pair, after);
    if |after| > 0 { assert s[start + |pair|..][0] == after[0]; }
    SkipUnbroken(s, start, from, start + |pair|);
    SliceTail(s, pair, start, |c.name| + 1);
  }

  lemma ReadsAtCookie(jar: Jar, i: nat, from: nat)
    requires i < |jar| && ValidCookie(jar[i]) && from == Offset(jar, i) + |jar[i].name| + 1
    ensures ReadsAt(Serialize(jar), Offset(jar, i), from, jar[i].value)
  {
    var before, after := Around(jar, i);
    ValueIn(Serialize(jar), before, jar[i], after, Offset(jar, i), from);
  }

  lemma {:induction false} LookupAt(jar: Jar, i: nat)
    requires Distinct(jar) && i < |jar|
    ensures Lookup(jar, jar[i].name) == Some(jar[i].value)
  {
    if i > 0 { LookupAt(jar[1..], i - 1); }
  }

  lemma {:induction false} NamesAreKeys(jar: Jar)
    ensures forall i :: 0 <= i < |jar| ==> jar[i].name in Values(jar)
    ensures forall n :: n in Values(jar) ==> exists i :: 0 <= i < |jar| && jar[i].name == n
  {
    if jar != [] {
      NamesAreKeys(jar[1..]);
      assert forall i :: 1 <= i < |jar| ==> jar[i] == jar[1..][i - 1];
      forall n | n in Values(jar) ensures exists i :: 0 <= i < |jar| && jar[i].name == n {
        if n != jar[0].name {
          var i :| 0 <= i < |jar[1..]| && jar[1..][i].name == n;
          assert jar[i + 1].name == n;
        } else {
          assert jar[0].name == n;
        }
      }
    }
  }

  lemma LookupNone(jar: Jar, name: Str)
    requires forall i :: 0 <= i < |jar| ==> jar[i].name != name
    ensures Lookup(jar, name) == None
  {
    NamesAreKeys(jar);
  }

  ghost predicate Nowhere(s: Str, sought: Str) {
    forall p :: 0 <= p ==> !OccursAt(s, sought, p)
  }

  /** A later cookie of the name, at the place where `; name=` first occurs. */
  lemma FoundLater(jar: Jar, name: Str, prefix: Str, begin: nat) returns (value: Str)
    requires ValidJar(jar) && ValidName(name) && prefix == name + [EQUALS] && begin >= 2
    requires OccursAt(Serialize(jar), [SEMICOLON, BLANK] + prefix, begin - 2)
    ensures ReadsAt(Serialize(jar), begin, begin + |prefix|, value) && Lookup(jar, name) == Some(value)
  {
    var i := OccurrenceIsCookie(jar, name, begin - 2);
    value := jar[i].value;
    ReadsAtCookie(jar, i, begin + |prefix|);
    LookupAt(jar, i);
  }

  /** Without one, the cookie of the name is the first, or there is none. */
  lemma FoundFirst(jar: Jar, name: Str, prefix: Str) returns (value: Str)
    requires ValidJar(jar) && ValidName(name) && prefix == name + [EQUALS]
    requires Nowhere(Serialize(jar), [SEMICOLON, BLANK] + prefix)
    ensures if OccursAt(Serialize(jar), prefix, 0)
            then ReadsAt(Serialize(jar), 0, |prefix|, value) && Lookup(jar, name) == Some(value)
            else Lookup(jar, name) == None
  {
    forall k: nat | 1 <= k < |jar| ensures jar[k].name != name { NamedAfterBreak(jar, name, k); }
    value := [];
    if jar == [] {
      LookupNone(jar, name);
    } else {
      CookieNamed(jar, name, 0);
      value := jar[0].value;
      if jar[0].name == name {
        ReadsAtCookie(jar, 0, |prefix|);
        LookupAt(jar, 0);
      } else {
        LookupNone(jar, name);
      }
    }
  }

  // ---------- The scan from blank to blank ----------

  /** GetTopCookie stands only at the start of the text and just after a blank. */
  predicate Stands(s: Str, p: int) {
    0 <= p < |s| && (p == 0 || s[p - 1] == BLANK)
  }

  /** Where the scan from a position on finds the sought text, or -1. */
  function TopStart(s: Str, arg: Str, from: nat): (p: int)
    ensures p == -1 || (from <= p < |s| && p + |arg| <= |s|)
    decreases |s| - from
  {
    if from >= |s| then -1
    else if OccursAt(s, arg, from) then from
    else TopStart(s, arg, Find(s, BLANK, from) + 1)
  }

  /** That is the first of the places where the scan stands. */
  lemma {:induction false} TopStartIsFirst(s: Str, arg: Str, from: nat)
    ensures var p := TopStart(s, arg, from);
            && (p == -1 ==> forall q :: from < q && Stands(s, q) ==> !OccursAt(s, arg, q))
            && (p == -1 && from < |s| ==> !OccursAt(s, arg, from))
            && (p != -1 ==> OccursAt(s, arg, p) && (p == from || Stands(s, p)))
            && (p != -1 && p != from ==> !OccursAt(s, arg, from))
            && (p != -1 ==> forall q :: from < q < p && Stands(s, q) ==> !OccursAt(s, arg, q))
    decreases |s| - from
  {
    if from < |s| && !OccursAt(s, arg, from) {
      var next := Find(s, BLANK, from) + 1;
      FindIsFirst(s, BLANK, from);
      TopStartIsFirst(s, arg, next);
      forall q | from < q < next ensures !Stands(s, q) {
        assert s[q - 1] != BLANK;
      }
    }
  }

  /** One round of the scan: it ends here, or goes on behind the next blank. */
  lemma ScanRound(s: Str, arg: Str, i: nat)
    requires i < |s|
    ensures var here, blank := Substring(s, i, i + |arg|) == arg, IndexOf(s, [BLANK], i);
            TopStart(s, arg, i) == if here then i else if blank == -1 then -1 else TopStart(s, arg, blank + 1)
    ensures Substring(s, i, i + |arg|) == arg ==> i + |arg| <= |s|
    ensures IndexOf(s, [BLANK], i) == -1 || IndexOf(s, [BLANK], i) >= i
  {
    SubstringEquals(s, arg, i);
    IndexOfUnit(s, BLANK, i);
  }

  /** What GetTopCookie answers on any text. */
  function TopText(s: Str, arg: Str): Option<Str> {
    var p := TopStart(s, arg, 0);
    if p == -1 then None else Some(Unescaped(UpToSemicolon(s, p + |arg|)))
  }

  lemma TopTextIs(s: Str, arg: Str, p: nat, value: Str)
    requires TopStart(s, arg, 0) == p && p + |arg| <= |s| && UpToSemicolon(s, p + |arg|) == value
    ensures TopText(s, arg) == Some(Unescaped(value))
  {
  }

  lemma TopTextIsNull(s: Str, arg: Str)
    requires TopStart(s, arg, 0) == -1
    ensures TopText(s, arg) == None
  {
  }

  /** The index of the cookie of that name, or the length of the jar. */
  function IndexOfName(jar: Jar, name: Str): (k: nat)
    ensures k <= |jar| && (k < |jar| ==> jar[k].name == name)
    ensures forall i :: 0 <= i < k ==> jar[i].name != name
  {
    if jar == [] || jar[0].name == name then 0 else 1 + IndexOfName(jar[1..], name)
  }

  function OwnStart(jar: Jar, name: Str): int {
    var k := IndexOfName(jar, name);
    if k < |jar| then Offset(jar, k) else -1
  }

  /** Some blank before the name's own cookie, or anywhere if it has none, is followed by `name=`. */
  ghost predicate Misled(jar: Jar, name: Str) {
    exists p :: Stands(Serialize(jar), p) && OccursAt(Serialize(jar), name + [EQUALS], p)
                && (OwnStart(jar, name) == -1 || p < OwnStart(jar, name))
  }

  lemma OwnStartStands(jar: Jar, name: Str)
    requires ValidJar(jar) && ValidName(name) && IndexOfName(jar, name) < |jar|
    ensures Stands(Serialize(jar), OwnStart(jar, name))
            && OccursAt(Serialize(jar), name + [EQUALS], OwnStart(jar, name))
  {
    var k := IndexOfName(jar, name);
    CookieAt(jar, k);
    CookieNamed(jar, name, k);
    if k > 0 { BreakBefore(jar, k); }
  }

  /** The scan ends at the name's own cookie, or at none if there is none, exactly when it is not misled. */
  lemma TopStartIsOwn(jar: Jar, name: Str)
    requires ValidJar(jar) && ValidName(name)
    ensures TopStart(Serialize(jar), name + [EQUALS], 0) == OwnStart(jar, name) <==> !Misled(jar, name)
  {
    TopStartIsFirst(Serialize(jar), name + [EQUALS], 0);
    if IndexOfName(jar, name) < |jar| { OwnStartStands(jar, name); }
  }

  lemma TopTextAt(s: Str, name: Str, p: int, raw: Option<Str>)
    requires TopStart(s, name + [EQUALS], 0) == p && (p == -1 <==> raw == None)
    requires p != -1 ==> ReadsAt(s, p, p + |name| + 1, raw.value)
    ensures TopText(s, name + [EQUALS]) == UnescapedOption(raw)
  {
    var arg := name + [EQUALS];
    if p == -1 { TopTextIsNull(s, arg); } else { TopTextIs(s, arg, p, raw.value); }
  }

  /** The name's own cookie is what the jar holds under it. */
  lemma OwnStartReads(jar: Jar, name: Str)
    requires ValidJar(jar) && ValidName(name)
    ensures OwnStart(jar, name) == -1 <==> Lookup(jar, name) == None
    ensures var p := OwnStart(jar, name);
            p != -1 ==> ReadsAt(Serialize(jar), p, p + |name| + 1, Lookup(jar, name).value)
  {
    var k := IndexOfName(jar, name);
    if k < |jar| {
      ReadsAtCookie(jar, k, Offset(jar, k) + |name| + 1);
      LookupAt(jar, k);
    } else {
      LookupNone(jar, name);
    }
  }

  /** Unless misled, the scan of the cookie string finds what the jar holds under the name. */
  lemma TopFinds(jar: Jar, name: Str, s: Str, p: int)
    requires ValidJar(jar) && ValidName(name) && !Misled(jar, name)
    requires s == Serialize(jar) && p == TopStart(s, name + [EQUALS], 0)
    ensures p == -1 <==> Lookup(jar, name) == None
    ensures p != -1 ==> ReadsAt(s, p, p + |name| + 1, Lookup(jar, name).value)
  {
    TopStartIsOwn(jar, name);
    OwnStartReads(jar, name);
  }

  /** Unless misled, GetTopCookie answers with the value under the name, or with null. */
  lemma TopTextReads(jar: Jar, name: Str)
    requires ValidJar(jar) && ValidName(name) && !Misled(jar, name)
    ensures TopText(Serialize(jar), name + [EQUALS]) == Read(jar, name)
  {
    var s := Serialize(jar);
    var p := TopStart(s, name + [EQUALS], 0);
    TopFinds(jar, name, s, p);
    TopTextAt(s, name, p, Lookup(jar, name));
  }

  lemma GetTopCookieReads(jar: Jar, name: Str, r: Option<Str>)
    requires r == TopText(Serialize(jar), name + [EQUALS])
    ensures ValidJar(jar) && ValidName(name) && !Misled(jar, name) ==> r == Read(jar, name)
  {
    if ValidJar(jar) && ValidName(name) && !Misled(jar, name) { TopTextReads(jar, name); }
  }

  /** Where no value holds a blank, every blank is the one before some later cookie. */
  lemma {:induction false} BlankIsBreak(jar: Jar, p: nat) returns (i: nat)
    requires ValidJar(jar) && (forall k :: 0 <= k < |jar| ==> Unbroken(jar[k].value))
    requires p < |Serialize(jar)| && Serialize(jar)[p] == BLANK
    ensures 1 <= i < |jar| && p == Offset(jar, i) - 1
  {
    var n := |Pair(jar[0])|;
    var tail := jar[1..];
    assert Unbroken(Pair(jar[0]));
    assert forall k :: 0 <= k < n ==> Serialize(jar)[k] == Pair(jar[0])[k];
    assert |jar| > 1 ==> Serialize(jar) == Pair(jar[0]) + [SEMICOLON, BLANK] + Serialize(tail);
    if p == n + 1 {
      i := 1;
    } else {
      ValidTail(jar, 1);
      var k := BlankIsBreak(tail, p - n - 2);
      i := k + 1;
    }
  }

  lemma BlankFreeIsNotMisled(jar: Jar, name: Str)
    requires ValidJar(jar) && ValidName(name) && forall k :: 0 <= k < |jar| ==> Unbroken(jar[k].value)
    ensures !Misled(jar, name)
  {
    var s, arg := Serialize(jar), name + [EQUALS];
    forall p | Stands(s, p) && OccursAt(s, arg, p) ensures p == OwnStart(jar, name) {
      var i := 0;
      if p > 0 { i := BlankIsBreak(jar, p - 1); }
      CookieNamed(jar, name, i);
    }
  }

  /** Two cookies, the first with the second's prefix behind a blank in its value. */
  function DecoyJar(a: Str, b: Str, x: Str, decoy: Str, w: Str): Jar {
    [Cookie(a, x + [BLANK] + (b + [EQUALS] + decoy)), Cookie(b, w)]
  }

  lemma DecoyText(a: Str, b: Str, x: Str, decoy: Str, w: Str) returns (before: Str, after: Str)
    requires ValidName(a) && ValidName(b) && Unbroken(x) && OneField(decoy)
    ensures Serialize(DecoyJar(a, b, x, decoy, w)) == before + Pair(Cookie(b, decoy)) + after
    ensures |before| == |a| + |x| + 2 && before[|before| - 1] == BLANK
    ensures forall k :: 0 <= k < |before| - 1 ==> before[k] != BLANK
    ensures after != [] && after[0] == SEMICOLON
  {
    var jar := DecoyJar(a, b, x, decoy, w);
    before := a + [EQUALS] + x + [BLANK];
    after := [SEMICOLON, BLANK] + Serialize(jar[1..]);
    assert Pair(jar[0]) == before + Pair(Cookie(b, decoy));
  }

  lemma DecoyFound(s: Str, before: Str, b: Str, decoy: Str, after: Str)
    requires s == before + Pair(Cookie(b, decoy)) + after && !OccursAt(s, b + [EQUALS], 0)
    requires |before| > 0 && before[|before| - 1] == BLANK && forall k :: 0 <= k < |before| - 1 ==> before[k] != BLANK
    ensures TopStart(s, b + [EQUALS], 0) == |before|
  {
    var p, arg := |before|, b + [EQUALS];
    assert s[..p] == before && s[p..p + |arg|] == arg;
    forall k | 0 <= k < p ensures s[k] == before[k] {
      assert s[..p][k] == before[k];
    }
    FindIs(s, BLANK, 0, p - 1);
    forall k | 0 <= k < |arg| ensures s[p + k] == arg[k] {
      assert s[p..p + |arg|][k] == arg[k];
    }
    assert OccursAt(s, arg, p);
  }

  lemma DecoyTaken(s: Str, before: Str, b: Str, decoy: Str, after: Str)
    requires s == before + Pair(Cookie(b, decoy)) + after && !OccursAt(s, b + [EQUALS], 0)
    requires |before| > 0 && before[|before| - 1] == BLANK && forall k :: 0 <= k < |before| - 1 ==> before[k] != BLANK
    requires ValidName(b) && OneField(decoy) && after != [] && after[0] == SEMICOLON
    ensures TopText(s, b + [EQUALS]) == Some(Unescaped(decoy))
  {
    ValueIn(s, before, Cookie(b, decoy), after, |before|, |before| + |b| + 1);
    DecoyFound(s, before, b, decoy, after);
    TopTextAt(s, b, |before|, Some(decoy));
  }

  lemma DecoyReads(a: Str, b: Str, x: Str, decoy: Str, w: Str)
    requires ValidName(a) && ValidName(b) && a != b && Unbroken(x) && OneField(decoy) && OneField(w)
    ensures var jar := DecoyJar(a, b, x, decoy, w);
            ValidJar(jar) && Read(jar, b) == Some(Unescaped(w)) && !OccursAt(Serialize(jar), b + [EQUALS], 0)
  {
    var jar := DecoyJar(a, b, x, decoy, w);
    assert OneField(jar[0].value);
    LookupAt(jar, 1);
    FirstCookieNamed(jar, b);
  }

  /** On `a=x b=decoy; b=w` getCookie answers w and GetTopCookie the decoy. */
  lemma TopCookieMisled(a: Str, b: Str, x: Str, decoy: Str, w: Str)
    requires ValidName(a) && ValidName(b) && a != b && Unbroken(x) && OneField(decoy) && OneField(w)
    ensures var jar := DecoyJar(a, b, x, decoy, w);
            && ValidJar(jar) && Read(jar, b) == Some(Unescaped(w))
            && TopText(Serialize(jar), b + [EQUALS]) == Some(Unescaped(decoy))
  {
    DecoyReads(a, b, x, decoy, w);
    var before, after := DecoyText(a, b, x, decoy, w);
    DecoyTaken(Serialize(DecoyJar(a, b, x, decoy, w)), before, b, decoy, after);
  }

  // ---------- Storing a cookie ----------

  /** "; expires=" */
  const ATTR_EXPIRES: Str := [59, 32, 101, 120, 112, 105, 114, 101, 115, 61]
  /** "; path=" */
  const ATTR_PATH: Str := [59, 32, 112, 97, 116, 104, 61]
  /** "; domain=" */
  const ATTR_DOMAIN: Str := [59, 32, 100, 111, 109, 97, 105, 110, 61]
  /** "; secure" */
  const ATTR_SECURE: Str := [59, 32, 115, 101, 99, 117, 114, 101]
  /** "; expires=Thu, 01-Jan-70 00:00:01 GMT" */
  const LONG_EXPIRED: Str := [
    59, 32, 101, 120, 112, 105, 114, 101, 115, 61, 84, 104, 117, 44, 32, 48, 49, 45, 74, 97, 110, 45,
    55, 48, 32, 48, 48, 58, 48, 48, 58, 48, 49, 32, 71, 77, 84
  ]
  /** ";expires=" */
  const TOP_EXPIRES: Str := [59, 101, 120, 112, 105, 114, 101, 115, 61]

  lemma TextsSpell()
    ensures ATTR_EXPIRES == Ascii("; expires=") && ATTR_PATH == Ascii("; path=") && ATTR_DOMAIN == Ascii("; domain=")
    ensures ATTR_SECURE == Ascii("; secure") && TOP_EXPIRES == Ascii(";expires=")
    ensures LONG_EXPIRED == Ascii("; expires=Thu, 01-Jan-70 00:00:01 GMT")
  {
  }

  /** An attribute is written unless it is missing or empty. */
  function Attribute(key: Str, value: Option<Str>): Str {
    if value.Some? && value.value != [] then key + value.value else []
  }

  function SetAttributes(expires: Option<Str>, path: Option<Str>, domain: Option<Str>, secure: bool): (s: Str)
    ensures s == [] || s[0] == SEMICOLON
  {
    Attribute(ATTR_EXPIRES, expires) + Attribute(ATTR_PATH, path) + Attribute(ATTR_DOMAIN, domain)
    + (if secure then ATTR_SECURE else [])
  }

  function DeleteAttributes(path: Option<Str>, domain: Option<Str>): (s: Str)
    ensures s != [] && s[0] == SEMICOLON
  {
    Attribute(ATTR_PATH, path) + Attribute(ATTR_DOMAIN, domain) + LONG_EXPIRED
  }

  /** What the attributes spell; a missing or an empty one leaves no trace. */
  lemma AttributesSpell(e: Str, p: Str, d: Str)
    requires e != [] && p != [] && d != []
    ensures SetAttributes(Some(e), Some(p), Some(d), true)
            == Ascii("; expires=") + e + (Ascii("; path=") + p) + (Ascii("; domain=") + d) + Ascii("; secure")
    ensures SetAttributes(Some(e), None, None, false) == Ascii("; expires=") + e
    ensures SetAttributes(None, Some(p), None, false) == Ascii("; path=") + p
    ensures SetAttributes(None, None, Some(d), false) == Ascii("; domain=") + d
    ensures SetAttributes(None, None, None, true) == Ascii("; secure")
    ensures SetAttributes(Some([]), Some([]), Some([]), false) == SetAttributes(None, None, None, false) == []
    ensures DeleteAttributes(None, None) == Ascii("; expires=Thu, 01-Jan-70 00:00:01 GMT")
    ensures DeleteAttributes(Some(p), Some(d))
            == Ascii("; path=") + p + (Ascii("; domain=") + d) + Ascii("; expires=Thu, 01-Jan-70 00:00:01 GMT")
    ensures TOP_EXPIRES == Ascii(";expires=")
  {
    TextsSpell();
  }

  /** Without blanks and tabs at either end. */
  function Trim(s: Str): Str {
    if s != [] && (s[0] == BLANK || s[0] == TAB) then Trim(s[1..])
    else if s != [] && (s[|s| - 1] == BLANK || s[|s| - 1] == TAB) then Trim(s[..|s| - 1])
    else s
  }

  /** Trimming takes off the blanks and tabs around and nothing else. */
  lemma {:induction false} TrimIs(a: Str, w: Str, b: Str)
    requires forall k :: 0 <= k < |a| ==> a[k] == 32 || a[k] == 9
    requires forall k :: 0 <= k < |b| ==> b[k] == 32 || b[k] == 9
    requires w != [] ==> w[0] !in {32, 9} && w[|w| - 1] !in {32, 9}
    ensures Trim(a + w + b) == w
    decreases |a| + |b|
  {
    var s := a + w + b;
    if |a| > 0 {
      TrimIs(a[1..], w, b);
      assert s[0] == a[0] && s[1..] == a[1..] + w + b;
    } else if |b| > 0 {
      if |w| == 0 {
        TrimIs(a, w, b[1..]);
        assert s[0] == b[0] && s[1..] == a + w + b[1..];
      } else {
        TrimIs(a, w, b[..|b| - 1]);
        assert s[0] == w[0] && s[|s| - 1] == b[|b| - 1] && s[..|s| - 1] == a + w + b[..|b| - 1];
      }
    } else {
      assert s == w;
    }
  }

  /** A cookie takes the place of one with its name, or comes last. */
  function Upsert(jar: Jar, c: Cookie): Jar {
    if jar == [] then [c]
    else if jar[0].name == c.name then [c] + jar[1..]
    else [jar[0]] + Upsert(jar[1..], c)
  }

  /** Without the cookie of that name. */
  function Removed(jar: Jar, name: Str): Jar {
    if jar == [] then []
    else if jar[0].name == name then Removed(jar[1..], name)
    else [jar[0]] + Removed(jar[1..], name)
  }

  /** What the browser makes of a cookie's attributes: the document sees the cookie from now on,
      its time is up, or it is refused or kept for places other than this document. */
  datatype Verdict = Accepted | Expired | Elsewhere

  /** The jar after a set-cookie-string: sections 5.2 and 5.3 of RFC 6265. */
  function Stored(jar: Jar, text: Str, judge: Str -> Verdict): Jar {
    var end := Find(text, SEMICOLON, 0);
    var pair := text[..end];
    var eq := Find(pair, EQUALS, 0);
    if eq == |pair| || Trim(pair[..eq]) == [] then jar
    else
      match judge(text[end..])
      case Accepted => Upsert(jar, Cookie(Trim(pair[..eq]), Trim(pair[eq + 1..])))
      case Expired => Removed(jar, Trim(pair[..eq]))
      case Elsewhere => jar
  }

  /** What a name reads as after a value was stored under it. */
  function After(verdict: Verdict, value: Str, before: Option<Str>): Option<Str> {
    match verdict
    case Accepted => Some(value)
    case Expired => None
    case Elsewhere => before
  }

  lemma PairParses(c: Cookie)
    requires ValidCookie(c)
    ensures Find(Pair(c), EQUALS, 0) == |c.name| && Pair(c)[..|c.name|] == c.name && Pair(c)[|c.name| + 1..] == c.value
    ensures Trim(c.name) == c.name
  {
    FindIs(Pair(c), EQUALS, 0, |c.name|);
  }

  lemma FirstPart(pair: Str, attributes: Str)
    requires OneField(pair) && (attributes == [] || attributes[0] == SEMICOLON)
    ensures var s, end := pair + attributes, Find(pair + attributes, SEMICOLON, 0);
            s[..end] == pair && s[end..] == attributes
  {
    var s := pair + attributes;
    if attributes != [] { assert s[|pair|] == SEMICOLON; }
    FindIs(s, SEMICOLON, 0, |pair|);
  }

  lemma StoredParses(jar: Jar, c: Cookie, attributes: Str, judge: Str -> Verdict)
    requires ValidCookie(c) && (attributes == [] || attributes[0] == SEMICOLON)
    ensures Stored(jar, Pair(c) + attributes, judge) ==
            match judge(attributes)
            case Accepted => Upsert(jar, Cookie(c.name, Trim(c.value)))
            case Expired => Removed(jar, c.name)
            case Elsewhere => jar
  {
    PairHolds(c);
    FirstPart(Pair(c), attributes);
    PairParses(c);
  }

  lemma ConsIsValid(c: Cookie, jar: Jar)
    requires ValidJar(jar) && ValidCookie(c) && c.name !in Values(jar)
    ensures ValidJar([c] + jar)
  {
    NamesAreKeys(jar);
    var r := [c] + jar;
    assert forall i :: 1 <= i < |r| ==> r[i] == jar[i - 1];
  }

  lemma ConsValues(c: Cookie, jar: Jar)
    ensures Values([c] + jar) == Values(jar)[c.name := c.value]
  {
    assert ([c] + jar)[1..] == jar;
  }

  lemma {:induction false} UpsertValues(jar: Jar, c: Cookie)
    ensures Values(Upsert(jar, c)) == Values(jar)[c.name := c.value]
  {
    if jar == [] {
      ConsValues(c, []);
      assert [c] + [] == [c];
    } else if jar[0].name == c.name {
      ConsValues(c, jar[1..]);
    } else {
      UpsertValues(jar[1..], c);
      ConsValues(jar[0], Upsert(jar[1..], c));
    }
  }

  lemma {:induction false} UpsertValid(jar: Jar, c: Cookie)
    requires ValidJar(jar) && ValidCookie(c)
    ensures ValidJar(Upsert(jar, c))
  {
    if jar != [] {
      var head, tail := jar[0], jar[1..];
      ValidTail(jar, 1);
      NamesAreKeys(tail);
      if head.name == c.name {
        ConsIsValid(c, tail);
      } else {
        UpsertValid(tail, c);
        UpsertValues(tail, c);
        ConsIsValid(head, Upsert(tail, c));
      }
    }
  }

  lemma {:induction false} RemovedValues(jar: Jar, name: Str)
    ensures Values(Removed(jar, name)) == Values(jar) - {name}
  {
    if jar != [] {
      RemovedValues(jar[1..], name);
      if jar[0].name != name { ConsValues(jar[0], Removed(jar[1..], name)); }
    }
  }

  lemma {:induction false} RemovedValid(jar: Jar, name: Str)
    requires ValidJar(jar)
    ensures ValidJar(Removed(jar, name))
  {
    if jar != [] {
      var head, tail := jar[0], jar[1..];
      ValidTail(jar, 1);
      NamesAreKeys(tail);
      RemovedValid(tail, name);
      RemovedValues(tail, name);
      if head.name != name { ConsIsValid(head, Removed(tail, name)); }
    }
  }

  lemma EscapedIsUnbroken(v: Str)
    ensures Unbroken(Escaped(v)) && Trim(Escaped(v)) == Escaped(v)
  {
    EscapedUnits(v);
  }

  lemma {:induction false} TrimIsOneField(s: Str)
    requires OneField(s)
    ensures OneField(Trim(s))
    decreases |s|
  {
    if |s| > 0 && (s[0] == BLANK || s[0] == TAB) { TrimIsOneField(s[1..]); }
    else if |s| > 0 && (s[|s| - 1] == BLANK || s[|s| - 1] == TAB) { TrimIsOneField(s[..|s| - 1]); }
  }

  /** One name reads as given, every other as before. */
  ghost predicate Changes(after: Jar, before: Jar, name: Str, value: Option<Str>) {
    ValidJar(after) && forall n :: Read(after, n) == if n == name then value else Read(before, n)
  }

  lemma UpsertChanges(jar: Jar, c: Cookie)
    requires ValidJar(jar) && ValidCookie(c)
    ensures Changes(Upsert(jar, c), jar, c.name, Some(Unescaped(c.value)))
  {
    UpsertValid(jar, c);
    UpsertValues(jar, c);
  }

  lemma RemovedChanges(jar: Jar, name: Str)
    requires ValidJar(jar)
    ensures Changes(Removed(jar, name), jar, name, None)
  {
    RemovedValid(jar, name);
    RemovedValues(jar, name);
  }

  lemma ChangesNothing(jar: Jar, name: Str)
    requires ValidJar(jar)
    ensures Changes(jar, jar, name, Read(jar, name))
  {
  }

  /** Storing changes one name, to what the text spells without blanks and tabs around it, as the
      verdict on the attributes has it. */
  lemma StoredReads(jar: Jar, name: Str, raw: Str, attributes: Str, judge: Str -> Verdict)
    requires ValidJar(jar) && ValidName(name) && OneField(raw) && (attributes == [] || attributes[0] == SEMICOLON)
    ensures Changes(Stored(jar, name + [EQUALS] + raw + attributes, judge), jar, name,
                    After(judge(attributes), Unescaped(Trim(raw)), Read(jar, name)))
  {
    StoredParses(jar, Cookie(name, raw), attributes, judge);
    TrimIsOneField(raw);
    match judge(attributes)
    case Accepted => UpsertChanges(jar, Cookie(name, Trim(raw)));
    case Expired => RemovedChanges(jar, name);
    case Elsewhere => ChangesNothing(jar, name);
  }

  lemma RawText(name: Str, value: Str, key: Str, expires: Str, k: nat)
    requires k == Find(value, SEMICOLON, 0) && key != [] && key[0] == SEMICOLON
    ensures OneField(value[..k]) && (value[k..] + key + expires)[0] == SEMICOLON
    ensures name + [EQUALS] + value + key + expires == name + [EQUALS] + value[..k] + (value[k..] + key + expires)
  {
    FindIsFirst(value, SEMICOLON, 0);
    assert value == value[..k] + value[k..];
  }

  // ---------- The browser's cookie store and the two readers ----------

  class Document {
    const judge: Str -> Verdict
    var jar: Jar

    constructor (judge: Str -> Verdict)
      ensures jar == [] && this.judge == judge
    {
      this.judge, jar := judge, [];
    }

    /** The two searches of getCookie: where the cookie of that prefix starts, or -1. */
    method CookieStart(dc: Str, prefix: Str) returns (begin: int)
      ensures begin == -1 ==> Nowhere(dc, [SEMICOLON, BLANK] + prefix) && !OccursAt(dc, prefix, 0)
      ensures begin != -1 ==>
                || (begin >= 2 && OccursAt(dc, [SEMICOLON, BLANK] + prefix, begin - 2))
                || (begin == 0 && OccursAt(dc, prefix, 0) && Nowhere(dc, [SEMICOLON, BLANK] + prefix))
    {
      begin := IndexOf(dc, [SEMICOLON, BLANK] + prefix, 0);
      IndexOfIsFirst(dc, [SEMICOLON, BLANK] + prefix, 0);
      if begin == -1 {
        IndexOfIsFirst(dc, prefix, 0);
        begin := IndexOf(dc, prefix, 0);
        if begin != 0 {
          return -1;
        }
      } else {
        begin := begin + 2;
      }
    }

    /** The text between the prefix found at `begin` and the next semicolon. */
    method ReadFrom(dc: Str, prefix: Str, begin: nat, ghost value: Str) returns (r: Option<Str>)
      requires ReadsAt(dc, begin, begin + |prefix|, value)
      ensures r == Some(value)
    {
      IndexOfUnit(dc, SEMICOLON, begin);
      var end := IndexOf(dc, [SEMICOLON], begin);
      if end == -1 { end := |dc|; }
      r := Some(dc[begin + |prefix|..end]);
    }

    /** getCookie of cookies.js, up to the final unescape. */
    method FindCookie(name: Str) returns (r: Option<Str>)
      requires ValidJar(jar) && ValidName(name)
      ensures r == Lookup(jar, name)
    {
      var dc := Serialize(jar);
      var prefix := name + [EQUALS];
      var begin := CookieStart(dc, prefix);
      ghost var value;
      if begin < 2 {
        value := FoundFirst(jar, name, prefix);
        if begin == -1 {
          return None;
        }
      } else {
        value := FoundLater(jar, name, prefix, begin);
      }
      r := ReadFrom(dc, prefix, begin, value);
    }

    /** getCookie of cookies.js. */
    method GetCookie(name: Str) returns (r: Option<Str>)
      requires ValidJar(jar) && ValidName(name)
      ensures r == Read(jar, name)
    {
      var raw := FindCookie(name);
      r := UnescapedOption(raw);
    }

    /** getTopCookieVal of help.js. */
    method GetTopCookieVal(cookie: Str, offset: nat) returns (r: Str)
      requires offset <= |cookie|
      ensures r == Unescaped(UpToSemicolon(cookie, offset))
    {
      IndexOfUnit(cookie, SEMICOLON, offset);
      var endstr := IndexOf(cookie, [SEMICOLON], offset);
      if endstr == -1 { endstr := |cookie|; }
      r := Unescaped(cookie[offset..endstr]);
    }

    /** The scan of GetTopCookie from blank to blank: where it finds the prefix, or -1. */
    method TopPosition(cookie: Str, arg: Str) returns (p: int)
      ensures p == TopStart(cookie, arg, 0)
    {
      var alen, clen := |arg|, |cookie|;
      ghost var start := TopStart(cookie, arg, 0);
      var i := 0;
      while i < clen
        invariant 0 <= i && TopStart(cookie, arg, i) == start
        decreases clen - i
      {
        var j := i + alen;
        ScanRound(cookie, arg, i);
        if Substring(cookie, i, j) == arg { return i; }
        i := IndexOf(cookie, [BLANK], i) + 1;
        if i == 0 { break; }
      }
      p := -1;
    }

    method ReadTop(cookie: Str, arg: Str) returns (r: Option<Str>)
      ensures r == TopText(cookie, arg)
    {
      var p := TopPosition(cookie, arg);
      if p == -1 {
        r := None;
      } else {
        var value := GetTopCookieVal(cookie, p + |arg|);
        r := Some(value);
      }
    }

    /** GetTopCookie of help.js. */
    method GetTopCookie(name: Str) returns (r: Option<Str>)
      ensures r == TopText(Serialize(jar), name + [EQUALS])
      ensures ValidJar(jar) && ValidName(name) && !Misled(jar, name) ==> r == Read(jar, name)
    {
      r := ReadTop(Serialize(jar), name + [EQUALS]);
      GetTopCookieReads(jar, name, r);
    }

    /** The browser's side of an assignment to document.cookie. */
    method Store(text: Str)
      modifies `jar
      ensures jar == Stored(old(jar), text, judge)
    {
      jar := Stored(jar, text, judge);
    }

    /** setCookie of cookies.js. */
    method SetCookie(name: Str, value: Str, expires: Option<Str>, path: Option<Str>, domain: Option<Str>, secure: bool)
      requires ValidJar(jar) && ValidName(name)
      modifies `jar
      ensures Changes(jar, old(jar), name,
              After(judge(SetAttributes(expires, path, domain, secure)), value, Read(old(jar), name)))
    {
      var attributes := SetAttributes(expires, path, domain, secure);
      EscapedIsUnbroken(value);
      UnescapeUndoesEscape(value);
      StoredReads(jar, name, Escaped(value), attributes, judge);
      Store(name + [EQUALS] + Escaped(value) + attributes);
    }

    /** SetCookie of help.js: the value goes out as it is, so that what follows a semicolon in it
        counts as attributes, and what comes back is trimmed and unescaped. */
    method SetTopCookie(name: Str, value: Str, expires: Str)
      requires ValidJar(jar) && ValidName(name)
      modifies `jar
      ensures var k := Find(value, SEMICOLON, 0);
              Changes(jar, old(jar), name,
                      After(judge(value[k..] + TOP_EXPIRES + expires), Unescaped(Trim(value[..k])),
                        Read(old(jar), name)))
    {
      ghost var k := Find(value, SEMICOLON, 0);
      RawText(name, value, TOP_EXPIRES, expires, k);
      StoredReads(jar, name, value[..k], value[k..] + TOP_EXPIRES + expires, judge);
      Store(name + [EQUALS] + value + TOP_EXPIRES + expires);
    }

    /** deleteCookie of cookies.js: an empty value counts as no cookie and is left alone. */
    method DeleteCookie(name: Str, path: Option<Str>, domain: Option<Str>)
      requires ValidJar(jar) && ValidName(name)
      modifies `jar
      ensures Changes(jar, old(jar), name,
                      var was := Read(old(jar), name);
                      if was in {None, Some([])} then was else After(judge(DeleteAttributes(path, domain)), [], was))
    {
      var value := GetCookie(name);
      if value.Some? && value.value != [] {
        var attributes := DeleteAttributes(path, domain);
        StoredReads(jar, name, [], attributes, judge);
        assert name + [EQUALS] + [] == name + [EQUALS];
        Store(name + [EQUALS] + attributes);
      } else {
        ChangesNothing(jar, name);
      }
    }
  }
}
