/** JavaScript strings: sequences of 16-bit code units. */
module JsString {
  type CodeUnit = c: nat | c < 0x1_0000
  type Str = seq<CodeUnit>

  const BLANK: CodeUnit := 32

  /** The string that a literal of ASCII characters spells. */
  function Ascii(text: string): (s: Str)
    requires forall k :: 0 <= k < |text| ==> text[k] as int < 128
    ensures |s| == |text| && forall k :: 0 <= k < |text| ==> s[k] == text[k] as int
  {
    seq(|text|, k requires 0 <= k < |text| => text[k] as int)
  }

  /** The first position of `c` at or after `from`, or the length. */
  function Find(s: Str, c: CodeUnit, from: nat): (n: nat)
    requires from <= |s|
    ensures from <= n <= |s|
    decreases |s| - from
  {
    if from == |s| || s[from] == c then from else Find(s, c, from + 1)
  }

  lemma {:induction false} FindIsFirst(s: Str, c: CodeUnit, from: nat)
    requires from <= |s|
    ensures var n := Find(s, c, from);
            (n < |s| ==> s[n] == c) && forall k :: from <= k < n ==> s[k] != c
    decreases |s| - from
  {
    if from < |s| && s[from] != c { FindIsFirst(s, c, from + 1); }
  }

  lemma {:induction false} FindIs(s: Str, c: CodeUnit, from: nat, at: nat)
    requires from <= at <= |s| && (at < |s| ==> s[at] == c)
    requires forall k :: from <= k < at ==> s[k] != c
    ensures Find(s, c, from) == at
    decreases |s| - from
  {
    if from < at { FindIs(s, c, from + 1, at); }
  }

  lemma ConcatAssociates<T>(a: seq<T>, b: seq<T>, c: seq<T>)
    ensures (a + b) + c == a + (b + c)
  {
  }

  lemma AtTheFront<T>(p: seq<T>, a: seq<T>, b: seq<T>, c: seq<T>)
    ensures (p + a) + b + c == p + (a + b + c)
  {
    ConcatAssociates(p, a + b, c);
    ConcatAssociates(p, a, b);
  }

  /** Taking k units off the front of the first of three parts. */
  lemma CutFront<T>(a: seq<T>, b: seq<T>, c: seq<T>, k: nat)
    requires k <= |a|
    ensures (a + b + c)[..k] == a[..k] && (a + b + c)[k..] == a[k..] + b + c
  {
  }

  /** Does `p` occur in `s` at position `k`? */
  predicate OccursAt(s: Str, p: Str, k: int) {
    0 <= k && k + |p| <= |s| && forall i :: 0 <= i < |p| ==> s[k + i] == p[i]
  }

  /** String.prototype.indexOf: the first position at or after `from`, or -1.  The start is
      clamped to the length, so an empty pattern is always found. */
  function IndexOf(s: Str, p: Str, from: nat): (r: int)
    ensures -1 <= r <= |s|
    ensures r != -1 && from <= |s| ==> from <= r
    decreases |s| - from
  {
    if from > |s| then (if p == [] then |s| else -1)
    else if OccursAt(s, p, from) then from
    else if from == |s| then -1
    else IndexOf(s, p, from + 1)
  }

  /** indexOf finds the first occurrence, if there is one. */
  lemma {:induction false} IndexOfIsFirst(s: Str, p: Str, from: nat)
    ensures var r := IndexOf(s, p, from);
            && (r == -1 ==> forall k :: from <= k ==> !OccursAt(s, p, k))
            && (r != -1 && from <= |s| ==>
                  from <= r && OccursAt(s, p, r) && forall k :: from <= k < r ==> !OccursAt(s, p, k))
            && (from > |s| ==> r == if p == [] then |s| else -1)
    decreases |s| - from
  {
    if from < |s| && !OccursAt(s, p, from) { IndexOfIsFirst(s, p, from + 1); }
  }

  /** indexOf for a single unit. */
  lemma IndexOfUnit(s: Str, c: CodeUnit, from: nat)
    requires from <= |s|
    ensures IndexOf(s, [c], from) == if Find(s, c, from) < |s| then Find(s, c, from) else -1
  {
    FindIsFirst(s, c, from);
    IndexOfIsFirst(s, [c], from);
    assert forall k :: OccursAt(s, [c], k) ==> s[k + 0] == [c][0];
    var n := Find(s, c, from);
    if n < |s| { assert OccursAt(s, [c], n); }
  }

  /** String.prototype.substring for positions in order, the second one clamped to the length. */
  function Substring(s: Str, i: nat, j: nat): Str
    requires i <= |s| && i <= j
  {
    s[i..if j < |s| then j else |s|]
  }

  lemma SubstringEquals(s: Str, p: Str, i: nat)
    requires i <= |s|
    ensures Substring(s, i, i + |p|) == p <==> OccursAt(s, p, i)
  {
    var t := Substring(s, i, i + |p|);
    assert forall k :: 0 <= k < |t| ==> t[k] == s[i + k];
    if OccursAt(s, p, i) { assert t == p; }
  }
}
