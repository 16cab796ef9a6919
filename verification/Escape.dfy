/** The global functions escape and unescape: sections B.2.1 and B.2.2 of ECMA-262 5.1. */
module Escape {
  import opened JsString

  const PERCENT: CodeUnit := 37
  const LOWER_U: CodeUnit := 117

  /** ASCII letters and digits and `@*_+-./` stand for themselves. */
  predicate IsPlain(c: CodeUnit) {
    65 <= c <= 90 || 97 <= c <= 122 || 48 <= c <= 57
    || c == 64 || c == 42 || c == 95 || c == 43 || c == 45 || c == 46 || c == 47
  }

  function HexDigit(n: nat): CodeUnit
    requires n < 16
  {
    if n < 10 then 48 + n else 55 + n
  }

  /** The value of a hexadecimal digit, or 16 for any other unit. */
  function HexValue(c: CodeUnit): (n: nat)
    ensures n <= 16
  {
    if 48 <= c <= 57 then c - 48 else if 65 <= c <= 70 then c - 55 else if 97 <= c <= 102 then c - 87 else 16
  }

  predicate AllHex(s: Str) {
    forall k :: 0 <= k < |s| ==> HexValue(s[k]) < 16
  }

  lemma Digits()
    ensures forall n :: 0 <= n < 16 ==> HexDigit(n) == Ascii("0123456789ABCDEF")[n]
  {
    var digit := Ascii("0123456789ABCDEF");
    forall n | 0 <= n < 16 ensures HexDigit(n) == digit[n] {
      assert n in {0, 1, 2, 3, 4, 5, 6, 7, 8, 9, 10, 11, 12, 13, 14, 15};
    }
  }

  predicate InRange(c: CodeUnit, first: char, last: char) {
    first as int <= c <= last as int
  }

  lemma PlainUnits(c: CodeUnit)
    ensures IsPlain(c) <==>
              InRange(c, 'A', 'Z') || InRange(c, 'a', 'z') || InRange(c, '0', '9') || c in Ascii("@*_+-./")
  {
    assert Ascii("@*_+-./") == [64, 42, 95, 43, 45, 46, 47];
  }

  function EscapeUnit(c: CodeUnit): Str {
    if IsPlain(c) then [c]
    else if c < 256 then [PERCENT, HexDigit(c / 16), HexDigit(c % 16)]
    else [PERCENT, LOWER_U, HexDigit(c / 4096), HexDigit(c / 256 % 16), HexDigit(c / 16 % 16), HexDigit(c % 16)]
  }

  function Escaped(s: Str): Str {
    if s == [] then [] else EscapeUnit(s[0]) + Escaped(s[1..])
  }

  function Unescaped(s: Str): Str {
    if s == [] then []
    else if s[0] == PERCENT && |s| >= 6 && s[1] == LOWER_U && AllHex(s[2..6]) then
      [HexValue(s[2]) * 4096 + HexValue(s[3]) * 256 + HexValue(s[4]) * 16 + HexValue(s[5])] + Unescaped(s[6..])
    else if s[0] == PERCENT && |s| >= 3 && AllHex(s[1..3]) then
      [HexValue(s[1]) * 16 + HexValue(s[2])] + Unescaped(s[3..])
    else [s[0]] + Unescaped(s[1..])
  }

  /** What escape writes for a unit, with upper-case hexadecimal digits. */
  lemma EscapeSpells(c: CodeUnit)
    ensures var digit := Ascii("0123456789ABCDEF");
            EscapeUnit(c) ==
            if InRange(c, 'A', 'Z') || InRange(c, 'a', 'z') || InRange(c, '0', '9') || c in Ascii("@*_+-./") then [c]
            else if c < 256 then Ascii("%") + [digit[c / 16], digit[c % 16]]
            else Ascii("%u") + [digit[c / 4096], digit[c / 256 % 16], digit[c / 16 % 16], digit[c % 16]]
  {
    PlainUnits(c);
    Digits();
  }

  lemma HexRoundTrip(n: nat)
    requires n < 16
    ensures HexValue(HexDigit(n)) == n && HexDigit(n) != LOWER_U && IsPlain(HexDigit(n))
  {
  }

  /** A unit is the number its hexadecimal digits spell. */
  lemma UnitDigits(c: CodeUnit)
    ensures c == c / 4096 * 4096 + c / 256 % 16 * 256 + c / 16 % 16 * 16 + c % 16
    ensures c / 4096 < 16 && (c < 256 ==> c / 16 < 16)
  {
    assert c / 16 / 16 == c / 256 && c / 256 / 16 == c / 4096;
  }

  lemma UnescapeShort(a: nat, b: nat, rest: Str)
    requires a < 16 && b < 16
    ensures Unescaped([PERCENT, HexDigit(a), HexDigit(b)] + rest) == [a * 16 + b] + Unescaped(rest)
  {
    var e := [PERCENT, HexDigit(a), HexDigit(b)];
    var s := e + rest;
    HexRoundTrip(a);
    HexRoundTrip(b);
    assert s[3..] == rest && s[1..3] == e[1..3];
  }

  lemma UnescapeLong(a: nat, b: nat, c: nat, d: nat, rest: Str)
    requires a < 16 && b < 16 && c < 16 && d < 16
    ensures Unescaped([PERCENT, LOWER_U, HexDigit(a), HexDigit(b), HexDigit(c), HexDigit(d)] + rest)
            == [a * 4096 + b * 256 + c * 16 + d] + Unescaped(rest)
  {
    var e := [PERCENT, LOWER_U, HexDigit(a), HexDigit(b), HexDigit(c), HexDigit(d)];
    var s := e + rest;
    HexRoundTrip(a);
    HexRoundTrip(b);
    HexRoundTrip(c);
    HexRoundTrip(d);
    assert s[6..] == rest && s[2..6] == e[2..6];
  }

  lemma UnescapeUnit(c: CodeUnit, rest: Str)
    ensures Unescaped(EscapeUnit(c) + rest) == [c] + Unescaped(rest)
  {
    UnitDigits(c);
    if IsPlain(c) {
      assert ([c] + rest)[1..] == rest;
    } else if c < 256 {
      UnescapeShort(c / 16, c % 16, rest);
    } else {
      UnescapeLong(c / 4096, c / 256 % 16, c / 16 % 16, c % 16, rest);
    }
  }

  /** Is the unit a hexadecimal digit, in either case, worth n? */
  predicate Spells(c: CodeUnit, n: nat) {
    n < 16 && c in {Ascii("0123456789ABCDEF")[n], Ascii("0123456789abcdef")[n]}
  }

  predicate IsHexDigit(c: CodeUnit) {
    InRange(c, '0', '9') || InRange(c, 'A', 'F') || InRange(c, 'a', 'f')
  }

  lemma HexValueIs(c: CodeUnit, n: nat)
    ensures HexValue(c) < 16 <==> IsHexDigit(c)
    ensures n < 16 ==> (HexValue(c) == n <==> Spells(c, n))
  {
    if n < 16 {
      assert n in {0, 1, 2, 3, 4, 5, 6, 7, 8, 9, 10, 11, 12, 13, 14, 15};
    }
  }

  /** Whoever wrote it, the short form of an escape is read, with digits in either case. */
  lemma UnescapeReadsShort(x: CodeUnit, y: CodeUnit, m: nat, n: nat, rest: Str)
    requires Spells(x, m) && Spells(y, n)
    ensures Unescaped([37, x, y] + rest) == [m * 16 + n] + Unescaped(rest)
  {
    HexValueIs(x, m);
    HexValueIs(y, n);
    assert !Spells(117, m);
    var s := [37, x, y] + rest;
    assert s[1..3] == [x, y] && s[3..] == rest;
  }

  /** So is the long form. */
  lemma UnescapeReadsLong(x: Str, n: seq<nat>, rest: Str)
    requires |x| == |n| == 4 && forall k :: 0 <= k < 4 ==> Spells(x[k], n[k])
    ensures Unescaped([37, 117] + x + rest) == [n[0] * 4096 + n[1] * 256 + n[2] * 16 + n[3]] + Unescaped(rest)
  {
    forall k | 0 <= k < 4 ensures HexValue(x[k]) == n[k] < 16 { HexValueIs(x[k], n[k]); }
    var s := [37, 117] + x + rest;
    assert s[2..6] == x && s[6..] == rest;
    assert s[2] == x[0] && s[3] == x[1] && s[4] == x[2] && s[5] == x[3];
  }

  lemma AllHexIs(s: Str)
    ensures AllHex(s) <==> forall k :: 0 <= k < |s| ==> IsHexDigit(s[k])
  {
  }

  lemma NoneTaken(s: Str, i: nat, j: nat, k: nat)
    requires i <= k < j <= |s| && !IsHexDigit(s[k])
    ensures !AllHex(s[i..j])
  {
    AllHexIs(s[i..j]);
    assert s[i..j][k - i] == s[k];
  }

  /** Any other unit stands for itself, a percent sign without its digits included. */
  lemma UnescapeKeeps(s: Str)
    requires s != []
    requires s[0] == 37 && |s| >= 3 ==> !IsHexDigit(s[1]) || !IsHexDigit(s[2])
    requires s[0] == 37 && |s| >= 6 && s[1] == 117 ==> exists k :: 2 <= k < 6 && !IsHexDigit(s[k])
    ensures Unescaped(s) == [s[0]] + Unescaped(s[1..])
  {
    if s[0] == 37 && |s| >= 3 {
      NoneTaken(s, 1, 3, if IsHexDigit(s[1]) then 2 else 1);
      if |s| >= 6 && s[1] == 117 {
        var k :| 2 <= k < 6 && !IsHexDigit(s[k]);
        NoneTaken(s, 2, 6, k);
      }
    }
  }

  /** unescape undoes escape on every string of 16-bit units. */
  lemma {:induction false} UnescapeUndoesEscape(s: Str)
    ensures Unescaped(Escaped(s)) == s
  {
    if s != [] {
      UnescapeUnit(s[0], Escaped(s[1..]));
      UnescapeUndoesEscape(s[1..]);
    }
  }

  /** Escaped text holds only plain units and percent signs. */
  lemma {:induction false} EscapedUnits(s: Str)
    ensures forall k :: 0 <= k < |Escaped(s)| ==> IsPlain(Escaped(s)[k]) || Escaped(s)[k] == PERCENT
  {
    if s != [] {
      EscapedUnits(s[1..]);
      forall n | 0 <= n < 16 ensures IsPlain(HexDigit(n)) { HexRoundTrip(n); }
    }
  }
}
