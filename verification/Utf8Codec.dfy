/**
  Url._utf8_encode and Url._utf8_decode.

  A shift by k places is a division or multiplication by 2^k; `&` and `|` are Bits.And and Bits.Or.
 */
module Utf8Codec {
  import opened JsString
  import opened Bits

  const CR: CodeUnit := 13
  const LF: CodeUnit := 10

  /** `string.replace(/\r\n/g, "\n")`. */
  function NormalizeNewlines(s: Str): Str {
    if |s| < 2 then s
    else if s[0] == CR && s[1] == LF then [LF] + NormalizeNewlines(s[2..])
    else [s[0]] + NormalizeNewlines(s[1..])
  }

  /** A carriage return with a line feed after it. */
  predicate PairAt(s: Str, k: int) {
    0 <= k < |s| - 1 && s[k] == 13 && s[k + 1] == 10
  }

  predicate PairFree(s: Str) {
    forall k :: 0 <= k < |s| ==> !PairAt(s, k)
  }

  /** Each CRLF becomes one LF, whatever lies around it. */
  lemma {:induction false} PairBecomesLineFeed(u: Str, v: Str)
    ensures NormalizeNewlines(u + [13, 10] + v) == NormalizeNewlines(u) + [10] + NormalizeNewlines(v)
    decreases |u|
  {
    var s, n := u + [13, 10] + v, NormalizeNewlines(v);
    if |u| == 0 {
      assert s[0] == 13 && s[1] == 10 && s[2..] == v;
    } else if |u| >= 2 && u[0] == 13 && u[1] == 10 {
      PairBecomesLineFeed(u[2..], v);
      CutFront(u, [13, 10], v, 2);
      assert s[0] == 13 && s[1] == 10;
      AtTheFront([10], NormalizeNewlines(u[2..]), [10], n);
    } else {
      PairBecomesLineFeed(u[1..], v);
      CutFront(u, [13, 10], v, 1);
      assert s[0] == u[0] && s[1] == (if |u| == 1 then 13 else u[1]);
      assert NormalizeNewlines(u) == [u[0]] + NormalizeNewlines(u[1..]);
      AtTheFront([u[0]], NormalizeNewlines(u[1..]), [10], n);
    }
  }

  /** Only they are touched: text is left as it is exactly when it holds none, else it gets shorter. */
  lemma {:induction false} UnchangedIffPairFree(s: Str)
    ensures NormalizeNewlines(s) == s <==> PairFree(s)
    ensures |NormalizeNewlines(s)| < |s| || NormalizeNewlines(s) == s
  {
    if |s| >= 2 {
      if s[0] == CR && s[1] == LF {
        UnchangedIffPairFree(s[2..]);
        assert PairAt(s, 0);
      } else {
        UnchangedIffPairFree(s[1..]);
        assert !PairAt(s, 0);
        assert forall k :: PairAt(s[1..], k) ==> PairAt(s, k + 1);
        assert forall k :: 1 <= k && PairAt(s, k) ==> PairAt(s[1..], k - 1);
        assert s == [s[0]] + s[1..];
        var t := NormalizeNewlines(s);
        assert t[0] == s[0] && t[1..] == NormalizeNewlines(s[1..]);
      }
    }
  }

  /** A CR doubled before an LF. */
  predicate TripleAt(s: Str, k: int) {
    0 <= k < |s| - 2 && s[k] == 13 && s[k + 1] == 13 && s[k + 2] == 10
  }

  predicate TripleFree(s: Str) {
    forall k :: 0 <= k < |s| ==> !TripleAt(s, k)
  }

  lemma TripleBehind(s: Str, n: nat)
    requires n <= |s| && forall k :: 0 <= k < n ==> !TripleAt(s, k)
    ensures TripleFree(s) <==> TripleFree(s[n..])
  {
    forall k | 0 <= k < |s| - n ensures TripleAt(s[n..], k) == TripleAt(s, n + k) {
    }
    if !TripleFree(s) {
      var k :| 0 <= k < |s| && TripleAt(s, k);
      assert TripleAt(s[n..], k - n);
    }
  }

  /** The replacement is not repeated: a CRLF is left, newly formed, exactly for a doubled CR before LF. */
  lemma {:induction false} PairIsLeftIff(s: Str)
    ensures PairFree(NormalizeNewlines(s)) <==> TripleFree(s)
    ensures NormalizeNewlines(s) != [] <==> s != []
    ensures s != [] ==> NormalizeNewlines(s)[0] == if PairAt(s, 0) then 10 else s[0]
  {
    var t := NormalizeNewlines(s);
    if |s| >= 2 {
      var rest := if PairAt(s, 0) then s[2..] else s[1..];
      PairIsLeftIff(rest);
      var r := NormalizeNewlines(rest);
      assert t == [t[0]] + r;
      assert forall k :: 0 <= k && PairAt(r, k) ==> PairAt(t, k + 1);
      assert forall k :: 1 <= k && PairAt(t, k) ==> PairAt(r, k - 1);
      assert PairAt(t, 0) <==> t[0] == 13 && r != [] && r[0] == 10;
      if PairAt(s, 0) {
        assert !TripleAt(s, 0) && !TripleAt(s, 1);
        TripleBehind(s, 2);
      } else if !TripleAt(s, 0) {
        TripleBehind(s, 1);
      }
    }
  }

  /** The bytes of one unit, in place-value form. */
  function EncodeUnit(c: CodeUnit): Str {
    if c < 128 then [c]
    else if c < 2048 then [192 + c / 64, 128 + c % 64]
    else [224 + c / 4096, 128 + c / 64 % 64, 128 + c % 64]
  }

  // The program's bit operations, each with the place value it produces.

  method LeadByte(high: nat, mark: nat) returns (b: CodeUnit)
    requires high < 32 && (mark == 192 || mark == 224)
    ensures b == mark + high
  {
    Marks(high);
    b := Or(high, mark);
  }

  method ContinuationByte(c: CodeUnit) returns (b: CodeUnit)
    ensures b == 128 + c % 64
  {
    Masks(c);
    Marks(And(c, 63));
    b := Or(And(c, 63), 128);
  }

  method JoinTwo(c: CodeUnit, c2: CodeUnit) returns (u: CodeUnit)
    ensures u == c % 32 * 64 + c2 % 64
  {
    Masks(c);
    Masks(c2);
    Joins(c % 32, c2 % 64);
    u := Or(And(c, 31) * 64, And(c2, 63));
  }

  method JoinUpper(high: nat, middle: nat) returns (upper: nat)
    requires high < 16 && middle < 64
    ensures upper == (high * 64 + middle) * 64
  {
    Joins(high, middle * 64);
    upper := Or(high * 4096, middle * 64);
  }

  method JoinThree(c: CodeUnit, c2: CodeUnit, c3: CodeUnit) returns (u: CodeUnit)
    ensures u == c % 16 * 4096 + c2 % 64 * 64 + c3 % 64
  {
    Masks(c);
    Masks(c2);
    Masks(c3);
    Joins(c % 16 * 64 + c2 % 64, c3 % 64);
    var upper := JoinUpper(And(c, 15), And(c2, 63));
    u := Or(upper, And(c3, 63));
  }

  function EncodeUnits(s: Str): Str {
    if s == [] then [] else EncodeUnit(s[0]) + EncodeUnits(s[1..])
  }

  /** Every emitted unit is a byte, and none leads a character of four. */
  lemma {:induction false} EncodesToBytes(s: Str)
    ensures forall k :: 0 <= k < |EncodeUnits(s)| ==> EncodeUnits(s)[k] < 240
  {
    if s != [] { EncodesToBytes(s[1..]); }
  }

  lemma EncodeCons(c: CodeUnit, s: Str)
    ensures EncodeUnits([c] + s) == EncodeUnit(c) + EncodeUnits(s)
  {
    assert ([c] + s)[1..] == s;
  }

  lemma {:induction false} EncodeUnitsAppend(s: Str, c: CodeUnit)
    ensures EncodeUnits(s + [c]) == EncodeUnits(s) + EncodeUnit(c)
  {
    var t := s + [c];
    if |s| == 0 {
      assert t[0] == c && t[1..] == s;
    } else {
      EncodeUnitsAppend(s[1..], c);
      assert t[0] == s[0] && t[1..] == s[1..] + [c];
      ConcatAssociates(EncodeUnit(s[0]), EncodeUnits(s[1..]), EncodeUnit(c));
    }
  }

  lemma EncodeOneMore(text: Str, n: nat)
    requires n < |text|
    ensures EncodeUnits(text[..n + 1]) == EncodeUnits(text[..n]) + EncodeUnit(text[n])
  {
    EncodeUnitsAppend(text[..n], text[n]);
    assert text[..n + 1] == text[..n] + [text[n]];
  }

  method Utf8Encode(s: Str) returns (utftext: Str)
    ensures utftext == EncodeUnits(NormalizeNewlines(s))
  {
    var text := NormalizeNewlines(s);
    utftext := [];
    for n := 0 to |text|
      invariant utftext == EncodeUnits(text[..n])
    {
      var c := text[n];
      EncodeOneMore(text, n);
      ghost var before := utftext;
      if c < 128 {
        utftext := utftext + [c];
      } else if c > 127 && c < 2048 {
        var b0 := LeadByte(c / 64, 192);
        utftext := utftext + [b0];
        var b1 := ContinuationByte(c);
        utftext := utftext + [b1];
        assert utftext == before + [b0, b1] == before + EncodeUnit(c);
      } else {
        var b0 := LeadByte(c / 4096, 224);
        utftext := utftext + [b0];
        var b1 := ContinuationByte(c / 64);
        utftext := utftext + [b1];
        var b2 := ContinuationByte(c);
        utftext := utftext + [b2];
        assert utftext == before + [b0, b1, b2] == before + EncodeUnit(c);
      }
    }
    assert text[..|text|] == text;
  }

  /** charCodeAt as the bit operators see it: NaN past the end counts as zero. */
  function UnitAt(s: Str, i: nat): CodeUnit {
    if i < |s| then s[i] else 0
  }

  /** How many bytes the decoder consumes on seeing `c`, and what it emits. */
  function Step(c: CodeUnit): nat {
    if c < 128 then 1 else if c > 191 && c < 224 then 2 else 3
  }

  /** The unit that the bytes at the front of `s` stand for. */
  function DecodeFirst(s: Str): CodeUnit
    requires s != []
  {
    var c := s[0];
    if c < 128 then c
    else if c > 191 && c < 224 then c % 32 * 64 + UnitAt(s, 1) % 64
    else c % 16 * 4096 + UnitAt(s, 1) % 64 * 64 + UnitAt(s, 2) % 64
  }

  function Decode(s: Str): Str {
    if s == [] then []
    else [DecodeFirst(s)] + (if Step(s[0]) < |s| then Decode(s[Step(s[0])..]) else [])
  }

  /** Decoding what lies from position i on. */
  function DecodeFrom(s: Str, i: nat): Str {
    if i < |s| then Decode(s[i..]) else []
  }

  lemma DecodeStep(s: Str, i: nat, u: CodeUnit)
    requires i < |s|
    requires var c, c2, c3 := s[i], UnitAt(s, i + 1), UnitAt(s, i + 2);
             u == if c < 128 then c
                  else if c > 191 && c < 224 then c % 32 * 64 + c2 % 64
                  else c % 16 * 4096 + c2 % 64 * 64 + c3 % 64
    ensures DecodeFrom(s, i) == [u] + DecodeFrom(s, i + Step(s[i]))
  {
    assert UnitAt(s[i..], 1) == UnitAt(s, i + 1) && UnitAt(s[i..], 2) == UnitAt(s, i + 2);
    if i + Step(s[i]) < |s| { assert s[i..][Step(s[i])..] == s[i + Step(s[i])..]; }
  }

  /** The body of the decoder's loop: the unit at i and where the next one starts. */
  method DecodeAt(utftext: Str, i: nat) returns (u: CodeUnit, next: nat)
    requires i < |utftext|
    ensures next > i && DecodeFrom(utftext, i) == [u] + DecodeFrom(utftext, next)
  {
    var c := utftext[i];
    if c < 128 {
      u, next := c, i + 1;
    } else if c > 191 && c < 224 {
      var c2 := UnitAt(utftext, i + 1);
      u := JoinTwo(c, c2);
      next := i + 2;
    } else {
      var c2 := UnitAt(utftext, i + 1);
      var c3 := UnitAt(utftext, i + 2);
      u := JoinThree(c, c2, c3);
      next := i + 3;
    }
    DecodeStep(utftext, i, u);
  }

  /** The decoder, on any text at all; its index only moves forward. */
  method Utf8Decode(utftext: Str) returns (s: Str)
    ensures s == Decode(utftext)
  {
    s := [];
    var i := 0;
    assert utftext[0..] == utftext;
    while i < |utftext|
      invariant s + DecodeFrom(utftext, i) == Decode(utftext)
      decreases |utftext| - i
    {
      var u, next := DecodeAt(utftext, i);
      assert s + ([u] + DecodeFrom(utftext, next)) == (s + [u]) + DecodeFrom(utftext, next);
      s := s + [u];
      i := next;
    }
  }

  // ---------- Round trip ----------

  lemma DecodeOne(b0: CodeUnit, rest: Str)
    requires b0 < 128
    ensures Decode([b0] + rest) == [b0] + Decode(rest)
  {
    assert ([b0] + rest)[1..] == rest;
  }

  lemma DecodeTwo(b0: CodeUnit, b1: CodeUnit, rest: Str)
    requires 191 < b0 < 224
    ensures Decode([b0, b1] + rest) == [b0 % 32 * 64 + b1 % 64] + Decode(rest)
  {
    assert ([b0, b1] + rest)[2..] == rest;
  }

  lemma DecodeThree(b0: CodeUnit, b1: CodeUnit, b2: CodeUnit, rest: Str)
    requires b0 >= 224
    ensures Decode([b0, b1, b2] + rest) == [b0 % 16 * 4096 + b1 % 64 * 64 + b2 % 64] + Decode(rest)
  {
    assert ([b0, b1, b2] + rest)[3..] == rest;
  }

  lemma JoinedUnit(c: CodeUnit)
    ensures c < 2048 ==> 191 < 192 + c / 64 < 224 && (192 + c / 64) % 32 * 64 + (128 + c % 64) % 64 == c
    ensures (224 + c / 4096) % 16 * 4096 + (128 + c / 64 % 64) % 64 * 64 + (128 + c % 64) % 64 == c
  {
    assert c / 64 / 64 == c / 4096;
    assert (192 + c / 64) % 32 == c / 64 % 32;
    assert (224 + c / 4096) % 16 == c / 4096 && (128 + c / 64 % 64) % 64 == c / 64 % 64
           && (128 + c % 64) % 64 == c % 64;
  }

  lemma DecodeEncodedUnit(c: CodeUnit, rest: Str)
    ensures Decode(EncodeUnit(c) + rest) == [c] + Decode(rest)
  {
    JoinedUnit(c);
    if c < 128 {
      DecodeOne(c, rest);
    } else if c < 2048 {
      DecodeTwo(192 + c / 64, 128 + c % 64, rest);
    } else {
      DecodeThree(224 + c / 4096, 128 + c / 64 % 64, 128 + c % 64, rest);
    }
  }

  /** Decoding undoes encoding on every string of 16-bit units, lone surrogates included. */
  lemma {:induction false} DecodeUndoesEncode(s: Str)
    ensures Decode(EncodeUnits(s)) == s
  {
    if s != [] {
      DecodeEncodedUnit(s[0], EncodeUnits(s[1..]));
      DecodeUndoesEncode(s[1..]);
    }
  }

  /** Two strings encode alike exactly when they differ at most in CRLF against LF. */
  lemma EncodeInjective(s: Str, t: Str)
    ensures EncodeUnits(NormalizeNewlines(s)) == EncodeUnits(NormalizeNewlines(t))
            <==> NormalizeNewlines(s) == NormalizeNewlines(t)
  {
    DecodeUndoesEncode(NormalizeNewlines(s));
    DecodeUndoesEncode(NormalizeNewlines(t));
  }

  /** There and back, raw text comes out with each CRLF an LF. */
  lemma RawRoundTrip(u: Str, v: Str)
    ensures Decode(EncodeUnits(NormalizeNewlines(u + [13, 10] + v)))
            == NormalizeNewlines(u) + [10] + NormalizeNewlines(v)
  {
    PairBecomesLineFeed(u, v);
    DecodeUndoesEncode(NormalizeNewlines(u + [13, 10] + v));
  }

  /** Raw text comes back itself exactly when it holds no CRLF. */
  lemma RawRoundTripIff(s: Str)
    ensures Decode(EncodeUnits(NormalizeNewlines(s))) == s <==> PairFree(s)
  {
    DecodeUndoesEncode(NormalizeNewlines(s));
    UnchangedIffPairFree(s);
  }

  /** Bytes missing at the end of the text count as zero. */
  lemma CutShort(c: CodeUnit, d: CodeUnit)
    requires c >= 128
    ensures 191 < c < 224 ==> Decode([c]) == Decode([c, 0])
    ensures !(191 < c < 224) ==> Decode([c]) == Decode([c, 0, 0]) && Decode([c, d]) == Decode([c, d, 0])
  {
  }

  // ---------- Order ----------

  /** Lexicographic order. */
  predicate Less(a: Str, b: Str) {
    b != [] && (a == [] || a[0] < b[0] || (a[0] == b[0] && Less(a[1..], b[1..])))
  }

  lemma {:induction false} LessAfterPrefix(p: Str, a: Str, b: Str)
    ensures Less(p + a, p + b) == Less(a, b)
  {
    if p == [] {
      assert p + a == a && p + b == b;
    } else {
      LessAfterPrefix(p[1..], a, b);
      assert (p + a)[1..] == p[1..] + a && (p + b)[1..] == p[1..] + b;
    }
  }

  lemma LessAtDifference(a: Str, b: Str, k: nat)
    requires k < |a| && k < |b| && a[..k] == b[..k] && a[k] < b[k]
    ensures Less(a, b) && !Less(b, a)
  {
    LessAfterPrefix(a[..k], a[k..], b[k..]);
    LessAfterPrefix(a[..k], b[k..], a[k..]);
    assert a == a[..k] + a[k..] && b == a[..k] + b[k..];
  }

  /** Smaller units have smaller encodings, and the difference shows inside both. */
  lemma FirstDifference(c: CodeUnit, d: CodeUnit) returns (k: nat)
    requires c < d
    ensures k < |EncodeUnit(c)| && k < |EncodeUnit(d)|
    ensures forall i :: 0 <= i < k ==> EncodeUnit(c)[i] == EncodeUnit(d)[i]
    ensures EncodeUnit(c)[k] < EncodeUnit(d)[k]
  {
    if c < 128 || (c < 2048 <= d) {
      k := 0;
    } else if d < 2048 {
      k := if c / 64 < d / 64 then 0 else 1;
    } else {
      k := if c / 4096 < d / 4096 then 0 else if c / 64 < d / 64 then 1 else 2;
      assert c / 64 / 64 == c / 4096 && d / 64 / 64 == d / 4096;
    }
  }

  lemma UnitOrder(c: CodeUnit, d: CodeUnit, x: Str, y: Str)
    requires c < d
    ensures Less(EncodeUnit(c) + x, EncodeUnit(d) + y) && !Less(EncodeUnit(d) + y, EncodeUnit(c) + x)
  {
    var k := FirstDifference(c, d);
    LessAtDifference(EncodeUnit(c) + x, EncodeUnit(d) + y, k);
  }

  /** Encoding keeps the order of 16-bit strings, in both directions. */
  lemma {:induction false} EncodePreservesOrder(s: Str, t: Str)
    ensures Less(EncodeUnits(s), EncodeUnits(t)) == Less(s, t)
  {
    if s == [] || t == [] {
    } else if s[0] < t[0] {
      UnitOrder(s[0], t[0], EncodeUnits(s[1..]), EncodeUnits(t[1..]));
    } else if t[0] < s[0] {
      UnitOrder(t[0], s[0], EncodeUnits(t[1..]), EncodeUnits(s[1..]));
    } else {
      EncodePreservesOrder(s[1..], t[1..]);
      LessAfterPrefix(EncodeUnit(s[0]), EncodeUnits(s[1..]), EncodeUnits(t[1..]));
    }
  }

  // ---------- RFC 3629 ----------

  /** The character length that a first byte announces in the grammar of section 4 of RFC 3629; 0 if none. */
  function RfcLength(b: CodeUnit): nat {
    if b <= 0x7F then 1
    else if 0xC2 <= b <= 0xDF then 2
    else if 0xE0 <= b <= 0xEF then 3
    else if 0xF0 <= b <= 0xF4 then 4
    else 0
  }

  predicate RfcTail(b: CodeUnit) {
    0x80 <= b <= 0xBF
  }

  /** UTF8-char of section 4 of RFC 3629. */
  predicate RfcChar(s: Str) {
    s != [] && |s| == RfcLength(s[0])
    && (forall k :: 1 <= k < |s| ==> RfcTail(s[k]))
    && (s[0] == 0xE0 ==> 0xA0 <= s[1])
    && (s[0] == 0xED ==> s[1] <= 0x9F)
    && (s[0] == 0xF0 ==> 0x90 <= s[1])
    && (s[0] == 0xF4 ==> s[1] <= 0x8F)
  }

  /** UTF8-octets of section 4 of RFC 3629. */
  predicate RfcText(s: Str) {
    s == [] || (var n := RfcLength(s[0]); 0 < n <= |s| && RfcChar(s[..n]) && RfcText(s[n..]))
  }

  predicate Surrogate(c: CodeUnit) {
    0xD800 <= c <= 0xDFFF
  }

  /** A unit's bytes are an RFC 3629 character exactly when it is no surrogate. */
  lemma UnitIsRfcChar(c: CodeUnit)
    ensures RfcChar(EncodeUnit(c)) <==> !Surrogate(c)
    ensures RfcLength(EncodeUnit(c)[0]) == |EncodeUnit(c)|
  {
  }

  lemma TwoBytes(x: CodeUnit, y: CodeUnit)
    requires 0xC2 <= x <= 0xDF && 0x80 <= y <= 0xBF
    ensures EncodeUnit(x % 32 * 64 + y % 64) == [x, y]
  {
    assert x % 32 == x - 192 && y % 64 == y - 128;
  }

  lemma Fields(x: nat, y: nat, z: nat)
    requires x < 16 && y < 64 && z < 64
    ensures var c := x * 4096 + y * 64 + z; c / 4096 == x && c / 64 % 64 == y && c % 64 == z
  {
    var c := x * 4096 + y * 64 + z;
    assert c / 64 == x * 64 + y;
  }

  lemma FieldsEncode(x: nat, y: nat, z: nat)
    requires x < 16 && y < 64 && z < 64 && (x == 0 ==> y >= 32)
    ensures EncodeUnit(x * 4096 + y * 64 + z) == [224 + x, 128 + y, 128 + z]
  {
    Fields(x, y, z);
    assert x * 4096 + y * 64 + z >= 2048;
  }

  lemma Payload(x: CodeUnit)
    ensures 0xE0 <= x <= 0xEF ==> x % 16 == x - 224
    ensures 0x80 <= x <= 0xBF ==> x % 64 == x - 128
  {
  }

  lemma ThreeBytes(x: CodeUnit, y: CodeUnit, z: CodeUnit)
    requires 0xE0 <= x <= 0xEF && 0x80 <= y <= 0xBF && 0x80 <= z <= 0xBF
    requires x == 0xE0 ==> 0xA0 <= y
    ensures EncodeUnit(x % 16 * 4096 + y % 64 * 64 + z % 64) == [x, y, z]
  {
    Payload(x);
    Payload(y);
    Payload(z);
    FieldsEncode(x - 224, y - 128, z - 128);
  }

  /** Every RFC 3629 character of at most three bytes is the encoding of a unit outside the
      surrogate range: the one the decoder reads from it. */
  lemma RfcCharIsEncoding(s: Str)
    requires RfcChar(s) && |s| <= 3
    ensures EncodeUnit(DecodeFirst(s)) == s && !Surrogate(DecodeFirst(s))
  {
    if |s| == 2 {
      TwoBytes(s[0], s[1]);
    } else if |s| == 3 {
      assert RfcTail(s[1]) && RfcTail(s[2]);
      ThreeBytes(s[0], s[1], s[2]);
    }
    UnitIsRfcChar(DecodeFirst(s));
  }

  /** On well-formed text of characters of at most three bytes, encoding undoes decoding, and the
      decoder yields no surrogate unit. */
  lemma {:induction false} EncodeUndoesDecode(t: Str)
    requires RfcText(t) && forall k :: 0 <= k < |t| ==> t[k] < 0xF0
    ensures EncodeUnits(Decode(t)) == t
    ensures forall k :: 0 <= k < |Decode(t)| ==> !Surrogate(Decode(t)[k])
  {
    if |t| > 0 {
      var n := RfcLength(t[0]);
      var first, rest := t[..n], t[n..];
      var u := DecodeFirst(first);
      assert first[0] == t[0] && t == first + rest;
      RfcCharIsEncoding(first);
      EncodeUndoesDecode(rest);
      DecodeEncodedUnit(u, rest);
      EncodeCons(u, Decode(rest));
    }
  }

  /** On well-formed text of characters of any length, exactly those of four bytes are in the way. */
  lemma EncodeUndoesDecodeIff(t: Str)
    requires RfcText(t)
    ensures EncodeUnits(Decode(t)) == t <==> forall k :: 0 <= k < |t| ==> t[k] < 0xF0
  {
    EncodesToBytes(Decode(t));
    if forall k :: 0 <= k < |t| ==> t[k] < 0xF0 { EncodeUndoesDecode(t); }
  }

  /** Four bytes are an RFC 3629 character exactly when their fields spell a code point beyond 16 bits. */
  lemma RfcCharOfFour(a: nat, b: nat, c: nat, d: nat)
    requires a < 8 && b < 64 && c < 64 && d < 64
    ensures RfcChar([240 + a, 128 + b, 128 + c, 128 + d]) <==>
              0x10000 <= a * 262144 + b * 4096 + c * 64 + d <= 0x10FFFF
  {
  }

  /** The decoder takes such a character for two units of its own making, and neither is half of the
      surrogate pair that stands for the code point. */
  lemma FourBytesMisread(a: nat, b: nat, c: nat, d: nat)
    requires a < 8 && b < 64 && c < 64 && d < 64
    requires RfcChar([240 + a, 128 + b, 128 + c, 128 + d])
    ensures Decode([240 + a, 128 + b, 128 + c, 128 + d]) == [a * 4096 + b * 64 + c, d % 16 * 4096]
    ensures !Surrogate(a * 4096 + b * 64 + c) && !Surrogate(d % 16 * 4096)
  {
    var s := [240 + a, 128 + b, 128 + c, 128 + d];
    assert s[3..] == [128 + d];
    assert (240 + a) % 16 == a && (128 + b) % 64 == b && (128 + c) % 64 == c && (128 + d) % 16 == d % 16;
    RfcCharOfFour(a, b, c, d);
    assert Decode(s) == [DecodeFirst(s)] + Decode(s[3..]);
    assert DecodeFirst([128 + d]) == d % 16 * 4096;
  }

  /** The encoding loop's output is RFC 3629 text exactly when its input holds no surrogate unit. */
  lemma {:induction false} EncodingIsRfcText(s: Str)
    ensures RfcText(EncodeUnits(s)) <==> forall k :: 0 <= k < |s| ==> !Surrogate(s[k])
  {
    if s != [] {
      var b, rest := EncodeUnit(s[0]), EncodeUnits(s[1..]);
      UnitIsRfcChar(s[0]);
      EncodingIsRfcText(s[1..]);
      assert (b + rest)[..|b|] == b && (b + rest)[|b|..] == rest;
      assert forall k :: 1 <= k < |s| ==> s[k] == s[1..][k - 1];
    }
  }

  predicate SurrogateFree(s: Str) {
    forall k :: 0 <= k < |s| ==> !Surrogate(s[k])
  }

  lemma SurrogateFreeAfter(head: Str, rest: Str)
    requires SurrogateFree(head)
    ensures SurrogateFree(head + rest) <==> SurrogateFree(rest)
  {
    assert forall k :: 0 <= k < |rest| ==> (head + rest)[|head| + k] == rest[k];
  }

  lemma {:induction false} NormalizedSurrogates(s: Str)
    ensures SurrogateFree(NormalizeNewlines(s)) <==> SurrogateFree(s)
  {
    if |s| >= 2 {
      if s[0] == CR && s[1] == LF {
        NormalizedSurrogates(s[2..]);
        SurrogateFreeAfter([LF], NormalizeNewlines(s[2..]));
        SurrogateFreeAfter(s[..2], s[2..]);
        assert s == s[..2] + s[2..];
      } else {
        NormalizedSurrogates(s[1..]);
        if Surrogate(s[0]) {
          assert NormalizeNewlines(s)[0] == s[0];
        } else {
          SurrogateFreeAfter([s[0]], NormalizeNewlines(s[1..]));
          SurrogateFreeAfter([s[0]], s[1..]);
          assert s == [s[0]] + s[1..];
        }
      }
    }
  }

  /** The encoder's output is RFC 3629 text exactly when the string holds no surrogate unit. */
  lemma EncoderOutputIsRfcText(s: Str)
    ensures RfcText(EncodeUnits(NormalizeNewlines(s))) <==> SurrogateFree(s)
  {
    EncodingIsRfcText(NormalizeNewlines(s));
    NormalizedSurrogates(s);
  }
}
