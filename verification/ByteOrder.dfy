/**
  The machine-independent integer formats of my_global.h: intNstore, uintNkorr and sintNkorr,
  in the IA-32 build, which moves whole little-endian words, and in the portable build, which
  moves bytes.  C casts are written as remainders, `>>` as floor division, and a stored or
  loaded word as the bytes a little-endian machine keeps it in.
 */
module ByteOrder {
  import opened Bits
  import opened Bytes

  datatype Build = IA32 | Portable

  // ---------- The format ----------

  /** The n low-order bytes of an integer, low byte first. */
  function ToBytes(v: int, n: nat): (s: seq<Byte>)
    ensures |s| == n
    decreases n
  {
    if n == 0 then [] else [v % 256] + ToBytes(v / 256, n - 1)
  }

  function Pow256(n: nat): (p: nat)
    ensures p > 0
  {
    if n == 0 then 1 else 256 * Pow256(n - 1)
  }

  lemma Powers256()
    ensures Pow256(1) == 0x100 && Pow256(2) == 0x1_0000 && Pow256(3) == 0x100_0000 && Pow256(4) == 0x1_0000_0000
    ensures Pow256(8) == 0x1_0000_0000_0000_0000
  {
    assert Pow256(4) == 256 * Pow256(3) && Pow256(6) == 256 * Pow256(5) && Pow256(5) == 256 * Pow256(4);
    assert Pow256(8) == 256 * Pow256(7) && Pow256(7) == 256 * Pow256(6);
  }

  lemma RemainderStep(v: int, p: nat)
    requires p > 0
    ensures v % (256 * p) == v % 256 + 256 * (v / 256 % p)
  {
    var h := v / 256;
    var q, r := h / p, h % p;
    assert h == p * q + r;
    assert v == (256 * p) * q + (256 * r + v % 256);
    RemainderIs(v, 256 * p, q, 256 * r + v % 256);
  }

  /** Reading back n stored bytes gives the integer modulo 2^(8n). */
  lemma {:induction false} StoredValue(v: int, n: nat)
    ensures LittleEndian(ToBytes(v, n)) == v % Pow256(n)
    decreases n
  {
    if n == 0 {
      assert v % 1 == 0;
    } else {
      StoredValue(v / 256, n - 1);
      RemainderStep(v, Pow256(n - 1));
      assert ToBytes(v, n)[1..] == ToBytes(v / 256, n - 1);
    }
  }

  /** Every n bytes are the stored form of the number they spell: the format is a bijection
      between n bytes and the numbers below 2^(8n). */
  lemma {:induction false} StoreOfValue(s: seq<Byte>)
    ensures ToBytes(LittleEndian(s), |s|) == s
  {
    if s != [] {
      StoreOfValue(s[1..]);
      assert LittleEndian(s) % 256 == s[0] && LittleEndian(s) / 256 == LittleEndian(s[1..]);
    }
  }

  /** Integers that agree modulo 2^(8n) are stored alike. */
  lemma StoreTruncates(v: int, n: nat)
    ensures ToBytes(v % Pow256(n), n) == ToBytes(v, n)
  {
    StoredValue(v, n);
    StoreOfValue(ToBytes(v, n));
  }

  lemma QuotientStep(v: int, p: nat)
    requires p > 0
    ensures v / 256 / p == v / (256 * p)
  {
    var h := v / 256;
    var q, r := h / p, h % p;
    assert h == p * q + r;
    assert v == (256 * p) * q + (256 * r + v % 256);
    RemainderIs(v, 256 * p, q, 256 * r + v % 256);
  }

  lemma {:induction false} StoreSplits(v: int, n: nat, k: nat)
    requires k <= n
    ensures ToBytes(v, n) == ToBytes(v, k) + ToBytes(v / Pow256(k), n - k)
    decreases k
  {
    if k == 0 {
      assert v / 1 == v;
    } else {
      StoreSplits(v / 256, n - 1, k - 1);
      QuotientStep(v, Pow256(k - 1));
    }
  }

  lemma Distributes(p: nat, x: nat, y: nat)
    ensures 256 * (x + p * y) == 256 * x + (256 * p) * y
  {
  }

  lemma {:induction false} ValueSplits(s: seq<Byte>, t: seq<Byte>)
    ensures LittleEndian(s + t) == LittleEndian(s) + Pow256(|s|) * LittleEndian(t)
  {
    if s == [] {
      assert s + t == t;
    } else {
      ValueSplits(s[1..], t);
      assert (s + t)[1..] == s[1..] + t;
      Distributes(Pow256(|s| - 1), LittleEndian(s[1..]), LittleEndian(t));
    }
  }

  /** Two's complement at a width of 8n bits. */
  function Signed(v: int, n: nat): int {
    var r := v % Pow256(n);
    if 2 * r < Pow256(n) then r else r - Pow256(n)
  }

  lemma SignedFits(v: int, p: nat)
    requires p > 0
    ensures (if 2 * (v % p) < p then v % p else v % p - p) == v <==> 2 * v < p && 2 * v + p >= 0
  {
    if 0 <= 2 * v < p {
      RemainderIs(v, p, 0, v);
    } else if 2 * v < 0 && 2 * v + p >= 0 {
      RemainderIs(v, p, -1, v + p);
    }
  }

  /** A signed reader gives the stored integer itself exactly when it fits the width. */
  lemma SignedReadsBack(v: int, n: nat)
    ensures Signed(LittleEndian(ToBytes(v, n)), n) == v <==> 2 * v < Pow256(n) && 2 * v + Pow256(n) >= 0
  {
    var p := Pow256(n);
    StoredValue(v, n);
    RemainderIs(v % p, p, 0, v % p);
    SignedFits(v, p);
  }

  // ---------- C expressions ----------

  function Uchar(x: int): Byte {
    x % 256
  }

  function Int16(x: int): int {
    var r := x % 0x1_0000;
    if r < 0x8000 then r else r - 0x1_0000
  }

  function Int32(x: int): int {
    var r := x % 0x1_0000_0000;
    if r < 0x8000_0000 then r else r - 0x1_0000_0000
  }

  function Int64(x: int): int {
    var r := x % 0x1_0000_0000_0000_0000;
    if r < 0x8000_0000_0000_0000 then r else r - 0x1_0000_0000_0000_0000
  }

  lemma CastsAreSigned(x: int)
    ensures Int16(x) == Signed(x, 2) && Int32(x) == Signed(x, 4) && Int64(x) == Signed(x, 8)
  {
    Powers256();
  }

  lemma Value1(s: seq<Byte>)
    requires |s| == 1
    ensures LittleEndian(s) == s[0]
  {
    assert LittleEndian(s[1..]) == 0;
  }

  lemma Value2(s: seq<Byte>)
    requires |s| == 2
    ensures LittleEndian(s) == s[0] + 0x100 * (s[1] as nat)
  {
    Value1(s[1..]);
  }

  lemma Value3(s: seq<Byte>)
    requires |s| == 3
    ensures LittleEndian(s) == s[0] + 0x100 * (s[1] as nat) + 0x1_0000 * (s[2] as nat)
  {
    Value2(s[1..]);
  }

  lemma Value4(s: seq<Byte>)
    requires |s| == 4
    ensures LittleEndian(s) == s[0] + 0x100 * (s[1] as nat) + 0x1_0000 * (s[2] as nat) + 0x100_0000 * (s[3] as nat)
  {
    Value3(s[1..]);
  }

  lemma Bytes2(v: int)
    ensures ToBytes(v, 2) == [Uchar(v), Uchar(v / 0x100)]
  {
    assert ToBytes(v / 256 / 256, 0) == [];
    assert ToBytes(v / 256, 1) == [v / 256 % 256];
  }

  lemma Bytes3(v: int)
    ensures ToBytes(v, 3) == [Uchar(v), Uchar(v / 0x100), Uchar(v / 0x1_0000)]
  {
    Bytes2(v / 256);
    assert v / 256 / 0x100 == v / 0x1_0000;
  }

  lemma Bytes4(v: int)
    ensures ToBytes(v, 4) == [Uchar(v), Uchar(v / 0x100), Uchar(v / 0x1_0000), Uchar(v / 0x100_0000)]
  {
    Bytes3(v / 256);
    assert v / 256 / 0x100 == v / 0x1_0000 && v / 256 / 0x1_0000 == v / 0x100_0000;
  }

  lemma Bytes5(v: int)
    ensures ToBytes(v, 5)
            == [Uchar(v), Uchar(v / 0x100), Uchar(v / 0x1_0000), Uchar(v / 0x100_0000), Uchar(v / 0x1_0000_0000)]
  {
    Bytes4(v / 256);
    assert v / 256 / 0x100 == v / 0x1_0000 && v / 256 / 0x1_0000 == v / 0x100_0000
           && v / 256 / 0x100_0000 == v / 0x1_0000_0000;
  }

  lemma Bytes6(v: int)
    ensures ToBytes(v, 6)
            == [Uchar(v), Uchar(v / 0x100), Uchar(v / 0x1_0000), Uchar(v / 0x100_0000), Uchar(v / 0x1_0000_0000),
                              Uchar(v / 0x100_0000_0000)]
  {
    Bytes5(v / 256);
    assert v / 256 / 0x100 == v / 0x1_0000 && v / 256 / 0x1_0000 == v / 0x100_0000;
    assert v / 256 / 0x100_0000 == v / 0x1_0000_0000 && v / 256 / 0x1_0000_0000 == v / 0x100_0000_0000;
  }

  // ---------- Stores ----------

  function Spliced(s: seq<Byte>, at: nat, bytes: seq<Byte>): seq<Byte>
    requires at + |bytes| <= |s|
  {
    s[..at] + bytes + s[at + |bytes|..]
  }

  /** `*((uintN *) T) = v` on a little-endian machine. */
  method StoreWord(T: array<Byte>, at: nat, v: nat, n: nat)
    requires at + n <= T.Length && v < Pow256(n)
    modifies T
    ensures T[..] == Spliced(old(T[..]), at, ToBytes(v, n))
  {
    var bytes := ToBytes(v, n);
    for k := 0 to n
      invariant forall i :: 0 <= i < k ==> T[at + i] == bytes[i]
      invariant T[..at] == old(T[..at]) && T[at + k..] == old(T[at + k..])
    {
      T[at + k] := bytes[k];
    }
    assert T[at..at + n] == bytes;
    assert T[..] == T[..at] + T[at..at + n] + T[at + n..];
  }

  /** Cutting an integer to 32 bits keeps its four low bytes. */
  lemma LowBytesOfWord(A: int)
    ensures var w := A % 0x1_0000_0000;
            && Uchar(w) == Uchar(A) && Uchar(w / 0x100) == Uchar(A / 0x100)
            && Uchar(w / 0x1_0000) == Uchar(A / 0x1_0000) && Uchar(w / 0x100_0000) == Uchar(A / 0x100_0000)
  {
    Powers256();
    StoreTruncates(A, 4);
    Bytes4(A);
    Bytes4(A % 0x1_0000_0000);
  }

  method Int2Store(build: Build, T: array<Byte>, at: nat, A: int)
    requires at + 2 <= T.Length
    modifies T
    ensures T[..] == Spliced(old(T[..]), at, ToBytes(A, 2))
  {
    if build == IA32 {
      Powers256();
      StoreTruncates(A, 2);
      StoreWord(T, at, A % 0x1_0000, 2);
    } else {
      var defTemp := A % 0x1_0000_0000;
      LowBytesOfWord(A);
      Bytes2(A);
      T[at] := Uchar(defTemp);
      T[at + 1] := Uchar(defTemp / 0x100);
    }
  }

  method Int3Store(build: Build, T: array<Byte>, at: nat, A: int)
    requires at + 3 <= T.Length
    modifies T
    ensures T[..] == Spliced(old(T[..]), at, ToBytes(A, 3))
  {
    Bytes3(A);
    LowBytesOfWord(A);
    T[at] := Uchar(A);
    T[at + 1] := if build == IA32 then Uchar(A % 0x1_0000_0000 / 0x100) else Uchar(A / 0x100);
    T[at + 2] := Uchar(A / 0x1_0000);
  }

  method Int4Store(build: Build, T: array<Byte>, at: nat, A: int)
    requires at + 4 <= T.Length
    modifies T
    ensures T[..] == Spliced(old(T[..]), at, ToBytes(A, 4))
  {
    if build == IA32 {
      Powers256();
      StoreTruncates(A, 4);
      StoreWord(T, at, A % 0x1_0000_0000, 4);
    } else {
      Bytes4(A);
      T[at] := Uchar(A);
      T[at + 1] := Uchar(A / 0x100);
      T[at + 2] := Uchar(A / 0x1_0000);
      T[at + 3] := Uchar(A / 0x100_0000);
    }
  }

  /** The same macro body in both builds. */
  method Int5Store(T: array<Byte>, at: nat, A: int)
    requires at + 5 <= T.Length
    modifies T
    ensures T[..] == Spliced(old(T[..]), at, ToBytes(A, 5))
  {
    Bytes5(A);
    T[at] := Uchar(A);
    T[at + 1] := Uchar(A / 0x100);
    T[at + 2] := Uchar(A / 0x1_0000);
    T[at + 3] := Uchar(A / 0x100_0000);
    T[at + 4] := Uchar(A / 0x1_0000_0000);
  }

  /** The same macro body in both builds. */
  method Int6Store(T: array<Byte>, at: nat, A: int)
    requires at + 6 <= T.Length
    modifies T
    ensures T[..] == Spliced(old(T[..]), at, ToBytes(A, 6))
  {
    Bytes6(A);
    T[at] := Uchar(A);
    T[at + 1] := Uchar(A / 0x100);
    T[at + 2] := Uchar(A / 0x1_0000);
    T[at + 3] := Uchar(A / 0x100_0000);
    T[at + 4] := Uchar(A / 0x1_0000_0000);
    T[at + 5] := Uchar(A / 0x100_0000_0000);
  }

  lemma SplicedTwice(s: seq<Byte>, at: nat, a: seq<Byte>, b: seq<Byte>)
    requires at + |a| + |b| <= |s|
    ensures Spliced(Spliced(s, at, a), at + |a|, b) == Spliced(s, at, a + b)
  {
  }

  lemma TwoWords(A: int)
    ensures ToBytes(A, 8) == ToBytes(A % 0x1_0000_0000, 4) + ToBytes(A / 0x1_0000_0000 % 0x1_0000_0000, 4)
  {
    Powers256();
    StoreSplits(A, 8, 4);
    StoreTruncates(A, 4);
    StoreTruncates(A / 0x1_0000_0000, 4);
  }

  method Int8Store(build: Build, T: array<Byte>, at: nat, A: int)
    requires at + 8 <= T.Length
    modifies T
    ensures T[..] == Spliced(old(T[..]), at, ToBytes(A, 8))
  {
    Powers256();
    if build == IA32 {
      StoreTruncates(A, 8);
      StoreWord(T, at, A % 0x1_0000_0000_0000_0000, 8);
    } else {
      var defTemp, defTemp2 := A % 0x1_0000_0000, A / 0x1_0000_0000 % 0x1_0000_0000;
      Int4Store(build, T, at, defTemp);
      Int4Store(build, T, at + 4, defTemp2);
      TwoWords(A);
      SplicedTwice(old(T[..]), at, ToBytes(defTemp, 4), ToBytes(defTemp2, 4));
    }
  }

  // ---------- Loads ----------

  /** `*((uintN *) A)` on a little-endian machine. */
  function LoadWord(s: seq<Byte>, n: nat): nat
    requires n <= |s|
  {
    LittleEndian(s[..n])
  }

  lemma LowThree(s: seq<Byte>)
    requires |s| >= 3
    ensures LittleEndian(s[..3]) == s[0] + (s[1] as nat) * 0x100 + (s[2] as nat) * 0x1_0000
    ensures |s| >= 4 ==> LittleEndian(s[..4]) % 0x100_0000 == LittleEndian(s[..3])
  {
    Value3(s[..3]);
    if |s| >= 4 { Value4(s[..4]); }
  }

  lemma PowersOfTwo()
    ensures Pow2(8) == 0x100 && Pow2(16) == 0x1_0000 && Pow2(24) == 0x100_0000
  {
    assert Pow2(4) == 16 && Pow2(8) == 16 * Pow2(4) && Pow2(12) == 16 * Pow2(8);
    assert Pow2(16) == 16 * Pow2(12) && Pow2(20) == 16 * Pow2(16) && Pow2(24) == 16 * Pow2(20);
  }

  /** `x & 0xFFFFFF`. */
  function Masked24(x: nat): (r: nat)
    ensures r == x % 0x100_0000
  {
    PowersOfTwo();
    AndMask(x, 24);
    And(x, 0xFF_FFFF)
  }

  /** The IA-32 build reads four bytes for three. */
  function Uint3korr(build: Build, s: seq<Byte>): (v: nat)
    requires |s| >= (if build == IA32 then 4 else 3)
    ensures v == LittleEndian(s[..3])
  {
    LowThree(s);
    if build == IA32 then Masked24(LoadWord(s, 4)) else s[0] + (s[1] as nat) * 0x100 + (s[2] as nat) * 0x1_0000
  }

  function Uint2korr(build: Build, s: seq<Byte>): (v: nat)
    requires |s| >= 2
    ensures v == LittleEndian(s[..2])
  {
    Value2(s[..2]);
    if build == IA32 then LoadWord(s, 2) else s[0] + (s[1] as nat) * 0x100
  }

  function Uint4korr(build: Build, s: seq<Byte>): (v: nat)
    requires |s| >= 4
    ensures v == LittleEndian(s[..4])
  {
    Value4(s[..4]);
    if build == IA32 then LoadWord(s, 4)
    else s[0] + (s[1] as nat) * 0x100 + (s[2] as nat) * 0x1_0000 + (s[3] as nat) * 0x100_0000
  }

  /** The same macro body in both builds. */
  function Uint5korr(s: seq<Byte>): (v: nat)
    requires |s| >= 5
    ensures v == LittleEndian(s[..5])
  {
    Powers256();
    ValueSplits(s[..4], s[4..5]);
    Value1(s[4..5]);
    assert s[..5] == s[..4] + s[4..5];
    Uint4korr(Portable, s) + (s[4] as nat) * 0x1_0000_0000
  }

  /** The same macro body in both builds. */
  function Uint6korr(s: seq<Byte>): (v: nat)
    requires |s| >= 6
    ensures v == LittleEndian(s[..6])
  {
    Powers256();
    ValueSplits(s[..4], s[4..6]);
    Value2(s[4..6]);
    assert s[..6] == s[..4] + s[4..6];
    Uint4korr(Portable, s) + (s[4] as nat) * 0x1_0000_0000 + (s[5] as nat) * 0x100_0000_0000
  }

  function Uint8korr(build: Build, s: seq<Byte>): (v: nat)
    requires |s| >= 8
    ensures v == LittleEndian(s[..8])
  {
    Powers256();
    ValueSplits(s[..4], s[4..][..4]);
    assert s[..8] == s[..4] + s[4..][..4];
    if build == IA32 then LoadWord(s, 8)
    else Uint4korr(Portable, s) + Uint4korr(Portable, s[4..]) * 0x1_0000_0000
  }

  /** Widening the high byte with its sign first does not change the 16-bit sum. */
  lemma SignedHighByte(a: nat, b: nat)
    requires a < 256 && b < 256
    ensures Int16(a + Int16(b * 0x100)) == Int16(a + 0x100 * b)
  {
  }

  function Sint2korr(build: Build, s: seq<Byte>): (v: int)
    requires |s| >= 2
    ensures v == Signed(LittleEndian(s[..2]), 2)
  {
    Value2(s[..2]);
    SignedHighByte(s[0], s[1]);
    CastsAreSigned(LittleEndian(s[..2]));
    if build == IA32 then Int16(LoadWord(s, 2)) else Int16(s[0] + Int16((s[1] as nat) * 0x100))
  }

  /** `d << 24 | c << 16 | b << 8 | a`, and the same without the top byte; the fields do not overlap. */
  function JoinedThree(a: Byte, b: Byte, c: Byte): (v: nat)
    ensures v == (c as nat) * 0x1_0000 + (b as nat) * 0x100 + a
  {
    PowersOfTwo();
    ShlIsProduct(c, 16);
    OrDisjoint(c, (b as nat) * 0x100, 16);
    ShlIsProduct((c as nat) * 0x100 + b, 8);
    OrDisjoint((c as nat) * 0x100 + b, a, 8);
    Or(Or((c as nat) * 0x1_0000, (b as nat) * 0x100), a)
  }

  function JoinedTop(d: Byte, c: Byte): (v: nat)
    ensures v == ((d as nat) * 0x100 + c) * 0x1_0000
  {
    PowersOfTwo();
    ShlIsProduct(d, 24);
    OrDisjoint(d, (c as nat) * 0x1_0000, 24);
    Or((d as nat) * 0x100_0000, (c as nat) * 0x1_0000)
  }

  function JoinedFour(a: Byte, b: Byte, c: Byte, d: Byte): (v: nat)
    ensures v == (d as nat) * 0x100_0000 + (c as nat) * 0x1_0000 + (b as nat) * 0x100 + a
  {
    PowersOfTwo();
    var x: nat := (d as nat) * 0x100 + c;
    ShlIsProduct(x, 16);
    OrDisjoint(x, (b as nat) * 0x100, 16);
    ShlIsProduct(x * 0x100 + b, 8);
    OrDisjoint(x * 0x100 + b, a, 8);
    Or(Or(JoinedTop(d, c), (b as nat) * 0x100), a)
  }

  lemma SignFill(v: nat)
    requires v < 0x100_0000
    ensures Signed(v, 3) == if v >= 0x80_0000 then Int32(0xFF00_0000 + v) else Int32(v)
  {
    Powers256();
  }

  /** The same macro body in both builds: the sign byte is filled in above a negative value. */
  function Sint3korr(s: seq<Byte>): (v: int)
    requires |s| >= 3
    ensures v == Signed(LittleEndian(s[..3]), 3)
  {
    Value3(s[..3]);
    SignFill(LittleEndian(s[..3]));
    if s[2] >= 128 then Int32(JoinedFour(s[0], s[1], s[2], 255)) else Int32(JoinedThree(s[0], s[1], s[2]))
  }

  /** Widening the top byte with its sign first does not change the 32-bit sum. */
  lemma SignedTopByte(low: nat, d: nat)
    requires low < 0x100_0000 && d < 256
    ensures Int32(low + Int32(d * 0x100_0000)) == Int32(low + d * 0x100_0000)
  {
  }

  function Sint4korr(build: Build, s: seq<Byte>): (v: int)
    requires |s| >= 4
    ensures v == Signed(LittleEndian(s[..4]), 4)
  {
    var low: nat := s[0] + (s[1] as nat) * 0x100 + (s[2] as nat) * 0x1_0000;
    Value4(s[..4]);
    SignedTopByte(low, s[3]);
    CastsAreSigned(LittleEndian(s[..4]));
    if build == IA32 then Int32(LoadWord(s, 4)) else Int32(low + Int32((s[3] as nat) * 0x100_0000))
  }

  function Sint8korr(build: Build, s: seq<Byte>): (v: int)
    requires |s| >= 8
    ensures v == Signed(LittleEndian(s[..8]), 8)
  {
    CastsAreSigned(LittleEndian(s[..8]));
    Int64(Uint8korr(build, s))
  }

  // ---------- Round trips ----------

  lemma StoredAt(v: int, n: nat, rest: seq<Byte>)
    ensures LittleEndian((ToBytes(v, n) + rest)[..n]) == v % Pow256(n)
  {
    assert (ToBytes(v, n) + rest)[..n] == ToBytes(v, n);
    StoredValue(v, n);
  }

  /** In either build every unsigned reader gives the stored integer modulo 2^(8n), whatever
      follows the stored bytes; only the IA-32 reader of three bytes needs one to follow. */
  lemma UnsignedRoundTrips(build: Build, v: int, rest: seq<Byte>)
    ensures Uint2korr(build, ToBytes(v, 2) + rest) == v % Pow256(2)
    ensures build == Portable || rest != [] ==> Uint3korr(build, ToBytes(v, 3) + rest) == v % Pow256(3)
    ensures Uint4korr(build, ToBytes(v, 4) + rest) == v % Pow256(4)
    ensures Uint5korr(ToBytes(v, 5) + rest) == v % Pow256(5)
    ensures Uint6korr(ToBytes(v, 6) + rest) == v % Pow256(6)
    ensures Uint8korr(build, ToBytes(v, 8) + rest) == v % Pow256(8)
  {
    StoredAt(v, 2, rest);
    StoredAt(v, 3, rest);
    StoredAt(v, 4, rest);
    StoredAt(v, 5, rest);
    StoredAt(v, 6, rest);
    StoredAt(v, 8, rest);
  }

  lemma SignedAt(v: int, n: nat, rest: seq<Byte>)
    ensures Signed(LittleEndian((ToBytes(v, n) + rest)[..n]), n) == v <==> 2 * v < Pow256(n) && 2 * v + Pow256(n) >= 0
  {
    assert (ToBytes(v, n) + rest)[..n] == ToBytes(v, n);
    SignedReadsBack(v, n);
  }

  /** In either build every signed reader gives the stored integer itself exactly when it fits. */
  lemma SignedRoundTrips(build: Build, v: int, rest: seq<Byte>)
    ensures Sint2korr(build, ToBytes(v, 2) + rest) == v <==> -0x8000 <= v < 0x8000
    ensures Sint3korr(ToBytes(v, 3) + rest) == v <==> -0x80_0000 <= v < 0x80_0000
    ensures Sint4korr(build, ToBytes(v, 4) + rest) == v <==> -0x8000_0000 <= v < 0x8000_0000
    ensures Sint8korr(build, ToBytes(v, 8) + rest) == v <==> -0x8000_0000_0000_0000 <= v < 0x8000_0000_0000_0000
  {
    Powers256();
    SignedAt(v, 2, rest);
    SignedAt(v, 3, rest);
    SignedAt(v, 4, rest);
    SignedAt(v, 8, rest);
  }

  lemma SplicedTail(s: seq<Byte>, at: nat, bytes: seq<Byte>)
    requires at + |bytes| <= |s|
    ensures Spliced(s, at, bytes)[at..] == bytes + s[at + |bytes|..]
  {
  }

  method StoreWidth(build: Build, T: array<Byte>, at: nat, A: int, n: nat)
    requires n in {2, 3, 4, 5, 6, 8} && at + n <= T.Length
    modifies T
    ensures T[..] == Spliced(old(T[..]), at, ToBytes(A, n))
  {
    match n
    case 2 => Int2Store(build, T, at, A);
    case 3 => Int3Store(build, T, at, A);
    case 4 => Int4Store(build, T, at, A);
    case 5 => Int5Store(T, at, A);
    case 6 => Int6Store(T, at, A);
    case _ => Int8Store(build, T, at, A);
  }

  /** The store of each width, then the unsigned reader of that width on the same array. */
  method StoreThenRead(build: Build, T: array<Byte>, at: nat, A: int, n: nat) returns (u: nat)
    requires n in {2, 3, 4, 5, 6, 8} && at + n <= T.Length
    requires build == IA32 && n == 3 ==> at + 4 <= T.Length
    modifies T
    ensures u == A % Pow256(n) && T[..] == Spliced(old(T[..]), at, ToBytes(A, n))
  {
    SplicedTail(T[..], at, ToBytes(A, n));
    UnsignedRoundTrips(build, A, T[at + n..]);
    StoreWidth(build, T, at, A, n);
    match n
    case 2 => u := Uint2korr(build, T[at..]);
    case 3 => u := Uint3korr(build, T[at..]);
    case 4 => u := Uint4korr(build, T[at..]);
    case 5 => u := Uint5korr(T[at..]);
    case 6 => u := Uint6korr(T[at..]);
    case _ => u := Uint8korr(build, T[at..]);
  }

  /** The same with the signed readers: the integer comes back exactly when it fits. */
  method StoreThenReadSigned(build: Build, T: array<Byte>, at: nat, A: int, n: nat) returns (i: int)
    requires n in {2, 3, 4, 8} && at + n <= T.Length
    modifies T
    ensures i == A <==> 2 * A < Pow256(n) && 2 * A + Pow256(n) >= 0
    ensures T[..] == Spliced(old(T[..]), at, ToBytes(A, n))
  {
    SplicedTail(T[..], at, ToBytes(A, n));
    Powers256();
    SignedRoundTrips(build, A, T[at + n..]);
    StoreWidth(build, T, at, A, n);
    match n
    case 2 => i := Sint2korr(build, T[at..]);
    case 3 => i := Sint3korr(T[at..]);
    case 4 => i := Sint4korr(build, T[at..]);
    case _ => i := Sint8korr(build, T[at..]);
  }
}
