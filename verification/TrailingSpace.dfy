/**
  skip_trailing_space: the word-at-a-time backward scan over a string's trailing blanks.

  The string is an array of exactly its `len` bytes lying at address `ptr`; a byte at
  address `a` is `buf[a - ptr]`, so Dafny's index checks say that no read leaves the
  string.  Addresses are 64-bit values, and the word is 4 or 8 bytes wide.
 */
module TrailingSpace {
  import opened Bytes

  const SPACE: Byte := 0x20
  const ADDRESS_SPACE: nat := 0x1_0000_0000_0000_0000

  function SpaceInt(w: nat): nat
    requires w == 4 || w == 8
  {
    if w == 4 then 0x20202020 else 0x2020202020202020
  }

  /** The naive scan: how long the string is without its trailing spaces. */
  function TrimmedLength(s: seq<Byte>): (n: nat)
    ensures n <= |s|
  {
    if s != [] && s[|s| - 1] == SPACE then TrimmedLength(s[..|s| - 1]) else |s|
  }

  /** The trimmed length is the one cut with only spaces after it and no space just before it. */
  lemma {:induction false} TrimmedLengthIsTheCut(s: seq<Byte>, n: nat)
    requires n <= |s|
    ensures n == TrimmedLength(s) <==>
      (forall k :: n <= k < |s| ==> s[k] == SPACE) && (n == 0 || s[n - 1] != SPACE)
  {
    if s != [] && s[|s| - 1] == SPACE {
      var rest := s[..|s| - 1];
      if n < |s| { TrimmedLengthIsTheCut(rest, n); }
    }
  }

  lemma {:induction false} Blanks(n: nat)
    ensures LittleEndian(seq(n + 1, _ => SPACE)) == SPACE + 256 * LittleEndian(seq(n, _ => SPACE))
  {
    var s: seq<Byte> := seq(n + 1, _ => SPACE);
    assert s[1..] == seq(n, _ => SPACE);
  }

  /** A word equals the space mask exactly when each of its bytes is a space. */
  lemma WordOfSpaces(word: seq<Byte>, w: nat)
    requires (w == 4 || w == 8) && |word| == w
    ensures LittleEndian(word) == SpaceInt(w) <==> forall k :: 0 <= k < w ==> word[k] == SPACE
  {
    var blank: seq<Byte> := seq(w, _ => SPACE);
    assert LittleEndian(blank) == SpaceInt(w) by {
      Blanks(0); Blanks(1); Blanks(2); Blanks(3);
      if w == 8 { Blanks(4); Blanks(5); Blanks(6); Blanks(7); }
    }
    if LittleEndian(word) == SpaceInt(w) { LittleEndianInjective(word, blank); }
    if forall k :: 0 <= k < w ==> word[k] == SPACE { assert word == blank; }
  }

  // SIZEOF_INT is a constant of the build, so multiples of it are spelled out for each value.

  predicate Aligned(address: nat, w: nat) {
    if w == 4 then address % 4 == 0 else address % 8 == 0
  }

  function AlignDown(address: nat, w: nat): (a: nat)
    ensures a <= address && Aligned(a, w)
    ensures (w == 4 || w == 8) ==> address < a + w
  {
    if w == 4 then address / 4 * 4 else address / 8 * 8
  }

  lemma NextMultipleOf4(a: nat, b: nat)
    requires a % 4 == 0 && b % 4 == 0 && a < b
    ensures a + 4 <= b && (b - 4) % 4 == 0
  {
  }

  lemma NextMultipleOf8(a: nat, b: nat)
    requires a % 8 == 0 && b % 8 == 0 && a < b
    ensures a + 8 <= b && (b - 8) % 8 == 0
  {
  }

  lemma WholeWordAbove(start: nat, end: nat, w: nat)
    requires (w == 4 || w == 8) && Aligned(start, w) && Aligned(end, w) && start < end
    ensures start + w <= end && Aligned(end - w, w)
  {
    if w == 4 { NextMultipleOf4(start, end); } else { NextMultipleOf8(start, end); }
  }

  /** No valid string makes the rounding up of its start wrap around. */
  lemma NoWrap(address: nat)
    requires address < ADDRESS_SPACE
    ensures address % ADDRESS_SPACE == address
  {
  }

  ghost predicate SpacesFrom(s: seq<Byte>, n: int) {
    forall k :: 0 <= n <= k < |s| ==> s[k] == SPACE
  }

  /** `((unsigned *) end)[-1] == SPACE_INT`: reads an aligned word inside the string. */
  method WordBeforeIsBlank(buf: array<Byte>, ptr: nat, end: nat, w: nat) returns (blank: bool)
    requires (w == 4 || w == 8) && Aligned(end, w)
    requires ptr + w <= end <= ptr + buf.Length
    ensures blank <==> forall k :: end - w - ptr <= k < end - ptr ==> buf[k] == SPACE
  {
    var word := buf[end - w - ptr..end - ptr];
    blank := LittleEndian(word) == SpaceInt(w);
    WordOfSpaces(word, w);
    assert forall k :: end - w - ptr <= k < end - ptr ==> buf[k] == word[k - (end - w - ptr)];
    assert forall k :: 0 <= k < w ==> word[k] == buf[k + (end - w - ptr)];
  }

  /** The middle zone: whole words of spaces, from an aligned end down to an aligned start. */
  method SkipWords(buf: array<Byte>, ptr: nat, from: nat, startWords: nat, w: nat) returns (end: nat)
    requires (w == 4 || w == 8) && Aligned(from, w) && Aligned(startWords, w)
    requires ptr <= startWords <= from <= ptr + buf.Length && SpacesFrom(buf[..], from - ptr)
    ensures startWords <= end <= from && SpacesFrom(buf[..], end - ptr)
  {
    end := from;
    while end > startWords
      invariant startWords <= end <= from && Aligned(end, w)
      invariant SpacesFrom(buf[..], end - ptr)
    {
      WholeWordAbove(startWords, end, w);
      var blank := WordBeforeIsBlank(buf, ptr, end, w);
      if !blank { break; }
      end := end - w;
    }
  }

  method SkipTrailingSpace(buf: array<Byte>, ptr: nat, w: nat) returns (end: nat)
    requires w == 4 || w == 8
    requires ptr + buf.Length < ADDRESS_SPACE
    ensures end == ptr + TrimmedLength(buf[..])
  {
    end := ptr + buf.Length;
    if buf.Length > 20 {
      var endWords := AlignDown(end, w);
      NoWrap(ptr + w - 1);
      var startWords := AlignDown((ptr + w - 1) % ADDRESS_SPACE, w);
      if endWords > ptr {
        while end > endWords && buf[end - 1 - ptr] == SPACE
          invariant endWords <= end <= ptr + buf.Length
          invariant SpacesFrom(buf[..], end - ptr)
        {
          end := end - 1;
        }
        if buf[end - 1 - ptr] == SPACE && startWords < endWords {
          end := SkipWords(buf, ptr, end, startWords, w);
        }
      }
    }
    while end > ptr && buf[end - 1 - ptr] == SPACE
      invariant ptr <= end <= ptr + buf.Length
      invariant SpacesFrom(buf[..], end - ptr)
    {
      end := end - 1;
    }
    TrimmedLengthIsTheCut(buf[..], end - ptr);
  }
}
