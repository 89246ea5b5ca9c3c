/**
 * A concrete input on which is_mb_middle, as written, misses a match that
 * starts inside a multibyte character, and the corrected scan catches it.
 * The locale is a cut-down UTF-8: ASCII bytes are one-byte characters,
 * 0x80-0xBF are continuation bytes, and 0xC0-0xFF lead a two-byte
 * character. MB_CUR_MAX is a parameter: 2, the longest character this
 * decoder knows, or 6, what glibc reports for its UTF-8 locales.
 */
module MbMiddleExample {
  import opened Locale
  import opened MbMiddleSpec

  function TwoByteDecode(s: seq<byte>): (d: Decoded)
  {
    if |s| == 0 then Incomplete
    else if s[0] == 0 then Zero
    else if s[0] < 0x80 then Char(1, s[0] as int)
    else if s[0] < 0xC0 then Invalid
    else if |s| == 1 then Incomplete
    else if 0x80 <= s[1] < 0xC0 then Char(2, (s[0] as int - 0xC0) * 64 + (s[1] as int - 0x80))
    else Invalid
  }

  /** Wide characters outside ASCII are written as '?': enough for a locale whose upper-casing is the identity. */
  function TwoByteEncode(c: int): (e: seq<byte>)
  {
    if 0 <= c < 0x80 then [c as byte] else [0x3F]
  }

  lemma TwoByteValid(width: nat)
    requires 2 <= width <= MB_LEN_MAX
    ensures Locale(width, true, TwoByteDecode, c => c, TwoByteEncode, b => b).Valid()
    ensures Locale(width, true, TwoByteDecode, c => c, TwoByteEncode, b => b).PrefixStable()
  {
    forall s, t | TwoByteDecode(s) != Incomplete
      ensures TwoByteDecode(s + t) == TwoByteDecode(s)
    {
      assert (s + t)[0] == s[0];
      if |s| >= 2 {
        assert (s + t)[1] == s[1];
      }
    }
  }

  function TwoByte(width: nat): (loc: Locale)
    requires 2 <= width <= MB_LEN_MAX
    ensures loc.Valid() && loc.PrefixStable() && loc.utf8 && loc.maxWidth == width
  {
    TwoByteValid(width);
    Locale(width, true, TwoByteDecode, c => c, TwoByteEncode, b => b)
  }

  /** mbclen_cache as build_mbclen_cache fills it for this locale. */
  function TwoByteCache(width: nat): (cache: seq<SizeT>)
    requires 2 <= width <= MB_LEN_MAX
    ensures Built(TwoByte(width), cache)
  {
    seq(256, b requires 0 <= b < 256 => AsSizeT(MbrLen(TwoByte(width), [b as byte])))
  }

  /** `letters` bytes 0x41, then "é" as the two bytes 0xC3 0xA9. */
  function Sample(letters: nat): (text: seq<byte>)
    ensures |text| == letters + 2
    ensures forall k :: 0 <= k < letters ==> text[k] == 0x41
    ensures text[letters..] == [0xC3, 0xA9]
  {
    seq(letters, _ => 0x41) + [0xC3, 0xA9]
  }

  /** The two texts the lemmas below use, written out. */
  lemma SampleBytes()
    ensures Sample(3) == [0x41, 0x41, 0x41, 0xC3, 0xA9]
    ensures Sample(8) == [0x41, 0x41, 0x41, 0x41, 0x41, 0x41, 0x41, 0x41, 0xC3, 0xA9]
  {
  }

  /** Each letter is a one-byte character, so the scan from 0 stops at every offset up to `n`. */
  lemma {:induction false} LettersBoundary(width: nat, text: seq<byte>, i: nat, n: nat)
    requires 2 <= width <= MB_LEN_MAX && i <= n <= |text|
    requires forall k :: i <= k < n ==> text[k] == 0x41
    ensures Boundary(TwoByte(width), text, i, n)
    decreases n - i
  {
    if i < n {
      assert text[i..][0] == 0x41;
      assert Advance(TwoByte(width), text[i..]) == 1;
      LettersBoundary(width, text, i + 1, n);
    }
  }

  /** The two bytes of "é" after the letters make up one character that runs past its second byte. */
  lemma SampleStraddles(width: nat, letters: nat)
    requires 2 <= width <= MB_LEN_MAX
    ensures Straddles(TwoByte(width), TwoByteCache(width), Sample(letters), letters, letters + 1)
  {
    var loc, cache, text := TwoByte(width), TwoByteCache(width), Sample(letters);
    assert text[letters..] == [0xC3, 0xA9];
    assert MbrLen(loc, text[letters..]) == Len(2);
    assert text[letters + 1] == 0xA9;
    assert cache[0xC3] == SIZE_MAX - 1 && cache[0xA9] == SIZE_MAX;
  }

  /**
   * With `letters` letters before "é", the cursor at 0 and a match of
   * length 0 at the byte 0xA9 inside "é": that offset is no character
   * boundary, the code as written answers false (the cursor lies more than
   * MB_CUR_MAX bytes back), and the corrected scan answers true. A match
   * of length 1 there is still caught as written: 0xA9 alone is invalid.
   */
  lemma MissesInside(width: nat, letters: nat)
    requires 2 <= width <= MB_LEN_MAX && letters > width
    ensures var loc, cache, text := TwoByte(width), TwoByteCache(width), Sample(letters);
      && !Boundary(loc, text, 0, letters + 1)
      && !MbMiddle(loc, cache, text, 0, letters + 1, 0).middle
      && MbMiddleFixed(loc, cache, text, 0, letters + 1, 0).middle
      && MbMiddle(loc, cache, text, 0, letters + 1, 1).middle
  {
    var loc, cache, text := TwoByte(width), TwoByteCache(width), Sample(letters);
    SampleStraddles(width, letters);
    AsWrittenIgnoresText(loc, cache, text, 0, letters + 1, 0);
    FixedDetectsMiddle(loc, cache, text, 0, letters + 1, letters, 0);
    LettersBoundary(width, text, 0, letters);
    NotBoundaryInside(loc, text, 0, letters, letters + 1);
    assert text[letters + 1..] == [0xA9];
    AsWrittenIgnoresText(loc, cache, text, 0, letters + 1, 1);
  }

  /**
   * The small instance, MB_CUR_MAX 2 and text 41 41 41 C3 A9: a match of
   * length 0 at offset 4 is missed as written and caught when corrected,
   * and a match of length 1 there is caught as written.
   */
  lemma MissedMiddle()
    ensures var loc, cache, text := TwoByte(2), TwoByteCache(2), Sample(3);
      && !Boundary(loc, text, 0, 4)
      && !MbMiddle(loc, cache, text, 0, 4, 0).middle
      && MbMiddleFixed(loc, cache, text, 0, 4, 0).middle
      && MbMiddle(loc, cache, text, 0, 4, 1).middle
  {
    MissesInside(2, 3);
  }

  /**
   * The same miss with glibc's MB_CUR_MAX of 6 for UTF-8: eight letters,
   * then C3 A9, the cursor at 0 and an empty match at offset 9.
   */
  lemma MissedMiddleGlibc()
    ensures var loc, cache, text := TwoByte(6), TwoByteCache(6), Sample(8);
      && !Boundary(loc, text, 0, 9)
      && !MbMiddle(loc, cache, text, 0, 9, 0).middle
      && MbMiddleFixed(loc, cache, text, 0, 9, 0).middle
  {
    MissesInside(6, 8);
  }
}
