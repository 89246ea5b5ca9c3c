/**
 * The locale primitives that grep's multibyte helpers call into, as
 * uninterpreted values: the C library's mbrtowc/mbrlen, wcrtomb, towupper
 * and toupper, and the locale constants MB_CUR_MAX and using_utf8().
 *
 * Conversion state (mbstate_t) is not modelled: every decode and encode
 * starts from the initial shift state.
 */
module Locale {

  newtype byte = x: int | 0 <= x < 256

  /** The largest MB_CUR_MAX the C library may report (glibc's MB_LEN_MAX). */
  const MB_LEN_MAX: nat := 16

  /** The largest value of C's size_t on the platforms grep is built for. */
  const SIZE_MAX: int := 0x1_0000_0000_0000_0000 - 1

  type SizeT = x: nat | x <= SIZE_MAX

  /** What mbrtowc reports for the bytes at hand. */
  datatype Decoded =
    | Invalid                    // (size_t) -1: an invalid sequence
    | Incomplete                 // (size_t) -2: a truncated multibyte character
    | Zero                       // 0: the null wide character was decoded
    | Char(len: nat, cp: int)    // len bytes decoded into the wide character cp

  /** What mbrlen reports: the same cases as mbrtowc, without the wide character. */
  datatype MbLen =
    | Illegal                    // (size_t) -1
    | Truncated                  // (size_t) -2
    | Null                       // 0
    | Len(n: nat)                // n bytes form one character

  /**
   * The active locale. `decode` is mbrtowc over the given bytes, `upper`
   * is towupper, `encode` is wcrtomb, `toUpper` is toupper on one byte,
   * `maxWidth` is MB_CUR_MAX and `utf8` is using_utf8().
   */
  datatype Locale = Locale(
    maxWidth: nat,
    utf8: bool,
    decode: seq<byte> -> Decoded,
    upper: int -> int,
    encode: int -> seq<byte>,
    toUpper: byte -> byte)
  {
    /**
     * What the C library promises about its primitives: MB_CUR_MAX is
     * between 1 and MB_LEN_MAX, no input decodes
     * to more bytes than it has or than MB_CUR_MAX, no bytes at all is a
     * truncated character, and every wide character encodes to between
     * one and MB_CUR_MAX bytes.
     */
    ghost predicate Valid() {
      && 1 <= maxWidth <= MB_LEN_MAX
      && decode([]) == Incomplete
      && (forall s {:trigger decode(s)} :: decode(s).Char? ==> 1 <= decode(s).len <= |s| && decode(s).len <= maxWidth)
      && (forall c {:trigger encode(c)} :: 1 <= |encode(c)| <= maxWidth)
    }

    /**
     * mbrtowc reads no further than it needs: once some bytes decode to a
     * character, to the null character or to an invalid sequence, more
     * bytes after them do not change the verdict.
     */
    ghost predicate PrefixStable() {
      forall s, t {:trigger decode(s + t)} :: decode(s) != Incomplete ==> decode(s + t) == decode(s)
    }
  }

  /** mbrlen(s, |s|, &initial_state). */
  function MbrLen(loc: Locale, s: seq<byte>): (r: MbLen)
    requires loc.Valid()
    ensures r.Len? ==> 1 <= r.n <= |s| && r.n <= loc.maxWidth
    ensures |s| == 0 ==> r == Truncated
  {
    match loc.decode(s)
    case Invalid => Illegal
    case Incomplete => Truncated
    case Zero => Null
    case Char(len, _) => Len(len)
  }

  /** wcrtomb (towupper (cp)): the bytes of the upper-case form of `cp`. */
  function EncodeUpper(loc: Locale, cp: int): (r: seq<byte>)
    requires loc.Valid()
    ensures 1 <= |r| <= loc.maxWidth
  {
    var u := loc.upper(cp);
    assert 1 <= |loc.encode(u)| <= loc.maxWidth;
    loc.encode(u)
  }

  /**
   * How far grep's scanning loops move over the front of `s`: a whole
   * character, or a single byte when the bytes are invalid, truncated or
   * the null character.
   */
  function Advance(loc: Locale, s: seq<byte>): (n: nat)
    requires loc.Valid() && |s| > 0
    ensures 1 <= n <= |s| && n <= loc.maxWidth
    ensures MbrLen(loc, s).Len? ==> n == MbrLen(loc, s).n
  {
    match MbrLen(loc, s)
    case Len(n) => n
    case _ => 1
  }

  /**
   * Scanning `text` character by character from offset `i` stops at
   * offset `j` on the way: `j` is a character boundary as seen from `i`.
   */
  ghost predicate Boundary(loc: Locale, text: seq<byte>, i: nat, j: nat)
    requires loc.Valid() && i <= |text|
    decreases |text| - i
  {
    i == j || (i < j && i < |text| && Boundary(loc, text, i + Advance(loc, text[i..]), j))
  }

  /** The size_t value that encodes an mbrlen result, as C compares it. */
  function AsSizeT(m: MbLen): (r: SizeT)
    requires m.Len? ==> m.n < SIZE_MAX - 1
    ensures m.Len? ==> r == m.n
    ensures m.Illegal? <==> r == SIZE_MAX
    ensures m.Truncated? <==> r == SIZE_MAX - 1
    ensures m.Null? ==> r == 0
  {
    match m
    case Illegal => SIZE_MAX
    case Truncated => SIZE_MAX - 1
    case Null => 0
    case Len(n) => n
  }
}
