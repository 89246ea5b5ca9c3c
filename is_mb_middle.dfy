/**
 * is_mb_middle: does a match that starts at offset `buf` of a text begin
 * (or, for a short match, end) inside a multibyte character? The answer
 * comes from walking the text character by character from a cursor
 * `good` that is known to sit on a character boundary, with the help of
 * mbclen_cache, the per-byte table of mbrlen results.
 *
 * Offsets stand for the C pointers: `text` runs from the start of the
 * buffer to `end`, and `good` and `buf` point into it.
 */
module MbMiddleSpec {
  import opened Locale

  /** mbclen_cache once build_mbclen_cache has run: entry b is mbrlen of the single byte b, as a size_t. */
  ghost predicate Built(loc: Locale, cache: seq<SizeT>)
    requires loc.Valid()
  {
    |cache| == 256 && forall b :: 0 <= b < 256 ==> cache[b] == AsSizeT(MbrLen(loc, [b as byte]))
  }

  /**
   * The mbclen the walk settles on at offset `p`: the cached value for
   * the byte there, or, when the cache says the byte begins a longer
   * character, mbrlen over the rest of the text.
   */
  function CachedLen(loc: Locale, cache: seq<SizeT>, text: seq<byte>, p: nat): (r: SizeT)
    requires loc.Valid() && |cache| == 256 && p < |text|
    ensures r == SIZE_MAX - 1 <==> cache[text[p] as int] == SIZE_MAX - 1 && MbrLen(loc, text[p..]).Truncated?
  {
    var c := cache[text[p] as int];
    if c == SIZE_MAX - 1 then AsSizeT(MbrLen(loc, text[p..])) else c
  }

  /** How far the walk moves for an mbclen: an invalid, truncated or null character counts as one byte. */
  function StepOf(n: SizeT): (k: nat)
    ensures 1 <= k
    ensures (n == SIZE_MAX || n == SIZE_MAX - 1 || n == 0) ==> k == 1
    ensures !(n == SIZE_MAX || n == SIZE_MAX - 1 || n == 0) ==> k == n
  {
    if n == SIZE_MAX || n == SIZE_MAX - 1 || n == 0 then 1 else n
  }

  /**
   * The forward walk of is_mb_middle from `p` while `p` is before `buf`.
   * Returns where the walk stops and the last offset at which a complete
   * character (or a byte taken as one) began, which starts as `prev`.
   */
  function Forward(loc: Locale, cache: seq<SizeT>, text: seq<byte>, p: nat, prev: nat, buf: nat): (r: (nat, nat))
    requires loc.Valid() && |cache| == 256 && buf <= |text|
    ensures buf <= r.0 && (p >= buf ==> r.0 == p)
    ensures r.1 == prev || p <= r.1 < buf
    decreases if p < buf then buf - p else 0
  {
    if p >= buf then (p, prev)
    else
      var n := CachedLen(loc, cache, text, p);
      Forward(loc, cache, text, p + StepOf(n), if n != SIZE_MAX - 1 then p else prev, buf)
  }

  /** One step of the walk, for the loop that performs it: from `p` on to `p'`, remembering `prev'`. */
  lemma ForwardStep(loc: Locale, cache: seq<SizeT>, text: seq<byte>, p: nat, prev: nat, buf: nat, p': nat, prev': nat)
    requires loc.Valid() && |cache| == 256 && p < buf <= |text|
    requires p' == p + StepOf(CachedLen(loc, cache, text, p))
    requires prev' == if CachedLen(loc, cache, text, p) != SIZE_MAX - 1 then p else prev
    ensures Forward(loc, cache, text, p, prev, buf) == Forward(loc, cache, text, p', prev', buf)
  {
  }

  /** The answer of is_mb_middle and the new value of *good. */
  datatype Verdict = Verdict(middle: bool, good: nat)

  /**
   * Walk from `start` and decide. Stepping over `buf` means `buf` is inside
   * a character. Landing on it, a non-empty match shorter than the
   * character at `buf` (compared as size_t, so an invalid or truncated
   * character there counts as longer than any match) ends inside it.
   */
  function Settle(loc: Locale, cache: seq<SizeT>, text: seq<byte>, start: nat, good: nat, buf: nat, matchLen: SizeT): (v: Verdict)
    requires loc.Valid() && |cache| == 256 && buf <= |text|
    ensures start > buf ==> v.middle
    ensures v.good == good || start <= v.good < buf
  {
    var r := Forward(loc, cache, text, start, good, buf);
    if r.0 > buf then Verdict(true, r.1)
    else Verdict(0 < matchLen && matchLen < AsSizeT(MbrLen(loc, text[buf..])), r.1)
  }

  /**
   * Where is_mb_middle begins its walk. In UTF-8, when `good` lies more
   * than MB_CUR_MAX bytes before `buf` (or after it: the negative pointer
   * difference is compared as a size_t), it begins at `buf`, since the
   * backward scan meant to find a closer character start never runs.
   */
  function StartAsWritten(loc: Locale, good: nat, buf: nat): (s: nat)
    ensures s == good || s == buf
    ensures !loc.utf8 || (good <= buf && buf - good <= loc.maxWidth) ==> s == good
    ensures loc.utf8 && (buf < good || buf - good > loc.maxWidth) ==> s == buf
  {
    if loc.utf8 && (buf < good || buf - good > loc.maxWidth) then buf else good
  }

  /** is_mb_middle as the code stands. */
  function MbMiddle(loc: Locale, cache: seq<SizeT>, text: seq<byte>, good: nat, buf: nat, matchLen: SizeT): (v: Verdict)
    requires loc.Valid() && |cache| == 256 && good <= |text| && buf <= |text|
    ensures good <= buf ==> good <= v.good <= buf
    ensures !loc.utf8 && good > buf ==> v.middle
  {
    Settle(loc, cache, text, StartAsWritten(loc, good, buf), good, buf, matchLen)
  }

  /**
   * Resuming the walk from a cursor it returned retraces the same
   * characters: the stop and the last complete character are the same.
   */
  lemma {:induction false} ForwardResume(loc: Locale, cache: seq<SizeT>, text: seq<byte>, p: nat, prev: nat, buf: nat)
    requires loc.Valid() && |cache| == 256 && buf <= |text|
    ensures var r := Forward(loc, cache, text, p, prev, buf);
      r.1 == prev || Forward(loc, cache, text, r.1, r.1, buf) == r
    decreases if p < buf then buf - p else 0
  {
    if p < buf {
      var n := CachedLen(loc, cache, text, p);
      var p', prev' := p + StepOf(n), if n != SIZE_MAX - 1 then p else prev;
      ForwardStep(loc, cache, text, p, prev, buf, p', prev');
      ForwardResume(loc, cache, text, p', prev', buf);
      if prev' != prev {
        ForwardStep(loc, cache, text, p, p, buf, p', prev');
      }
    }
  }

  /**
   * Amortization: calling is_mb_middle again with the *good it stored
   * at the same offset gives the same answer and stores the same cursor
   * (MbMiddleAdvance covers later offsets).
   */
  lemma MbMiddleResume(loc: Locale, cache: seq<SizeT>, text: seq<byte>, good: nat, buf: nat, matchLen: SizeT)
    requires loc.Valid() && |cache| == 256 && good <= buf <= |text|
    ensures var v := MbMiddle(loc, cache, text, good, buf, matchLen);
      MbMiddle(loc, cache, text, v.good, buf, matchLen) == v
  {
    var v := MbMiddle(loc, cache, text, good, buf, matchLen);
    if StartAsWritten(loc, good, buf) == good {
      ForwardResume(loc, cache, text, good, good, buf);
      if v.good != good {
        assert StartAsWritten(loc, v.good, buf) == v.good;
      }
    }
  }

  /** The walk to a later offset is the walk to an earlier one, continued. */
  lemma {:induction false} ForwardSplit(loc: Locale, cache: seq<SizeT>, text: seq<byte>, p: nat, prev: nat, buf1: nat, buf2: nat)
    requires loc.Valid() && |cache| == 256 && buf1 <= buf2 <= |text|
    ensures var r1 := Forward(loc, cache, text, p, prev, buf1);
      Forward(loc, cache, text, p, prev, buf2) == Forward(loc, cache, text, r1.0, r1.1, buf2)
    decreases if p < buf1 then buf1 - p else 0
  {
    if p < buf1 {
      var n := CachedLen(loc, cache, text, p);
      var p', prev' := p + StepOf(n), if n != SIZE_MAX - 1 then p else prev;
      ForwardStep(loc, cache, text, p, prev, buf1, p', prev');
      ForwardStep(loc, cache, text, p, prev, buf2, p', prev');
      ForwardSplit(loc, cache, text, p', prev', buf1, buf2);
    }
  }

  /**
   * Amortization across matches: the cursor stored while checking an
   * earlier offset `buf1` changes nothing about the answer at a later
   * offset `buf2`, provided the walk from `good` would begin at `good`
   * (always, outside UTF-8; in UTF-8, when `buf2` lies within MB_CUR_MAX
   * bytes of `good`).
   */
  lemma MbMiddleAdvance(loc: Locale, cache: seq<SizeT>, text: seq<byte>, good: nat, buf1: nat, buf2: nat, ml1: SizeT, ml2: SizeT)
    requires loc.Valid() && |cache| == 256 && good <= buf1 <= buf2 <= |text|
    requires !loc.utf8 || buf2 - good <= loc.maxWidth
    ensures MbMiddle(loc, cache, text, MbMiddle(loc, cache, text, good, buf1, ml1).good, buf2, ml2)
         == MbMiddle(loc, cache, text, good, buf2, ml2)
  {
    var r1 := Forward(loc, cache, text, good, good, buf1);
    var g := r1.1;
    assert MbMiddle(loc, cache, text, good, buf1, ml1).good == g;
    assert StartAsWritten(loc, g, buf2) == g;
    ForwardSplit(loc, cache, text, good, good, buf1, buf2);
    if g != good {
      ForwardResume(loc, cache, text, good, good, buf1);
      ForwardSplit(loc, cache, text, g, g, buf1, buf2);
    }
  }

  /**
   * With the cache built, and mbrtowc reading no more bytes than it
   * needs, the cached shortcut gives exactly mbrlen over the rest of the
   * text, and the walk moves as a character-by-character scan does.
   */
  lemma CacheAgrees(loc: Locale, cache: seq<SizeT>, text: seq<byte>, p: nat)
    requires loc.Valid() && loc.PrefixStable() && Built(loc, cache) && p < |text|
    ensures CachedLen(loc, cache, text, p) == AsSizeT(MbrLen(loc, text[p..]))
    ensures StepOf(CachedLen(loc, cache, text, p)) == Advance(loc, text[p..])
  {
    var b := text[p];
    assert cache[b as int] == AsSizeT(MbrLen(loc, [b]));
    if loc.decode([b]) != Incomplete {
      assert [b] + text[p + 1..] == text[p..];
      assert loc.decode([b] + text[p + 1..]) == loc.decode([b]);
    }
  }

  /**
   * With the cache built, the cursor the walk returns is the start of the
   * last complete character it passed before `buf`: a character start from
   * which mbrlen does not report a truncated character, and no earlier
   * than any other such start on the way. Only when the walk passes none
   * does it keep `prev`.
   */
  lemma ForwardLast(loc: Locale, cache: seq<SizeT>, text: seq<byte>, p: nat, prev: nat, buf: nat)
    requires loc.Valid() && loc.PrefixStable() && Built(loc, cache) && prev <= p <= buf <= |text|
    ensures var r := Forward(loc, cache, text, p, prev, buf);
      && prev <= r.1
      && (r.1 == prev || !MbrLen(loc, text[r.1..]).Truncated?)
      && forall q :: p <= q < buf && Boundary(loc, text, p, q) && !MbrLen(loc, text[q..]).Truncated? ==> q <= r.1
  {
    ForwardComplete(loc, cache, text, p, prev, buf);
    forall q | p <= q < buf && Boundary(loc, text, p, q) && !MbrLen(loc, text[q..]).Truncated?
      ensures q <= Forward(loc, cache, text, p, prev, buf).1
    {
      ForwardPasses(loc, cache, text, p, prev, buf, q);
    }
  }

  /** The second half of ForwardLast, for one complete character start `q` the walk passes. */
  lemma {:induction false} ForwardPasses(loc: Locale, cache: seq<SizeT>, text: seq<byte>, p: nat, prev: nat, buf: nat, q: nat)
    requires loc.Valid() && loc.PrefixStable() && Built(loc, cache) && prev <= p <= q < buf <= |text|
    requires Boundary(loc, text, p, q) && !MbrLen(loc, text[q..]).Truncated?
    ensures q <= Forward(loc, cache, text, p, prev, buf).1
    decreases q - p
  {
    var n := CachedLen(loc, cache, text, p);
    var p', prev' := p + StepOf(n), if n != SIZE_MAX - 1 then p else prev;
    CacheAgrees(loc, cache, text, p);
    ForwardStep(loc, cache, text, p, prev, buf, p', prev');
    if q == p {
      ForwardComplete(loc, cache, text, p', prev', buf);
    } else {
      assert Boundary(loc, text, p', q);
      ForwardPasses(loc, cache, text, p', prev', buf, q);
    }
  }

  /** The first half of ForwardLast: the remembered start never moves back, and once moved it starts a complete character. */
  lemma {:induction false} ForwardComplete(loc: Locale, cache: seq<SizeT>, text: seq<byte>, p: nat, prev: nat, buf: nat)
    requires loc.Valid() && loc.PrefixStable() && Built(loc, cache) && prev <= p && buf <= |text|
    ensures var r := Forward(loc, cache, text, p, prev, buf);
      prev <= r.1 && (r.1 == prev || !MbrLen(loc, text[r.1..]).Truncated?)
    decreases if p < buf then buf - p else 0
  {
    if p < buf {
      var n := CachedLen(loc, cache, text, p);
      var p', prev' := p + StepOf(n), if n != SIZE_MAX - 1 then p else prev;
      CacheAgrees(loc, cache, text, p);
      ForwardStep(loc, cache, text, p, prev, buf, p', prev');
      ForwardComplete(loc, cache, text, p', prev', buf);
    }
  }

  /**
   * With the cache built, the walk stops on `buf` exactly when `buf` is a
   * character boundary as seen from `p`, and the cursor it returns is one
   * too.
   */
  lemma ForwardBoundary(loc: Locale, cache: seq<SizeT>, text: seq<byte>, p: nat, prev: nat, buf: nat)
    requires loc.Valid() && loc.PrefixStable() && Built(loc, cache) && p <= buf <= |text|
    ensures var r := Forward(loc, cache, text, p, prev, buf);
      && (r.0 == buf <==> Boundary(loc, text, p, buf))
      && (r.1 == prev || Boundary(loc, text, p, r.1))
  {
    ForwardLands(loc, cache, text, p, prev, buf);
    ForwardRemembers(loc, cache, text, p, prev, buf);
  }

  /** The first half of ForwardBoundary: where the walk stops. */
  lemma {:induction false} ForwardLands(loc: Locale, cache: seq<SizeT>, text: seq<byte>, p: nat, prev: nat, buf: nat)
    requires loc.Valid() && loc.PrefixStable() && Built(loc, cache) && p <= buf <= |text|
    ensures Forward(loc, cache, text, p, prev, buf).0 == buf <==> Boundary(loc, text, p, buf)
    decreases buf - p
  {
    if p < buf {
      var n := CachedLen(loc, cache, text, p);
      var p', prev' := p + StepOf(n), if n != SIZE_MAX - 1 then p else prev;
      CacheAgrees(loc, cache, text, p);
      ForwardStep(loc, cache, text, p, prev, buf, p', prev');
      assert Boundary(loc, text, p, buf) <==> Boundary(loc, text, p', buf);
      if p' <= buf {
        ForwardLands(loc, cache, text, p', prev', buf);
      }
    }
  }

  /** The second half of ForwardBoundary: the start the walk remembers is a boundary. */
  lemma {:induction false} ForwardRemembers(loc: Locale, cache: seq<SizeT>, text: seq<byte>, p: nat, prev: nat, buf: nat)
    requires loc.Valid() && loc.PrefixStable() && Built(loc, cache) && buf <= |text|
    ensures var r := Forward(loc, cache, text, p, prev, buf);
      r.1 == prev || (p <= |text| && Boundary(loc, text, p, r.1))
    decreases if p < buf then buf - p else 0
  {
    if p < buf {
      var n := CachedLen(loc, cache, text, p);
      var p', prev' := p + StepOf(n), if n != SIZE_MAX - 1 then p else prev;
      CacheAgrees(loc, cache, text, p);
      ForwardStep(loc, cache, text, p, prev, buf, p', prev');
      ForwardRemembers(loc, cache, text, p', prev', buf);
      var r := Forward(loc, cache, text, p', prev', buf);
      if r.1 != prev' {
        assert p < r.1 && Boundary(loc, text, p + Advance(loc, text[p..]), r.1);
      }
    }
  }

  /**
   * What is_mb_middle answers when it walks from the cursor (any
   * single-byte or stateless locale, or UTF-8 with the cursor close
   * enough): `buf` is in the middle of a character when it is not a
   * character boundary as seen from the cursor, or when a non-empty match
   * there ends inside the character at `buf`. The cursor it returns is a
   * boundary at or before `buf`.
   */
  lemma MbMiddleMeaning(loc: Locale, cache: seq<SizeT>, text: seq<byte>, good: nat, buf: nat, matchLen: SizeT)
    requires loc.Valid() && loc.PrefixStable() && Built(loc, cache) && good <= buf <= |text|
    requires !loc.utf8 || buf - good <= loc.maxWidth
    ensures var v := MbMiddle(loc, cache, text, good, buf, matchLen);
      && (v.middle <==> !Boundary(loc, text, good, buf) || 0 < matchLen < AsSizeT(MbrLen(loc, text[buf..])))
      && Boundary(loc, text, good, v.good) && v.good <= buf
      && (v.good == good || !MbrLen(loc, text[v.good..]).Truncated?)
      && forall q :: good <= q < buf && Boundary(loc, text, good, q) && !MbrLen(loc, text[q..]).Truncated? ==> q <= v.good
  {
    ForwardBoundary(loc, cache, text, good, good, buf);
    ForwardLast(loc, cache, text, good, good, buf);
  }

  // The backward scan as evidently intended: from `buf` back over at most
  // MB_CUR_MAX - 1 bytes to the nearest byte that is not, on its own, an
  // invalid sequence (in UTF-8: not a continuation byte).

  /** The corrected scan loop, at offset `p`: stop at a byte that may start a character, or when MB_CUR_MAX bytes back. */
  function BackScan(loc: Locale, cache: seq<SizeT>, text: seq<byte>, good: nat, buf: nat, p: nat): (q: nat)
    requires loc.Valid() && |cache| == 256 && buf < |text| && good + loc.maxWidth < buf
    requires p <= buf && buf - p <= loc.maxWidth
    ensures good < q <= p && buf - q <= loc.maxWidth
    ensures buf - q < loc.maxWidth ==> cache[text[q] as int] != SIZE_MAX
    ensures forall k :: q < k <= p ==> cache[text[k] as int] == SIZE_MAX
    decreases p
  {
    if buf - p == loc.maxWidth then p
    else if cache[text[p] as int] != SIZE_MAX then p
    else BackScan(loc, cache, text, good, buf, p - 1)
  }

  /** Where the walk begins with the scan's loop condition corrected from `>` to `<`. */
  function StartFixed(loc: Locale, cache: seq<SizeT>, text: seq<byte>, good: nat, buf: nat): (s: nat)
    requires loc.Valid() && |cache| == 256 && good <= buf < |text|
    ensures good <= s <= buf
  {
    if loc.utf8 && buf - good > loc.maxWidth then
      var q := BackScan(loc, cache, text, good, buf, buf);
      if buf - q == loc.maxWidth then buf else q
    else good
  }

  /** is_mb_middle with the backward scan corrected. */
  function MbMiddleFixed(loc: Locale, cache: seq<SizeT>, text: seq<byte>, good: nat, buf: nat, matchLen: SizeT): (v: Verdict)
    requires loc.Valid() && |cache| == 256 && good <= buf < |text|
    ensures good <= v.good <= buf
  {
    Settle(loc, cache, text, StartFixed(loc, cache, text, good, buf), good, buf, matchLen)
  }

  /**
   * The UTF-8 shape of an offset `buf` that lies inside a character: the
   * character starts at `q`, fewer than MB_CUR_MAX bytes back, with a byte
   * that is not an invalid sequence on its own, every byte after it up to
   * and including `buf` is one that is, and the character runs past `buf`.
   */
  ghost predicate Straddles(loc: Locale, cache: seq<SizeT>, text: seq<byte>, q: nat, buf: nat)
    requires loc.Valid() && |cache| == 256 && buf < |text|
  {
    && buf - loc.maxWidth < q < buf
    && cache[text[q] as int] != SIZE_MAX
    && (forall k :: q < k <= buf ==> cache[text[k] as int] == SIZE_MAX)
    && MbrLen(loc, text[q..]).Len?
    && q + MbrLen(loc, text[q..]).n > buf
  }

  /** The corrected scan, started at `p` at or after the character start `q`, stops at `q`. */
  lemma {:induction false} BackScanFinds(loc: Locale, cache: seq<SizeT>, text: seq<byte>, good: nat, buf: nat, q: nat, p: nat)
    requires loc.Valid() && |cache| == 256 && buf < |text| && good + loc.maxWidth < buf
    requires Straddles(loc, cache, text, q, buf) && q <= p <= buf
    ensures BackScan(loc, cache, text, good, buf, p) == q
    decreases p
  {
    if p > q {
      assert cache[text[p] as int] == SIZE_MAX;
      BackScanFinds(loc, cache, text, good, buf, q, p - 1);
    }
  }

  /**
   * As written: in UTF-8, whenever the cursor lags more than MB_CUR_MAX
   * bytes behind `buf`, the bytes before `buf` are never looked at: only
   * the match length against mbrlen at `buf` decides, and the cursor stays
   * put. So an empty match is never reported as being in the middle of a
   * character. A non-empty one at a byte that is an invalid sequence on
   * its own still is, since (size_t) -1 exceeds every shorter match length.
   */
  lemma AsWrittenIgnoresText(loc: Locale, cache: seq<SizeT>, text: seq<byte>, good: nat, buf: nat, matchLen: SizeT)
    requires loc.Valid() && |cache| == 256 && good <= buf <= |text|
    requires loc.utf8 && buf - good > loc.maxWidth
    ensures MbMiddle(loc, cache, text, good, buf, matchLen) ==
      Verdict(0 < matchLen < AsSizeT(MbrLen(loc, text[buf..])), good)
    ensures MbMiddle(loc, cache, text, good, buf, 0) == Verdict(false, good)
    ensures 0 < matchLen < SIZE_MAX && MbrLen(loc, text[buf..]).Illegal? ==> MbMiddle(loc, cache, text, good, buf, matchLen).middle
  {
  }

  /**
   * Corrected: in UTF-8 with the cursor far behind, when `buf` lies inside
   * a character that starts at `q`, is_mb_middle reports it, whatever the
   * match length.
   */
  lemma FixedDetectsMiddle(loc: Locale, cache: seq<SizeT>, text: seq<byte>, good: nat, buf: nat, q: nat, matchLen: SizeT)
    requires loc.Valid() && loc.PrefixStable() && Built(loc, cache) && good <= buf < |text|
    requires loc.utf8 && buf - good > loc.maxWidth
    requires Straddles(loc, cache, text, q, buf)
    ensures MbMiddleFixed(loc, cache, text, good, buf, matchLen).middle
  {
    BackScanFinds(loc, cache, text, good, buf, q, buf);
    assert StartFixed(loc, cache, text, good, buf) == q;
    CacheAgrees(loc, cache, text, q);
    assert q + StepOf(CachedLen(loc, cache, text, q)) > buf;
  }

  /** A scan that reaches `q` steps over `buf` when the character at `q` runs past it. */
  lemma {:induction false} NotBoundaryInside(loc: Locale, text: seq<byte>, i: nat, q: nat, buf: nat)
    requires loc.Valid() && i <= q < buf < |text|
    requires MbrLen(loc, text[q..]).Len? && q + MbrLen(loc, text[q..]).n > buf
    requires Boundary(loc, text, i, q) || !Boundary(loc, text, i, buf)
    ensures !Boundary(loc, text, i, buf)
    decreases q - i
  {
    if Boundary(loc, text, i, buf) && i < q {
      var i' := i + Advance(loc, text[i..]);
      if i' <= q {
        NotBoundaryInside(loc, text, i', q, buf);
      } else {
        assert false;
      }
    }
  }

  /** Corrected: where the byte at `buf` may start a character, the walk begins at `buf` and only the match length decides. */
  lemma FixedAtCharacterStart(loc: Locale, cache: seq<SizeT>, text: seq<byte>, good: nat, buf: nat, matchLen: SizeT)
    requires loc.Valid() && |cache| == 256 && good <= buf < |text|
    requires loc.utf8 && buf - good > loc.maxWidth && cache[text[buf] as int] != SIZE_MAX
    ensures MbMiddleFixed(loc, cache, text, good, buf, matchLen) ==
      Verdict(0 < matchLen < AsSizeT(MbrLen(loc, text[buf..])), good)
  {
    assert StartFixed(loc, cache, text, good, buf) == buf;
  }
}
