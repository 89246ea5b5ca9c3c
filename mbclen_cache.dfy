/**
 * mbclen_cache, the file's table of mbrlen results for every single byte,
 * with the routine that fills it and is_mb_middle, which reads it.
 */
module MbclenCache {
  import opened Locale
  import opened MbMiddleSpec

  /** `unsigned char uc = i;`: the byte an int in CHAR_MIN..CHAR_MAX converts to. */
  function ToUchar(i: int): (b: byte)
  {
    (i % 256) as byte
  }

  class Cache {
    /** mbclen_cache: NCHAR size_t entries, zero until built. */
    const table: array<SizeT>

    constructor ()
      ensures table.Length == 256 && fresh(table)
      ensures forall b :: 0 <= b < 256 ==> table[b] == 0
    {
      table := new SizeT[256](_ => 0);
    }

    /**
     * build_mbclen_cache: store mbrlen of each char value from CHAR_MIN
     * to CHAR_MAX under its unsigned char index. `charIsSigned` says
     * whether the platform's char runs -128..127 or 0..255; either way
     * every index is written once.
     */
    method BuildMbclenCache(loc: Locale, charIsSigned: bool)
      requires loc.Valid() && table.Length == 256
      modifies table
      ensures Built(loc, table[..])
    {
      var charMin, charMax := if charIsSigned then -128 else 0, if charIsSigned then 127 else 255;
      var i := charMin;
      while i <= charMax
        invariant charMin <= i <= charMax + 1
        invariant forall j :: charMin <= j < i ==> table[ToUchar(j)] == AsSizeT(MbrLen(loc, [ToUchar(j)]))
      {
        var uc := ToUchar(i);
        // `char c = i` has the same bits as uc: mbrlen reads the one byte uc.
        table[uc] := AsSizeT(MbrLen(loc, [uc]));
        i := i + 1;
      }
      forall b | 0 <= b < 256
        ensures table[b] == AsSizeT(MbrLen(loc, [b as byte]))
      {
        var j := if charIsSigned && b >= 128 then b - 256 else b;
        assert ToUchar(j) == b as byte;
      }
    }

    /**
     * The second half of is_mb_middle: walk from `start` character by
     * character until `buf` is reached or passed, using the cached mbclen
     * and mbrlen over the rest of the text when the cache says the byte
     * begins a longer character, and remember in `prev` (initially the
     * cursor `good`) where the last complete character began. Passing
     * `buf` means it lies inside a character; landing on it, the match
     * length is compared with the character there.
     */
    method WalkAndDecide(loc: Locale, text: seq<byte>, start: nat, good: nat, buf: nat, matchLen: SizeT) returns (middle: bool, good': nat)
      requires loc.Valid() && table.Length == 256 && buf <= |text|
      ensures Verdict(middle, good') == Settle(loc, table[..], text, start, good, buf, matchLen)
    {
      var p: nat, prev: nat := start, good;
      ghost var cache := table[..];
      ghost var walk := Forward(loc, cache, text, start, good, buf);
      while p < buf
        invariant Forward(loc, cache, text, p, prev, buf) == walk
        decreases buf - p
      {
        ghost var p1, prev1, n := p, prev, CachedLen(loc, cache, text, p);
        var mbclen := table[text[p]];
        if mbclen == SIZE_MAX - 1 {
          mbclen := AsSizeT(MbrLen(loc, text[p..]));
        }
        assert mbclen == n;
        // Remember where the last complete character began.
        if mbclen != SIZE_MAX - 1 {
          prev := p;
        }
        if mbclen == SIZE_MAX || mbclen == SIZE_MAX - 1 || mbclen == 0 {
          // An invalid sequence, a truncated character or a null byte: step over one byte.
          mbclen := 1;
        }
        p := p + mbclen;
        ForwardStep(loc, cache, text, p1, prev1, buf, p, prev);
      }
      good' := prev;
      if p > buf {
        return true, good';
      }
      middle := 0 < matchLen && matchLen < AsSizeT(MbrLen(loc, text[p..]));
    }

    /**
     * is_mb_middle as the code stands: returns the answer and the new
     * *good. The backward scan's loop test is false on entry, so in UTF-8
     * a cursor far from `buf` makes the walk begin at `buf` itself.
     */
    method IsMbMiddle(loc: Locale, text: seq<byte>, good: nat, buf: nat, matchLen: SizeT) returns (middle: bool, good': nat)
      requires loc.Valid() && table.Length == 256 && good <= |text| && buf <= |text|
      ensures Verdict(middle, good') == MbMiddle(loc, table[..], text, good, buf, matchLen)
    {
      var p: nat := good;
      // buf - p is compared as a size_t, so a cursor after buf counts as far behind.
      if loc.utf8 && (buf < p || buf - p > loc.maxWidth) {
        p := buf;
        // The backward scan loop tests `buf - p > MB_CUR_MAX` with p == buf,
        // which is false, so its body never runs.
        assert !(buf - p > loc.maxWidth);
        if buf - p == loc.maxWidth {
          p := buf;
        }
      }
      middle, good' := WalkAndDecide(loc, text, p, good, buf, matchLen);
    }

    /**
     * is_mb_middle with the backward scan's loop test corrected to
     * `buf - p < MB_CUR_MAX`: in UTF-8 with the cursor far behind, step
     * back from `buf` to the nearest byte that is not a continuation byte
     * on its own, and walk forward from there.
     */
    method IsMbMiddleFixed(loc: Locale, text: seq<byte>, good: nat, buf: nat, matchLen: SizeT) returns (middle: bool, good': nat)
      requires loc.Valid() && table.Length == 256 && good <= buf < |text|
      ensures Verdict(middle, good') == MbMiddleFixed(loc, table[..], text, good, buf, matchLen)
    {
      var p: nat := good;
      if loc.utf8 && buf - p > loc.maxWidth {
        ghost var cache := table[..];
        ghost var q := BackScan(loc, cache, text, good, buf, buf);
        p := buf;
        while buf - p < loc.maxWidth
          invariant good < p <= buf && buf - p <= loc.maxWidth
          invariant BackScan(loc, cache, text, good, buf, p) == q
          decreases p
        {
          if table[text[p]] != SIZE_MAX {
            break;
          }
          p := p - 1;
        }
        assert p == q;
        if buf - p == loc.maxWidth {
          p := buf;
        }
      }
      assert p == StartFixed(loc, table[..], text, good, buf);
      middle, good' := WalkAndDecide(loc, text, p, good, buf, matchLen);
    }
  }
}
