/**
 * kwsinit: set up the keyword matcher, with a case-folding translation
 * table when matching ignores case in a single-byte locale.
 */
module KwsInit {
  import opened Locale
  import opened Wrappers

  /**
   * The table kwsinit hands to kwsalloc: toupper of every byte under -i
   * in a single-byte locale (MB_CUR_MAX == 1), and none (NULL) otherwise;
   * multibyte case folding is left to mbtoupper.
   */
  function TransFor(loc: Locale, matchIcase: bool): (t: Option<seq<byte>>)
    ensures t.Some? <==> matchIcase && loc.maxWidth == 1
    ensures t.Some? ==> |t.value| == 256
  {
    if matchIcase && loc.maxWidth == 1 then Some(seq(256, i requires 0 <= i < 256 => loc.toUpper(i as byte)))
    else None
  }

  /** How the keyword matcher compares a text byte with a pattern byte under a translation table. */
  function SameByte(t: Option<seq<byte>>, a: byte, b: byte): (same: bool)
    requires t.Some? ==> |t.value| == 256
  {
    match t
    case None => a == b
    case Some(tr) => tr[a as int] == tr[b as int]
  }

  /**
   * With kwsinit's table the keyword matcher ignores case exactly under
   * -i in a single-byte locale, and otherwise compares bytes as they are.
   */
  lemma CaseBlindExactlyUnderIcase(loc: Locale, matchIcase: bool, a: byte, b: byte)
    ensures TransFor(loc, matchIcase).Some? ==> |TransFor(loc, matchIcase).value| == 256
    ensures SameByte(TransFor(loc, matchIcase), a, b) <==>
      if matchIcase && loc.maxWidth == 1 then loc.toUpper(a) == loc.toUpper(b) else a == b
  {
    if matchIcase && loc.maxWidth == 1 {
      var tr := TransFor(loc, matchIcase).value;
      assert tr[a as int] == loc.toUpper(a) && tr[b as int] == loc.toUpper(b);
    }
  }

  /** kwsinit's static translation table, kept between calls. */
  class KwsTrans {
    const trans: array<byte>

    constructor ()
      ensures trans.Length == 256 && fresh(trans)
      ensures forall i :: 0 <= i < 256 ==> trans[i] == 0
    {
      trans := new byte[256](_ => 0);
    }

    /**
     * kwsinit: returns the table passed to kwsalloc (None for NULL). The
     * table is the contents of the static array, which a call without
     * case folding leaves as it was.
     */
    method KwsInit(loc: Locale, matchIcase: bool) returns (kwsTable: Option<seq<byte>>)
      requires loc.Valid() && trans.Length == 256
      modifies trans
      ensures kwsTable == TransFor(loc, matchIcase)
      ensures kwsTable.Some? ==> trans[..] == kwsTable.value
      ensures kwsTable.None? ==> trans[..] == old(trans[..])
    {
      if matchIcase && loc.maxWidth == 1 {
        var i := 0;
        while i < 256
          invariant 0 <= i <= 256
          invariant forall j :: 0 <= j < i ==> trans[j] == loc.toUpper(j as byte)
        {
          trans[i] := loc.toUpper(i as byte);
          i := i + 1;
        }
        assert trans[..] == TransFor(loc, matchIcase).value;
        kwsTable := Some(trans[..]);
      } else {
        kwsTable := None;
      }
    }
  }
}
