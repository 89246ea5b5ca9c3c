/**
 * mbtoupper: fold a byte buffer to upper case in a multibyte locale, and
 * record how each character's encoded length changed so that offsets in
 * the folded text can be mapped back to the original.
 */
module MbToUpper {
  import opened Locale
  import opened Wrappers

  /** One pass of mbtoupper's loop: the input bytes it consumes, the bytes it writes, the len_map slots it writes. */
  datatype FoldStep = FoldStep(consumed: nat, bytes: seq<byte>, deltas: seq<int>)

  /** The whole fold: the output bytes, the len_map, and whether some character changed length. */
  datatype Folded = Folded(bytes: seq<byte>, deltas: seq<int>, differ: bool)

  function Zeros(n: nat): (r: seq<int>)
    ensures |r| == n && forall k :: 0 <= k < n ==> r[k] == 0
  {
    seq(n, _ => 0)
  }

  function Sum(d: seq<int>): (t: int)
  {
    if d == [] then 0 else d[0] + Sum(d[1..])
  }

  /**
   * The loop body at the front of `s`. A byte that does not start a
   * decodable character (invalid, truncated, or the null character) is
   * copied alone with delta 0; a decoded character is upper-cased and
   * re-encoded, and its first output slot records how many bytes shorter
   * the output is than the input, the other slots 0.
   */
  function Step(loc: Locale, s: seq<byte>): (st: FoldStep)
    requires loc.Valid() && |s| > 0
    ensures 1 <= st.consumed <= |s| && st.consumed <= loc.maxWidth
    ensures 1 <= |st.bytes| <= loc.maxWidth
    ensures |st.deltas| == |st.bytes|
    ensures st.deltas[0] == st.consumed - |st.bytes|
    ensures forall k :: 1 <= k < |st.deltas| ==> st.deltas[k] == 0
    ensures !loc.decode(s).Char? ==> st.consumed == 1 && st.bytes == [s[0]]
    ensures loc.decode(s).Char? ==>
      st.consumed == loc.decode(s).len && st.bytes == loc.encode(loc.upper(loc.decode(s).cp))
    ensures st.consumed == Advance(loc, s)
  {
    match loc.decode(s)
    case Char(len, cp) =>
      var out := EncodeUpper(loc, cp);
      FoldStep(len, out, [len - |out|] + Zeros(|out| - 1))
    case _ =>
      FoldStep(1, [s[0]], [0])
  }

  /** The result of running mbtoupper's loop over `s` from offset `i` to the end. */
  function FoldFrom(loc: Locale, s: seq<byte>, i: nat): (f: Folded)
    requires loc.Valid() && i <= |s|
    decreases |s| - i
    ensures |f.deltas| == |f.bytes|
    ensures (|f.bytes| == 0) == (i == |s|)
  {
    if i == |s| then Folded([], [], false)
    else
      var st := Step(loc, s[i..]);
      var rest := FoldFrom(loc, s, i + st.consumed);
      Folded(st.bytes + rest.bytes, st.deltas + rest.deltas, st.consumed != |st.bytes| || rest.differ)
  }

  /** One pass of the loop, then the rest: FoldFrom's definition, stated for the loop's proof. */
  lemma FoldUnfold(loc: Locale, s: seq<byte>, i: nat, st: FoldStep, j: nat)
    requires loc.Valid() && i < |s|
    requires st == Step(loc, s[i..]) && j == i + st.consumed
    ensures FoldFrom(loc, s, i).bytes == st.bytes + FoldFrom(loc, s, j).bytes
    ensures FoldFrom(loc, s, i).deltas == st.deltas + FoldFrom(loc, s, j).deltas
    ensures FoldFrom(loc, s, i).differ == (st.consumed != |st.bytes| || FoldFrom(loc, s, j).differ)
  {
  }

  /** The result of running mbtoupper's loop over all of `s`. */
  function Fold(loc: Locale, s: seq<byte>): (f: Folded)
    requires loc.Valid()
    ensures |f.deltas| == |f.bytes|
    ensures |f.bytes| == 0 <==> |s| == 0
  {
    FoldFrom(loc, s, 0)
  }

  /** Regrouping a concatenation, named so that the proofs below need not search for it. */
  lemma AppendAssoc<T>(a: seq<T>, b: seq<T>, c: seq<T>)
    ensures a + (b + c) == (a + b) + c
  {
  }

  lemma {:induction false} SumAppend(a: seq<int>, b: seq<int>)
    ensures Sum(a + b) == Sum(a) + Sum(b)
  {
    if a != [] {
      assert (a + b)[1..] == a[1..] + b;
      SumAppend(a[1..], b);
    } else {
      assert a + b == b;
    }
  }

  lemma {:induction false} SumZeros(n: nat)
    ensures Sum(Zeros(n)) == 0
  {
    if n > 0 {
      assert Zeros(n)[1..] == Zeros(n - 1);
      SumZeros(n - 1);
    }
  }

  /** The len_map entries of one character add up to the change in its length. */
  lemma StepAccounting(loc: Locale, s: seq<byte>)
    requires loc.Valid() && |s| > 0
    ensures |Step(loc, s).bytes| + Sum(Step(loc, s).deltas) == Step(loc, s).consumed
  {
    var st := Step(loc, s);
    assert st.deltas == [st.deltas[0]] + Zeros(|st.bytes| - 1);
    SumAppend([st.deltas[0]], Zeros(|st.bytes| - 1));
    SumZeros(|st.bytes| - 1);
  }

  /**
   * The length of the folded text plus the sum of all len_map entries is
   * the length of the original text (from offset `i` on).
   */
  lemma {:induction false} FoldAccounting(loc: Locale, s: seq<byte>, i: nat)
    requires loc.Valid() && i <= |s|
    ensures |FoldFrom(loc, s, i).bytes| + Sum(FoldFrom(loc, s, i).deltas) == |s| - i
    decreases |s| - i
  {
    if i < |s| {
      var st := Step(loc, s[i..]);
      var j := i + st.consumed;
      var f, rest := FoldFrom(loc, s, i), FoldFrom(loc, s, j);
      FoldUnfold(loc, s, i, st, j);
      FoldAccounting(loc, s, j);
      StepAccounting(loc, s[i..]);
      SumAppend(st.deltas, rest.deltas);
      assert |f.bytes| == |st.bytes| + |rest.bytes|;
      assert Sum(f.deltas) == Sum(st.deltas) + Sum(rest.deltas);
    }
  }

  /**
   * Some character changed its encoded length exactly when some len_map
   * entry is non-zero; so an absent map means every entry would be 0.
   */
  lemma {:induction false} FoldDiffersIff(loc: Locale, s: seq<byte>, i: nat)
    requires loc.Valid() && i <= |s|
    ensures var f := FoldFrom(loc, s, i);
      f.differ <==> exists k :: 0 <= k < |f.deltas| && f.deltas[k] != 0
    decreases |s| - i
  {
    if i < |s| {
      var st := Step(loc, s[i..]);
      var j := i + st.consumed;
      var f, rest := FoldFrom(loc, s, i), FoldFrom(loc, s, j);
      FoldUnfold(loc, s, i, st, j);
      FoldDiffersIff(loc, s, j);
      if rest.differ {
        var k :| 0 <= k < |rest.deltas| && rest.deltas[k] != 0;
        assert f.deltas[|st.deltas| + k] == rest.deltas[k];
      }
      if f.differ && !rest.differ {
        assert f.deltas[0] != 0;
      }
      if !f.differ {
        forall k | 0 <= k < |f.deltas| ensures f.deltas[k] == 0 {
          if k >= |st.deltas| {
            assert f.deltas[k] == rest.deltas[k - |st.deltas|];
          }
        }
      }
    }
  }

  /**
   * In a single-byte locale (MB_CUR_MAX == 1) every character keeps its
   * length: the output is as long as the input and no map is returned.
   */
  lemma {:induction false} SingleByteFold(loc: Locale, s: seq<byte>, i: nat)
    requires loc.Valid() && loc.maxWidth == 1 && i <= |s|
    ensures |FoldFrom(loc, s, i).bytes| == |s| - i && !FoldFrom(loc, s, i).differ
    decreases |s| - i
  {
    if i < |s| {
      var st := Step(loc, s[i..]);
      var j := i + st.consumed;
      FoldUnfold(loc, s, i, st, j);
      SingleByteFold(loc, s, j);
    }
  }

  /** Every entry of `d` is strictly between -w and w. */
  ghost predicate WithinWidth(d: seq<int>, w: int)
  {
    forall k :: 0 <= k < |d| ==> -w < d[k] < w
  }

  /** Bounds on the entries of two maps carry over to the map made by appending them. */
  lemma WithinWidthAppend(a: seq<int>, b: seq<int>, w: int)
    requires WithinWidth(a, w) && WithinWidth(b, w)
    ensures WithinWidth(a + b, w)
  {
    forall k | 0 <= k < |a + b| ensures -w < (a + b)[k] < w {
      if k >= |a| {
        assert (a + b)[k] == b[k - |a|];
      }
    }
  }

  /** The length deltas are each smaller in magnitude than MB_CUR_MAX, so they fit the map's small integer entries. */
  lemma {:induction false} DeltaBounds(loc: Locale, s: seq<byte>, i: nat)
    requires loc.Valid() && i <= |s|
    ensures WithinWidth(FoldFrom(loc, s, i).deltas, loc.maxWidth)
    decreases |s| - i
  {
    if i < |s| {
      var st := Step(loc, s[i..]);
      var j := i + st.consumed;
      FoldUnfold(loc, s, i, st, j);
      DeltaBounds(loc, s, j);
      assert WithinWidth(st.deltas, loc.maxWidth);
      WithinWidthAppend(st.deltas, FoldFrom(loc, s, j).deltas, loc.maxWidth);
    }
  }

  /** Where the loop passes offset `j`, the fold from `j` on is the tail of the fold from `i`. */
  lemma {:induction false} FoldSuffix(loc: Locale, s: seq<byte>, i: nat, j: nat) returns (head: seq<byte>, headDeltas: seq<int>)
    requires loc.Valid() && i <= |s| && Boundary(loc, s, i, j)
    ensures i <= j <= |s| && |head| == |headDeltas|
    ensures FoldFrom(loc, s, i).bytes == head + FoldFrom(loc, s, j).bytes
    ensures FoldFrom(loc, s, i).deltas == headDeltas + FoldFrom(loc, s, j).deltas
    decreases |s| - i
  {
    if i == j {
      head, headDeltas := [], [];
    } else {
      var st := Step(loc, s[i..]);
      var k := i + st.consumed;
      FoldUnfold(loc, s, i, st, k);
      var h, hd := FoldSuffix(loc, s, k, j);
      var t := FoldFrom(loc, s, j);
      head, headDeltas := st.bytes + h, st.deltas + hd;
      AppendAssoc(st.bytes, h, t.bytes);
      AppendAssoc(st.deltas, hd, t.deltas);
    }
  }

  /** A slice of `a + tail` that starts at the end of `a` is a slice of `tail`. */
  lemma SliceAfter<T>(whole: seq<T>, a: seq<T>, tail: seq<T>, n: nat)
    requires whole == a + tail && n <= |tail|
    ensures |a| + n <= |whole| && whole[|a|..|a| + n] == tail[..n]
  {
    assert whole[|a|..] == tail;
  }

  /** The fold from a character start begins with the bytes Step emits for that character. */
  lemma FoldFromStarts(loc: Locale, s: seq<byte>, j: nat)
    requires loc.Valid() && j < |s|
    ensures |Step(loc, s[j..]).bytes| <= |FoldFrom(loc, s, j).bytes|
    ensures FoldFrom(loc, s, j).bytes[..|Step(loc, s[j..]).bytes|] == Step(loc, s[j..]).bytes
  {
    var st := Step(loc, s[j..]);
    FoldUnfold(loc, s, j, st, j + st.consumed);
  }

  /**
   * Where a character's folding lands in the output: for the character
   * starting at input offset j, the output from position k on begins with
   * exactly the bytes that Step emits for it (its upper-cased encoding when
   * it decodes), k being the position OffsetRecovery translates back to j.
   */
  lemma FoldAt(loc: Locale, s: seq<byte>, j: nat) returns (k: nat)
    requires loc.Valid() && j < |s| && Boundary(loc, s, 0, j)
    ensures k == |Fold(loc, s).bytes| - |FoldFrom(loc, s, j).bytes|
    ensures k + |Step(loc, s[j..]).bytes| <= |Fold(loc, s).bytes|
    ensures Fold(loc, s).bytes[k..k + |Step(loc, s[j..]).bytes|] == Step(loc, s[j..]).bytes
  {
    var head, headDeltas := FoldSuffix(loc, s, 0, j);
    FoldFromStarts(loc, s, j);
    SliceAfter(Fold(loc, s).bytes, head, FoldFrom(loc, s, j).bytes, |Step(loc, s[j..]).bytes|);
    k := |head|;
  }

  /**
   * Translating back: at the output position where the character that
   * starts at input offset `j` was written, the position plus the sum of
   * the len_map entries before it is `j`.
   */
  lemma OffsetRecovery(loc: Locale, s: seq<byte>, j: nat)
    requires loc.Valid() && Boundary(loc, s, 0, j)
    ensures j <= |s|
    ensures var f := Fold(loc, s);
      var k := |f.bytes| - |FoldFrom(loc, s, j).bytes|;
      0 <= k <= |f.deltas| && k + Sum(f.deltas[..k]) == j
  {
    var head, headDeltas := FoldSuffix(loc, s, 0, j);
    var f, t := Fold(loc, s), FoldFrom(loc, s, j);
    var k := |f.bytes| - |t.bytes|;
    assert f.deltas[..k] == headDeltas;
    SumAppend(headDeltas, t.deltas);
    FoldAccounting(loc, s, 0);
    FoldAccounting(loc, s, j);
  }

  /**
   * The storage that mbtoupper keeps between calls: the output buffer and
   * the len_map buffer, reused (and so overwritten) by every call.
   */
  class UpperCaser {
    var out: seq<byte>
    var lenMap: seq<int>

    constructor ()
      ensures out == [] && lenMap == []
    {
      out, lenMap := [], [];
    }

    /**
     * Fold `beg` to upper case. Returns the new *n and the new *len_map_p
     * (None for NULL, otherwise the contents of the map it points at);
     * `lenMapP` is the caller's *len_map_p, which an empty input leaves
     * alone, as it leaves the buffers.
     */
    method MbToUpper(loc: Locale, beg: seq<byte>, lenMapP: Option<seq<int>>) returns (n: nat, lenMapP': Option<seq<int>>)
      requires loc.Valid()
      modifies this
      ensures |beg| == 0 ==> n == 0 && lenMapP' == lenMapP && out == old(out) && lenMap == old(lenMap)
      ensures |beg| > 0 ==>
        && out == Fold(loc, beg).bytes + [0]
        && lenMap == Fold(loc, beg).deltas
        && n == |out| - 1 == |lenMap|
        && n + Sum(lenMap) == |beg|
        && lenMapP' == (if Fold(loc, beg).differ then Some(lenMap) else None)
    {
      if |beg| == 0 {
        return 0, lenMapP;
      }
      // p and m: what has been written so far through the cursors into the two buffers.
      var p: seq<byte>, m: seq<int> := [], [];
      var i := 0;
      var lengthsDiffer := false;
      while i < |beg|
        invariant Scanned(loc, beg, i, p, m, lengthsDiffer)
        decreases |beg| - i
      {
        ghost var st, i0, p0, m0, d0 := Step(loc, beg[i..]), i, p, m, lengthsDiffer;
        match loc.decode(beg[i..]) {
          case Char(mbclen, wc) =>
            var upper := EncodeUpper(loc, wc);
            var ombclen := |upper|;
            // len_map records the shrinkage at the character's first output byte, 0 at the rest.
            var delta := [mbclen - ombclen] + Zeros(ombclen - 1);
            assert st == FoldStep(mbclen, upper, delta);
            m := m + delta;
            p := p + upper;
            i := i + mbclen;
            lengthsDiffer := lengthsDiffer || mbclen != ombclen;
          case _ =>
            // An invalid sequence, a truncated character or the null character: copy one byte.
            assert st == FoldStep(1, [beg[i]], [0]);
            m := m + [0];
            p := p + [beg[i]];
            i := i + 1;
        }
        ProgressStep(loc, beg, st, i0, p0, m0, d0, i, p, m, lengthsDiffer);
      }
      out, lenMap := p + [0], m;
      lenMapP' := if lengthsDiffer then Some(lenMap) else None;
      n := |p|;
    }
  }

  /**
   * The loop's bookkeeping after reading `beg` up to offset `i`: `p` and
   * `m`, what has been written so far, followed by the fold of the rest,
   * make up the whole fold, and `d` has noticed every length change so far.
   */
  ghost predicate Scanned(loc: Locale, beg: seq<byte>, i: nat, p: seq<byte>, m: seq<int>, d: bool)
    requires loc.Valid()
  {
    && i <= |beg|
    && |m| == |p|
    && |p| + Sum(m) == i
    && p + FoldFrom(loc, beg, i).bytes == Fold(loc, beg).bytes
    && m + FoldFrom(loc, beg, i).deltas == Fold(loc, beg).deltas
    && (d || FoldFrom(loc, beg, i).differ) == Fold(loc, beg).differ
  }

  /** One pass of the loop keeps its bookkeeping. */
  lemma ProgressStep(loc: Locale, beg: seq<byte>, st: FoldStep,
                     i0: nat, p0: seq<byte>, m0: seq<int>, d0: bool,
                     i: nat, p: seq<byte>, m: seq<int>, d: bool)
    requires loc.Valid() && i0 < |beg| && Scanned(loc, beg, i0, p0, m0, d0)
    requires st == Step(loc, beg[i0..])
    requires i == i0 + st.consumed && p == p0 + st.bytes && m == m0 + st.deltas
    requires d == (d0 || st.consumed != |st.bytes|)
    ensures Scanned(loc, beg, i, p, m, d)
  {
    StepAccounting(loc, beg[i0..]);
    SumAppend(m0, st.deltas);
    var tail := FoldFrom(loc, beg, i);
    FoldUnfold(loc, beg, i0, st, i);
    AppendAssoc(p0, st.bytes, tail.bytes);
    AppendAssoc(m0, st.deltas, tail.deltas);
  }
}
