# grep's multibyte search helpers, modelled in Dafny

This project models the multibyte helper layer of GNU grep, `src/searchutils.c`:

- `kwsinit` picks the translation table for the keyword matcher. Under `-i` in a single-byte locale that table is `toupper` of every byte; otherwise there is none.
- `mbtoupper` case-folds a buffer of multibyte text. It also builds `len_map`, a map that carries offsets in the folded text back to the original.
- `build_mbclen_cache` fills `mbclen_cache`, the table of `mbrlen` results for every single byte.
- `is_mb_middle` decides whether a match at offset `buf` starts inside a multibyte character, or, for a short match, ends inside one. It walks forward from a cursor `*good` and moves that cursor along.

The C library's locale primitives are uninterpreted fields of a `Locale` value:

- `mbrtowc`/`mbrlen` are a decoder that answers invalid, incomplete, null character or `Char(len, cp)`;
- `towupper`, `wcrtomb` and `toupper` are functions;
- `MB_CUR_MAX` and `using_utf8()` are constants.

`Locale.Valid` collects what the C library promises about these: MB_CUR_MAX is between 1 and 16, and decoded and encoded lengths lie between 1 and MB_CUR_MAX. `Locale.PrefixStable` says that `mbrtowc` does not look past the bytes it needs. Only the lemmas that relate the cached walk of `is_mb_middle` to a plain character-by-character scan assume it.

Pointers into the text are offsets into one byte sequence. `size_t` results are natural numbers up to `SIZE_MAX`. `(size_t) -1` and `(size_t) -2` are the two largest of these values, so C's unsigned comparisons behave as in the code.

Modules:

- `Locale`: the primitives, `size_t`, and `Boundary`, which says that a character-by-character scan from one offset stops at another.
- `MbToUpper`: the fold as a specification function (`Step`, `FoldFrom`, `Fold`), the lemmas about it, and the class `UpperCaser` with mbtoupper's static buffers and the loop.
- `MbMiddleSpec`: is_mb_middle as written (`Forward`, `Settle`, `MbMiddle`), the corrected backward scan (`BackScan`, `StartFixed`, `MbMiddleFixed`) and the lemmas about both.
- `MbclenCache`: the class `Cache` holding the `mbclen_cache` array, with `build_mbclen_cache`, is_mb_middle as written and is_mb_middle corrected, as loops over that array.
- `MbMiddleExample`: a UTF-8-like locale with characters of at most two bytes and MB_CUR_MAX as a parameter, and the concrete inputs behind the finding below.
- `KwsInit`: the class `KwsTrans` holding the static `trans` array, and kwsinit.

The code and its documentation disagree in one place, and the model follows the code. The comment above mbtoupper (`src/searchutils.c:67-73`) gives the `len_map` entries the opposite sign. It says a character that shrinks by one byte gets -1. The code stores `mbclen - ombclen` (line 200), which makes that entry +1. With the code's sign, the position in the folded text plus the sum of the entries before it is the offset in the original (`MbToUpper.OffsetRecovery`).

When the corrected backward scan finds no leading byte within MB_CUR_MAX bytes, it resumes at `buf`, as lines 244-245 do.

## Model

| member | source | states |
|---|---|---|
| Locale.MbrLen | src/searchutils.c:255 | A character length that mbrlen reports is at least 1, at most the bytes available and at most MB_CUR_MAX; no bytes at all is a truncated character |
| Locale.EncodeUpper | src/searchutils.c:199 | wcrtomb of the upper-cased character writes between 1 and MB_CUR_MAX bytes |
| Locale.Advance | src/searchutils.c:159-172 | A scan step covers at least one byte, never more than what is left or MB_CUR_MAX, and exactly the character's length whenever mbrlen reports one |
| Locale.AsSizeT | src/searchutils.c:254-261 | As size_t values, an invalid sequence is exactly SIZE_MAX and a truncated one exactly SIZE_MAX - 1, the null character is 0, and a character length keeps its value |
| MbToUpper.Step | src/searchutils.c:159-205 | One pass of the loop consumes between 1 and MB_CUR_MAX input bytes (the length scanning advances by) and emits 1 to MB_CUR_MAX bytes, with one map slot per output byte: the first holds consumed minus emitted, the rest 0. A decoded character consumes exactly its length and emits wcrtomb(towupper(wc)), its upper-cased encoding; an undecodable byte is copied through unchanged and consumes exactly one byte |
| MbToUpper.Fold | src/searchutils.c:115-207 | The whole loop's output and map, as a function of the input: the map is as long as the output, and the output is empty exactly when the input is. FoldAccounting, FoldDiffersIff and OffsetRecovery state what it means |
| MbToUpper.FoldFrom | src/searchutils.c:115-207 | len_map grows in lockstep with the output, and the output is empty only when no input is left |
| MbToUpper.StepAccounting | src/searchutils.c:200-204 | The map slots of one character sum to the number of bytes it lost in folding |
| MbToUpper.FoldAccounting | src/searchutils.c:159-205 | Output length plus the sum of all len_map entries equals the input length |
| MbToUpper.FoldDiffersIff | src/searchutils.c:200-209 | lengths_differ ends true exactly when some len_map entry is non-zero, so a NULL map loses no information |
| MbToUpper.SingleByteFold | src/searchutils.c:199-209 | With MB_CUR_MAX 1 the output is exactly as long as the input and no map is returned |
| MbToUpper.DeltaBounds | src/searchutils.c:200-201 | Every len_map entry lies strictly between -MB_CUR_MAX and MB_CUR_MAX |
| MbToUpper.FoldSuffix | src/searchutils.c:115-207 | At a character boundary the loop passes, the fold of the rest of the input is a suffix of the whole fold, for the output and the map alike |
| MbToUpper.FoldAt | src/searchutils.c:159-205 | For the character that starts at input offset j, the whole output holds, at the position OffsetRecovery translates back to j, exactly the bytes its pass emits: its upper-cased encoding when it decodes, the byte itself when it does not |
| MbToUpper.OffsetRecovery | src/searchutils.c:77-79 | For the character that starts at input offset j, its output position plus the sum of the len_map entries before that position is j |
| MbToUpper.ProgressStep | src/searchutils.c:115-206 | One pass keeps the loop's bookkeeping: what was written so far, followed by the fold of the rest, is the whole fold, for the output, the map and lengths_differ alike, and the length accounting holds up to the current input offset |
| MbToUpper.UpperCaser.constructor | src/searchutils.c:84-85 | The static output and map buffers start empty |
| MbToUpper.UpperCaser.MbToUpper | src/searchutils.c:81-213 | Empty input returns 0 and leaves the buffers and *len_map_p untouched. Otherwise out holds the fold followed by a NUL, *n is its length without the NUL, len_map has *n entries that, added to *n, give the input length, and *len_map_p is the map exactly when some character changed length |
| MbMiddleSpec.Built | src/searchutils.c:221-226 | Defines the state build_mbclen_cache leaves: 256 entries, entry b holding mbrlen of the single byte b as a size_t |
| MbMiddleSpec.CachedLen | src/searchutils.c:252-255 | The walk's mbclen reads SIZE_MAX - 1 (truncated) only when the cache marks the byte as one that begins a longer character and mbrlen over the whole rest of the text is truncated too |
| MbMiddleSpec.StepOf | src/searchutils.c:261-268 | The walk always advances: by the character's length, or by exactly one byte for an invalid, truncated or null character |
| MbMiddleSpec.Forward | src/searchutils.c:250-269 | The walk stops at or past buf, staying put if it starts there. The remembered character start is the initial one or lies between the walk's start and buf. ForwardLast states which start that is |
| MbMiddleSpec.ForwardLast | src/searchutils.c:250-269 | With the cache built, the remembered start never moves back. It is the start of a complete character (mbrlen does not report it truncated) unless it is still the initial one, and it is no earlier than any complete character start the walk passes before buf: the beginning of the last complete character before buf |
| MbMiddleSpec.ForwardStep | src/searchutils.c:252-268 | One iteration of the walk leaves the rest of the walk to the new p and prev |
| MbMiddleSpec.Settle | src/searchutils.c:271-277 | A walk that starts past buf reports the middle of a character; the cursor stored in *good is the old one or lies between the start and buf |
| MbMiddleSpec.StartAsWritten | src/searchutils.c:238-246 | The walk as written begins at the cursor or at buf, never at a byte strictly between them: the backward scan never picks a closer start. Outside UTF-8, or with the cursor at most MB_CUR_MAX bytes before buf, it begins at the cursor; in UTF-8 with the cursor after buf or more than MB_CUR_MAX bytes before it, it begins at buf |
| MbMiddleSpec.MbMiddle | src/searchutils.c:230-278 | With *good at or before buf, the new *good never moves back and stays at or before buf (MbMiddleMeaning says where it lands). Outside UTF-8, a cursor past buf is reported as the middle of a character |
| MbMiddleSpec.ForwardResume | src/searchutils.c:250-271 | Restarting the walk at the character start it remembered reaches the same stop and remembers the same start |
| MbMiddleSpec.MbMiddleResume | src/searchutils.c:230-278 | Calling is_mb_middle again at the same buf with the *good it stored gives the same answer and stores the same cursor |
| MbMiddleSpec.ForwardSplit | src/searchutils.c:250-269 | The forward walk to a later offset is the walk to an earlier offset, continued from where it stopped and with the character start it remembered |
| MbMiddleSpec.MbMiddleAdvance | src/searchutils.c:230-278 | The *good stored while checking an earlier offset gives the same answer and stored cursor at any later offset as the original cursor would, so a caller may keep the cursor between matches; in UTF-8 this holds while the later offset is within MB_CUR_MAX bytes of the original cursor |
| MbMiddleSpec.CacheAgrees | src/searchutils.c:252-255 | With the cache built, the cached mbclen equals mbrlen over the rest of the text, and the walk's step equals the character-by-character scan's |
| MbMiddleSpec.ForwardBoundary | src/searchutils.c:250-269 | With the cache built, the walk lands exactly on buf if and only if buf is a character boundary as seen from the start, and the character start it remembers is one too |
| MbMiddleSpec.MbMiddleMeaning | src/searchutils.c:230-278 | When the walk starts at the cursor, the answer is true if and only if buf is not a character boundary as seen from *good, or a non-empty match is shorter than the character at buf. The new *good is a boundary at or before buf: the start of the last complete character before buf, or the old cursor when there is none |
| MbMiddleSpec.BackScan | src/searchutils.c:240-242 | The corrected backward scan stops after the cursor and at most MB_CUR_MAX bytes before buf. Short of that limit it stops at a byte that may start a character, and every byte it stepped over is one that may not |
| MbMiddleSpec.StartFixed | src/searchutils.c:238-246 | With the corrected scan, the walk starts between the cursor and buf |
| MbMiddleSpec.MbMiddleFixed | src/searchutils.c:238-277 | With the corrected scan, the new *good lies between the old one and buf |
| MbMiddleSpec.BackScanFinds | src/searchutils.c:240-242 | When buf lies inside a UTF-8 character that starts within MB_CUR_MAX bytes, the corrected scan stops at that character's first byte |
| MbMiddleSpec.AsWrittenIgnoresText | src/searchutils.c:238-277 | As written, in UTF-8 with the cursor more than MB_CUR_MAX bytes behind buf, the bytes before buf are never read: only the match length against mbrlen at buf decides, and the cursor stays where it was. So an empty match is never reported as inside a character, while a non-empty match (of any length below SIZE_MAX) at a byte that is invalid on its own still is |
| MbMiddleSpec.FixedDetectsMiddle | src/searchutils.c:238-274 | With the corrected scan and the cursor far behind, an offset inside a UTF-8 character is reported as the middle of a character, whatever the match length |
| MbMiddleSpec.NotBoundaryInside | src/searchutils.c:250-274 | A scan that reaches the start of a character running past buf never lands on buf |
| MbMiddleSpec.FixedAtCharacterStart | src/searchutils.c:238-277 | With the corrected scan, when the byte at buf may start a character, only the match length decides and the cursor stays where it was |
| MbMiddleExample.MissesInside | src/searchutils.c:240 | For any MB_CUR_MAX from 2 to 16 and more letters than MB_CUR_MAX before C3 A9, with the cursor at 0 the byte A9 is no character boundary; the code as written answers false there for an empty match, and the corrected scan answers true; a match of length 1 there is reported as written, since A9 alone is invalid |
| MbMiddleExample.MissedMiddleGlibc | src/searchutils.c:240 | With MB_CUR_MAX 6, as glibc reports for UTF-8, on eight letters then C3 A9 with the cursor at 0: offset 9 is no boundary, the code as written answers false for an empty match there, and the corrected scan answers true |
| MbMiddleExample.MissedMiddle | src/searchutils.c:240 | With MB_CUR_MAX 2, on the text 41 41 41 C3 A9 with the cursor at 0, offset 4 is no character boundary. The code as written answers false there for an empty match, and the corrected scan answers true; a match of length 1 there is reported as written too |
| MbclenCache.Cache.constructor | src/searchutils.c:29 | mbclen_cache has 256 entries, all zero before it is built |
| MbclenCache.Cache.BuildMbclenCache | src/searchutils.c:216-228 | Whether char is signed or not, every entry b ends as mbrlen of the single byte b, read as a size_t |
| MbclenCache.Cache.WalkAndDecide | src/searchutils.c:248-277 | The loop over the cache and the final comparison compute exactly the walk and verdict specified by Settle |
| MbclenCache.Cache.IsMbMiddle | src/searchutils.c:230-278 | The code as written returns exactly the answer and the new *good of MbMiddle, and so has every property proved about it above |
| MbclenCache.Cache.IsMbMiddleFixed | src/searchutils.c:238-277 | With the backward scan's loop test corrected to `<`, the loop returns exactly the answer and the new *good of MbMiddleFixed |
| KwsInit.TransFor | src/searchutils.c:37-45 | The table kwsinit hands to kwsalloc: there is one exactly under -i with MB_CUR_MAX 1, and it has 256 entries |
| KwsInit.SameByte | src/searchutils.c:42 | Defines how the keyword matcher compares a text byte with a pattern byte under the table it was given: through the table, or as they are without one |
| KwsInit.CaseBlindExactlyUnderIcase | src/searchutils.c:37-45 | With kwsinit's table, the matcher treats two bytes as equal exactly when their toupper values agree (under -i in a single-byte locale), and otherwise only when the bytes are equal |
| KwsInit.KwsTrans.constructor | src/searchutils.c:34 | The static trans table has 256 entries, all zero before the first call |
| KwsInit.KwsTrans.KwsInit | src/searchutils.c:31-49 | Under -i with MB_CUR_MAX 1, every byte i of trans becomes toupper(i) and that table is handed to kwsalloc. Otherwise no table is handed over and trans is left as it was |

## Left out

- Cygwin's UTF-16 surrogate-pair handling (`src/searchutils.c:119-149`, `173-197`). It is a platform adapter and is not modelled.
- Memory management is not modelled:
  - the growth of `outalloc`, `xrealloc` and `x2nrealloc`, and the capacity check at lines 150-157;
  - the `assert`s at lines 102-103;
  - allocation failure and `xalloc_die` (lines 47-48).
  The buffers are sequences exactly as long as what has been written.
- KwsInit.KwsTrans.KwsInit: `kwsalloc` and the `kwset_t` it builds are an external library and are not part of this model. The method returns the table it would hand to `kwsalloc`.
- KwsInit.SameByte: the keyword matcher itself is not part of this model; SameByte is an assumed model of how it uses the translation table, comparing bytes through it.
- Conversion state (`mbstate_t`: `is`, `os`, `cur_state`) is not modelled. Every decode starts from the initial state, so the `memset` resets do nothing.
- The real behaviour of `mbrtowc`, `mbrlen`, `wcrtomb`, `towupper`, `toupper`, `MB_CUR_MAX` and `using_utf8()` is not modelled. They are abstract and are assumed to meet `Locale.Valid` (and `Locale.PrefixStable` where stated). A failing `wcrtomb` (`(size_t) -1`) is excluded by `Locale.Valid`.
- Static storage is not modelled as shared memory:
  - the returned `out` and `len_map` pointers aliasing the buffers kept for the next call;
  - the missing thread safety.
  The class fields hold the buffers' contents as values.
- MbToUpper.UpperCaser.MbToUpper: `len_map` entries are unbounded integers. The width of `mb_len_map_t` is not modelled; `MbToUpper.DeltaBounds` bounds the entries by MB_CUR_MAX instead.
- MbclenCache.Cache.IsMbMiddle: the backward scan loop at line 240 is represented by one evaluation of its loop test, which is false on entry. Its body cannot run and is not written out.
- MbMiddleSpec.MbMiddleMeaning: stated only when the walk starts at the cursor. When it does not (UTF-8 with the cursor far behind), the answer as written is the subject of the finding below.
- MbMiddleSpec.MbMiddleFixed and MbclenCache.Cache.IsMbMiddleFixed require `buf` to be before the end of the text, because the corrected scan reads the byte at `buf`.

## Findings

| source | as written | input that shows it | evidently intended | confidence | as-written member | corrected member |
|---|---|---|---|---|---|---|
| src/searchutils.c:240 | The backward scan starts at `p = buf` and loops while `buf - p > MB_CUR_MAX`, which is false at once. So in UTF-8 a cursor far behind `buf` makes the walk start at `buf`, and the cursor never advances. A match inside a character is judged by its length alone. A non-empty match at a continuation byte is still reported, since mbrlen of that lone byte is (size_t) -1. An empty match is not | MB_CUR_MAX 6 (glibc's value for UTF-8), text 41 41 41 41 41 41 41 41 C3 A9, cursor 0, offset 9 (inside the character C3 A9), match length 0: the answer is false, where the corrected scan stops at offset 8 and answers true; the same with MB_CUR_MAX 2 on 41 41 41 C3 A9 at offset 4 | Loop while `buf - p < MB_CUR_MAX`, stepping back to the nearest byte that may start a character and walking forward from it | not executed | MbMiddleExample.MissedMiddleGlibc | MbMiddleSpec.FixedDetectsMiddle |
