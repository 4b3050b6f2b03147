# Syndrome error decoding, modelled in Dafny

This project models the coding engine of the Syndrome-Error-Decoding
repository. The engine is a systematic binary (n, k) linear block code, used
to send ASCII letters over a noisy channel.

- `LinearCode` builds three things:
  - the generator matrix G = [I_k | A], where A is all ones except A[x][x] = 0 for x < n - k;
  - the parity-check matrix H = [A ; I_{n-k}];
  - a syndrome table, filled by a counter-driven walk over 2^(n-k) - 1 candidate error vectors. A syndrome keeps the first candidate that produces it.
- The three `get_*` getters memoize.
- `create_ascii_mappings` maps each of the 52 letters to `'0'` followed by the binary digits of its code point, and builds the inverse dictionary.
- `transform_text_to_binary` turns a text into one 0/1 vector per letter.
- `AsciiCode` (k = 8) encodes every letter's vector through G into `code_words`. `decode_letter` corrects a received word with the table and looks it up. Either lookup falls back to `random.choice` when it misses.

`decoding.py` holds a second copy of all of this: the module-level mapping loop, `transform_text_to_binary`, `LinearCode` and `AsciiCode`. Its code does the same thing line by line, so one model covers both copies. Some of the rows below cite the `decoding.py` lines instead of the original.

Files:

- `gf2.dfy` (module `GF2`): vectors and matrices over GF(2) as integer sequences.
  - `VecMatMod2` is `matmul(v, M) % 2`; `AddMod2` is `(a + b) % 2`.
  - Lemmas: linearity, unit vectors, cancellation, Hamming weight.
- `linear_code.dfy` (module `LinearCodes`):
  - Reference functions: `GenMatrix`, `ParityMatrix`, `Counters` / `Candidate` (the loop's counters and the vector it tries at iteration i), and `TableAfter` (the table after m iterations).
  - Class `LinearCode`: its methods rebuild these values step by step, the way the source does. The contract of each method says it produces exactly the reference value.
  - `RunTableLoop`: the table loop, kept literal. It has both counters, a base vector zeroed on every iteration, and insertion only when the key is absent.
- `ascii_utils.dfy` (module `AsciiUtils`): the letter encoding, `CreateAsciiMappings` and `TransformTextToBinary`.
- `ascii_code.dfy` (module `AsciiCodes`):
  - `CodeWords`: the codeword dictionary.
  - `DecodeWith`: `decode_letter`, with both random fallbacks passed in by the caller.
  - Class `AsciiCode`: its `DecodeLetter` resolves each fallback by a nondeterministic choice (`:|`). It is proved to return `DecodeWith` applied to some pair of admissible picks.

Preconditions that the source relies on without checking are `requires` clauses:

- 0 <= n - k <= k. Otherwise `np.ones` fails (n < k) or `A_matrix[x, x]` indexes past row k - 1.
- k = 8 for `AsciiCode`.
- `DecodeLetter` also needs k < n. For k = n the table is empty, and `random.choice` on an empty list raises.
- `DecodeLetter` requires |receivedLetter| == n. Otherwise numpy's `matmul` raises on the shape mismatch.

What the code does in three cases the model makes precise:

- Every error vector in the table is non-zero (`CodeTableProperties`), so no syndrome, the zero one included, is decoded as "no error".
  - For every (8, n) code the lookups never give an uncorrupted codeword its own letter (`UncorruptedNeedsFallback`). It comes back only when the random letter pick happens to be that letter.
  - For every (8, n) code with n > 8, an uncorrupted codeword decodes to exactly the random letter pick (`UncorruptedIsRandom`). When the zero syndrome is not a key, the error vector comes from the random fallback. When it is a key, its error vector has bit 0 set (`ZeroEntryFirstBit`), while every letter's codeword starts with 0 (`CodeWordFirstBit`). Either way the corrected word is not a codeword.
  - Whether the zero syndrome is a key depends on n:
    - (8, 8): the table is empty (`CodeTableEightEight`).
    - (8, 9): it is a key, holding e_0, because row 0 of H is zero (`ZeroSyndromeKeyEightNine`).
    - (8, 10) to (8, 13): it is not a key (`ZeroSyndromeAbsentEight`). This is the range the bound 2^(n-8) - 1 <= 3n of `ZeroSyndromeAbsent` covers: only unit vectors are tried.
    - (8, 14): it is not a key (`ZeroSyndromeAbsentEightFourteen`). The wrap candidates have 1 to 3 ones, fewer than the 6 a zero syndrome would need.
    - (8, 15): it is a key (`ZeroSyndromeKeyEightFifteen`). The wrap at iteration 120 tries ones on [0, 7), whose syndrome is zero.
- In the (8, 12) code, the letter 'A' with bit 5 of its codeword flipped always decodes to 'M' (`FlippedBitFiveDecodesToM`). Rows 4 and 5 of A are equal, so the table keeps e_4 for the syndrome that e_4 and e_5 share, and e_4 + e_5 is itself a codeword.
- Invalid (k, n) make the construction crash: numpy refuses the shape for n < k, and line 22 of `linear_code.py` indexes out of range for k < n - k. These parameters are excluded by `ParamsOk`.

## Model

| member | source | states |
|---|---|---|
| GF2.VecMatMod2 | ascii_code.py:31 | `matmul(v, M) % 2` gives a 0/1 vector with one entry per column of M. |
| GF2.AddMod2 | ascii_code.py:37 | `(a + b) % 2` gives a 0/1 vector of the operands' length. |
| LinearCodes.GenMatrix | linear_code.py:16-24 | G is a k by n matrix whose entries are all 0 or 1. |
| LinearCodes.ParityMatrix | linear_code.py:29-31 | H is an n by n - k matrix whose entries are all 0 or 1. |
| LinearCodes.Counters | linear_code.py:37-53 | For n > 0, at the start of every iteration the bit counter is in [0, n] and the weight counter is at least -1. |
| LinearCodes.Candidate | linear_code.py:42-49 | Every vector the loop tries has length n and entries 0 or 1. |
| LinearCodes.TableAfter | linear_code.py:41-53 | After m iterations the table has at most m keys. |
| LinearCodes.GeneratorRows | linear_code.py:16-24 | Row r of G is the unit vector e_r on its first k entries, followed by row r of H's top block (A, with A[r][r] = 0 exactly when r < n - k). |
| LinearCodes.ParityBottomIdentity | linear_code.py:31 | The last n - k rows of H are the identity I_{n-k}. |
| LinearCodes.GeneratorColumn | linear_code.py:30 | Column k + c of G equals column c of H's first k rows: H's top block is G's right block. |
| LinearCodes.ParityRowNonZero | linear_code.py:29-31 | When H has at least two columns, every row of H is non-zero. |
| LinearCodes.GeneratorParityOrthogonal | linear_code.py:19-31 | Every row of G has the all-zero syndrome: G H = 0 (mod 2). |
| LinearCodes.EncodeSystematic | linear_code.py:19 | The first k bits of the codeword m G are m itself. |
| LinearCodes.CodewordSyndromeZero | decoding.py:61-89 | Every codeword m G has the all-zero syndrome under H. |
| LinearCodes.CountersBounds | linear_code.py:37-53 | At the start of iteration i, the bit counter is in [0, n] and the weight counter is >= -1. i equals the bit counter plus n times the number of completed rounds. |
| LinearCodes.CandidateClosedForm | linear_code.py:41-53 | The vector tried at iteration i is e_{i mod n}. At a wrap (i a positive multiple of n) it is instead the vector with ones on [0, max(i/n - 1, 1)). |
| LinearCodes.CandidateFirstRound | linear_code.py:42-49 | For i < n the candidate is exactly the unit vector e_i. |
| LinearCodes.CandidateEarlyUnit | decoding.py:113-127 | For i < 3n the candidate is the unit vector e_{i mod n}: the wraps at n and 2n both try ones on [0, 1), which is e_0. |
| LinearCodes.CandidateWeight | linear_code.py:42-49 | A candidate outside a wrap has Hamming weight 1. A wrap candidate is the prefix of ones of length max(i/n - 1, 1), with that weight clamped to n. |
| LinearCodes.TableAfterEntries | linear_code.py:41-52 | The table after m iterations is the dictionary built by inserting the first m (syndrome, candidate) pairs in order, each only if its key is absent. |
| LinearCodes.FirstWinsKeys | linear_code.py:51-52 | A key is in the insert-if-absent dictionary exactly when some entry carries it (both directions). |
| LinearCodes.FirstWinsValue | linear_code.py:51 | The value stored under a key is the value of the earliest entry carrying that key. |
| LinearCodes.FirstWinsStored | linear_code.py:52 | Every stored pair is one of the entries, and there are no more keys than entries. |
| LinearCodes.FirstWinsPrefix | decoding.py:125-126 | Later entries never overwrite a key stored by an earlier prefix. |
| LinearCodes.TableEntries | linear_code.py:36-52 | The table has at most m keys, and at least one once an iteration has run. Each entry s -> e has a key of length n - k and a non-zero 0/1 value of length n, with e H = s. |
| LinearCodes.TableKeys | linear_code.py:50-52 | s is a key exactly when the candidate of some iteration j < m has syndrome s (both directions). |
| LinearCodes.TableFirstWriter | linear_code.py:51 | If iteration j is the first to produce its syndrome, then that syndrome is a key and its value is candidate j. |
| LinearCodes.TableNeverOverwritten | linear_code.py:52 | Every entry present after m iterations is still present, unchanged, after any m' >= m iterations. |
| LinearCodes.TableNonEmpty | decoding.py:113-126 | One iteration already leaves a key in the table. |
| LinearCodes.CodeTable | linear_code.py:34-55 | Every value of the code's table is a vector of length n. |
| LinearCodes.CodeTableProperties | linear_code.py:36 | For the code's own H and 2^(n-k) - 1 iterations, the table has at most 2^(n-k) - 1 keys and at least one when k < n. Every entry s -> e satisfies e H = s, with e a non-zero 0/1 vector of length n. |
| LinearCodes.ZeroSyndromeAbsent | linear_code.py:41-53 | When n - k >= 2 and 2^(n-k) - 1 <= 3n, the all-zero syndrome is not a key: every candidate tried is a unit vector and every row of H is non-zero. |
| LinearCodes.ZeroSyndromeAbsentEight | linear_code.py:36-53 | For k = 8 and n from 10 to 13 (the range `ZeroSyndromeAbsent`'s bound covers), the all-zero syndrome is not a key of the code's table. |
| LinearCodes.RowSum | linear_code.py:48-50 | The mod-2 sum of the first j rows of H is a 0/1 vector with one entry per column. |
| LinearCodes.PrefixRowSum | linear_code.py:46-50 | The syndrome of the vector with ones on [0, j) is the mod-2 sum of the first j rows of H. |
| LinearCodes.ParityRowSum | linear_code.py:21-22 | For j <= k, column c of the sum of H's first j rows is (j - 1) mod 2 when c < j and j mod 2 otherwise: only row c has a 0 there. |
| LinearCodes.ColumnRowSum | linear_code.py:21-22 | The same column count for any matrix whose first j rows are 0 in column c exactly on the diagonal. |
| LinearCodes.RowSumZeroIff | linear_code.py:21-31 | For such a matrix, the sum of its first w >= 1 rows is zero exactly when w is odd and w is at least the number of columns (both directions). |
| LinearCodes.PrefixSyndromeZeroIff | linear_code.py:43-50 | For 1 <= w <= k, the vector with ones on [0, w) has zero syndrome exactly when w is odd and w >= n - k (both directions). |
| LinearCodes.ParityRowNonZeroFromOne | linear_code.py:29-31 | When H has a column, every row of H except row 0 is non-zero. |
| LinearCodes.ZeroEntryFirstBit | linear_code.py:41-53 | If the zero syndrome is a key, its error vector has bit 0 set: it is e_0 or a wrap's prefix of ones. |
| LinearCodes.CodeTableEightEight | linear_code.py:36-41 | The (8, 8) code runs no iteration, so its table is empty. |
| LinearCodes.ZeroSyndromeKeyEightNine | linear_code.py:41-52 | In the (8, 9) code the zero syndrome is a key, and its value is e_0. |
| LinearCodes.ZeroSyndromeKeyEightFifteen | linear_code.py:41-52 | In the (8, 15) code the zero syndrome is a key: the wrap at iteration 120 tries ones on [0, 7). |
| LinearCodes.ZeroSyndromeAbsentEightFourteen | linear_code.py:36-53 | In the (8, 14) code the zero syndrome is not a key. |
| LinearCodes.SyndromeNonZeroEightFourteen | linear_code.py:41-50 | Each of the 63 candidates of the (8, 14) code has a non-zero syndrome. |
| LinearCodes.TableSize | linear_code.py:36 | The loop runs 2^(n-k) - 1 times; the count is 0 exactly when n = k. |
| LinearCodes.SyndromeAt | linear_code.py:48-50 | The syndrome of the candidate at iteration j is a 0/1 vector of length n - k. |
| LinearCodes.FirstWins | linear_code.py:51-52 | Inserting pairs only when the key is absent leaves at most one key per pair. |
| LinearCodes.PasteColumns | linear_code.py:19-24 | `m[:, col:col+w] = block` keeps the shape, puts the block in the slice of every row, and leaves the rest of each row unchanged. |
| LinearCodes.PasteRows | linear_code.py:30-31 | `m[row:row+h, :] = block` keeps the row count, puts the block in those rows, and leaves the other rows unchanged. |
| LinearCodes.RightColumns | linear_code.py:30 | `m[:, from:]` keeps the row count, and each row loses its first `from` entries. |
| LinearCodes.EarlySyndromeIsRow | linear_code.py:48-50 | Before the first wrap, the syndrome of candidate j is row j of H. |
| LinearCodes.Table812RowFour | linear_code.py:21-22 | In the (8, 12) code rows 4 and 5 of H coincide, and the table's value for that row is e_4. |
| LinearCodes.WeightTwoCodeword | linear_code.py:17-24 | In the (8, 12) code, the message with bits 4 and 5 set encodes to e_4 + e_5, a codeword of weight 2. |
| LinearCodes.PastedGenerator | linear_code.py:16-24 | Zero matrix, then identity pasted at column 0, then A pasted at column k, gives G. |
| LinearCodes.PastedParity | linear_code.py:29-31 | Zero matrix, then G's right block pasted on the top rows, then I_{n-k} pasted below, gives H. |
| LinearCodes.RunTableLoop | linear_code.py:37-53 | The counter-driven loop over `size` iterations returns exactly the table after `size` iterations. |
| LinearCodes.LinearCode.constructor | linear_code.py:4-13 | A new code holds k and n with an empty G, H and table, and keeps its invariant. The misspelled `synrome_table` field also starts empty. |
| LinearCodes.LinearCode.GeneratorMatrix | linear_code.py:15-25 | Builds G: the returned matrix and the field both equal I_k followed by A, row by row. |
| LinearCodes.LinearCode.ParityCheckMatrix | linear_code.py:27-32 | Builds H from the memoized G: the returned matrix and the field both equal [A ; I_{n-k}], and G is left in place. |
| LinearCodes.LinearCode.SyndromeDecodingTable | linear_code.py:34-55 | Builds the table from the memoized H: the result and the field equal the 2^(n-k) - 1 iteration table, and G and H are in place. |
| LinearCodes.LinearCode.GetGeneratorMatrix | linear_code.py:57-60 | Returns G, and returns the stored matrix unchanged if one was already built. |
| LinearCodes.LinearCode.GetParityCheckMatrix | linear_code.py:62-65 | Returns H, and returns the stored matrix (with G untouched) if one was already built. |
| LinearCodes.LinearCode.GetSyndromeDecodingTable | linear_code.py:67-70 | Returns the code's table. A stored non-empty table is returned with nothing changed. A rebuild also fills the misspelled `synrome_table` field with the same table, so the typo does not change the result. |
| AsciiUtils.Letters | ascii_utils.py:28 | The alphabet string has 52 characters, each an ASCII letter. |
| AsciiUtils.AsciiBinary | ascii_utils.py:33-34 | A letter's string has at least two characters, all binary digits, and starts with '0'. |
| AsciiUtils.BinDigits | ascii_utils.py:33 | The binary digits of x form a non-empty string of '0'/'1' characters. |
| AsciiUtils.PythonBin | ascii_utils.py:33 | `bin(x)` is "0b" followed by at least one binary digit. |
| AsciiUtils.DigitsToBits | ascii_utils.py:46 | `[int(bit) for bit in s]` has one entry per character, and for a string of binary digits every entry is 0 or 1. |
| AsciiUtils.CharBits | ascii_utils.py:46 | A letter's vector has one 0/1 entry per character of its string and starts with 0. |
| AsciiUtils.LettersAreAsciiLetters | ascii_utils.py:28 | The iterated alphabet lists exactly the 52 ASCII letters, each once, lower case first: position i holds the letter whose index is i. |
| AsciiUtils.BinDigitsValue | ascii_utils.py:33 | The digits of `bin(x)` after '0b' read back as x. |
| AsciiUtils.BinDigitsLength | decoding.py:16 | A number in [2^(w-1), 2^w) has exactly w binary digits. |
| AsciiUtils.AsciiBinaryDigits | ascii_utils.py:33-34 | A letter's string is '0' followed by 7 binary digits (8 characters in all), and its value is the letter's code point. |
| AsciiUtils.AsciiBinaryInjective | ascii_utils.py:34-35 | Different letters get different strings, so `bin_to_ascii` can invert `ascii_to_bin`. |
| AsciiUtils.CharBitsShape | ascii_utils.py:46 | A letter's digit vector has 8 entries, all 0 or 1, starting with 0. Entry i is 1 exactly when digit i of its string is '1'. |
| AsciiUtils.CharBitsInjective | decoding.py:26 | Different letters get different bit vectors. |
| AsciiUtils.LetterABits | decoding.py:16-17 | 'A' maps to "01000001", whose bit vector is 0 1 0 0 0 0 0 1. |
| AsciiUtils.LetterMBits | ascii_utils.py:33-34 | 'M' maps to "01001101", whose bit vector is 0 1 0 0 1 1 0 1. |
| AsciiUtils.MappingsStep | decoding.py:15-18 | Adding the next letter to both dictionaries keeps them mutually inverse. The keys are then exactly the letters up to it, and each dictionary has one more entry. |
| AsciiUtils.CreateAsciiMappings | ascii_utils.py:27-37 | `ascii_to_bin` maps exactly the 52 letters, each to its string, and `bin_to_ascii` is its inverse. Both have 52 entries. |
| AsciiUtils.LettersIn | ascii_utils.py:44-45 | The filtered text is no longer than the text and contains only letters. |
| AsciiUtils.LettersInConcat | ascii_utils.py:44 | Filtering keeps the original order: it distributes over concatenation. |
| AsciiUtils.LettersInAllLetters | decoding.py:24-25 | A text made only of letters is kept whole. |
| AsciiUtils.LettersInNoLetters | ascii_utils.py:43-48 | A text without letters, the empty text among them, yields nothing. |
| AsciiUtils.TransformTextToBinary | ascii_utils.py:39-48 | The output has one vector per letter of the text, in order, and vector i is the bit vector of the i-th letter. |
| AsciiCodes.CodeWord | ascii_code.py:22-23 | A letter's codeword is a 0/1 vector of length n. |
| AsciiCodes.CodeWordsAfter | decoding.py:174-180 | After the first i letters the dictionary has at most i entries. |
| AsciiCodes.CodeWords | ascii_code.py:17-24 | The code's `code_words` has exactly 52 entries: no letter's codeword overwrites another's. |
| AsciiCodes.GenCodeWordsDistinct | ascii_code.py:24 | Under the code's G no two letters share a codeword, so no insertion overwrites a different letter. |
| AsciiCodes.CodeWordInjective | ascii_code.py:19-24 | G starts with I_8, so two letters with the same codeword are the same letter. |
| AsciiCodes.CodeWordsAfterContents | decoding.py:174-180 | If codewords never collide, then after the first i letters every one of them is stored under its own codeword. Every key is the codeword of its letter, and there are i entries. |
| AsciiCodes.StoreNext | ascii_code.py:24 | Storing the next letter under its codeword extends the dictionary by exactly that letter. |
| AsciiCodes.CodeWordsContents | ascii_code.py:17-24 | `code_words` maps each letter's codeword m G to that letter. Every key is the codeword of the letter it maps to, and there are 52 entries. |
| AsciiCodes.CodeWordSyndromeZero | ascii_code.py:31 | The syndrome of every letter's codeword is zero. |
| AsciiCodes.DecodeWith | ascii_code.py:26-42 | Whatever the picks (stored error vector, letter), the result is one of the letters among `code_words`' values. |
| AsciiCodes.DecodeCorrectsStoredError | ascii_code.py:31-40 | Let e be the table's vector for its own syndrome. Then a letter's codeword plus e decodes to that letter, whatever the fallback picks. |
| AsciiCodes.UncorruptedNeedsFallback | ascii_code.py:33-42 | An uncorrupted codeword decodes to its own letter only if the random letter pick is that letter: the error vector used is non-zero. |
| AsciiCodes.UncorruptedIsRandom | decoding.py:189-199 | For every (8, n) code with n > 8, an uncorrupted codeword decodes to exactly the random letter pick, whether or not the zero syndrome is a key. |
| AsciiCodes.CodeWordFirstBit | ascii_code.py:19-23 | Every letter's codeword starts with 0: the first bit of its string is '0' and G begins with I_8. |
| AsciiCodes.FlippedSyndrome | ascii_code.py:31 | In the (8, 12) code, 'A' with bit 5 flipped has syndrome row 4 of H. |
| AsciiCodes.FlippedCorrection | ascii_code.py:37 | In the (8, 12) code, adding e_4 to 'A' with bit 5 flipped gives the codeword of 'M'. |
| AsciiCodes.FlippedBitFiveDecodesToM | decoding.py:187-196 | In the (8, 12) code, 'A' with bit 5 flipped decodes to 'M' for every admissible pair of fallback picks. |
| AsciiCodes.BuildParts | ascii_code.py:9-24 | The constructor's steps yield the (8, n) code's G, H and table, two mutually inverse letter dictionaries, and `code_words`. |
| AsciiCodes.AsciiCode.constructor | ascii_code.py:7-24 | Holds G, H and the table of the (8, n) code, the two letter dictionaries, and `code_words`. |
| AsciiCodes.AsciiCode.DecodeLetter | ascii_code.py:26-42 | Returns a letter among `code_words`' values. The result equals `DecodeWith` for some stored error vector and some letter as the two fallback picks. |
| AsciiCodes.AsciiCode.GetGeneratorMat | ascii_code.py:44-45 | Returns the code's G. |
| AsciiCodes.AsciiCode.GetCodeWords | ascii_code.py:47-48 | Returns the codeword dictionary of the (8, n) code. |
| AsciiCodes.DecodeReceived | decoding.py:182-199 | Returns a letter among `code_words`' values, equal to `DecodeWith` for some admissible pair of picks. The syndrome width is H's column count. |
| AsciiCodes.FillCodeWords | ascii_code.py:19-24 | The loop over `ascii_to_bin` in insertion order produces exactly the codeword dictionary of the first 52 letters. |

## Left out

- `decoding_simulation.py` is not part of this model. It holds random bit flipping, wall-clock timing, floating-point statistics, plotting and a script entry point.
- `text_generator.py`, `load_words_dictionary` and `randomized_text_generator` are not part of this model. They do file I/O on `words.csv` and pick random words.
- The probability distribution of the two `random.choice` fallbacks. Each is modelled only as "some element of the non-empty value list": a caller-supplied pick in `DecodeWith`, a `:|` choice in `DecodeLetter`.
- numpy specifics: dtypes, views versus copies, and tuple keys. Vectors are `seq<int>` and matrices `seq<seq<int>>`. `base_vector[0, :]` is a view, but the base vector is re-created every iteration, so only the values produced are modelled. The width of `matmul` is passed explicitly from H's shape.
- `int.from_bytes(char.encode(), 'little')` is modelled as the code point, which is what it gives for a one-byte ASCII letter.
- Dictionary iteration order is modelled as insertion order, i.e. the order of the alphabet string.
- The constructor of `LinearCode` sets the three fields to empty values (`[]`, `[]`, `[]` in the source, where the table later becomes a dict). The misspelled `synrome_table` attribute is a field that the constructor initialises empty; in Python it does not exist until the first rebuild.
- The table loop is a module-level method (`RunTableLoop`) that `SyndromeDecodingTable` calls. `GeneratorMatrix` and `ParityCheckMatrix` build their matrix in a local variable and store it in the field once complete. The intermediate field states are no longer visible once the method returns. The `code_words` loop is `FillCodeWords`, and the body of `decode_letter` is `DecodeReceived`. The class methods call them with their own fields.
- AsciiCodes.AsciiCode.constructor: the letter dictionaries are built by calling `CreateAsciiMappings`. `decoding.py` builds them inline, with the same result.
- AsciiCodes.AsciiCode.DecodeLetter: requires k < n. With k = n the table is empty and `random.choice` raises, so no letter comes back.
