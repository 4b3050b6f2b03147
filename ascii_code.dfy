/** ascii_code.py's AsciiCode (and its copy in decoding.py): the (k, n)
    code of LinearCode applied to the 8-bit vectors of the 52 letters.
    `code_words` maps each letter's codeword m G to the letter, and
    `decode_letter` corrects a received word with the syndrome table and
    looks the result up, falling back to an arbitrary table value or an
    arbitrary letter when a lookup misses. */
module AsciiCodes {
  import opened GF2
  import opened LinearCodes
  import opened AsciiUtils

  /** `matmul(binary_vector, G) % 2` for the letter c. */
  function CodeWord(g: seq<seq<int>>, n: nat, c: char): (w: seq<int>)
    requires IsLetter(c) && IsMatrix(g, 8, n)
    ensures |w| == n && IsBits(w)
  {
    CharBitsShape(c);
    VecMatMod2(CharBits(c), g, n)
  }

  /** `code_words` after the first i letters of `ascii_to_bin`, whose
      iteration order is the order the letters were inserted in. A later
      letter with the same codeword would overwrite an earlier one. */
  function CodeWordsAfter(g: seq<seq<int>>, n: nat, i: nat): (m: map<seq<int>, char>)
    requires i <= |Letters()| && IsMatrix(g, 8, n)
    ensures |m| <= i
  {
    if i == 0 then map[]
    else
      LettersAreAsciiLetters();
      var c := Letters()[i - 1];
      CodeWordsAfter(g, n, i - 1)[CodeWord(g, n, c) := c]
  }

  /** The `code_words` dictionary of the (8, n) code: no letter
      overwrites another, so it has one entry per letter. */
  function CodeWords(n: int): (m: map<seq<int>, char>)
    requires ParamsOk(8, n)
    ensures |m| == 52
  {
    GenCodeWordsDistinct(n);
    CodeWordsAfterContents(GenMatrix(8, n), n, |Letters()|);
    CodeWordsAfter(GenMatrix(8, n), n, |Letters()|)
  }

  /** G starts with I_8, so a codeword starts with its letter's bits and
      different letters have different codewords. */
  lemma CodeWordInjective(n: int, c: char, d: char)
    requires ParamsOk(8, n) && IsLetter(c) && IsLetter(d)
    requires CodeWord(GenMatrix(8, n), n, c) == CodeWord(GenMatrix(8, n), n, d)
    ensures c == d
  {
    CharBitsShape(c);
    CharBitsShape(d);
    EncodeSystematic(8, n, CharBits(c));
    EncodeSystematic(8, n, CharBits(d));
    CharBitsInjective(c, d);
  }

  /** No two letters share a codeword under g. */
  ghost predicate CodeWordsDistinct(g: seq<seq<int>>, n: nat)
    requires IsMatrix(g, 8, n)
  {
    forall c, d :: IsLetter(c) && IsLetter(d) && CodeWord(g, n, c) == CodeWord(g, n, d) ==> c == d
  }

  /** m holds exactly the letters of index below i, each under its own
      codeword. */
  ghost predicate StoresLetters(m: map<seq<int>, char>, g: seq<seq<int>>, n: nat, i: nat)
    requires IsMatrix(g, 8, n)
  {
    && (forall c :: IsLetter(c) && LetterIndex(c) < i ==> CodeWord(g, n, c) in m && m[CodeWord(g, n, c)] == c)
    && (forall w :: w in m ==> IsLetter(m[w]) && LetterIndex(m[w]) < i && CodeWord(g, n, m[w]) == w)
    && |m| == i
  }

  /** With codewords that never collide, the first i letters are each
      stored under their own codeword, every key is the codeword of the
      letter it maps to, and there are i entries. */
  lemma {:induction false} CodeWordsAfterContents(g: seq<seq<int>>, n: nat, i: nat)
    requires i <= |Letters()| && IsMatrix(g, 8, n) && CodeWordsDistinct(g, n)
    ensures StoresLetters(CodeWordsAfter(g, n, i), g, n, i)
  {
    if i > 0 {
      CodeWordsAfterContents(g, n, i - 1);
      LettersAreAsciiLetters();
      var before, letter := CodeWordsAfter(g, n, i - 1), Letters()[i - 1];
      var w := CodeWord(g, n, letter);
      StoreNext(before, g, n, i - 1, letter);
      assert CodeWordsAfter(g, n, i) == before[w := letter];
    }
  }

  /** Storing the letter of index i under its codeword extends a map that
      stores the letters below i to one that stores the letters below i+1. */
  lemma StoreNext(m: map<seq<int>, char>, g: seq<seq<int>>, n: nat, i: nat, letter: char)
    requires IsMatrix(g, 8, n) && CodeWordsDistinct(g, n) && StoresLetters(m, g, n, i)
    requires IsLetter(letter) && LetterIndex(letter) == i
    ensures StoresLetters(m[CodeWord(g, n, letter) := letter], g, n, i + 1)
  {
    var w := CodeWord(g, n, letter);
    assert w !in m;
    var m' := m[w := letter];
    assert |m'| == i + 1;
    forall v | v in m'
      ensures IsLetter(m'[v]) && LetterIndex(m'[v]) < i + 1 && CodeWord(g, n, m'[v]) == v
    {
      if v != w {
        assert m'[v] == m[v];
      }
    }
    forall c | IsLetter(c) && LetterIndex(c) < i + 1
      ensures CodeWord(g, n, c) in m' && m'[CodeWord(g, n, c)] == c
    {
      if LetterIndex(c) == i {
        LetterIndexInjective(c, letter);
      } else {
        assert CodeWord(g, n, c) in m;
      }
    }
  }

  /** The letters' codewords under the code's G are pairwise distinct. */
  lemma GenCodeWordsDistinct(n: int)
    requires ParamsOk(8, n)
    ensures CodeWordsDistinct(GenMatrix(8, n), n)
  {
    forall c, d | IsLetter(c) && IsLetter(d) && CodeWord(GenMatrix(8, n), n, c) == CodeWord(GenMatrix(8, n), n, d)
      ensures c == d
    {
      CodeWordInjective(n, c, d);
    }
  }

  /** `code_words` of the (8, n) code holds exactly one entry per letter,
      keyed by the letter's codeword: 52 entries. */
  lemma CodeWordsContents(n: int)
    requires ParamsOk(8, n)
    ensures forall c :: IsLetter(c) ==>
              CodeWord(GenMatrix(8, n), n, c) in CodeWords(n) && CodeWords(n)[CodeWord(GenMatrix(8, n), n, c)] == c
    ensures forall w :: w in CodeWords(n) ==>
              IsLetter(CodeWords(n)[w]) && CodeWord(GenMatrix(8, n), n, CodeWords(n)[w]) == w
    ensures |CodeWords(n)| == 52
  {
    var g := GenMatrix(8, n);
    GenCodeWordsDistinct(n);
    CodeWordsAfterContents(g, n, |Letters()|);
    LettersAreAsciiLetters();
  }

  /** Every codeword has syndrome zero. */
  lemma CodeWordSyndromeZero(n: int, c: char)
    requires ParamsOk(8, n) && IsLetter(c)
    ensures VecMatMod2(CodeWord(GenMatrix(8, n), n, c), ParityMatrix(8, n), n - 8) == Zeros(n - 8)
  {
    CharBitsShape(c);
    CodewordSyndromeZero(8, n, CharBits(c));
  }

  // ---------------------------------------------------------------------
  // decode_letter

  /** H fits a received word and every stored error vector has the
      word's length. */
  predicate DecodeArgs(h: seq<seq<int>>, cols: nat, table: map<seq<int>, seq<int>>, received: seq<int>) {
    IsMatrix(h, |received|, cols) && forall s :: s in table ==> |table[s]| == |received|
  }

  /** `decode_letter` with its two random fallbacks supplied by the caller:
      errorPick stands for `random.choice(list(syndrome_table.values()))`
      and letterPick for `random.choice(list(code_words.values()))`. */
  function DecodeWith(h: seq<seq<int>>, cols: nat, table: map<seq<int>, seq<int>>,
                      codeWords: map<seq<int>, char>, received: seq<int>,
                      errorPick: seq<int>, letterPick: char): (letter: char)
    requires DecodeArgs(h, cols, table, received)
    requires errorPick in table.Values && letterPick in codeWords.Values
    ensures letter in codeWords.Values
  {
    var syndrome := VecMatMod2(received, h, cols);
    var errorVector := if syndrome in table then table[syndrome] else errorPick;
    var letterVector := AddMod2(errorVector, received);
    if letterVector in codeWords then codeWords[letterVector] else letterPick
  }

  /** Syndrome decoding corrects every error pattern the table stores:
      when e is the table's vector for its own syndrome, the codeword of c
      with e added decodes to c, whatever the fallbacks would pick. */
  lemma DecodeCorrectsStoredError(n: int, c: char, e: seq<int>, errorPick: seq<int>, letterPick: char)
    requires ParamsOk(8, n) && IsLetter(c) && |e| == n && IsBits(e)
    requires VecMatMod2(e, ParityMatrix(8, n), n - 8) in CodeTable(8, n)
    requires CodeTable(8, n)[VecMatMod2(e, ParityMatrix(8, n), n - 8)] == e
    requires errorPick in CodeTable(8, n).Values && letterPick in CodeWords(n).Values
    ensures DecodeWith(ParityMatrix(8, n), n - 8, CodeTable(8, n), CodeWords(n),
                       AddMod2(CodeWord(GenMatrix(8, n), n, c), e), errorPick, letterPick) == c
  {
    var h, cols := ParityMatrix(8, n), n - 8;
    var w := CodeWord(GenMatrix(8, n), n, c);
    var received := AddMod2(w, e);
    VecMatLinear(w, e, h, cols);
    CodeWordSyndromeZero(n, c);
    AddMod2ZeroLeft(VecMatMod2(e, h, cols));
    assert VecMatMod2(received, h, cols) == VecMatMod2(e, h, cols);
    AddMod2Cancel(e, w);
    CodeWordsContents(n);
  }

  /** An uncorrupted codeword is never decoded to its letter by the
      lookups: with e the error vector used (the table's vector for the
      zero syndrome, or the random pick), e is non-zero, so e + c G is not
      c G. The letter comes back only if the random letter fallback picks
      it. */
  lemma UncorruptedNeedsFallback(n: int, c: char, errorPick: seq<int>, letterPick: char)
    requires ParamsOk(8, n) && IsLetter(c)
    requires errorPick in CodeTable(8, n).Values && letterPick in CodeWords(n).Values
    ensures DecodeWith(ParityMatrix(8, n), n - 8, CodeTable(8, n), CodeWords(n),
                       CodeWord(GenMatrix(8, n), n, c), errorPick, letterPick) == c
            ==> letterPick == c
  {
    CodeTableProperties(8, n);
    CodeWordsContents(n);
    var h, cols, table := ParityMatrix(8, n), n - 8, CodeTable(8, n);
    var w := CodeWord(GenMatrix(8, n), n, c);
    var syndrome := VecMatMod2(w, h, cols);
    var e := if syndrome in table then table[syndrome] else errorPick;
    assert IsBits(e) && e != Zeros(n) by {
      if syndrome !in table {
        var s :| s in table && table[s] == errorPick;
      }
    }
    if AddMod2(e, w) in CodeWords(n) && CodeWords(n)[AddMod2(e, w)] == c {
      assert AddMod2(e, w) == w;
      AddMod2Identity(e, w);
      assert false;
    }
  }

  /** Every codeword starts with bit 0 = 0: G is systematic and a
      letter's bits start with 0. */
  lemma CodeWordFirstBit(n: int, c: char)
    requires ParamsOk(8, n) && IsLetter(c)
    ensures CodeWord(GenMatrix(8, n), n, c)[0] == 0
  {
    CharBitsShape(c);
    EncodeSystematic(8, n, CharBits(c));
    assert CodeWord(GenMatrix(8, n), n, c)[..8][0] == CharBits(c)[0];
  }

  /** For every (8, n) code an uncorrupted codeword always ends in the
      random letter fallback: the result is exactly the letter picked.
      If the zero syndrome is a key, its error vector has bit 0 set and
      the corrected word has bit 0 set, which no codeword has; otherwise
      the picked error vector has a non-zero syndrome, which no codeword
      plus it can lose. */
  lemma UncorruptedIsRandom(n: int, c: char, errorPick: seq<int>, letterPick: char)
    requires ParamsOk(8, n) && IsLetter(c)
    requires errorPick in CodeTable(8, n).Values && letterPick in CodeWords(n).Values
    ensures DecodeWith(ParityMatrix(8, n), n - 8, CodeTable(8, n), CodeWords(n),
                       CodeWord(GenMatrix(8, n), n, c), errorPick, letterPick) == letterPick
  {
    CodeTableProperties(8, n);
    CodeWordsContents(n);
    var h, cols, table := ParityMatrix(8, n), n - 8, CodeTable(8, n);
    var w := CodeWord(GenMatrix(8, n), n, c);
    CodeWordSyndromeZero(n, c);
    if Zeros(cols) in table {
      var e := table[Zeros(cols)];
      ZeroEntryFirstBit(8, n);
      CodeWordFirstBit(n, c);
      var v := AddMod2(e, w);
      assert v[0] == 1;
      if v in CodeWords(n) {
        CodeWordFirstBit(n, CodeWords(n)[v]);
        assert false;
      }
    } else {
      var s :| s in table && table[s] == errorPick;
      var v := AddMod2(errorPick, w);
      if v in CodeWords(n) {
        var d := CodeWords(n)[v];
        CodeWordSyndromeZero(n, d);
        VecMatLinear(errorPick, w, h, cols);
        AddMod2Comm(VecMatMod2(errorPick, h, cols), Zeros(cols));
        AddMod2ZeroLeft(VecMatMod2(errorPick, h, cols));
        assert false;
      }
    }
  }

  /** 'A' with bit 5 flipped has the syndrome of e_5, which is row 4 of H. */
  lemma FlippedSyndrome()
    ensures VecMatMod2(AddMod2(CodeWord(GenMatrix(8, 12), 12, 'A'), Unit(12, 5)), ParityMatrix(8, 12), 4)
         == ParityMatrix(8, 12)[4]
  {
    var h := ParityMatrix(8, 12);
    var w := CodeWord(GenMatrix(8, 12), 12, 'A');
    VecMatLinear(w, Unit(12, 5), h, 4);
    CodeWordSyndromeZero(12, 'A');
    VecMatUnit(12, 5, h, 4);
    AddMod2ZeroLeft(h[5]);
    assert h[4] == h[5];
  }

  /** Adding e_4 to 'A' with bit 5 flipped gives the codeword of 'M'. */
  lemma FlippedCorrection()
    ensures AddMod2(Unit(12, 4), AddMod2(CodeWord(GenMatrix(8, 12), 12, 'A'), Unit(12, 5)))
         == CodeWord(GenMatrix(8, 12), 12, 'M')
  {
    var g := GenMatrix(8, 12);
    var w := CodeWord(g, 12, 'A');
    var e4, e5 := Unit(12, 4), Unit(12, 5);
    var d := AddMod2(Unit(8, 4), Unit(8, 5));
    LetterABits();
    LetterMBits();
    assert CharBits('M') == AddMod2(CharBits('A'), d);
    VecMatLinear(CharBits('A'), d, g, 12);
    WeightTwoCodeword();
    AddMod2Assoc(e4, w, e5);
    AddMod2Comm(e4, w);
    AddMod2Assoc(w, e4, e5);
  }

  /** In the (8, 12) code, 'A' with bit 5 flipped decodes to 'M', not
      'A': the table keeps e_4 for the shared syndrome of e_4 and e_5, and
      e_4 + e_5 is itself a codeword (the one of the message with bits 4
      and 5 set), so the correction lands on the codeword of 'M'. */
  lemma FlippedBitFiveDecodesToM()
    ensures forall errorPick, letterPick ::
              errorPick in CodeTable(8, 12).Values && letterPick in CodeWords(12).Values ==>
              DecodeWith(ParityMatrix(8, 12), 4, CodeTable(8, 12), CodeWords(12),
                         AddMod2(CodeWord(GenMatrix(8, 12), 12, 'A'), Unit(12, 5)), errorPick, letterPick) == 'M'
  {
    FlippedSyndrome();
    Table812RowFour();
    FlippedCorrection();
    CodeWordsContents(12);
  }

  /** What `decode_letter` needs of the (8, n) code when n > 8: a
      non-empty table, a non-empty codeword dictionary and an H with n - 8
      columns. */
  lemma DecodeInputs(n: int)
    requires ParamsOk(8, n) && 8 < n
    ensures |CodeTable(8, n)| > 0 && |CodeWords(n)| == 52
    ensures |ParityMatrix(8, n)| == n && |ParityMatrix(8, n)[0]| == n - 8
  {
    CodeTableProperties(8, n);
    CodeWordsContents(n);
  }

  /** The constructor's steps: a LinearCode, its G, H and table through
      the memoizing getters, the letter mappings, then the codeword
      dictionary. */
  method BuildParts(k: int, n: int)
    returns (g: seq<seq<int>>, p: seq<seq<int>>, t: map<seq<int>, seq<int>>,
             a: map<char, string>, b: map<string, char>, cw: map<seq<int>, char>)
    requires k == 8 && ParamsOk(k, n)
    ensures g == GenMatrix(k, n) && p == ParityMatrix(k, n) && t == CodeTable(k, n)
    ensures AsciiMappings(a, b) && cw == CodeWords(n)
  {
    var linearCode := new LinearCode(k, n);
    g := linearCode.GetGeneratorMatrix();
    p := linearCode.GetParityCheckMatrix();
    t := linearCode.GetSyndromeDecodingTable();
    a, b := CreateAsciiMappings();
    LettersAreAsciiLetters();
    cw := FillCodeWords(a, g, n);
  }

  // ---------------------------------------------------------------------
  // The class

  /** The code's matrices and table, the letter mappings and the codeword
      dictionary, all fixed by the constructor. */
  class AsciiCode {
    ghost const k: int
    ghost const n: int
    var generatorMatrix: seq<seq<int>>
    var parityCheck: seq<seq<int>>
    var syndromeTable: map<seq<int>, seq<int>>
    var asciiToBin: map<char, string>
    var binToAscii: map<string, char>
    var codeWords: map<seq<int>, char>

    ghost predicate Valid()
      reads this
    {
      && k == 8 && ParamsOk(k, n)
      && generatorMatrix == GenMatrix(k, n)
      && parityCheck == ParityMatrix(k, n)
      && syndromeTable == CodeTable(k, n)
      && AsciiMappings(asciiToBin, binToAscii)
      && codeWords == CodeWords(n)
    }

    /** Builds a LinearCode, takes its G, H and table through the
        memoizing getters, builds the letter mappings and then the
        codeword dictionary. */
    constructor (k: int, n: int)
      requires k == 8 && ParamsOk(k, n)
      ensures this.k == k && this.n == n
      ensures Valid()
    {
      var g, p, t, a, b, cw := BuildParts(k, n);
      this.k, this.n := k, n;
      generatorMatrix, parityCheck, syndromeTable := g, p, t;
      asciiToBin, binToAscii := a, b;
      codeWords := cw;
    }

    /** Syndrome, error vector (looked up, or any stored one), corrected
        word, letter (looked up, or any letter). The result is a letter of
        `code_words`, and it is what `DecodeWith` gives for some choice of
        the two fallbacks. */
    method DecodeLetter(receivedLetter: seq<int>) returns (letter: char)
      requires Valid() && |receivedLetter| == n && k < n
      ensures letter in codeWords.Values
      ensures exists errorPick, letterPick ::
                errorPick in syndromeTable.Values && letterPick in codeWords.Values
                && letter == DecodeWith(parityCheck, n - k, syndromeTable, codeWords,
                                        receivedLetter, errorPick, letterPick)
    {
      DecodeInputs(n);
      letter := DecodeReceived(parityCheck, syndromeTable, codeWords, receivedLetter);
    }

    /** `get_generator_mat`. */
    method GetGeneratorMat() returns (g: seq<seq<int>>)
      requires Valid()
      ensures g == GenMatrix(8, n)
    {
      g := generatorMatrix;
    }

    /** `get_code_words`. */
    method GetCodeWords() returns (words: map<seq<int>, char>)
      requires Valid()
      ensures words == CodeWords(n)
    {
      words := codeWords;
    }
  }

  /** The body of `decode_letter` over the code's H, table and codeword
      dictionary: the syndrome's width is H's number of columns, as in
      numpy; a missing syndrome takes any stored error vector and a
      corrected word that is not a codeword takes any letter. */
  method DecodeReceived(h: seq<seq<int>>, table: map<seq<int>, seq<int>>,
                        codeWords: map<seq<int>, char>, received: seq<int>) returns (letter: char)
    requires |received| == |h| > 0 && DecodeArgs(h, |h[0]|, table, received)
    requires |table| > 0 && |codeWords| > 0
    ensures letter in codeWords.Values
    ensures exists errorPick, letterPick ::
              errorPick in table.Values && letterPick in codeWords.Values
              && letter == DecodeWith(h, |h[0]|, table, codeWords, received, errorPick, letterPick)
  {
    var syndrome := VecMatMod2(received, h, |h[0]|);
    var errorVector: seq<int>;
    if syndrome in table {
      errorVector := table[syndrome];
    } else {
      var s :| s in table;
      assert table[s] in table.Values;
      errorVector :| errorVector in table.Values;
    }
    var letterVector := AddMod2(errorVector, received);
    if letterVector in codeWords {
      letter := codeWords[letterVector];
    } else {
      var w :| w in codeWords;
      assert codeWords[w] in codeWords.Values;
      letter :| letter in codeWords.Values;
    }
    assert letter == DecodeWith(h, |h[0]|, table, codeWords, received, errorVector, letter);
  }

  /** The `code_words` loop of the constructor: for every letter of
      `ascii_to_bin`, in insertion order, its string's digits times G mod 2
      becomes a key mapped to the letter. */
  method FillCodeWords(asciiToBin: map<char, string>, g: seq<seq<int>>, n: nat) returns (codeWords: map<seq<int>, char>)
    requires IsMatrix(g, 8, n)
    requires forall c :: c in asciiToBin <==> IsLetter(c)
    requires forall c :: c in asciiToBin ==> asciiToBin[c] == AsciiBinary(c)
    ensures codeWords == CodeWordsAfter(g, n, |Letters()|)
  {
    LettersAreAsciiLetters();
    codeWords := map[];
    for i := 0 to |Letters()|
      invariant codeWords == CodeWordsAfter(g, n, i)
    {
      var word := Letters()[i];
      var binaryStr := asciiToBin[word];
      var binaryVector := DigitsToBits(binaryStr);
      CharBitsShape(word);
      var codeWordVector := VecMatMod2(binaryVector, g, n);
      codeWords := codeWords[codeWordVector := word];
    }
  }
}
