/** The letter-to-bits encoder of ascii_utils.py (and of the module level
    of decoding.py): every ASCII letter is mapped to the string '0' followed
    by the binary digits of its code point, the inverse dictionary is built
    beside it, and a text is filtered into a list of 0/1 vectors, one per
    letter. */
module AsciiUtils {
  import opened GF2

  /** `string.ascii_lowercase + string.ascii_uppercase`, in that order. */
  function Letters(): (l: string)
    ensures |l| == 52
    ensures forall i :: 0 <= i < |l| ==> IsLetter(l[i])
  {
    seq(26, i requires 0 <= i < 26 => ('a' as int + i) as char)
    + seq(26, i requires 0 <= i < 26 => ('A' as int + i) as char)
  }

  predicate IsLetter(c: char) {
    'a' <= c <= 'z' || 'A' <= c <= 'Z'
  }

  /** The position of a letter in `Letters()`. */
  function LetterIndex(c: char): int {
    if 'a' <= c <= 'z' then c as int - 'a' as int else 26 + c as int - 'A' as int
  }

  /** No two letters share an index. */
  lemma LetterIndexInjective(c: char, d: char)
    requires IsLetter(c) && IsLetter(d) && LetterIndex(c) == LetterIndex(d)
    ensures c == d
  {
    assert c as int == d as int;
  }

  /** The 52 letters are exactly the ASCII letters, each listed once, the
      letter at position i being the one whose index is i. */
  lemma LettersAreAsciiLetters()
    ensures |Letters()| == 52
    ensures forall c :: c in Letters() <==> IsLetter(c)
    ensures forall i :: 0 <= i < |Letters()| ==> IsLetter(Letters()[i]) && LetterIndex(Letters()[i]) == i
    ensures forall c :: IsLetter(c) ==> 0 <= LetterIndex(c) < |Letters()| && Letters()[LetterIndex(c)] == c
  {
    forall i | 0 <= i < |Letters()|
      ensures Letters()[i] as int == if i < 26 then 'a' as int + i else 'A' as int + i - 26
    {
    }
    forall c | IsLetter(c)
      ensures c in Letters()
    {
      assert Letters()[LetterIndex(c)] == c;
    }
  }

  // ---------------------------------------------------------------------
  // Binary digit strings

  function DigitChar(b: int): char {
    if b == 1 then '1' else '0'
  }

  predicate IsDigitString(s: string) {
    forall i :: 0 <= i < |s| ==> s[i] == '0' || s[i] == '1'
  }

  /** The digits of `bin(x)` after its '0b' prefix: "0" for 0, otherwise
      the binary representation without leading zeros. */
  function BinDigits(x: nat): (s: string)
    ensures |s| >= 1 && IsDigitString(s)
  {
    if x < 2 then [DigitChar(x)] else BinDigits(x / 2) + [DigitChar(x % 2)]
  }

  /** Python's `bin(x)` for a non-negative x. */
  function PythonBin(x: nat): (s: string)
    ensures |s| >= 3 && s[..2] == "0b" && IsDigitString(s[2..])
  {
    "0b" + BinDigits(x)
  }

  /** The number a string of binary digits denotes, most significant first. */
  function DigitsValue(s: string): nat {
    if |s| == 0 then 0
    else 2 * DigitsValue(s[..|s| - 1]) + (if s[|s| - 1] == '1' then 1 else 0)
  }

  lemma {:induction false} BinDigitsValue(x: nat)
    ensures DigitsValue(BinDigits(x)) == x
  {
    if x >= 2 {
      var s := BinDigits(x);
      assert s[..|s| - 1] == BinDigits(x / 2);
      BinDigitsValue(x / 2);
    }
  }

  /** A number in [2^(w-1), 2^w) has w binary digits. */
  lemma {:induction false} BinDigitsLength(x: nat, w: nat)
    requires w >= 1 && Pow2(w - 1) <= x < Pow2(w)
    ensures |BinDigits(x)| == w
  {
    if x >= 2 {
      assert w != 1 by {
        assert Pow2(1) == 2;
      }
      BinDigitsLength(x / 2, w - 1);
    }
  }

  /** A leading zero does not change the value. */
  lemma {:induction false} LeadingZeroValue(s: string)
    ensures DigitsValue("0" + s) == DigitsValue(s)
  {
    if |s| > 0 {
      var t := "0" + s;
      assert t[..|t| - 1] == "0" + s[..|s| - 1];
      LeadingZeroValue(s[..|s| - 1]);
    }
  }

  // ---------------------------------------------------------------------
  // The per-letter encoding

  /** `ascii_to_bin[c]`: the first character of `bin(ord(c))` followed by
      its digits after the '0b' prefix. For a letter, `int.from_bytes` of
      its one-byte encoding is its code point. */
  function AsciiBinary(c: char): (s: string)
    requires IsLetter(c)
    ensures |s| >= 2 && s[0] == '0' && IsDigitString(s)
  {
    var encoded := PythonBin(c as int);
    [encoded[0]] + encoded[2..]
  }

  /** A letter's string is '0' and then 7 digits: 8 binary digits in all,
      whose value is the letter's code point. */
  lemma AsciiBinaryDigits(c: char)
    requires IsLetter(c)
    ensures var s := AsciiBinary(c);
            |s| == 8 && s[0] == '0' && IsDigitString(s) && DigitsValue(s) == c as int
  {
    var x := c as int;
    assert Pow2(6) == 64 && Pow2(7) == 128;
    BinDigitsLength(x, 7);
    BinDigitsValue(x);
    LeadingZeroValue(BinDigits(x));
    assert AsciiBinary(c) == "0" + BinDigits(x);
  }

  /** Different letters get different strings. */
  lemma AsciiBinaryInjective(c: char, d: char)
    requires IsLetter(c) && IsLetter(d) && AsciiBinary(c) == AsciiBinary(d)
    ensures c == d
  {
    AsciiBinaryDigits(c);
    AsciiBinaryDigits(d);
  }

  /** `[int(bit) for bit in s]`. */
  function DigitsToBits(s: string): (v: seq<int>)
    ensures |v| == |s|
    ensures IsDigitString(s) ==> IsBits(v)
  {
    seq(|s|, i requires 0 <= i < |s| => s[i] as int - '0' as int)
  }

  /** The 8-bit vector of a letter: the digits of `ascii_to_bin[c]`. */
  function CharBits(c: char): (v: seq<int>)
    requires IsLetter(c)
    ensures |v| == |AsciiBinary(c)| && IsBits(v) && v[0] == 0
  {
    DigitsToBits(AsciiBinary(c))
  }

  /** A letter's vector is 8 bits long, 0/1 valued, starts with 0, and
      reads as the letter's code point in binary. */
  lemma CharBitsShape(c: char)
    requires IsLetter(c)
    ensures var v := CharBits(c);
            |v| == 8 && IsBits(v) && v[0] == 0
            && forall i :: 0 <= i < 8 ==> v[i] == if AsciiBinary(c)[i] == '1' then 1 else 0
  {
    AsciiBinaryDigits(c);
  }

  /** The binary digits of the code points behind 'A' (65) and 'M' (77). */
  lemma BinDigitsEight()
    ensures BinDigits(8) == "1000"
  {
    assert BinDigits(2) == "10";
    assert BinDigits(4) == "100";
  }

  lemma BinDigitsNine()
    ensures BinDigits(9) == "1001"
  {
    assert BinDigits(2) == "10";
    assert BinDigits(4) == "100";
  }

  lemma BinDigitsSixtyFive()
    ensures BinDigits(65) == "1000001"
  {
    BinDigitsEight();
    assert BinDigits(16) == "10000";
    assert BinDigits(32) == "100000";
  }

  lemma BinDigitsSeventySeven()
    ensures BinDigits(77) == "1001101"
  {
    BinDigitsNine();
    assert BinDigits(19) == "10011";
    assert BinDigits(38) == "100110";
  }

  /** 'A' is 65 = 1000001 in binary. */
  lemma LetterABits()
    ensures AsciiBinary('A') == "01000001"
    ensures CharBits('A') == [0, 1, 0, 0, 0, 0, 0, 1]
  {
    BinDigitsSixtyFive();
    assert AsciiBinary('A') == "01000001";
    CharBitsShape('A');
  }

  /** 'M' is 77 = 1001101 in binary. */
  lemma LetterMBits()
    ensures AsciiBinary('M') == "01001101"
    ensures CharBits('M') == [0, 1, 0, 0, 1, 1, 0, 1]
  {
    BinDigitsSeventySeven();
    assert AsciiBinary('M') == "01001101";
    CharBitsShape('M');
  }

  /** Different letters get different bit vectors. */
  lemma CharBitsInjective(c: char, d: char)
    requires IsLetter(c) && IsLetter(d) && CharBits(c) == CharBits(d)
    ensures c == d
  {
    var s, t := AsciiBinary(c), AsciiBinary(d);
    AsciiBinaryDigits(c);
    AsciiBinaryDigits(d);
    forall i | 0 <= i < |s|
      ensures s[i] == t[i]
    {
      assert CharBits(c)[i] == CharBits(d)[i];
    }
    assert s == t;
    AsciiBinaryInjective(c, d);
  }

  // ---------------------------------------------------------------------
  // create_ascii_mappings

  /** The two dictionaries after the first i letters: `ascii_to_bin` maps
      exactly those letters to their strings and `bin_to_ascii` is its
      inverse, each of size i. */
  ghost predicate MappingsAfter(asciiToBin: map<char, string>, binToAscii: map<string, char>, i: int)
  {
    && (forall c :: c in asciiToBin <==> IsLetter(c) && LetterIndex(c) < i)
    && (forall c :: c in asciiToBin ==> IsLetter(c) && asciiToBin[c] == AsciiBinary(c))
    && (forall c :: c in asciiToBin ==> asciiToBin[c] in binToAscii && binToAscii[asciiToBin[c]] == c)
    && (forall b :: b in binToAscii ==> binToAscii[b] in asciiToBin && asciiToBin[binToAscii[b]] == b)
    && |asciiToBin| == i && |binToAscii| == i
  }

  /** Adding letter i to both dictionaries keeps them inverse. */
  lemma MappingsStep(asciiToBin: map<char, string>, binToAscii: map<string, char>, i: int)
    requires 0 <= i < |Letters()| && MappingsAfter(asciiToBin, binToAscii, i)
    ensures IsLetter(Letters()[i])
    ensures var letter := Letters()[i];
            MappingsAfter(asciiToBin[letter := AsciiBinary(letter)],
                          binToAscii[AsciiBinary(letter) := letter], i + 1)
  {
    LettersAreAsciiLetters();
    var letter := Letters()[i];
    var binary := AsciiBinary(letter);
    assert letter !in asciiToBin;
    assert binary !in binToAscii by {
      if binary in binToAscii {
        AsciiBinaryInjective(binToAscii[binary], letter);
      }
    }
    forall c | IsLetter(c) && LetterIndex(c) == i
      ensures c == letter
    {
      LetterIndexInjective(c, letter);
    }
  }

  /** The finished dictionaries: `ascii_to_bin` maps exactly the 52
      letters to their strings and `bin_to_ascii` is its inverse. */
  ghost predicate AsciiMappings(asciiToBin: map<char, string>, binToAscii: map<string, char>)
  {
    && (forall c :: c in asciiToBin <==> IsLetter(c))
    && (forall c :: c in asciiToBin ==> asciiToBin[c] == AsciiBinary(c))
    && (forall c :: c in asciiToBin ==> asciiToBin[c] in binToAscii && binToAscii[asciiToBin[c]] == c)
    && (forall b :: b in binToAscii ==> binToAscii[b] in asciiToBin && asciiToBin[binToAscii[b]] == b)
    && |asciiToBin| == 52 && |binToAscii| == 52
  }

  /** Fills `ascii_to_bin` and `bin_to_ascii` letter by letter. */
  method CreateAsciiMappings() returns (asciiToBin: map<char, string>, binToAscii: map<string, char>)
    ensures AsciiMappings(asciiToBin, binToAscii)
  {
    asciiToBin, binToAscii := map[], map[];
    for i := 0 to |Letters()|
      invariant MappingsAfter(asciiToBin, binToAscii, i)
    {
      var letter := Letters()[i];
      MappingsStep(asciiToBin, binToAscii, i);
      var encodedChar := PythonBin(letter as int);
      asciiToBin := asciiToBin[letter := [encodedChar[0]] + encodedChar[2..]];
      binToAscii := binToAscii[asciiToBin[letter] := letter];
    }
    LettersAreAsciiLetters();
  }

  // ---------------------------------------------------------------------
  // transform_text_to_binary

  /** The letters of a text, in their original order. */
  function LettersIn(text: string): (r: string)
    ensures |r| <= |text|
    ensures forall i :: 0 <= i < |r| ==> IsLetter(r[i])
  {
    if |text| == 0 then []
    else
      var c := text[|text| - 1];
      LettersIn(text[..|text| - 1]) + (if IsLetter(c) then [c] else [])
  }

  /** Filtering distributes over concatenation. */
  lemma {:induction false} LettersInConcat(a: string, b: string)
    ensures LettersIn(a + b) == LettersIn(a) + LettersIn(b)
  {
    if |b| > 0 {
      assert (a + b)[..|a + b| - 1] == a + b[..|b| - 1];
      LettersInConcat(a, b[..|b| - 1]);
    } else {
      assert a + b == a;
    }
  }

  /** A text made only of letters passes through unchanged. */
  lemma {:induction false} LettersInAllLetters(text: string)
    requires forall i :: 0 <= i < |text| ==> IsLetter(text[i])
    ensures LettersIn(text) == text
  {
    if |text| > 0 {
      LettersInAllLetters(text[..|text| - 1]);
      assert text[..|text| - 1] + [text[|text| - 1]] == text;
    }
  }

  /** Spaces, digits and punctuation contribute nothing. */
  lemma {:induction false} LettersInNoLetters(text: string)
    requires forall i :: 0 <= i < |text| ==> !IsLetter(text[i])
    ensures LettersIn(text) == []
  {
    if |text| > 0 {
      LettersInNoLetters(text[..|text| - 1]);
    }
  }

  /** Walks the text; for every character that is a key of `ascii_to_bin`
      appends the digits of its string as a 0/1 vector. The result holds
      one 8-bit vector per letter of the text, in order. */
  method TransformTextToBinary(text: string) returns (binaryDecoding: seq<seq<int>>)
    ensures |binaryDecoding| == |LettersIn(text)|
    ensures forall i :: 0 <= i < |binaryDecoding| ==> binaryDecoding[i] == CharBits(LettersIn(text)[i])
  {
    var asciiToBin, _ := CreateAsciiMappings();
    binaryDecoding := [];
    for i := 0 to |text|
      invariant |binaryDecoding| == |LettersIn(text[..i])|
      invariant forall j :: 0 <= j < |binaryDecoding| ==> binaryDecoding[j] == CharBits(LettersIn(text[..i])[j])
    {
      var ch := text[i];
      assert text[..i + 1][..i] == text[..i];
      if ch in asciiToBin {
        var bitVector := DigitsToBits(asciiToBin[ch]);
        binaryDecoding := binaryDecoding + [bitVector];
      }
    }
    assert text[..|text|] == text;
  }
}
