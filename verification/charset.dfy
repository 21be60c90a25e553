/** The charset model: the ordered characters to export, the characters
    whose costumes go into the uppercase folder, and the characters that may
    be used verbatim as a file name. */
module CharsetModel {
  import opened CaseMapping
  import opened Answers

  const DefaultUppercase: string := "ABCDEFGHIJKLMNOPQRSTUVWXYZ"

  const DefaultLowercase: string := "abcdefghijklmnopqrstuvwxyz"

  /** The digits and symbols of a US keyboard, in key order. */
  const DefaultSymbols: string := "`1234567890-=[]\\;',./~!@#$%^&*()_+{}|:\"<>?"

  /** The built-in charset: capitals, a space, small letters, then the digits and symbols
      (one literal in the tool, written here in its four parts). */
  const DefaultChars: string := DefaultUppercase + " " + DefaultLowercase + DefaultSymbols

  const Digits: string := "0123456789"

  /** The three module-level lists the tool keeps. */
  datatype Charset = Charset(chars: string, uppercase: string, validChars: string)

  lemma DigitsAreDecimal()
    ensures forall c :: c in Digits <==> '0' <= c <= '9'
  {
    forall c | '0' <= c <= '9' ensures c in Digits {
      var k := c as int - '0' as int;
      assert c == Digits[k];
    }
  }

  /** The file-name-safe characters for a given uppercase class. */
  function ValidCharsFor(uppercase: string): (valid: string)
    ensures |valid| == 2 * |uppercase| + 13
    ensures forall c :: c in valid <==>
      (c in uppercase || c == ' ' || c in LowerAll(uppercase) || '0' <= c <= '9' || c == '_' || c == '-')
  {
    DigitsAreDecimal();
    uppercase + [' '] + LowerAll(uppercase) + Digits + ['_', '-']
  }

  /** The state at start-up. */
  const Default: Charset := Charset(DefaultChars, DefaultUppercase, ValidCharsFor(DefaultUppercase))

  /** The invariant both the start-up state and every rebuild keep: the safe set is
      derived from the uppercase class, and the uppercase class leads the charset. */
  predicate Valid(cs: Charset) {
    cs.validChars == ValidCharsFor(cs.uppercase) && cs.uppercase <= cs.chars
  }

  /** The rebuild after the operator asked for a custom charset: `letters` is the answer
      to the letters question, `rest` the answer to the question for the other characters. */
  function CustomCharset(letters: string, rest: string): (cs: Charset)
    ensures Valid(cs)
    ensures cs.uppercase == UpperAll(letters)
    ensures |cs.chars| == 2 * |letters| + |rest|
    ensures cs.chars[..|letters|] == cs.uppercase
    ensures cs.chars[|letters|..2 * |letters|] == LowerAll(cs.uppercase)
    ensures cs.chars[2 * |letters|..] == rest
  {
    var uppercase := UpperAll(letters);
    var chars := uppercase + LowerAll(uppercase) + rest;
    assert chars[..|letters|] == uppercase;
    assert chars[|letters|..2 * |letters|] == LowerAll(uppercase);
    Charset(chars, uppercase, ValidCharsFor(uppercase))
  }

  lemma DefaultLayout()
    ensures |DefaultChars| == 95
    ensures DefaultChars[..26] == DefaultUppercase
    ensures DefaultChars[26] == ' '
    ensures DefaultChars[27..53] == DefaultLowercase
    ensures Valid(Default)
  {
  }

  /** In the default charset the uppercase class is exactly the Latin capitals. */
  lemma DefaultUppercaseIsLatinCapitals()
    ensures forall c :: c in DefaultUppercase <==> IsAsciiUpper(c)
  {
    forall c | IsAsciiUpper(c) ensures c in DefaultUppercase {
      var k := c as int - 'A' as int;
      assert c == DefaultUppercase[k];
    }
  }

  /** Every character of the uppercase class, and its lower-case form, is file-name safe. */
  lemma UppercaseIsSafe(cs: Charset)
    requires Valid(cs)
    ensures forall c :: c in cs.uppercase ==> c in cs.validChars && ToLower(c) in cs.validChars
  {
    forall c | c in cs.uppercase ensures ToLower(c) in LowerAll(cs.uppercase) {
      var i :| 0 <= i < |cs.uppercase| && cs.uppercase[i] == c;
      assert LowerAll(cs.uppercase)[i] == ToLower(c);
    }
  }

  lemma DefaultLetterPositions()
    ensures forall i :: 0 <= i < 26 ==> DefaultChars[i] == DefaultUppercase[i]
    ensures forall i :: 27 <= i < 53 ==> DefaultChars[i] == DefaultLowercase[i - 27]
    ensures forall c :: c in DefaultLowercase ==> IsAsciiLower(c)
  {
  }

  lemma DefaultLettersAreSafe(c: char)
    requires c in DefaultUppercase || c in DefaultLowercase
    ensures c in Default.validChars
  {
    DefaultLayout();
    UppercaseIsSafe(Default);
    if c in DefaultLowercase {
      DefaultLetterPositions();
      DefaultUppercaseIsLatinCapitals();
      assert ToUpper(c) in DefaultUppercase;
    }
  }

  /** The first 53 default characters (letters and the space) are all file-name safe,
      so every default character that needs a fallback name sits at index 53 or later. */
  lemma DefaultUnsafeIndices()
    ensures forall i :: 0 <= i < |DefaultChars| && DefaultChars[i] !in Default.validChars ==> i >= 53
  {
    DefaultLayout();
    DefaultLetterPositions();
    forall i | 0 <= i < 53 ensures DefaultChars[i] in Default.validChars {
      if i < 26 {
        DefaultLettersAreSafe(DefaultUppercase[i]);
      } else if 26 < i {
        DefaultLettersAreSafe(DefaultLowercase[i - 27]);
      }
    }
  }

  /** The position of a symbol in `DefaultSymbols`, or -1. */
  function SymbolRank(c: char): int {
    match c
    case '`' => 0
    case '1' => 1
    case '2' => 2
    case '3' => 3
    case '4' => 4
    case '5' => 5
    case '6' => 6
    case '7' => 7
    case '8' => 8
    case '9' => 9
    case '0' => 10
    case '-' => 11
    case '=' => 12
    case '[' => 13
    case ']' => 14
    case '\\' => 15
    case ';' => 16
    case '\'' => 17
    case ',' => 18
    case '.' => 19
    case '/' => 20
    case '~' => 21
    case '!' => 22
    case '@' => 23
    case '#' => 24
    case '$' => 25
    case '%' => 26
    case '^' => 27
    case '&' => 28
    case '*' => 29
    case '(' => 30
    case ')' => 31
    case '_' => 32
    case '+' => 33
    case '{' => 34
    case '}' => 35
    case '|' => 36
    case ':' => 37
    case '"' => 38
    case '<' => 39
    case '>' => 40
    case '?' => 41
    case _ => -1
  }

  /** The position of a character in `DefaultChars`. */
  function DefaultRank(c: char): int {
    if IsAsciiUpper(c) then c as int - 'A' as int
    else if c == ' ' then 26
    else if IsAsciiLower(c) then 27 + (c as int - 'a' as int)
    else 53 + SymbolRank(c)
  }

  lemma LetterCodes()
    ensures forall k :: 0 <= k < 26 ==> DefaultUppercase[k] as int == 'A' as int + k
    ensures forall k :: 0 <= k < 26 ==> DefaultLowercase[k] as int == 'a' as int + k
  {
  }

  lemma SymbolRanks()
    ensures forall k :: 0 <= k < |DefaultSymbols| ==> SymbolRank(DefaultSymbols[k]) == k
    ensures forall k :: 0 <= k < |DefaultSymbols| ==>
      (!IsAsciiUpper(DefaultSymbols[k]) && !IsAsciiLower(DefaultSymbols[k]) && DefaultSymbols[k] != ' ')
  {
  }

  lemma DefaultRankInverts(i: nat)
    requires i < |DefaultChars|
    ensures DefaultRank(DefaultChars[i]) == i
  {
    DefaultLayout();
    DefaultLetterPositions();
    if i < 53 {
      LetterCodes();
    } else {
      SymbolRanks();
      assert DefaultChars[i] == DefaultSymbols[i - 53];
    }
  }

  /** The 95 default characters are pairwise distinct. */
  lemma DefaultCharsDistinct()
    ensures forall i, j :: 0 <= i < j < |DefaultChars| ==> DefaultChars[i] != DefaultChars[j]
  {
    forall i, j | 0 <= i < j < |DefaultChars| ensures DefaultChars[i] != DefaultChars[j] {
      DefaultRankInverts(i);
      DefaultRankInverts(j);
    }
  }

  /** When the operator types small letters, as the letters question asks, the charset is
      those letters in capitals, then the letters as typed, then the rest. */
  lemma CustomFromSmallLetters(letters: string, rest: string)
    requires forall i :: 0 <= i < |letters| ==> IsAsciiLower(letters[i])
    ensures CustomCharset(letters, rest).chars == UpperAll(letters) + letters + rest
  {
    LowerOfUpperAll(letters);
  }

  /** With small letters typed and no capitals among the rest, a position of the charset
      is in the uppercase class exactly when it is one of the first |letters| positions. */
  lemma {:induction false} CustomBuckets(letters: string, rest: string)
    requires forall i :: 0 <= i < |letters| ==> IsAsciiLower(letters[i])
    requires forall i :: 0 <= i < |rest| ==> !IsAsciiUpper(rest[i])
    ensures var cs := CustomCharset(letters, rest);
      forall i :: 0 <= i < |cs.chars| ==> (cs.chars[i] in cs.uppercase <==> i < |letters|)
  {
    var cs := CustomCharset(letters, rest);
    LowerOfUpperAll(letters);
    CustomFromSmallLetters(letters, rest);
    forall i | 0 <= i < |cs.chars| ensures cs.chars[i] in cs.uppercase <==> i < |letters| {
      if i < |letters| {
        assert cs.chars[i] == cs.chars[..|letters|][i];
      } else {
        var n := |letters|;
        var c := cs.chars[i];
        if i < 2 * n {
          assert c == letters[i - n];
        } else {
          assert c == rest[i - 2 * n];
        }
        assert !IsAsciiUpper(c);
      }
    }
  }

  /** The custom charset built from the letters `xy` and the rest `12`. */
  lemma CustomExample()
    ensures CustomCharset("xy", "12").chars == "XYxy12"
    ensures CustomCharset("xy", "12").uppercase == "XY"
  {
    CustomFromSmallLetters("xy", "12");
  }

  /** The module-level `chars`, `uppercase` and `validChars`, which the custom-charset
      question reassigns. */
  class CharsetState {
    var chars: string
    var uppercase: string
    var validChars: string

    function Current(): Charset
      reads this
    {
      Charset(chars, uppercase, validChars)
    }

    ghost predicate Invariant()
      reads this
    {
      Valid(Current())
    }

    /** The lists as the tool starts with them. */
    constructor ()
      ensures Invariant()
      ensures Current() == Default
    {
      chars := DefaultChars;
      uppercase := DefaultUppercase;
      validChars := ValidCharsFor(DefaultUppercase);
      DefaultLayout();
    }

    /** The custom-charset question: `response1` answers whether to enter a custom charset,
        `response2` gives the letters and `response3` the rest of the charset; the last two
        are only read when the first is a yes. */
    method AskForCharset(response1: string, response2: string, response3: string)
      requires Invariant()
      modifies this
      ensures Invariant()
      ensures WantsCustomCharset(response1) ==> Current() == CustomCharset(response2, response3)
      ensures !WantsCustomCharset(response1) ==> Current() == old(Current())
    {
      if FirstLowered(response1) == "y" {
        uppercase := UpperAll(response2);
        chars := uppercase + LowerAll(uppercase) + response3;
        validChars := ValidCharsFor(uppercase);
      }
    }
  }
}
