/** The kerning table: for every ordered pair (previous, current) of the charset,
    the distance to move after the previous character. */
module Kerning {
  import opened FontSource

  /** One table value, `advanceWidth + kerning / unitsPerEm` computed in floating point;
      the model keeps the three operands and leaves the arithmetic and its text form out. */
  datatype KerningValue = KerningValue(advanceWidth: Double, kerning: Double, unitsPerEm: Double)

  /** The value written for the pair (prev, cur): the advance width is that of `prev`,
      taken at font size 1, and only the kerning term depends on `cur`. */
  function KerningValueFor(font: Font, prev: char, cur: char): (v: KerningValue)
    ensures v.advanceWidth == font.advanceWidth(prev, 1)
    ensures v.kerning == font.kerningValue(font.charToGlyph(prev), font.charToGlyph(cur))
    ensures v.unitsPerEm == font.unitsPerEm
  {
    KerningValue(font.advanceWidth(prev, 1),
                 font.kerningValue(font.charToGlyph(prev), font.charToGlyph(cur)),
                 font.unitsPerEm)
  }

  /** The values for `prev` followed by each of `curs`, in order. */
  function KerningRow(font: Font, prev: char, curs: seq<char>): (row: seq<KerningValue>)
    ensures |row| == |curs|
  {
    if curs == [] then []
    else KerningRow(font, prev, curs[..|curs| - 1]) + [KerningValueFor(font, prev, curs[|curs| - 1])]
  }

  /** The rows of each of `prevs`, in order: |prevs| * |curs| values. */
  function KerningTable(font: Font, prevs: seq<char>, curs: seq<char>): (table: seq<KerningValue>)
    ensures |table| == |prevs| * |curs|
  {
    if prevs == [] then []
    else
      LastRow(|prevs| - 1, |curs|);
      KerningTable(font, prevs[..|prevs| - 1], curs) + KerningRow(font, prevs[|prevs| - 1], curs)
  }

  lemma {:induction false} KerningRowAt(font: Font, prev: char, curs: seq<char>)
    ensures |KerningRow(font, prev, curs)| == |curs|
    ensures forall c :: 0 <= c < |curs| ==> KerningRow(font, prev, curs)[c] == KerningValueFor(font, prev, curs[c])
  {
    if curs != [] {
      KerningRowAt(font, prev, curs[..|curs| - 1]);
    }
  }

  lemma RowsBefore(p: nat, c: nat, n: nat, m: nat)
    requires p < m && c < n
    ensures p * n + c < m * n
  {
    assert p * n + c < p * n + n == (p + 1) * n;
    assert (p + 1) * n <= m * n;
  }

  lemma LastRow(m: nat, n: nat)
    ensures (m + 1) * n == m * n + n
  {
  }

  lemma QuotientBelow(k: nat, n: nat)
    requires k < n * n
    ensures n > 0 && k / n < n && k == (k / n) * n + k % n
  {
    var q := k / n;
    assert q >= n ==> q * n >= n * n;
  }

  /** The value at `p * |curs| + c` belongs to the pair (prevs[p], curs[c]): the previous
      character varies slowest, the current character fastest. */
  lemma {:induction false} KerningTableAt(font: Font, prevs: seq<char>, curs: seq<char>, p: nat, c: nat)
    requires p < |prevs| && c < |curs|
    ensures |KerningTable(font, prevs, curs)| == |prevs| * |curs|
    ensures p * |curs| + c < |prevs| * |curs|
    ensures KerningTable(font, prevs, curs)[p * |curs| + c] == KerningValueFor(font, prevs[p], curs[c])
  {
    var m, n := |prevs| - 1, |curs|;
    var front := KerningTable(font, prevs[..m], curs);
    var row := KerningRow(font, prevs[m], curs);
    KerningRowAt(font, prevs[m], curs);
    var k := p * n + c;
    RowsBefore(p, c, n, m + 1);
    if p < m {
      KerningTableAt(font, prevs[..m], curs, p, c);
      assert (front + row)[k] == front[k];
    } else {
      assert k == m * n + c;
      assert (front + row)[k] == row[c];
    }
  }

  /** The same identity read the other way: value `k` belongs to the previous character
      at `k / n` and the current character at `k % n`. */
  lemma KerningTableOrder(font: Font, chars: seq<char>, k: nat)
    requires k < |chars| * |chars|
    ensures |KerningTable(font, chars, chars)| == |chars| * |chars|
    ensures k / |chars| < |chars|
    ensures KerningTable(font, chars, chars)[k] == KerningValueFor(font, chars[k / |chars|], chars[k % |chars|])
  {
    var n := |chars|;
    QuotientBelow(k, n);
    var p, c := k / n, k % n;
    KerningTableAt(font, chars, chars, p, c);
  }

  /** The item a consumer reads with the 1-based formula `(previousChar - 1) * n + currentChar`,
      where previousChar and currentChar are 1-based costume numbers. */
  function LookupItem(table: seq<KerningValue>, n: nat, previousChar: nat, currentChar: nat): KerningValue
    requires 1 <= previousChar <= n && 1 <= currentChar <= n && |table| == n * n
  {
    RowsBefore(previousChar - 1, currentChar - 1, n, n);
    table[(previousChar - 1) * n + currentChar - 1]
  }

  /** The consumer's lookup finds the value of the pair it asks for, and its advance-width
      term is the one of the previous character. */
  lemma KerningLookup(font: Font, chars: seq<char>, previousChar: nat, currentChar: nat)
    requires 1 <= previousChar <= |chars| && 1 <= currentChar <= |chars|
    ensures |KerningTable(font, chars, chars)| == |chars| * |chars|
    ensures LookupItem(KerningTable(font, chars, chars), |chars|, previousChar, currentChar)
      == KerningValueFor(font, chars[previousChar - 1], chars[currentChar - 1])
    ensures LookupItem(KerningTable(font, chars, chars), |chars|, previousChar, currentChar).advanceWidth
      == font.advanceWidth(chars[previousChar - 1], 1)
  {
    KerningTableAt(font, chars, chars, previousChar - 1, currentChar - 1);
  }

  /** Within one row every value has the same advance-width term, whatever the current character. */
  lemma AdvanceWidthFromPrevious(font: Font, chars: seq<char>, p: nat, c1: nat, c2: nat)
    requires p < |chars| && c1 < |chars| && c2 < |chars|
    ensures |KerningTable(font, chars, chars)| == |chars| * |chars|
    ensures p * |chars| + c1 < |chars| * |chars| && p * |chars| + c2 < |chars| * |chars| &&
      KerningTable(font, chars, chars)[p * |chars| + c1].advanceWidth
      == KerningTable(font, chars, chars)[p * |chars| + c2].advanceWidth
  {
    KerningTableAt(font, chars, chars, p, c1);
    KerningTableAt(font, chars, chars, p, c2);
  }

  /** For the charset `AB` the pairs come in the order (A,A), (A,B), (B,A), (B,B). */
  lemma KerningOrderExample(font: Font)
    ensures KerningTable(font, "AB", "AB") == [KerningValueFor(font, 'A', 'A'), KerningValueFor(font, 'A', 'B'),
                                             KerningValueFor(font, 'B', 'A'), KerningValueFor(font, 'B', 'B')]
  {
    var t := KerningTable(font, "AB", "AB");
    KerningTableAt(font, "AB", "AB", 0, 0);
    KerningTableAt(font, "AB", "AB", 0, 1);
    KerningTableAt(font, "AB", "AB", 1, 0);
    KerningTableAt(font, "AB", "AB", 1, 1);
  }
}
