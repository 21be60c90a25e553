/** The costume export: one SVG write per charset position, in one of two folders,
    under a name derived from the character or from its position; a later write to the
    same file replaces an earlier one. */
module Costumes {
  import opened CharsetModel
  import opened FontSource

  datatype Bucket = UppercaseCostumes | AllOtherCostumes

  /** The sub-folder of the font's data folder that holds a bucket. */
  function Folder(b: Bucket): string {
    match b
    case UppercaseCostumes => "uppercase-costumes/"
    case AllOtherCostumes => "all-other-costumes/"
  }

  /** A costume file: its folder and its file name, `.svg` included. */
  datatype CostumeFile = CostumeFile(bucket: Bucket, name: string)

  /** The path of a costume file below the font's data folder. */
  function CostumePath(f: CostumeFile): string {
    Folder(f.bucket) + f.name
  }

  /** A costume file is known by its path: the two folder prefixes have the same length and
      differ in their first character, so keying the folder's map by (bucket, name) loses
      nothing of the path the tool writes to. */
  lemma CostumePathInjective(f: CostumeFile, g: CostumeFile)
    ensures CostumePath(f) == CostumePath(g) <==> f == g
  {
    if CostumePath(f) == CostumePath(g) {
      var n := |Folder(f.bucket)|;
      assert |Folder(g.bucket)| == n == 19;
      assert CostumePath(f)[0] == Folder(f.bucket)[0];
      assert CostumePath(g)[0] == Folder(g.bucket)[0];
      assert f.bucket == g.bucket;
      assert f.name == CostumePath(f)[n..];
      assert g.name == CostumePath(g)[n..];
    }
  }

  /** The fixed SVG envelope: a 480 by 360 canvas holding a transparent 200 by 200 rectangle at (140, 80). */
  const SvgBoilerplate: string :=
    "<svg xmlns=\"http://www.w3.org/2000/svg\" xmlns:xlink=\"http://www.w3.org/1999/xlink\" version=\"1.1\" width=\"480\" height=\"360\" viewBox=\"0 0 480 360\"><rect fill-opacity=\"0\" width=\"200\" height=\"200\" x=\"140\" y=\"80\" />"

  /** The arguments of `getPath(c, x, y, fontSize)`: the glyph's origin (240, 180) is the
      centre of the canvas and of the rectangle, and the font size is 100. */
  const GlyphX: int := 240
  const GlyphY: int := 180
  const GlyphSize: int := 100
  const GlyphFill: string := "red"

  /** The content of the costume of character `c`: the envelope, the glyph's path, the closing tag. */
  function CostumeSvg(font: Font, c: char): (svg: string)
    ensures |svg| >= |SvgBoilerplate| + 6
    ensures svg[..|SvgBoilerplate|] == SvgBoilerplate
    ensures svg[|SvgBoilerplate|..|svg| - 6] == font.pathSvg(c, GlyphX, GlyphY, GlyphSize, GlyphFill)
    ensures svg[|svg| - 6..] == "</svg>"
  {
    var path := font.pathSvg(c, GlyphX, GlyphY, GlyphSize, GlyphFill);
    var svg := SvgBoilerplate + path + "</svg>";
    assert svg[..|SvgBoilerplate|] == SvgBoilerplate;
    assert svg[|SvgBoilerplate|..|svg| - 6] == path;
    svg
  }

  function DigitChar(d: nat): (c: char)
    requires d < 10
    ensures '0' <= c <= '9'
  {
    ('0' as int + d) as char
  }

  /** The number a string of decimal digits spells, most significant digit first. */
  function DecimalValue(s: string): nat
    requires forall i :: 0 <= i < |s| ==> '0' <= s[i] <= '9'
  {
    if s == [] then 0
    else DecimalValue(s[..|s| - 1]) * 10 + (s[|s| - 1] as int - '0' as int)
  }

  /** The decimal form of `k`, as JavaScript writes an array index used as a `for...in` key:
      its digits spell `k`, and it has no leading zero. */
  function NatToString(k: nat): (s: string)
    ensures |s| >= 1
    ensures k < 10 <==> |s| == 1
    ensures forall i :: 0 <= i < |s| ==> '0' <= s[i] <= '9'
    ensures DecimalValue(s) == k
    ensures s[0] == '0' ==> k == 0
    decreases k
  {
    if k < 10 then [DigitChar(k)]
    else
      var front := NatToString(k / 10);
      var s := front + [DigitChar(k % 10)];
      assert s[..|s| - 1] == front;
      s
  }

  /** The folder of character `c`. */
  function BucketOf(cs: Charset, c: char): (b: Bucket)
    ensures b == UppercaseCostumes <==> c in cs.uppercase
  {
    if c in cs.uppercase then UppercaseCostumes else AllOtherCostumes
  }

  /** The file the position `i` of the charset is written to: the character itself as the
      name when it is file-name safe, the decimal index otherwise. */
  function CostumeFileAt(cs: Charset, i: nat): (f: CostumeFile)
    requires i < |cs.chars|
    ensures f.bucket == UppercaseCostumes <==> cs.chars[i] in cs.uppercase
  {
    var c := cs.chars[i];
    var base := if c in cs.validChars then [c] else NatToString(i);
    CostumeFile(BucketOf(cs, c), base + ".svg")
  }

  /** The costume files after the folder was emptied and the first `k` positions were
      written in order, each write replacing whatever the same file held: every written
      position's file is there, and there are at most `k` files. */
  function CostumeWrites(font: Font, cs: Charset, k: nat): (files: map<CostumeFile, string>)
    requires k <= |cs.chars|
    ensures |files| <= k
  {
    if k == 0 then map[]
    else CostumeWrites(font, cs, k - 1)[CostumeFileAt(cs, k - 1) := CostumeSvg(font, cs.chars[k - 1])]
  }

  /** Every costume file name ends in `.svg`; before it stands the character itself when
      it is file-name safe, and otherwise the position's decimal key, whose digits read back
      as it. */
  lemma CostumeFileName(cs: Charset, i: nat)
    requires i < |cs.chars|
    ensures var f := CostumeFileAt(cs, i);
      |f.name| >= 5 && f.name[|f.name| - 4..] == ".svg" &&
      (cs.chars[i] in cs.validChars ==> f.name == [cs.chars[i]] + ".svg") &&
      (cs.chars[i] !in cs.validChars ==>
        (forall k :: 0 <= k < |f.name| - 4 ==> '0' <= f.name[k] <= '9') &&
        DecimalValue(f.name[..|f.name| - 4]) == i &&
        f.name == NatToString(i) + ".svg")
  {
    var c := cs.chars[i];
    var base := if c in cs.validChars then [c] else NatToString(i);
    var name := base + ".svg";
    assert CostumeFileAt(cs, i).name == name;
    assert name[..|name| - 4] == base;
    assert name[|name| - 4..] == ".svg";
  }

  /** Every written position's file is present, and every file present is the file of
      some written position: nothing is left over from before the folder was emptied. */
  lemma {:induction false} CostumeWritesFiles(font: Font, cs: Charset, k: nat)
    requires k <= |cs.chars|
    ensures forall f :: f in CostumeWrites(font, cs, k) <==> exists i :: 0 <= i < k && CostumeFileAt(cs, i) == f
  {
    if k > 0 {
      CostumeWritesFiles(font, cs, k - 1);
    }
  }

  /** A file holds the costume of the last position written to it. */
  lemma {:induction false} CostumeWritesLastWins(font: Font, cs: Charset, k: nat, i: nat)
    requires i < k <= |cs.chars|
    requires forall j :: i < j < k ==> CostumeFileAt(cs, j) != CostumeFileAt(cs, i)
    ensures CostumeFileAt(cs, i) in CostumeWrites(font, cs, k)
    ensures CostumeWrites(font, cs, k)[CostumeFileAt(cs, i)] == CostumeSvg(font, cs.chars[i])
  {
    if i < k - 1 {
      CostumeWritesLastWins(font, cs, k - 1, i);
    }
  }

  /** Every file written holds the costume of some position that maps to it and that no
      later position overwrote; its folder is the uppercase one exactly when that
      position's character is in the uppercase class. */
  lemma CostumeWritesContents(font: Font, cs: Charset, f: CostumeFile)
    requires f in CostumeWrites(font, cs, |cs.chars|)
    ensures exists i :: (0 <= i < |cs.chars| && CostumeFileAt(cs, i) == f
                         && (forall j :: i < j < |cs.chars| ==> CostumeFileAt(cs, j) != f)
                         && CostumeWrites(font, cs, |cs.chars|)[f] == CostumeSvg(font, cs.chars[i])
                         && (f.bucket == UppercaseCostumes <==> cs.chars[i] in cs.uppercase))
  {
    var n := |cs.chars|;
    CostumeWritesFiles(font, cs, n);
    var i :| 0 <= i < n && CostumeFileAt(cs, i) == f;
    while exists j :: i < j < n && CostumeFileAt(cs, j) == f
      invariant 0 <= i < n && CostumeFileAt(cs, i) == f
      decreases n - i
    {
      var j :| i < j < n && CostumeFileAt(cs, j) == f;
      i := j;
    }
    CostumeWritesLastWins(font, cs, n, i);
  }

  /** Two occurrences of the same file-name-safe character write the same file with the
      same content, so the later one silently replaces the earlier one. */
  lemma SafeDuplicatesShareFile(font: Font, cs: Charset, i: nat, j: nat)
    requires i < |cs.chars| && j < |cs.chars|
    requires cs.chars[i] == cs.chars[j] && cs.chars[i] in cs.validChars
    ensures CostumeFileAt(cs, i) == CostumeFileAt(cs, j)
    ensures CostumeSvg(font, cs.chars[i]) == CostumeSvg(font, cs.chars[j])
  {
  }

  /** An unsafe character at an index `k` below 10 is named `k.svg`, the name of the digit
      `k`'s costume: when both sit in the same folder they write the same file. */
  lemma UnsafeIndexShadowsDigit(cs: Charset, i: nat, j: nat)
    requires Valid(cs)
    requires i < 10 && i < |cs.chars| && j < |cs.chars|
    requires cs.chars[i] !in cs.validChars && cs.chars[j] == DigitChar(i)
    requires (cs.chars[i] in cs.uppercase) == (cs.chars[j] in cs.uppercase)
    ensures CostumeFileAt(cs, i) == CostumeFileAt(cs, j)
  {
  }

  /** The custom charset with no letters and the rest `#0`: two positions, one file. The
      digit's costume replaces the costume of `#`, which is lost. */
  lemma ShadowedCostumeExample(font: Font)
    ensures var cs := CustomCharset("", "#0");
      CostumeWrites(font, cs, |cs.chars|) == map[CostumeFile(AllOtherCostumes, "0.svg") := CostumeSvg(font, '0')]
  {
    var cs := CustomCharset("", "#0");
    assert cs.chars == "#0";
    assert '#' !in cs.validChars;
    assert CostumeFileAt(cs, 0) == CostumeFile(AllOtherCostumes, "0.svg");
    assert CostumeFileAt(cs, 1) == CostumeFile(AllOtherCostumes, "0.svg");
    assert CostumeWrites(font, cs, 1) == map[CostumeFile(AllOtherCostumes, "0.svg") := CostumeSvg(font, '#')];
  }

  lemma SvgSuffixCancels(a: string, b: string)
    requires a + ".svg" == b + ".svg"
    ensures a == b
  {
    assert |a| == |b|;
    assert a == (a + ".svg")[..|a|];
    assert b == (b + ".svg")[..|b|];
  }

  /** When no unsafe character sits at an index below 10, two positions share a file only
      if they hold the same file-name-safe character: a fallback name is never reused. */
  lemma {:induction false} FallbackNamesUnique(cs: Charset, i: nat, j: nat)
    requires forall k :: 0 <= k < |cs.chars| && cs.chars[k] !in cs.validChars ==> k >= 10
    requires i < |cs.chars| && j < |cs.chars|
    requires CostumeFileAt(cs, i) == CostumeFileAt(cs, j)
    ensures cs.chars[i] == cs.chars[j]
    ensures cs.chars[i] !in cs.validChars ==> i == j
  {
    var ci, cj := cs.chars[i], cs.chars[j];
    var ni := if ci in cs.validChars then [ci] else NatToString(i);
    var nj := if cj in cs.validChars then [cj] else NatToString(j);
    SvgSuffixCancels(ni, nj);
    if ci in cs.validChars && cj in cs.validChars {
      assert ci == ni[0] == nj[0] == cj;
    }
  }

  lemma {:induction false} CostumeWritesCount(font: Font, cs: Charset, k: nat)
    requires k <= |cs.chars|
    requires forall i, j :: 0 <= i < j < k ==> CostumeFileAt(cs, i) != CostumeFileAt(cs, j)
    ensures |CostumeWrites(font, cs, k)| == k
  {
    if k > 0 {
      CostumeWritesFiles(font, cs, k - 1);
      CostumeWritesCount(font, cs, k - 1);
    }
  }

  /** With distinct characters and no unsafe character at an index below 10, nothing is
      overwritten: there is one file per position, holding that position's costume. */
  lemma NoCollisions(font: Font, cs: Charset)
    requires forall i, j :: 0 <= i < j < |cs.chars| ==> cs.chars[i] != cs.chars[j]
    requires forall k :: 0 <= k < |cs.chars| && cs.chars[k] !in cs.validChars ==> k >= 10
    ensures |CostumeWrites(font, cs, |cs.chars|)| == |cs.chars|
    ensures forall i :: 0 <= i < |cs.chars| ==>
      CostumeFileAt(cs, i) in CostumeWrites(font, cs, |cs.chars|) &&
      CostumeWrites(font, cs, |cs.chars|)[CostumeFileAt(cs, i)] == CostumeSvg(font, cs.chars[i])
  {
    var n := |cs.chars|;
    forall i, j | 0 <= i < j < n ensures CostumeFileAt(cs, i) != CostumeFileAt(cs, j) {
      if CostumeFileAt(cs, i) == CostumeFileAt(cs, j) {
        FallbackNamesUnique(cs, i, j);
      }
    }
    CostumeWritesCount(font, cs, n);
    forall i | 0 <= i < n
      ensures CostumeFileAt(cs, i) in CostumeWrites(font, cs, n)
      ensures CostumeWrites(font, cs, n)[CostumeFileAt(cs, i)] == CostumeSvg(font, cs.chars[i])
    {
      CostumeWritesLastWins(font, cs, n, i);
    }
  }

  /** In the default charset a fallback name is never shared: two positions meet in one
      file only when they hold the same file-name-safe character. */
  lemma DefaultFallbackNamesUnique(i: nat, j: nat)
    requires i < |DefaultChars| && j < |DefaultChars|
    requires CostumeFileAt(Default, i) == CostumeFileAt(Default, j)
    ensures DefaultChars[i] == DefaultChars[j]
    ensures DefaultChars[i] !in Default.validChars ==> i == j
  {
    DefaultUnsafeIndices();
    FallbackNamesUnique(Default, i, j);
  }

  /** The default charset loses no costume: 95 files, each position's own. */
  lemma DefaultCostumes(font: Font)
    ensures |CostumeWrites(font, Default, |DefaultChars|)| == |DefaultChars|
    ensures forall i :: 0 <= i < |DefaultChars| ==>
      CostumeFileAt(Default, i) in CostumeWrites(font, Default, |DefaultChars|) &&
      CostumeWrites(font, Default, |DefaultChars|)[CostumeFileAt(Default, i)] == CostumeSvg(font, DefaultChars[i])
  {
    DefaultCharsDistinct();
    DefaultUnsafeIndices();
    NoCollisions(font, Default);
  }

  /** A default character that is not file-name safe, such as `#`, still gets its own
      costume: in the other folder, named after its position. */
  lemma DefaultUnsafeCostume(font: Font, i: nat)
    requires i < |DefaultChars| && DefaultChars[i] !in Default.validChars
    ensures var f := CostumeFileAt(Default, i);
      f.bucket == AllOtherCostumes &&
      DecimalValue(f.name[..|f.name| - 4]) == i &&
      f in CostumeWrites(font, Default, |DefaultChars|) &&
      CostumeWrites(font, Default, |DefaultChars|)[f] == CostumeSvg(font, DefaultChars[i])
  {
    DefaultLayout();
    UppercaseIsSafe(Default);
    CostumeFileName(Default, i);
    DefaultCostumes(font);
  }
}
