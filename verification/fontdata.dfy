/** The font's data folder and the two export passes that fill it. The folder
    stands in for the file system: which folders exist, the costume files and
    the kerning file. */
module FontData {
  import opened CharsetModel
  import opened FontSource
  import opened Costumes
  import opened Kerning
  import opened Answers

  datatype Option<T> = None | Some(value: T)

  /** `<font name>-Font-Data/` with its two costume folders and `kerning.txt`. */
  class FontDataFolder {
    var present: bool
    var costumeFolders: bool
    var costumes: map<CostumeFile, string>
    var kerning: Option<seq<KerningValue>>

    /** Nothing is stored in a folder that does not exist. */
    ghost predicate Valid()
      reads this
    {
      (!present ==> !costumeFolders && kerning == None) &&
      (!costumeFolders ==> costumes == map[])
    }

    /** Remove the folder with everything in it, then create it with its two empty costume folders. */
    method Reset()
      modifies this
      ensures Valid() && present && costumeFolders
      ensures costumes == map[] && kerning == None
    {
      present, costumeFolders := true, true;
      costumes, kerning := map[], None;
    }

    /** Create the folder, empty, if it does not exist yet. */
    method EnsurePresent()
      requires Valid()
      modifies this
      ensures Valid() && present
      ensures old(present) ==> costumeFolders == old(costumeFolders) && costumes == old(costumes) && kerning == old(kerning)
      ensures !old(present) ==> !costumeFolders && costumes == map[] && kerning == None
    {
      if !present {
        present := true;
      }
    }

    /** Write a costume file, replacing the file of that name if there is one. */
    method WriteCostume(f: CostumeFile, content: string)
      requires Valid() && costumeFolders
      modifies this
      ensures Valid()
      ensures costumes == old(costumes)[f := content]
      ensures present == old(present) && costumeFolders == old(costumeFolders) && kerning == old(kerning)
    {
      costumes := costumes[f := content];
    }

    /** Write `kerning.txt`, replacing an earlier one. */
    method WriteKerning(values: seq<KerningValue>)
      requires Valid() && present
      modifies this
      ensures Valid()
      ensures kerning == Some(values)
      ensures present == old(present) && costumeFolders == old(costumeFolders) && costumes == old(costumes)
    {
      kerning := Some(values);
    }
  }

  /** The costume pass: the folder is emptied and recreated, then every position of the
      charset writes one costume, in order. Afterwards the folder holds exactly the files
      the positions map to, each with the costume of the last position mapped to it, and
      nothing from an earlier run. */
  method CreateCostumes(font: Font, cs: Charset, folder: FontDataFolder)
    requires folder.Valid()
    modifies folder
    ensures folder.Valid() && folder.present && folder.costumeFolders && folder.kerning == None
    ensures folder.costumes == CostumeWrites(font, cs, |cs.chars|)
    ensures forall f :: f in folder.costumes <==> exists i :: 0 <= i < |cs.chars| && CostumeFileAt(cs, i) == f
  {
    folder.Reset();
    for i := 0 to |cs.chars|
      invariant folder.Valid() && folder.present && folder.costumeFolders && folder.kerning == None
      invariant folder.costumes == CostumeWrites(font, cs, i)
    {
      var c := cs.chars[i];
      var bucket := if c in cs.uppercase then UppercaseCostumes else AllOtherCostumes;
      var name := (if c in cs.validChars then [c] else NatToString(i)) + ".svg";
      folder.WriteCostume(CostumeFile(bucket, name), SvgBoilerplate + font.pathSvg(c, GlyphX, GlyphY, GlyphSize, GlyphFill) + "</svg>");
    }
    CostumeWritesFiles(font, cs, |cs.chars|);
  }

  /** The kerning pass: every ordered pair of charset characters, the previous one in the
      outer loop and the current one in the inner loop, appends one value; the values are
      written to `kerning.txt`. The costume files are left as they are. */
  method CreateKerning(font: Font, chars: seq<char>, folder: FontDataFolder)
    requires folder.Valid() && folder.present
    modifies folder
    ensures folder.Valid()
    ensures folder.kerning == Some(KerningTable(font, chars, chars))
    ensures |folder.kerning.value| == |chars| * |chars|
    ensures folder.present == old(folder.present) && folder.costumeFolders == old(folder.costumeFolders)
    ensures folder.costumes == old(folder.costumes)
  {
    var n := |chars|;
    var buffer: seq<KerningValue> := [];
    for i := 0 to n
      invariant buffer == KerningTable(font, chars[..i], chars)
    {
      var prev := chars[i];
      for j := 0 to n
        invariant buffer == KerningTable(font, chars[..i], chars) + KerningRow(font, prev, chars[..j])
      {
        var leftGlyph := font.charToGlyph(prev);
        var rightGlyph := font.charToGlyph(chars[j]);
        buffer := buffer + [KerningValue(font.advanceWidth(prev, 1), font.kerningValue(leftGlyph, rightGlyph), font.unitsPerEm)];
        assert chars[..j + 1][..j] == chars[..j];
      }
      assert chars[..n] == chars;
      assert chars[..i + 1][..i] == chars[..i];
    }
    assert chars[..n] == chars;
    folder.WriteKerning(buffer);
  }

  /** The kerning question: the folder is created if it is missing, then the answer is read. */
  method AskToCreateKerning(folder: FontDataFolder, response: string) returns (yes: bool)
    requires folder.Valid()
    modifies folder
    ensures folder.Valid() && folder.present
    ensures old(folder.present) ==>
      (folder.costumeFolders == old(folder.costumeFolders) &&
       folder.costumes == old(folder.costumes) && folder.kerning == old(folder.kerning))
    ensures !old(folder.present) ==> !folder.costumeFolders && folder.costumes == map[] && folder.kerning == None
    ensures yes == AnswerIsYes(response)
  {
    folder.EnsurePresent();
    var first := FirstLowered(response);
    yes := first == "y" || first == "";
  }
}
