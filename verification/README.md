# Font creation tool for Scratch: a Dafny model

The tool turns a font file into two artifacts for Scratch, which cannot draw fonts
itself:

- one SVG "costume" written per charset character, in `uppercase-costumes/` or
  `all-other-costumes/` (a later write to the same file name replaces an earlier one);
- `kerning.txt`, a flat table of n² values. It tells a project how far to move after
  each character, given the character before it.

This project models the three parts of `FontCreationTool.js` that carry logic:

- **Charset** (`charset.dfy`, `casemapping.dfy`). This covers:
  - the module-level lists `chars`, `uppercase`, `digits` and `validChars`;
  - the rebuild after the operator asks for a custom charset (`CharsetState`, a class
    whose fields are the reassigned globals);
  - the yes/no answer rule (`answers.dfy`).
- **Costume export** (`costumes.dfy`, `fontdata.dfy`). The output directory is a class,
  `FontDataFolder`, holding a map from (folder, file name) to content. `CreateCostumes`
  empties and recreates it, then writes one costume per charset position in a loop. Its
  result is tied to `CostumeWrites`, the sequence of writes, where a later write to the
  same file replaces an earlier one. The lemmas say:
  - which files exist (every position's file, every file from some position, nothing
    left over from an earlier run);
  - what each file holds (the costume of the last position written to it);
  - when files collide.
- **Kerning table** (`kerning.dfy`, `fontdata.dfy`). `CreateKerning` runs the two nested
  loops and is proved to build `KerningTable`. The lemmas give its length, its order
  (previous character outer, current character inner) and the 1-based lookup formula
  the tool prints for its users.

The font library (opentype.js) appears as the record `FontSource.Font`. Its fields are
the queries the tool makes, so every lemma holds for every font. A kerning value is kept
as its three floating-point operands, `KerningValue(advanceWidth, kerning, unitsPerEm)`,
which stands for `advanceWidth + kerning / unitsPerEm`.

Three points of the tool's behaviour that are easy to misread:

- The advance-width term of a kerning value is that of the **previous** character (the
  outer loop variable `i`, line 66), not the current one.
- A character that is not file-name safe is written under its **decimal index in the
  charset** (the `for...in` key, lines 47 and 52), not under the raw character.
- Nothing makes the charset free of duplicates, and the safe set is a list, not a set.

## Model

| member | source | states |
|---|---|---|
| `CaseMapping.LowerOfUpperAll` | FontCreationTool.js:108-110 | upper-casing small ASCII letters and lower-casing them again gives back the input, and the upper-cased letters are capitals |
| `CaseMapping.UpperAll` | FontCreationTool.js:108 | upper-cases each character in place, keeping the length; `LowerOfUpperAll` and `CustomFromSmallLetters` build on it |
| `CaseMapping.LowerAll` | FontCreationTool.js:110 | lower-cases each character in place, keeping the length (also line 15 and 116); `UppercaseIsSafe` builds on it |
| `Answers.FirstLowered` | FontCreationTool.js:78 | the empty string for an empty answer, otherwise the lower-cased first character (also lines 91 and 101); `AnswerIsYes` and `WantsCustomCharset` state what it decides |
| `Answers.AnswerIsYes` | FontCreationTool.js:78-80 | the costume and kerning questions count as yes exactly when the answer is empty or starts with `y` or `Y` (the same rule at lines 91-93) |
| `Answers.WantsCustomCharset` | FontCreationTool.js:101-103 | a custom charset is used exactly when the answer is non-empty and starts with `y` or `Y` |
| `Answers.Defaults` | FontCreationTool.js:78-103 | an empty answer means yes to costumes and kerning and no to a custom charset; the costume/kerning yes is the custom-charset yes plus the empty answer |
| `CharsetModel.DigitsAreDecimal` | FontCreationTool.js:14 | `digits` holds exactly the characters `0` to `9` |
| `CharsetModel.ValidCharsFor` | FontCreationTool.js:15 | the safe list has 2·\|uppercase\| + 13 entries, and a character is in it iff it is in the uppercase class, is the space, is the lower-case form of an uppercase-class character, is a decimal digit, `_` or `-` |
| `CharsetModel.DefaultLayout` | FontCreationTool.js:12-15 | the default charset has 95 characters: the 26 capitals, then a space, then the 26 small letters; the default state keeps the charset invariant |
| `CharsetModel.DefaultUppercaseIsLatinCapitals` | FontCreationTool.js:13 | a character is in the default uppercase class iff it is a Latin capital `A` to `Z` |
| `CharsetModel.UppercaseIsSafe` | FontCreationTool.js:15 | under the invariant, every uppercase-class character and its lower-case form are file-name safe |
| `CharsetModel.DefaultCharsDistinct` | FontCreationTool.js:12 | the 95 default characters are pairwise distinct |
| `CharsetModel.DefaultUnsafeIndices` | FontCreationTool.js:12-15 | every default character that is not file-name safe sits at index 53 or later |
| `CharsetModel.CustomCharset` | FontCreationTool.js:104-116 | after a rebuild: uppercase = upper-cased letters; the charset is those, then their lower-case forms, then the rest; its length is 2·\|letters\| + \|rest\|; the safe list is rebuilt from the new uppercase class |
| `CharsetModel.CustomFromSmallLetters` | FontCreationTool.js:104-114 | when the operator types small letters, the charset is those letters in capitals, then the letters as typed, then the rest |
| `CharsetModel.CustomBuckets` | FontCreationTool.js:104-114 | with small letters typed and no capitals among the rest, a position is in the uppercase class iff it is one of the first \|letters\| positions |
| `CharsetModel.CustomExample` | FontCreationTool.js:104-114 | letters `xy` and rest `12` give the charset `XYxy12` and the uppercase class `XY` |
| `CharsetModel.CharsetState.constructor` | FontCreationTool.js:12-15 | the start-up lists are the default charset, the capitals and the safe list derived from them |
| `CharsetModel.CharsetState.AskForCharset` | FontCreationTool.js:96-119 | a yes to the first question replaces all three lists by the custom rebuild; any other answer leaves them unchanged; the invariant (safe list derived from the uppercase class, uppercase class a prefix of the charset) is kept |
| `Costumes.NatToString` | FontCreationTool.js:47 | the `for...in` key is a non-empty string of decimal digits that reads back as the index (`DecimalValue`), with no leading zero, one character long exactly for indices below 10; so different indices have different keys |
| `Costumes.CostumeSvg` | FontCreationTool.js:48-53 | a costume is the fixed envelope, then the glyph's path from `getPath(c, 240, 180, 100)` (origin (240, 180), font size 100) with a red fill, then `</svg>`; `CostumeWritesLastWins` says which costume each file holds |
| `Costumes.CostumeFileAt` | FontCreationTool.js:51-52 | position i goes to the uppercase folder iff its character is in the uppercase class; its name is given by `CostumeFileName`, and its collisions by `SafeDuplicatesShareFile`, `UnsafeIndexShadowsDigit` and `FallbackNamesUnique` |
| `Costumes.CostumeFileName` | FontCreationTool.js:52 | every name ends in `.svg`; before it stands the character when it is file-name safe, and otherwise the position's `for...in` key `NatToString(i)`, digits that read back as the position with no leading zero |
| `Costumes.CostumePathInjective` | FontCreationTool.js:51-52 | two costume files have the same path (folder prefix, then name) exactly when they have the same folder and name |
| `Costumes.CostumeWrites` | FontCreationTool.js:47-55 | the reference for the costume loop: the writes of the first k positions in order, each replacing the file of the same name; at most k files; `CostumeWritesFiles`, `CostumeWritesLastWins` and `CostumeWritesContents` characterize it |
| `Costumes.CostumeWritesFiles` | FontCreationTool.js:42-55 | after the folder is emptied and the positions are written, every position's file exists and every file present is the file of some position |
| `Costumes.CostumeWritesLastWins` | FontCreationTool.js:47-55 | a position that no later position overwrites leaves its own costume (envelope, the glyph drawn at origin (240, 180) at font size 100 with a red fill, `</svg>`) in its file |
| `Costumes.CostumeWritesContents` | FontCreationTool.js:42-55 | every file present holds the costume of the last position mapped to it, and is in the uppercase folder iff that position's character is in the uppercase class |
| `Costumes.SafeDuplicatesShareFile` | FontCreationTool.js:52 | two occurrences of one file-name-safe character write the same file with the same content |
| `Costumes.UnsafeIndexShadowsDigit` | FontCreationTool.js:47-52 | an unsafe character at an index k below 10 and the digit k, in the same folder, write the same file |
| `Costumes.ShadowedCostumeExample` | FontCreationTool.js:47-55 | the custom charset `#0` leaves a single file, `all-other-costumes/0.svg`, holding the costume of `0`; the costume of `#` is lost |
| `Costumes.FallbackNamesUnique` | FontCreationTool.js:47-52 | if no unsafe character sits below index 10, two positions share a file only when they hold the same safe character |
| `Costumes.CostumeWritesCount` | FontCreationTool.js:47-55 | if no two positions map to the same file, there are as many files as positions |
| `Costumes.NoCollisions` | FontCreationTool.js:42-55 | with distinct characters and no unsafe character below index 10, there is one file per position, holding that position's costume |
| `Costumes.DefaultFallbackNamesUnique` | FontCreationTool.js:47-52 | in the default charset, positions meet in one file only when they hold the same safe character |
| `Costumes.DefaultCostumes` | FontCreationTool.js:12-55 | the default charset yields 95 files, each holding the costume of its own position |
| `Costumes.DefaultUnsafeCostume` | FontCreationTool.js:47-55 | a default character that is not file-name safe, such as `#`, gets its own file in the other folder, named after its position and holding its costume |
| `Kerning.KerningValueFor` | FontCreationTool.js:63-66 | the value of the pair (prev, cur): advance width of prev at size 1, kerning of the two glyphs, units per em; `KerningTableAt` puts it at p·n + c and `AdvanceWidthFromPrevious` shows the width ignores cur |
| `Kerning.KerningTable` | FontCreationTool.js:61-68 | the reference for the nested loops: the rows of each previous character in order, \|prevs\|·\|curs\| values; `KerningTableAt`, `KerningTableOrder` and `KerningLookup` give its order |
| `Kerning.KerningRowAt` | FontCreationTool.js:62-67 | the inner loop yields one value per current character, in charset order |
| `Kerning.KerningTableAt` | FontCreationTool.js:61-68 | the value at p·n + c is the value of the pair (chars[p], chars[c]): advance width of chars[p] at size 1, kerning of their two glyphs, units per em |
| `Kerning.KerningTableOrder` | FontCreationTool.js:61-68 | value k belongs to the previous character at k / n and the current character at k mod n, so the previous character varies slowest |
| `Kerning.KerningLookup` | FontCreationTool.js:157 | item (previousChar − 1)·n + currentChar (1-based) is the value of that pair, and its width term is that of the previous character |
| `Kerning.AdvanceWidthFromPrevious` | FontCreationTool.js:66 | all values of one row share the same advance-width term, whatever the current character |
| `Kerning.KerningOrderExample` | FontCreationTool.js:61-68 | for the charset `AB` the values come in the order (A,A), (A,B), (B,A), (B,B) |
| `FontData.FontDataFolder.Reset` | FontCreationTool.js:42-45 | the folder and both costume folders exist, empty; no kerning file is left |
| `FontData.FontDataFolder.EnsurePresent` | FontCreationTool.js:84-85 | the folder exists afterwards; an existing folder is untouched, a missing one is created empty |
| `FontData.FontDataFolder.WriteCostume` | FontCreationTool.js:50-54 | a costume write replaces the file of that name and changes nothing else |
| `FontData.FontDataFolder.WriteKerning` | FontCreationTool.js:70 | the kerning file holds the given values; nothing else changes |
| `FontData.CreateCostumes` | FontCreationTool.js:39-56 | the folder holds exactly the writes of the charset positions in order, the files are those the positions map to, and no kerning file or costume from an earlier run survives |
| `FontData.CreateKerning` | FontCreationTool.js:58-71 | `kerning.txt` holds the n² values of the table with the previous character outer and the current character inner; the costume files are untouched |
| `FontData.AskToCreateKerning` | FontCreationTool.js:83-94 | the folder exists afterwards (created empty if missing), and the result is the yes/no rule applied to the answer |

## Left out

- Interactive prompts (lines 24-31, 74-78, 87-91, 97-114): each answer is a parameter. A
  prompt cancelled with no answer, where the tool calls `toLowerCase` on `undefined` and
  fails, is not modelled.
- The font file name check and loading (`checkFontPath`, `getFont`, lines 17-37), and the
  folder name taken from the file name by `path.parse`: these rest on the file system and
  on Node's path library.
- The file system: `FontDataFolder` stands in for it. Write failures are not modelled.
  Nor is a safe character such as `/` or `:` typed into the letters, which some file
  systems reject (`:` on Windows) or read as a path separator (`/`, and `\` on Windows),
  so the file written is not the one the model names.
- opentype.js (`getPath`, `toSVG`, `charToGlyph`, `getAdvanceWidth`, `getKerningValue`,
  `unitsPerEm`): fields of `FontSource.Font`, left uninterpreted.
- Floating-point arithmetic in a kerning value and its decimal text with one value per
  line (line 66): a value is kept as its three operands.
- Full Unicode case mapping: `CaseMapping` maps only ASCII letters and keeps every string's
  length. JavaScript's `toUpperCase` can lengthen a string before `split('')` (line 108),
  and it also maps non-ASCII letters.
- The `run` driver and the closing console summary (lines 121-169), including the `reduce`
  at line 141.
- CharsetModel.CustomCharset and CharsetModel.CharsetState.AskForCharset: JavaScript's
  `split('')` (lines 108, 114) splits a string into UTF-16 code units, so a character outside
  the Basic Multilingual Plane (an emoji, say) becomes two lone-surrogate entries of
  `chars`: two index-named costumes and two extra kerning rows and columns. A Dafny
  `string` keeps it as one character, so every later index and fallback name differs.
