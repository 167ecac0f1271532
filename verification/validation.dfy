/** Upload policy: which file names and sizes may be uploaded as content, and which
    file names are accepted as thumbnails. */
module Validation {
  import Text

  /** The content formats: a generic archive and the Minecraft package formats. */
  const ALLOWED_EXTENSIONS: seq<string> := [".mcpack", ".zip", ".mcworld", ".mctemplate", ".mcaddon", ".tar"]

  /** The raster formats accepted for a thumbnail. */
  const ALLOWED_THUMBNAIL_EXTENSIONS: seq<string> := [".jpg", ".jpeg", ".png", ".webp"]

  /** 5 GiB. */
  const MAX_FILE_SIZE: int := 5 * 1024 * 1024 * 1024

  /** 5 MiB, the size of every chunk but the last. */
  const CHUNK_SIZE: int := 5 * 1024 * 1024

  datatype Category = Category(value: string, caption: string)

  const CATEGORIES: seq<Category> := [
    Category("mod", "Mod"),
    Category("skin", "Skin"),
    Category("world", "World"),
    Category("texture-pack", "Texture Pack"),
    Category("addon", "Add-on"),
    Category("template", "Template"),
    Category("other", "Other")
  ]

  /** Why a file name or size is refused. */
  datatype ValidationError =
    | NoExtension                      // "File has no extension."
    | UnsupportedFormat(ext: string)   // names the extension and lists ALLOWED_EXTENSIONS
    | FileTooLarge(size: int)          // names the size and the 5GB limit
    | UnsupportedThumbnail(ext: string) // names the extension and lists ALLOWED_THUMBNAIL_EXTENSIONS

  datatype Verdict = Valid | Invalid(error: ValidationError)

  /** `s.lastIndexOf(c)`: the position of the last `c`, or -1. */
  function LastIndexOf(s: string, c: char): (r: int)
    ensures -1 <= r < |s|
    ensures r != -1 ==> s[r] == c
  {
    if s == [] then -1
    else if s[|s| - 1] == c then |s| - 1
    else LastIndexOf(s[..|s| - 1], c)
  }

  /** -1 exactly when `c` does not occur; otherwise no `c` follows the found one. */
  lemma {:induction false} LastIndexOfShape(s: string, c: char)
    ensures LastIndexOf(s, c) == -1 <==> c !in s
    ensures forall j :: LastIndexOf(s, c) < j < |s| ==> s[j] != c
  {
    if s != [] && s[|s| - 1] != c {
      LastIndexOfShape(s[..|s| - 1], c);
      assert s == s[..|s| - 1] + [s[|s| - 1]];
    }
  }

  /** `getFileExtension`: the lower-cased tail from the last dot, or "" when there is no dot. */
  function FileExtension(filename: string): string
  {
    var lastDot := LastIndexOf(filename, '.');
    if lastDot == -1 then "" else Text.Lower(filename[lastDot..])
  }

  /** There is an extension exactly when the name holds a dot. */
  lemma FileExtensionEmpty(filename: string)
    ensures FileExtension(filename) == "" <==> '.' !in filename
  {
    LastIndexOfShape(filename, '.');
  }

  /** A non-empty extension is the lower-cased tail of the name from its last dot: it
      starts with the dot and holds no other. */
  lemma FileExtensionShape(filename: string)
    requires '.' in filename
    ensures var ext := FileExtension(filename);
            && |ext| >= 1
            && ext[0] == '.'
            && '.' !in ext[1..]
            && |ext| <= |filename|
            && filename[|filename| - |ext|] == '.'
            && '.' !in filename[|filename| - |ext| + 1..]
            && ext == Text.Lower(filename[|filename| - |ext|..])
  {
    LastIndexOfShape(filename, '.');
    var lastDot := LastIndexOf(filename, '.');
    var ext := Text.Lower(filename[lastDot..]);
    Text.LowerAt(filename[lastDot..]);
    assert ext[0] == '.';
    forall j | 1 <= j < |ext| ensures ext[j] != '.' {
      Text.LowerKeepsNonLetter(filename[lastDot..], '.', j);
    }
  }

  /** `validateContentFile`: extension present, then in the allow-list, then size. */
  function ValidateContentFile(filename: string, size: int): Verdict
  {
    var ext := FileExtension(filename);
    if ext == "" then Invalid(NoExtension)
    else if ext !in ALLOWED_EXTENSIONS then Invalid(UnsupportedFormat(ext))
    else if size > MAX_FILE_SIZE then Invalid(FileTooLarge(size))
    else Valid
  }

  /** `validateThumbnail`: the extension must be in the thumbnail allow-list. */
  function ValidateThumbnail(filename: string): Verdict
  {
    var ext := FileExtension(filename);
    if ext !in ALLOWED_THUMBNAIL_EXTENSIONS then Invalid(UnsupportedThumbnail(ext)) else Valid
  }

  /** A content file is accepted exactly when its extension is allowed and it is at most 5 GiB. */
  lemma ContentFileValidIff(filename: string, size: int)
    ensures ValidateContentFile(filename, size) == Valid
            <==> FileExtension(filename) in ALLOWED_EXTENSIONS && size <= MAX_FILE_SIZE
  {
    assert "" !in ALLOWED_EXTENSIONS;
  }

  /** The extension checks come first: a missing or unsupported extension is reported
      whatever the size, and a size error is only ever reported for an allowed extension. */
  lemma ExtensionCheckedBeforeSize(filename: string, size: int)
    ensures '.' !in filename ==> ValidateContentFile(filename, size) == Invalid(NoExtension)
    ensures '.' in filename && FileExtension(filename) !in ALLOWED_EXTENSIONS ==>
              ValidateContentFile(filename, size) == Invalid(UnsupportedFormat(FileExtension(filename)))
    ensures ValidateContentFile(filename, size).Invalid? && ValidateContentFile(filename, size).error.FileTooLarge? ==>
              FileExtension(filename) in ALLOWED_EXTENSIONS && size > MAX_FILE_SIZE
  {
    FileExtensionEmpty(filename);
  }

  /** The limit is inclusive: exactly 5368709120 bytes pass, one byte more does not. */
  lemma SizeBoundary(filename: string)
    requires FileExtension(filename) in ALLOWED_EXTENSIONS
    ensures MAX_FILE_SIZE == 5368709120
    ensures ValidateContentFile(filename, 5368709120) == Valid
    ensures ValidateContentFile(filename, 5368709121) == Invalid(FileTooLarge(5368709121))
  {
  }

  lemma {:induction false} LowerIdempotent(s: string)
    ensures Text.Lower(Text.Lower(s)) == Text.Lower(s)
  {
    Text.LowerAt(s);
    Text.LowerAt(Text.Lower(s));
    assert forall i :: 0 <= i < |s| ==> Text.LowerChar(Text.LowerChar(s[i])) == Text.LowerChar(s[i]);
  }

  lemma LowerSuffix(s: string, k: nat)
    requires k <= |s|
    ensures Text.Lower(s)[k..] == Text.Lower(s[k..])
    ensures Text.Lower(s)[..k] == Text.Lower(s[..k])
  {
    Text.LowerAt(s);
    Text.LowerAt(s[k..]);
    Text.LowerAt(s[..k]);
  }

  /** Lower-casing moves no dot, so the last dot stays where it was. */
  lemma {:induction false} LastDotIgnoresCase(s: string)
    ensures LastIndexOf(Text.Lower(s), '.') == LastIndexOf(s, '.')
  {
    if s != [] {
      var n := |s| - 1;
      Text.LowerKeepsNonLetter(s, '.', n);
      LowerSuffix(s, n);
      LastDotIgnoresCase(s[..n]);
    }
  }

  /** Matching ignores case: a name and its lower-cased form get the same extension. */
  lemma ExtensionIgnoresCase(filename: string)
    ensures FileExtension(Text.Lower(filename)) == FileExtension(filename)
  {
    LastDotIgnoresCase(filename);
    var k := LastIndexOf(filename, '.');
    if k != -1 {
      LowerSuffix(filename, k);
      LowerIdempotent(filename[k..]);
    }
  }

  /** So validation is case-insensitive. */
  lemma ValidationIgnoresCase(filename: string, size: int)
    ensures ValidateContentFile(Text.Lower(filename), size) == ValidateContentFile(filename, size)
    ensures ValidateThumbnail(Text.Lower(filename)) == ValidateThumbnail(filename)
  {
    ExtensionIgnoresCase(filename);
  }

  /** The last dot of "PACK.MCPACK" is its fifth character. */
  lemma UpperCaseNameDot()
    ensures LastIndexOf("PACK.MCPACK", '.') == 4
  {
    var name := "PACK.MCPACK";
    assert name[4] == '.';
    assert forall j :: 4 < j < |name| ==> name[j] != '.';
    LastIndexOfShape(name, '.');
  }

  /** "PACK.MCPACK" is accepted as an .mcpack file. */
  lemma UpperCaseNameAccepted(size: int)
    requires 0 <= size <= MAX_FILE_SIZE
    ensures FileExtension("PACK.MCPACK") == ".mcpack"
    ensures ValidateContentFile("PACK.MCPACK", size) == Valid
  {
    var name := "PACK.MCPACK";
    UpperCaseNameDot();
    assert name[4..] == ".MCPACK";
    assert Text.Lower(".MCPACK") == ".mcpack";
  }

  /** A thumbnail is accepted exactly for .jpg/.jpeg/.png/.webp in any case; a name
      without a dot is refused because "" is not in the list. */
  lemma ThumbnailValidIff(filename: string)
    ensures ValidateThumbnail(filename) == Valid <==> FileExtension(filename) in ALLOWED_THUMBNAIL_EXTENSIONS
    ensures '.' !in filename ==> ValidateThumbnail(filename) == Invalid(UnsupportedThumbnail(""))
  {
  }
}
