/** How the graphics importer reads a texture's file path: the folder it sits in
    decides whether it becomes a sprite frame, a background or nothing, and the
    file name is split into a sprite name and a frame number by the default frame
    pattern ^(.+?)(?:_(\d+))$. */
module SpriteNames {
  import opened Wrappers
  import opened Text

  datatype SpriteType = Sprite | Background | Font | Unknown

  /** Both Windows and Unix separators are accepted in paths. */
  predicate IsSeparator(c: char) {
    c == '/' || c == '\\'
  }

  predicate NoSeparator(s: string) {
    forall i :: 0 <= i < |s| ==> !IsSeparator(s[i])
  }

  /** The position just after the last separator of `s`, or 0 when there is none. */
  function AfterLastSeparator(s: string): (i: nat)
    ensures i <= |s| && NoSeparator(s[i..])
    ensures i > 0 ==> IsSeparator(s[i - 1])
  {
    if s == [] then 0
    else if IsSeparator(s[|s| - 1]) then |s|
    else AfterLastSeparator(s[..|s| - 1])
  }

  /** Path.GetFileName: the text after the last separator. */
  function FileName(path: string): string {
    path[AfterLastSeparator(path)..]
  }

  /** Path.GetDirectoryName: the text before the last separator, empty when the
      path has no separator. */
  function DirectoryName(path: string): string {
    var i := AfterLastSeparator(path);
    if i == 0 then "" else path[..i - 1]
  }

  /** Path.GetFileNameWithoutExtension: the file name up to its last '.'. */
  function FileStem(path: string): string {
    var name := FileName(path);
    var dot := LastIndexOf(name, '.');
    if dot < 0 then name else name[..dot]
  }

  /** The index of the last occurrence of `c` in `s`, or -1. */
  function LastIndexOf(s: string, c: char): (i: int)
    ensures -1 <= i < |s|
    ensures i >= 0 ==> s[i] == c
    ensures forall j :: i < j < |s| ==> s[j] != c
  {
    if s == [] then -1
    else if s[|s| - 1] == c then |s| - 1
    else LastIndexOf(s[..|s| - 1], c)
  }

  /** The folder names the importer recognises, already lower-cased. */
  function ClassifyFolder(lower: string): SpriteType {
    if lower == "backgrounds" || lower == "background" then Background
    else if lower == "fonts" || lower == "font" then Font
    else if lower == "sprites" || lower == "sprite" then Sprite
    else Unknown
  }

  /** GetSpriteType: the kind of a texture, from the name of the folder holding it,
      compared in lower case; Unknown for a path with no folder. */
  function GetSpriteType(path: string): SpriteType {
    var dir := DirectoryName(path);
    if dir == "" then Unknown else ClassifyFolder(Lower(FileName(dir)))
  }

  /** The kind Import acts on: with importUnknownAsSprite set, Unknown and Font
      textures are imported as sprites. */
  function ImportType(path: string, importUnknownAsSprite: bool): (t: SpriteType)
    ensures importUnknownAsSprite ==> t == Sprite || t == Background
    ensures !importUnknownAsSprite ==> t == GetSpriteType(path)
    ensures GetSpriteType(path) == Background <==> t == Background
  {
    var t := GetSpriteType(path);
    if importUnknownAsSprite && (t == Unknown || t == Font) then Sprite else t
  }

  lemma {:induction false} AfterSeparatorAppend(p: string, sep: char, name: string)
    requires IsSeparator(sep) && NoSeparator(name)
    ensures AfterLastSeparator(p + [sep] + name) == |p| + 1
    decreases |name|
  {
    var s := p + [sep] + name;
    if name == [] {
      assert s[|s| - 1] == sep;
    } else {
      var shorter := name[..|name| - 1];
      AfterSeparatorAppend(p, sep, shorter);
      assert s[..|s| - 1] == p + [sep] + shorter;
      assert s[|s| - 1] == name[|name| - 1];
    }
  }

  /** A texture at folder/file under any root is classified by the folder's name
      alone, ignoring its case. */
  lemma TypeOfFolder(root: string, sep: char, folder: string, file: string)
    requires IsSeparator(sep) && folder != [] && NoSeparator(folder) && NoSeparator(file)
    ensures GetSpriteType(root + [sep] + folder + [sep] + file) == ClassifyFolder(Lower(folder))
  {
    var dir := root + [sep] + folder;
    var path := dir + [sep] + file;
    AfterSeparatorAppend(dir, sep, file);
    assert DirectoryName(path) == dir;
    AfterSeparatorAppend(root, sep, folder);
    assert FileName(dir) == folder;
  }

  /** An illustration of TypeOfFolder's case folding: "Sprites", "SPRITE",
      "Backgrounds" and "fonts" are recognised, "sprites2" is not. */
  lemma FolderCase()
    ensures ClassifyFolder(Lower("Sprites")) == Sprite
    ensures ClassifyFolder(Lower("SPRITE")) == Sprite
    ensures ClassifyFolder(Lower("Backgrounds")) == Background
    ensures ClassifyFolder(Lower("fonts")) == Font
    ensures ClassifyFolder(Lower("sprites2")) == Unknown
  {
    assert Lower("Sprites") == "sprites";
    assert Lower("SPRITE") == "sprite";
    assert Lower("Backgrounds") == "backgrounds";
    assert Lower("fonts") == "fonts";
    assert Lower("sprites2") == "sprites2";
  }

  // ---------------------------------------------------------------------------
  // The default frame pattern ^(.+?)(?:_(\d+))$

  /** The two groups of the default frame pattern on a file stem, or None when it
      does not match. The lazy first group can only end at the last '_', because
      the digits after the '_' it ends at contain no '_'; it must be non-empty and,
      like any '.', may not hold a line break. */
  function MatchFrame(stem: string): (m: Option<(string, string)>)
    ensures m.Some? ==> AllDigits(m.value.1)
  {
    var u := LastIndexOf(stem, '_');
    if u >= 1 && u + 1 < |stem| && AllDigits(stem[u + 1..]) && '\n' !in stem[..u] then
      Some((stem[..u], stem[u + 1..]))
    else None
  }

  /** What a match says: the stem is the name, '_' and the digits. */
  lemma MatchFrameParts(stem: string)
    requires MatchFrame(stem).Some?
    ensures var (name, digits) := MatchFrame(stem).value;
      stem == name + "_" + digits && name != [] && '\n' !in name && digits != [] && AllDigits(digits)
  {
    var u := LastIndexOf(stem, '_');
    assert stem == stem[..u] + "_" + stem[u + 1..];
  }

  /** Conversely, a name without line breaks, '_' and a digit string always match,
      with the name and the digits as the two groups, even when the name itself
      holds underscores. */
  lemma {:induction false} MatchFrameOf(name: string, digits: string)
    requires name != [] && '\n' !in name && digits != [] && AllDigits(digits)
    ensures MatchFrame(name + "_" + digits) == Some((name, digits))
  {
    var stem := name + "_" + digits;
    var u := LastIndexOf(stem, '_');
    forall j | |name| < j < |stem| ensures stem[j] != '_' {
      assert stem[j] == digits[j - |name| - 1];
    }
    assert stem[|name|] == '_';
    assert u == |name|;
    assert stem[..u] == name && stem[u + 1..] == digits;
  }

  /** The sprite name and frame Import takes from a file stem: the pattern's groups,
      the frame being 0 when the digits do not fit an Int32; the empty name (and
      frame 0) when the pattern does not match, a file Import then skips. */
  function SpriteFrameOf(stem: string): (r: (string, nat))
    ensures MatchFrame(stem).None? ==> r == ("", 0)
    ensures r.1 <= Int32Max
  {
    match MatchFrame(stem)
    case None => ("", 0)
    case Some((name, digits)) =>
      match TryParseInt32Digits(digits)
      case Some(frame) => (name, frame)
      case None => (name, 0)
  }

  /** Writing a sprite's frame file name and reading it back gives the sprite and
      the frame again. */
  lemma FrameNameRoundTrip(name: string, frame: nat)
    requires name != [] && '\n' !in name && frame <= Int32Max
    ensures SpriteFrameOf(name + "_" + DecimalOf(frame)) == (name, frame)
  {
    MatchFrameOf(name, DecimalOf(frame));
    DecimalRoundTrip(frame);
  }
}
