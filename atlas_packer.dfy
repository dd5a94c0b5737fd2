/** The packer objects of the graphics and font importers: the scan that turns the
    image files into textures, LayoutAtlas filling one page in place, and Process
    producing the pages. Each method is proved to compute what the functions of
    AtlasLayout describe. */
module AtlasPacker {
  import opened Wrappers
  import opened Geometry
  import opened AtlasLayout
  import opened SpriteNames

  /** Which copy of the packer: the graphics importer trims its textures, the font
      importer does not. */
  datatype PackerKind = GraphicsPacker | FontPacker

  /** An image file found by the scan, as the image library reports it: its size
      (-1 for a side the library could not read) and, for the graphics importer,
      the bounding box of its visible pixels once a 1-pixel transparent border is
      added around it (None for a fully transparent image). */
  datatype ImageFile = ImageFile(path: string, width: int, height: int, content: Option<Rect>)

  /** What the image library guarantees about a file: a side it cannot read is
      -1; a readable image has positive sides, and its content box lies inside the
      bordered image without touching the border. Both copies of the scan may meet
      unreadable files. */
  predicate WellFormed(f: ImageFile, kind: PackerKind) {
    (f.width == -1 || f.height == -1) ||
    (f.width >= 1 && f.height >= 1 &&
     (kind == GraphicsPacker && f.content.Some? ==>
        var b := f.content.value;
        1 <= b.x && 1 <= b.y && 1 <= b.width && 1 <= b.height &&
        b.x + b.width <= f.width + 1 && b.y + b.height <= f.height + 1))
  }

  /** The scan's test for taking a file: a file whose size cannot be read is
      skipped, and so is an image larger than the page. The graphics copy makes
      both tests; the font copy makes only the second, see AdmitsAsWritten. */
  predicate Admits(f: ImageFile, atlasSize: int) {
    f.width != -1 && f.height != -1 && f.width <= atlasSize && f.height <= atlasSize
  }

  /** The test each copy of ScanForTextures makes as written: the font copy does
      not skip a file whose size cannot be read. */
  predicate AdmitsAsWritten(f: ImageFile, kind: PackerKind, atlasSize: int) {
    (kind == GraphicsPacker ==> f.width != -1 && f.height != -1) &&
    f.width <= atlasSize && f.height <= atlasSize
  }

  /** The texture ScanForTextures makes of an admitted file. The graphics copy
      trims every image but backgrounds to its content box, remembering where the
      box sat, and makes a fully transparent image 1 x 1; the bounding size is the
      untrimmed one. The font copy keeps the whole image. */
  function TextureOf(f: ImageFile, kind: PackerKind): (t: Texture)
    requires WellFormed(f, kind) && f.width >= 0 && f.height >= 0
    ensures t.source == f.path && t.boundingWidth == f.width && t.boundingHeight == f.height
    ensures 1 <= t.width && t.targetX + t.width <= t.boundingWidth
    ensures 1 <= t.height && t.targetY + t.height <= t.boundingHeight
    ensures kind == FontPacker || GetSpriteType(f.path) == Background ==>
      t.width == f.width && t.height == f.height && t.targetX == 0 && t.targetY == 0
  {
    if kind == FontPacker || GetSpriteType(f.path) == Background then
      Texture(f.path, f.width, f.height, 0, 0, f.width, f.height)
    else
      match f.content
      case Some(b) => Texture(f.path, b.width, b.height, b.x - 1, b.y - 1, f.width, f.height)
      case None => Texture(f.path, 1, 1, 0, 0, f.width, f.height)
  }

  /** The textures a scan of `files` adds, in file order. */
  function Scan(files: seq<ImageFile>, kind: PackerKind, atlasSize: int): (ts: seq<Texture>)
    requires forall i :: 0 <= i < |files| ==> WellFormed(files[i], kind)
    ensures Packable(ts, atlasSize)
    ensures |ts| <= |files|
  {
    if files == [] then []
    else
      var rest := Scan(files[1..], kind, atlasSize);
      if Admits(files[0], atlasSize) then [TextureOf(files[0], kind)] + rest else rest
  }

  /** The scan keeps exactly the admitted files: an admitted file's texture is in
      the result, and every texture in the result comes from an admitted file. */
  lemma ScanKeepsAdmitted(files: seq<ImageFile>, kind: PackerKind, atlasSize: int)
    requires forall i :: 0 <= i < |files| ==> WellFormed(files[i], kind)
    ensures forall i :: 0 <= i < |files| && Admits(files[i], atlasSize) ==>
      TextureOf(files[i], kind) in Scan(files, kind, atlasSize)
    ensures forall t :: t in Scan(files, kind, atlasSize) ==>
      exists i :: 0 <= i < |files| && Admits(files[i], atlasSize) && t == TextureOf(files[i], kind)
  {
    forall i | 0 <= i < |files| && Admits(files[i], atlasSize)
      ensures TextureOf(files[i], kind) in Scan(files, kind, atlasSize)
    {
      ScanHasAdmitted(files, kind, atlasSize, i);
    }
    forall t | t in Scan(files, kind, atlasSize)
      ensures exists i :: 0 <= i < |files| && Admits(files[i], atlasSize) && t == TextureOf(files[i], kind)
    {
      var i := ScanSourceOf(files, kind, atlasSize, t);
    }
  }

  /** An admitted file's texture is in the scan. */
  lemma {:induction false} ScanHasAdmitted(files: seq<ImageFile>, kind: PackerKind, atlasSize: int, i: nat)
    requires forall j :: 0 <= j < |files| ==> WellFormed(files[j], kind)
    requires i < |files| && Admits(files[i], atlasSize)
    ensures TextureOf(files[i], kind) in Scan(files, kind, atlasSize)
  {
    var rest := Scan(files[1..], kind, atlasSize);
    assert Scan(files, kind, atlasSize) ==
      (if Admits(files[0], atlasSize) then [TextureOf(files[0], kind)] else []) + rest;
    if i > 0 {
      ScanHasAdmitted(files[1..], kind, atlasSize, i - 1);
      assert files[1..][i - 1] == files[i];
    }
  }

  /** Every texture of the scan is the texture of an admitted file. */
  lemma {:induction false} ScanSourceOf(files: seq<ImageFile>, kind: PackerKind, atlasSize: int, t: Texture)
    returns (i: nat)
    requires forall j :: 0 <= j < |files| ==> WellFormed(files[j], kind)
    requires t in Scan(files, kind, atlasSize)
    ensures i < |files| && Admits(files[i], atlasSize) && t == TextureOf(files[i], kind)
  {
    if Admits(files[0], atlasSize) && t == TextureOf(files[0], kind) {
      i := 0;
    } else {
      var j := ScanSourceOf(files[1..], kind, atlasSize, t);
      assert files[1..][j] == files[j + 1];
      i := j + 1;
    }
  }

  /** The scan from file i on: file i's texture if it is admitted, then the scan
      of the files after it. */
  lemma ScanFrom(files: seq<ImageFile>, kind: PackerKind, atlasSize: int, i: nat)
    requires forall j :: 0 <= j < |files| ==> WellFormed(files[j], kind)
    requires i < |files|
    ensures Scan(files[i..], kind, atlasSize) ==
      (if Admits(files[i], atlasSize) then [TextureOf(files[i], kind)] else []) + Scan(files[i + 1..], kind, atlasSize)
  {
    assert files[i..][1..] == files[i + 1..];
  }

  // ---------------------------------------------------------------------------
  // The font copy's scan as written: a glyph sheet whose size cannot be read

  /** FindBestFitForNode's Area test as the font copy evaluates it on the sides its
      scan stored, which may be -1: the texture fits the node and its coverage, the
      float quotient textureArea / nodeArea, is above 0. A positive texture area
      over a zero node area is +Infinity; a zero texture area gives 0 or NaN. */
  predicate ChosenAsWritten(width: int, height: int, node: Rect) {
    width <= node.width && height <= node.height &&
    var textureArea := width * height;
    var nodeArea := node.width * node.height;
    (textureArea > 0 && nodeArea >= 0) || (textureArea < 0 && nodeArea < 0)
  }

  /** On the textures of the corrected scan, the test as written is the model's:
      the texture fits and has a positive area. */
  lemma ChosenAsWrittenAgrees(t: Texture, node: Rect)
    ensures ChosenAsWritten(t.width, t.height, node) <==> Fits(t, node) && Area(t) > 0
  {
    if Fits(t, node) && Area(t) > 0 {
      assert t.width >= 1 && t.height >= 1;
      MulPositive(node.width, node.height);
    }
  }

  lemma MulPositive(a: int, b: int)
    requires a >= 1 && b >= 1
    ensures a * b >= 1
  {
  }

  /** The leftovers LayoutAtlas returns for a single texture of these sides on a
      size x size page: the root is the only node it is tried on, since the loop
      stops once the texture is placed or the queue is empty. */
  function SingleLeftoversAsWritten(width: int, height: int, size: int): nat {
    if ChosenAsWritten(width, height, Page(size, size)) then 0 else 1
  }

  /** Font copy, a glyph sheet whose size reads as -1 x -1: the scan as written
      takes it, since -1 is no larger than the page, while the corrected scan
      skips it. When it is the last texture left, every size the halving loop of
      the last page reaches, down to 0 and from 0 to 0 / 2 = 0 again, places it, so
      the loop that waits for leftovers never ends. */
  lemma UnreadableSheetNeverLeftOver(path: string, atlasSize: nat)
    ensures var f := ImageFile(path, -1, -1, None);
      WellFormed(f, FontPacker) && AdmitsAsWritten(f, FontPacker, atlasSize) && !Admits(f, atlasSize)
    ensures forall h :: h in Halvings(atlasSize) ==>
      h / 2 in Halvings(atlasSize) && SingleLeftoversAsWritten(-1, -1, h) == 0
  {
    forall h | h in Halvings(atlasSize)
      ensures h / 2 in Halvings(atlasSize) && SingleLeftoversAsWritten(-1, -1, h) == 0
    {
      HalvingsClosed(atlasSize, h);
    }
  }

  /** A page of the atlas: its size and its nodes once laid out. */
  class Atlas {
    var Width: int
    var Height: int
    var Nodes: seq<Node>

    constructor (size: int)
      ensures Width == size && Height == size && Nodes == []
    {
      Width := size;
      Height := size;
      Nodes := [];
    }
  }

  /** The atlas is the page: its size and its nodes. */
  predicate Holds(atlas: Atlas, page: Sheet)
    reads atlas
  {
    atlas.Width == page.size && atlas.Height == page.size && atlas.Nodes == page.layout.nodes
  }

  /** Each atlas is the page at the same position. */
  ghost predicate HoldsAll(atlasses: seq<Atlas>, pages: seq<Sheet>)
    reads atlasses
  {
    |atlasses| == |pages| && forall k :: 0 <= k < |pages| ==> Holds(atlasses[k], pages[k])
  }

  /** The atlasses appended so far are the first pages of `pages`, and the pages
      of the textures still to pack are the others. */
  ghost predicate PackedSoFar(atlasses: seq<Atlas>, pages: seq<Sheet>, rest: seq<Texture>, size: int, padding: int)
    reads atlasses
  {
    |atlasses| <= |pages| && Packable(rest, size) &&
    Paginate(rest, size, padding) == pages[|atlasses|..] &&
    HoldsAll(atlasses, pages[..|atlasses|])
  }

  lemma HoldsAllAppend(atlasses: seq<Atlas>, pages: seq<Sheet>, atlas: Atlas, page: Sheet)
    requires HoldsAll(atlasses, pages) && Holds(atlas, page)
    ensures HoldsAll(atlasses + [atlas], pages + [page])
  {
  }

  class Packer {
    const Kind: PackerKind
    var SourceTextures: seq<Texture>
    var Padding: int
    var AtlasSize: int
    var Atlasses: seq<Atlas>

    constructor (kind: PackerKind)
      ensures Kind == kind && SourceTextures == [] && Atlasses == []
    {
      Kind := kind;
      SourceTextures := [];
      Atlasses := [];
    }

    /** Appends the texture of every admitted file to SourceTextures. */
    method ScanForTextures(files: seq<ImageFile>)
      requires forall i :: 0 <= i < |files| ==> WellFormed(files[i], Kind)
      modifies this`SourceTextures
      ensures SourceTextures == old(SourceTextures) + Scan(files, Kind, AtlasSize)
    {
      ghost var all := old(SourceTextures) + Scan(files, Kind, AtlasSize);
      var i := 0;
      while i < |files|
        invariant 0 <= i <= |files|
        invariant SourceTextures + Scan(files[i..], Kind, AtlasSize) == all
      {
        var f := files[i];
        ScanFrom(files, Kind, AtlasSize, i);
        ghost var tail := Scan(files[i + 1..], Kind, AtlasSize);
        if Admits(f, AtlasSize) {
          var t := TextureOf(f, Kind);
          assert SourceTextures + ([t] + tail) == (SourceTextures + [t]) + tail;
          SourceTextures := SourceTextures + [t];
        } else {
          assert SourceTextures + ([] + tail) == SourceTextures + tail;
        }
        i := i + 1;
      }
      assert files[i..] == [];
    }

    /** The texture FindBestFitForNode picks for a free node: one pass over the
        textures keeping the first one of largest area that fits. */
    method FindBestFitForNode(node: Node, textures: seq<Texture>) returns (best: Option<nat>)
      ensures best == BestFit(node.bounds, textures)
      ensures best.Some? ==> best.value < |textures| && Fits(textures[best.value], node.bounds)
    {
      best := None;
      var maxArea := 0;
      var k := 0;
      while k < |textures|
        invariant k <= |textures| && BestSoFar(node.bounds, textures, k, best, maxArea)
        invariant BestFitFrom(node.bounds, textures, k, best, maxArea) == BestFit(node.bounds, textures)
      {
        var t := textures[k];
        if Fits(t, node.bounds) && Area(t) > maxArea {
          best := Some(k);
          maxArea := Area(t);
        }
        k := k + 1;
      }
      BestFitIsBest(node.bounds, textures);
    }

    /** Lays `textures` out on `atlas` at its current size: Nodes becomes the
        page's nodes and the textures that found no place are returned. */
    method LayoutAtlas(textures: seq<Texture>, atlas: Atlas) returns (leftovers: seq<Texture>)
      modifies atlas`Nodes
      ensures var layout := Layout(textures, atlas.Width, atlas.Height, Padding);
        atlas.Nodes == layout.nodes && leftovers == layout.textures
    {
      var free := [Root(atlas.Width, atlas.Height)];
      leftovers := textures;
      atlas.Nodes := [];
      while free != [] && leftovers != []
        invariant Run(LayoutState(free, leftovers, atlas.Nodes), Padding)
               == Layout(textures, atlas.Width, atlas.Height, Padding)
        decreases |leftovers|, |free|
      {
        ghost var s := LayoutState(free, leftovers, atlas.Nodes);
        var node := free[0];
        free := free[1..];
        var bestFit := FindBestFitForNode(node, leftovers);
        if bestFit.Some? {
          var t := leftovers[bestFit.value];
          free := free + Split(node, t, Padding);
          atlas.Nodes := atlas.Nodes + [Node(PlacedRect(node.bounds, t), Some(t), node.split)];
          leftovers := RemoveAt(leftovers, bestFit.value);
        } else {
          atlas.Nodes := atlas.Nodes + [node];
        }
        assert LayoutState(free, leftovers, atlas.Nodes) == Step(s, Padding);
      }
    }

    /** The last page: halves `atlas` while it still holds every texture, then
        goes back to the last size that did and lays the textures out there. */
    method ShrinkLastAtlas(textures: seq<Texture>, atlas: Atlas) returns (leftovers: seq<Texture>)
      requires textures != [] && atlas.Width == atlas.Height >= 0
      requires Layout(textures, atlas.Width, atlas.Height, Padding).textures == []
      modifies atlas
      ensures atlas.Width == atlas.Height == ShrinkFrom(textures, old(atlas.Width), Padding)
      ensures atlas.Nodes == Layout(textures, atlas.Width, atlas.Height, Padding).nodes
      ensures leftovers == []
    {
      ghost var size: nat := atlas.Width;
      leftovers := [];
      var fitSize: int := atlas.Width;
      while leftovers == []
        invariant atlas.Width == atlas.Height && 0 <= atlas.Width <= size
        invariant leftovers == Layout(textures, atlas.Width, atlas.Height, Padding).textures
        invariant leftovers == [] ==>
          ShrinkFrom(textures, size, Padding) == ShrinkFrom(textures, atlas.Width, Padding)
        invariant leftovers != [] ==>
          1 <= fitSize && Layout(textures, fitSize, fitSize, Padding).textures == [] &&
          ShrinkFrom(textures, size, Padding) == ShrinkFrom(textures, fitSize, Padding) &&
          atlas.Width == fitSize / 2
        decreases atlas.Width
      {
        FittingPageIsPositive(textures, atlas.Width, atlas.Height, Padding);
        fitSize := atlas.Width;
        atlas.Width := atlas.Width / 2;
        atlas.Height := atlas.Height / 2;
        leftovers := LayoutAtlas(textures, atlas);
      }
      atlas.Width := fitSize;
      atlas.Height := fitSize;
      leftovers := LayoutAtlas(textures, atlas);
    }

    /** Scans `files` and packs every texture onto pages: full pages of
        atlasSize x atlasSize while a full page leaves textures over, then a last
        page halved as long as it still holds the rest. The pages are exactly those
        of Paginate. */
    method Process(files: seq<ImageFile>, atlasSize: int, padding: int)
      requires forall i :: 0 <= i < |files| ==> WellFormed(files[i], Kind)
      requires Packable(SourceTextures, atlasSize)
      modifies this
      ensures Padding == padding && AtlasSize == atlasSize
      ensures SourceTextures == old(SourceTextures) + Scan(files, Kind, atlasSize)
      ensures HoldsAll(Atlasses, Paginate(SourceTextures, atlasSize, padding))
    {
      Padding := padding;
      AtlasSize := atlasSize;
      ScanForTextures(files);
      Atlasses := [];
      PackAll(SourceTextures);
    }

    /** The page loop of Process: appends to Atlasses the pages of Paginate, one
        per pass. */
    method PackAll(textures: seq<Texture>)
      requires Packable(textures, AtlasSize)
      modifies this`Atlasses
      ensures |old(Atlasses)| <= |Atlasses| && Atlasses[..|old(Atlasses)|] == old(Atlasses)
      ensures HoldsAll(Atlasses[|old(Atlasses)|..], Paginate(textures, AtlasSize, Padding))
    {
      ghost var size, padding := AtlasSize, Padding;
      ghost var pages := Paginate(textures, size, padding);
      ghost var start := |Atlasses|;
      var rest := textures;
      assert Atlasses[start..] == [] && pages[..0] == [];
      while rest != []
        invariant start <= |Atlasses| && Atlasses[..start] == old(Atlasses)
        invariant PackedSoFar(Atlasses[start..], pages, rest, size, padding)
        decreases |rest|
      {
        rest := PackNext(rest, pages, start, size, padding);
      }
      assert pages[..|Atlasses| - start] == pages;
    }

    /** One pass of the page loop: packs the next page and appends it. */
    method PackNext(rest: seq<Texture>, ghost pages: seq<Sheet>, ghost start: nat, ghost size: int, ghost padding: int)
      returns (leftovers: seq<Texture>)
      requires size == AtlasSize && padding == Padding
      requires rest != [] && start <= |Atlasses| && PackedSoFar(Atlasses[start..], pages, rest, size, padding)
      modifies this`Atlasses
      ensures start <= |Atlasses| && PackedSoFar(Atlasses[start..], pages, leftovers, size, padding)
      ensures |leftovers| < |rest| && Atlasses[..start] == old(Atlasses)[..start]
    {
      ghost var before := Atlasses[start..];
      ghost var n := |before|;
      var atlas;
      atlas, leftovers := PackPage(rest, size, padding);
      HoldsAllAppend(before, pages[..n], atlas, pages[n]);
      ghost var prefix := Atlasses[..start];
      Atlasses := Atlasses + [atlas];
      assert Atlasses[start..] == before + [atlas];
      assert Atlasses[..start] == prefix;
      assert pages[..n + 1] == pages[..n] + [pages[n]];
      assert pages[n..][1..] == pages[n + 1..];
    }

    /** One pass of Process' loop: a new page at the full size; if it holds every
        texture, shrink it as the last page. The page is the first of Paginate and
        the textures it leaves over give the rest. */
    method PackPage(textures: seq<Texture>, ghost size: int, ghost padding: int)
      returns (atlas: Atlas, leftovers: seq<Texture>)
      requires size == AtlasSize && padding == Padding
      requires textures != [] && Packable(textures, size)
      ensures var pages := Paginate(textures, size, padding);
        Holds(atlas, pages[0]) &&
        |leftovers| < |textures| && Packable(leftovers, size) &&
        Paginate(leftovers, size, padding) == pages[1..]
    {
      PaginateFirst(textures, AtlasSize, Padding);
      ghost var rest := Paginate(textures, AtlasSize, Padding);
      atlas := new Atlas(AtlasSize);
      leftovers := LayoutAtlas(textures, atlas);
      if leftovers == [] {
        leftovers := ShrinkLastAtlas(textures, atlas);
        assert rest == [Sheet(atlas.Width, textures, Layout(textures, atlas.Width, atlas.Width, Padding))];
      } else {
        assert rest == [Sheet(AtlasSize, textures, Layout(textures, AtlasSize, AtlasSize, Padding))]
                     + Paginate(leftovers, AtlasSize, Padding);
      }
    }
  }
}
