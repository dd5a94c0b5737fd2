/** How the graphics importer turns each placed node of an atlas page into game
    data: a texture page item, then, by the node's folder, a background or a frame
    of a sprite. A sprite's frame slots, size and margins are updated in place,
    and the sprite is queued for a new collision mask when its shape changed;
    once the page is done every queued sprite gets exactly one mask, encoded
    from the page's alpha channel.

    The game data's tables are maps from name to entry; UndertaleModLib's
    ByName is the lookup. The custom properties read from the configuration
    are an optional record per sprite name. */
module SpriteImport {
  import opened Wrappers
  import opened Geometry
  import opened AtlasLayout
  import opened SpriteNames
  import opened CollisionMask

  datatype SepMaskType = AxisAlignedRect | Precise | RotatedRect

  /** A texture page item: where a frame sits on an atlas page. */
  datatype PageItem = PageItem(sourceX: nat, sourceY: nat, sourceWidth: nat, sourceHeight: nat,
                               targetX: nat, targetY: nat, targetWidth: nat, targetHeight: nat,
                               boundingWidth: nat, boundingHeight: nat, page: nat)

  /** The C# cast to ushort: the value modulo 2^16. */
  function UShort(v: int): (r: nat)
    ensures r < 0x1_0000 && (r - v) % 0x1_0000 == 0
    ensures 0 <= v < 0x1_0000 ==> r == v
  {
    v % 0x1_0000
  }

  /** The page item of a placed node: its bounds as source and target rectangle,
      the texture's offset and untrimmed size, each cast to ushort. */
  function PageItemOf(n: Node, page: nat): (item: PageItem)
    requires n.texture.Some?
    ensures (0 <= n.bounds.x && 0 <= n.bounds.y && NonNegative(n.bounds) &&
             n.bounds.x + n.bounds.width < 0x1_0000 && n.bounds.y + n.bounds.height < 0x1_0000) ==>
      item.sourceX == n.bounds.x && item.sourceY == n.bounds.y &&
      item.sourceWidth == item.targetWidth == n.bounds.width &&
      item.sourceHeight == item.targetHeight == n.bounds.height
    ensures n.texture.value.targetX < 0x1_0000 ==> item.targetX == n.texture.value.targetX
    ensures n.texture.value.targetY < 0x1_0000 ==> item.targetY == n.texture.value.targetY
    ensures n.texture.value.boundingWidth < 0x1_0000 ==> item.boundingWidth == n.texture.value.boundingWidth
    ensures n.texture.value.boundingHeight < 0x1_0000 ==> item.boundingHeight == n.texture.value.boundingHeight
    ensures item.page == page
  {
    var t := n.texture.value;
    PageItem(UShort(n.bounds.x), UShort(n.bounds.y), UShort(n.bounds.width), UShort(n.bounds.height),
             UShort(t.targetX), UShort(t.targetY), UShort(n.bounds.width), UShort(n.bounds.height),
             UShort(t.boundingWidth), UShort(t.boundingHeight), page)
  }

  datatype Background = Background(texture: PageItem, transparent: bool, preload: bool)

  /** The custom properties of one sprite: each present value replaces the field. */
  datatype Overrides = Overrides(width: Option<nat>, height: Option<nat>,
                                 marginLeft: Option<int>, marginRight: Option<int>,
                                 marginTop: Option<int>, marginBottom: Option<int>,
                                 transparent: Option<bool>,
                                 originX: Option<int>, originY: Option<int>)

  function Pick<T>(o: Option<T>, current: T): T {
    if o.Some? then o.value else current
  }

  /** The custom properties of a sprite without an entry in the configuration. */
  function Custom(custom: Option<Overrides>): Overrides {
    Pick(custom, Overrides(None, None, None, None, None, None, None, None, None))
  }

  /** The custom properties the configuration gives sprite `name`, if any. */
  function PropsOf(custom: map<string, Overrides>, name: string): Option<Overrides> {
    if name in custom then Some(custom[name]) else None
  }

  // ---------------------------------------------------------------------------
  // Frame slots

  /** The slots of a new sprite: `frame` empty slots, then the frame. */
  function NewSlots(frame: nat, entry: PageItem): (slots: seq<Option<PageItem>>)
    ensures |slots| == frame + 1 && slots[frame] == Some(entry)
    ensures forall i :: 0 <= i < frame ==> slots[i] == None
  {
    seq(frame, _ => None) + [Some(entry)]
  }

  /** The slots of an existing sprite after adding `frame`: a frame past the end
      grows the list up to it, every new slot holding this frame; otherwise only
      slot `frame` is replaced. */
  function FrameSlots(slots: seq<Option<PageItem>>, frame: nat, entry: PageItem): (r: seq<Option<PageItem>>)
    ensures frame < |slots| ==> |r| == |slots|
    ensures frame >= |slots| ==> |r| == frame + 1
    ensures r[frame] == Some(entry)
    ensures forall i :: 0 <= i < |slots| && i != frame ==> r[i] == slots[i]
    ensures forall i :: |slots| <= i < |r| ==> r[i] == Some(entry)
  {
    if frame < |slots| then slots[frame := Some(entry)]
    else slots + seq(frame + 1 - |slots|, _ => Some(entry))
  }

  // ---------------------------------------------------------------------------
  // Margins

  datatype Margins = Margins(left: int, right: int, top: int, bottom: int)

  function OverriddenMargins(o: Overrides, m: Margins): Margins {
    Margins(Pick(o.marginLeft, m.left), Pick(o.marginRight, m.right),
            Pick(o.marginTop, m.top), Pick(o.marginBottom, m.bottom))
  }

  /** `outer` contains `inner`. */
  predicate Covers(outer: Margins, inner: Margins) {
    outer.left <= inner.left && outer.top <= inner.top &&
    inner.right <= outer.right && inner.bottom <= outer.bottom
  }

  /** The margins a frame asks for: the whole image with BBoxMode 1, otherwise
      the frame's trimmed extent within its image. */
  function FrameMargins(bboxMode: int, width: nat, height: nat, t: Texture, bounds: Rect): Margins {
    if bboxMode == 1 then Margins(0, width - 1, 0, height - 1)
    else Margins(t.targetX, t.targetX + bounds.width - 1, t.targetY, t.targetY + bounds.height - 1)
  }

  /** The margins grown to take in `target`: the smallest box covering both. */
  function Hull(m: Margins, target: Margins): (r: Margins)
    ensures Covers(r, m) && Covers(r, target)
    ensures forall b :: Covers(b, m) && Covers(b, target) ==> Covers(b, r)
    ensures r != m <==> target.left < m.left || target.top < m.top ||
                        target.right > m.right || target.bottom > m.bottom
  {
    Margins(if target.left < m.left then target.left else m.left,
            if target.right > m.right then target.right else m.right,
            if target.top < m.top then target.top else m.top,
            if target.bottom > m.bottom then target.bottom else m.bottom)
  }

  /** Growing twice toward the same frame changes nothing the second time. */
  lemma HullIdempotent(m: Margins, target: Margins)
    ensures Hull(Hull(m, target), target) == Hull(m, target)
  {
    var r := Hull(m, target);
    assert Covers(r, target);
  }

  // ---------------------------------------------------------------------------
  // The collision-mask decision

  /** Whether the sprite takes part in mask generation at all: before GameMaker
      2022.9 always; from then on only for a precise sprite or one that already
      has masks. */
  predicate MaskEligible(noMasksForBasicRectangles: bool, sepMasks: SepMaskType, maskCount: nat) {
    !noMasksForBasicRectangles || !(sepMasks == AxisAlignedRect || sepMasks == RotatedRect) || maskCount > 0
  }

  /** Whether a replaced frame asks for a new mask: its bounding box grew (with
      bounding-box masks), a precise sprite has none yet, or the sprite's size
      changed (without bounding-box masks). */
  predicate MaskWanted(bboxMasks: bool, grew: bool, sepMasks: SepMaskType, maskCount: nat, changedSize: bool) {
    (bboxMasks && grew) || (sepMasks == Precise && maskCount == 0) || (!bboxMasks && changedSize)
  }

  /** A precise sprite without a mask is always queued, whatever the version. */
  lemma PreciseWithoutMaskIsQueued(noMasks: bool, bboxMasks: bool, grew: bool, changedSize: bool)
    ensures MaskEligible(noMasks, Precise, 0) && MaskWanted(bboxMasks, grew, Precise, 0, changedSize)
  {
  }

  // ---------------------------------------------------------------------------
  // A sprite

  class Sprite {
    var Width: nat
    var Height: nat
    var MarginLeft: int
    var MarginRight: int
    var MarginTop: int
    var MarginBottom: int
    var OriginX: int
    var OriginY: int
    var Transparent: bool
    var BBoxMode: int
    var SepMasks: SepMaskType
    var Textures: seq<Option<PageItem>>
    var CollisionMasks: seq<seq<byte>>

    function Margin(): Margins
      reads this
    {
      Margins(MarginLeft, MarginRight, MarginTop, MarginBottom)
    }

    /** The sprite is the one made from its first imported frame: the
        untrimmed size, the frame's trimmed extent as margins, origin 0, then the
        custom properties, and `frame` empty slots before the frame. The fields
        the importer does not set keep UndertaleModLib's defaults. */
    predicate NewFrom(t: Texture, bounds: Rect, frame: nat, entry: PageItem, custom: Option<Overrides>)
      reads this
    {
      var o := Custom(custom);
      Width == Pick(o.width, t.boundingWidth) && Height == Pick(o.height, t.boundingHeight) &&
      MarginLeft == Pick(o.marginLeft, t.targetX) &&
      MarginRight == Pick(o.marginRight, t.targetX + bounds.width - 1) &&
      MarginTop == Pick(o.marginTop, t.targetY) &&
      MarginBottom == Pick(o.marginBottom, t.targetY + bounds.height - 1) &&
      OriginX == Pick(o.originX, 0) && OriginY == Pick(o.originY, 0) &&
      Transparent == Pick(o.transparent, false) &&
      BBoxMode == 0 && SepMasks == AxisAlignedRect && CollisionMasks == [] &&
      Textures == NewSlots(frame, entry)
    }

    /** Since the old state, the sprite took a frame as UpdateWithFrame does:
        custom properties, then the frame's slot. A frame past the end stops
        there. Otherwise the size becomes the frame's untrimmed size, the margins
        grow toward the frame, and `queue` is the mask decision. */
    twostate predicate FrameTaken(t: Texture, bounds: Rect, frame: nat, entry: PageItem, custom: Option<Overrides>,
                                  noMasksForBasicRectangles: bool, bboxMasks: bool, queue: bool)
      reads this
    {
      var o := Custom(custom);
      var m := OverriddenMargins(o, old(Margin()));
      var w, h := Pick(o.width, old(Width)), Pick(o.height, old(Height));
      var grown := if BBoxMode == 2 then m
                   else Hull(m, FrameMargins(BBoxMode, t.boundingWidth, t.boundingHeight, t, bounds));
      Textures == FrameSlots(old(Textures), frame, entry) &&
      SepMasks == old(SepMasks) && BBoxMode == old(BBoxMode) && CollisionMasks == old(CollisionMasks) &&
      OriginX == Pick(o.originX, old(OriginX)) && OriginY == Pick(o.originY, old(OriginY)) &&
      Transparent == Pick(o.transparent, old(Transparent)) &&
      (frame >= |old(Textures)| ==> Width == w && Height == h && Margin() == m && !queue) &&
      (frame < |old(Textures)| ==>
         Width == t.boundingWidth && Height == t.boundingHeight && Margin() == grown &&
         queue == (MaskEligible(noMasksForBasicRectangles, SepMasks, |CollisionMasks|) &&
                   MaskWanted(bboxMasks, grown != m, SepMasks, |CollisionMasks|,
                              w != t.boundingWidth || h != t.boundingHeight)))
    }

    /** Since the old state only the collision masks changed. */
    twostate predicate OnlyMasksChanged()
      reads this
    {
      Width == old(Width) && Height == old(Height) && Margin() == old(Margin()) &&
      OriginX == old(OriginX) && OriginY == old(OriginY) && Transparent == old(Transparent) &&
      BBoxMode == old(BBoxMode) && SepMasks == old(SepMasks) && Textures == old(Textures)
    }

    constructor (t: Texture, bounds: Rect, frame: nat, entry: PageItem, custom: Option<Overrides>)
      ensures NewFrom(t, bounds, frame, entry, custom)
    {
      Width := t.boundingWidth;
      Height := t.boundingHeight;
      MarginLeft := t.targetX;
      MarginRight := t.targetX + bounds.width - 1;
      MarginTop := t.targetY;
      MarginBottom := t.targetY + bounds.height - 1;
      OriginX := 0;
      OriginY := 0;
      Transparent := false;
      BBoxMode := 0;
      SepMasks := AxisAlignedRect;
      CollisionMasks := [];
      var slots: seq<Option<PageItem>> := [];
      for i := 0 to frame
        invariant slots == seq(i, _ => None)
      {
        slots := slots + [None];
      }
      Textures := slots;
      new;
      ApplyCustomFields(custom);
      Textures := Textures + [Some(entry)];
    }

    /** ApplyCustomFields: each property present in the configuration replaces
        the field; nothing else changes. */
    method ApplyCustomFields(custom: Option<Overrides>)
      modifies this
      ensures var o := Custom(custom);
        Width == Pick(o.width, old(Width)) && Height == Pick(o.height, old(Height)) &&
        MarginLeft == Pick(o.marginLeft, old(MarginLeft)) &&
        MarginRight == Pick(o.marginRight, old(MarginRight)) &&
        MarginTop == Pick(o.marginTop, old(MarginTop)) &&
        MarginBottom == Pick(o.marginBottom, old(MarginBottom)) &&
        OriginX == Pick(o.originX, old(OriginX)) && OriginY == Pick(o.originY, old(OriginY)) &&
        Transparent == Pick(o.transparent, old(Transparent))
      ensures BBoxMode == old(BBoxMode) && SepMasks == old(SepMasks)
      ensures Textures == old(Textures) && CollisionMasks == old(CollisionMasks)
    {
      var o := Custom(custom);
      Width := Pick(o.width, Width);
      Height := Pick(o.height, Height);
      MarginLeft := Pick(o.marginLeft, MarginLeft);
      MarginRight := Pick(o.marginRight, MarginRight);
      MarginTop := Pick(o.marginTop, MarginTop);
      MarginBottom := Pick(o.marginBottom, MarginBottom);
      Transparent := Pick(o.transparent, Transparent);
      OriginX := Pick(o.originX, OriginX);
      OriginY := Pick(o.originY, OriginY);
    }

    /** Put a frame into an existing sprite's slots; `appended` tells whether the
        frame lay past the end, so that the list grew. */
    method PlaceFrame(frame: nat, entry: PageItem) returns (appended: bool)
      modifies this`Textures
      ensures appended <==> frame >= |old(Textures)|
      ensures Textures == FrameSlots(old(Textures), frame, entry)
    {
      if frame > |Textures| - 1 {
        ghost var was := Textures;
        while frame > |Textures| - 1
          invariant |was| <= |Textures| <= frame + 1
          invariant Textures == was + seq(|Textures| - |was|, _ => Some(entry))
          decreases frame + 1 - |Textures|
        {
          Textures := Textures + [Some(entry)];
        }
        return true;
      }
      Textures := Textures[frame := Some(entry)];
      return false;
    }

    /** The margin update: untouched with a manual box (BBoxMode 2); otherwise
        each margin moves outward only, toward the frame's margins. `grew` tells
        whether any margin moved. */
    method GrowMargins(t: Texture, bounds: Rect) returns (grew: bool)
      modifies this`MarginLeft, this`MarginRight, this`MarginTop, this`MarginBottom
      ensures BBoxMode == 2 ==> Margin() == old(Margin()) && !grew
      ensures BBoxMode != 2 ==> Margin() == Hull(old(Margin()), FrameMargins(BBoxMode, Width, Height, t, bounds))
      ensures grew <==> Margin() != old(Margin())
    {
      grew := false;
      var fullImageBbox := BBoxMode == 1;
      var manualBbox := BBoxMode == 2;
      if !manualBbox {
        var target := FrameMargins(BBoxMode, Width, Height, t, bounds);
        if target.left < MarginLeft {
          MarginLeft := target.left;
          grew := true;
        }
        if target.top < MarginTop {
          MarginTop := target.top;
          grew := true;
        }
        if target.right > MarginRight {
          MarginRight := target.right;
          grew := true;
        }
        if target.bottom > MarginBottom {
          MarginBottom := target.bottom;
          grew := true;
        }
      }
    }

    /** A frame imported into an existing sprite: custom properties, then the
        frame's slot. A frame past the end stops there. Otherwise the size
        becomes the frame's untrimmed size and the margins grow; `queue` tells
        whether the sprite is queued for a new mask. */
    method UpdateWithFrame(t: Texture, bounds: Rect, frame: nat, entry: PageItem, custom: Option<Overrides>,
                           noMasksForBasicRectangles: bool, bboxMasks: bool) returns (queue: bool)
      modifies this
      ensures FrameTaken(t, bounds, frame, entry, custom, noMasksForBasicRectangles, bboxMasks, queue)
    {
      ApplyCustomFields(custom);
      var appended := PlaceFrame(frame, entry);
      if appended {
        return false;
      }
      var oldWidth, oldHeight := Width, Height;
      Width := t.boundingWidth;
      Height := t.boundingHeight;
      var changedSize := oldWidth != Width || oldHeight != Height;
      var grew := GrowMargins(t, bounds);
      queue := MaskEligible(noMasksForBasicRectangles, SepMasks, |CollisionMasks|) &&
               MaskWanted(bboxMasks, grew, SepMasks, |CollisionMasks|, changedSize);
    }
  }

  // ---------------------------------------------------------------------------
  // One atlas page imported into the game data

  /** The node lies on the atlas page whose alpha channel is `alpha`. */
  predicate OnPage(alpha: array2<byte>, n: Node) {
    NonNegative(n.bounds) && 0 <= n.bounds.x && 0 <= n.bounds.y &&
    n.bounds.x + n.bounds.width <= alpha.Length0 && n.bounds.y + n.bounds.height <= alpha.Length1
  }

  /** Where the mask loop copies a node's pixels, for a mask of `size`. */
  function CopyFor(n: Node, size: (nat, nat), bboxMasks: bool): Copy
    requires n.texture.Some?
  {
    CopyOf(n.bounds, size.0, size.1, bboxMasks, n.texture.value.targetX, n.texture.value.targetY)
  }

  lemma OnPageInAtlas(alpha: array2<byte>, n: Node, size: (nat, nat), bboxMasks: bool)
    requires n.texture.Some? && OnPage(alpha, n)
    ensures InAtlas(alpha, CopyFor(n, size, bboxMasks)) && CopyFor(n, size, bboxMasks).length % 8 == 0
  {
    var c := CopyFor(n, size, bboxMasks);
    assert c.length % 8 == 0 by { MulEight(c.stride / 8, size.1); }
  }

  /** A fresh mask entry: one zero byte per eight bits of the mask. */
  function BlankMask(c: Copy): (m: seq<byte>)
    ensures |m| == c.length / 8 && forall i :: 0 <= i < |m| ==> m[i] == 0
  {
    seq(c.length / 8, _ => 0)
  }

  /** The sprite's only mask is the one encoded from node `n`. */
  predicate MaskFrom(s: Sprite, alpha: array2<byte>, n: Node, size: (nat, nat), bboxMasks: bool)
    reads s, alpha
    requires n.texture.Some?
  {
    var c := CopyFor(n, size, bboxMasks);
    WritesFit(c) && InAtlas(alpha, c) && c.length % 8 == 0 && s.CollisionMasks == [MaskBytes(alpha, c)]
  }

  /** The game data the graphics importer writes, and the sprites queued for a
      new collision mask while the current page is imported. */
  class GraphicsData {
    var PageItems: seq<PageItem>
    var Backgrounds: map<string, Background>
    var Sprites: map<string, Sprite>
    var MaskNodes: map<Sprite, Node>

    constructor (sprites: map<string, Sprite>, backgrounds: map<string, Background>)
      ensures Sprites == sprites && Backgrounds == backgrounds && PageItems == [] && MaskNodes == map[]
    {
      Sprites := sprites;
      Backgrounds := backgrounds;
      PageItems := [];
      MaskNodes := map[];
    }

    /** The sprite a node of kind `spriteType` whose frame name splits to `name`
        updates in place: the existing sprite of that name, if any. */
    function Touched(spriteType: SpriteType, name: string): set<Sprite>
      reads this
    {
      if spriteType.Sprite? && name != "" && name in Sprites then {Sprites[name]} else {}
    }

    /** Since the old state, node `n` of `page` was imported into the tables:
        `stem` is its file stem, `spriteType` its kind and `name`/`frame` the
        split of the stem. A background gets the page item as texture, an
        existing one keeping its other fields. A named sprite frame creates the
        sprite from it (NewFrom) or has the existing sprite take it (FrameTaken);
        `queued` tells whether an existing sprite was queued for a new mask.
        Anything else changes no table. */
    twostate predicate NodeImported(n: Node, page: nat, stem: string, spriteType: SpriteType, name: string,
                                    frame: nat, custom: map<string, Overrides>,
                                    noMasksForBasicRectangles: bool, bboxMasks: bool, queued: bool)
      requires n.texture.Some?
      reads this, Sprites.Values
    {
      var item := PageItemOf(n, page);
      (spriteType.Background? ==>
         Sprites == old(Sprites) && MaskNodes == old(MaskNodes) &&
         Backgrounds == old(Backgrounds)[stem :=
           if stem in old(Backgrounds) then old(Backgrounds)[stem].(texture := item)
           else Background.Background(item, false, false)]) &&
      ((spriteType.Unknown? || spriteType.Font? || (spriteType.Sprite? && name == "")) ==>
         Backgrounds == old(Backgrounds) && Sprites == old(Sprites) && MaskNodes == old(MaskNodes) && !queued) &&
      (spriteType.Sprite? && name != "" && name !in old(Sprites) ==>
         Backgrounds == old(Backgrounds) && !queued &&
         Sprites.Keys == old(Sprites.Keys) + {name} && fresh(Sprites[name]) &&
         (forall other :: other in old(Sprites) ==> Sprites[other] == old(Sprites[other])) &&
         Sprites[name].NewFrom(n.texture.value, n.bounds, frame, item, PropsOf(custom, name)) &&
         MaskNodes == if !noMasksForBasicRectangles then old(MaskNodes)[Sprites[name] := n] else old(MaskNodes)) &&
      (spriteType.Sprite? && name != "" && name in old(Sprites) ==>
         Backgrounds == old(Backgrounds) && Sprites == old(Sprites) &&
         Sprites[name].FrameTaken(n.texture.value, n.bounds, frame, item, PropsOf(custom, name),
                                  noMasksForBasicRectangles, bboxMasks, queued) &&
         MaskNodes == if queued then old(MaskNodes)[Sprites[name] := n] else old(MaskNodes))
    }

    /** One placed node of a page: its page item is added and the node is
        imported by its folder kind and frame name (NodeImported). Only the
        existing sprite of that name, if any, changes in place; every other
        sprite object is left as it was. */
    method ImportNode(n: Node, page: nat, importUnknownAsSprite: bool, custom: map<string, Overrides>,
                      noMasksForBasicRectangles: bool, bboxMasks: bool) returns (queued: bool)
      requires n.texture.Some?
      modifies this, Touched(ImportType(n.texture.value.source, importUnknownAsSprite),
                             SpriteFrameOf(FileStem(n.texture.value.source)).0)
      ensures PageItems == old(PageItems) + [PageItemOf(n, page)]
      ensures forall s :: s in Sprites.Values ==> s in old(Sprites.Values) || fresh(s)
      ensures var src := n.texture.value.source;
        var kind, name := ImportType(src, importUnknownAsSprite), SpriteFrameOf(FileStem(src)).0;
        forall s :: s in old(Sprites.Values) && s !in old(Touched(kind, name)) ==> unchanged(s)
      ensures var src := n.texture.value.source;
        var (name, frame) := SpriteFrameOf(FileStem(src));
        NodeImported(n, page, FileStem(src), ImportType(src, importUnknownAsSprite), name, frame, custom,
                     noMasksForBasicRectangles, bboxMasks, queued)
    {
      var t := n.texture.value;
      var stripped := FileStem(t.source);
      var spriteType := ImportType(t.source, importUnknownAsSprite);
      var (spriteName, frame) := SpriteFrameOf(stripped);
      queued := ImportNamedNode(n, page, stripped, spriteType, spriteName, frame, custom,
                                noMasksForBasicRectangles, bboxMasks);
    }

    /** ImportNode once the node's file name is classified: `stem` is its stem,
        `spriteType` its kind, and `name`/`frame` the split of the stem. */
    method ImportNamedNode(n: Node, page: nat, stem: string, spriteType: SpriteType, name: string, frame: nat,
                           custom: map<string, Overrides>, noMasksForBasicRectangles: bool, bboxMasks: bool)
      returns (queued: bool)
      requires n.texture.Some?
      modifies this, Touched(spriteType, name)
      ensures PageItems == old(PageItems) + [PageItemOf(n, page)]
      ensures forall s :: s in Sprites.Values ==> s in old(Sprites.Values) || fresh(s)
      ensures forall s :: s in old(Sprites.Values) && s !in old(Touched(spriteType, name)) ==> unchanged(s)
      ensures NodeImported(n, page, stem, spriteType, name, frame, custom, noMasksForBasicRectangles, bboxMasks, queued)
    {
      queued := false;
      var item := PageItemOf(n, page);
      PageItems := PageItems + [item];
      if spriteType.Background? {
        if stem in Backgrounds {
          Backgrounds := Backgrounds[stem := Backgrounds[stem].(texture := item)];
        } else {
          Backgrounds := Backgrounds[stem := Background.Background(item, false, false)];
        }
      } else if spriteType.Sprite? {
        if name == "" {
          return;
        }
        var props := PropsOf(custom, name);
        if name !in Sprites {
          AddSprite(name, n, frame, item, props, noMasksForBasicRectangles);
        } else {
          queued := UpdateSprite(name, n, frame, item, props, noMasksForBasicRectangles, bboxMasks);
        }
      }
    }

    /** A frame of a sprite not in the game data: a new sprite holding it, queued
        for a mask unless basic rectangles get none (a new sprite's mask type is
        the axis-aligned rectangle). */
    method AddSprite(name: string, n: Node, frame: nat, item: PageItem, props: Option<Overrides>,
                     noMasksForBasicRectangles: bool)
      requires n.texture.Some? && name !in Sprites
      modifies this`Sprites, this`MaskNodes
      ensures Sprites.Keys == old(Sprites.Keys) + {name} && fresh(Sprites[name])
      ensures forall other :: other in old(Sprites) ==> Sprites[other] == old(Sprites[other])
      ensures Sprites[name].NewFrom(n.texture.value, n.bounds, frame, item, props)
      ensures MaskNodes == if !noMasksForBasicRectangles then old(MaskNodes)[Sprites[name] := n] else old(MaskNodes)
    {
      var newSprite := new Sprite(n.texture.value, n.bounds, frame, item, props);
      var sepMasks := newSprite.SepMasks;
      if !noMasksForBasicRectangles || !(sepMasks == AxisAlignedRect || sepMasks == RotatedRect) {
        MaskNodes := MaskNodes[newSprite := n];
      }
      Sprites := Sprites[name := newSprite];
    }

    /** A frame of a sprite already in the game data: the sprite is updated in
        place and queued when UpdateWithFrame asks for a new mask. */
    method UpdateSprite(name: string, n: Node, frame: nat, item: PageItem, props: Option<Overrides>,
                        noMasksForBasicRectangles: bool, bboxMasks: bool) returns (queued: bool)
      requires n.texture.Some? && name in Sprites
      modifies this`MaskNodes, Sprites[name]
      ensures Sprites[name].FrameTaken(n.texture.value, n.bounds, frame, item, props,
                                       noMasksForBasicRectangles, bboxMasks, queued)
      ensures MaskNodes == if queued then old(MaskNodes)[Sprites[name] := n] else old(MaskNodes)
    {
      var sprite := Sprites[name];
      queued := sprite.UpdateWithFrame(n.texture.value, n.bounds, frame, item, props, noMasksForBasicRectangles, bboxMasks);
      if queued {
        MaskNodes := MaskNodes[sprite := n];
      }
    }

    /** One sprite's mask from its node: the only mask it keeps afterwards. The
        old masks are replaced by one blank entry first, so when the copy would
        write out of range (false) that blank entry is what is left. */
    static method StoreMask(s: Sprite, alpha: array2<byte>, n: Node, size: (nat, nat), bboxMasks: bool)
      returns (ok: bool)
      requires n.texture.Some? && OnPage(alpha, n)
      modifies s`CollisionMasks
      ensures s.OnlyMasksChanged()
      ensures ok == WritesFit(CopyFor(n, size, bboxMasks))
      ensures ok ==> MaskFrom(s, alpha, n, size, bboxMasks)
      ensures !ok ==> s.CollisionMasks == [BlankMask(CopyFor(n, size, bboxMasks))]
    {
      OnPageInAtlas(alpha, n, size, bboxMasks);
      s.CollisionMasks := [BlankMask(CopyFor(n, size, bboxMasks))];
      var mask := EncodeMask(alpha, n.bounds, size.0, size.1, bboxMasks, n.texture.value.targetX, n.texture.value.targetY);
      ok := mask.Some?;
      if ok {
        s.CollisionMasks := [mask.value];
      }
    }

    /** The mask pass after a page: every queued sprite's masks become exactly one
        mask, encoded from its node, and the queue is emptied. A mask loop writing
        out of range aborts the import (false). */
    method GenerateMasks(alpha: array2<byte>, bboxMasks: bool, maskSize: Sprite -> (nat, nat)) returns (ok: bool)
      requires forall s :: s in MaskNodes ==> MaskNodes[s].texture.Some? && OnPage(alpha, MaskNodes[s])
      modifies this`MaskNodes, MaskNodes.Keys`CollisionMasks
      ensures forall s :: s in old(MaskNodes) ==> s.OnlyMasksChanged()
      ensures ok <==> forall s :: s in old(MaskNodes) ==> WritesFit(CopyFor(old(MaskNodes)[s], maskSize(s), bboxMasks))
      ensures ok ==> MaskNodes == map[]
      ensures ok ==> forall s :: s in old(MaskNodes) ==> MaskFrom(s, alpha, old(MaskNodes)[s], maskSize(s), bboxMasks)
      ensures PageItems == old(PageItems) && Sprites == old(Sprites) && Backgrounds == old(Backgrounds)
    {
      var queue := MaskNodes;
      ok := MaskAll(queue, alpha, bboxMasks, maskSize);
      if ok {
        MaskNodes := map[];
      }
    }

    /** The loop of the mask pass over the queue. */
    static method MaskAll(queue: map<Sprite, Node>, alpha: array2<byte>, bboxMasks: bool, maskSize: Sprite -> (nat, nat))
      returns (ok: bool)
      requires forall s :: s in queue ==> queue[s].texture.Some? && OnPage(alpha, queue[s])
      modifies queue.Keys`CollisionMasks
      ensures forall s :: s in queue ==> s.OnlyMasksChanged()
      ensures ok <==> forall s :: s in queue ==> WritesFit(CopyFor(queue[s], maskSize(s), bboxMasks))
      ensures ok ==> AllMasked(queue.Keys, queue, alpha, bboxMasks, maskSize)
    {
      var todo := queue.Keys;
      while todo != {}
        invariant todo <= queue.Keys
        invariant AllMasked(queue.Keys - todo, queue, alpha, bboxMasks, maskSize)
        invariant forall s :: s in queue ==> s.OnlyMasksChanged()
        decreases |todo|
      {
        var maskSpr :| maskSpr in todo;
        ok := MaskOne(queue, queue.Keys - todo, maskSpr, alpha, bboxMasks, maskSize);
        if !ok {
          return;
        }
        assert queue.Keys - (todo - {maskSpr}) == (queue.Keys - todo) + {maskSpr};
        todo := todo - {maskSpr};
      }
      assert queue.Keys - todo == queue.Keys;
      AllMaskedFit(queue, alpha, bboxMasks, maskSize);
      return true;
    }

    /** One turn of the mask loop: the sprite's mask is stored, and the sprites
        already done keep theirs. */
    static method MaskOne(queue: map<Sprite, Node>, done: set<Sprite>, s: Sprite, alpha: array2<byte>, bboxMasks: bool,
                          maskSize: Sprite -> (nat, nat))
      returns (ok: bool)
      requires s in queue && s !in done
      requires queue[s].texture.Some? && OnPage(alpha, queue[s])
      requires AllMasked(done, queue, alpha, bboxMasks, maskSize)
      modifies s`CollisionMasks
      ensures s.OnlyMasksChanged()
      ensures ok == WritesFit(CopyFor(queue[s], maskSize(s), bboxMasks))
      ensures ok ==> AllMasked(done + {s}, queue, alpha, bboxMasks, maskSize)
    {
      ok := StoreMask(s, alpha, queue[s], maskSize(s), bboxMasks);
    }
  }

  /** Every sprite of the whole queue masked: every copy fitted. */
  lemma AllMaskedFit(queue: map<Sprite, Node>, alpha: array2<byte>, bboxMasks: bool, maskSize: Sprite -> (nat, nat))
    requires forall s :: s in queue ==> queue[s].texture.Some?
    requires AllMasked(queue.Keys, queue, alpha, bboxMasks, maskSize)
    ensures forall s :: s in queue ==> WritesFit(CopyFor(queue[s], maskSize(s), bboxMasks))
  {
  }

  /** Every sprite of `done` has the one mask encoded from its queued node. */
  ghost predicate AllMasked(done: set<Sprite>, queue: map<Sprite, Node>, alpha: array2<byte>, bboxMasks: bool,
                            maskSize: Sprite -> (nat, nat))
    reads done, alpha
  {
    forall s :: s in done && s in queue && queue[s].texture.Some? ==>
      MaskFrom(s, alpha, queue[s], maskSize(s), bboxMasks)
  }
}
