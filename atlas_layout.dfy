/** The rectangle packer of the graphics and font importers, as pure functions:
    the two node splits, the best-fit search, one pass of the layout loop, the
    whole layout of one page, and the last-page shrinking rule. The classes in
    atlas_packer.dfy run the same algorithm in place and are proved equal to it.

    The graphics importer (graphicsimport.cs) and the font importer (fontimport.cs)
    carry two copies of this code that differ only in the last-page restore step;
    both copies are modelled by this one module. */
module AtlasLayout {
  import opened Wrappers
  import opened Geometry

  /** A source image as the packer sees it: `width` x `height` is the (trimmed)
      rectangle to place; the target offset and the bounding (untrimmed) size are
      carried along for the sprite projection. */
  datatype Texture = Texture(source: string, width: nat, height: nat,
                             targetX: nat, targetY: nat,
                             boundingWidth: nat, boundingHeight: nat)

  datatype SplitType = Horizontal | Vertical

  /** A packing node: a free rectangle, or, once `texture` is set, a placement. */
  datatype Node = Node(bounds: Rect, texture: Option<Texture>, split: SplitType)

  function Area(t: Texture): nat {
    t.width * t.height
  }

  predicate Fits(t: Texture, r: Rect) {
    t.width <= r.width && t.height <= r.height
  }

  /** The rectangle a texture occupies once it is placed at the corner of `r`. */
  function PlacedRect(r: Rect, t: Texture): Rect {
    Rect(r.x, r.y, t.width, t.height)
  }

  function Bounds(ns: seq<Node>): (rs: seq<Rect>)
    ensures |rs| == |ns| && forall i :: 0 <= i < |ns| ==> rs[i] == ns[i].bounds
  {
    seq(|ns|, i requires 0 <= i < |ns| => ns[i].bounds)
  }

  /** The textures that nodes received, in node order. */
  function Placed(ns: seq<Node>): seq<Texture> {
    if ns == [] then []
    else
      var last := ns[|ns| - 1];
      Placed(ns[..|ns| - 1]) + (if last.texture.Some? then [last.texture.value] else [])
  }

  /** The children a split produces are exactly right: inside the parent, clear of
      the placed rectangle and of each other. */
  ghost predicate SplitOk(parent: Rect, placed: Rect, kids: seq<Node>) {
    (forall k :: 0 <= k < |kids| ==> Inside(kids[k].bounds, parent)) &&
    ApartFrom(placed, Bounds(kids)) &&
    PairwiseDisjoint(Bounds(kids))
  }

  /** Horizontal split: a child to the right of the placed w x h rectangle as tall
      as it, and a child below it as wide as the parent; each kept only when both
      its sides are positive. */
  function HorizontalSplit(b: Rect, w: int, h: int, padding: int): seq<Node> {
    var n1 := Node(Rect(b.x + w + padding, b.y, b.width - w - padding, h), None, Vertical);
    var n2 := Node(Rect(b.x, b.y + h + padding, b.width, b.height - h - padding), None, Horizontal);
    (if n1.bounds.width > 0 && n1.bounds.height > 0 then [n1] else []) +
    (if n2.bounds.width > 0 && n2.bounds.height > 0 then [n2] else [])
  }

  /** The children of a horizontal split are free, have positive sides, are kept
      exactly when their sides come out positive, and fit the parent around the
      placed rectangle. */
  lemma HorizontalSplitOk(b: Rect, w: int, h: int, padding: int)
    ensures var kids := HorizontalSplit(b, w, h, padding);
      (forall k :: 0 <= k < |kids| ==>
         kids[k].bounds.width > 0 && kids[k].bounds.height > 0 && kids[k].texture == None) &&
      |kids| == (if b.width - w - padding > 0 && h > 0 then 1 else 0)
              + (if b.width > 0 && b.height - h - padding > 0 then 1 else 0) &&
      (padding >= 0 && 0 <= w <= b.width && 0 <= h <= b.height ==>
         SplitOk(b, Rect(b.x, b.y, w, h), kids))
  {
  }

  /** Vertical split: a child to the right of the placed rectangle as tall as the
      parent, and a child below it as wide as the placed rectangle. */
  function VerticalSplit(b: Rect, w: int, h: int, padding: int): seq<Node> {
    var n1 := Node(Rect(b.x + w + padding, b.y, b.width - w - padding, b.height), None, Vertical);
    var n2 := Node(Rect(b.x, b.y + h + padding, w, b.height - h - padding), None, Horizontal);
    (if n1.bounds.width > 0 && n1.bounds.height > 0 then [n1] else []) +
    (if n2.bounds.width > 0 && n2.bounds.height > 0 then [n2] else [])
  }

  /** The children of a vertical split: as for the horizontal one. */
  lemma VerticalSplitOk(b: Rect, w: int, h: int, padding: int)
    ensures var kids := VerticalSplit(b, w, h, padding);
      (forall k :: 0 <= k < |kids| ==>
         kids[k].bounds.width > 0 && kids[k].bounds.height > 0 && kids[k].texture == None) &&
      |kids| == (if b.width - w - padding > 0 && b.height > 0 then 1 else 0)
              + (if w > 0 && b.height - h - padding > 0 then 1 else 0) &&
      (padding >= 0 && 0 <= w <= b.width && 0 <= h <= b.height ==>
         SplitOk(b, Rect(b.x, b.y, w, h), kids))
  {
  }

  /** The split of a node by its split type. */
  function Split(n: Node, t: Texture, padding: int): seq<Node> {
    if n.split == Horizontal then HorizontalSplit(n.bounds, t.width, t.height, padding)
    else VerticalSplit(n.bounds, t.width, t.height, padding)
  }

  /** Either split leaves free children with positive sides, inside the node and
      apart from the texture placed at its corner and from each other. */
  lemma SplitKidsOk(n: Node, t: Texture, padding: int)
    ensures var kids := Split(n, t, padding);
      (forall k :: 0 <= k < |kids| ==>
         kids[k].bounds.width > 0 && kids[k].bounds.height > 0 && kids[k].texture == None) &&
      (padding >= 0 && Fits(t, n.bounds) ==> SplitOk(n.bounds, PlacedRect(n.bounds, t), kids))
  {
    if n.split == Horizontal {
      HorizontalSplitOk(n.bounds, t.width, t.height, padding);
    } else {
      VerticalSplitOk(n.bounds, t.width, t.height, padding);
    }
  }

  /** `best`/`bestArea` describe the best candidate among the first `k` textures. */
  ghost predicate BestSoFar(r: Rect, ts: seq<Texture>, k: nat, best: Option<nat>, bestArea: int)
    requires k <= |ts|
  {
    (best == None ==> bestArea == 0 && forall j :: 0 <= j < k && Fits(ts[j], r) ==> Area(ts[j]) == 0) &&
    (best.Some? ==>
      best.value < k && Fits(ts[best.value], r) && Area(ts[best.value]) == bestArea > 0 &&
      (forall j :: 0 <= j < k && Fits(ts[j], r) ==> Area(ts[j]) <= bestArea) &&
      (forall j :: 0 <= j < best.value && Fits(ts[j], r) ==> Area(ts[j]) < bestArea))
  }

  /** The texture chosen for a free node, as an index into `ts`: a fitting texture of
      largest positive area, the first one on ties; None when no fitting texture has
      a positive area. */
  ghost predicate IsBestFit(r: Rect, ts: seq<Texture>, res: Option<nat>) {
    (res == None <==> forall j :: 0 <= j < |ts| && Fits(ts[j], r) ==> Area(ts[j]) == 0) &&
    (res.Some? ==>
      res.value < |ts| && Fits(ts[res.value], r) && Area(ts[res.value]) > 0 &&
      (forall j :: 0 <= j < |ts| && Fits(ts[j], r) ==> Area(ts[j]) <= Area(ts[res.value])) &&
      (forall j :: 0 <= j < res.value && Fits(ts[j], r) ==> Area(ts[j]) < Area(ts[res.value])))
  }

  /** The scan of FindBestFitForNode from position `k` on, under the Area heuristic:
      a candidate replaces the current best only when its area is strictly larger. */
  function BestFitFrom(r: Rect, ts: seq<Texture>, k: nat, best: Option<nat>, bestArea: int): (res: Option<nat>)
    requires k <= |ts| && (best.Some? ==> best.value < |ts|)
    ensures res.Some? ==> res.value < |ts|
    decreases |ts| - k
  {
    if k == |ts| then best
    else if Fits(ts[k], r) && Area(ts[k]) > bestArea then BestFitFrom(r, ts, k + 1, Some(k), Area(ts[k]))
    else BestFitFrom(r, ts, k + 1, best, bestArea)
  }

  /** Scanning on from a best candidate among the first `k` textures gives the best
      fit of all of them. */
  lemma {:induction false} BestFitFromIsBest(r: Rect, ts: seq<Texture>, k: nat, best: Option<nat>, bestArea: int)
    requires k <= |ts| && BestSoFar(r, ts, k, best, bestArea)
    ensures IsBestFit(r, ts, BestFitFrom(r, ts, k, best, bestArea))
    decreases |ts| - k
  {
    if k < |ts| {
      if Fits(ts[k], r) && Area(ts[k]) > bestArea {
        BestFitFromIsBest(r, ts, k + 1, Some(k), Area(ts[k]));
      } else {
        BestFitFromIsBest(r, ts, k + 1, best, bestArea);
      }
    }
  }

  function BestFit(r: Rect, ts: seq<Texture>): (res: Option<nat>)
    ensures res.Some? ==> res.value < |ts|
  {
    BestFitFrom(r, ts, 0, None, 0)
  }

  /** FindBestFitForNode picks a fitting texture of largest positive area, the first
      one on ties, and nothing when every fitting texture has zero area. */
  lemma BestFitIsBest(r: Rect, ts: seq<Texture>)
    ensures IsBestFit(r, ts, BestFit(r, ts))
  {
    BestFitFromIsBest(r, ts, 0, None, 0);
  }

  function RemoveAt(ts: seq<Texture>, i: nat): seq<Texture>
    requires i < |ts|
  {
    ts[..i] + ts[i + 1..]
  }

  lemma RemoveAtMultiset(ts: seq<Texture>, i: nat)
    requires i < |ts|
    ensures multiset(RemoveAt(ts, i)) + multiset{ts[i]} == multiset(ts)
  {
    assert ts == ts[..i] + [ts[i]] + ts[i + 1..];
  }

  /** The state of LayoutAtlas' loop: the free-node queue, the textures not yet
      placed, and the nodes already moved to the atlas. */
  datatype LayoutState = LayoutState(free: seq<Node>, textures: seq<Texture>, nodes: seq<Node>)

  /** One iteration of LayoutAtlas' loop: pop the front free node; if some texture
      fits it, split the node, place the texture at its corner and drop the texture
      from the list; move the node to the atlas either way. */
  function Step(s: LayoutState, padding: int): (s': LayoutState)
    requires s.free != []
    ensures |s'.textures| < |s.textures| || (s'.textures == s.textures && |s'.free| < |s.free|)
  {
    var node := s.free[0];
    match BestFit(node.bounds, s.textures)
    case None => LayoutState(s.free[1..], s.textures, s.nodes + [node])
    case Some(i) =>
      var t := s.textures[i];
      LayoutState(s.free[1..] + Split(node, t, padding),
                  RemoveAt(s.textures, i),
                  s.nodes + [Node(PlacedRect(node.bounds, t), Some(t), node.split)])
  }

  /** LayoutAtlas' loop, run until the queue or the texture list is empty. It ends
      because each step removes a texture, or keeps the textures and shortens the
      queue. */
  function Run(s: LayoutState, padding: int): LayoutState
    decreases |s.textures|, |s.free|
  {
    if s.free == [] || s.textures == [] then s
    else Run(Step(s, padding), padding)
  }

  function Root(width: int, height: int): Node {
    Node(Page(width, height), None, Horizontal)
  }

  function Start(ts: seq<Texture>, width: int, height: int): LayoutState {
    LayoutState([Root(width, height)], ts, [])
  }

  /** The layout of one width x height page: `.nodes` becomes Atlas.Nodes and
      `.textures` the leftovers that LayoutAtlas returns. */
  function Layout(ts: seq<Texture>, width: int, height: int, padding: int): LayoutState {
    Run(Start(ts, width, height), padding)
  }

  // ---------------------------------------------------------------------------
  // Partition: placed textures and leftovers are the input, as a multiset.

  /** Free nodes carry no texture, and the textures placed so far together with the
      textures left are the input. */
  ghost predicate PartitionOf(s: LayoutState, input: seq<Texture>) {
    (forall i :: 0 <= i < |s.free| ==> s.free[i].texture == None) &&
    multiset(Placed(s.nodes)) + multiset(s.textures) == multiset(input)
  }

  lemma PlacedAppend(ns: seq<Node>, n: Node)
    ensures Placed(ns + [n]) == Placed(ns) + (if n.texture.Some? then [n.texture.value] else [])
  {
    assert (ns + [n])[..|ns|] == ns;
  }

  lemma StepKeepsPartition(s: LayoutState, padding: int, input: seq<Texture>)
    requires s.free != [] && PartitionOf(s, input)
    ensures PartitionOf(Step(s, padding), input)
  {
    var node := s.free[0];
    match BestFit(node.bounds, s.textures)
    case None =>
      MoveKeepsPartition(s, input, node, [], s.textures, Step(s, padding));
    case Some(i) =>
      var t := s.textures[i];
      SplitKidsOk(node, t, padding);
      RemoveAtMultiset(s.textures, i);
      MoveKeepsPartition(s, input, Node(PlacedRect(node.bounds, t), Some(t), node.split),
                         Split(node, t, padding), RemoveAt(s.textures, i), Step(s, padding));
  }

  /** The step on the partition: the head free node leaves the queue, `n` joins the
      atlas, the fresh children join the queue, and the texture `n` carries (if any)
      leaves the texture list. */
  lemma MoveKeepsPartition(s: LayoutState, input: seq<Texture>, n: Node, kids: seq<Node>,
                           rest: seq<Texture>, s': LayoutState)
    requires s.free != [] && PartitionOf(s, input)
    requires forall k :: 0 <= k < |kids| ==> kids[k].texture == None
    requires multiset(rest) + (if n.texture.Some? then multiset{n.texture.value} else multiset{})
             == multiset(s.textures)
    requires s' == LayoutState(s.free[1..] + kids, rest, s.nodes + [n])
    ensures PartitionOf(s', input)
  {
    PlacedAppend(s.nodes, n);
    forall j | 0 <= j < |s'.free| ensures s'.free[j].texture == None {
      if j < |s.free| - 1 { assert s'.free[j] == s.free[j + 1]; }
      else { assert s'.free[j] == kids[j - (|s.free| - 1)]; }
    }
  }

  lemma {:induction false} RunKeepsPartition(s: LayoutState, padding: int, input: seq<Texture>)
    requires PartitionOf(s, input)
    ensures PartitionOf(Run(s, padding), input)
    decreases |s.textures|, |s.free|
  {
    if s.free != [] && s.textures != [] {
      StepKeepsPartition(s, padding, input);
      RunKeepsPartition(Step(s, padding), padding, input);
    }
  }

  /** LayoutAtlas splits its input: the textures placed on the page and the leftovers
      it returns are, as a multiset, exactly the input, so no texture is lost and
      none is placed twice. */
  lemma LayoutPartition(ts: seq<Texture>, width: int, height: int, padding: int)
    ensures multiset(Placed(Layout(ts, width, height, padding).nodes))
          + multiset(Layout(ts, width, height, padding).textures) == multiset(ts)
  {
    assert Placed([]) == [];
    RunKeepsPartition(Start(ts, width, height), padding, ts);
  }

  // ---------------------------------------------------------------------------
  // Geometry: every node lies inside the page and no two nodes overlap.

  /** Every node of the atlas and every free node is a non-negative rectangle inside
      the page; atlas nodes, free nodes, and the two families against each other
      are pairwise disjoint; a placed node has exactly its texture's size. */
  ghost predicate GeometryOk(s: LayoutState, page: Rect) {
    (forall i :: 0 <= i < |s.nodes| ==> NonNegative(s.nodes[i].bounds) && Inside(s.nodes[i].bounds, page)) &&
    (forall i :: 0 <= i < |s.free| ==>
       NonNegative(s.free[i].bounds) && Inside(s.free[i].bounds, page) && s.free[i].texture == None) &&
    PairwiseDisjoint(Bounds(s.nodes)) && PairwiseDisjoint(Bounds(s.free)) &&
    Separated(Bounds(s.nodes), Bounds(s.free)) &&
    (forall i :: 0 <= i < |s.nodes| && s.nodes[i].texture.Some? ==>
       s.nodes[i].bounds == PlacedRect(s.nodes[i].bounds, s.nodes[i].texture.value))
  }

  lemma StepKeepsGeometry(s: LayoutState, padding: int, page: Rect)
    requires padding >= 0 && s.free != [] && GeometryOk(s, page)
    ensures GeometryOk(Step(s, padding), page)
  {
    var node := s.free[0];
    match BestFit(node.bounds, s.textures)
    case None =>
      assert Bounds([]) == [];
      MoveKeepsGeometry(s, page, node, [], Step(s, padding));
    case Some(i) =>
      var t := s.textures[i];
      BestFitIsBest(node.bounds, s.textures);
      SplitKidsOk(node, t, padding);
      MoveKeepsGeometry(s, page, Node(PlacedRect(node.bounds, t), Some(t), node.split),
                        Split(node, t, padding), Step(s, padding));
  }

  /** The step on the geometry: the head free node is replaced by `n` in the atlas
      and by the children `kids` in the queue, all inside it and apart from each
      other. */
  lemma MoveKeepsGeometry(s: LayoutState, page: Rect, n: Node, kids: seq<Node>, s': LayoutState)
    requires s.free != [] && GeometryOk(s, page)
    requires NonNegative(n.bounds) && Inside(n.bounds, s.free[0].bounds)
    requires n.texture.Some? ==> n.bounds == PlacedRect(n.bounds, n.texture.value)
    requires forall k :: 0 <= k < |kids| ==> NonNegative(kids[k].bounds) && kids[k].texture == None
    requires SplitOk(s.free[0].bounds, n.bounds, kids)
    requires s'.nodes == s.nodes + [n] && s'.free == s.free[1..] + kids
    ensures GeometryOk(s', page)
  {
    assert Bounds(s.free)[0] == s.free[0].bounds;
    assert Bounds(s.free)[1..] == Bounds(s.free[1..]);
    ReplaceByParts(Bounds(s.nodes), Bounds(s.free), n.bounds, Bounds(kids));
    assert Bounds(s'.nodes) == Bounds(s.nodes) + [n.bounds];
    assert Bounds(s'.free) == Bounds(s.free[1..]) + Bounds(kids);
    forall j | 0 <= j < |s'.nodes| ensures NonNegative(s'.nodes[j].bounds) && Inside(s'.nodes[j].bounds, page) {
      if j < |s.nodes| { assert s'.nodes[j] == s.nodes[j]; }
    }
    forall j | 0 <= j < |s'.free|
      ensures NonNegative(s'.free[j].bounds) && Inside(s'.free[j].bounds, page) && s'.free[j].texture == None
    {
      if j < |s.free| - 1 { assert s'.free[j] == s.free[j + 1]; }
      else { assert s'.free[j] == kids[j - (|s.free| - 1)]; }
    }
  }

  lemma {:induction false} RunKeepsGeometry(s: LayoutState, padding: int, page: Rect)
    requires padding >= 0 && GeometryOk(s, page)
    ensures GeometryOk(Run(s, padding), page)
    decreases |s.textures|, |s.free|
  {
    if s.free != [] && s.textures != [] {
      StepKeepsGeometry(s, padding, page);
      RunKeepsGeometry(Step(s, padding), padding, page);
    }
  }

  /** With a non-negative padding, the atlas nodes of a page layout are non-negative
      rectangles inside the page, no two of them overlap, and each placed node is
      exactly its texture's width and height. */
  lemma LayoutGeometry(ts: seq<Texture>, width: int, height: int, padding: int)
    requires padding >= 0 && width >= 0 && height >= 0
    ensures var ns := Layout(ts, width, height, padding).nodes;
      (forall i :: 0 <= i < |ns| ==> NonNegative(ns[i].bounds) && Inside(ns[i].bounds, Page(width, height))) &&
      PairwiseDisjoint(Bounds(ns)) &&
      (forall i :: 0 <= i < |ns| && ns[i].texture.Some? ==>
         ns[i].bounds.width == ns[i].texture.value.width && ns[i].bounds.height == ns[i].texture.value.height)
  {
    var s0 := Start(ts, width, height);
    assert Bounds(s0.free) == [Page(width, height)];
    RunKeepsGeometry(s0, padding, Page(width, height));
  }

  // ---------------------------------------------------------------------------
  // Progress: what a page of a given size can and cannot hold.

  lemma {:induction false} RunNeverAddsTextures(s: LayoutState, padding: int)
    ensures |Run(s, padding).textures| <= |s.textures|
    decreases |s.textures|, |s.free|
  {
    if s.free != [] && s.textures != [] {
      RunNeverAddsTextures(Step(s, padding), padding);
    }
  }

  /** A page with no width or no height holds nothing: every texture that fits it
      has zero area and is never chosen, so all textures are left over. */
  lemma LayoutEmptyPage(ts: seq<Texture>, width: int, height: int, padding: int)
    requires width <= 0 || height <= 0
    ensures Layout(ts, width, height, padding).textures == ts
    ensures Placed(Layout(ts, width, height, padding).nodes) == []
  {
    var s0 := Start(ts, width, height);
    if ts != [] {
      assert forall j :: 0 <= j < |ts| && Fits(ts[j], Page(width, height)) ==> Area(ts[j]) == 0;
      BestFitIsBest(Page(width, height), ts);
      assert BestFit(Page(width, height), ts) == None;
      var s1 := Step(s0, padding);
      assert s1 == LayoutState([], ts, [Root(width, height)]);
      assert Run(s0, padding) == Run(s1, padding) == s1;
      assert Placed([Root(width, height)]) == Placed([]) + [];
    }
  }

  /** A page that holds all of a non-empty input has positive width and height. */
  lemma FittingPageIsPositive(ts: seq<Texture>, width: int, height: int, padding: int)
    ensures ts != [] && Layout(ts, width, height, padding).textures == [] ==> width >= 1 && height >= 1
  {
    if width <= 0 || height <= 0 {
      LayoutEmptyPage(ts, width, height, padding);
    }
  }

  /** Textures as the scan admits them: positive sides, no larger than the page. */
  predicate Packable(ts: seq<Texture>, size: int) {
    forall t :: t in ts ==> 1 <= t.width <= size && 1 <= t.height <= size
  }

  /** Packable textures always leave fewer leftovers than the input on a full page:
      the root node takes one. */
  lemma LayoutPlacesOne(ts: seq<Texture>, size: int, padding: int)
    requires ts != [] && Packable(ts, size)
    ensures |Layout(ts, size, size, padding).textures| < |ts|
  {
    var s0 := Start(ts, size, size);
    assert Fits(ts[0], Page(size, size)) && Area(ts[0]) > 0;
    BestFitIsBest(Page(size, size), ts);
    var s1 := Step(s0, padding);
    assert |s1.textures| == |ts| - 1;
    RunNeverAddsTextures(s1, padding);
  }

  // ---------------------------------------------------------------------------
  // The last page: halving until leftovers appear.

  /** The page sizes reached from `s` by repeated integer halving, down to 0. */
  function Halvings(s: nat): (hs: set<nat>)
    ensures s in hs && 0 in hs
    ensures forall h :: h in hs ==> h <= s
    decreases s
  {
    if s == 0 then {0} else {s} + Halvings(s / 2)
  }

  /** Halving a size reached by halving reaches another one: from 0 the loop
      stays at 0. */
  lemma {:induction false} HalvingsClosed(s: nat, h: nat)
    requires h in Halvings(s)
    ensures h / 2 in Halvings(s)
    decreases s
  {
    if s != 0 && h != s {
      HalvingsClosed(s / 2, h);
    }
  }

  /** The size of the last page in Process: starting from a size that holds every
      texture, halve while the half still holds them all, and keep the last size that
      did. The result is a halving of `s` that holds everything, every halving between
      it and `s` holds everything too, and its own half leaves textures over. */
  function ShrinkFrom(ts: seq<Texture>, s: nat, padding: int): (r: nat)
    requires ts != [] && Layout(ts, s, s, padding).textures == []
    ensures 1 <= r <= s && r in Halvings(s)
    ensures Layout(ts, r, r, padding).textures == []
    ensures Layout(ts, r / 2, r / 2, padding).textures != []
    decreases s
  {
    FittingPageIsPositive(ts, s, s, padding);
    FittingPageIsPositive(ts, s / 2, s / 2, padding);
    if Layout(ts, s / 2, s / 2, padding).textures != [] then s
    else ShrinkFrom(ts, s / 2, padding)
  }

  /** Every halving of `s` from the chosen size up holds every texture: the search
      stops at the first halving that does not. */
  lemma {:induction false} ShrinkFromHoldsAbove(ts: seq<Texture>, s: nat, padding: int, h: nat)
    requires ts != [] && Layout(ts, s, s, padding).textures == []
    requires h in Halvings(s) && h >= ShrinkFrom(ts, s, padding)
    ensures Layout(ts, h, h, padding).textures == []
    decreases s
  {
    FittingPageIsPositive(ts, s, s, padding);
    if h != s && Layout(ts, s / 2, s / 2, padding).textures == [] {
      assert s != 0;
      ShrinkFromHoldsAbove(ts, s / 2, padding, h);
    }
  }

  /** The restore step as the code writes it, after the first halving that left
      textures over: double the failed size; the graphics copy first turns a 0 into
      a 1, the font copy does not. */
  function RestoreAsWritten(failed: nat, clampZero: bool): nat {
    if clampZero && failed == 0 then 1 else failed * 2
  }

  /** The last-page size as the code computes it: halve until leftovers appear, then
      restore with RestoreAsWritten. */
  function ShrinkAsWritten(ts: seq<Texture>, s: nat, padding: int, clampZero: bool): nat
    requires ts != [] && Layout(ts, s, s, padding).textures == []
    decreases s
  {
    FittingPageIsPositive(ts, s, s, padding);
    if Layout(ts, s / 2, s / 2, padding).textures != [] then RestoreAsWritten(s / 2, clampZero)
    else ShrinkAsWritten(ts, s / 2, padding, clampZero)
  }

  predicate IsPowerOfTwo(n: nat)
    decreases n
  {
    n == 1 || (n >= 2 && n % 2 == 0 && IsPowerOfTwo(n / 2))
  }

  /** For a power-of-two page size the code's restore step lands exactly on the
      last size that held everything: always with the 0 -> 1 clamp of the graphics
      copy, and without it (the font copy) whenever that size is at least 2. */
  lemma {:induction false} AsWrittenAgreesOnPowersOfTwo(ts: seq<Texture>, s: nat, padding: int)
    requires ts != [] && Layout(ts, s, s, padding).textures == [] && IsPowerOfTwo(s)
    ensures ShrinkAsWritten(ts, s, padding, true) == ShrinkFrom(ts, s, padding)
    ensures ShrinkFrom(ts, s, padding) >= 2 ==> ShrinkAsWritten(ts, s, padding, false) == ShrinkFrom(ts, s, padding)
    decreases s
  {
    FittingPageIsPositive(ts, s, s, padding);
    if Layout(ts, s / 2, s / 2, padding).textures == [] {
      FittingPageIsPositive(ts, s / 2, s / 2, padding);
      AsWrittenAgreesOnPowersOfTwo(ts, s / 2, padding);
    }
  }

  // ---------------------------------------------------------------------------
  // Process: the sequence of pages.

  /** The leftovers of a layout are some of its inputs, so they stay packable. */
  lemma LeftoversPackable(ts: seq<Texture>, size: int, width: int, height: int, padding: int)
    requires Packable(ts, size)
    ensures Packable(Layout(ts, width, height, padding).textures, size)
  {
    var left := Layout(ts, width, height, padding).textures;
    LayoutPartition(ts, width, height, padding);
    forall t | t in left ensures 1 <= t.width <= size && 1 <= t.height <= size {
      assert t in multiset(left);
      assert t in multiset(ts);
    }
  }

  /** One page of Process: its size, the textures offered to it, and its layout. */
  datatype Sheet = Sheet(size: int, input: seq<Texture>, layout: LayoutState)

  /** The pages Process produces: full-size pages while a full page leaves
      textures over, then one last page shrunk to the smallest halving that still
      holds the rest. */
  function Paginate(ts: seq<Texture>, size: int, padding: int): (pages: seq<Sheet>)
    requires Packable(ts, size)
    ensures (pages == []) == (ts == [])
    decreases |ts|
  {
    if ts == [] then []
    else
      var full := Layout(ts, size, size, padding);
      LayoutPlacesOne(ts, size, padding);
      if full.textures == [] then
        var r := ShrinkFrom(ts, size, padding);
        [Sheet(r, ts, Layout(ts, r, r, padding))]
      else
        LeftoversPackable(ts, size, size, size, padding);
        [Sheet(size, ts, full)] + Paginate(full.textures, size, padding)
  }

  /** The first page of Process, and the pages after it. */
  lemma PaginateFirst(ts: seq<Texture>, size: int, padding: int)
    requires Packable(ts, size) && ts != []
    ensures var full := Layout(ts, size, size, padding);
      size >= 1 && |full.textures| < |ts| &&
      (full.textures == [] ==>
         Paginate(ts, size, padding) ==
           [Sheet(ShrinkFrom(ts, size, padding), ts,
                  Layout(ts, ShrinkFrom(ts, size, padding), ShrinkFrom(ts, size, padding), padding))]) &&
      (full.textures != [] ==>
         Packable(full.textures, size) &&
         Paginate(ts, size, padding) == [Sheet(size, ts, full)] + Paginate(full.textures, size, padding))
  {
    assert ts[0] in ts;
    LayoutPlacesOne(ts, size, padding);
    LeftoversPackable(ts, size, size, size, padding);
  }

  /** A page holds the layout, at its own size, of a non-empty set of textures it
      is offered. */
  predicate LaidOut(sh: Sheet, padding: int) {
    sh.input != [] && sh.layout == Layout(sh.input, sh.size, sh.size, padding)
  }

  /** The pages of Process: the first is offered every texture, each page is the
      layout of what it is offered at its own size, and there are at most as many
      pages as textures. */
  lemma {:induction false} PaginateLayouts(ts: seq<Texture>, size: int, padding: int)
    requires Packable(ts, size)
    ensures var pages := Paginate(ts, size, padding);
      |pages| <= |ts| &&
      (pages != [] ==> pages[0].input == ts) &&
      (forall k :: 0 <= k < |pages| ==> LaidOut(pages[k], padding))
    decreases |ts|
  {
    if ts != [] {
      var full := Layout(ts, size, size, padding);
      PaginateFirst(ts, size, padding);
      var pages := Paginate(ts, size, padding);
      if full.textures != [] {
        PaginateLayouts(full.textures, size, padding);
        var rest := Paginate(full.textures, size, padding);
        forall k | 0 <= k < |pages| ensures LaidOut(pages[k], padding) {
          if k > 0 { assert pages[k] == rest[k - 1]; }
        }
      } else {
        var r := ShrinkFrom(ts, size, padding);
        assert pages[0] == Sheet(r, ts, Layout(ts, r, r, padding));
      }
    }
  }

  /** Page `k` is full size, leaves textures over, and passes exactly those on to
      page `k + 1`. */
  predicate PassesOn(pages: seq<Sheet>, k: nat, size: int)
    requires k + 1 < |pages|
  {
    pages[k].size == size && pages[k].layout.textures != [] &&
    pages[k + 1].input == pages[k].layout.textures
  }

  /** Every page of Process but the last is full size, leaves textures over, and
      passes exactly those on to the next page. */
  lemma {:induction false} PaginateChain(ts: seq<Texture>, size: int, padding: int)
    requires Packable(ts, size)
    ensures var pages := Paginate(ts, size, padding);
      forall k :: 0 <= k < |pages| - 1 ==> PassesOn(pages, k, size)
    decreases |ts|
  {
    if ts != [] {
      var full := Layout(ts, size, size, padding);
      PaginateFirst(ts, size, padding);
      if full.textures != [] {
        PaginateChain(full.textures, size, padding);
        PaginateLayouts(full.textures, size, padding);
        var rest := Paginate(full.textures, size, padding);
        var pages := Paginate(ts, size, padding);
        assert rest[0].input == full.textures;
        forall k | 0 <= k < |pages| - 1 ensures PassesOn(pages, k, size) {
          if k == 0 {
            assert pages[1] == rest[0];
          } else {
            assert PassesOn(rest, k - 1, size);
            assert pages[k] == rest[k - 1] && pages[k + 1] == rest[k];
          }
        }
      }
    }
  }

  /** A last page: it is offered textures that all fit on a full page, its size is
      the one ShrinkFrom chooses from the full page size, and it leaves nothing
      over. */
  predicate FinalSheet(sh: Sheet, size: int, padding: int) {
    size >= 1 && sh.input != [] && Layout(sh.input, size, size, padding).textures == [] &&
    sh.size == ShrinkFrom(sh.input, size, padding) && sh.layout.textures == []
  }

  /** The last page of Process is a final sheet. */
  lemma {:induction false} PaginateLast(ts: seq<Texture>, size: int, padding: int)
    requires Packable(ts, size) && ts != []
    ensures var pages := Paginate(ts, size, padding);
      FinalSheet(pages[|pages| - 1], size, padding)
    decreases |ts|
  {
    var full := Layout(ts, size, size, padding);
    PaginateFirst(ts, size, padding);
    var pages := Paginate(ts, size, padding);
    if full.textures != [] {
      PaginateLast(full.textures, size, padding);
      var rest := Paginate(full.textures, size, padding);
      assert pages[|pages| - 1] == rest[|rest| - 1];
    } else {
      ShrunkPageIsFinal(ts, size, padding, ShrinkFrom(ts, size, padding));
    }
  }

  /** The shrunk page offered textures that a full page holds is a final sheet. */
  lemma ShrunkPageIsFinal(ts: seq<Texture>, size: int, padding: int, r: nat)
    requires size >= 1 && ts != [] && Layout(ts, size, size, padding).textures == []
    requires r == ShrinkFrom(ts, size, padding)
    ensures FinalSheet(Sheet(r, ts, Layout(ts, r, r, padding)), size, padding)
  {
  }

  /** Every texture placed on any page, page by page. */
  function AllPlaced(pages: seq<Sheet>): seq<Texture> {
    if pages == [] then [] else Placed(pages[0].layout.nodes) + AllPlaced(pages[1..])
  }

  /** Process places every texture exactly once across its pages. */
  lemma {:induction false} PaginatePartition(ts: seq<Texture>, size: int, padding: int)
    requires Packable(ts, size)
    ensures multiset(AllPlaced(Paginate(ts, size, padding))) == multiset(ts)
    decreases |ts|
  {
    if ts != [] {
      var full := Layout(ts, size, size, padding);
      PaginateFirst(ts, size, padding);
      var pages := Paginate(ts, size, padding);
      if full.textures == [] {
        var r := ShrinkFrom(ts, size, padding);
        LayoutPartition(ts, r, r, padding);
        assert AllPlaced(pages) == Placed(Layout(ts, r, r, padding).nodes) + AllPlaced([]);
      } else {
        PaginatePartition(full.textures, size, padding);
        LayoutPartition(ts, size, size, padding);
        assert pages[1..] == Paginate(full.textures, size, padding);
      }
    }
  }

  // ---------------------------------------------------------------------------
  // Two inputs on which the code's restore step goes wrong.

  /** A page that fits none of the textures holds none of them. */
  lemma LayoutNothingFits(ts: seq<Texture>, width: int, height: int, padding: int)
    requires ts != [] && forall j :: 0 <= j < |ts| ==> !Fits(ts[j], Page(width, height))
    ensures Layout(ts, width, height, padding).textures == ts
  {
    BestFitIsBest(Page(width, height), ts);
    assert BestFit(Page(width, height), ts) == None;
    var s0 := Start(ts, width, height);
    var s1 := Step(s0, padding);
    assert s1.free == [];
    assert Run(s0, padding) == Run(s1, padding) == s1;
  }

  /** A single texture with a positive area is placed on any page it fits. */
  lemma LayoutOneFits(t: Texture, width: int, height: int, padding: int)
    requires Fits(t, Page(width, height)) && Area(t) > 0
    ensures Layout([t], width, height, padding).textures == []
  {
    BestFitIsBest(Page(width, height), [t]);
    assert BestFit(Page(width, height), [t]) == Some(0);
    var s0 := Start([t], width, height);
    var s1 := Step(s0, padding);
    assert s1.textures == [];
    assert Run(s0, padding) == Run(s1, padding) == s1;
  }

  /** Graphics copy, page size 3 (not a power of two), one 3 x 3 texture: the page
      holds it at size 3, the half (1) does not, and the code restores 1 * 2 = 2, a
      page that holds nothing. Process then appends an empty page and starts over
      with the same single texture, forever. The intended size is 3. */
  lemma GraphicsRestoreOvershoots()
    ensures var ts := [Texture("a.png", 3, 3, 0, 0, 3, 3)];
      Layout(ts, 3, 3, 2).textures == [] &&
      ShrinkAsWritten(ts, 3, 2, true) == 2 &&
      Layout(ts, 2, 2, 2).textures == ts &&
      ShrinkFrom(ts, 3, 2) == 3
  {
    var t := Texture("a.png", 3, 3, 0, 0, 3, 3);
    LayoutOneFits(t, 3, 3, 2);
    LayoutNothingFits([t], 1, 1, 2);
    LayoutNothingFits([t], 2, 2, 2);
  }

  /** Font copy, page size 2 (a power of two), one 1 x 1 glyph: the glyph fits at 2
      and at 1, the half of 1 is 0 and leaves it over, and the code restores
      0 * 2 = 0 with no clamp, a page that holds nothing. Process then appends an
      empty 0 x 0 page and starts over with the same glyph, forever. The intended
      size is 1. */
  lemma FontRestoreCollapses()
    ensures var ts := [Texture("a.png", 1, 1, 0, 0, 1, 1)];
      Layout(ts, 2, 2, 2).textures == [] &&
      Layout(ts, 1, 1, 2).textures == [] &&
      ShrinkAsWritten(ts, 2, 2, false) == 0 &&
      Layout(ts, 0, 0, 2).textures == ts &&
      ShrinkFrom(ts, 2, 2) == 1
  {
    var t := Texture("a.png", 1, 1, 0, 0, 1, 1);
    LayoutOneFits(t, 2, 2, 2);
    LayoutOneFits(t, 1, 1, 2);
    LayoutEmptyPage([t], 0, 0, 2);
  }
}
