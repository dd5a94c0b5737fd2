# GMS patcher importers: a Dafny model

This project models the import core of a GameMaker data-file patcher, written in
C# on top of UndertaleModLib. Four importers and the command-line parser are
covered:

- **The graphics importer.** PNG files are packed into square atlas pages by a
  guillotine rectangle packer. Each placed image becomes a texture page item.
  By the folder it sits in, it becomes a background or a frame of a sprite. A
  sprite's frame slots, size and margins are updated. Sprites whose shape
  changed get a new collision mask, encoded from the page's alpha channel.
  Before anything is imported, `CheckValidity` looks for duplicate file names,
  frame numbers that do not fit an Int32, and holes in a sprite's frames.
- **The font importer.** The same packer, copied with one difference in the
  last-page step. Each placed glyph sheet becomes the texture of a font. The
  font's fields come from a `;`-separated glyph file that `fontUpdate` reads
  row by row.
- **The audio importer.** For each `.ogg`/`.wav` file it decides embedding,
  decoding and the audio group. It then creates the sound, replaces its
  properties, or relinks only its audio.
- **`Arguments.Parse`.** The patcher's command line.

Modules, one per concern:

- `wrappers.dfy` (`Wrappers`): `Option`, `Result`.
- `text.dfy` (`Text`): ASCII case folding, the .NET number/boolean parsers the importers call, `String.Split`.
- `geometry.dfy` (`Geometry`): integer rectangles, containment, disjointness.
- `atlas_layout.dfy` (`AtlasLayout`): the packer as pure functions, its properties, the last-page rule.
- `atlas_packer.dfy` (`AtlasPacker`): classes `Atlas` and `Packer`, the packer in place, proved equal to `AtlasLayout`.
- `sprite_names.dfy` (`SpriteNames`): `GetSpriteType`, `Path` helpers, the frame pattern `^(.+?)(?:_(\d+))$`.
- `frame_check.dfy` (`FrameCheck`): `CheckValidity`.
- `collision_mask.dfy` (`CollisionMask`): the collision-mask encoder on a 2-D alpha array.
- `sprite_import.dfy` (`SpriteImport`): classes `Sprite` and `GraphicsData`: the per-node import and the mask pass.
- `font_import.dfy` (`FontImport`): the glyph-file reader, class `Font`, class `FontData`.
- `audio_import.dfy` (`AudioImport`): the per-file decision, classes `Sound` and `AudioData`.
- `args_parser.dfy` (`ArgsParser`): class `Arguments` and `Parse`.

Some code updates objects in place: `Packer`, `Atlas`, sprites, fonts, sounds,
the data tables and `Arguments`. That code is modelled by classes whose methods
are proved against pure specification functions. The packer, the glyph reader
and the command line are each a pure function with lemmas about it, plus a
method that runs the source's loop and is proved to compute that function.

## Model

| member | source | states |
|---|---|---|
| `ArgsParser.GetArgValue` | ArgsParser.cs:67-73 | A value exists exactly when the index lies inside the command line. It is that token, whatever it looks like. Otherwise the failure is "Expected value after" and the option name. |
| `ArgsParser.DerivedOutput` | ArgsParser.cs:25-35 | The derived output always ends in ".patched.win". A data path ending in ".win" (any case) loses those four characters first; any other path is kept whole. |
| `ArgsParser.RunAppend` | ArgsParser.cs:18-62 | Tokens after a command line that parses are read starting from the options that line left. |
| `ArgsParser.LaterValueWins` | ArgsParser.cs:22-44 | A value-taking option that occurs again overwrites the earlier value. |
| `ArgsParser.FlagSets` | ArgsParser.cs:46-57 | "--skip-timecheck" sets both skip flags, "--skip-hashcheck" only the hash flag, and "--make-checks" test mode. Nothing else changes. |
| `ArgsParser.ValueAtEndFails` | ArgsParser.cs:67-70 | A value-taking option as the last token fails, naming the option ("--patcher" for "--patcher-file"). |
| `ArgsParser.UnknownFails` | ArgsParser.cs:59-60 | An unknown token where an option is expected fails with "Unknown argument: " and the token, whatever follows. |
| `ArgsParser.ValueMayLookLikeOption` | ArgsParser.cs:42-44 | An illustration: the token after "--patcher-file" is its value even when it is itself an option. |
| `ArgsParser.DataPathDerivesOutput` | ArgsParser.cs:22-36 | "--data-path p" with no "--output" anywhere sets the data path and the derived output. |
| `ArgsParser.OutputGivenKeepsOutput` | ArgsParser.cs:25-40 | Suppose "--output" occurs anywhere, even as another option's value. Then the output is what it was at the start, or the token after some "--output". |
| `ArgsParser.Arguments.constructor` | ArgsParser.cs:5-16 | A new `Arguments` has every path null and every flag false. |
| `ArgsParser.Arguments.PatcherMode` | ArgsParser.cs:12 | The mode is "enabled" exactly when a patcher file is set, and null otherwise. |
| `ArgsParser.Arguments.Parse` | ArgsParser.cs:14-65 | The loop succeeds exactly when the command-line function succeeds. A new object then holds its options; otherwise the exception message is the function's error. |
| `Text.TryParseInt32Digits` | GMS-Patcher/utils/patching/graphicsimport.cs:772 | A digit string parses exactly when it is non-empty and at most Int32.MaxValue. The value is its decimal value. |
| `Text.ParseUnsigned` | GMS-Patcher/utils/patching/fontimport.cs:172-194 | The parse succeeds exactly when the text, once trimmed of trailing NULs, then of whitespace (tab to carriage return, and space), then of one leading '+', is a non-empty digit string whose value is at most the type's maximum. The result is that value. |
| `Text.ParseInt16` | GMS-Patcher/utils/patching/fontimport.cs:191-192 | Text with a leading '-' after the same trimming parses exactly when the digits after it are non-empty and at most 32768, giving minus their value. Other text parses as an unsigned number up to 32767. Every result lies in [-32768, 32767]. |
| `Text.ParseBool` | GMS-Patcher/utils/patching/fontimport.cs:173-174 | The result is true exactly when the text, trimmed of Unicode whitespace and NUL at both ends, is "true", and false exactly when it is "false", in any case. Anything else fails. |
| `Text.ParseUnsignedOfDecimal` | GMS-Patcher/utils/patching/fontimport.cs:172 | A number written in decimal and in range parses back to itself. |
| `Text.Split` | GMS-Patcher/utils/patching/fontimport.cs:154 | `Split(';')` yields at least one piece, and no piece contains the separator. |
| `Text.SplitJoin` | GMS-Patcher/utils/patching/fontimport.cs:154 | Splitting undoes joining when no piece contains the separator. |
| `Geometry.ReplaceByParts` | GMS-Patcher/utils/patching/graphicsimport.cs:642-660 | A free rectangle replaced by a placed piece and children inside it, all apart from each other, keeps placed and free rectangles pairwise disjoint. |
| `SpriteNames.ImportType` | GMS-Patcher/utils/patching/graphicsimport.cs:103-110 | With importUnknownAsSprite, Unknown and Font become Sprite. Otherwise the folder's kind is kept. Background is never changed. |
| `SpriteNames.TypeOfFolder` | GMS-Patcher/utils/patching/graphicsimport.cs:683-705 | A file under `root/folder/` is classified by the lower-cased folder name alone. |
| `SpriteNames.FolderCase` | GMS-Patcher/utils/patching/graphicsimport.cs:690-704 | An illustration of the case folding: "Sprites", "SPRITE", "Backgrounds" and "fonts" are recognised; "sprites2" is not. |
| `SpriteNames.MatchFrame` | GMS-Patcher/utils/patching/graphicsimport.cs:21 | The frame group of a match is all digits. |
| `SpriteNames.MatchFrameParts` | GMS-Patcher/utils/patching/graphicsimport.cs:21 | A match splits the stem into a non-empty name without line breaks, '_', and non-empty digits. |
| `SpriteNames.MatchFrameOf` | GMS-Patcher/utils/patching/graphicsimport.cs:21 | Conversely, name + "_" + digits always matches with exactly those groups, even when the name holds underscores. |
| `SpriteNames.SpriteFrameOf` | GMS-Patcher/utils/patching/graphicsimport.cs:136-141 | A stem the pattern does not match gives the empty name (the file is then skipped). The frame is 0 when the digits do not fit an Int32. |
| `SpriteNames.FrameNameRoundTrip` | GMS-Patcher/utils/patching/graphicsimport.cs:136-141 | Writing `name_frame` and reading it back gives the same sprite and frame. |
| `AtlasLayout.HorizontalSplitOk` | GMS-Patcher/utils/patching/graphicsimport.cs:548-566 | The children are free nodes with positive sides, kept exactly when their computed sides are positive. They lie inside the parent, clear of the placed rectangle and of each other. |
| `AtlasLayout.VerticalSplitOk` | GMS-Patcher/utils/patching/graphicsimport.cs:568-586 | The same for the vertical split, with its own child shapes. |
| `AtlasLayout.SplitKidsOk` | GMS-Patcher/utils/patching/graphicsimport.cs:647-654 | Whichever split the node's type selects, its children are correct around a fitting texture. |
| `AtlasLayout.BestFitFromIsBest` | GMS-Patcher/utils/patching/graphicsimport.cs:593-625 | Scanning on from a best-so-far candidate yields the best fit of the whole list. |
| `AtlasLayout.BestFitIsBest` | GMS-Patcher/utils/patching/graphicsimport.cs:588-627 | The choice is a fitting texture of largest positive area, the first one on ties. It is none exactly when every fitting texture has zero area. |
| `AtlasLayout.RemoveAtMultiset` | GMS-Patcher/utils/patching/graphicsimport.cs:658 | Removing the chosen texture takes exactly that one out of the list, as a multiset. |
| `AtlasLayout.Step` | GMS-Patcher/utils/patching/graphicsimport.cs:640-661 | Each pass removes a texture, or keeps the textures and shortens the free queue, so the loop ends. |
| `AtlasLayout.StepKeepsPartition` | GMS-Patcher/utils/patching/graphicsimport.cs:640-661 | A pass keeps "placed plus remaining = input", and free nodes stay empty. |
| `AtlasLayout.LayoutPartition` | GMS-Patcher/utils/patching/graphicsimport.cs:629-663 | LayoutAtlas's placed textures plus its leftovers are exactly its input, as a multiset. |
| `AtlasLayout.StepKeepsGeometry` | GMS-Patcher/utils/patching/graphicsimport.cs:640-661 | A pass keeps every node inside the page, all nodes pairwise disjoint, and placed nodes at their texture's size. |
| `AtlasLayout.LayoutGeometry` | GMS-Patcher/utils/patching/graphicsimport.cs:629-663 | With padding >= 0, a page's nodes lie inside it and do not overlap. Each placed node has its texture's width and height. |
| `AtlasLayout.RunNeverAddsTextures` | GMS-Patcher/utils/patching/graphicsimport.cs:640-661 | The loop never grows the texture list. |
| `AtlasLayout.LayoutEmptyPage` | GMS-Patcher/utils/patching/graphicsimport.cs:613-621 | A page of zero width or height places nothing: every texture is left over. |
| `AtlasLayout.FittingPageIsPositive` | GMS-Patcher/utils/patching/graphicsimport.cs:629-663 | A page that holds a non-empty input has positive sides. |
| `AtlasLayout.LayoutPlacesOne` | GMS-Patcher/utils/patching/graphicsimport.cs:402-407 | A full page always places at least one admitted texture, so Process's page loop ends. |
| `AtlasLayout.Halvings` | GMS-Patcher/utils/patching/graphicsimport.cs:411-416 | The sizes reached by repeated halving lie between 0 and the start size. |
| `AtlasLayout.HalvingsClosed` | GMS-Patcher/utils/patching/graphicsimport.cs:411-416 | Halving a size reached by halving reaches another one; from 0 the loop stays at 0. |
| `AtlasLayout.ShrinkFrom` | GMS-Patcher/utils/patching/graphicsimport.cs:408-436 | The last page's size is a halving of the full size. It holds every texture, and its half does not. |
| `AtlasLayout.ShrinkFromHoldsAbove` | GMS-Patcher/utils/patching/graphicsimport.cs:411-416 | Every halving from the chosen size up to the full size holds every texture. |
| `AtlasLayout.AsWrittenAgreesOnPowersOfTwo` | GMS-Patcher/utils/patching/graphicsimport.cs:417-434 | For a power-of-two page size, the code's restore step lands on the intended size. With the font copy's unclamped step this needs that size to be at least 2. |
| `AtlasLayout.LeftoversPackable` | GMS-Patcher/utils/patching/graphicsimport.cs:437-438 | Leftovers passed to the next page still fit a full page. |
| `AtlasLayout.Paginate` | GMS-Patcher/utils/patching/graphicsimport.cs:402-439 | Process produces no page exactly when there are no textures. |
| `AtlasLayout.PaginateFirst` | GMS-Patcher/utils/patching/graphicsimport.cs:404-438 | The first page is full size and passes on its leftovers when some remain. Otherwise it is the shrunk last page. |
| `AtlasLayout.PaginateLayouts` | GMS-Patcher/utils/patching/graphicsimport.cs:402-439 | There are at most as many pages as textures. The first page is offered everything, and each page is the layout of what it is offered. |
| `AtlasLayout.PaginateChain` | GMS-Patcher/utils/patching/graphicsimport.cs:407-438 | Every page but the last is full size, leaves textures over, and passes exactly those on. |
| `AtlasLayout.PaginateLast` | GMS-Patcher/utils/patching/graphicsimport.cs:408-436 | The last page is shrunk to the chosen size and leaves nothing over. |
| `AtlasLayout.PaginatePartition` | GMS-Patcher/utils/patching/graphicsimport.cs:391-440 | Process places every texture exactly once across its pages. |
| `AtlasLayout.GraphicsRestoreOvershoots` | GMS-Patcher/utils/patching/graphicsimport.cs:411-435 | Page size 3 with one 3x3 texture: the code restores size 2, which holds nothing. The intended size is 3. |
| `AtlasLayout.FontRestoreCollapses` | GMS-Patcher/utils/patching/fontimport.cs:292-301 | Page size 2 with one 1x1 glyph: the code restores 0 * 2 = 0, which holds nothing. The intended size is 1. |
| `AtlasPacker.TextureOf` | GMS-Patcher/utils/patching/graphicsimport.cs:494-534 | The texture keeps the file's path and untrimmed size. It is at least 1x1 and lies inside the untrimmed image. Backgrounds and font glyphs are not trimmed. |
| `AtlasPacker.Scan` | GMS-Patcher/utils/patching/graphicsimport.cs:482-546 | The scanned textures fit the page and have positive sides, at most one per file. A file whose size cannot be read gives none. |
| `AtlasPacker.ScanKeepsAdmitted` | GMS-Patcher/utils/patching/graphicsimport.cs:486-492 | Every file with a readable size no larger than the page gives a texture. Every texture comes from such a file. |
| `AtlasPacker.ScanFrom` | GMS-Patcher/utils/patching/graphicsimport.cs:486-545 | The scan from one file on is that file's texture, if admitted, followed by the scan of the rest. |
| `AtlasPacker.ChosenAsWrittenAgrees` | GMS-Patcher/utils/patching/fontimport.cs:411-450 | On a texture with non-negative sides, the float test of FindBestFitForNode (fits, coverage above 0) chooses it exactly when it fits and has a positive area. |
| `AtlasPacker.UnreadableSheetNeverLeftOver` | GMS-Patcher/utils/patching/fontimport.cs:345-358 | The font scan as written admits a -1 x -1 sheet, which the corrected scan skips. Every size the last page's halving loop reaches places the sheet, and halving stays among those sizes, so the loop never ends. |
| `AtlasPacker.Atlas.constructor` | GMS-Patcher/utils/patching/graphicsimport.cs:404-406 | A new page is square at the given size, with no nodes. |
| `AtlasPacker.Packer.constructor` | GMS-Patcher/utils/patching/graphicsimport.cs:384-389 | A new packer has no textures and no pages. |
| `AtlasPacker.Packer.ScanForTextures` | GMS-Patcher/utils/patching/graphicsimport.cs:482-546 | The scan appends the admitted files' textures to SourceTextures, in file order. |
| `AtlasPacker.Packer.FindBestFitForNode` | GMS-Patcher/utils/patching/graphicsimport.cs:588-627 | The loop returns the best fit, a fitting texture of the list. |
| `AtlasPacker.Packer.LayoutAtlas` | GMS-Patcher/utils/patching/graphicsimport.cs:629-663 | The page's nodes and the returned leftovers are those of the page layout. |
| `AtlasPacker.Packer.ShrinkLastAtlas` | GMS-Patcher/utils/patching/graphicsimport.cs:408-436 | The last page takes the chosen shrunk size, is laid out there, and leaves nothing over. |
| `AtlasPacker.Packer.Process` | GMS-Patcher/utils/patching/graphicsimport.cs:391-440 | The pages produced are exactly the pages of the pagination of the scanned textures. |
| `AtlasPacker.Packer.PackAll` | GMS-Patcher/utils/patching/graphicsimport.cs:402-439 | The page loop appends the pagination's pages and keeps the pages before them. |
| `AtlasPacker.Packer.PackNext` | GMS-Patcher/utils/patching/graphicsimport.cs:404-438 | One pass appends the next page and strictly shortens the remaining textures. |
| `AtlasPacker.Packer.PackPage` | GMS-Patcher/utils/patching/graphicsimport.cs:404-436 | One pass yields the first page of the pagination. Its leftovers paginate as the remaining pages. |
| `CollisionMask.Stride` | GMS-Patcher/utils/patching/graphicsimport.cs:267 | The stride is the width rounded up to a multiple of 8. |
| `CollisionMask.Extent` | GMS-Patcher/utils/patching/graphicsimport.cs:270-272 | The loop count is bounded by both the mask and the node, and is never negative. |
| `CollisionMask.CopyOf` | GMS-Patcher/utils/patching/graphicsimport.cs:266-281 | The copied block lies within both mask and node. The mask is stride x height bits. |
| `CollisionMask.MaskBits` | GMS-Patcher/utils/patching/graphicsimport.cs:269-284 | Each mask bit is set exactly when a copied pixel lands on it and that pixel's alpha is above 0. |
| `CollisionMask.CopyPixel` | GMS-Patcher/utils/patching/graphicsimport.cs:277-281 | Copying one pixel sets its own bit from its alpha and leaves every other bit. |
| `CollisionMask.CopyRow` | GMS-Patcher/utils/patching/graphicsimport.cs:272-283 | The inner loop fails exactly when its last write would fall past the mask. Otherwise row y is copied. |
| `CollisionMask.Rasterize` | GMS-Patcher/utils/patching/graphicsimport.cs:269-284 | The mask loop fails exactly when some write falls outside the BitArray. Otherwise it yields the mask bits. |
| `CollisionMask.ReverseGroups` | GMS-Patcher/utils/patching/graphicsimport.cs:285-292 | The loop reverses every group of 8 bits. |
| `CollisionMask.CopyToBytes` | GMS-Patcher/utils/patching/graphicsimport.cs:294-296 | `CopyTo` gives one byte per 8 bits. |
| `CollisionMask.MaskBytes` | GMS-Patcher/utils/patching/graphicsimport.cs:294-298 | The stored mask has one byte per 8 mask bits. |
| `CollisionMask.EncodeMask` | GMS-Patcher/utils/patching/graphicsimport.cs:264-298 | The encoder yields the mask's bytes when every write fits, and fails otherwise. |
| `CollisionMask.MaskByteBit` | GMS-Patcher/utils/patching/graphicsimport.cs:285-296 | Pixel j of a group of 8 lands in bit 7 - j of its byte: the first pixel goes to the high bit. |
| `CollisionMask.GroupByteBit` | GMS-Patcher/utils/patching/graphicsimport.cs:285-296 | After the reversal and `CopyTo`, bit 7 - j of byte b is bit j of group b. |
| `CollisionMask.ReversedAt` | GMS-Patcher/utils/patching/graphicsimport.cs:290 | Reversal sends bit j of a group to position 7 - j. |
| `CollisionMask.ByteOfGroup` | GMS-Patcher/utils/patching/graphicsimport.cs:296 | Byte b of `CopyTo` packs group b, low bit first. |
| `CollisionMask.PackBitsAt` | GMS-Patcher/utils/patching/graphicsimport.cs:296 | Reading bit p of a packed byte gives the p-th bit packed. |
| `CollisionMask.MaskPixel` | GMS-Patcher/utils/patching/graphicsimport.cs:277-281 | When the writes fit, pixel (x, y) decides the bit at origin + y * stride + x, inside the mask. |
| `CollisionMask.MaskBitIsSomePixel` | GMS-Patcher/utils/patching/graphicsimport.cs:269-284 | A set bit is always some opaque copied pixel's bit. |
| `SpriteImport.UShort` | GMS-Patcher/utils/patching/graphicsimport.cs:85-94 | The `(ushort)` cast keeps the value modulo 2^16, and keeps it unchanged when in range. |
| `SpriteImport.PageItemOf` | GMS-Patcher/utils/patching/graphicsimport.cs:83-98 | The page item holds the node's bounds as source and target, the texture's offset and untrimmed size, and the page. Values in ushort range are kept as they are. |
| `SpriteImport.NewSlots` | GMS-Patcher/utils/patching/graphicsimport.cs:173-188 | A new sprite has `frame` empty slots, then the frame. |
| `SpriteImport.FrameSlots` | GMS-Patcher/utils/patching/graphicsimport.cs:194-203 | A frame past the end grows the list to it, and every new slot holds this frame. Otherwise only that slot is replaced. |
| `SpriteImport.Hull` | GMS-Patcher/utils/patching/graphicsimport.cs:211-241 | Grown margins are the smallest box covering the old margins and the frame's. They differ from the old ones exactly when some side moved outward. |
| `SpriteImport.HullIdempotent` | GMS-Patcher/utils/patching/graphicsimport.cs:211-241 | Growing toward the same frame twice changes nothing the second time. |
| `SpriteImport.PreciseWithoutMaskIsQueued` | GMS-Patcher/utils/patching/graphicsimport.cs:243-256 | A precise sprite with no mask is always queued for a mask, whatever the version. |
| `SpriteImport.Sprite.constructor` | GMS-Patcher/utils/patching/graphicsimport.cs:159-188 | A new sprite has the untrimmed size, the frame's trimmed extent as margins and origin 0. Custom properties override these; the box mode, mask type and empty masks are the defaults; frame slots are as in NewSlots (`NewFrom`). |
| `SpriteImport.Sprite.ApplyCustomFields` | GMS-Patcher/utils/patching/graphicsimport.cs:824-884 | Each property present in the configuration replaces its field. Nothing else changes. |
| `SpriteImport.Sprite.PlaceFrame` | GMS-Patcher/utils/patching/graphicsimport.cs:194-203 | The slots become FrameSlots. The method reports whether the frame lay past the end. |
| `SpriteImport.Sprite.GrowMargins` | GMS-Patcher/utils/patching/graphicsimport.cs:211-241 | A manual box (BBoxMode 2) is untouched. Otherwise the margins become the hull with the frame's margins. `grew` is true exactly when they moved. |
| `SpriteImport.Sprite.UpdateWithFrame` | GMS-Patcher/utils/patching/graphicsimport.cs:193-256 | An existing sprite gets custom properties and the frame slot. A frame past the end stops there. Otherwise the size is set, margins grow, and queueing follows the mask rule; every field is given (`FrameTaken`). |
| `SpriteImport.OnPageInAtlas` | GMS-Patcher/utils/patching/graphicsimport.cs:270-274 | A node on the page gives a copy that reads inside the page, over a whole number of bytes. |
| `SpriteImport.BlankMask` | GMS-Patcher/utils/patching/graphicsimport.cs:264-265 | A fresh mask entry is all zero bytes, one per 8 bits. |
| `SpriteImport.GraphicsData.ImportNode` | GMS-Patcher/utils/patching/graphicsimport.cs:80-256 | Every node adds its page item and is imported as `NodeImported` states. A background updates only its table entry. A new sprite holds every field its constructor sets (`NewFrom`); an existing one took the frame with every field as UpdateWithFrame gives it (`FrameTaken`). No other sprite object changes. Unnamed frames and other kinds change nothing else. |
| `SpriteImport.GraphicsData.ImportNamedNode` | GMS-Patcher/utils/patching/graphicsimport.cs:112-256 | The same, once the file name is classified and split; only the sprite of that name may change. |
| `SpriteImport.GraphicsData.AddSprite` | GMS-Patcher/utils/patching/graphicsimport.cs:159-191 | A new sprite with every field its constructor sets is added under its name; no existing sprite changes. It is queued for a mask unless basic rectangles get none. |
| `SpriteImport.GraphicsData.UpdateSprite` | GMS-Patcher/utils/patching/graphicsimport.cs:193-256 | Only the named sprite changes, taking the frame with its size, margins and queue decision as UpdateWithFrame gives them; it is queued exactly when that decision says so. |
| `SpriteImport.GraphicsData.StoreMask` | GMS-Patcher/utils/patching/graphicsimport.cs:264-298 | The sprite's only mask becomes the one encoded from its node. When a write is out of range, the blank entry is left. No other field changes. |
| `SpriteImport.GraphicsData.GenerateMasks` | GMS-Patcher/utils/patching/graphicsimport.cs:261-300 | It succeeds exactly when every queued copy fits. Then every queued sprite has its one encoded mask and the queue is emptied. Only the queued sprites' masks change. |
| `SpriteImport.GraphicsData.MaskAll` | GMS-Patcher/utils/patching/graphicsimport.cs:261-299 | The loop over the queue succeeds exactly when every copy fits, and then masks every queued sprite. Only their masks change. |
| `SpriteImport.GraphicsData.MaskOne` | GMS-Patcher/utils/patching/graphicsimport.cs:262-298 | One turn masks its sprite and changes nothing else. Sprites already done keep their masks. |
| `FrameCheck.Sort` | GMS-Patcher/utils/patching/graphicsimport.cs:797-803 | `OrderBy` yields a sorted permutation of the frame numbers. |
| `FrameCheck.FindMissingFrame` | GMS-Patcher/utils/patching/graphicsimport.cs:810-817 | The gap loop returns the first gap of the sorted frame numbers. |
| `FrameCheck.FirstGapMeansMissing` | GMS-Patcher/utils/patching/graphicsimport.cs:810-817 | Sorted frames pass exactly when they cover every number from the least to the greatest. Otherwise the gap named is the smallest missing number between them. |
| `FrameCheck.FrameDigitsOwn` | GMS-Patcher/utils/patching/graphicsimport.cs:781-790 | The corrected frame collection sees exactly the digits of the listed files that are frames of that sprite itself. |
| `FrameCheck.GapCheck` | GMS-Patcher/utils/patching/graphicsimport.cs:791-817 | A reported hole is always a MissingFrame for the sprite being checked. |
| `FrameCheck.CheckFrames` | GMS-Patcher/utils/patching/graphicsimport.cs:791-818 | The hole check's result is the gap check. A sprite remembered as checked passed it. |
| `FrameCheck.CheckValidity` | GMS-Patcher/utils/patching/graphicsimport.cs:707-822 | The loop reports the first problem among the per-file verdicts, in listing order. |
| `FrameCheck.CheckFile` | GMS-Patcher/utils/patching/graphicsimport.cs:722-819 | One file's verdict is its own. A sprite skipped as already checked has passed its hole check. |
| `FrameCheck.CheckSpriteFile` | GMS-Patcher/utils/patching/graphicsimport.cs:758-819 | The same for a file taken as a sprite frame. |
| `FrameCheck.FrameFileOf` | GMS-Patcher/utils/patching/graphicsimport.cs:781-790 | `{glob}_*.png` matches frame files of sprite glob and of any sprite named glob + "_" + more. The frame pattern gives back their own name and digits. |
| `FrameCheck.RunGap` | GMS-Patcher/utils/patching/graphicsimport.cs:810-816 | An illustration, used by the finding: frames 0, 1, 3 report frame 2 missing. |
| `FrameCheck.WalkNoGap` | GMS-Patcher/utils/patching/graphicsimport.cs:804-818 | An illustration, used by the finding: frames 0, 1 pass. |
| `FrameCheck.GlobCollectsOtherSprites` | GMS-Patcher/utils/patching/graphicsimport.cs:781-816 | Take walk_0, walk_1 and walk_run_3. As written, walk's check sees frames 0, 1, 3 and reports frame 2 missing. Keeping walk's own frames finds no hole. |
| `FrameCheck.FirstSomeMeaning` | GMS-Patcher/utils/patching/graphicsimport.cs:722-821 | The check passes exactly when every file passes. A reported problem is some file's verdict, and all files before it pass. |
| `FontImport.RemoveQuotes` | GMS-Patcher/utils/patching/fontimport.cs:170 | The result has no double quotes; text without quotes is unchanged. |
| `FontImport.GlyphRow` | GMS-Patcher/utils/patching/fontimport.cs:184-193 | A glyph is built exactly when all seven fields parse; its character is field 0. |
| `FontImport.SetHeaderField` | GMS-Patcher/utils/patching/fontimport.cs:172-178 | One header field is set exactly when it parses, and the name, glyphs and range are kept. |
| `FontImport.HeaderFrom` | GMS-Patcher/utils/patching/fontimport.cs:172-179 | Assignments stop at the first field that fails. The row completes exactly when every remaining field parses. |
| `FontImport.HeaderRowMeaning` | GMS-Patcher/utils/patching/fontimport.cs:168-180 | A header row either sets every header field and nothing else, or fails. A failing em size leaves only the name set. |
| `FontImport.Step` | GMS-Patcher/utils/patching/fontimport.cs:156-158 | A blank row changes nothing. |
| `FontImport.StepMeaning` | GMS-Patcher/utils/patching/fontimport.cs:160-200 | A failed header keeps expecting a header. The row after the header starts the range and is a glyph as well. A glyph is appended exactly when its row parses, and a failure is remembered. |
| `FontImport.Rows` | GMS-Patcher/utils/patching/fontimport.cs:152-154 | Each line is split on ';' and parsed, one row per line. |
| `FontImport.ReadRowsAppend` | GMS-Patcher/utils/patching/fontimport.cs:152-201 | Reading two parts of a file one after the other is reading the whole. |
| `FontImport.ReadRowsMonotone` | GMS-Patcher/utils/patching/fontimport.cs:152-201 | Reading never forgets an error, keeps earlier glyphs in front, and never returns to an earlier kind of row. |
| `FontImport.FailingRowFails` | GMS-Patcher/utils/patching/fontimport.cs:197-206 | A non-blank row that fails makes the whole file invalid, whatever surrounds it. |
| `FontImport.ParseBoolText` | GMS-Patcher/utils/patching/fontimport.cs:173-174 | "True"/"False" parse back to the boolean. |
| `FontImport.ParseInt16Text` | GMS-Patcher/utils/patching/fontimport.cs:191-192 | Every Int16 written in decimal parses back to itself. |
| `FontImport.RemoveSurroundingQuotes` | GMS-Patcher/utils/patching/fontimport.cs:170 | A quoted name loses exactly its quotes. |
| `FontImport.HeaderRowOfFields` | GMS-Patcher/utils/patching/fontimport.cs:168-180 | A written header line reads back as the font's name and header fields. |
| `FontImport.HeaderFieldsParse` | GMS-Patcher/utils/patching/fontimport.cs:168-180 | The written header fields, once split, parse as the font's name and each header value. |
| `FontImport.GlyphRowOfFields` | GMS-Patcher/utils/patching/fontimport.cs:184-194 | A written glyph line reads back as that glyph. |
| `FontImport.RowsOfWrittenFont` | GMS-Patcher/utils/patching/fontimport.cs:152-154 | A written font's lines parse as its header row, then one row per glyph. |
| `FontImport.ReadGlyphRows` | GMS-Patcher/utils/patching/fontimport.cs:182-195 | Later glyph rows append their glyphs in order. The last one ends the range. |
| `FontImport.ReadFirstRows` | GMS-Patcher/utils/patching/fontimport.cs:162-195 | A full header, then a glyph row, set the header fields and start and end the range at that glyph. |
| `FontImport.ReadHeaderThenGlyphs` | GMS-Patcher/utils/patching/fontimport.cs:145-201 | A header, then glyph rows, give the header fields, all glyphs in order, and the range from the first glyph to the last, with no error. |
| `FontImport.LaterGlyphRows` | GMS-Patcher/utils/patching/fontimport.cs:182-195 | The glyph rows after the second row append the remaining glyphs. |
| `FontImport.ReadWrittenRows` | GMS-Patcher/utils/patching/fontimport.cs:145-207 | A written font's rows read back as exactly that font, whatever the font held before. |
| `FontImport.ReadWrittenFont` | GMS-Patcher/utils/patching/fontimport.cs:145-207 | Round trip: reading the glyph file written from a font gives exactly that font, without error. |
| `FontImport.Font.constructor` | GMS-Patcher/utils/patching/fontimport.cs:89-91 | A new font has its name, default fields and no texture. |
| `FontImport.Font.ReadHeader` | GMS-Patcher/utils/patching/fontimport.cs:168-180 | Field-by-field assignment yields the header row's result. |
| `FontImport.Font.ReadRow` | GMS-Patcher/utils/patching/fontimport.cs:154-200 | One line read in place equals one step of the reader. |
| `FontImport.Font.ReadRangeStart` | GMS-Patcher/utils/patching/fontimport.cs:162-166 | The row after the header equals the reader's step from state 1. |
| `FontImport.Font.ReadGlyph` | GMS-Patcher/utils/patching/fontimport.cs:182-195 | A glyph row in place equals the glyph step. |
| `FontImport.Font.Update` | GMS-Patcher/utils/patching/fontimport.cs:145-207 | A missing file fails before anything changes. Otherwise the fields end as the reader leaves them, and the update succeeds exactly when no row failed. |
| `FontImport.FontPageItem` | GMS-Patcher/utils/patching/fontimport.cs:69-82 | A glyph sheet's bounds are source, target and bounding size, with no offset. |
| `FontImport.FontData.ImportNode` | GMS-Patcher/utils/patching/fontimport.cs:65-119 | A new font is added, with the sheet as texture, only when its file reads without error. An existing font keeps what the reader set, but gets the texture only on success. No other font changes. |
| `AudioImport.SoundNameOfAudio` | GMS-Patcher/utils/patching/audioimport.cs:52-57 | An audio file's sound name is its file name without the 4-character extension. |
| `AudioImport.Decide` | GMS-Patcher/utils/patching/audioimport.cs:58-67 | A .wav is always embedded and never decoded; an .ogg follows the global settings. In manual mode the file's entry decides, a missing value meaning false. A group is used only for embedded audio, when groups exist and the name is not empty. |
| `AudioImport.EntryFlags` | GMS-Patcher/utils/patching/audioimport.cs:99-105 | Regular is always set. Compressed is set exactly for embedded Ogg. Embedded is set for Wave, and for embedded decoded Ogg. |
| `AudioImport.WaveIsEmbedded` | GMS-Patcher/utils/patching/audioimport.cs:64-107 | Without manual mode a Wave is flagged Embedded and Regular. It is inline unless it goes to a group. |
| `AudioImport.GroupIndex` | GMS-Patcher/utils/patching/audioimport.cs:74-82 | The intended lookup gives the index of the group with that name, appending the group when missing. |
| `AudioImport.GroupLookupMissesNewName` | GMS-Patcher/utils/patching/audioimport.cs:76-82 | As written, a name no group has gives group 0, whose name differs. No group is appended. |
| `AudioImport.GroupLookupsAgree` | GMS-Patcher/utils/patching/audioimport.cs:76-77 | For an existing group both lookups agree. |
| `AudioImport.RemoveFirst` | GMS-Patcher/utils/patching/audioimport.cs:93-94 | `List.Remove` takes out one occurrence, when there is one, and nothing else. |
| `AudioImport.EmbeddedAudio.constructor` | GMS-Patcher/utils/patching/audioimport.cs:92 | New embedded audio holds the file's bytes. |
| `AudioImport.Sound.constructor` | GMS-Patcher/utils/patching/audioimport.cs:118-131 | A new sound has its name and the given fields. |
| `AudioImport.FindSound` | GMS-Patcher/utils/patching/audioimport.cs:69 | `FirstOrDefault` finds the first sound of that name, or none. |
| `AudioImport.AudioData.PlaceInGroup` | GMS-Patcher/utils/patching/audioimport.cs:74-83 | A new grouped sound's group is found by name or appended. Sounds and audio are untouched. |
| `AudioImport.AudioData.EmbedAudio` | GMS-Patcher/utils/patching/audioimport.cs:89-97 | The sound's old audio is removed and fresh audio with the file's bytes is appended. Its index is the last. |
| `AudioImport.AudioData.ImportFile` | GMS-Patcher/utils/patching/audioimport.cs:50-151 | A non-audio file changes nothing. An audio file is imported by its decision and ends with a sound of its name. Sounds and groups only grow, and links are kept. |
| `AudioImport.AudioData.ImportDecided` | GMS-Patcher/utils/patching/audioimport.cs:74-150 | An audio file with a given decision is imported as specified, and links are kept. |
| `AudioImport.AudioData.ImportedKeepsLinked` | GMS-Patcher/utils/patching/audioimport.cs:89-150 | Every sound's audio stays in the list and is shared with no other sound. |
| `AudioImport.AudioData.NewSoundKeepsLinked` | GMS-Patcher/utils/patching/audioimport.cs:116-131 | A new sound gets fresh audio or none, and links are kept. |
| `AudioImport.AudioData.ReplacedSoundKeepsLinked` | GMS-Patcher/utils/patching/audioimport.cs:133-150 | A replaced sound gives its old audio up for fresh audio, and links are kept. |
| `AudioImport.AudioData.ApplyDecision` | GMS-Patcher/utils/patching/audioimport.cs:74-150 | The group, audio and sound steps together implement the import. |
| `AudioImport.AudioData.ImportKeepingLinks` | GMS-Patcher/utils/patching/audioimport.cs:50-151 | One file's import: a non-audio file changes nothing, only the sound named after an audio file may change its fields, and any new sound has that name. Sounds and groups grow, new sounds are fresh, and links are kept. |
| `AudioImport.AudioData.ImportNext` | GMS-Patcher/utils/patching/audioimport.cs:50-151 | One more file of the folder keeps the folder-so-far state: every audio file so far has a sound, only sounds named after them changed fields or were added, and without audio nothing changed. |
| `AudioImport.AudioData.Import` | GMS-Patcher/utils/patching/audioimport.cs:27-155 | A missing folder returns 311 and changes nothing. Otherwise it returns 0, and every audio file has a sound of its name. A sound named after no audio file keeps its fields, every new sound is named after an audio file, and a folder without audio changes nothing. Old sounds stay in front, and links are kept. |
| `AudioImport.AudioData.StoreSound` | GMS-Patcher/utils/patching/audioimport.cs:116-150 | A new sound is appended with the fields. An existing one gets every field when properties are replaced, otherwise only its audio. Other sounds are unchanged. |

## Left out

- `AtlasPacker.Packer.Process` uses the corrected last-page restore step (the last size that held every texture), not the code's doubling; see Findings. `AtlasLayout.AsWrittenAgreesOnPowersOfTwo` shows the two agree for power-of-two sizes, except the font copy when the last size is 1.
- `AtlasLayout.BestFit` compares integer areas instead of the float ratio `textureArea / nodeArea`. For the node being filled the ratio orders textures as their areas do, and page sizes up to 2048 keep areas exact in a float. The `MaxOneAxis` heuristic is left out because `FitHeuristic` is never set and defaults to `Area`.
- `AtlasPacker.TextureOf` takes the image size and content bounding box as data (`ImageFile`). Reading PNGs, ImageMagick's border/trim/crop, and `GetImageSizeFromFile` are not modelled. It is defined only on admitted files: a texture with -1 sides, which the font scan as written stores, has no `Texture` value (sides are `nat`); see Findings.
- `AtlasPacker.Packer.Process` uses the corrected scan for both copies: a file whose size cannot be read is skipped, as the graphics copy does. The font copy as written admits such a file, and a last page holding only -1 x -1 sheets never finishes its halving loop; `AtlasPacker.UnreadableSheetNeverLeftOver` shows this on a single-texture layout, not on the full layout with -1 sides.
- `FrameCheck.CheckValidity` takes the folder listing as a parameter. The null config, missing folder and null regex returns are not modelled. The negative-frame check is left out: a match of `\d+` never parses negative. Only the default frame pattern `^(.+?)(?:_(\d+))$` is modelled.
- `FrameCheck.CheckValidity` uses the corrected frame collection (`FrameDigits`, own frames only); see Findings.
- `SpriteNames.MatchFrame` takes `\d` as the ASCII digits 0-9 and `$` as the end of the stem. The .NET pattern, built without `RegexOptions.ECMAScript`, also matches any Unicode decimal digit and a `$` just before a final line break. So a stem such as "walk_٣" (an Arabic-Indic three) is not matched here.
- `SpriteNames.SpriteFrameOf` inherits that: the importer takes "walk_٣" as frame 0 of "walk" (the Int32 parse fails and leaves 0), while the model skips the file.
- `FrameCheck.CheckValidity` inherits it too: the code reports "err_invalid_frame_index_walk_٣.png" for such a file, while the model passes it.
- A sprite file name without `_digits` is skipped by the importer, which is what the code does (the regex groups come back empty). It is not imported as frame 0.
- `SpriteImport.GraphicsData.GenerateMasks` takes the mask size (UndertaleModLib's `CalculateMaskDimensions`) as a parameter.
- `SpriteImport.Sprite.ApplyCustomFields` receives the custom properties already read from JSON, as an `Overrides` record. JSON parsing, `GetJsonElement` and the logging are not modelled.
- `FontImport.Font.Update` receives the glyph file as its list of lines (`glyphs_<name>.csv`, found by font name). Opening and reading the file is not modelled. The range end comes from `UInt32.Parse` of a field that already parsed as UInt16, so it is the glyph's character.
- `Text.ParseInt16` and the other parsers take the sign symbols of the invariant culture. Culture-specific signs and thousands separators are not modelled; the written format never produces them. `Text.Lower` folds ASCII case only.
- `Text.ParseUnsigned` rejects "-0", which .NET's unsigned parsers accept as 0. The written format never produces it.
- `FontImport.Font.constructor` starts the display name as "", where UndertaleModLib has null.
- `AudioImport.AudioData.Import` takes the folder as a list of files with their bytes (None for a missing folder). `File.ReadAllBytes`, `DirectoryInfo` and the log lines are not modelled.
- `AudioImport.AudioData.Import` states per sound which sounds may change and which may be added, not the fields each audio file leaves on its sound. That per-file effect is stated by `AudioImport.AudioData.ImportFile` and is not chained across the folder, where a later file of the same name overrides an earlier one.
- `AudioImport.AudioData.PlaceInGroup` appends a missing group (the corrected lookup); see Findings.
- `AudioImport.AudioData.Import`: audio groups are names referred to by index, and the built-in group index is a parameter. An out-of-range group index throwing is not modelled. `AudioID`s of other sounds, which shift when `List.Remove` takes out an earlier entry, are not renumbered by the code and are not tracked here.
- Not modelled: saving atlases, the atlas manifest, building the page image (`CreateAtlasImage`, `SaveAtlasses`), the temp folder, and embedded-texture creation and image disposal.
- Not modelled: the GML importer, `Program.cs`, the patch-file reader and the test-file validators, which sit outside the import core.
- Not modelled: console output of every kind (`Out.*`, `Console.WriteLine`).

## Findings

| source | as written | input that shows it | evidently intended | confidence | as-written member | corrected member |
|---|---|---|---|---|---|---|
| GMS-Patcher/utils/patching/graphicsimport.cs:411-435 | After the first halving that leaves textures over, the size is doubled back (0 becomes 1) | `textureSize` 3, one 3x3 image: size 3 holds it, 1 does not, and the restore gives 2, which holds nothing. Process then adds an empty page and loops forever. | Restore the last size that held every texture (3) | high (proved; not executed) | `AtlasLayout.GraphicsRestoreOvershoots` | `AtlasLayout.ShrinkFrom` |
| GMS-Patcher/utils/patching/fontimport.cs:292-301 | The font copy doubles the failed size with no 0 -> 1 clamp | Atlas size 2, one 1x1 glyph: sizes 2 and 1 hold it, 0 does not, and the restore gives 0 * 2 = 0. Process loops forever on 0x0 pages. | Restore the last size that held every glyph (1) | high (proved; not executed) | `AtlasLayout.FontRestoreCollapses` | `AtlasLayout.ShrinkFrom` |
| GMS-Patcher/utils/patching/graphicsimport.cs:781-790 | The frames of sprite `walk` are every file `walk_*.png` the frame pattern matches, whichever sprite it names | `walk_0.png`, `walk_1.png`, `walk_run_3.png`: `walk` is checked over frames 0, 1, 3, and "err_walk_missing_frame_index_2" aborts the import | Check only the files whose sprite name is `walk` (frames 0, 1: no hole) | high (proved; not executed) | `FrameCheck.GlobCollectsOtherSprites` | `FrameCheck.FrameDigitsOwn` |
| GMS-Patcher/utils/patching/audioimport.cs:76-82 | `FirstOrDefault` over group indices returns 0 when no group has the name, so `groupID < 0` never holds | Groups ["audiogroup_default"], manual entry with audiogroup "music": the sound is put in group 0 and "music" is never created | Append the missing group and use its index | high (proved; not executed) | `AudioImport.GroupLookupMissesNewName` | `AudioImport.GroupIndex` |
| GMS-Patcher/utils/patching/fontimport.cs:345-358 | The font scan takes every image no larger than the page, including one whose size reads as -1 x -1 | One unreadable glyph sheet on the last page: -1 fits every node and 1 / nodeArea is above 0 (+Infinity on a 0 x 0 page), so every halving, down to 0 and 0 / 2 = 0, places it and the halving loop never ends | Skip an image whose size cannot be read, as the graphics scan does (graphicsimport.cs:489-490) | high (proved; not executed) | `AtlasPacker.UnreadableSheetNeverLeftOver` | `AtlasPacker.Scan` |
