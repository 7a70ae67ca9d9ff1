# Noggit3 terrain texturing, liquid mask and client databases in Dafny

This project models the core of the Noggit3 map editor for World of
Warcraft terrain. It covers seven areas:

- **TextureSet** (`texture_set.dfy`, helped by `compositing.dfy`,
  `texels.dfy` and `layer_lists.dfy`). This is the texture layering of one
  map chunk. A chunk has up to four texture layers, bottom first. Each
  non-base layer has a 64 × 64 grid of alpha bytes.
  - Relative alphas are composited top-down into absolute visibilities
    (`Compositing.Decode`). The model proves that they always add up to
    full coverage (255).
  - Visibilities are turned back into alphas by `Compositing.Encode`.
  - The model covers adding, switching, swapping, merging, erasing and
    de-duplicating layers, the clean-up of hidden layers, the two alpha
    formats, and painting with a brush stroke.
  - Each is proved against a value-level specification of the layer list,
    the texture names and the grids.
- **TextureManager** (`texture_manager.dfy`). This is the reference-counted
  texture cache, keyed by lower-case file name. The chunk's layers acquire
  and release entries in it.
- **Brush** (`brush.dfy`). This is the brush's falloff (its strength as a
  function of distance) and its cursor image.
- **Liquid** (`liquid.dfy`). This is the 8 × 8 render mask of a chunk's
  liquid and the size and offset of the drawn area.
- **misc** (`misc.dfy`). This covers reverse find-and-replace on strings,
  the German special-character substitution, and the two rounding helpers.
- **DBCFile** (`dbc_file.dfy`). These are the record, field, string and
  iterator accessors of an opened client database. A database is one
  byte block: the records, then the string table.
- **dbc** (`dbc.dfy`). These are the area-name, ground-effect-doodad and
  liquid-type lookups.

`wrappers.dfy` holds the shared `Option`, `Result` and `byte` types.

## Numbers and modelling choices

- Floating-point alphas are modelled as exact reals. The conversion back
  to a byte is modelled explicitly:
  - `Compositing.StoreRounded` is +0.5, then clamp, then truncate.
  - `Compositing.StoreTruncated` is clamp, then truncate.
- The C integer conversions are written out:
  - the size_t wrap in eraseTexture;
  - the int/unsigned conversions in dbc.cpp (`Dbc.ToUnsigned` and
    `Dbc.ToSigned`).

## Model

| member | source | states |
|---|---|---|
| Compositing.Decode | src/TextureSet.cpp:462-471 | one visibility per layer plus the base |
| Compositing.DecodeSum | src/TextureSet.cpp:462-471 | whatever the stored alphas, the decoded visibilities add up to exactly 255 |
| Compositing.DecodeInByteRange | src/TextureSet.cpp:462-471 | alphas in [0,255] decode to visibilities in [0,255] |
| Compositing.DecodeHidden | src/TextureSet.cpp:439-454 | a layer has visibility 0 if its alpha is 0 or a layer above it is fully opaque |
| Compositing.HiddenDecode | src/TextureSet.cpp:439-454 | conversely, for alphas in byte range, a layer has visibility 0 only if its alpha is 0 or a layer above it is fully opaque |
| Compositing.Encode | src/TextureSet.cpp:523-537 | one relative alpha per non-base layer |
| Compositing.EncodeShadow | src/TextureSet.cpp:523-537 | below an encoded alpha of 255 every alpha is 0 |
| Compositing.EncodeDecode | src/TextureSet.cpp:462-471 | encoding decoded visibilities gives the stored alphas back, except that an alpha under a fully opaque layer becomes 0 |
| Compositing.EncodeDecodeIdentity | src/TextureSet.cpp:462-471 | with no fully opaque layer, decode followed by encode is the identity |
| Compositing.DecodeEncode | src/TextureSet.cpp:523-537 | non-negative visibilities that leave room for the base come back from encode and decode unchanged, and the base gets the remainder |
| Compositing.ExactRoundTrip | src/TextureSet.cpp:523-537 | every full-coverage assignment of non-negative visibilities survives encode and decode |
| Compositing.EncodeInByteRange | src/TextureSet.cpp:523-537 | such visibilities encode to alphas in [0,255] |
| Compositing.StoreRounded | src/TextureSet.cpp:543 | the stored byte is in [0,255] and within one half of the clamped value |
| Compositing.StoreTruncated | src/TextureSet.cpp:168 | the stored byte is in [0,255] and less than one below the clamped value |
| Compositing.SwapVisibilityValid | src/TextureSet.cpp:146-148 | exchanging two layers' visibilities keeps full coverage and non-negativity |
| Compositing.MergeVisibilityValid | src/TextureSet.cpp:758-759 | moving layer j's visibility onto layer i keeps full coverage and non-negativity |
| Compositing.PaintVisibilityTarget | src/TextureSet.cpp:488-521 | the target's new visibility is moved by the stroke's delta and capped at 255 |
| Compositing.PaintVisibilityOthers | src/TextureSet.cpp:491-519 | every other layer either goes to 0, takes the target's loss as its neighbour, or keeps the same fraction of its visibility |
| Compositing.PaintVisibilitySum | src/TextureSet.cpp:488-521 | a stroke keeps full coverage at every texel |
| Compositing.PaintVisibilityNonNegative | src/TextureSet.cpp:488-521 | a stroke of strength in [0,255] and pressure in [0,1] keeps every visibility non-negative |
| Compositing.ShareOutScaled | src/TextureSet.cpp:509-519 | when the delta is shared out, every non-target layer keeps the same fraction of its visibility |
| Compositing.PaintRoundTrip | src/TextureSet.cpp:523-543 | the alphas a stroke writes decode exactly to the visibilities it asked for |
| Compositing.SwapRoundTrip | src/TextureSet.cpp:137-168 | the alphas swapTexture computes decode to the old visibilities with the two layers exchanged |
| Compositing.MergeRoundTrip | src/TextureSet.cpp:742-779 | the alphas mergeAlpha computes decode to the old visibilities with layer j's moved onto layer i |
| Compositing.EncodeDropZero | src/TextureSet.cpp:784-790 | a layer without visibility can be dropped before encoding without changing the other layers' alphas |
| Compositing.MergeDropRoundTrip | src/TextureSet.cpp:742-790 | after the merge, the alphas of the remaining layers are the ones computed for them, and they decode to the merged visibilities without layer j |
| Compositing.SomeLayerVisible | src/TextureSet.cpp:553-563 | a texel whose visibilities add up to something positive shows some layer |
| Texels.ApplyTexels | src/TextureSet.cpp:137-168 | visiting every texel leaves each texel with op applied to its own old column |
| Texels.SwapTexel | src/TextureSet.cpp:137-168 | each texel stores truncations of alphas that decode to the old visibilities with layers i and j exchanged |
| Texels.MergeTexel | src/TextureSet.cpp:742-779 | each texel stores roundings of alphas that decode to the merged visibilities |
| Texels.BigAlphaTexel | src/TextureSet.cpp:643-653 | convertToBigAlpha stores each layer's absolute visibility, rounded |
| Texels.OldAlphaTexel | src/TextureSet.cpp:681-703 | convertToOldAlpha stores rounded relative alphas that decode back to the absolute ones whenever those leave room for the base |
| Texels.BigOldRoundTrip | src/TextureSet.cpp:626-712 | converting to absolute alphas and back restores the stored alphas, except those under a fully opaque layer, which become 0 |
| Texels.BigAlphaGrids | src/TextureSet.cpp:626-662 | every grid holds its layer's absolute visibility within one half |
| Texels.OldAlphaGrids | src/TextureSet.cpp:664-712 | every grid holds a relative alpha within one half, and these alphas decode to the absolute ones |
| Texels.MergedGridsShow | src/TextureSet.cpp:742-790 | after the intended merge, every remaining layer holds within one half alphas that decode to the merged visibilities |
| Texels.MergedGridsAsWritten | src/TextureSet.cpp:784-790 | the grids as the code stores them (grid k receives the alphas computed for old grid k); they agree with the intended grids only when the top layer is merged away |
| Texels.MergeAsWrittenLosesLayer | src/TextureSet.cpp:784-790 | on a concrete three-layer texel, the merged layer as written ends up with visibility 0 instead of 128 |
| Texels.StoredVisible | src/TextureSet.cpp:439-454 | beyond the brush, a non-base layer shows when its alpha is positive, and the base shows unless some alpha is 255 |
| Texels.PaintTexel | src/TextureSet.cpp:437-546 | nothing is written beyond the radius or where the target already has the wanted strength; otherwise the repainted alphas are written |
| Texels.PaintedTexel | src/TextureSet.cpp:488-543 | a written texel stores roundings of alphas that decode exactly to the repainted visibilities, which keep full coverage |
| Texels.EditTexels | src/TextureSet.cpp:428-551 | the texel loop leaves the edited grids, reports whether it wrote anything, and reports which layers show at some texel |
| Texels.PaintTexels | src/TextureSet.cpp:426-551 | the same facts for a brush stroke, tied to PaintedGrids and Shown |
| Texels.UnwrittenUnchanged | src/TextureSet.cpp:426-551 | a stroke that writes no texel leaves the grids unchanged |
| Texels.SomeLayerShown | src/TextureSet.cpp:553-563 | after a stroke some layer shows, so the pruning that follows never empties the chunk |
| LayerLists.RemoveAt | src/TextureSet.cpp:199-211 | the list loses element i, and the elements above it move down one place in order |
| LayerLists.SwapAt | src/TextureSet.cpp:146-148 | the list with elements i and j exchanged and nothing else changed |
| LayerLists.LastIndex | src/TextureSet.cpp:393-395 | the index of the last occurrence of x |
| LayerLists.DedupScan | src/TextureSet.cpp:793-810 | the texture list removeDuplicate leaves as written is a sub-sequence of the old one |
| LayerLists.DedupScanKeepsDuplicate | src/TextureSet.cpp:797-807 | as written, three equal textures in a row leave a duplicate behind |
| LayerLists.Dedup | src/TextureSet.cpp:793-810 | the texture list left by the scan with the intended step is a sub-sequence of the old one |
| LayerLists.DedupDistinct | src/TextureSet.cpp:793-810 | the intended scan leaves no two equal textures |
| LayerLists.MergeKeeps | src/TextureSet.cpp:799-803 | removing the upper one of two equal layers keeps every texture of the list |
| LayerLists.DedupKeepsAll | src/TextureSet.cpp:793-810 | every texture of the list is still there after the intended scan |
| LayerLists.DedupScanKeepsAll | src/TextureSet.cpp:793-810 | every texture of the list is still there after the scan as written |
| LayerLists.DedupSameTextures | src/TextureSet.cpp:793-810 | both whole scans leave exactly the set of textures the list had: none lost, none added |
| LayerLists.DedupKeepsDistinct | src/TextureSet.cpp:793-810 | a list without duplicates comes back unchanged from both scans |
| TextureSets.ErasedSlots | src/TextureSet.cpp:190-214 | the layers above id move down in order, and the vacated top slot has tex cleared |
| TextureSets.ErasedAlphamaps | src/TextureSet.cpp:192-213 | the grid below layer id (layer 1's for the base) is discarded, the grids above move down, and the top grid pointer is cleared |
| TextureSets.ClearedIndexOutOfRange | src/TextureSet.cpp:213 | the cleared index is the top grid for two or more layers, but wraps to 2^64 - 1 for a single layer |
| TextureSets.ErasedGrids | src/TextureSet.cpp:192-213 | erasing layer id removes exactly its grid from the chunk's grids |
| TextureSets.UnusedLayerHidden | src/TextureSet.cpp:321-359 | every layer it drops has visibility 0 at every texel |
| TextureSets.CoveredBaseKeepsTwo | src/TextureSet.cpp:361-366 | when the base is dropped, at least one layer above it remains to take its place |
| TextureSets.AllInUseKeepsAll | src/TextureSet.cpp:311-369 | when every layer is in use, nothing is kept out or released |
| TextureSets.TextureSet.constructor | src/TextureSet.cpp:15 | an empty chunk with no layers |
| TextureSets.TextureSet.Num | src/TextureSet.cpp:585-588 | the number of layers, at most four |
| TextureSets.TextureSet.Flag | src/TextureSet.cpp:590-593 | the flags of layer id |
| TextureSets.TextureSet.Effect | src/TextureSet.cpp:595-598 | the ground effect of layer id |
| TextureSets.TextureSet.Texture | src/TextureSet.cpp:620-623 | the texture of layer id |
| TextureSets.TextureSet.GetAlpha | src/TextureSet.cpp:610-613 | the stored alpha of grid id at that offset |
| TextureSets.TextureSet.GetAlphamap | src/TextureSet.cpp:615-618 | the whole grid id |
| TextureSets.TextureSet.SetAlpha | src/TextureSet.cpp:600-603 | only that byte of grid id changes, and the layers stay as they were |
| TextureSets.TextureSet.SetAlphamap | src/TextureSet.cpp:605-608 | only grid id is replaced |
| TextureSets.TextureSet.AddTexture | src/TextureSet.cpp:72-101 | returns -1 and changes nothing for a full chunk; otherwise appends the texture with a blank grid, returns its level and takes one cache reference |
| TextureSets.TextureSet.SwitchTexture | src/TextureSet.cpp:103-119 | renames the topmost layer with oldTexture unless newTexture is already present; otherwise nothing changes |
| TextureSets.TextureSet.SwapTexture | src/TextureSet.cpp:122-174 | for valid ids, the textures swap and every texel's visibilities are exchanged and re-encoded with truncation; otherwise nothing changes |
| TextureSets.TextureSet.ConvertToBigAlpha | src/TextureSet.cpp:626-662 | every grid holds its layer's absolute visibility within one half; the layers are unchanged |
| TextureSets.TextureSet.ConvertToOldAlpha | src/TextureSet.cpp:664-712 | every grid holds relative alphas within one half that decode to the absolute ones wherever these leave room for the base |
| TextureSets.TextureSet.MergeAlpha | src/TextureSet.cpp:714-791 | invalid or equal ids change nothing; with the base involved, the other layer is erased; otherwise layer id2 is removed and the grids become MergedGrids |
| TextureSets.TextureSet.MergeAlphaAsWritten | src/TextureSet.cpp:714-791 | as written: invalid or equal ids change nothing; with the base involved, the other layer is erased; otherwise layer id2 is removed, its texture released, and the grids become MergedGridsAsWritten |
| TextureSets.TextureSet.RemoveDuplicate | src/TextureSet.cpp:793-810 | the textures become Dedup of the old ones, no two are equal, the grids become DedupGrids (each merge by MergeAlpha), and it reports a change exactly when a layer went; every texture of the chunk is still on it and none is added; a list without duplicates is untouched |
| TextureSets.TextureSet.RemoveDuplicateAsWritten | src/TextureSet.cpp:793-810 | as written: the textures become DedupScan of the old ones and the grids DedupGrids with each merge done by mergeAlpha as written; every texture of the chunk is still on it and none is added |
| TextureSets.DedupGridsDistinct | src/TextureSet.cpp:793-810 | without duplicate textures, the de-duplication leaves the grids as they are |
| TextureSets.TextureSet.EraseTexture | src/TextureSet.cpp:184-217 | ids above 3 change nothing; otherwise the layer is removed, its grid is discarded, and one reference to its texture is released |
| TextureSets.TextureSet.EraseTextures | src/TextureSet.cpp:176-182 | no layer is left, and every texture was released top layer first |
| TextureSets.TextureSet.EraseUnusedTextures | src/TextureSet.cpp:311-369 | the layers and grids become those InUse keeps, and a covered base hands its slot to the next layer; reports exactly whether something was dropped |
| TextureSets.TextureSet.FindTexture | src/TextureSet.cpp:393-395 | -1 exactly when no layer has the texture, otherwise the topmost layer holding it |
| TextureSets.TextureSet.PaintTexture | src/TextureSet.cpp:371-583 | what each case of a stroke does (see below the table) |
| TextureSets.TextureSet.PaintPresent | src/TextureSet.cpp:408-410 | a one-layer chunk reports a change and stays as it is; otherwise the textures, grids and cache are those the stroke on the texture's layer leaves |
| TextureSets.TextureSet.PaintAbsent | src/TextureSet.cpp:397-421 | strength 0 changes nothing; a full chunk without unused layers gives up; otherwise the texture is added and acquired, and the textures, grids and cache are those the stroke on the new layer leaves |
| TextureSets.TextureSet.MakeRoom | src/TextureSet.cpp:402-406 | a full chunk makes room exactly when some layer is unused, and otherwise stays as it was |
| TextureSets.TextureSet.PaintLayer | src/TextureSet.cpp:423-583 | reports a change exactly when a texel was written; the new grids are the painted ones, with layers that no longer show pruned |
| TextureSets.TextureSet.PruneHidden | src/TextureSet.cpp:557-563 | exactly the layers that show are kept, and the others are released |
| TextureSets.ReleasedNames | src/TextureSet.cpp:557-563 | the cache releases of the pruning pass are the textures of the dropped layers, highest first |
| TextureSets.ScanAlphamap | src/TextureSet.cpp:331-348 | whether the grid has a painted texel, and whether it has a texel that is not fully opaque |
| TextureSets.TextureSet.ShiftDown | src/TextureSet.cpp:190-216 | one layer fewer; the slots and grid pointers become ErasedSlots and ErasedAlphamaps, with the top pointer cleared only when it exists |
| TextureManagement.ToLower | src/noggit/TextureManager.cpp:27 | same length; only 'A'..'Z' change, each to its lower-case letter |
| TextureManagement.ToLowerIdempotent | src/noggit/TextureManager.cpp:27 | the result is lower-case, and lower-casing twice equals lower-casing once |
| TextureManagement.Acquire | src/noggit/TextureManager.cpp:45-50 | the key gains an entry with at least one reference; other entries are unchanged |
| TextureManagement.Release | src/noggit/TextureManager.cpp:29-38 | an unknown key changes nothing; the last reference removes the entry; otherwise the count drops by one |
| TextureManagement.AcquireRelease | src/noggit/TextureManager.cpp:25-53 | one acquire followed by one release restores the cache |
| TextureManagement.AcquireReleaseTimes | src/noggit/TextureManager.cpp:25-53 | k acquires followed by k releases of a new name restore the cache |
| TextureManagement.TidyKept | src/noggit/TextureManager.cpp:25-53 | both updates keep every entry lower-case with a positive count |
| TextureManagement.HasLeast | src/noggit/TextureManager.cpp:55-66 | every non-empty set of names has a least one in the map's order |
| TextureManagement.TextureManager.NewTexture | src/noggit/TextureManager.cpp:41-53 | returns the lower-cased name and takes one reference to it |
| TextureManagement.TextureManager.DelByName | src/noggit/TextureManager.cpp:25-39 | drops one reference to the lower-cased name |
| TextureManagement.TextureManager.AddReference | src/TextureSet.cpp:81 | takes one more reference to a cached texture |
| TextureManagement.TextureManager.GetAllTexturesMatching | src/noggit/TextureManager.cpp:55-66 | exactly the cached names that pass the filter, in strictly ascending order |
| Brushes.FalloffInUnit | src/Brush.cpp:71-78 | a consistent brush's strength lies in [0,1] |
| Brushes.FalloffEnds | src/Brush.cpp:71-78 | full strength inside and at the inner radius, 0 beyond the radius, and 0 at the radius itself |
| Brushes.FalloffNonIncreasing | src/Brush.cpp:71-78 | strength never grows with distance |
| Brushes.KernelTexel | src/Brush.cpp:31-36 | a cursor texel is in [0,255]: 0 outside the unit circle and 255 inside the hardness |
| Brushes.Brush.Init | src/Brush.cpp:7-15 | radius 15, hardness 0.5, and inner and outer radius 7.5 each |
| Brushes.Brush.GenerateTexture | src/Brush.cpp:17-48 | the update request is cleared |
| Brushes.Brush.SetHardness | src/Brush.cpp:50-56 | the new hardness with the same radius, and an update is requested |
| Brushes.Brush.SetRadius | src/Brush.cpp:57-62 | the new radius with the same hardness; the update flag is untouched |
| Brushes.Brush.GetHardness | src/Brush.cpp:63-66 | the brush's hardness; for a consistent brush, the inner radius is it times the radius and the outer radius the rest |
| Brushes.Brush.GetRadius | src/Brush.cpp:67-70 | the brush's radius; for a consistent brush, the inner and outer radii add up to it |
| Brushes.Brush.GetValue | src/Brush.cpp:71-78 | the falloff `Brushes.Falloff` defines (the function the three Falloff lemmas are about): in [0,1]; 0 beyond the radius; 1 inside the inner radius |
| Brushes.Brush.NeedUpdate | src/Brush.cpp:83-86 | the update flag: set by SetHardness, kept by SetRadius, cleared by Init and GenerateTexture |
| Liquids.RowCountPositive | src/noggit/Liquid.cpp:478-496 | a row has a positive count exactly when it has a drawn tile |
| Liquids.WidthIsMax | src/noggit/Liquid.cpp:478-496 | the width is no smaller than any row's count and equals one of them (or 0) |
| Liquids.EmptySizes | src/noggit/Liquid.cpp:478-496 | height 0 exactly when no row has a drawn tile, and width 0 exactly when height is 0 |
| Liquids.Liquid.GetWidth | src/noggit/Liquid.cpp:422-424 | in [0,8], and no row has more drawn tiles |
| Liquids.Liquid.GetHeight | src/noggit/Liquid.cpp:426-428 | in [0,8], and 0 exactly when no tile is drawn |
| Liquids.Liquid.GetXOffset | src/noggit/Liquid.cpp:430-440 | the smallest column holding a drawn tile, or 8 when none is drawn |
| Liquids.Liquid.GetYOffset | src/noggit/Liquid.cpp:442-452 | the smallest row holding a drawn tile, or 8 when none is drawn |
| Liquids.Liquid.IsNotEmpty | src/noggit/Liquid.cpp:454-462 | true exactly when some tile is drawn |
| Liquids.Liquid.RecalcSize | src/noggit/Liquid.cpp:478-496 | xtiles is the widest row's count and ytiles the number of rows with a drawn tile |
| Liquids.Liquid.IsRendered | src/noggit/Liquid.cpp:464-466 | a drawn tile makes both sizes of the drawn area at least 1 |
| Liquids.Liquid.SetRender | src/noggit/Liquid.cpp:468-471 | tile (i, j) is drawn, every other tile is unchanged, and the sizes match the new mask |
| Liquids.Liquid.UnsetRender | src/noggit/Liquid.cpp:473-476 | tile (i, j) is hidden, every other tile is unchanged, and the sizes match the new mask |
| Misc.RFind | src/misc.cpp:8 | the start of the last occurrence of the pattern, or None exactly when it does not occur |
| Misc.FindAndReplace | src/misc.cpp:6-11 | without an occurrence the text is unchanged; otherwise the last occurrence is replaced and the text before and after it is kept |
| Misc.EarlierOccurrencesKept | src/misc.cpp:6-11 | an occurrence that ends before the replaced one is still there afterwards |
| Misc.AsciiUnchanged | src/misc.cpp:47-57 | pure ASCII text passes through the substitution unchanged |
| Misc.ReplaceSpecialCharsAsWritten | src/misc.cpp:47-57 | the text after the seven substitutions as written |
| Misc.UpperUKeptAsWritten | src/misc.cpp:55 | as written, "Ü" is left as it is |
| Misc.ReplaceSpecialChars | src/misc.cpp:47-57 | the text after the seven intended substitutions; ASCII text is unchanged |
| Misc.UpperUReplaced | src/misc.cpp:55 | with the intended pattern, "Ü" becomes "Ue" |
| Misc.LastOccurrenceOnly | src/misc.cpp:49 | only the last "ä" of "ää" is spelled out |
| Misc.FtoIround | src/misc.cpp:14-17 | the nearest integer, with ties going away from zero |
| Misc.Roundc | src/misc.cpp:19-30 | the nearest integer (ties away from zero), clamped to [-127,127] |
| DbcFiles.Uint32At | src/DBCFile.h:44-48 | a word below 2^32 whose low byte is the first and whose high byte is the last |
| DbcFiles.Uint32RoundTrip | src/DBCFile.h:44-48 | reading back a word written little-endian gives the word |
| DbcFiles.DBCFile.Text | src/DBCFile.h:54-60 | the bytes from p up to, but not including, the first NUL (or the end) |
| DbcFiles.Record.GetUInt | src/DBCFile.h:44-48 | the field's unsigned word |
| DbcFiles.Record.GetString | src/DBCFile.h:54-60 | a pointer into the string table, at the offset the field holds |
| DbcFiles.Record.ChosenLocale | src/DBCFile.h:61-79 | the requested locale, or for -1 the first of nine slots with a nonzero offset (9 if none) |
| DbcFiles.Record.LocalizedString | src/DBCFile.h:61-79 | the string of the chosen locale, inside the string table |
| DbcFiles.Record.GetLocalizedString | src/DBCFile.h:61-79 | the loop finds exactly LocalizedString |
| DbcFiles.Record.FirstLocale | src/DBCFile.h:67-72 | the first locale slot holding a string |
| DbcFiles.GetRecord | src/DBCFile.h:118-122 | record id starts id × recordSize bytes in, and lies inside the record block when id < recordCount |
| DbcFiles.FindByID | src/DBCFile.h:137-145 | the first record whose field equals id; None exactly when no record matches |
| DbcFiles.Iterator.Advance | src/DBCFile.h:96-99 | moves on by one record size |
| DbcFiles.Iterator.Current | src/DBCFile.h:100-104 | the record of the iterator's file at the iterator's offset |
| DbcFiles.Iterator.Equals | src/DBCFile.h:106-109 | two iterators over one file are equal exactly when they designate the same record |
| DbcFiles.Begin | src/DBCFile.h:124-128 | an iterator at the first record |
| DbcFiles.End | src/DBCFile.h:129-133 | an iterator at the string table, just past the last record |
| DbcFiles.GetByID | src/DBCFile.h:137-145 | the first matching record, or NotFound exactly when none matches |
| Dbc.ToUnsigned | src/dbc.cpp:46 | the area id as getByID's unsigned key: below 2^32, congruent to the id modulo 2^32, and the id itself when it is already in range |
| Dbc.ToSigned | src/dbc.cpp:97 | a 32-bit int whose unsigned conversion is the word |
| Dbc.AreaNameCases | src/dbc.cpp:38-76 | the five cases: id 0; unknown id; no region; unknown region; "Region: Name", each substituted |
| Dbc.GetAreaName | src/dbc.cpp:38-76 | the area name as AreaName defines it |
| Dbc.AreaNameKeepsUpperUAsWritten | src/dbc.cpp:73 | as written, an area outside any region named "Ü" keeps that name |
| Dbc.AreaNameReplacesUpperU | src/dbc.cpp:73 | with the intended pattern, such an area is named "Ue" |
| Dbc.GroundEffectDoodad | src/dbc.cpp:78-90 | None exactly when either lookup fails; otherwise a pointer into the doodad table's strings |
| Dbc.GetGroundEffectDoodad | src/dbc.cpp:78-90 | the pointer GroundEffectDoodad defines |
| Dbc.GetLiquidType | src/dbc.cpp:92-105 | 0 for an unknown id, otherwise the signed value of the type field |

`TextureSets.TextureSet.PaintTexture` covers every case of a stroke:

- It changes nothing outside paint mode.
- It changes nothing when the brush cannot reach the chunk.
- It changes nothing for an absent texture with strength 0.
- A present texture on a one-layer chunk reports a change and leaves the
  chunk as it was.
- On a chunk with two or more layers, the stroke is applied to the
  texture's layer:
  - the result reports a change exactly when a texel was written;
  - the layers left are those that still show;
  - the grids are the painted ones, less those of the dropped layers;
  - each dropped layer's texture is released, top layer first.
- An absent texture gets a new layer and one cache reference. The
  stroke is applied to the new layer with the same results.
- A full chunk with no unused layer gives up.
- The texture list is always a sub-sequence of the old list plus the new
  texture.

## Left out

- Floating point: alphas, distances and brush values are exact reals. IEEE rounding of the intermediate float results is not modelled; only the byte stores are explicit.
- Environment::paintMode, the chunk-to-brush distance, MAPCHUNK_RADIUS and the per-texel distances of paintTexture are parameters of `PaintTexture`. The square roots that compute them are not modelled.
- The OpenGL side of TextureSet is not modelled. This covers filename, bindAlphamap, bindTexture, start2DAnim, stop2DAnim, startAnim and stopAnim, and the loadTexture calls after each grid rewrite. These only upload or bind data.
- initTextures and initAlphamaps read MCLY/MCAL chunks from the ADT file. The file formats and the decompression are not part of this model; a chunk is created empty.
- Texture loading, and the OpenGL texture objects of TextureManager, are not modelled. A cached texture is its lower-cased name with a reference count.
- The bitmap that Brush::GenerateTexture builds is not modelled; `KernelTexel` states the value of one texel. Only the update flag is modelled.
- misc.cpp frand, randfloat and randint use rand(). They are left out, and so is getADTCord, a float division.
- The global tables and OpenDBs() are not modelled, nor is the file reading of DBCFile::open(). A database is given as its byte block, and `DBCFile.Valid` states the layout open() leaves.
- The field numbers of dbc.h are parameters of the lookups.
- getFloat, getInt, getRecordCount and getFieldCount are single reads of the same kind as `GetUInt`. They are left out.
- Liquid.cpp is modelled only for its render mask. Reading liquid data from files, the height map and the drawing code are not modelled. Liquid.h is not part of this model.
- `Liquids.Liquid`'s constructor models no source constructor. It stands in for loading and gives an empty mask whose sizes match it.
- Strings in misc and dbc are byte sequences (UTF-8 as stored in the database). Strings in TextureSet and TextureManager are sequences of characters.
- dbc.cpp's find_and_replace keeps rfind's result in an int. This only differs from misc.cpp's version for strings of 2^31 bytes or more. Both are modelled by `Misc.FindAndReplace`.
- Dbc.GetAreaName: uses the corrected substitution list (see Findings). `Dbc.AreaNameAsWritten` models the name with the list as written.
- DbcFiles.DBCFile.Text: stops at the end of the file when no NUL follows. The source would read past the buffer.
- DbcFiles.Record.LocalizedOk: requires the nine locale slots to be fields of the record. getLocalizedString checks `field < fieldCount - 8` in size_t, which wraps around when fieldCount < 8; that wrap is not modelled.
- TextureSets.TextureSet.EraseTexture: requires an id either above 3 or in use. Erasing an unused slot below 4 would decrement nTextures past the layers that exist; the callers never do it.
- TextureSets.TextureSet.RemoveDuplicate: the cache releases of the merges are not stated when duplicates exist. Each merge releases one reference, as `MergeAlpha` states.
- TextureSets.TextureSet.RemoveDuplicateAsWritten: the cache releases of the merges are not stated when duplicates exist, as for `RemoveDuplicate`.
- TextureSets.TextureSet.PaintTexture: when a full chunk first drops its unused layers, the contract states only that the texture list stays a sub-sequence. The result of painting afterwards is not stated.
- TextureSets.TextureSet.PaintAbsent: the same full-chunk case is stated only as a sub-sequence of the texture list.
- Liquids.Liquid.GetWidth: requires xtiles and ytiles to match the mask. In the source, setMH2OData writes the mask without recalcSize, so the sizes can be stale; liquid loading is not part of this model, and every modelled change of the mask recomputes them.
- Liquids.Liquid.GetHeight: requires matching sizes, as `GetWidth` does.
- Brushes.Brush.GetValue: requires a distance where the source does not divide 0 by 0. A brush with outer radius 0 yields NaN between the two radii. The same per-texel requirement on the texel distances is carried by `TextureSets.TextureSet.PaintTexture`, `PaintPresent`, `PaintAbsent` and `PaintLayer`.
- TextureSets.TextureSet.PaintTexture: requires every texel distance to be one where the brush value is defined, as for `Brushes.Brush.GetValue`; `PaintPresent`, `PaintAbsent` and `PaintLayer` carry the same requirement.
- Misc.FtoIround: the result is an unbounded integer. In the source, the conversion of d ± 0.5 to int is undefined once that value leaves [-2^31, 2^31); such inputs are not excluded, and the nearest-integer claim holds only inside that range. `Misc.Roundc` clamps before converting and is not affected.

## Findings

| source | as written | input that shows it | evidently intended | confidence | as-written member | corrected member |
|---|---|---|---|---|---|---|
| src/TextureSet.cpp:213 | `alphamaps[nTextures - 2] = nullptr` in size_t | eraseTexture(0) on a chunk with one layer: the index wraps to 2^64 - 1 | clear the top grid pointer only when there is one (two or more layers) | not executed | TextureSets.ClearedIndexOutOfRange | TextureSets.TextureSet.EraseTexture |
| src/TextureSet.cpp:784-790 | after eraseTexture(id2), grid k receives the alphas computed for old grid k | three layers with alphas 128 and 0, merging layer 1 into layer 2: the merged layer ends with visibility 0 instead of 128 | leave out the emptied layer's entry, so each grid gets its own layer's alphas | not executed | Texels.MergeAsWrittenLosesLayer | Texels.MergedGridsShow |
| src/TextureSet.cpp:797-807 | the inner index j moves on after mergeAlpha(i, j) | three layers with the same texture: one duplicate remains | keep j after a merge, since the next layer has moved into its place | not executed | LayerLists.DedupScanKeepsDuplicate | LayerLists.DedupDistinct |
| src/misc.cpp:55 | the pattern for "Ü" is the bytes EF BF BD 6F 65 (a replacement character followed by "oe") | "Ü" (C3 9C) is left unchanged | replace "Ü" by "Ue" | not executed | Misc.UpperUKeptAsWritten | Misc.UpperUReplaced |
| src/dbc.cpp:73 | getAreaName uses the same pattern, EF BF BD 6F 65, for "Ü" | an area outside any region named "Ü" keeps that name | name it "Ue" | not executed | Dbc.AreaNameKeepsUpperUAsWritten | Dbc.AreaNameReplacesUpperU |
